/** `run_parallel` is safe: what holds at every moment of every run, and how a run can end. */
module ParallelSafety {
  import opened Wrappers
  import opened PyText
  import opened Combinations
  import opened ParallelRunner

  ghost predicate Shaped(c: Call, s: State) {
    && |s.status| == |c.labels| && |s.slots| == c.workers
    && s.pending <= AllItems(|c.labels|)
  }

  /** The driver's books: every item is counted as completed or still pending. */
  ghost predicate Booked(c: Call, s: State) {
    && s.completed + |s.pending| == |c.labels|
    && forall i :: 0 <= i < |s.status| && i !in s.pending ==> IsDone(s.status[i])
  }

  /** Threads and statuses agree, and no two threads run the same item. */
  ghost predicate Slotted(s: State) {
    && (forall w :: 0 <= w < |s.slots| && s.slots[w].Some? ==>
          0 <= s.slots[w].value < |s.status| && s.status[s.slots[w].value] == Running)
    && (forall w, v :: 0 <= w < v < |s.slots| && s.slots[w].Some? ==> s.slots[w] != s.slots[v])
    && forall i :: 0 <= i < |s.status| && s.status[i] == Running ==> Some(i) in s.slots
  }

  /** Starts happen in submission order, and exactly the taken items have started. */
  ghost predicate InOrder(s: State) {
    && Increasing(s.started)
    && (forall i :: i in s.started ==> 0 <= i < |s.status|)
    && (forall i :: 0 <= i < |s.status| ==> (i in s.started <==> s.status[i] != Queued && s.status[i] != Cancelled))
    && forall i, j :: i in s.started && 0 <= j < |s.status| && s.status[j] == Queued ==> i < j
  }

  ghost predicate Phased(c: Call, s: State) {
    match s.phase
    case Waiting => |c.labels| > 0 && NothingCancelled(s)
    case Draining => NothingCancelled(s) && s.pending == {}
    case Returned => NothingCancelled(s) && s.pending == {}
    case Cancelling(todo, report) =>
      && c.timed && todo <= s.pending && s.pending != {} && report == Report(c, s.pending)
      && forall i :: i in s.pending && i !in todo && 0 <= i < |s.status| ==> s.status[i] != Queued
    case TimedOut(report) =>
      && c.timed && s.pending != {} && report == Report(c, s.pending) && NothingQueued(s)
  }

  ghost predicate NothingCancelled(s: State) {
    forall i :: 0 <= i < |s.status| ==> s.status[i] != Cancelled
  }

  ghost predicate NothingQueued(s: State) {
    forall i :: 0 <= i < |s.status| ==> s.status[i] != Queued
  }

  ghost predicate Inv(c: Call, s: State) {
    Shaped(c, s) && Booked(c, s) && Slotted(s) && InOrder(s) && Phased(c, s)
  }

  lemma InitialInv(c: Call)
    ensures Inv(c, Initial(c))
  {
    assert |c.labels| == 0 ==> Initial(c).pending == {};
  }

  lemma StartTakesSlot(c: Call, s: State, w: nat, i: int)
    requires Slotted(s) && Enabled(c, s, Start(w, i))
    ensures Slotted(Apply(c, s, Start(w, i)))
  {
    var t := Apply(c, s, Start(w, i));
    assert Some(i) !in s.slots by {
      assert forall v :: 0 <= v < |s.slots| && s.slots[v].Some? ==> s.status[s.slots[v].value] == Running;
    }
    forall k | 0 <= k < |t.status| && t.status[k] == Running
      ensures Some(k) in t.slots
    {
      if k == i {
        assert t.slots[w] == Some(k);
      } else {
        var v :| 0 <= v < |s.slots| && s.slots[v] == Some(k);
        assert t.slots[v] == Some(k);
      }
    }
  }

  lemma StartKeepsOrder(c: Call, s: State, w: nat, i: int)
    requires InOrder(s) && Enabled(c, s, Start(w, i))
    ensures InOrder(Apply(c, s, Start(w, i)))
  {
    var t := Apply(c, s, Start(w, i));
    assert i !in s.started;
    IncreasingAppend(s.started, i);
    hide Increasing;
    assert forall k :: k in t.started <==> k in s.started || k == i;
  }

  lemma StartKeeps(c: Call, s: State, w: nat, i: int)
    requires Inv(c, s) && Enabled(c, s, Start(w, i))
    ensures Inv(c, Apply(c, s, Start(w, i)))
  {
    StartTakesSlot(c, s, w, i);
    StartKeepsOrder(c, s, w, i);
    hide Report, InOrder, Slotted, AllItems;
  }

  lemma FinishFreesSlot(c: Call, s: State, w: nat, ok: bool)
    requires Slotted(s) && Enabled(c, s, Finish(w, ok))
    ensures Slotted(Apply(c, s, Finish(w, ok)))
  {
    var t := Apply(c, s, Finish(w, ok));
    assert forall k :: 0 <= k < |t.status| && k != s.slots[w].value ==> t.status[k] == s.status[k];
    forall v | 0 <= v < |t.slots| && t.slots[v].Some?
      ensures t.status[t.slots[v].value] == Running
    {
      assert s.slots[v] == t.slots[v] && s.slots[v] != s.slots[w];
    }
    forall k | 0 <= k < |t.status| && t.status[k] == Running
      ensures Some(k) in t.slots
    {
      var v :| 0 <= v < |s.slots| && s.slots[v] == Some(k);
      assert t.slots[v] == Some(k);
    }
  }

  lemma FinishKeepsOrder(c: Call, s: State, w: nat, ok: bool)
    requires InOrder(s) && Enabled(c, s, Finish(w, ok))
    requires 0 <= s.slots[w].value < |s.status| && s.status[s.slots[w].value] == Running
    ensures InOrder(Apply(c, s, Finish(w, ok)))
  {
    hide Increasing;
  }

  lemma FinishKeeps(c: Call, s: State, w: nat, ok: bool)
    requires Inv(c, s) && Enabled(c, s, Finish(w, ok))
    ensures Inv(c, Apply(c, s, Finish(w, ok)))
  {
    assert s.status[s.slots[w].value] == Running;
    FinishFreesSlot(c, s, w, ok);
    FinishKeepsOrder(c, s, w, ok);
    FinishKeepsBooks(c, s, w, ok);
    hide Report, InOrder, Slotted, Booked, AllItems;
  }

  lemma FinishKeepsBooks(c: Call, s: State, w: nat, ok: bool)
    requires Booked(c, s) && Enabled(c, s, Finish(w, ok)) && |s.status| == |c.labels|
    ensures Booked(c, Apply(c, s, Finish(w, ok)))
  {
  }

  lemma WaitKeeps(c: Call, s: State, done: set<int>)
    requires Inv(c, s) && Enabled(c, s, Wait(done))
    ensures Inv(c, Apply(c, s, Wait(done)))
  {
    assert s.pending == (s.pending - done) + done;
  }

  lemma CancelKeeps(c: Call, s: State, i: int)
    requires Inv(c, s) && Enabled(c, s, Cancel(i))
    ensures Inv(c, Apply(c, s, Cancel(i)))
  {
    var t := Apply(c, s, Cancel(i));
    CancelKeepsThreads(s, t, i);
    CancelKeepsQueue(s, t, i);
    hide Report, Slotted, InOrder, AllItems;
  }

  /** Item i is cancelled if it was queued; nothing else changes. */
  ghost predicate Cancels(s: State, t: State, i: int) {
    t.slots == s.slots && t.started == s.started && t.status == CancelOne(s.status, i)
  }

  lemma CancelKeepsThreads(s: State, t: State, i: int)
    requires Slotted(s) && Cancels(s, t, i)
    ensures Slotted(t)
  {
  }

  lemma CancelKeepsQueue(s: State, t: State, i: int)
    requires InOrder(s) && Cancels(s, t, i)
    ensures InOrder(t)
  {
    hide Increasing;
  }

  /** After the cancel loop the queue is already empty, so the pool has nothing left to cancel. */
  lemma ShutdownCancelsNothing(c: Call, s: State)
    requires Inv(c, s) && Enabled(c, s, Shutdown)
    ensures NothingQueued(s) && Apply(c, s, Shutdown).status == s.status
    ensures Inv(c, Apply(c, s, Shutdown))
  {
    hide Report, Increasing, AllItems;
    forall i | 0 <= i < |s.status|
      ensures s.status[i] != Queued
    {
      assert i !in s.pending ==> IsDone(s.status[i]);
    }
    assert CancelQueue(s.status) == s.status;
  }

  lemma StepKeeps(c: Call, s: State, step: Step)
    requires Inv(c, s) && Enabled(c, s, step)
    ensures Inv(c, Apply(c, s, step))
  {
    match step
    case Start(w, i) => StartKeeps(c, s, w, i);
    case Finish(w, ok) => FinishKeeps(c, s, w, ok);
    case Wait(done) => WaitKeeps(c, s, done);
    case Cancel(i) => CancelKeeps(c, s, i);
    case Shutdown => ShutdownCancelsNothing(c, s);
    case Timeout =>
    case LeaveLoop =>
    case Join =>
  }

  lemma {:induction false} RunKeeps(c: Call, s: State, steps: seq<Step>)
    requires Inv(c, s) && Runs(c, s, steps)
    ensures Inv(c, After(c, s, steps))
    decreases |steps|
  {
    hide Inv, Enabled, Apply;
    if steps != [] {
      StepKeeps(c, s, steps[0]);
      RunKeeps(c, Apply(c, s, steps[0]), steps[1..]);
    }
  }

  // ---------------------------------------------------------------- results over all runs

  ghost function RunningItems(s: State): set<int> {
    set i | 0 <= i < |s.status| && s.status[i] == Running
  }

  function SlotItems(slots: seq<Option<int>>): (items: set<int>)
    ensures |items| <= |slots|
    ensures forall i :: i in items <==> Some(i) in slots
  {
    if slots == [] then {}
    else
      var rest := SlotItems(slots[1..]);
      assert slots == [slots[0]] + slots[1..];
      if slots[0].Some? then rest + {slots[0].value} else rest
  }

  /** What holds at every moment of every run. */
  lemma AlwaysSafe(c: Call, steps: seq<Step>)
    requires Runs(c, Initial(c), steps)
    ensures var s := After(c, Initial(c), steps);
            && s.completed + |s.pending| == |c.labels|
            && Increasing(s.started)
            && |set i | 0 <= i < |s.status| && s.status[i] == Running| <= c.workers
  {
    InitialInv(c);
    RunKeeps(c, Initial(c), steps);
    var s := After(c, Initial(c), steps);
    hide Runs, After, Initial, InOrder, Phased;
    assert RunningItems(s) <= SlotItems(s.slots);
    SubsetIsSmaller(RunningItems(s), SlotItems(s.slots));
  }

  /** Never more than `resolve_workers` answers run at once. */
  lemma NeverMoreThanResolved(labels: seq<Text>, configured: Option<int>, cpus: Option<nat>, timed: bool,
                              steps: seq<Step>)
    requires Runs(MakeCall(labels, configured, cpus, timed), Initial(MakeCall(labels, configured, cpus, timed)), steps)
    ensures var c := MakeCall(labels, configured, cpus, timed);
            var s := After(c, Initial(c), steps);
            |set i | 0 <= i < |s.status| && s.status[i] == Running| <= ResolveWorkers(configured, cpus, |labels|)
  {
    AlwaysSafe(MakeCall(labels, configured, cpus, timed), steps);
  }

  lemma {:induction false} IncreasingFromZero(s: seq<int>, n: nat)
    requires Increasing(s) && forall i :: i in s <==> 0 <= i < n
    ensures |s| == n && forall k :: 0 <= k < n ==> s[k] == k
  {
    var all := seq(n, i => i);
    assert forall i :: 0 <= i < n ==> all[i] == i;
    assert Increasing(all);
    forall i
      ensures i in s <==> i in all
    {
      assert 0 <= i < n ==> all[i] == i;
    }
    IncreasingUnique(s, all);
  }

  lemma AllDoneWithoutPending(c: Call, s: State)
    requires Shaped(c, s) && Booked(c, s) && NothingCancelled(s) && s.pending == {}
    ensures s.completed == |c.labels| && forall i :: 0 <= i < |s.status| ==> IsDone(s.status[i])
  {
  }

  /** A normal return means every item ran once, in submission order, and succeeded or failed. */
  lemma ReturnMeansAllDone(c: Call, steps: seq<Step>)
    requires Runs(c, Initial(c), steps) && After(c, Initial(c), steps).phase.Returned?
    ensures var s := After(c, Initial(c), steps);
            && s.completed == |c.labels| == |s.started| && s.pending == {}
            && (forall i :: 0 <= i < |s.status| ==> IsDone(s.status[i]))
            && forall k :: 0 <= k < |s.started| ==> s.started[k] == k
  {
    InitialInv(c);
    RunKeeps(c, Initial(c), steps);
    var s := After(c, Initial(c), steps);
    AllDoneWithoutPending(c, s);
    hide Runs, After, Initial, Slotted, Report, Increasing, Booked, NothingCancelled;
    assert forall i :: 0 <= i < |s.status| ==> i in s.started;
    IncreasingFromZero(s.started, |s.status|);
  }

  /** The final `shutdown(wait=True)` has no item to wait for. */
  lemma DrainingIsIdle(c: Call, steps: seq<Step>)
    requires Runs(c, Initial(c), steps) && After(c, Initial(c), steps).phase.Draining?
    ensures Enabled(c, After(c, Initial(c), steps), Join)
  {
    InitialInv(c);
    RunKeeps(c, Initial(c), steps);
    var s := After(c, Initial(c), steps);
    hide Runs, After, Initial, Slotted, InOrder;
    forall i | 0 <= i < |s.status|
      ensures s.status[i] != Queued && s.status[i] != Running
    {
      assert IsDone(s.status[i]);
    }
  }

  /** The pending items that carry a given label. */
  function Labelled(labels: seq<Text>, pending: set<int>, l: Text): set<int> {
    set i | 0 <= i < |labels| && i in pending && labels[i] == l
  }

  lemma LabelledSplits(labels: seq<Text>, pending: set<int>, l: Text)
    requires labels != []
    ensures var n := |labels| - 1;
            Labelled(labels, pending, l) ==
              Labelled(labels[..n], pending, l) + if n in pending && labels[n] == l then {n} else {}
    ensures |labels| - 1 !in Labelled(labels[..|labels| - 1], pending, l)
  {
    var n := |labels| - 1;
    assert forall i :: 0 <= i < n ==> labels[..n][i] == labels[i];
  }

  lemma {:induction false} LabelsCounted(labels: seq<Text>, pending: set<int>, l: Text)
    ensures multiset(LabelsOf(labels, pending))[l] == |Labelled(labels, pending, l)|
  {
    if labels != [] {
      LabelledSplits(labels, pending, l);
      LabelsCounted(labels[..|labels| - 1], pending, l);
      hide Labelled;
    }
  }

  /** The report lists, sorted, each label once for every pending item that carries it. */
  lemma ReportIsExact(c: Call, pending: set<int>, l: Text)
    ensures TextsOrdered(Report(c, pending))
    ensures multiset(Report(c, pending))[l] == |Labelled(c.labels, pending, l)|
  {
    SortTextsSorts(LabelsOf(c.labels, pending));
    LabelsCounted(c.labels, pending, l);
  }

  /** A timeout needs a configured timeout, reports what was pending, and leaves nothing queued. */
  lemma TimeoutReport(c: Call, steps: seq<Step>, l: Text)
    requires Runs(c, Initial(c), steps) && After(c, Initial(c), steps).phase.TimedOut?
    ensures var s := After(c, Initial(c), steps);
            && c.timed && s.pending != {} && NothingQueued(s)
            && TextsOrdered(s.phase.report)
            && multiset(s.phase.report)[l] == |Labelled(c.labels, s.pending, l)|
            && forall i :: 0 <= i < |s.status| && i !in s.pending ==> IsDone(s.status[i])
  {
    InitialInv(c);
    RunKeeps(c, Initial(c), steps);
    ReportIsExact(c, After(c, Initial(c), steps).pending, l);
    hide Runs, After, Initial, Report;
  }

  lemma StepAfterTimeout(c: Call, s: State, step: Step)
    requires Inv(c, s) && s.phase.TimedOut? && Enabled(c, s, step)
    ensures var t := Apply(c, s, step);
            t.phase == s.phase && t.started == s.started && t.pending == s.pending && t.completed == s.completed
  {
  }

  /** Once the timeout has been raised no item starts, and the outcome stays as it is. */
  lemma {:induction false} NothingStartsAfterTimeout(c: Call, s: State, steps: seq<Step>)
    requires Inv(c, s) && s.phase.TimedOut? && Runs(c, s, steps)
    ensures var t := After(c, s, steps);
            t.phase == s.phase && t.started == s.started && t.pending == s.pending && t.completed == s.completed
    decreases |steps|
  {
    hide Inv, Enabled, Apply;
    if steps != [] {
      StepKeeps(c, s, steps[0]);
      StepAfterTimeout(c, s, steps[0]);
      NothingStartsAfterTimeout(c, Apply(c, s, steps[0]), steps[1..]);
    }
  }

  /** Reported items are those the driver last saw pending: one of them may have finished by then. */
  lemma LateFinishIsReported(l: Text)
    ensures var c := Call([l], 1, true);
            var steps := [Start(0, 0), Finish(0, true), Timeout, Cancel(0), Shutdown];
            && Runs(c, Initial(c), steps)
            && After(c, Initial(c), steps).phase == TimedOut([l])
            && After(c, Initial(c), steps).status == [Succeeded]
  {
    var c := Call([l], 1, true);
    var s0 := Initial(c);
    var s1 := Apply(c, s0, Start(0, 0));
    var s2 := Apply(c, s1, Finish(0, true));
    var s3 := Apply(c, s2, Timeout);
    var s4 := Apply(c, s3, Cancel(0));
    assert s2.status == [Succeeded];
    assert s4.status == s2.status && s4.phase.todo == {};
    var s5 := Apply(c, s4, Shutdown);
    assert s5.status == s2.status;
    assert Report(c, s0.pending) == [l] by {
      assert [l][..0] == [];
      assert LabelsOf([l], s0.pending) == [l];
      assert [l][1..] == [] && SortTexts([]) == [];
    }
    RunsCons(c, s4, Shutdown, []);
    RunsCons(c, s3, Cancel(0), [Shutdown]);
    RunsCons(c, s2, Timeout, [Cancel(0), Shutdown]);
    RunsCons(c, s1, Finish(0, true), [Timeout, Cancel(0), Shutdown]);
    RunsCons(c, s0, Start(0, 0), [Finish(0, true), Timeout, Cancel(0), Shutdown]);
  }

  lemma RunsCons(c: Call, s: State, step: Step, rest: seq<Step>)
    requires Enabled(c, s, step) && Runs(c, Apply(c, s, step), rest)
    ensures Runs(c, s, [step] + rest) && After(c, s, [step] + rest) == After(c, Apply(c, s, step), rest)
  {
    assert ([step] + rest)[1..] == rest;
  }
}
