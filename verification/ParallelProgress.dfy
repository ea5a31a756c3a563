/** `run_parallel` makes progress: every run is bounded, and no call gets stuck. */
module ParallelProgress {
  import opened Wrappers
  import opened ParallelRunner
  import opened ParallelSafety

  function Weight(st: Status): nat {
    match st
    case Queued => 2
    case Running => 1
    case _ => 0
  }

  /** How many worker steps the items can still take. */
  function Work(status: seq<Status>): nat {
    if status == [] then 0 else Work(status[..|status| - 1]) + Weight(status[|status| - 1])
  }

  lemma {:induction false} WorkUpdate(status: seq<Status>, i: int, st: Status)
    requires 0 <= i < |status|
    ensures Work(status[i := st]) == Work(status) - Weight(status[i]) + Weight(st)
  {
    var n := |status| - 1;
    if i < n {
      WorkUpdate(status[..n], i, st);
      assert status[i := st][..n] == status[..n][i := st];
    } else {
      assert status[i := st][..n] == status[..n];
    }
  }

  lemma {:induction false} AllQueuedWork(n: nat)
    ensures Work(seq(n, _ => Queued)) == 2 * n
  {
    if n > 0 {
      AllQueuedWork(n - 1);
      assert seq(n, _ => Queued)[..n - 1] == seq(n - 1, _ => Queued);
    }
  }

  /** What the driver can still do by itself. */
  function DriverWork(c: Call, s: State): nat {
    match s.phase
    case Waiting => |c.labels| + 2
    case Cancelling(todo, _) => |todo| + 1
    case Draining => 1
    case _ => 0
  }

  function Fuel(c: Call, s: State): nat {
    Work(s.status) + |s.pending| + DriverWork(c, s)
  }

  lemma WorkerUsesFuel(c: Call, s: State, step: Step)
    requires Inv(c, s) && Enabled(c, s, step) && (step.Start? || step.Finish?)
    ensures Fuel(c, Apply(c, s, step)) < Fuel(c, s)
  {
    hide InOrder, Phased, Report, Booked, Work, AllItems;
    match step
    case Start(w, i) => WorkUpdate(s.status, i, Running);
    case Finish(w, ok) =>
      assert s.status[s.slots[w].value] == Running;
      WorkUpdate(s.status, s.slots[w].value, if ok then Succeeded else Failed);
  }

  lemma WaitUsesFuel(c: Call, s: State, done: set<int>)
    requires Enabled(c, s, Wait(done)) && done != {}
    ensures Fuel(c, Apply(c, s, Wait(done))) < Fuel(c, s)
  {
    hide Report, Work, AllItems;
    assert s.pending == (s.pending - done) + done;
  }

  lemma TodoAreItems(c: Call, s: State, i: int)
    requires Inv(c, s) && s.phase.Cancelling? && i in s.phase.todo
    ensures 0 <= i < |s.status|
  {
    hide Booked, Slotted, InOrder, Report;
  }

  lemma PendingFit(c: Call, s: State)
    requires Inv(c, s)
    ensures |s.pending| <= |c.labels|
  {
    hide Slotted, InOrder, Phased;
  }

  lemma CancelUsesFuel(c: Call, s: State, i: int)
    requires Enabled(c, s, Cancel(i)) && 0 <= i < |s.status|
    ensures Fuel(c, Apply(c, s, Cancel(i))) < Fuel(c, s)
  {
    hide Report, Work, AllItems;
    if s.status[i] == Queued {
      WorkUpdate(s.status, i, Cancelled);
    }
  }

  lemma DriverUsesFuel(c: Call, s: State, step: Step)
    requires Inv(c, s) && Enabled(c, s, step) && !step.Start? && !step.Finish? && step != Wait({})
    ensures Fuel(c, Apply(c, s, step)) < Fuel(c, s)
  {
    hide Inv, Work, Report;
    match step
    case Wait(done) => WaitUsesFuel(c, s, done);
    case Cancel(i) =>
      TodoAreItems(c, s, i);
      CancelUsesFuel(c, s, i);
    case Shutdown => ShutdownCancelsNothing(c, s);
    case Timeout => PendingFit(c, s);
    case _ =>
  }

  /** Every step but an idle wait uses fuel. */
  lemma StepUsesFuel(c: Call, s: State, step: Step)
    requires Inv(c, s) && Enabled(c, s, step)
    ensures if step == Wait({}) then Apply(c, s, step) == s else Fuel(c, Apply(c, s, step)) < Fuel(c, s)
  {
    hide Inv, Fuel;
    if step.Start? || step.Finish? {
      WorkerUsesFuel(c, s, step);
    } else if step != Wait({}) {
      DriverUsesFuel(c, s, step);
    }
  }

  /** The steps of a run that are not idle waits. */
  function Productive(steps: seq<Step>): nat {
    if steps == [] then 0 else (if steps[0] == Wait({}) then 0 else 1) + Productive(steps[1..])
  }

  lemma {:induction false} RunUsesFuel(c: Call, s: State, steps: seq<Step>)
    requires Inv(c, s) && Runs(c, s, steps)
    ensures Productive(steps) + Fuel(c, After(c, s, steps)) <= Fuel(c, s)
    decreases |steps|
  {
    hide Inv, Enabled, Apply, Fuel;
    if steps != [] {
      StepKeeps(c, s, steps[0]);
      StepUsesFuel(c, s, steps[0]);
      RunUsesFuel(c, Apply(c, s, steps[0]), steps[1..]);
    }
  }

  /** Every run ends: idle waits aside, a call on n items takes at most 4n + 2 steps. */
  lemma RunsAreBounded(c: Call, steps: seq<Step>)
    requires Runs(c, Initial(c), steps)
    ensures Productive(steps) <= 4 * |c.labels| + 2
  {
    InitialInv(c);
    RunUsesFuel(c, Initial(c), steps);
    AllQueuedWork(|c.labels|);
  }

  /** A step other than an idle wait can be taken. */
  ghost predicate CanProgress(c: Call, s: State) {
    exists step :: Enabled(c, s, step) && step != Wait({})
  }

  /** The first queued item, if an item up to i is queued. */
  lemma {:induction false} FirstQueued(status: seq<Status>, i: int) returns (first: int)
    requires 0 <= i < |status| && status[i] == Queued
    ensures 0 <= first <= i && status[first] == Queued && forall j :: 0 <= j < first ==> status[j] != Queued
    decreases i
  {
    if j :| 0 <= j < i && status[j] == Queued {
      first := FirstQueued(status, j);
    } else {
      first := i;
    }
  }

  /** The call never gets stuck: until it has returned or raised, some step makes progress. */
  lemma NeverStuck(c: Call, steps: seq<Step>)
    requires c.Wellformed() && Runs(c, Initial(c), steps)
    requires !After(c, Initial(c), steps).phase.Returned? && !After(c, Initial(c), steps).phase.TimedOut?
    ensures CanProgress(c, After(c, Initial(c), steps))
  {
    InitialInv(c);
    RunKeeps(c, Initial(c), steps);
    var s := After(c, Initial(c), steps);
    if s.phase.Draining? {
      DrainingIsIdle(c, steps);
      assert Enabled(c, s, Join);
    } else {
      hide Runs, After, Initial;
      DriverOrWorkerMoves(c, s);
    }
  }

  /** A set of items that is not empty has one. */
  lemma {:induction false} Member(a: set<int>, n: nat) returns (i: int)
    requires a <= AllItems(n) && a != {}
    ensures i in a
  {
    if n - 1 in a {
      i := n - 1;
    } else {
      assert n > 0;
      i := Member(a, n - 1);
    }
  }

  lemma DriverOrWorkerMoves(c: Call, s: State)
    requires c.Wellformed() && Inv(c, s) && (s.phase.Waiting? || s.phase.Cancelling?)
    ensures CanProgress(c, s)
  {
    hide InOrder, Report, AllItems;
    if s.phase.Cancelling? {
      if s.phase.todo != {} {
        var i := Member(s.phase.todo, |c.labels|);
        assert Enabled(c, s, Cancel(i));
      } else {
        assert Enabled(c, s, Shutdown);
      }
    } else if s.pending != {} {
      var i := Member(s.pending, |c.labels|);
      if IsDone(s.status[i]) {
        assert Enabled(c, s, Wait({i}));
      } else if s.slots[0].Some? {
        assert Enabled(c, s, Finish(0, true));
      } else if s.status[i] == Queued {
        var first := FirstQueued(s.status, i);
        assert Enabled(c, s, Start(0, first));
      } else {
        assert Some(i) in s.slots;
        var w :| 0 <= w < |s.slots| && s.slots[w] == Some(i);
        assert Enabled(c, s, Finish(w, true));
      }
    } else {
      assert Enabled(c, s, LeaveLoop);
    }
  }
}
