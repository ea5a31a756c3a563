/**
 * Which finished items a timeout of `run_parallel` still reports as pending: exactly those
 * whose finish no later wait of the driver has collected.
 */
module ParallelReport {
  import opened Wrappers
  import opened ParallelRunner
  import opened ParallelSafety

  /** A prefix of a run is a run, and its next step is enabled where it ends. */
  lemma {:induction false} RunPrefix(c: Call, s: State, steps: seq<Step>, k: nat)
    requires Runs(c, s, steps) && k <= |steps|
    ensures Runs(c, s, steps[..k])
    ensures k < |steps| ==>
              && Enabled(c, After(c, s, steps[..k]), steps[k])
              && Runs(c, s, steps[..k + 1])
              && After(c, s, steps[..k + 1]) == Apply(c, After(c, s, steps[..k]), steps[k])
    decreases |steps|
  {
    hide Enabled, Apply;
    if k > 0 {
      var t := Apply(c, s, steps[0]);
      RunPrefix(c, t, steps[1..], k - 1);
      assert steps[..k] == [steps[0]] + steps[1..][..k - 1];
      RunsCons(c, s, steps[0], steps[1..][..k - 1]);
      if k < |steps| {
        assert steps[..k + 1] == [steps[0]] + steps[1..][..k];
        RunsCons(c, s, steps[0], steps[1..][..k]);
      }
    } else if steps != [] {
      assert steps[..1] == [steps[0]] + [];
      RunsCons(c, s, steps[0], []);
    }
  }

  /** The driver still counts item i as pending although it has finished. */
  predicate FinishedUnseen(s: State, i: int) {
    i in s.pending && 0 <= i < |s.status| && IsDone(s.status[i])
  }

  /** Step k of the run is a worker finishing item i. */
  predicate Finishes(c: Call, steps: seq<Step>, k: nat, i: int)
    requires Runs(c, Initial(c), steps) && k < |steps|
  {
    RunPrefix(c, Initial(c), steps, k);
    var s := After(c, Initial(c), steps[..k]);
    match steps[k]
    case Finish(w, _) => w < |s.slots| && s.slots[w] == Some(i)
    case _ => false
  }

  predicate Collects(step: Step, i: int) {
    step.Wait? && i in step.done
  }

  /** No step after step k collects item i. */
  ghost predicate Uncollected(steps: seq<Step>, k: nat, i: int) {
    forall m :: k < m < |steps| ==> !Collects(steps[m], i)
  }

  /** Item i finishes at step k, and no wait after that step collects it. */
  ghost predicate LateFinish(c: Call, steps: seq<Step>, k: nat, i: int)
    requires Runs(c, Initial(c), steps) && k < |steps|
  {
    Finishes(c, steps, k, i) && Uncollected(steps, k, i)
  }

  ghost predicate HasLateFinish(c: Call, steps: seq<Step>, i: int)
    requires Runs(c, Initial(c), steps)
  {
    exists k :: 0 <= k < |steps| && LateFinish(c, steps, k, i)
  }

  /** Only a finish makes an item finished and unseen, and only a wait that collects it ends that. */
  lemma StepChangesUnseen(c: Call, s: State, step: Step, i: int)
    requires Inv(c, s) && Enabled(c, s, step)
    ensures FinishedUnseen(Apply(c, s, step), i) <==>
              || (step.Finish? && s.slots[step.worker] == Some(i))
              || (FinishedUnseen(s, i) && !Collects(step, i))
  {
    hide InOrder, Phased, AllItems, Report;
    match step
    case Finish(w, ok) =>
      assert s.status[s.slots[w].value] == Running;
    case _ =>
  }

  lemma FinishesInPrefix(c: Call, steps: seq<Step>, init: seq<Step>, k: nat, i: int)
    requires Runs(c, Initial(c), steps) && steps != [] && init == steps[..|steps| - 1]
    requires Runs(c, Initial(c), init) && k < |init|
    ensures Finishes(c, steps, k, i) <==> Finishes(c, init, k, i)
  {
    assert init[..k] == steps[..k] && init[k] == steps[k];
    hide Runs, After, Initial;
  }

  lemma UncollectedExtends(steps: seq<Step>, init: seq<Step>, k: nat, i: int)
    requires steps != [] && init == steps[..|steps| - 1] && k < |init|
    ensures Uncollected(steps, k, i) <==> Uncollected(init, k, i) && !Collects(steps[|steps| - 1], i)
  {
    hide Collects;
    assert forall m :: 0 <= m < |init| ==> init[m] == steps[m];
  }

  lemma LateFinishExtends(c: Call, steps: seq<Step>, init: seq<Step>, k: nat, i: int)
    requires Runs(c, Initial(c), steps) && steps != [] && init == steps[..|steps| - 1]
    requires Runs(c, Initial(c), init) && k < |init|
    ensures LateFinish(c, steps, k, i) <==> LateFinish(c, init, k, i) && !Collects(steps[|steps| - 1], i)
  {
    hide Finishes, Runs, Collects, Initial, After, Enabled, Apply;
    FinishesInPrefix(c, steps, init, k, i);
    UncollectedExtends(steps, init, k, i);
  }

  /** One more step keeps the late finishes it does not collect, and adds the one it makes. */
  lemma LateFinishStep(c: Call, steps: seq<Step>, i: int)
    requires Runs(c, Initial(c), steps) && steps != [] && Runs(c, Initial(c), steps[..|steps| - 1])
    ensures HasLateFinish(c, steps, i) <==>
              || Finishes(c, steps, |steps| - 1, i)
              || (HasLateFinish(c, steps[..|steps| - 1], i) && !Collects(steps[|steps| - 1], i))
  {
    var n := |steps| - 1;
    var init := steps[..n];
    assert LateFinish(c, steps, n, i) <==> Finishes(c, steps, n, i);
    hide Finishes, Runs, Collects, LateFinish, Initial;
    forall k | 0 <= k < n
      ensures LateFinish(c, steps, k, i) <==> LateFinish(c, init, k, i) && !Collects(steps[n], i)
    {
      LateFinishExtends(c, steps, init, k, i);
    }
    if HasLateFinish(c, steps, i) {
      var k :| 0 <= k < |steps| && LateFinish(c, steps, k, i);
      assert k == n || LateFinish(c, init, k, i);
    }
    if HasLateFinish(c, init, i) && !Collects(steps[n], i) {
      var k :| 0 <= k < n && LateFinish(c, init, k, i);
      assert LateFinish(c, steps, k, i);
    }
  }

  /** Over every run: an item is finished and unseen exactly when no wait after its finish collected it. */
  lemma {:induction false} UnseenIffLateFinish(c: Call, steps: seq<Step>, i: int)
    requires Runs(c, Initial(c), steps)
    ensures FinishedUnseen(After(c, Initial(c), steps), i) <==> HasLateFinish(c, steps, i)
    decreases |steps|
  {
    if steps == [] {
    } else {
      var n := |steps| - 1;
      RunPrefix(c, Initial(c), steps, n);
      assert steps[..n + 1] == steps;
      UnseenIffLateFinish(c, steps[..n], i);
      LateFinishStep(c, steps, i);
      InitialInv(c);
      RunKeeps(c, Initial(c), steps[..n]);
      var s := After(c, Initial(c), steps[..n]);
      StepChangesUnseen(c, s, steps[n], i);
      hide HasLateFinish, FinishedUnseen, Inv, Runs, Initial, Apply, After, Collects;
    }
  }

  /**
   * A timeout taken after a run reports the pending items, and one of them has finished by
   * then exactly when some finish was followed by no wait that collected it.
   */
  lemma FinishedReportedIff(c: Call, steps: seq<Step>)
    requires Runs(c, Initial(c), steps) && Enabled(c, After(c, Initial(c), steps), Timeout)
    ensures var s := After(c, Initial(c), steps);
            && Apply(c, s, Timeout).phase == Cancelling(s.pending, Report(c, s.pending))
            && ((exists i :: FinishedUnseen(s, i)) <==> exists i :: HasLateFinish(c, steps, i))
  {
    var s := After(c, Initial(c), steps);
    forall i
      ensures FinishedUnseen(s, i) <==> HasLateFinish(c, steps, i)
    {
      UnseenIffLateFinish(c, steps, i);
    }
    hide FinishedUnseen, HasLateFinish, After, Runs, Initial;
  }

  // ---------------------------------------------------------------- outcomes

  /** Item i finishes at step k with the given outcome. */
  predicate Ends(c: Call, steps: seq<Step>, k: nat, i: int, ok: bool)
    requires Runs(c, Initial(c), steps) && k < |steps|
  {
    Finishes(c, steps, k, i) && steps[k].ok == ok
  }

  ghost predicate HasEnded(c: Call, steps: seq<Step>, i: int, ok: bool)
    requires Runs(c, Initial(c), steps)
  {
    exists k :: 0 <= k < |steps| && Ends(c, steps, k, i, ok)
  }

  lemma HasEndedStep(c: Call, steps: seq<Step>, i: int, ok: bool)
    requires Runs(c, Initial(c), steps) && steps != [] && Runs(c, Initial(c), steps[..|steps| - 1])
    ensures HasEnded(c, steps, i, ok) <==>
            Ends(c, steps, |steps| - 1, i, ok) || HasEnded(c, steps[..|steps| - 1], i, ok)
  {
    hide Finishes, Runs, Initial;
    var n := |steps| - 1;
    var init := steps[..n];
    forall k | 0 <= k < n
      ensures Ends(c, steps, k, i, ok) <==> Ends(c, init, k, i, ok)
    {
      FinishesInPrefix(c, steps, init, k, i);
      assert init[k] == steps[k];
    }
    if HasEnded(c, steps, i, ok) {
      var k :| 0 <= k < |steps| && Ends(c, steps, k, i, ok);
      assert k == n || Ends(c, init, k, i, ok);
    }
    if HasEnded(c, init, i, ok) {
      var k :| 0 <= k < n && Ends(c, init, k, i, ok);
      assert Ends(c, steps, k, i, ok);
    }
  }

  predicate HasOutcome(s: State, i: int, ok: bool) {
    0 <= i < |s.status| && s.status[i] == if ok then Succeeded else Failed
  }

  /** Only the item's own finish gives it an outcome, and nothing takes it away. */
  lemma StepChangesOutcome(c: Call, s: State, step: Step, i: int, ok: bool)
    requires Inv(c, s) && Enabled(c, s, step)
    ensures HasOutcome(Apply(c, s, step), i, ok) <==>
            (step.Finish? && s.slots[step.worker] == Some(i) && step.ok == ok) || HasOutcome(s, i, ok)
  {
    hide InOrder, Phased, AllItems, Report, Booked;
    match step
    case Finish(w, o) =>
      assert s.status[s.slots[w].value] == Running;
    case _ =>
  }

  /** Over every run: an item has succeeded (failed) exactly when a step finished it with success (failure). */
  lemma {:induction false} OutcomeIffEnded(c: Call, steps: seq<Step>, i: int, ok: bool)
    requires Runs(c, Initial(c), steps)
    ensures HasOutcome(After(c, Initial(c), steps), i, ok) <==> HasEnded(c, steps, i, ok)
    decreases |steps|
  {
    if steps == [] {
    } else {
      var n := |steps| - 1;
      RunPrefix(c, Initial(c), steps, n);
      assert steps[..n + 1] == steps;
      OutcomeIffEnded(c, steps[..n], i, ok);
      HasEndedStep(c, steps, i, ok);
      InitialInv(c);
      RunKeeps(c, Initial(c), steps[..n]);
      var s := After(c, Initial(c), steps[..n]);
      StepChangesOutcome(c, s, steps[n], i, ok);
      hide HasEnded, HasOutcome, Inv, Runs, Initial, Apply, After;
    }
  }

  // ---------------------------------------------------------------- waits that take everything

  /** The wait returns every pending item that has finished, as the futures library does. */
  predicate TakesAll(s: State, done: set<int>) {
    forall i :: i in s.pending && 0 <= i < |s.status| && IsDone(s.status[i]) ==> i in done
  }

  predicate TakesAllAt(c: Call, steps: seq<Step>, m: nat)
    requires Runs(c, Initial(c), steps) && m < |steps|
  {
    RunPrefix(c, Initial(c), steps, m);
    steps[m].Wait? ==> TakesAll(After(c, Initial(c), steps[..m]), steps[m].done)
  }

  ghost predicate EveryWaitTakesAll(c: Call, steps: seq<Step>)
    requires Runs(c, Initial(c), steps)
  {
    forall m :: 0 <= m < |steps| ==> TakesAllAt(c, steps, m)
  }

  ghost predicate NoWaitAfter(steps: seq<Step>, k: nat) {
    forall m :: k < m < |steps| ==> !steps[m].Wait?
  }

  /** Item i finishes after the last wait. */
  ghost predicate FinishSinceWait(c: Call, steps: seq<Step>, i: int)
    requires Runs(c, Initial(c), steps)
  {
    exists k :: 0 <= k < |steps| && Finishes(c, steps, k, i) && NoWaitAfter(steps, k)
  }

  lemma NoWaitExtends(steps: seq<Step>, init: seq<Step>, k: nat)
    requires steps != [] && init == steps[..|steps| - 1] && k < |init|
    ensures NoWaitAfter(steps, k) <==> NoWaitAfter(init, k) && !steps[|steps| - 1].Wait?
  {
    assert forall m :: 0 <= m < |init| ==> init[m] == steps[m];
  }

  lemma SinceWaitStep(c: Call, steps: seq<Step>, i: int)
    requires Runs(c, Initial(c), steps) && steps != [] && Runs(c, Initial(c), steps[..|steps| - 1])
    ensures FinishSinceWait(c, steps, i) <==>
              || Finishes(c, steps, |steps| - 1, i)
              || (FinishSinceWait(c, steps[..|steps| - 1], i) && !steps[|steps| - 1].Wait?)
  {
    hide Finishes, Runs, NoWaitAfter, Initial;
    var n := |steps| - 1;
    var init := steps[..n];
    forall k | 0 <= k < n
      ensures Finishes(c, steps, k, i) && NoWaitAfter(steps, k) <==>
                Finishes(c, init, k, i) && NoWaitAfter(init, k) && !steps[n].Wait?
    {
      FinishesInPrefix(c, steps, init, k, i);
      NoWaitExtends(steps, init, k);
    }
    NothingAfterLast(steps);
    if FinishSinceWait(c, steps, i) {
      var k :| 0 <= k < |steps| && Finishes(c, steps, k, i) && NoWaitAfter(steps, k);
      assert k == n || (Finishes(c, init, k, i) && NoWaitAfter(init, k));
    }
    if FinishSinceWait(c, init, i) && !steps[n].Wait? {
      var k :| 0 <= k < n && Finishes(c, init, k, i) && NoWaitAfter(init, k);
      assert Finishes(c, steps, k, i) && NoWaitAfter(steps, k);
    }
  }

  lemma NothingAfterLast(steps: seq<Step>)
    requires steps != []
    ensures NoWaitAfter(steps, |steps| - 1)
  {
  }

  lemma EarlierWaitsTakeAll(c: Call, steps: seq<Step>, init: seq<Step>)
    requires Runs(c, Initial(c), steps) && steps != [] && init == steps[..|steps| - 1]
    requires Runs(c, Initial(c), init) && EveryWaitTakesAll(c, steps)
    ensures EveryWaitTakesAll(c, init)
  {
    hide Runs, After, Initial, TakesAll;
    forall m | 0 <= m < |init|
      ensures TakesAllAt(c, init, m)
    {
      assert init[..m] == steps[..m] && init[m] == steps[m];
      assert TakesAllAt(c, steps, m);
    }
  }

  /** After a wait that takes everything, nothing finished is pending. */
  lemma NothingUnseenAfterWait(c: Call, s: State, done: set<int>, i: int)
    requires Enabled(c, s, Wait(done)) && TakesAll(s, done)
    ensures !FinishedUnseen(Apply(c, s, Wait(done)), i)
  {
  }

  /** In such a run an item is finished and still pending exactly when it finished after the last wait. */
  lemma {:induction false} UnseenIffSinceWait(c: Call, steps: seq<Step>, i: int)
    requires Runs(c, Initial(c), steps) && EveryWaitTakesAll(c, steps)
    ensures FinishedUnseen(After(c, Initial(c), steps), i) <==> FinishSinceWait(c, steps, i)
    decreases |steps|
  {
    if steps == [] {
    } else {
      var n := |steps| - 1;
      RunPrefix(c, Initial(c), steps, n);
      assert steps[..n + 1] == steps;
      EarlierWaitsTakeAll(c, steps, steps[..n]);
      UnseenIffSinceWait(c, steps[..n], i);
      SinceWaitStep(c, steps, i);
      InitialInv(c);
      RunKeeps(c, Initial(c), steps[..n]);
      var s := After(c, Initial(c), steps[..n]);
      StepChangesUnseen(c, s, steps[n], i);
      assert TakesAllAt(c, steps, n);
      hide FinishSinceWait, FinishedUnseen, TakesAll, Inv, Runs, Initial, Apply, After, EveryWaitTakesAll;
      if steps[n].Wait? {
        NothingUnseenAfterWait(c, s, steps[n].done, i);
      }
    }
  }
}
