/**
 * `run_parallel` in pipeline.py as a step machine: pool workers start and finish items
 * while the driver waits, times out, cancels and shuts the pool down. Items are numbered
 * in submission order; clocks are abstract, so a configured timeout may fire whenever the
 * driver looks at the clock.
 */
module ParallelRunner {
  import opened Wrappers
  import PyText

  // ---------------------------------------------------------------- worker count

  /** `resolve_workers`; `cpus` is what `os.cpu_count()` answers. */
  function ResolveWorkers(configured: Option<int>, cpus: Option<nat>, items: int): (n: int)
    ensures n <= 0 <==> items <= 0
    ensures 0 <= n && (items > 0 ==> n <= items)
    ensures configured.Some? && configured.value > 0 && n < items ==> n == configured.value
    ensures configured.Some? && 0 < configured.value <= items ==> n == configured.value
    ensures items > 0 && (configured.None? || configured.value <= 0) ==>
              var cores := if cpus.None? || cpus.value == 0 then 4 else cpus.value;
              (n == 1 || n + 2 <= cores) && (n == items || n + 2 >= cores)
  {
    if items <= 0 then 0
    else
      var cores := if cpus.None? || cpus.value == 0 then 4 else cpus.value;
      var n := if configured.Some? && configured.value > 0 then configured.value else Max(1, cores - 2);
      if n < items then n else items
  }

  function Max(a: int, b: int): int {
    if a < b then b else a
  }

  // ---------------------------------------------------------------- states and steps

  /** One call: the label of every item, the pool size, and whether a timeout was given. */
  datatype Call = Call(labels: seq<PyText.Text>, workers: nat, timed: bool) {
    predicate Wellformed() {
      |labels| > 0 ==> 0 < workers <= |labels|
    }
  }

  /** The call `run_parallel` makes: the pool size is what `resolve_workers` answers. */
  function MakeCall(labels: seq<PyText.Text>, configured: Option<int>, cpus: Option<nat>, timed: bool): (c: Call)
    ensures c.Wellformed() && c.labels == labels && c.timed == timed
  {
    Call(labels, ResolveWorkers(configured, cpus, |labels|), timed)
  }

  datatype Status = Queued | Running | Succeeded | Failed | Cancelled

  /** Where the driver is in the loop, or how the call ended. */
  datatype Phase =
    | Waiting
    | Cancelling(todo: set<int>, report: seq<PyText.Text>)
    | TimedOut(report: seq<PyText.Text>)
    | Draining
    | Returned

  /** `slots` is what each pool thread is running; `started` is the history of starts. */
  datatype State = State(
    status: seq<Status>,
    slots: seq<Option<int>>,
    started: seq<int>,
    pending: set<int>,
    completed: nat,
    phase: Phase)

  datatype Step =
    | Start(worker: nat, item: int)
    | Finish(worker: nat, ok: bool)
    | Wait(done: set<int>)
    | Timeout
    | Cancel(item: int)
    | Shutdown
    | LeaveLoop
    | Join

  predicate IsDone(st: Status) {
    st == Succeeded || st == Failed
  }

  function AllItems(n: nat): (items: set<int>)
    ensures |items| == n && forall i :: i in items <==> 0 <= i < n
  {
    if n == 0 then {} else AllItems(n - 1) + {n - 1}
  }

  function Initial(c: Call): State {
    State(seq(|c.labels|, _ => Queued), seq(c.workers, _ => None), [], AllItems(|c.labels|), 0,
          if |c.labels| == 0 then Returned else Waiting)
  }

  /** The labels of the pending items, in item order. */
  function LabelsOf(labels: seq<PyText.Text>, pending: set<int>): seq<PyText.Text> {
    if labels == [] then []
    else
      var n := |labels| - 1;
      LabelsOf(labels[..n], pending) + if n in pending then [labels[n]] else []
  }

  /** `sorted(futures[f] for f in pending)`. */
  function Report(c: Call, pending: set<int>): seq<PyText.Text> {
    PyText.SortTexts(LabelsOf(c.labels, pending))
  }

  predicate Enabled(c: Call, s: State, step: Step) {
    match step
    case Start(w, i) =>
      // The queue is first in, first out; cancelled items are skipped.
      && w < |s.slots| && s.slots[w].None? && 0 <= i < |s.status| && s.status[i] == Queued
      && forall j :: 0 <= j < i ==> s.status[j] != Queued
    case Finish(w, _) => w < |s.slots| && s.slots[w].Some?
    case Wait(done) =>
      && s.phase.Waiting? && s.pending != {} && done <= s.pending
      && forall i :: i in done ==> 0 <= i < |s.status| && IsDone(s.status[i])
    case Timeout => s.phase.Waiting? && s.pending != {} && c.timed
    case Cancel(i) => s.phase.Cancelling? && i in s.phase.todo
    case Shutdown => s.phase.Cancelling? && s.phase.todo == {}
    case LeaveLoop => s.phase.Waiting? && s.pending == {}
    case Join =>
      s.phase.Draining? && forall i :: 0 <= i < |s.status| ==> s.status[i] != Queued && s.status[i] != Running
  }

  /** `future.cancel()` succeeds only on an item no worker has taken. */
  function CancelOne(status: seq<Status>, i: int): (r: seq<Status>)
    ensures |r| == |status|
  {
    if 0 <= i < |status| && status[i] == Queued then status[i := Cancelled] else status
  }

  /** `shutdown(cancel_futures=True)` empties the queue. */
  function CancelQueue(status: seq<Status>): (r: seq<Status>)
    ensures |r| == |status|
  {
    seq(|status|, i requires 0 <= i < |status| => if status[i] == Queued then Cancelled else status[i])
  }

  function SetStatus(status: seq<Status>, i: int, st: Status): seq<Status> {
    if 0 <= i < |status| then status[i := st] else status
  }

  function Apply(c: Call, s: State, step: Step): State
    requires Enabled(c, s, step)
  {
    match step
    case Start(w, i) =>
      s.(status := s.status[i := Running], slots := s.slots[w := Some(i)], started := s.started + [i])
    case Finish(w, ok) =>
      s.(status := SetStatus(s.status, s.slots[w].value, if ok then Succeeded else Failed), slots := s.slots[w := None])
    case Wait(done) => s.(pending := s.pending - done, completed := s.completed + |done|)
    case Timeout => s.(phase := Cancelling(s.pending, Report(c, s.pending)))
    case Cancel(i) => s.(status := CancelOne(s.status, i), phase := Cancelling(s.phase.todo - {i}, s.phase.report))
    case Shutdown => s.(status := CancelQueue(s.status), phase := TimedOut(s.phase.report))
    case LeaveLoop => s.(phase := Draining)
    case Join => s.(phase := Returned)
  }

  /** The steps can be taken one after the other from s. */
  predicate Runs(c: Call, s: State, steps: seq<Step>)
    decreases |steps|
  {
    steps == [] || (Enabled(c, s, steps[0]) && Runs(c, Apply(c, s, steps[0]), steps[1..]))
  }

  function After(c: Call, s: State, steps: seq<Step>): State
    requires Runs(c, s, steps)
    decreases |steps|
  {
    if steps == [] then s else After(c, Apply(c, s, steps[0]), steps[1..])
  }
}
