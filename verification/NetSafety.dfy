/**
 * `FetchBudget` and `call_with_timeout` in net_safety.py. Threads and clocks are abstract:
 * how long a worker needs, what it leaves behind and how late the caller looks are inputs.
 * Seconds are real numbers.
 */
module NetSafety {
  import opened Wrappers

  function Min(a: real, b: real): real {
    if a < b then a else b
  }

  function Max(a: real, b: real): real {
    if a < b then b else a
  }

  /**
   * A requested call: its timeout, the seconds its worker needs, the value the worker
   * leaves (None if it raises), and how late the caller wakes up and looks.
   */
  datatype Request<T> = Request(timeout: real, duration: real, outcome: Option<T>, late: real)

  /** `effective_timeout` as `join` takes it: a negative one does not wait. */
  function Wait(timeout: real, remaining: real): real {
    Max(0.0, Min(timeout, Max(1.0, remaining)))
  }

  /** When the caller looks: the worker has ended or the wait is over, and some lateness. */
  function Elapsed<T>(q: Request<T>, remaining: real): real {
    Min(q.duration, Wait(q.timeout, remaining)) + q.late
  }

  class FetchBudget {
    const total: real
    var consumed: real
    /** How many calls have started a worker. */
    ghost var starts: nat

    constructor (total: real)
      ensures this.total == total && consumed == 0.0 && starts == 0
    {
      this.total := total;
      consumed := 0.0;
      starts := 0;
    }

    predicate Exhausted()
      reads this
    {
      consumed >= total
    }

    function Remaining(): (r: real)
      reads this
      ensures r >= 0.0 && (r > 0.0 <==> !Exhausted())
    {
      Max(0.0, total - consumed)
    }

    method Charge(seconds: real)
      modifies this`consumed
      ensures consumed == old(consumed) + seconds
    {
      consumed := consumed + seconds;
    }

    /** `call_with_timeout` with this budget. */
    method Call<T>(q: Request<T>) returns (r: Option<T>)
      modifies this
      ensures consumed == After(q, old(consumed), total)
      ensures starts == old(starts) + if old(Exhausted()) then 0 else 1
      ensures r == Answer(q, old(consumed), total)
    {
      if Exhausted() {
        return None;
      }
      var wait := Wait(q.timeout, Remaining());
      starts := starts + 1;
      var elapsed := Min(q.duration, wait) + q.late;
      if q.duration > elapsed {
        Charge(elapsed);
        r := None;
      } else if q.outcome.None? {
        Charge(elapsed);
        r := None;
      } else {
        Charge(elapsed);
        r := q.outcome;
      }
    }
  }

  // ---------------------------------------------------------------- runs of calls

  /** What remains of the budget, as a call sees it. */
  function Left(consumed: real, total: real): real {
    Max(0.0, total - consumed)
  }

  /** The budget's `consumed` after one call. */
  function After<T>(q: Request<T>, consumed: real, total: real): real {
    if consumed >= total then consumed else consumed + Elapsed(q, Left(consumed, total))
  }

  /** The value of a worker that had ended when the caller looked. */
  function Answer<T>(q: Request<T>, consumed: real, total: real): Option<T> {
    if consumed < total && q.duration <= Elapsed(q, Left(consumed, total)) then q.outcome else None
  }

  /**
   * What one call answers and charges, by the clock: a worker that ends within the wait is
   * answered and costs its duration, one that outlasts it by more than the caller's lateness
   * is not and costs the wait; the lateness is charged too.
   */
  lemma CallByClock<T>(q: Request<T>, consumed: real, total: real)
    requires consumed < total && q.late >= 0.0
    ensures var left := if total - consumed > 1.0 then total - consumed else 1.0;
            var shorter := if q.timeout < left then q.timeout else left;
            var wait := if shorter > 0.0 then shorter else 0.0;
            && (q.duration <= wait ==>
                  && Answer(q, consumed, total) == q.outcome
                  && After(q, consumed, total) == consumed + q.duration + q.late)
            && (q.duration > wait ==> After(q, consumed, total) == consumed + wait + q.late)
            && (q.duration > wait + q.late ==> Answer(q, consumed, total) == None)
            && (q.duration <= wait + q.late ==> Answer(q, consumed, total) == q.outcome)
  {
  }

  /** An exhausted budget answers nothing and charges nothing. */
  lemma CallExhausted<T>(q: Request<T>, consumed: real, total: real)
    requires consumed >= total
    ensures Answer(q, consumed, total) == None && After(q, consumed, total) == consumed
  {
  }

  function Consumed<T>(requests: seq<Request<T>>, total: real): real {
    if requests == [] then 0.0
    else After(requests[|requests| - 1], Consumed(requests[..|requests| - 1], total), total)
  }

  /** How many of the calls started a worker. */
  function Started<T>(requests: seq<Request<T>>, total: real): nat {
    if requests == [] then 0
    else
      var n := |requests| - 1;
      Started(requests[..n], total) + if Consumed(requests[..n], total) >= total then 0 else 1
  }

  /** No worker takes negative time, and no caller wakes up more than eps late. */
  predicate Punctual<T>(requests: seq<Request<T>>, eps: real) {
    forall i :: 0 <= i < |requests| ==> requests[i].duration >= 0.0 && 0.0 <= requests[i].late <= eps
  }

  lemma ElapsedBounds<T>(q: Request<T>, remaining: real, eps: real)
    requires q.duration >= 0.0 && 0.0 <= q.late <= eps
    ensures 0.0 <= Elapsed(q, remaining) <= Max(1.0, remaining) + eps
    ensures Elapsed(q, remaining) <= Max(0.0, q.timeout) + eps
  {
  }

  /**
   * Over every run of calls, what is consumed never goes down and stays below the total
   * plus the one-second minimum wait plus eps; nothing is consumed if nothing was there.
   */
  lemma {:induction false} ConsumptionBounded<T>(requests: seq<Request<T>>, total: real, eps: real)
    requires Punctual(requests, eps)
    ensures 0.0 <= Consumed(requests, total)
    ensures Consumed(requests, total) == 0.0 || Consumed(requests, total) < total + 1.0 + eps
    ensures requests != [] ==> Consumed(requests[..|requests| - 1], total) <= Consumed(requests, total)
  {
    if requests != [] {
      var n := |requests| - 1;
      ConsumptionBounded(requests[..n], total, eps);
      var before := Consumed(requests[..n], total);
      ElapsedBounds(requests[n], Left(before, total), eps);
    }
  }

  /** Once the budget is exhausted no later call starts a worker or charges anything. */
  lemma {:induction false} ExhaustedForGood<T>(requests: seq<Request<T>>, more: seq<Request<T>>, total: real)
    requires Consumed(requests, total) >= total
    ensures Consumed(requests + more, total) == Consumed(requests, total)
    ensures Started(requests + more, total) == Started(requests, total)
  {
    if more == [] {
      assert requests + more == requests;
    } else {
      var n := |more| - 1;
      ExhaustedForGood(requests, more[..n], total);
      assert (requests + more)[..|requests| + n] == requests + more[..n];
    }
  }

  /** The answer of the i-th call of a run. */
  function AnswerAt<T>(requests: seq<Request<T>>, i: nat, total: real): Option<T>
    requires i < |requests|
  {
    Answer(requests[i], Consumed(requests[..i], total), total)
  }

  lemma NoMoreAnswers<T>(requests: seq<Request<T>>, k: nat, total: real)
    requires k <= |requests| && Consumed(requests[..k], total) >= total
    ensures forall i :: k <= i < |requests| ==> AnswerAt(requests, i, total) == None
    ensures Consumed(requests, total) == Consumed(requests[..k], total)
    ensures Started(requests, total) == Started(requests[..k], total)
  {
    forall i | k <= i <= |requests|
      ensures Consumed(requests[..i], total) == Consumed(requests[..k], total)
      ensures Started(requests[..i], total) == Started(requests[..k], total)
    {
      ExhaustedForGood(requests[..k], requests[k..i], total);
      assert requests[..k] + requests[k..i] == requests[..i];
    }
    assert requests[..|requests|] == requests;
  }

  /**
   * The loop the module recommends, stopping at the first call that finds the budget
   * exhausted. Nothing is lost: the calls it leaves out would all have answered None.
   */
  method FetchAll<T>(total: real, requests: seq<Request<T>>) returns (budget: FetchBudget, results: seq<Option<T>>)
    ensures fresh(budget) && budget.total == total
    ensures budget.consumed == Consumed(requests, total) && budget.starts == Started(requests, total)
    ensures |results| <= |requests| && (|results| < |requests| ==> budget.Exhausted())
    ensures forall i :: 0 <= i < |requests| ==>
              AnswerAt(requests, i, total) == if i < |results| then results[i] else None
  {
    budget := new FetchBudget(total);
    results := [];
    var i := 0;
    while i < |requests|
      invariant 0 <= i <= |requests| && |results| == i
      invariant fresh(budget) && budget.total == total
      invariant budget.consumed == Consumed(requests[..i], total) && budget.starts == Started(requests[..i], total)
      invariant forall j :: 0 <= j < i ==> AnswerAt(requests, j, total) == results[j]
    {
      if budget.Exhausted() {
        NoMoreAnswers(requests, i, total);
        return;
      }
      assert requests[..i + 1][..i] == requests[..i];
      var result := budget.Call(requests[i]);
      results := results + [result];
      i := i + 1;
    }
    assert requests[..i] == requests;
  }

  /** The bound cannot be lowered: a nearly used-up budget still grants a whole second. */
  lemma OvershootReached<T>(total: real, left: real, eps: real, outcome: Option<T>)
    requires 0.0 < left < 1.0 && left <= total && eps >= 0.0
    ensures var requests := [Request(total, total - left, outcome, 0.0), Request(2.0, 2.0, outcome, eps)];
            Punctual(requests, eps) && Consumed(requests, total) == total - left + 1.0 + eps
  {
    var requests := [Request(total, total - left, outcome, 0.0), Request(2.0, 2.0, outcome, eps)];
    assert requests[..1][..0] == [];
    assert Consumed(requests[..1], total) == total - left;
  }
}
