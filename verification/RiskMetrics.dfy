/** `max_drawdown` in risk_metrics.py over real numbers, division by zero included. */
module RiskMetrics {
  import opened Wrappers

  /** What the float division and the maximum can give. */
  datatype Reading = NotANumber | Infinite | Number(value: real)

  /** `dropna`. */
  function Present(equity: seq<Option<real>>): seq<real> {
    if equity == [] then []
    else (if equity[0].Some? then [equity[0].value] else []) + Present(equity[1..])
  }

  /** The positions of the points that are present. */
  ghost function PresentAt(equity: seq<Option<real>>): set<int> {
    set i | 0 <= i < |equity| && equity[i].Some?
  }

  lemma PresentAtSplits(equity: seq<Option<real>>)
    ensures equity == [] ==> |PresentAt(equity)| == 0
    ensures equity != [] ==>
              var n := |equity| - 1;
              |PresentAt(equity)| == |PresentAt(equity[..n])| + if equity[n].Some? then 1 else 0
  {
    if equity != [] {
      var n := |equity| - 1;
      var init := PresentAt(equity[..n]);
      assert n !in init;
      assert PresentAt(equity) == if equity[n].Some? then init + {n} else init;
    }
  }

  lemma {:induction false} PresentAppend(a: seq<Option<real>>, b: seq<Option<real>>)
    ensures Present(a + b) == Present(a) + Present(b)
  {
    if a == [] {
      assert a + b == b;
    } else {
      hide Present;
      assert (a + b)[1..] == a[1..] + b;
      PresentUnfold(a);
      PresentUnfold(a + b);
      PresentAppend(a[1..], b);
    }
  }

  lemma PresentUnfold(equity: seq<Option<real>>)
    requires equity != []
    ensures Present(equity) == (if equity[0].Some? then [equity[0].value] else []) + Present(equity[1..])
  {
  }

  lemma PresentOne(v: Option<real>)
    ensures Present([v]) == if v.Some? then [v.value] else []
  {
    assert [v][1..] == [];
  }

  /** Every present point keeps its place among the present points, and nothing else is kept. */
  lemma {:induction false} PresentKeepsOrder(equity: seq<Option<real>>, i: nat)
    requires i < |equity|
    ensures |Present(equity)| == |PresentAt(equity)|
    ensures equity[i].Some? ==>
              |PresentAt(equity[..i])| < |Present(equity)|
              && Present(equity)[|PresentAt(equity[..i])|] == equity[i].value
    decreases |equity|
  {
    hide Present, PresentAt;
    var n := |equity| - 1;
    var init := equity[..n];
    PresentAtSplits(equity);
    PresentAppend(init, [equity[n]]);
    PresentOne(equity[n]);
    assert equity == init + [equity[n]];
    if init == [] {
      PresentAtSplits(init);
      NothingPresent();
    } else {
      PresentKeepsOrder(init, if i < n then i else 0);
      assert i < n ==> init[..i] == equity[..i];
    }
  }

  lemma NothingPresent()
    ensures Present([]) == []
  {
  }

  /** `cummax` at the last point. */
  function RunningMax(s: seq<real>): (m: real)
    requires s != []
    ensures m in s && forall i :: 0 <= i < |s| ==> s[i] <= m
  {
    var n := |s| - 1;
    if n == 0 then s[0]
    else
      var m := RunningMax(s[..n]);
      assert forall i :: 0 <= i < n ==> s[..n][i] == s[i];
      if m < s[n] then s[n] else m
  }

  /** (top - v) / top for v <= top, as floats divide. */
  function Drawdown(top: real, v: real): Reading {
    if top != 0.0 then Number((top - v) / top)
    else if v < 0.0 then Infinite
    else NotANumber
  }

  /** The larger reading; `max` skips what is not a number. */
  function Larger(a: Reading, b: Reading): Reading {
    if a.NotANumber? then b
    else if b.NotANumber? then a
    else if a.Infinite? || b.Infinite? then Infinite
    else if a.value < b.value then b else a
  }

  /** The largest drawdown from the running maximum. */
  function Deepest(s: seq<real>): Reading {
    if s == [] then NotANumber
    else Larger(Deepest(s[..|s| - 1]), Drawdown(RunningMax(s), s[|s| - 1]))
  }

  /** `max_drawdown`. */
  function MaxDrawdown(equity: seq<Option<real>>): Reading {
    var s := Present(equity);
    if |s| < 2 then NotANumber else Deepest(s)
  }

  // ---------------------------------------------------------------- what the scan reads

  /** top is the largest of the points up to j. */
  ghost predicate IsTop(s: seq<real>, j: int, top: real) {
    && 0 <= j < |s| && (exists i :: 0 <= i <= j && s[i] == top)
    && forall i :: 0 <= i <= j ==> s[i] <= top
  }

  /** What point j reads against the largest point so far, as floats divide. */
  ghost predicate Reads(s: seq<real>, j: int, d: Reading) {
    exists top :: IsTop(s, j, top)
      && d == if top != 0.0 then Number((top - s[j]) / top) else if s[j] < 0.0 then Infinite else NotANumber
  }

  /** The reading of every point. */
  ghost predicate AreReadings(s: seq<real>, ds: seq<Reading>) {
    |ds| == |s| && forall j :: 0 <= j < |s| ==> Reads(s, j, ds[j])
  }

  /** r is the greatest of the readings, those that are no number left aside. */
  ghost predicate IsGreatest(ds: seq<Reading>, r: Reading) {
    match r
    case NotANumber => forall j :: 0 <= j < |ds| ==> ds[j].NotANumber?
    case Infinite => exists j :: 0 <= j < |ds| && ds[j].Infinite?
    case Number(v) =>
      && (forall j :: 0 <= j < |ds| ==> !ds[j].Infinite? && (ds[j].Number? ==> ds[j].value <= v))
      && exists j :: 0 <= j < |ds| && ds[j] == r
  }

  lemma GreatestMore(ds: seq<Reading>, init: seq<Reading>, r: Reading)
    requires ds != [] && init == ds[..|ds| - 1] && IsGreatest(init, r)
    ensures IsGreatest(ds, Larger(r, ds[|ds| - 1]))
  {
    assert forall j :: 0 <= j < |init| ==> init[j] == ds[j];
  }

  lemma TopIsRunningMax(s: seq<real>, top: real)
    requires s != []
    ensures IsTop(s, |s| - 1, top) <==> top == RunningMax(s)
  {
    var m := RunningMax(s);
    var i :| 0 <= i < |s| && s[i] == m;
  }

  lemma LastReading(s: seq<real>, d: Reading)
    requires s != []
    ensures Reads(s, |s| - 1, d) <==> d == Drawdown(RunningMax(s), s[|s| - 1])
  {
    var n, top := |s| - 1, RunningMax(s);
    forall t
      ensures IsTop(s, n, t) <==> t == top
    {
      TopIsRunningMax(s, t);
    }
    assert IsTop(s, n, top);
    hide IsTop, RunningMax;
  }

  lemma ReadsInPrefix(s: seq<real>, init: seq<real>, j: int, d: Reading)
    requires s != [] && init == s[..|s| - 1] && 0 <= j < |init|
    ensures Reads(s, j, d) <==> Reads(init, j, d)
  {
    forall top
      ensures IsTop(s, j, top) <==> IsTop(init, j, top)
    {
      if i :| 0 <= i <= j && s[i] == top {
        assert init[i] == top;
      }
    }
    hide IsTop;
  }

  /**
   * For any curve: each point is read against the largest point so far, as floats divide,
   * and the result is the greatest of the readings.
   */
  lemma {:induction false} DeepestReads(s: seq<real>, ds: seq<Reading>)
    requires AreReadings(s, ds)
    ensures IsGreatest(ds, Deepest(s))
  {
    if s != [] {
      var n := |s| - 1;
      forall j | 0 <= j < n
        ensures Reads(s[..n], j, ds[..n][j])
      {
        ReadsInPrefix(s, s[..n], j, ds[j]);
      }
      LastReading(s, ds[n]);
      hide IsGreatest, Reads, Drawdown, Larger, RunningMax;
      DeepestReads(s[..n], ds[..n]);
      GreatestMore(ds, ds[..n], Deepest(s[..n]));
    }
  }

  // ---------------------------------------------------------------- positive equity

  ghost predicate AllPositive(s: seq<real>) {
    forall i :: 0 <= i < |s| ==> s[i] > 0.0
  }

  /** The fall from point i to point j as a share of point i. */
  function Fall(s: seq<real>, i: int, j: int): real
    requires 0 <= i < |s| && 0 <= j < |s| && s[i] != 0.0
  {
    (s[i] - s[j]) / s[i]
  }

  lemma SameQuotient(x: real, y: real, top: real)
    requires top != 0.0 && x * top == y * top
    ensures x == y
  {
    assert (x - y) * top == 0.0;
  }

  lemma OneMinusShare(top: real, v: real)
    requires top != 0.0
    ensures (top - v) / top == 1.0 - v / top
  {
    var q := v / top;
    assert (1.0 - q) * top == top - q * top;
    SameQuotient((top - v) / top, 1.0 - q, top);
  }

  lemma SignOfFactor(x: real, k: real)
    requires k > 0.0
    ensures x * k > 0.0 <==> x > 0.0
    ensures x * k >= 0.0 <==> x >= 0.0
  {
  }

  lemma CrossProducts(p: real, q: real, a: real, b: real, v: real)
    requires p * a == v && q * b == v
    ensures (p - q) * (a * b) == v * (b - a)
  {
    assert (p - q) * (a * b) == (p * a) * b - (q * b) * a;
  }

  lemma ShareShrinks(v: real, a: real, b: real)
    requires 0.0 < a <= b && 0.0 <= v
    ensures v / b <= v / a
  {
    var p, q := v / a, v / b;
    CrossProducts(p, q, a, b, v);
    SignOfFactor(a, b);
    assert v * (b - a) >= 0.0;
    SignOfFactor(p - q, a * b);
  }

  lemma ShareSign(v: real, top: real)
    requires top > 0.0
    ensures v / top > 0.0 <==> v > 0.0
    ensures v / top >= 0.0 <==> v >= 0.0
  {
    assert v / top * top == v;
    SignOfFactor(v / top, top);
  }

  /** A fall is deeper from a higher start, and on positive points stays below one. */
  lemma FallFromHigher(a: real, b: real, v: real)
    requires 0.0 < a <= b && 0.0 < v
    ensures (a - v) / a <= (b - v) / b < 1.0
  {
    OneMinusShare(a, v);
    OneMinusShare(b, v);
    ShareShrinks(v, a, b);
    ShareSign(v, b);
  }

  ghost predicate FallsUpTo(s: seq<real>, m: real)
    requires AllPositive(s)
  {
    forall i, j :: 0 <= i <= j < |s| ==> Fall(s, i, j) <= m
  }

  ghost predicate FallsTo(s: seq<real>, n: int, m: real)
    requires AllPositive(s) && 0 <= n < |s|
  {
    forall i :: 0 <= i <= n ==> Fall(s, i, n) <= m
  }

  ghost predicate SomeFall(s: seq<real>, m: real)
    requires AllPositive(s)
  {
    exists i, j :: 0 <= i <= j < |s| && Fall(s, i, j) == m
  }

  lemma FallsKeep(s: seq<real>, m: real, next: real)
    requires s != [] && AllPositive(s) && AllPositive(s[..|s| - 1]) && FallsUpTo(s[..|s| - 1], m) && m <= next
    requires FallsTo(s, |s| - 1, next)
    ensures FallsUpTo(s, next)
  {
    var init := s[..|s| - 1];
    forall i, j | 0 <= i <= j < |s|
      ensures Fall(s, i, j) <= next
    {
      if j < |s| - 1 {
        assert Fall(init, i, j) == Fall(s, i, j);
      }
    }
  }

  lemma SomeFallKeeps(s: seq<real>, m: real)
    requires s != [] && AllPositive(s) && AllPositive(s[..|s| - 1]) && SomeFall(s[..|s| - 1], m)
    ensures SomeFall(s, m)
  {
    var init := s[..|s| - 1];
    var i, j :| 0 <= i <= j < |init| && Fall(init, i, j) == m;
    assert Fall(s, i, j) == m;
  }

  /** The last point's drawdown is its largest fall. */
  lemma LastDrawdown(s: seq<real>)
    requires s != [] && AllPositive(s)
    ensures var d := Drawdown(RunningMax(s), s[|s| - 1]);
            && d.Number? && 0.0 <= d.value < 1.0 && SomeFall(s, d.value)
            && FallsTo(s, |s| - 1, d.value)
  {
    var n := |s| - 1;
    var top := RunningMax(s);
    var k :| 0 <= k < |s| && s[k] == top;
    hide RunningMax;
    FallFromHigher(s[n], top, s[n]);
    SelfFall(s[n]);
    forall i | 0 <= i <= n
      ensures Fall(s, i, n) <= Drawdown(top, s[n]).value
    {
      FallFromHigher(s[i], top, s[n]);
    }
    assert Fall(s, k, n) == Drawdown(top, s[n]).value;
  }

  lemma SelfFall(v: real)
    requires v != 0.0
    ensures (v - v) / v == 0.0
  {
  }

  /** On positive equity the scan gives the largest fall over all pairs of points in order, in [0, 1). */
  lemma {:induction false} DeepestIsLargestFall(s: seq<real>)
    requires AllPositive(s) && s != []
    ensures Deepest(s).Number? && 0.0 <= Deepest(s).value < 1.0
    ensures FallsUpTo(s, Deepest(s).value) && SomeFall(s, Deepest(s).value)
  {
    var init := s[..|s| - 1];
    assert AllPositive(init);
    LastDrawdown(s);
    hide AllPositive, FallsUpTo, SomeFall, Fall, Drawdown, RunningMax;
    if init == [] {
      assert Deepest(init).NotANumber?;
      OnlyPoint(s, Deepest(s).value);
    } else {
      DeepestIsLargestFall(init);
      FallsKeep(s, Deepest(init).value, Deepest(s).value);
      SomeFallKeeps(s, Deepest(init).value);
    }
  }

  lemma OnlyPoint(s: seq<real>, m: real)
    requires |s| == 1 && AllPositive(s) && Fall(s, 0, 0) <= m
    ensures FallsUpTo(s, m)
  {
  }

  /** `max_drawdown` of positive equity: the largest fall among the present points, NaN below two of them. */
  lemma MaxDrawdownIsLargestFall(equity: seq<Option<real>>)
    requires AllPositive(Present(equity))
    ensures var s, r := Present(equity), MaxDrawdown(equity);
            if |s| < 2 then r == NotANumber
            else r.Number? && 0.0 <= r.value < 1.0 && FallsUpTo(s, r.value) && SomeFall(s, r.value)
  {
    hide FallsUpTo, SomeFall, Deepest;
    if |Present(equity)| >= 2 {
      DeepestIsLargestFall(Present(equity));
    }
  }

  // ---------------------------------------------------------------- any equity

  /** Some point at zero or above is followed by one below zero. */
  ghost predicate DropsBelowZero(s: seq<real>) {
    exists i, j :: 0 <= i < j < |s| && s[i] >= 0.0 > s[j]
  }

  ghost predicate AtMostOne(r: Reading) {
    r.NotANumber? || (r.Number? && r.value <= 1.0)
  }

  lemma DrawdownSign(top: real, v: real)
    requires v <= top
    ensures AtMostOne(Drawdown(top, v)) <==> !(top >= 0.0 > v)
    ensures Drawdown(top, v).Number? && top > 0.0 ==> Drawdown(top, v).value >= 0.0
  {
    if top != 0.0 {
      OneMinusShare(top, v);
      if top > 0.0 {
        ShareSign(v, top);
        ShareSign(top - v, top);
      } else {
        NegativeShare(v, top);
      }
    }
  }

  lemma NegativeShare(v: real, top: real)
    requires v <= top < 0.0
    ensures v / top >= 1.0
  {
    var q := v / top;
    assert q * top == v;
    assert (q - 1.0) * (-top) == top - v;
    SignOfFactor(q - 1.0, -top);
  }

  lemma DropInPrefix(s: seq<real>, init: seq<real>)
    requires s != [] && init == s[..|s| - 1] && DropsBelowZero(init)
    ensures DropsBelowZero(s)
  {
    var i, j :| 0 <= i < j < |init| && init[i] >= 0.0 > init[j];
    assert s[i] >= 0.0 > s[j];
  }

  lemma DropAtEnd(s: seq<real>, k: int)
    requires 0 <= k < |s| && s[k] >= 0.0 > s[|s| - 1]
    ensures DropsBelowZero(s)
  {
    assert k < |s| - 1;
  }

  lemma DropSomewhere(s: seq<real>, init: seq<real>, top: real)
    requires s != [] && init == s[..|s| - 1] && DropsBelowZero(s)
    requires forall i :: 0 <= i < |s| ==> s[i] <= top
    ensures DropsBelowZero(init) || top >= 0.0 > s[|s| - 1]
  {
    var i, j :| 0 <= i < j < |s| && s[i] >= 0.0 > s[j];
    if j < |s| - 1 {
      assert init[i] >= 0.0 > init[j];
    }
  }

  lemma DropAtLast(s: seq<real>)
    requires s != []
    ensures DropsBelowZero(s) <==>
              DropsBelowZero(s[..|s| - 1]) || (RunningMax(s) >= 0.0 > s[|s| - 1])
  {
    var init := s[..|s| - 1];
    var k :| 0 <= k < |s| && s[k] == RunningMax(s);
    hide DropsBelowZero, RunningMax;
    if DropsBelowZero(s) {
      DropSomewhere(s, init, RunningMax(s));
    }
    if DropsBelowZero(init) {
      DropInPrefix(s, init);
    }
    if RunningMax(s) >= 0.0 > s[|s| - 1] {
      DropAtEnd(s, k);
    }
  }

  /** The stated range, exactly: the result is at most one unless the curve falls below zero from zero or above. */
  lemma {:induction false} AtMostOneIff(s: seq<real>)
    ensures AtMostOne(Deepest(s)) <==> !DropsBelowZero(s)
  {
    if s != [] {
      AtMostOneIff(s[..|s| - 1]);
      DropAtLast(s);
      DrawdownSign(RunningMax(s), s[|s| - 1]);
      hide DropsBelowZero, Drawdown, RunningMax;
    }
  }

  /** It is never negative: the first non-zero point already reads zero or more. */
  lemma {:induction false} NeverNegative(s: seq<real>)
    ensures Deepest(s).Number? ==> Deepest(s).value >= 0.0
    ensures s != [] && s[0] != 0.0 ==> !Deepest(s).NotANumber?
  {
    if s != [] {
      var init, last, top := s[..|s| - 1], s[|s| - 1], RunningMax(s);
      NeverNegative(init);
      DrawdownSign(top, last);
      assert s[0] <= top && last <= top;
      hide RunningMax;
      if init == [] {
        assert Deepest(init).NotANumber? && top == last;
      } else {
        assert init[0] == s[0];
      }
    }
  }

  ghost predicate NonDecreasing(s: seq<real>) {
    forall i, j :: 0 <= i <= j < |s| ==> s[i] <= s[j]
  }

  ghost predicate AllZero(s: seq<real>) {
    forall i :: 0 <= i < |s| ==> s[i] == 0.0
  }

  lemma LastIsMax(s: seq<real>)
    requires s != [] && NonDecreasing(s)
    ensures RunningMax(s) == s[|s| - 1]
  {
    assert forall i :: 0 <= i < |s| ==> s[i] <= s[|s| - 1];
  }

  lemma {:induction false} DeepestOfNonDecreasing(s: seq<real>)
    requires s != [] && NonDecreasing(s)
    ensures Deepest(s) == if AllZero(s) then NotANumber else Number(0.0)
  {
    var init, last := s[..|s| - 1], s[|s| - 1];
    LastIsMax(s);
    if last != 0.0 {
      SelfFall(last);
    }
    assert NonDecreasing(init);
    assert AllZero(s) <==> AllZero(init) && last == 0.0;
    hide RunningMax, NonDecreasing, AllZero;
    if init == [] {
      NoPoints();
    } else {
      DeepestOfNonDecreasing(init);
    }
  }

  lemma NoPoints()
    ensures AllZero([]) && Deepest([]) == NotANumber
  {
  }

  /** A curve of two or more points that never falls has drawdown zero exactly when some point is not zero; else NaN. */
  lemma RisingIsZeroIff(equity: seq<Option<real>>)
    requires |Present(equity)| >= 2 && NonDecreasing(Present(equity))
    ensures MaxDrawdown(equity) == Number(0.0) <==> !AllZero(Present(equity))
    ensures MaxDrawdown(equity) == NotANumber <==> AllZero(Present(equity))
  {
    DeepestOfNonDecreasing(Present(equity));
  }

  /** In particular a constant curve, exactly when its value is not zero. */
  lemma ConstantIsZeroIff(equity: seq<Option<real>>, v: real)
    requires |Present(equity)| >= 2 && forall i :: 0 <= i < |Present(equity)| ==> Present(equity)[i] == v
    ensures MaxDrawdown(equity) == Number(0.0) <==> v != 0.0
    ensures MaxDrawdown(equity) == NotANumber <==> v == 0.0
  {
    var s := Present(equity);
    RisingIsZeroIff(equity);
    assert AllZero(s) ==> s[0] == 0.0;
  }

  lemma FallBelowZeroExample()
    ensures MaxDrawdown([Some(1.0), Some(-1.0)]) == Number(2.0)
  {
    var s := [1.0, -1.0];
    assert Present([Some(1.0), Some(-1.0)]) == s by {
      assert [Some(1.0), Some(-1.0)][1..] == [Some(-1.0)];
    }
    assert s[..1] == [1.0] && [1.0][..0] == [];
    assert Deepest([1.0]) == Number(0.0);
  }
}
