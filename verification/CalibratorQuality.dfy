/** `flat_region_stats` in calibrator_quality.py: the one-pass scan for the widest flat stretch. */
module CalibratorQuality {
  import opened Wrappers

  datatype FlatStats = FlatStats(fraction: real, longestSpan: real, xTotal: real)

  /** y does not change between positions i and j. */
  ghost predicate Flat(y: seq<real>, i: int, j: int) {
    0 <= i <= j < |y| && forall k :: i <= k <= j ==> y[k] == y[i]
  }

  /** A flat stretch that cannot be extended on either side. */
  ghost predicate IsRun(y: seq<real>, a: int, b: int) {
    && Flat(y, a, b)
    && (a > 0 ==> y[a - 1] != y[a])
    && (b < |y| - 1 ==> y[b + 1] != y[b])
  }

  ghost predicate NonDecreasing(x: seq<real>) {
    forall i, j :: 0 <= i <= j < |x| ==> x[i] <= x[j]
  }

  /** The inputs the scan looks at; anything else gives all zeros. */
  predicate Scannable(x: Option<seq<real>>, y: Option<seq<real>>) {
    x.Some? && y.Some? && |x.value| == |y.value| && |x.value| >= 2
  }

  /** longest is the widest of the runs that end before position `end`, or zero if none is wider. */
  ghost predicate WidestBefore(x: seq<real>, y: seq<real>, end: int, longest: real)
    requires |x| == |y|
  {
    && longest >= 0.0
    && (forall a, b :: IsRun(y, a, b) && b < end ==> x[b] - x[a] <= longest)
    && (longest == 0.0 || exists a, b :: IsRun(y, a, b) && b < end && x[b] - x[a] == longest)
  }

  method FlatRegionStats(xs: Option<seq<real>>, ys: Option<seq<real>>) returns (s: FlatStats)
    ensures xs.None? || ys.None? || |xs.value| != |ys.value| || |xs.value| < 2 ==> s == FlatStats(0.0, 0.0, 0.0)
    ensures xs.Some? && ys.Some? && |xs.value| == |ys.value| >= 2 ==>
              var x, y := xs.value, ys.value;
              && s.xTotal == x[|x| - 1] - x[0]
              && (s.xTotal <= 0.0 ==> s.longestSpan == s.fraction == 0.0)
              && (s.xTotal > 0.0 ==> WidestBefore(x, y, |y|, s.longestSpan) && s.fraction == s.longestSpan / s.xTotal)
  {
    if !Scannable(xs, ys) {
      return FlatStats(0.0, 0.0, 0.0);
    }
    var x, y := xs.value, ys.value;
    var xTotal := x[|x| - 1] - x[0];
    if xTotal <= 0.0 {
      return FlatStats(0.0, 0.0, xTotal);
    }
    var longest := LongestRun(x, y);
    s := FlatStats(longest / xTotal, longest, xTotal);
  }

  /** The longest span after a stretch from a to b; a single point has no span. */
  function Widened(x: seq<real>, a: int, b: int, longest: real): real
    requires 0 <= a <= b < |x|
  {
    if b - a >= 1 && x[b] - x[a] > longest then x[b] - x[a] else longest
  }

  /** Before position i: start opens the current flat stretch, and the runs before it are done. */
  ghost predicate Scanning(x: seq<real>, y: seq<real>, start: int, i: int, longest: real)
    requires |x| == |y|
  {
    && 0 <= start < i <= |y|
    && Flat(y, start, i - 1)
    && (start > 0 ==> y[start - 1] != y[start])
    && WidestBefore(x, y, start, longest)
  }

  /** The scan itself: close a run whenever y changes, and once more at the end. */
  method LongestRun(x: seq<real>, y: seq<real>) returns (longest: real)
    requires |x| == |y| >= 2
    ensures WidestBefore(x, y, |y|, longest)
  {
    hide WidestBefore, Scanning, Widened;
    longest := 0.0;
    var curStart := 0;
    var curY := y[0];
    var i := 1;
    ScanOpens(x, y);
    while i < |y|
      invariant 0 <= curStart < i <= |y| && curY == y[curStart]
      invariant Scanning(x, y, curStart, i, longest)
    {
      ScanStep(x, y, curStart, i, longest);
      if y[i] != curY {
        longest := Widened(x, curStart, i - 1, longest);
        curStart := i;
        curY := y[i];
      }
      i := i + 1;
    }
    ScanCloses(x, y, curStart, longest);
    longest := Widened(x, curStart, |y| - 1, longest);
  }

  lemma ScanOpens(x: seq<real>, y: seq<real>)
    requires |x| == |y| >= 2
    ensures Scanning(x, y, 0, 1, 0.0)
  {
  }

  lemma ScanStep(x: seq<real>, y: seq<real>, start: int, i: int, longest: real)
    requires |x| == |y| && 0 <= start < i < |y| && Scanning(x, y, start, i, longest)
    ensures y[i] == y[start] ==> Scanning(x, y, start, i + 1, longest)
    ensures y[i] != y[start] ==> Scanning(x, y, i, i + 1, Widened(x, start, i - 1, longest))
  {
    hide WidestBefore;
    if y[i] != y[start] {
      RunCloses(y, start, i - 1);
      hide Widened, IsRun;
      RunEnds(x, y, start, i - 1, longest);
    }
  }

  lemma RunCloses(y: seq<real>, start: int, last: int)
    requires Flat(y, start, last) && (start > 0 ==> y[start - 1] != y[start])
    requires last < |y| - 1 ==> y[last + 1] != y[start]
    ensures IsRun(y, start, last)
  {
    assert y[last] == y[start];
  }

  lemma ScanCloses(x: seq<real>, y: seq<real>, start: int, longest: real)
    requires |x| == |y| && 0 <= start < |y| && Scanning(x, y, start, |y|, longest)
    ensures WidestBefore(x, y, |y|, Widened(x, start, |y| - 1, longest))
  {
    hide WidestBefore, Widened;
    RunEnds(x, y, start, |y| - 1, longest);
  }

  /** Two runs that end at or after the same start are the same run. */
  lemma RunIsUnique(y: seq<real>, a: int, b: int, c: int, d: int)
    requires IsRun(y, a, b) && IsRun(y, c, d) && c <= b <= d
    ensures a == c && b == d
  {
  }

  /** Closing the run [a, b] extends the bound from the runs before a to those before b + 1. */
  lemma RunEnds(x: seq<real>, y: seq<real>, a: int, b: int, longest: real)
    requires |x| == |y| && IsRun(y, a, b) && WidestBefore(x, y, a, longest)
    ensures WidestBefore(x, y, b + 1, Widened(x, a, b, longest))
  {
    var next := Widened(x, a, b, longest);
    forall c, d | IsRun(y, c, d) && d < b + 1
      ensures x[d] - x[c] <= next
    {
      if d >= a {
        RunIsUnique(y, c, d, a, b);
      }
    }
  }

  // ---------------------------------------------------------------- what the scan measures

  /** Every flat stretch lies in a run. */
  lemma {:induction false} ExtendToRun(y: seq<real>, i: int, j: int) returns (a: int, b: int)
    requires Flat(y, i, j)
    ensures IsRun(y, a, b) && a <= i && j <= b
    decreases i + |y| - j
  {
    if i > 0 && y[i - 1] == y[i] {
      a, b := ExtendToRun(y, i - 1, j);
    } else if j < |y| - 1 && y[j + 1] == y[j] {
      a, b := ExtendToRun(y, i, j + 1);
    } else {
      a, b := i, j;
    }
  }

  /** For non-decreasing x the scan's longest span is the largest x[j] - x[i] over all flat stretches. */
  lemma SpanIsWidest(x: seq<real>, y: seq<real>, longest: real)
    requires |x| == |y| && y != [] && NonDecreasing(x) && WidestBefore(x, y, |y|, longest)
    ensures forall i, j :: Flat(y, i, j) ==> x[j] - x[i] <= longest
    ensures exists i, j :: Flat(y, i, j) && x[j] - x[i] == longest
  {
    forall i, j | Flat(y, i, j)
      ensures x[j] - x[i] <= longest
    {
      var a, b := ExtendToRun(y, i, j);
      assert x[a] <= x[i] && x[j] <= x[b];
    }
    if longest == 0.0 {
      assert Flat(y, 0, 0);
    } else {
      var a, b :| IsRun(y, a, b) && x[b] - x[a] == longest;
      assert Flat(y, a, b);
    }
  }

  lemma QuotientInUnit(span: real, total: real)
    requires 0.0 <= span <= total && total > 0.0
    ensures 0.0 <= span / total <= 1.0
    ensures span / total == 1.0 <==> span == total
    ensures span / total == 0.0 <==> span == 0.0
  {
  }

  /** For non-decreasing x the fraction lies in [0, 1], and is zero only if no flat stretch has a width. */
  lemma FractionInUnit(x: seq<real>, y: seq<real>, s: FlatStats)
    requires |x| == |y| >= 2 && NonDecreasing(x) && s.xTotal == x[|x| - 1] - x[0] > 0.0
    requires WidestBefore(x, y, |y|, s.longestSpan) && s.fraction == s.longestSpan / s.xTotal
    ensures 0.0 <= s.fraction <= 1.0
    ensures s.fraction == 0.0 <==> forall i, j :: Flat(y, i, j) ==> x[i] == x[j]
  {
    SpanIsWidest(x, y, s.longestSpan);
    var i, j :| Flat(y, i, j) && x[j] - x[i] == s.longestSpan;
    assert x[0] <= x[i] && x[j] <= x[|x| - 1];
    QuotientInUnit(s.longestSpan, s.xTotal);
    assert forall c, d :: Flat(y, c, d) ==> x[c] <= x[d];
  }

  /** Some flat stretch runs from the least x to the largest. */
  ghost predicate Spanned(x: seq<real>, y: seq<real>)
    requires |x| == |y| >= 2
  {
    exists i, j :: Flat(y, i, j) && x[i] == x[0] && x[j] == x[|x| - 1]
  }

  /** For non-decreasing x the fraction is one exactly when a flat stretch spans all of x. */
  lemma FullIffSpanned(x: seq<real>, y: seq<real>, s: FlatStats)
    requires |x| == |y| >= 2 && NonDecreasing(x) && s.xTotal == x[|x| - 1] - x[0] > 0.0
    requires WidestBefore(x, y, |y|, s.longestSpan) && s.fraction == s.longestSpan / s.xTotal
    ensures s.fraction == 1.0 <==> Spanned(x, y)
  {
    var n := |x| - 1;
    SpanIsWidest(x, y, s.longestSpan);
    var i, j :| Flat(y, i, j) && x[j] - x[i] == s.longestSpan;
    assert x[0] <= x[i] && x[j] <= x[n];
    QuotientInUnit(s.longestSpan, s.xTotal);
    if Spanned(x, y) {
      var a, b :| Flat(y, a, b) && x[a] == x[0] && x[b] == x[n];
      assert x[b] - x[a] <= s.longestSpan;
    }
  }

  /** Neither end of x is a repeated value. */
  predicate EndsApart(x: seq<real>)
    requires |x| >= 2
  {
    x[0] < x[1] && x[|x| - 2] < x[|x| - 1]
  }

  lemma EndsAreUnique(x: seq<real>, i: int)
    requires |x| >= 2 && NonDecreasing(x) && EndsApart(x) && 0 <= i < |x|
    ensures x[i] == x[0] <==> i == 0
    ensures x[i] == x[|x| - 1] <==> i == |x| - 1
  {
    if 0 < i < |x| - 1 {
      assert x[1] <= x[i] <= x[|x| - 2];
    } else {
      assert x[1] <= x[|x| - 1];
    }
  }

  /** One whole flat curve has fraction one; with unrepeated ends nothing else has. */
  lemma FullIffConstant(x: seq<real>, y: seq<real>, s: FlatStats)
    requires |x| == |y| >= 2 && NonDecreasing(x) && s.xTotal == x[|x| - 1] - x[0] > 0.0
    requires WidestBefore(x, y, |y|, s.longestSpan) && s.fraction == s.longestSpan / s.xTotal
    ensures Flat(y, 0, |y| - 1) ==> s.fraction == 1.0
    ensures EndsApart(x) ==> (s.fraction == 1.0 <==> Flat(y, 0, |y| - 1))
  {
    FullIffSpanned(x, y, s);
    if EndsApart(x) && Spanned(x, y) {
      var i, j :| Flat(y, i, j) && x[i] == x[0] && x[j] == x[|x| - 1];
      EndsAreUnique(x, i);
      EndsAreUnique(x, j);
    }
  }

  /** Whenever an end of x is repeated, some curve that is not constant has fraction one. */
  lemma RepeatedEnd(x: seq<real>) returns (y: seq<real>)
    requires |x| >= 2 && NonDecreasing(x) && x[0] < x[|x| - 1] && !EndsApart(x)
    ensures |y| == |x| && !Flat(y, 0, |y| - 1) && Spanned(x, y)
  {
    var n := |x| - 1;
    assert x[0] <= x[1] && x[n - 1] <= x[n];
    if x[0] == x[1] {
      y := seq(|x|, k => if k == 0 then 1.0 else 0.0);
      assert y[0] != y[n];
      assert Flat(y, 1, n);
    } else {
      y := seq(|x|, k => if k == n then 1.0 else 0.0);
      assert y[0] != y[n];
      assert Flat(y, 0, n - 1);
    }
  }

  /** Without the order of x the fraction leaves [0, 1]: a curve that doubles back reads above one. */
  lemma UnorderedFractionAboveOne(s: FlatStats)
    requires WidestBefore([0.0, 3.0, 2.0], [5.0, 5.0, 6.0], 3, s.longestSpan)
    requires s.xTotal == 2.0 && s.fraction == s.longestSpan / s.xTotal
    ensures s.fraction > 1.0
  {
    assert IsRun([5.0, 5.0, 6.0], 0, 1);
  }
}
