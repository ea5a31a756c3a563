/** The probability of backtest overfitting: what both estimators compute per combination. */
module PboScores {
  import opened Wrappers
  import Cscv

  /** What one combination contributes: nothing, or a vote. */
  datatype Verdict = Skipped | Robust | Overfit

  ghost predicate ValidRows(idx: seq<int>, rows: nat) {
    forall t :: t in idx ==> 0 <= t < rows
  }

  /** The entries of one strategy's return series at the given observations. */
  function Select(series: seq<real>, idx: seq<int>): (r: seq<real>)
    requires ValidRows(idx, |series|)
    ensures |r| == |idx| && forall j :: 0 <= j < |idx| ==> 0 <= idx[j] < |series| && r[j] == series[idx[j]]
  {
    assert forall j :: 0 <= j < |idx| ==> idx[j] in idx;
    seq(|idx|, j requires 0 <= j < |idx| => assert idx[j] in idx; series[idx[j]])
  }

  lemma GatherValid(cuts: seq<int>, slices: nat, chosen: seq<int>, rows: nat)
    requires Cscv.AreCuts(cuts, slices) && cuts[slices] <= rows
    ensures ValidRows(Cscv.Gather(cuts, chosen), rows)
  {
    forall t | t in Cscv.Gather(cuts, chosen)
      ensures 0 <= t < rows
    {
      Cscv.GatherMembers(cuts, chosen, t);
      var s :| s in chosen && Cscv.InSlice(cuts, s, t);
      Cscv.CutsMonotone(cuts, slices, 0, s);
      Cscv.CutsMonotone(cuts, slices, s + 1, slices);
    }
  }

  /** Is every score NaN? */
  predicate AllNaN(scores: seq<Option<real>>) {
    forall i :: 0 <= i < |scores| ==> scores[i].None?
  }

  ghost predicate AllFinite(scores: seq<Option<real>>) {
    forall i :: 0 <= i < |scores| ==> scores[i].Some?
  }

  /** No other strategy has the winner's out-of-sample score. */
  ghost predicate OwnScore(oos: seq<Option<real>>, best: int)
    requires 0 <= best < |oos|
  {
    forall j :: 0 <= j < |oos| && j != best ==> oos[j] != oos[best]
  }

  /** `np.nanargmax`: the first position of the largest score that is not NaN. */
  function NanArgmax(scores: seq<Option<real>>): (best: int)
    requires !AllNaN(scores)
    ensures 0 <= best < |scores| && scores[best].Some?
    ensures forall i :: 0 <= i < |scores| && scores[i].Some? ==> scores[i].value <= scores[best].value
    ensures forall i :: 0 <= i < best && scores[i].Some? ==> scores[i].value < scores[best].value
  {
    var init, last := scores[..|scores| - 1], scores[|scores| - 1];
    if AllNaN(init) then |scores| - 1
    else
      var b := NanArgmax(init);
      if last.Some? && last.value > init[b].value then |scores| - 1 else b
  }

  /** The sign test for `log(omega / (1 - omega)) <= 0`: the logarithm is monotone and log 1 is 0. */
  predicate LogitNotPositive(omega: real)
    requires 0.0 < omega < 1.0
  {
    omega / (1.0 - omega) <= 1.0
  }

  lemma Scaled(a: real, b: real, m: real)
    requires m > 0.0
    ensures a < b <==> a * m < b * m
  {
    if a < b {
      assert (b - a) * m > 0.0;
    } else {
      assert (a - b) * m >= 0.0;
    }
  }

  lemma LogitSign(omega: real)
    requires 0.0 < omega < 1.0
    ensures LogitNotPositive(omega) <==> 2.0 * omega <= 1.0
  {
    var d := 1.0 - omega;
    assert omega / d * d == omega;
    Scaled(1.0, omega / d, d);
  }

  /** r/m <= 1/2 in integers. */
  lemma HalfQuotient(r: int, m: int)
    requires m > 0
    ensures 2.0 * (r as real / m as real) <= 1.0 <==> 2 * r <= m
  {
    var q, k := r as real / m as real, m as real;
    assert q * k == r as real;
    Scaled(1.0, 2.0 * q, k);
  }

  lemma ProperFraction(r: int, m: int)
    requires 0 < r <= m
    ensures 0.0 < r as real / m as real <= 1.0
    ensures r < m ==> r as real / m as real < 1.0
  {
    var q, k := r as real / m as real, m as real;
    assert q * k == r as real;
    Scaled(0.0, q, k);
    Scaled(q, 1.0, k);
    Scaled(1.0, q, k);
  }

  // ---------------------------------------------------------------- tallying verdicts

  function CountOverfit(vs: seq<Verdict>): nat {
    if vs == [] then 0
    else CountOverfit(vs[..|vs| - 1]) + (if vs[|vs| - 1] == Overfit then 1 else 0)
  }

  function CountValid(vs: seq<Verdict>): nat {
    if vs == [] then 0
    else CountValid(vs[..|vs| - 1]) + (if vs[|vs| - 1] == Skipped then 0 else 1)
  }

  lemma CountStep(vs: seq<Verdict>, c: nat)
    requires c < |vs|
    ensures CountOverfit(vs[..c + 1]) == CountOverfit(vs[..c]) + (if vs[c] == Overfit then 1 else 0)
    ensures CountValid(vs[..c + 1]) == CountValid(vs[..c]) + (if vs[c] == Skipped then 0 else 1)
  {
    assert vs[..c + 1][..c] == vs[..c];
  }

  /** The overfit share of the valid combinations; NaN when none is valid. */
  function Fraction(vs: seq<Verdict>): (r: Option<real>)
    ensures r.Some? <==> exists i :: 0 <= i < |vs| && vs[i] != Skipped
    ensures r.Some? ==> 0.0 <= r.value <= 1.0
  {
    CountBounds(vs);
    if CountValid(vs) == 0 then None
    else
      Share(CountOverfit(vs), CountValid(vs));
      Some(CountOverfit(vs) as real / CountValid(vs) as real)
  }

  ghost function PositionsOf(vs: seq<Verdict>, v: Verdict): set<int> {
    set i | 0 <= i < |vs| && vs[i] == v
  }

  lemma {:induction false} CountsArePositions(vs: seq<Verdict>)
    ensures CountOverfit(vs) == |PositionsOf(vs, Overfit)|
    ensures CountValid(vs) == |PositionsOf(vs, Overfit)| + |PositionsOf(vs, Robust)|
  {
    PositionsSplit(vs, Overfit);
    PositionsSplit(vs, Robust);
    hide PositionsOf;
    if vs != [] {
      CountsArePositions(vs[..|vs| - 1]);
    }
  }

  lemma PositionsSplit(vs: seq<Verdict>, v: Verdict)
    ensures vs == [] ==> |PositionsOf(vs, v)| == 0
    ensures vs != [] ==>
              |PositionsOf(vs, v)| == |PositionsOf(vs[..|vs| - 1], v)| + if vs[|vs| - 1] == v then 1 else 0
  {
    if vs != [] {
      var n := |vs| - 1;
      var init := PositionsOf(vs[..n], v);
      assert n !in init;
      assert PositionsOf(vs, v) == if vs[n] == v then init + {n} else init;
    }
  }

  /** The estimate times the number of combinations that voted is the number that voted overfit. */
  lemma FractionIsShare(vs: seq<Verdict>)
    requires Fraction(vs).Some?
    ensures var overfit, robust := |PositionsOf(vs, Overfit)|, |PositionsOf(vs, Robust)|;
            overfit + robust > 0 && Fraction(vs).value * (overfit + robust) as real == overfit as real
  {
    CountBounds(vs);
    CountsArePositions(vs);
    hide PositionsOf, CountOverfit, CountValid;
  }

  lemma {:induction false} CountBounds(vs: seq<Verdict>)
    ensures CountOverfit(vs) <= CountValid(vs) <= |vs|
    ensures CountValid(vs) > 0 <==> exists i :: 0 <= i < |vs| && vs[i] != Skipped
  {
    if vs != [] {
      var init := vs[..|vs| - 1];
      CountBounds(init);
      if CountValid(vs) > 0 && CountValid(init) > 0 {
        var i :| 0 <= i < |init| && init[i] != Skipped;
        assert vs[i] != Skipped;
      }
      if i :| 0 <= i < |vs| && vs[i] != Skipped {
        assert i == |vs| - 1 || init[i] != Skipped;
      }
    }
  }

  lemma Share(a: nat, b: nat)
    requires a <= b && b > 0
    ensures 0.0 <= a as real / b as real <= 1.0
  {
    if a > 0 {
      ProperFraction(a, b);
    }
  }

  lemma ShareMonotone(a: nat, a': nat, b: nat)
    requires a <= a' && b > 0
    ensures a as real / b as real <= a' as real / b as real
  {
    var q, q', k := a as real / b as real, a' as real / b as real, b as real;
    assert q * k == a as real && q' * k == a' as real;
    Scaled(q', q, k);
  }
}
