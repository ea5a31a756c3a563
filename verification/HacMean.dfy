/**
 * The Newey-West (HAC) variance of a sample mean: `hac_mean` in stats.py.
 *
 * Floats are reals, and the square root is exact.
 */
module HacMean {
  import opened Wrappers
  import opened Sums

  // ---------------------------------------------------------------- the estimator

  function Mean(x: seq<real>): real
    requires |x| > 0
  {
    Total(x) / |x| as real
  }

  /** i |-> the i-th point of the series. */
  ghost function Points(x: seq<real>): int -> real {
    i => At(x, i)
  }

  lemma {:induction false} TotalIsSum(x: seq<real>)
    ensures Total(x) == Sum(Points(x), 0, |x|)
  {
    if x != [] {
      TotalIsSum(x[1..]);
      SumSplit(Points(x), 0, 1, |x|);
      assert Sum(Points(x), 0, 1) == Sum(Points(x), 0, 0) + x[0];
      SumShift(Points(x), 1, Points(x[1..]), 0, |x| - 1);
    }
  }

  /** m times the number of points is the sum of the points. */
  ghost predicate IsMean(x: seq<real>, m: real) {
    |x| as real * m == Sum(Points(x), 0, |x|)
  }

  lemma MeanIsAverage(x: seq<real>)
    requires |x| > 0
    ensures IsMean(x, Mean(x))
  {
    TotalIsSum(x);
    Undivide(Total(x), |x| as real);
  }

  lemma {:induction false} SumConstant(f: int -> real, k: real, n: nat)
    requires forall i :: 0 <= i < n ==> f(i) == k
    ensures Sum(f, 0, n) == n as real * k
  {
    if n > 0 {
      SumConstant(f, k, n - 1);
    }
  }

  /** Every centred point is the point minus the mean, and the centred series sums to zero. */
  lemma CenteredSumsToZero(x: seq<real>)
    requires |x| > 0
    ensures |Centered(x)| == |x| && forall i :: 0 <= i < |x| ==> Centered(x)[i] + Mean(x) == x[i]
    ensures Sum(Points(Centered(x)), 0, |x|) == 0.0
  {
    MeanIsAverage(x);
    var m := (i: int) => Mean(x);
    SumConstant(m, Mean(x), |x|);
    SumAdd(Points(Centered(x)), m, Points(x), 0, |x|);
  }

  /** `x - mean`, element by element. */
  function Centered(x: seq<real>): (c: seq<real>)
    requires |x| > 0
  {
    seq(|x|, i requires 0 <= i < |x| => x[i] - Mean(x))
  }

  /** `np.dot`: the sum of products of two vectors of equal length. */
  function Dot(a: seq<real>, b: seq<real>): real
    requires |a| == |b|
  {
    if a == [] then 0.0 else Dot(a[..|a| - 1], b[..|b| - 1]) + a[|a| - 1] * b[|b| - 1]
  }

  /** The lag-l autocovariance `dot(c[l:], c[:-l]) / n`; for l == 0 it is gamma0. */
  function Gamma(c: seq<real>, l: nat): real
    requires l <= |c| && |c| > 0
  {
    Dot(c[l..], c[..|c| - l]) / |c| as real
  }

  function BartlettWeight(lag: nat, l: nat): real {
    1.0 - l as real / (lag as real + 1.0)
  }

  /** The accumulator `var` after the offsets 1..k of the loop. */
  function BartlettSum(c: seq<real>, lag: nat, k: nat): real
    requires k < |c|
  {
    if k == 0 then Gamma(c, 0)
    else BartlettSum(c, lag, k - 1) + 2.0 * BartlettWeight(lag, k) * Gamma(c, k)
  }

  // ---------------------------------------------------------------- sliding windows

  /** The series padded with zeros on both sides. */
  function At(c: seq<real>, i: int): real {
    if 0 <= i < |c| then c[i] else 0.0
  }

  /** The sum of the lag+1 padded values c[t-lag], ..., c[t]. */
  function Window(c: seq<real>, lag: nat, t: int): real {
    if lag == 0 then At(c, t) else Window(c, lag - 1, t) + At(c, t - lag)
  }

  /** t |-> (window ending at t) squared. */
  ghost function WindowSquare(c: seq<real>, lag: nat): int -> real {
    t => Window(c, lag, t) * Window(c, lag, t)
  }

  /** t |-> (window of lag k ending at t) times the value l places back. */
  ghost function WindowTail(c: seq<real>, k: nat, l: nat): int -> real {
    t => Window(c, k, t) * At(c, t - l)
  }

  /** t |-> the product of the values j and l places back. */
  ghost function Product(c: seq<real>, j: nat, l: nat): int -> real {
    t => At(c, t - j) * At(c, t - l)
  }

  /** The sum of squares of every length-(lag+1) window that meets the series. */
  ghost function WindowEnergy(c: seq<real>, lag: nat): real {
    Sum(WindowSquare(c, lag), 0, |c| + lag)
  }

  /** The padded lag-l product sum. */
  ghost function Corr(c: seq<real>, l: nat): real {
    Sum(Product(c, 0, l), 0, |c|)
  }

  /** Corr summed over the lags 1..k. */
  ghost function CorrUpTo(c: seq<real>, k: nat): real {
    if k == 0 then 0.0 else CorrUpTo(c, k - 1) + Corr(c, k)
  }

  ghost function DotTerm(a: seq<real>, b: seq<real>): int -> real {
    i => At(a, i) * At(b, i)
  }

  lemma {:induction false} DotIsSum(a: seq<real>, b: seq<real>)
    requires |a| == |b|
    ensures Dot(a, b) == Sum(DotTerm(a, b), 0, |a|)
  {
    if a != [] {
      var a', b' := a[..|a| - 1], b[..|b| - 1];
      DotIsSum(a', b');
      SumExt(DotTerm(a', b'), DotTerm(a, b), 0, |a'|);
    }
  }

  /** The autocovariance in its padded form: n * gamma_l is Corr. */
  lemma GammaIsCorr(c: seq<real>, l: nat)
    requires l <= |c| && |c| > 0
    ensures |c| as real * Gamma(c, l) == Corr(c, l)
  {
    hide Dot, Sum;
    var hi, lo := c[l..], c[..|c| - l];
    DotIsSum(hi, lo);
    SumShift(Product(c, 0, l), l, DotTerm(hi, lo), 0, |c| - l);
    SumPad(Product(c, 0, l), l, |c|, 0, |c|);
    Undivide(Dot(hi, lo), |c| as real);
  }

  lemma Undivide(a: real, n: real)
    requires n != 0.0
    ensures n * (a / n) == a
  {
  }

  /** Corr does not depend on where the padded series is cut, nor on a common shift. */
  lemma CorrShifted(c: seq<real>, j: int, l: nat)
    requires 0 <= j <= l
    ensures Sum(Product(c, j, l), 0, |c| + l) == Corr(c, l - j)
  {
    var f := Product(c, 0, l - j);
    SumShift(f, -j, Product(c, j, l), 0, |c| + l);
    SumPad(f, 0, |c|, -j, |c| + l - j);
  }

  /** The window of length k+1 times the value l places back, summed over all positions. */
  lemma {:induction false} WindowTimesTail(c: seq<real>, k: nat, l: nat)
    requires k < l
    ensures Sum(WindowTail(c, k, l), 0, |c| + l) == CorrUpTo(c, l) - CorrUpTo(c, l - k - 1)
  {
    hide Sum, Product, WindowTail;
    CorrShifted(c, k, l);
    if k == 0 {
      WindowTailBase(c, l, |c| + l);
    } else {
      WindowTimesTail(c, k - 1, l);
      WindowTailStep(c, k, l, |c| + l);
    }
  }

  lemma WindowTailBase(c: seq<real>, l: nat, n: int)
    ensures Sum(WindowTail(c, 0, l), 0, n) == Sum(Product(c, 0, l), 0, n)
  {
    SumExt(WindowTail(c, 0, l), Product(c, 0, l), 0, n);
  }

  lemma WindowTailStep(c: seq<real>, k: nat, l: nat, n: int)
    requires k > 0
    ensures Sum(WindowTail(c, k, l), 0, n) == Sum(WindowTail(c, k - 1, l), 0, n) + Sum(Product(c, k, l), 0, n)
  {
    forall t
      ensures WindowTail(c, k, l)(t) == WindowTail(c, k - 1, l)(t) + Product(c, k, l)(t)
    {
      Distribute(Window(c, k - 1, t), At(c, t - k), At(c, t - l));
    }
    SumAdd(WindowTail(c, k - 1, l), Product(c, k, l), WindowTail(c, k, l), 0, n);
  }

  lemma Distribute(a: real, b: real, x: real)
    ensures (a + b) * x == a * x + b * x
  {
  }

  lemma {:induction false} WindowVanishes(c: seq<real>, lag: nat, t: int)
    requires t < 0 || t >= |c| + lag
    ensures Window(c, lag, t) == 0.0
  {
    if lag > 0 {
      WindowVanishes(c, lag - 1, t);
    }
  }

  /** Twice the cross term plus the square of the new value: what a longer window adds at t. */
  ghost function Gain(c: seq<real>, lag: nat): int -> real
    requires lag > 0
  {
    t => TwiceTail(c, lag)(t) + Product(c, lag, lag)(t)
  }

  ghost function TwiceTail(c: seq<real>, lag: nat): int -> real
    requires lag > 0
  {
    t => 2.0 * WindowTail(c, lag - 1, lag)(t)
  }

  /** Lengthening the window by one adds gamma0 and twice every autocovariance up to the new lag. */
  lemma EnergyStep(c: seq<real>, lag: nat)
    requires lag > 0
    ensures WindowEnergy(c, lag) == WindowEnergy(c, lag - 1) + 2.0 * CorrUpTo(c, lag) + Corr(c, 0)
  {
    hide WindowSquare, WindowTail, Product, Sum;
    var n := |c| + lag;
    WindowSquareStep(c, lag);
    SumAdd(WindowSquare(c, lag - 1), Gain(c, lag), WindowSquare(c, lag), 0, n);
    SumAdd(TwiceTail(c, lag), Product(c, lag, lag), Gain(c, lag), 0, n);
    SumScale(WindowTail(c, lag - 1, lag), 2.0, TwiceTail(c, lag), 0, n);
    WindowTimesTail(c, lag - 1, lag);
    CorrShifted(c, lag, lag);
    LastWindowVanishes(c, lag);
    assert Sum(WindowTail(c, lag - 1, lag), 0, n) == CorrUpTo(c, lag);
    assert Sum(Gain(c, lag), 0, n) == 2.0 * CorrUpTo(c, lag) + Corr(c, 0);
  }

  lemma WindowSquareStep(c: seq<real>, lag: nat)
    requires lag > 0
    ensures forall t :: WindowSquare(c, lag)(t) == WindowSquare(c, lag - 1)(t) + Gain(c, lag)(t)
  {
    forall t
      ensures WindowSquare(c, lag)(t) == WindowSquare(c, lag - 1)(t) + Gain(c, lag)(t)
    {
      var a, b := Window(c, lag - 1, t), At(c, t - lag);
      SquareOfSum(a, b);
      assert WindowTail(c, lag - 1, lag)(t) == a * b;
      assert Product(c, lag, lag)(t) == b * b;
    }
  }

  lemma LastWindowVanishes(c: seq<real>, lag: nat)
    requires lag > 0
    ensures Sum(WindowSquare(c, lag - 1), 0, |c| + lag) == WindowEnergy(c, lag - 1)
  {
    WindowVanishes(c, lag - 1, |c| + lag - 1);
  }

  lemma SquareOfSum(a: real, b: real)
    ensures (a + b) * (a + b) == a * a + (2.0 * (a * b) + b * b)
  {
  }

  /** The weighted sum (lag+1)*Corr(0) + 2*sum over l <= k of (lag+1-l)*Corr(l). */
  ghost function WeightedCorr(c: seq<real>, lag: nat, k: nat): real {
    if k == 0 then (lag + 1) as real * Corr(c, 0)
    else WeightedCorr(c, lag, k - 1) + 2.0 * ((lag + 1 - k) as real * Corr(c, k))
  }

  lemma {:induction false} WeightedCorrStep(c: seq<real>, lag: nat, k: nat)
    requires lag > 0
    ensures WeightedCorr(c, lag, k) == WeightedCorr(c, lag - 1, k) + 2.0 * CorrUpTo(c, k) + Corr(c, 0)
  {
    if k > 0 {
      WeightedCorrStep(c, lag, k - 1);
    }
    Successor((lag - k) as real, Corr(c, k));
  }

  lemma Successor(w: real, r: real)
    ensures (w + 1.0) * r == w * r + r
  {
  }

  /** The energy of all sliding windows is the triangularly weighted sum of product sums. */
  lemma {:induction false} EnergyIsWeightedCorr(c: seq<real>, lag: nat)
    ensures WindowEnergy(c, lag) == WeightedCorr(c, lag, lag)
  {
    if lag == 0 {
      SumExt(WindowSquare(c, 0), Product(c, 0, 0), 0, |c|);
    } else {
      EnergyIsWeightedCorr(c, lag - 1);
      EnergyStep(c, lag);
      WeightedCorrStep(c, lag, lag);
    }
  }

  /** v with the estimator's denominators n and lag+1 cleared. */
  ghost function Cleared(c: seq<real>, lag: nat, v: real): real {
    |c| as real * ((lag + 1) as real * v)
  }

  lemma {:induction false} BartlettIsWeightedCorr(c: seq<real>, lag: nat, k: nat)
    requires k <= lag && k < |c|
    ensures Cleared(c, lag, BartlettSum(c, lag, k)) == WeightedCorr(c, lag, k)
  {
    if k == 0 {
      ClearBase(c, lag);
    } else {
      BartlettIsWeightedCorr(c, lag, k - 1);
      ClearStep(c, lag, k);
    }
  }

  lemma ClearBase(c: seq<real>, lag: nat)
    requires |c| > 0
    ensures Cleared(c, lag, Gamma(c, 0)) == (lag + 1) as real * Corr(c, 0)
  {
    GammaIsCorr(c, 0);
    Exchange(|c| as real, (lag + 1) as real, Gamma(c, 0));
  }

  lemma ClearStep(c: seq<real>, lag: nat, k: nat)
    requires 0 < k <= lag && k < |c|
    requires Cleared(c, lag, BartlettSum(c, lag, k - 1)) == WeightedCorr(c, lag, k - 1)
    ensures Cleared(c, lag, BartlettSum(c, lag, k)) == WeightedCorr(c, lag, k)
  {
    hide BartlettWeight, Corr, Gamma;
    var n, m, w := |c| as real, (lag + 1) as real, BartlettWeight(lag, k);
    var coef := (lag + 1 - k) as real;
    assert m * w == coef by {
      ClearWeight(lag, k);
    }
    assert n * Gamma(c, k) == Corr(c, k) by {
      GammaIsCorr(c, k);
    }
    AddWeighted(n, m, BartlettSum(c, lag, k - 1), w, Gamma(c, k), WeightedCorr(c, lag, k - 1), coef, Corr(c, k));
  }

  lemma Exchange(n: real, m: real, g: real)
    ensures n * (m * g) == m * (n * g)
  {
  }

  lemma AddWeighted(n: real, m: real, b: real, w: real, g: real, sum: real, coef: real, corr: real)
    requires n * (m * b) == sum && m * w == coef && n * g == corr
    ensures n * (m * (b + 2.0 * w * g)) == sum + 2.0 * (coef * corr)
  {
    assert m * (b + 2.0 * w * g) == m * b + 2.0 * ((m * w) * g);
    assert n * (coef * g) == coef * (n * g);
    assert n * (m * b + 2.0 * (coef * g)) == n * (m * b) + 2.0 * (n * (coef * g));
  }

  lemma ClearWeight(lag: nat, l: nat)
    ensures (lag + 1) as real * BartlettWeight(lag, l) == (lag + 1 - l) as real
  {
    var m := (lag + 1) as real;
    Undivide(l as real, m);
  }

  /**
   * The Bartlett identity: the accumulated variance is the mean square of the
   * sliding-window sums, so n * (lag+1) * var is a sum of squares.
   */
  lemma BartlettIsSumOfSquares(c: seq<real>, lag: nat)
    requires lag < |c|
    ensures Cleared(c, lag, BartlettSum(c, lag, lag)) == WindowEnergy(c, lag)
  {
    BartlettIsWeightedCorr(c, lag, lag);
    EnergyIsWeightedCorr(c, lag);
  }

  // ---------------------------------------------------------------- consequences

  lemma EnergyNonNegative(c: seq<real>, lag: nat)
    ensures WindowEnergy(c, lag) >= 0.0
    ensures WindowEnergy(c, lag) == 0.0 <==> forall t :: 0 <= t < |c| + lag ==> Window(c, lag, t) == 0.0
  {
    var f := WindowSquare(c, lag);
    hide WindowSquare;
    forall t
      ensures f(t) >= 0.0
      ensures if Window(c, lag, t) == 0.0 then f(t) == 0.0 else f(t) > 0.0
    {
      WindowSquareSign(c, lag, t);
    }
    SumNonNegative(f, 0, |c| + lag);
    if Sum(f, 0, |c| + lag) == 0.0 {
      forall t | 0 <= t < |c| + lag
        ensures Window(c, lag, t) == 0.0
      {
        assert f(t) == 0.0;
      }
    } else {
      var t :| 0 <= t < |c| + lag && f(t) != 0.0;
      assert Window(c, lag, t) != 0.0;
    }
  }

  lemma WindowSquareSign(c: seq<real>, lag: nat, t: int)
    ensures var w, s := Window(c, lag, t), WindowSquare(c, lag)(t); if w == 0.0 then s == 0.0 else s > 0.0
  {
    hide Window;
    SquareSign(Window(c, lag, t), WindowSquare(c, lag)(t));
  }

  lemma SquareSign(a: real, p: real)
    requires p == a * a
    ensures if a == 0.0 then p == 0.0 else p > 0.0
  {
    if a != 0.0 {
      LikeSignProduct(a, a, p);
    }
  }

  lemma LikeSignProduct(a: real, b: real, p: real)
    requires p == a * b && a != 0.0 && b != 0.0 && (a > 0.0 <==> b > 0.0)
    ensures p > 0.0
  {
    if a < 0.0 {
      assert p == (-a) * (-b);
    }
  }

  /** If every window sum vanishes then so does every value: the first window holds c[0] alone. */
  lemma {:induction false} WindowsDetermine(c: seq<real>, lag: nat, i: nat)
    requires i < |c|
    requires forall t :: 0 <= t < |c| + lag ==> Window(c, lag, t) == 0.0
    ensures c[i] == 0.0
  {
    forall j | 0 <= j < i
      ensures c[j] == 0.0
    {
      WindowsDetermine(c, lag, j);
    }
    WindowOfLast(c, lag, i);
  }

  lemma {:induction false} WindowOfLast(c: seq<real>, lag: nat, i: nat)
    requires i < |c|
    requires forall j :: 0 <= j < i ==> c[j] == 0.0
    ensures Window(c, lag, i) == c[i]
  {
    if lag > 0 {
      WindowOfLast(c, lag - 1, i);
    }
  }

  lemma {:induction false} WindowsOfZero(c: seq<real>, lag: nat, t: int)
    requires forall i :: 0 <= i < |c| ==> c[i] == 0.0
    ensures Window(c, lag, t) == 0.0
  {
    if lag > 0 {
      WindowsOfZero(c, lag - 1, t);
    }
  }

  /**
   * The variance estimate is positive semi-definite, and it vanishes exactly for a
   * constant series: the floor never hides a negative value.
   */
  lemma VarianceZeroIffConstant(x: seq<real>, lag: nat)
    requires lag < |x|
    ensures BartlettSum(Centered(x), lag, lag) >= 0.0
    ensures BartlettSum(Centered(x), lag, lag) == 0.0 <==> forall i, j :: 0 <= i < j < |x| ==> x[i] == x[j]
  {
    var c := Centered(x);
    var v := BartlettSum(c, lag, lag);
    BartlettIsSumOfSquares(c, lag);
    EnergyNonNegative(c, lag);
    ClearedSign(c, lag, v);
    if v == 0.0 {
      forall i, j | 0 <= i < j < |x|
        ensures x[i] == x[j]
      {
        WindowsDetermine(c, lag, i);
        WindowsDetermine(c, lag, j);
      }
    }
    if forall i, j :: 0 <= i < j < |x| ==> x[i] == x[j] {
      MeanOfConstant(x, x[0]);
      forall t
        ensures Window(c, lag, t) == 0.0
      {
        WindowsOfZero(c, lag, t);
      }
    }
  }

  lemma ClearedSign(c: seq<real>, lag: nat, v: real)
    requires |c| > 0
    ensures Cleared(c, lag, v) >= 0.0 <==> v >= 0.0
    ensures Cleared(c, lag, v) == 0.0 <==> v == 0.0
  {
    var n, m := |c| as real, (lag + 1) as real;
    ProductSign(m, v);
    ProductSign(n, m * v);
  }

  lemma ProductSign(k: real, v: real)
    requires k > 0.0
    ensures k * v >= 0.0 <==> v >= 0.0
    ensures k * v == 0.0 <==> v == 0.0
  {
  }

  lemma {:induction false} TotalOfConstant(x: seq<real>, k: real)
    requires forall i :: 0 <= i < |x| ==> x[i] == k
    ensures Total(x) == |x| as real * k
  {
    if x != [] {
      TotalOfConstant(x[1..], k);
      Successor(|x[1..]| as real, k);
    }
  }

  lemma MeanOfConstant(x: seq<real>, k: real)
    requires |x| > 0 && forall i :: 0 <= i < |x| ==> x[i] == k
    ensures Mean(x) == k
    ensures forall i :: 0 <= i < |x| ==> Centered(x)[i] == 0.0
  {
    TotalOfConstant(x, k);
    assert |x| as real * k / |x| as real == k;
  }

  // ---------------------------------------------------------------- the default lag

  function Cube(k: int): int {
    k * k * k
  }

  /** The largest r up to m that lies below the cube root of n by at most one half, or zero. */
  function SearchRoot(n: nat, m: nat): (r: nat)
    ensures r <= m
    ensures r == 0 || Cube(2 * r - 1) < 8 * n
    ensures r == m || Cube(2 * r + 1) >= 8 * n
  {
    if m == 0 || Cube(2 * m - 1) < 8 * n then m else SearchRoot(n, m - 1)
  }

  /** `round(n ** (1/3))`: the integer nearest to the cube root of n. */
  function RoundedCubeRoot(n: nat): (r: nat)
    ensures Cube(2 * r - 1) < 8 * n < Cube(2 * r + 1) || r == n == 0
  {
    RootBracket(n);
    SearchRoot(n, n)
  }

  lemma RootBracket(n: nat)
    ensures var r := SearchRoot(n, n); Cube(2 * r - 1) < 8 * n < Cube(2 * r + 1) || r == n == 0
  {
    var r := SearchRoot(n, n);
    OddCube(r);
    assert Cube(-1) == -1;
    if r == n && n > 0 {
      CubeAtLeast(2 * n + 1);
    }
    hide Cube;
  }

  /** The rounding never ties: an odd cube is odd and 8n is even. */
  lemma OddCube(m: int)
    ensures Cube(2 * m + 1) % 2 == 1
  {
    var q := m * m;
    assert (2 * m + 1) * (2 * m + 1) == 2 * (2 * q + 2 * m) + 1;
    var h := 2 * q + 2 * m;
    assert (2 * h + 1) * (2 * m + 1) == 2 * (2 * (h * m) + h + m) + 1;
  }

  /** The lag after defaulting and clamping to [0, n-1]. */
  function EffectiveLag(lag: Option<int>, n: nat): (l: nat)
    requires n >= 2
    ensures l < n
    ensures lag.Some? && 0 <= lag.value < n ==> l == lag.value
    ensures lag.Some? && lag.value >= n ==> l == n - 1
    ensures lag.Some? && lag.value < 0 ==> l == 0
  {
    var requested := match lag
      case Some(v) => v
      case None => var r: int := RoundedCubeRoot(n); if r < 1 then 1 else r;
    var capped := if requested < n - 1 then requested else n - 1;
    if capped < 0 then 0 else capped
  }

  /** A default lag is the rounded cube root itself: the clamp and the floor of 1 never bite. */
  lemma DefaultLagNeedsNoClamp(n: nat)
    requires n >= 2
    ensures EffectiveLag(None, n) == RoundedCubeRoot(n)
    ensures 1 <= EffectiveLag(None, n)
  {
    var r: int := RoundedCubeRoot(n);
    if r >= n {
      CubeMonotone(2 * n - 1, 2 * r - 1);
      CubeAtLeast(2 * n - 1);
    }
  }

  lemma CubeAtLeast(u: nat)
    requires u >= 3
    ensures Cube(u) >= 9 * u
  {
    assert u * u >= 9;
    assert (u * u - 9) * u >= 0;
  }

  lemma CubeMonotone(a: nat, b: nat)
    requires a <= b
    ensures Cube(a) <= Cube(b)
  {
    assert a * a <= b * b;
    assert (b * b - a * a) * a >= 0;
    assert b * b * (b - a) >= 0;
  }

  // ---------------------------------------------------------------- the method

  /** `HACResult`; None stands for NaN. */
  datatype HacResult = HacResult(mean: Option<real>, se: Option<real>, t: Option<real>, n: nat, lag: nat)

  const VARIANCE_FLOOR := 0.000_000_000_000_000_001

  /** `math.sqrt` without rounding. */
  ghost predicate IsSqrt(sqrt: real -> real) {
    forall v :: v >= 0.0 ==> sqrt(v) >= 0.0 && sqrt(v) * sqrt(v) == v
  }

  /**
   * `hac_mean`: the loop that adds the weighted autocovariances, the standard error and
   * the t-statistic. From two points on t is a number: the test `se > 0` never fails.
   */
  method HacMeanOf(x: seq<real>, lag: Option<int>, sqrt: real -> real) returns (r: HacResult)
    requires IsSqrt(sqrt)
    ensures r.n == |x|
    ensures |x| == 0 ==> r.mean == None
    ensures |x| > 0 ==> r.mean.Some? && IsMean(x, r.mean.value)
    ensures |x| < 2 ==> r.se == None && r.t == None && r.lag == 0
    ensures |x| >= 2 ==> r.lag == EffectiveLag(lag, |x|) && r.se.Some? && r.se.value > 0.0
    ensures |x| >= 2 ==> |x| as real * (r.se.value * r.se.value) ==
                           Larger(MeanEnergy(Centered(x), r.lag), 0.000_000_000_000_000_001)
    ensures |x| >= 2 ==> r.t.Some? && r.t.value * r.se.value == r.mean.value
  {
    hide Gamma, BartlettWeight, MeanEnergy, Mean, EffectiveLag, Larger, IsSqrt, IsMean;
    if |x| > 0 {
      MeanIsAverage(x);
    }
    var n := |x|;
    if n < 2 {
      return HacResult(if n > 0 then Some(Mean(x)) else None, None, None, n, 0);
    }
    var l := EffectiveLag(lag, n);
    var centered := Centered(x);
    var variance := Gamma(centered, 0);
    for offset := 1 to l + 1
      invariant variance == BartlettSum(centered, l, offset - 1)
    {
      var weight := BartlettWeight(l, offset);
      var gamma := Gamma(centered, offset);
      variance := variance + 2.0 * weight * gamma;
    }
    BartlettMean(centered, l);
    variance := Larger(variance, VARIANCE_FLOOR);
    var se := sqrt(variance / n as real);
    FlooredRoot(variance, n as real, sqrt);
    var t := if se > 0.0 then Some(Mean(x) / se) else None;
    Undivide(Mean(x), se);
    r := HacResult(Some(Mean(x)), Some(se), t, n, l);
  }

  lemma FlooredRoot(variance: real, n: real, sqrt: real -> real)
    requires n > 0.0 && variance > 0.0 && IsSqrt(sqrt)
    ensures sqrt(variance / n) > 0.0
    ensures n * (sqrt(variance / n) * sqrt(variance / n)) == variance
  {
    var share := variance / n;
    Undivide(variance, n);
    PositiveFactor(share, n);
    assert sqrt(share) >= 0.0 && sqrt(share) * sqrt(share) == share;
  }

  lemma PositiveFactor(a: real, n: real)
    requires n > 0.0 && n * a > 0.0
    ensures a > 0.0
  {
  }

  function Larger(a: real, b: real): (m: real)
    ensures m >= a && m >= b && (m == a || m == b)
  {
    if a >= b then a else b
  }

  /** The energy of the sliding windows, averaged over n * (lag+1). */
  ghost function MeanEnergy(c: seq<real>, lag: nat): real
    requires |c| > 0
  {
    assert |c| as real * (lag + 1) as real > 0.0;
    WindowEnergy(c, lag) / (|c| as real * (lag + 1) as real)
  }

  lemma BartlettMean(c: seq<real>, lag: nat)
    requires lag < |c|
    ensures BartlettSum(c, lag, lag) == MeanEnergy(c, lag)
  {
    hide WindowEnergy, BartlettSum;
    BartlettIsSumOfSquares(c, lag);
    Quotient(|c| as real, (lag + 1) as real, BartlettSum(c, lag, lag), WindowEnergy(c, lag));
  }

  lemma Quotient(n: real, m: real, v: real, e: real)
    requires n > 0.0 && m > 0.0 && n * (m * v) == e
    ensures v == e / (n * m)
  {
    assert n * m > 0.0;
    assert (n * m) * v == e;
  }
}
