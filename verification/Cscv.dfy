/**
 * What the two backtest-overfitting estimators share: consecutive row slices,
 * in-sample and out-of-sample rows of a slice combination, and ranks by argsort.
 */
module Cscv {
  import opened Combinations

  // ---------------------------------------------------------------- slices of rows

  /** `np.arange(a, b)`. */
  function Range(a: int, b: int): (r: seq<int>)
    ensures |r| == if a <= b then b - a else 0
    ensures forall i :: 0 <= i < |r| ==> r[i] == a + i
  {
    if a <= b then seq(b - a, i => a + i) else []
  }

  /** Slice s holds the rows cuts[s], ..., cuts[s+1]-1. */
  ghost predicate AreCuts(cuts: seq<int>, slices: nat) {
    |cuts| == slices + 1 && cuts[0] == 0 && forall a, b :: 0 <= a < b <= slices ==> cuts[a] <= cuts[b]
  }

  /** The rows of slice s. */
  function SliceRows(cuts: seq<int>, s: int): seq<int> {
    if 0 <= s < |cuts| - 1 then Range(cuts[s], cuts[s + 1]) else []
  }

  /** `np.concatenate([slices[s] for s in chosen])`. */
  function Gather(cuts: seq<int>, chosen: seq<int>): seq<int> {
    if chosen == [] then [] else SliceRows(cuts, chosen[0]) + Gather(cuts, chosen[1..])
  }

  ghost predicate InSlice(cuts: seq<int>, s: int, t: int) {
    0 <= s < |cuts| - 1 && cuts[s] <= t < cuts[s + 1]
  }

  lemma InRange(a: int, b: int, t: int)
    ensures t in Range(a, b) <==> a <= t < b
  {
    if a <= t < b {
      assert Range(a, b)[t - a] == t;
    }
  }

  lemma {:induction false} GatherMembers(cuts: seq<int>, chosen: seq<int>, t: int)
    ensures t in Gather(cuts, chosen) <==> exists s :: s in chosen && InSlice(cuts, s, t)
  {
    if chosen != [] {
      var first := chosen[0];
      assert forall s :: s in chosen <==> s == first || s in chosen[1..];
      GatherMembers(cuts, chosen[1..], t);
      InSliceRows(cuts, first, t);
      hide InSlice, SliceRows;
      assert t in Gather(cuts, chosen) <==> t in SliceRows(cuts, first) || t in Gather(cuts, chosen[1..]);
    }
  }

  lemma InSliceRows(cuts: seq<int>, s: int, t: int)
    ensures t in SliceRows(cuts, s) <==> InSlice(cuts, s, t)
  {
    if 0 <= s < |cuts| - 1 {
      InRange(cuts[s], cuts[s + 1], t);
    }
  }

  lemma IncreasingConcat(a: seq<int>, b: seq<int>, m: int)
    requires Increasing(a) && Increasing(b)
    requires (forall x :: x in a ==> x < m) && forall y :: y in b ==> m <= y
    ensures Increasing(a + b)
  {
    forall i, j | 0 <= i < j < |a + b|
      ensures (a + b)[i] < (a + b)[j]
    {
      if i < |a| <= j {
        assert a[i] in a && b[j - |a|] in b;
      }
    }
  }

  lemma CutsMonotone(cuts: seq<int>, slices: nat, a: int, b: int)
    requires AreCuts(cuts, slices) && 0 <= a <= b <= slices
    ensures cuts[a] <= cuts[b]
  {
  }

  lemma SliceInOrder(cuts: seq<int>, s: int)
    requires 0 <= s < |cuts| - 1
    ensures Increasing(SliceRows(cuts, s)) && forall t :: t in SliceRows(cuts, s) ==> t < cuts[s + 1]
  {
    forall t | t in SliceRows(cuts, s)
      ensures t < cuts[s + 1]
    {
      InSliceRows(cuts, s, t);
    }
  }

  /** The rows of slices taken in increasing order come out in increasing order, without repeats. */
  lemma {:induction false} GatherIncreasing(cuts: seq<int>, chosen: seq<int>, slices: nat)
    requires AreCuts(cuts, slices) && Increasing(chosen) && forall s :: s in chosen ==> 0 <= s < slices
    ensures Increasing(Gather(cuts, chosen))
  {
    if chosen != [] {
      var first, rest := chosen[0], chosen[1..];
      HeadIsLeast(chosen);
      assert chosen == [first] + rest;
      assert first in chosen && forall s :: s in rest ==> s in chosen;
      assert Increasing(rest) && first + 1 <= slices < |cuts|;
      assert forall s :: s in rest ==> first + 1 <= s < slices;
      hide Increasing, AreCuts, SliceRows;
      GatherIncreasing(cuts, rest, slices);
      GatherAtLeast(cuts, rest, slices, first + 1);
      SliceInOrder(cuts, first);
      IncreasingConcat(SliceRows(cuts, first), Gather(cuts, rest), cuts[first + 1]);
    }
  }

  lemma GatherAtLeast(cuts: seq<int>, chosen: seq<int>, slices: nat, from: nat)
    requires AreCuts(cuts, slices) && from <= slices && forall s :: s in chosen ==> from <= s < slices
    ensures forall x :: x in Gather(cuts, chosen) ==> cuts[from] <= x
  {
    forall x | x in Gather(cuts, chosen)
      ensures cuts[from] <= x
    {
      GatherMembers(cuts, chosen, x);
      var s :| s in chosen && InSlice(cuts, s, x);
      CutsMonotone(cuts, slices, from, s);
    }
  }

  /** The slice a row falls in. */
  lemma {:induction false} SliceOfRow(cuts: seq<int>, slices: nat, t: int) returns (s: nat)
    requires AreCuts(cuts, slices) && 0 <= t < cuts[slices]
    ensures s < slices && InSlice(cuts, s, t)
  {
    s := slices - 1;
    while t < cuts[s]
      invariant s < slices && t < cuts[s + 1]
      decreases s
    {
      s := s - 1;
    }
  }

  lemma SliceUnique(cuts: seq<int>, slices: nat, a: int, b: int, t: int)
    requires AreCuts(cuts, slices) && InSlice(cuts, a, t) && InSlice(cuts, b, t)
    ensures a == b
  {
  }

  ghost predicate IsPartition(a: seq<int>, b: seq<int>, rows: int) {
    && Increasing(a) && Increasing(b)
    && forall t :: (0 <= t < rows <==> t in a || t in b) && !(t in a && t in b)
  }

  /** In-sample and out-of-sample rows partition the sliced rows, whatever the combination. */
  lemma RowsPartition(cuts: seq<int>, slices: nat, k: nat, combo: seq<int>)
    requires AreCuts(cuts, slices) && IsCombo(combo, 0, slices, k)
    ensures IsPartition(Gather(cuts, combo), Gather(cuts, Complement(combo, slices)), cuts[slices])
  {
    var rest := Complement(combo, slices);
    GatherIncreasing(cuts, combo, slices);
    GatherIncreasing(cuts, rest, slices);
    forall t
      ensures var a, b := t in Gather(cuts, combo), t in Gather(cuts, rest);
              (0 <= t < cuts[slices] <==> a || b) && !(a && b)
    {
      RowSide(cuts, slices, combo, rest, t);
    }
  }

  /** The rows of the chosen slices, and all the other sliced rows, each in increasing order. */
  ghost predicate AreSides(cuts: seq<int>, slices: nat, combo: seq<int>, inRows: seq<int>, outRows: seq<int>)
    requires AreCuts(cuts, slices)
  {
    && Increasing(inRows) && Increasing(outRows)
    && (forall t :: t in inRows <==> exists s :: s in combo && 0 <= s < slices && cuts[s] <= t < cuts[s + 1])
    && forall t :: t in outRows <==> 0 <= t < cuts[slices] && t !in inRows
  }

  /** The two sides of a combination are what gathering its slices and those of its complement gives. */
  lemma SidesAreGathered(cuts: seq<int>, slices: nat, k: nat, combo: seq<int>, inRows: seq<int>, outRows: seq<int>)
    requires AreCuts(cuts, slices) && IsCombo(combo, 0, slices, k) && AreSides(cuts, slices, combo, inRows, outRows)
    ensures inRows == Gather(cuts, combo) && outRows == Gather(cuts, Complement(combo, slices))
  {
    RowsPartition(cuts, slices, k, combo);
    forall t
      ensures t in Gather(cuts, combo) <==> t in inRows
    {
      GatherMembers(cuts, combo, t);
    }
    hide Gather, Complement, Increasing, AreCuts;
    IncreasingUnique(inRows, Gather(cuts, combo));
    IncreasingUnique(outRows, Gather(cuts, Complement(combo, slices)));
  }

  lemma RowSide(cuts: seq<int>, slices: nat, combo: seq<int>, rest: seq<int>, t: int)
    requires AreCuts(cuts, slices)
    requires forall s :: s in combo ==> 0 <= s < slices
    requires forall s :: s in rest <==> 0 <= s < slices && s !in combo
    ensures var a, b := t in Gather(cuts, combo), t in Gather(cuts, rest);
            (0 <= t < cuts[slices] <==> a || b) && !(a && b)
  {
    GatherMembers(cuts, combo, t);
    GatherMembers(cuts, rest, t);
    if 0 <= t < cuts[slices] {
      var s := SliceOfRow(cuts, slices, t);
      forall s' | InSlice(cuts, s', t)
        ensures s' == s
      {
        SliceUnique(cuts, slices, s, s', t);
      }
      assert s in combo || s in rest;
    } else {
      forall s | 0 <= s < slices
        ensures !InSlice(cuts, s, t)
      {
        assert cuts[0] <= cuts[s] && cuts[s + 1] <= cuts[slices];
      }
    }
  }

  // ---------------------------------------------------------------- sorting and ranks

  /** The floats that are sorted: a score, NaN, or the -inf that stands in for NaN. */
  datatype Float = NegInf | Finite(value: real) | NaN

  /** NumPy's sort order: -inf first, NaN last. */
  predicate Below(a: Float, b: Float) {
    match (a, b)
    case (NegInf, _) => b != NegInf
    case (Finite(x), Finite(y)) => x < y
    case (Finite(_), _) => b == NaN
    case (NaN, _) => false
  }

  ghost predicate IsPermutation(p: seq<int>, n: nat) {
    && |p| == n
    && (forall i :: 0 <= i < n ==> 0 <= p[i] < n)
    && forall i, j :: 0 <= i < j < n ==> p[i] != p[j]
  }

  /** p lists the positions of s in non-decreasing order of value; ties may fall either way. */
  ghost predicate Sorts(p: seq<int>, s: seq<Float>) {
    IsPermutation(p, |s|) && forall i, j :: 0 <= i < j < |s| ==> !Below(s[p[j]], s[p[i]])
  }

  /** `np.argsort` with its default, unstable algorithm: some function that sorts. */
  ghost predicate IsArgsort(argsort: seq<Float> -> seq<int>) {
    forall s :: Sorts(argsort(s), s)
  }

  function AsFloats(p: seq<int>): (r: seq<Float>) {
    seq(|p|, i requires 0 <= i < |p| => Finite(p[i] as real))
  }

  lemma BoundNeedsRoom(s: seq<int>, n: nat)
    requires forall i :: 0 <= i < |s| ==> 0 <= s[i] < n
    ensures |s| > 0 ==> n > 0
  {
    if |s| > 0 {
      assert 0 <= s[0] < n;
    }
  }

  lemma {:induction false} DistinctBelow(s: seq<int>, n: nat)
    requires forall i :: 0 <= i < |s| ==> 0 <= s[i] < n
    requires forall i, j :: 0 <= i < j < |s| ==> s[i] != s[j]
    ensures |s| <= n
    ensures |s| == n ==> forall x :: 0 <= x < n ==> x in s
    decreases n
  {
    if n == 0 {
      BoundNeedsRoom(s, n);
    } else if n - 1 in s {
      var k :| 0 <= k < |s| && s[k] == n - 1;
      var t := s[..k] + s[k + 1..];
      DistinctBelow(t, n - 1);
      forall x | 0 <= x < n && |s| == n
        ensures x in s
      {
        assert x == n - 1 || x in t;
      }
    } else {
      DistinctBelow(s, n - 1);
    }
  }

  /** Every index occurs in a permutation. */
  ghost function PositionIn(p: seq<int>, n: nat, x: int): (t: int)
    requires IsPermutation(p, n) && 0 <= x < n
    ensures 0 <= t < n && p[t] == x
  {
    DistinctBelow(p, n);
    assert x in p;
    var t :| 0 <= t < n && p[t] == x;
    t
  }

  /** The rank of strategy x among the keys by the first sort, 1 = worst. */
  ghost function RankOf(keys: seq<Float>, x: int, argsort: seq<Float> -> seq<int>): (r: int)
    requires 0 <= x < |keys| && IsArgsort(argsort)
    ensures 1 <= r <= |keys|
  {
    assert Sorts(argsort(keys), keys);
    PositionIn(argsort(keys), |keys|, x) + 1
  }

  /** The positions whose value sorts strictly before the value at x. */
  ghost function BelowAt(keys: seq<Float>, x: int): set<int>
    requires 0 <= x < |keys|
  {
    set j | 0 <= j < |keys| && Below(keys[j], keys[x])
  }

  /** The positions whose value does not sort after the value at x. */
  ghost function AtOrBelow(keys: seq<Float>, x: int): set<int>
    requires 0 <= x < |keys|
  {
    set j | 0 <= j < |keys| && !Below(keys[x], keys[j])
  }

  /** No other position has a value that sorts equal to the one at x. */
  ghost predicate Untied(keys: seq<Float>, x: int)
    requires 0 <= x < |keys|
  {
    forall j :: 0 <= j < |keys| && j != x ==> Below(keys[j], keys[x]) || Below(keys[x], keys[j])
  }

  /** The elements at the first t places. */
  ghost function Placed(p: seq<int>, t: nat): set<int>
    requires t <= |p|
  {
    set i | 0 <= i < t :: p[i]
  }

  lemma PlacedStep(p: seq<int>, t: nat)
    requires t < |p|
    ensures Placed(p, t + 1) == Placed(p, t) + {p[t]}
  {
  }

  lemma NotPlacedBefore(p: seq<int>, n: nat, t: nat)
    requires IsPermutation(p, n) && t < n
    ensures p[t] !in Placed(p, t)
  {
  }

  lemma {:induction false} PlacedSize(p: seq<int>, n: nat, t: nat)
    requires IsPermutation(p, n) && t <= n
    ensures |Placed(p, t)| == t
  {
    if t == 0 {
      assert Placed(p, 0) == {};
    } else {
      PlacedSize(p, n, t - 1);
      NotPlacedBefore(p, n, t - 1);
      assert t <= |p|;
      hide IsPermutation;
      PlacedStep(p, t - 1);
    }
  }

  /** What sorts below position t's element is placed before t; without a tie, nothing else is. */
  lemma BelowIsPlaced(p: seq<int>, keys: seq<Float>, t: nat)
    requires Sorts(p, keys) && t < |keys|
    ensures BelowAt(keys, p[t]) <= Placed(p, t)
    ensures Untied(keys, p[t]) ==> BelowAt(keys, p[t]) == Placed(p, t)
  {
    var x := p[t];
    forall j | j in BelowAt(keys, x)
      ensures j in Placed(p, t)
    {
      var i := PositionIn(p, |keys|, j);
      assert i <= t;
      assert p[i] == j;
    }
    forall j | Untied(keys, x) && j in Placed(p, t)
      ensures j in BelowAt(keys, x)
    {
      var i :| 0 <= i < t && p[i] == j;
      assert !Below(keys[p[t]], keys[p[i]]);
    }
  }

  /** A rank exceeds the number of values below; without a tie it is the next number. */
  lemma RankByCount(keys: seq<Float>, x: int, argsort: seq<Float> -> seq<int>)
    requires 0 <= x < |keys| && IsArgsort(argsort)
    ensures |BelowAt(keys, x)| < RankOf(keys, x, argsort)
    ensures Untied(keys, x) ==> RankOf(keys, x, argsort) == |BelowAt(keys, x)| + 1
  {
    var p := argsort(keys);
    assert Sorts(p, keys);
    var t := PositionIn(p, |keys|, x);
    BelowIsPlaced(p, keys, t);
    PlacedSize(p, |keys|, t);
    hide Below, BelowAt, Untied, Placed, IsPermutation;
    SubsetIsSmaller(BelowAt(keys, x), Placed(p, t));
  }

  lemma PlacedAtOrBelow(p: seq<int>, keys: seq<Float>, t: nat)
    requires Sorts(p, keys) && t < |keys|
    ensures Placed(p, t + 1) <= AtOrBelow(keys, p[t])
  {
    forall j | j in Placed(p, t + 1)
      ensures j in AtOrBelow(keys, p[t])
    {
      var i :| 0 <= i < t + 1 && p[i] == j;
      assert i < t ==> !Below(keys[p[t]], keys[p[i]]);
    }
  }

  lemma UntiedSets(keys: seq<Float>, x: int)
    requires 0 <= x < |keys|
    ensures x in AtOrBelow(keys, x) && x !in BelowAt(keys, x)
    ensures Untied(keys, x) ==> AtOrBelow(keys, x) == BelowAt(keys, x) + {x}
  {
    forall j | Untied(keys, x) && j in AtOrBelow(keys, x)
      ensures j in BelowAt(keys, x) + {x}
    {
    }
    forall j | j in BelowAt(keys, x)
      ensures j in AtOrBelow(keys, x)
    {
    }
  }

  /** A rank is at most the number of values at or below; without a tie it is that number. */
  lemma RankAtMost(keys: seq<Float>, x: int, argsort: seq<Float> -> seq<int>)
    requires 0 <= x < |keys| && IsArgsort(argsort)
    ensures RankOf(keys, x, argsort) <= |AtOrBelow(keys, x)|
    ensures Untied(keys, x) ==> RankOf(keys, x, argsort) == |AtOrBelow(keys, x)|
  {
    var p := argsort(keys);
    assert Sorts(p, keys);
    var t := PositionIn(p, |keys|, x);
    PlacedAtOrBelow(p, keys, t);
    PlacedSize(p, |keys|, t + 1);
    UntiedSets(keys, x);
    RankByCount(keys, x, argsort);
    hide Below, BelowAt, AtOrBelow, Untied, Placed, IsPermutation;
    SubsetIsSmaller(Placed(p, t + 1), AtOrBelow(keys, x));
  }

  lemma TiedIsEqual(a: Float, b: Float)
    ensures !Below(a, b) && !Below(b, a) <==> a == b
  {
  }

  /** p with its places i and j exchanged. */
  function Exchanged(p: seq<int>, i: int, j: int): (q: seq<int>)
    requires 0 <= i < |p| && 0 <= j < |p|
  {
    p[i := p[j]][j := p[i]]
  }

  lemma ExchangedPermutes(p: seq<int>, n: nat, i: int, j: int)
    requires IsPermutation(p, n) && 0 <= i < n && 0 <= j < n
    ensures IsPermutation(Exchanged(p, i, j), n)
  {
  }

  /** Exchanging the places of equal values leaves the list sorted. */
  lemma ExchangeSorts(p: seq<int>, keys: seq<Float>, i: int, j: int)
    requires Sorts(p, keys) && 0 <= i < |keys| && 0 <= j < |keys| && keys[p[i]] == keys[p[j]]
    ensures Sorts(Exchanged(p, i, j), keys)
  {
    var q := Exchanged(p, i, j);
    ExchangedPermutes(p, |keys|, i, j);
    assert forall k :: 0 <= k < |keys| ==> keys[q[k]] == keys[p[k]];
  }

  /** The sorting function that answers q on keys, and what argsort answers elsewhere. */
  ghost function Instead(argsort: seq<Float> -> seq<int>, keys: seq<Float>, q: seq<int>): seq<Float> -> seq<int> {
    s => if s == keys then q else argsort(s)
  }

  lemma InsteadSorts(argsort: seq<Float> -> seq<int>, keys: seq<Float>, q: seq<int>)
    requires IsArgsort(argsort) && Sorts(q, keys)
    ensures IsArgsort(Instead(argsort, keys, q))
  {
    hide Sorts;
  }

  lemma PlaceIs(keys: seq<Float>, x: int, argsort: seq<Float> -> seq<int>, t: int)
    requires 0 <= x < |keys| && IsArgsort(argsort) && 0 <= t < |keys| && argsort(keys)[t] == x
    ensures RankOf(keys, x, argsort) == t + 1
  {
    assert Sorts(argsort(keys), keys);
  }

  /** With a tie, two sorting functions rank x differently. */
  lemma TieMovesRank(keys: seq<Float>, x: int, argsort: seq<Float> -> seq<int>) returns (other: seq<Float> -> seq<int>)
    requires 0 <= x < |keys| && IsArgsort(argsort) && !Untied(keys, x)
    ensures IsArgsort(other) && RankOf(keys, x, other) != RankOf(keys, x, argsort)
  {
    var p := argsort(keys);
    assert Sorts(p, keys);
    var y :| 0 <= y < |keys| && y != x && !Below(keys[y], keys[x]) && !Below(keys[x], keys[y]);
    TiedIsEqual(keys[x], keys[y]);
    var i, j := PositionIn(p, |keys|, x), PositionIn(p, |keys|, y);
    ExchangeSorts(p, keys, i, j);
    InsteadSorts(argsort, keys, Exchanged(p, i, j));
    other := Instead(argsort, keys, Exchanged(p, i, j));
    PlaceIs(keys, x, argsort, i);
    PlaceIs(keys, x, other, j);
  }

  /** A rank is the number of values at or below for every sorting function if and only if there is no tie. */
  lemma RankIsCountIff(keys: seq<Float>, x: int, argsort: seq<Float> -> seq<int>)
    requires 0 <= x < |keys| && IsArgsort(argsort)
    ensures (forall a :: IsArgsort(a) ==> RankOf(keys, x, a) == |AtOrBelow(keys, x)|) <==> Untied(keys, x)
  {
    hide IsArgsort, Untied, AtOrBelow, RankOf;
    forall a | IsArgsort(a) && Untied(keys, x)
      ensures RankOf(keys, x, a) == |AtOrBelow(keys, x)|
    {
      RankAtMost(keys, x, a);
    }
    if !Untied(keys, x) {
      var other := TieMovesRank(keys, x, argsort);
    }
  }

  /** A strictly increasing list of n numbers below n is 0, ..., n-1. */
  lemma {:induction false} IncreasingIsIdentity(s: seq<int>, n: nat, i: nat)
    requires |s| == n && Increasing(s) && forall j :: 0 <= j < n ==> 0 <= s[j] < n
    requires i < n
    ensures s[i] == i
  {
    AtLeastIndex(s, i);
    AtMostIndex(s, n, i);
  }

  lemma {:induction false} AtLeastIndex(s: seq<int>, i: nat)
    requires i < |s| && Increasing(s) && s[0] >= 0
    ensures s[i] >= i
  {
    if i > 0 {
      AtLeastIndex(s, i - 1);
    }
  }

  lemma {:induction false} AtMostIndex(s: seq<int>, n: nat, i: nat)
    requires |s| == n && i < n && Increasing(s) && s[n - 1] < n
    ensures s[i] <= i
    decreases n - i
  {
    if i < n - 1 {
      AtMostIndex(s, n, i + 1);
    }
  }

  /**
   * `argsort(argsort(s))` gives every item its position in the sorted order: the
   * second sort has no ties, so it inverts the first, whatever the algorithm.
   */
  lemma DoubleArgsortIsPosition(argsort: seq<Float> -> seq<int>, s: seq<Float>, x: int)
    requires IsArgsort(argsort) && 0 <= x < |s|
    ensures |argsort(AsFloats(argsort(s)))| == |s|
    ensures argsort(AsFloats(argsort(s)))[x] == PositionIn(argsort(s), |s|, x)
  {
    var p, n := argsort(s), |s|;
    assert Sorts(p, s);
    var f := AsFloats(p);
    var q := argsort(f);
    assert Sorts(q, f);
    InverseOf(p, q, n);
    var t := PositionIn(p, n, x);
    var i := PositionIn(q, n, q[x]);
    InverseAt(p, q, n, t);
    assert q[x] == t;
  }

  /** Reading p in the order q that sorts it gives 0, ..., n-1. */
  lemma InverseOf(p: seq<int>, q: seq<int>, n: nat)
    requires IsPermutation(p, n) && Sorts(q, AsFloats(p))
    ensures forall i :: 0 <= i < n ==> p[q[i]] == i
  {
    var c := seq(n, i requires 0 <= i < n => p[q[i]]);
    forall i, j | 0 <= i < j < n
      ensures c[i] < c[j]
    {
      assert !Below(AsFloats(p)[q[j]], AsFloats(p)[q[i]]);
      assert q[i] != q[j];
    }
    forall i | 0 <= i < n
      ensures p[q[i]] == i
    {
      IncreasingIsIdentity(c, n, i);
    }
  }

  lemma InverseAt(p: seq<int>, q: seq<int>, n: nat, t: int)
    requires IsPermutation(p, n) && IsPermutation(q, n) && 0 <= t < n
    requires forall i :: 0 <= i < n ==> p[q[i]] == i
    ensures q[p[t]] == t
  {
  }
}
