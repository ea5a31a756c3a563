/**
 * `itertools.combinations(range(n), k)`: the strictly increasing k-element index
 * lists below n, in lexicographic order. Used by both PBO estimators and by the
 * combinatorial cross-validation splitter.
 */
module Combinations {
  import Wrappers

  // ---------------------------------------------------------------- definitions

  function PrependAll(x: int, cs: seq<seq<int>>): (r: seq<seq<int>>) {
    if cs == [] then [] else [[x] + cs[0]] + PrependAll(x, cs[1..])
  }

  /** The k-element combinations of lo, ..., n-1. */
  function CombosFrom(lo: int, n: nat, k: nat): seq<seq<int>>
    decreases n - lo
  {
    if k == 0 then [[]]
    else if lo >= n then []
    else PrependAll(lo, CombosFrom(lo + 1, n, k - 1)) + CombosFrom(lo + 1, n, k)
  }

  function Combos(n: nat, k: nat): seq<seq<int>> {
    CombosFrom(0, n, k)
  }

  function Binomial(n: nat, k: nat): nat {
    if k == 0 then 1 else if n == 0 then 0 else Binomial(n - 1, k - 1) + Binomial(n - 1, k)
  }

  ghost predicate Increasing(s: seq<int>) {
    forall i, j :: 0 <= i < j < |s| ==> s[i] < s[j]
  }

  /** c is a k-element subset of [lo, n), listed in increasing order. */
  ghost predicate IsCombo(c: seq<int>, lo: int, n: nat, k: nat) {
    |c| == k && Increasing(c) && forall x :: x in c ==> lo <= x < n
  }

  ghost predicate Distinct<T(!new)>(s: seq<T>) {
    forall i, j :: 0 <= i < j < |s| ==> s[i] != s[j]
  }

  /** How many of the combinations contain x. */
  function CountContaining(cs: seq<seq<int>>, x: int): nat {
    if cs == [] then 0 else (if x in cs[0] then 1 else 0) + CountContaining(cs[1..], x)
  }

  /** The indices below n that c leaves out, in increasing order: `[i for i in range(n) if i not in c]`. */
  function Complement(c: seq<int>, n: nat): (r: seq<int>)
    ensures forall x :: x in r <==> 0 <= x < n && x !in c
    ensures Increasing(r)
  {
    if n == 0 then []
    else if n - 1 in c then Complement(c, n - 1)
    else
      var r := Complement(c, n - 1);
      IncreasingAppend(r, n - 1);
      r + [n - 1]
  }

  lemma IncreasingAppend(s: seq<int>, x: int)
    requires Increasing(s) && forall y :: y in s ==> y < x
    ensures Increasing(s + [x])
  {
    forall i, j | 0 <= i < j < |s + [x]|
      ensures (s + [x])[i] < (s + [x])[j]
    {
      assert s[i] in s;
    }
  }

  lemma IncreasingPrepend(x: int, s: seq<int>)
    requires Increasing(s) && forall y :: y in s ==> x < y
    ensures Increasing([x] + s)
  {
    forall i, j | 0 <= i < j < |[x] + s|
      ensures ([x] + s)[i] < ([x] + s)[j]
    {
      assert s[j - 1] in s;
    }
  }

  lemma SubsetIsSmaller(a: set<int>, b: set<int>)
    requires a <= b
    ensures |a| <= |b|
  {
    assert b == a + (b - a);
  }

  // ---------------------------------------------------------------- what is listed

  lemma {:induction false} PrependAllAt(x: int, cs: seq<seq<int>>)
    ensures |PrependAll(x, cs)| == |cs|
    ensures forall i :: 0 <= i < |cs| ==> PrependAll(x, cs)[i] == [x] + cs[i]
  {
    if cs != [] {
      PrependAllAt(x, cs[1..]);
    }
  }

  lemma {:induction false} ComboCount(lo: int, n: nat, k: nat)
    requires lo <= n
    ensures |CombosFrom(lo, n, k)| == Binomial(n - lo, k)
    decreases n - lo
  {
    if k > 0 && lo < n {
      hide CombosFrom;
      CombosSplit(lo, n, k);
      ComboCount(lo + 1, n, k - 1);
      ComboCount(lo + 1, n, k);
    }
  }

  lemma CombosSplit(lo: int, n: nat, k: nat)
    requires lo < n && k > 0
    ensures |CombosFrom(lo, n, k)| == |CombosFrom(lo + 1, n, k - 1)| + |CombosFrom(lo + 1, n, k)|
  {
    PrependAllAt(lo, CombosFrom(lo + 1, n, k - 1));
  }

  /** Every listed combination is an increasing k-subset of [lo, n). */
  lemma {:induction false} CombosSound(lo: int, n: nat, k: nat)
    ensures forall i :: 0 <= i < |CombosFrom(lo, n, k)| ==> IsCombo(CombosFrom(lo, n, k)[i], lo, n, k)
    decreases n - lo
  {
    if k > 0 && lo < n {
      var first, second := CombosFrom(lo + 1, n, k - 1), CombosFrom(lo + 1, n, k);
      CombosSound(lo + 1, n, k - 1);
      CombosSound(lo + 1, n, k);
      PrependAllAt(lo, first);
      forall i | 0 <= i < |CombosFrom(lo, n, k)|
        ensures IsCombo(CombosFrom(lo, n, k)[i], lo, n, k)
      {
        if i < |first| {
          ConsCombo(lo, first[i], n, k);
        } else {
          assert CombosFrom(lo, n, k)[i] == second[i - |first|];
        }
      }
    }
  }

  lemma ConsCombo(lo: int, c: seq<int>, n: nat, k: nat)
    requires k > 0 && lo < n && IsCombo(c, lo + 1, n, k - 1)
    ensures IsCombo([lo] + c, lo, n, k)
  {
    IncreasingPrepend(lo, c);
  }

  lemma ComboFits(c: seq<int>, lo: int, n: nat, k: nat)
    requires IsCombo(c, lo, n, k)
    ensures k == 0 || lo < n
  {
    if k > 0 {
      assert c[0] in c;
    }
  }

  /** A non-empty combination of [lo, n) either starts with lo or lies above it. */
  lemma SplitCombo(c: seq<int>, lo: int, n: nat, k: nat)
    requires IsCombo(c, lo, n, k) && k > 0
    ensures lo < n
    ensures if c[0] == lo then IsCombo(c[1..], lo + 1, n, k - 1) else IsCombo(c, lo + 1, n, k)
  {
    assert c[0] in c;
    HeadIsLeast(c);
    assert c == [c[0]] + c[1..];
    forall x | x in c[1..]
      ensures x in c
    {
    }
  }

  lemma InAppend<T>(a: seq<T>, b: seq<T>, x: T)
    ensures x in a + b <==> x in a || x in b
  {
  }

  lemma InPrependAll(x: int, cs: seq<seq<int>>, c: seq<int>)
    ensures c in PrependAll(x, cs) <==> c != [] && c[0] == x && c[1..] in cs
  {
    PrependAllAt(x, cs);
    if c in PrependAll(x, cs) {
      var i :| 0 <= i < |cs| && c == PrependAll(x, cs)[i];
      assert c[1..] == cs[i];
    }
    if c != [] && c[0] == x && c[1..] in cs {
      var i :| 0 <= i < |cs| && cs[i] == c[1..];
      assert c == [x] + cs[i];
      assert c == PrependAll(x, cs)[i];
    }
  }

  /** Every increasing k-subset of [lo, n) is listed. */
  lemma {:induction false} CombosComplete(c: seq<int>, lo: int, n: nat, k: nat)
    requires IsCombo(c, lo, n, k)
    ensures c in CombosFrom(lo, n, k)
    decreases n - lo
  {
    if k > 0 {
      SplitCombo(c, lo, n, k);
      CombosUnfold(lo, n, k);
      hide CombosFrom, PrependAll, IsCombo;
      var first, second := CombosFrom(lo + 1, n, k - 1), CombosFrom(lo + 1, n, k);
      InAppend(PrependAll(lo, first), second, c);
      if c[0] == lo {
        CombosComplete(c[1..], lo + 1, n, k - 1);
        InPrependAll(lo, first, c);
      } else {
        CombosComplete(c, lo + 1, n, k);
      }
    }
  }

  lemma CombosUnfold(lo: int, n: nat, k: nat)
    requires k > 0 && lo < n
    ensures CombosFrom(lo, n, k) == PrependAll(lo, CombosFrom(lo + 1, n, k - 1)) + CombosFrom(lo + 1, n, k)
  {
  }

  lemma {:induction false} DistinctPrepend(x: int, cs: seq<seq<int>>)
    requires Distinct(cs)
    ensures Distinct(PrependAll(x, cs))
  {
    PrependAllAt(x, cs);
    var r := PrependAll(x, cs);
    forall i, j | 0 <= i < j < |r|
      ensures r[i] != r[j]
    {
      assert r[i][1..] == cs[i] && r[j][1..] == cs[j];
    }
  }

  lemma DistinctAppend<T(!new)>(a: seq<T>, b: seq<T>)
    requires Distinct(a) && Distinct(b) && forall x :: x in a ==> x !in b
    ensures Distinct(a + b)
  {
    var r := a + b;
    forall i, j | 0 <= i < j < |r|
      ensures r[i] != r[j]
    {
      if i < |a| {
        assert r[i] in a;
        if j >= |a| {
          assert r[j] in b;
        }
      }
    }
  }

  lemma HeadAbove(c: seq<int>, lo: int, n: nat, k: nat)
    requires k > 0 && c in CombosFrom(lo, n, k)
    ensures c != [] && lo <= c[0]
  {
    CombosSound(lo, n, k);
    assert c[0] in c;
  }

  /** No combination is listed twice. */
  lemma {:induction false} CombosDistinct(lo: int, n: nat, k: nat)
    ensures Distinct(CombosFrom(lo, n, k))
    decreases n - lo
  {
    if k > 0 && lo < n {
      CombosUnfold(lo, n, k);
      CombosDistinct(lo + 1, n, k - 1);
      CombosDistinct(lo + 1, n, k);
      hide CombosFrom, PrependAll, Distinct;
      var first, second := CombosFrom(lo + 1, n, k - 1), CombosFrom(lo + 1, n, k);
      DistinctPrepend(lo, first);
      forall c | c in PrependAll(lo, first)
        ensures c !in second
      {
        InPrependAll(lo, first, c);
        if c in second {
          HeadAbove(c, lo + 1, n, k);
        }
      }
      DistinctAppend(PrependAll(lo, first), second);
    }
  }

  /** Lists of equal length, compared at the first position where they differ. */
  ghost predicate Precedes(c: seq<int>, d: seq<int>) {
    exists i :: 0 <= i < |c| && i < |d| && c[i] < d[i] && forall j :: 0 <= j < i ==> c[j] == d[j]
  }

  lemma PrecedesPrepend(x: int, c: seq<int>, d: seq<int>)
    requires Precedes(c, d)
    ensures Precedes([x] + c, [x] + d)
  {
    var i :| 0 <= i < |c| && i < |d| && c[i] < d[i] && forall j :: 0 <= j < i ==> c[j] == d[j];
    var a, b := [x] + c, [x] + d;
    assert a[i + 1] < b[i + 1] && forall j :: 0 <= j < i + 1 ==> a[j] == b[j];
  }

  /** The combinations are listed in lexicographic order. */
  lemma {:induction false} CombosOrdered(lo: int, n: nat, k: nat, i: nat, j: nat)
    requires i < j < |CombosFrom(lo, n, k)|
    ensures Precedes(CombosFrom(lo, n, k)[i], CombosFrom(lo, n, k)[j])
    decreases n - lo
  {
    FewCombos(lo, n, k);
    hide CombosFrom, Precedes;
    CombosSplit(lo, n, k);
    var m := |CombosFrom(lo + 1, n, k - 1)|;
    if j < m {
      CombosOrdered(lo + 1, n, k - 1, i, j);
      OrderedWithHead(lo, n, k, i, j);
    } else if i < m {
      OrderedAcross(lo, n, k, i, j);
    } else {
      CombosOrdered(lo + 1, n, k, i - m, j - m);
      OrderedBehind(lo, n, k, i - m, j - m);
    }
  }

  lemma OrderedBehind(lo: int, n: nat, k: nat, i: nat, j: nat)
    requires k > 0 && lo < n && i < j < |CombosFrom(lo + 1, n, k)|
    requires Precedes(CombosFrom(lo + 1, n, k)[i], CombosFrom(lo + 1, n, k)[j])
    ensures var m := |CombosFrom(lo + 1, n, k - 1)|;
            m + j < |CombosFrom(lo, n, k)| && Precedes(CombosFrom(lo, n, k)[m + i], CombosFrom(lo, n, k)[m + j])
  {
    hide CombosFrom, Precedes;
    CombosSplit(lo, n, k);
    CombosAt(lo, n, k, |CombosFrom(lo + 1, n, k - 1)| + i);
    CombosAt(lo, n, k, |CombosFrom(lo + 1, n, k - 1)| + j);
  }

  lemma OrderedWithHead(lo: int, n: nat, k: nat, i: nat, j: nat)
    requires k > 0 && lo < n && i < j < |CombosFrom(lo + 1, n, k - 1)|
    requires Precedes(CombosFrom(lo + 1, n, k - 1)[i], CombosFrom(lo + 1, n, k - 1)[j])
    ensures j < |CombosFrom(lo, n, k)| && Precedes(CombosFrom(lo, n, k)[i], CombosFrom(lo, n, k)[j])
  {
    CombosSplit(lo, n, k);
    CombosAt(lo, n, k, i);
    CombosAt(lo, n, k, j);
    hide CombosFrom, Precedes;
    PrecedesPrepend(lo, CombosFrom(lo + 1, n, k - 1)[i], CombosFrom(lo + 1, n, k - 1)[j]);
  }

  lemma OrderedAcross(lo: int, n: nat, k: nat, i: nat, j: nat)
    requires k > 0 && lo < n && i < |CombosFrom(lo + 1, n, k - 1)| <= j < |CombosFrom(lo, n, k)|
    ensures Precedes(CombosFrom(lo, n, k)[i], CombosFrom(lo, n, k)[j])
  {
    hide CombosFrom, Precedes;
    CombosAt(lo, n, k, i);
    CombosAt(lo, n, k, j);
    var second := CombosFrom(lo + 1, n, k);
    var c := second[j - |CombosFrom(lo + 1, n, k - 1)|];
    assert c in second;
    HeadAbove(c, lo + 1, n, k);
    PrecedesByHead(CombosFrom(lo, n, k)[i], c);
  }

  lemma FewCombos(lo: int, n: nat, k: nat)
    requires |CombosFrom(lo, n, k)| >= 2
    ensures k > 0 && lo < n
  {
  }

  lemma CombosAt(lo: int, n: nat, k: nat, i: nat)
    requires k > 0 && lo < n && i < |CombosFrom(lo, n, k)|
    ensures var first, second := CombosFrom(lo + 1, n, k - 1), CombosFrom(lo + 1, n, k);
            && |CombosFrom(lo, n, k)| == |first| + |second|
            && CombosFrom(lo, n, k)[i] == if i < |first| then [lo] + first[i] else second[i - |first|]
  {
    PrependAllAt(lo, CombosFrom(lo + 1, n, k - 1));
  }

  lemma PrecedesByHead(c: seq<int>, d: seq<int>)
    requires c != [] && d != [] && c[0] < d[0]
    ensures Precedes(c, d)
  {
  }

  // ---------------------------------------------------------------- how often an index occurs

  lemma {:induction false} CountAppend(a: seq<seq<int>>, b: seq<seq<int>>, x: int)
    ensures CountContaining(a + b, x) == CountContaining(a, x) + CountContaining(b, x)
  {
    if a == [] {
      assert a + b == b;
    } else {
      CountAppend(a[1..], b, x);
      assert (a + b)[1..] == a[1..] + b;
    }
  }

  lemma {:induction false} CountPrepend(y: int, cs: seq<seq<int>>, x: int)
    ensures CountContaining(PrependAll(y, cs), x) == if x == y then |cs| else CountContaining(cs, x)
  {
    if cs != [] {
      CountPrepend(y, cs[1..], x);
    }
  }

  lemma CountUnfold(lo: int, n: nat, k: nat, x: int)
    requires k > 0 && lo < n
    ensures var first, second := CombosFrom(lo + 1, n, k - 1), CombosFrom(lo + 1, n, k);
            CountContaining(CombosFrom(lo, n, k), x)
            == (if x == lo then |first| else CountContaining(first, x)) + CountContaining(second, x)
  {
    hide CountContaining;
    var first, second := CombosFrom(lo + 1, n, k - 1), CombosFrom(lo + 1, n, k);
    CountPrepend(lo, first, x);
    CountAppend(PrependAll(lo, first), second, x);
  }

  lemma {:induction false} CountBelow(lo: int, n: nat, k: nat, x: int)
    requires x < lo
    ensures CountContaining(CombosFrom(lo, n, k), x) == 0
    decreases n - lo
  {
    if k == 0 || lo >= n {
      CountEmpty(lo, n, k, x);
    } else {
      hide CombosFrom, CountContaining;
      CountUnfold(lo, n, k, x);
      CountBelow(lo + 1, n, k - 1, x);
      CountBelow(lo + 1, n, k, x);
    }
  }

  lemma CountEmpty(lo: int, n: nat, k: nat, x: int)
    requires k == 0 || lo >= n
    ensures CountContaining(CombosFrom(lo, n, k), x) == 0
  {
  }

  /** Every index lies in exactly C(n-1, k-1) of the C(n, k) combinations. */
  lemma {:induction false} CountContainingIndex(lo: int, n: nat, k: nat, x: int)
    requires lo <= x < n && k > 0
    ensures CountContaining(CombosFrom(lo, n, k), x) == Binomial(n - lo - 1, k - 1)
    decreases n - lo
  {
    hide CombosFrom, CountContaining;
    CountUnfold(lo, n, k, x);
    if x == lo {
      ComboCount(lo + 1, n, k - 1);
      CountBelow(lo + 1, n, k, x);
    } else {
      CountContainingIndex(lo + 1, n, k, x);
      if k == 1 {
        CountEmpty(lo + 1, n, 0, x);
      } else {
        CountContainingIndex(lo + 1, n, k - 1, x);
      }
    }
  }

  // ---------------------------------------------------------------- complements

  lemma {:induction false} ComplementSize(c: seq<int>, n: nat, k: nat)
    requires IsCombo(c, 0, n, k)
    ensures |Complement(c, n)| == n - k
    decreases n
  {
    if n > 0 {
      if n - 1 in c {
        DropLast(c, n, k);
        hide IsCombo;
        ComplementSize(c[..k - 1], n - 1, k - 1);
        ComplementIgnores(c, c[..k - 1], n - 1);
      } else {
        ComplementSize(c, n - 1, k);
      }
    } else {
      ComboFits(c, 0, 0, k);
    }
  }

  lemma DropLast(c: seq<int>, n: nat, k: nat)
    requires IsCombo(c, 0, n, k) && n > 0 && n - 1 in c
    ensures k > 0 && IsCombo(c[..k - 1], 0, n - 1, k - 1)
    ensures forall x :: 0 <= x < n - 1 ==> (x in c <==> x in c[..k - 1])
  {
    var i :| 0 <= i < |c| && c[i] == n - 1;
    assert c[k - 1] in c;
    assert i == k - 1;
    var c' := c[..k - 1];
    assert c == c' + [n - 1];
    forall x | x in c'
      ensures 0 <= x < n - 1
    {
      var j :| 0 <= j < |c'| && c'[j] == x;
      assert c[j] in c && c[j] < c[k - 1];
    }
  }

  lemma {:induction false} ComplementIgnores(c: seq<int>, c': seq<int>, n: nat)
    requires forall x :: 0 <= x < n ==> (x in c <==> x in c')
    ensures Complement(c, n) == Complement(c', n)
  {
    if n > 0 {
      ComplementIgnores(c, c', n - 1);
    }
  }

  /** The combination list is closed under complement, and complementing twice is the identity. */
  lemma ComplementIsCombo(c: seq<int>, n: nat, k: nat)
    requires k <= n && c in Combos(n, k)
    ensures Complement(c, n) in Combos(n, n - k)
    ensures Complement(Complement(c, n), n) == c
  {
    CombosSound(0, n, k);
    ComplementSize(c, n, k);
    var d := Complement(c, n);
    CombosComplete(d, 0, n, n - k);
    IncreasingUnique(Complement(d, n), c);
  }

  /** An increasing list is determined by its set of elements. */
  lemma {:induction false} IncreasingUnique(a: seq<int>, b: seq<int>)
    requires Increasing(a) && Increasing(b)
    requires forall x :: x in a <==> x in b
    ensures a == b
  {
    if a == [] {
      Wrappers.HeadIsMember(b);
    } else {
      assert a[0] in a && a[0] in b;
      assert b[0] in b && b[0] in a;
      HeadIsLeast(a);
      HeadIsLeast(b);
      forall x
        ensures x in a[1..] <==> x in b[1..]
      {
        assert x in a <==> x == a[0] || x in a[1..];
        assert x in b <==> x == b[0] || x in b[1..];
      }
      IncreasingUnique(a[1..], b[1..]);
    }
  }

  lemma HeadIsLeast(a: seq<int>)
    requires Increasing(a) && a != []
    ensures forall x :: x in a ==> a[0] <= x
    ensures forall x :: x in a[1..] ==> a[0] < x
  {
  }

  // ---------------------------------------------------------------- binomials

  lemma {:induction false} BinomialZero(n: nat, k: nat)
    requires k > n
    ensures Binomial(n, k) == 0
  {
    if n > 0 {
      BinomialZero(n - 1, k - 1);
      BinomialZero(n - 1, k);
    }
  }

  lemma {:induction false} BinomialSymmetric(n: nat, k: nat)
    requires k <= n
    ensures Binomial(n, k) == Binomial(n, n - k)
  {
    if k == 0 {
      BinomialFull(n);
    } else if k == n {
      BinomialFull(n);
    } else {
      BinomialSymmetric(n - 1, k - 1);
      BinomialSymmetric(n - 1, k);
    }
  }

  lemma {:induction false} BinomialFull(n: nat)
    ensures Binomial(n, n) == 1
  {
    if n > 0 {
      BinomialFull(n - 1);
      BinomialZero(n - 1, n);
    }
  }

  /** An index lies in exactly half of the half-size combinations. */
  lemma HalfOfCombos(h: nat, x: int)
    requires 0 <= x < 2 * h
    ensures 2 * CountContaining(Combos(2 * h, h), x) == |Combos(2 * h, h)|
  {
    CountContainingIndex(0, 2 * h, h, x);
    ComboCount(0, 2 * h, h);
    BinomialSymmetric(2 * h - 1, h);
  }

  /** One-element combinations, in order: `combinations(range(n), 1)` is [0], [1], ... */
  lemma {:induction false} SingletonCombos(lo: int, n: nat)
    requires lo <= n
    ensures |CombosFrom(lo, n, 1)| == n - lo
    ensures forall i :: 0 <= i < n - lo ==> CombosFrom(lo, n, 1)[i] == [lo + i]
    decreases n - lo
  {
    if lo < n {
      hide CombosFrom;
      SingletonStep(lo, n);
      SingletonCombos(lo + 1, n);
    }
  }

  lemma SingletonStep(lo: int, n: nat)
    requires lo < n
    ensures CombosFrom(lo, n, 1) == [[lo]] + CombosFrom(lo + 1, n, 1)
  {
    assert CombosFrom(lo + 1, n, 0) == [[]];
    PrependAllAt(lo, [[]]);
    assert [lo] + [] == [lo];
  }
}
