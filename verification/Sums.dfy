/** Finite sums of real-valued functions over integer ranges, and sums of sequences. */
module Sums {

  /** The sum of f(i) for lo <= i < hi; empty ranges sum to zero. */
  ghost function Sum(f: int -> real, lo: int, hi: int): real
    decreases hi - lo
  {
    if lo >= hi then 0.0 else Sum(f, lo, hi - 1) + f(hi - 1)
  }

  lemma {:induction false} SumExt(f: int -> real, g: int -> real, lo: int, hi: int)
    requires forall i :: lo <= i < hi ==> f(i) == g(i)
    ensures Sum(f, lo, hi) == Sum(g, lo, hi)
    decreases hi - lo
  {
    if lo < hi {
      SumExt(f, g, lo, hi - 1);
    }
  }

  lemma {:induction false} SumAdd(f: int -> real, g: int -> real, h: int -> real, lo: int, hi: int)
    requires forall i :: lo <= i < hi ==> h(i) == f(i) + g(i)
    ensures Sum(h, lo, hi) == Sum(f, lo, hi) + Sum(g, lo, hi)
    decreases hi - lo
  {
    if lo < hi {
      SumAdd(f, g, h, lo, hi - 1);
    }
  }

  lemma {:induction false} SumScale(f: int -> real, k: real, g: int -> real, lo: int, hi: int)
    requires forall i :: lo <= i < hi ==> g(i) == k * f(i)
    ensures Sum(g, lo, hi) == k * Sum(f, lo, hi)
    decreases hi - lo
  {
    if lo < hi {
      SumScale(f, k, g, lo, hi - 1);
    }
  }

  /** Reindexing: shifting the index of every term shifts the range. */
  lemma {:induction false} SumShift(f: int -> real, d: int, g: int -> real, lo: int, hi: int)
    requires forall i :: lo <= i < hi ==> g(i) == f(i + d)
    ensures Sum(g, lo, hi) == Sum(f, lo + d, hi + d)
    decreases hi - lo
  {
    if lo < hi {
      SumShift(f, d, g, lo, hi - 1);
    }
  }

  lemma {:induction false} SumSplit(f: int -> real, lo: int, mid: int, hi: int)
    requires lo <= mid <= hi
    ensures Sum(f, lo, hi) == Sum(f, lo, mid) + Sum(f, mid, hi)
    decreases hi - mid
  {
    if mid < hi {
      SumSplit(f, lo, mid, hi - 1);
    }
  }

  lemma {:induction false} SumZero(f: int -> real, lo: int, hi: int)
    requires forall i :: lo <= i < hi ==> f(i) == 0.0
    ensures Sum(f, lo, hi) == 0.0
    decreases hi - lo
  {
    if lo < hi {
      SumZero(f, lo, hi - 1);
    }
  }

  /** A sum of non-negative terms is non-negative, and vanishes only when every term does. */
  lemma {:induction false} SumNonNegative(f: int -> real, lo: int, hi: int)
    requires forall i :: lo <= i < hi ==> f(i) >= 0.0
    ensures Sum(f, lo, hi) >= 0.0
    ensures Sum(f, lo, hi) == 0.0 <==> forall i :: lo <= i < hi ==> f(i) == 0.0
    decreases hi - lo
  {
    if lo < hi {
      SumNonNegative(f, lo, hi - 1);
      if Sum(f, lo, hi) == 0.0 {
        assert f(hi - 1) == 0.0;
      }
    }
  }

  /** Extending the range by indices where the function vanishes changes nothing. */
  lemma SumPad(f: int -> real, lo: int, hi: int, lo': int, hi': int)
    requires lo' <= lo <= hi <= hi'
    requires forall i :: lo' <= i < lo || hi <= i < hi' ==> f(i) == 0.0
    ensures Sum(f, lo', hi') == Sum(f, lo, hi)
  {
    SumSplit(f, lo', lo, hi');
    SumSplit(f, lo, hi, hi');
    SumZero(f, lo', lo);
    SumZero(f, hi, hi');
  }

  /** The sum of a sequence. */
  function Total(s: seq<real>): real {
    if s == [] then 0.0 else s[0] + Total(s[1..])
  }

  // ---------------------------------------------------------------- sums over lists

  /** f added up over a list. */
  function SumOf<T>(s: seq<T>, f: T -> real): real {
    if s == [] then 0.0 else f(s[0]) + SumOf(s[1..], f)
  }

  lemma {:induction false} SumOfAppend<T>(s: seq<T>, t: seq<T>, f: T -> real)
    ensures SumOf(s + t, f) == SumOf(s, f) + SumOf(t, f)
  {
    if s == [] {
      assert s + t == t;
    } else {
      assert (s + t)[1..] == s[1..] + t;
      SumOfAppend(s[1..], t, f);
    }
  }

  lemma CancelOne<T>(x: multiset<T>, y: multiset<T>, e: T)
    requires x + multiset{e} == y + multiset{e}
    ensures x == y
  {
    assert x == (x + multiset{e}) - multiset{e};
    assert y == (y + multiset{e}) - multiset{e};
  }

  /** A list with an element of the other's can be split around it. */
  lemma SplitAround<T>(s: seq<T>, t: seq<T>) returns (a: seq<T>, b: seq<T>)
    requires s != [] && multiset(s) == multiset(t)
    ensures t == a + [s[0]] + b && multiset(s[1..]) == multiset(a + b)
  {
    assert s[0] in multiset(t);
    var i :| 0 <= i < |t| && t[i] == s[0];
    a, b := t[..i], t[i + 1..];
    assert t == a + [s[0]] + b;
    assert s == [s[0]] + s[1..];
    assert multiset(t) == multiset(a + b) + multiset{s[0]};
    assert multiset(s) == multiset(s[1..]) + multiset{s[0]};
    CancelOne(multiset(s[1..]), multiset(a + b), s[0]);
  }

  lemma {:induction false} SumOfPermutation<T>(s: seq<T>, t: seq<T>, f: T -> real)
    requires multiset(s) == multiset(t)
    ensures SumOf(s, f) == SumOf(t, f)
    decreases |s|
  {
    if s == [] {
      assert |t| == |multiset(t)|;
    } else {
      var a, b := SplitAround(s, t);
      SumOfPermutation(s[1..], a + b, f);
      SumOfAppend(a, b, f);
      SumOfAppend(a, [s[0]] + b, f);
      assert a + [s[0]] + b == a + ([s[0]] + b);
      assert ([s[0]] + b)[1..] == b;
    }
  }

  lemma {:induction false} SumOfSame<T>(s: seq<T>, f: T -> real, g: T -> real)
    requires forall i :: 0 <= i < |s| ==> f(s[i]) == g(s[i])
    ensures SumOf(s, f) == SumOf(s, g)
  {
    if s != [] {
      SumOfSame(s[1..], f, g);
    }
  }
}
