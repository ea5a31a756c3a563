/** Smallest and largest elements, sorted lists of distinct numbers, Python slice bounds. */
module Extrema {
  import Combinations

  function Least(dates: seq<int>): (m: int)
    requires dates != []
    ensures m in dates && forall d :: d in dates ==> m <= d
  {
    var last := dates[|dates| - 1];
    if |dates| == 1 then last
    else
      var m := Least(dates[..|dates| - 1]);
      assert forall d :: d in dates <==> d in dates[..|dates| - 1] || d == last;
      if last < m then last else m
  }

  function Greatest(dates: seq<int>): (m: int)
    requires dates != []
    ensures m in dates && forall d :: d in dates ==> d <= m
  {
    var last := dates[|dates| - 1];
    if |dates| == 1 then last
    else
      var m := Greatest(dates[..|dates| - 1]);
      assert forall d :: d in dates <==> d in dates[..|dates| - 1] || d == last;
      if last > m then last else m
  }

  /** The last element bounds every element. */
  lemma LastIsGreatest(days: seq<int>)
    requires Combinations.Increasing(days) && days != []
    ensures forall d :: d in days ==> d <= days[|days| - 1]
  {
  }

  function InsertNumber(x: int, u: seq<int>): (r: seq<int>)
    requires Combinations.Increasing(u)
    ensures Combinations.Increasing(r) && forall d :: d in r <==> d == x || d in u
  {
    if u == [] then [x]
    else
      var last := u[|u| - 1];
      LastIsGreatest(u);
      assert forall d :: d in u <==> d in u[..|u| - 1] || d == last;
      if last < x then
        Combinations.IncreasingAppend(u, x);
        u + [x]
      else if last == x then u
      else
        var r := InsertNumber(x, u[..|u| - 1]);
        BelowLast(u, u[..|u| - 1]);
        Combinations.IncreasingAppend(r, last);
        r + [last]
  }

  lemma BelowLast(u: seq<int>, init: seq<int>)
    requires Combinations.Increasing(u) && u != [] && init == u[..|u| - 1]
    ensures forall d :: d in init ==> d < u[|u| - 1]
  {
  }

  /** The distinct numbers of s in increasing order. */
  function SortedDistinct(s: seq<int>): (u: seq<int>)
    ensures Combinations.Increasing(u) && forall d :: d in u <==> d in s
  {
    if s == [] then []
    else
      assert forall d :: d in s <==> d == s[|s| - 1] || d in s[..|s| - 1];
      InsertNumber(s[|s| - 1], SortedDistinct(s[..|s| - 1]))
  }

  predicate AllAtLeast(s: seq<int>, x: int) {
    forall d :: d in s ==> x <= d
  }

  /** How many elements are below x. */
  function CountLess(s: seq<int>, x: int): (k: nat)
    ensures k <= |s| && (k == 0 <==> AllAtLeast(s, x))
  {
    if s == [] then 0
    else
      var init, last := s[..|s| - 1], s[|s| - 1];
      assert last in s && forall d :: d in s <==> d == last || d in init;
      CountLess(init, x) + if last < x then 1 else 0
  }

  ghost function PositionsBelow(s: seq<int>, x: int): set<int> {
    set i | 0 <= i < |s| && s[i] < x
  }

  /** It counts positions, so an element that occurs twice counts twice. */
  lemma {:induction false} CountLessCounts(s: seq<int>, x: int)
    ensures CountLess(s, x) == |PositionsBelow(s, x)|
  {
    if s == [] {
      assert PositionsBelow(s, x) == {};
    } else {
      var n := |s| - 1;
      CountLessCounts(s[..n], x);
      assert PositionsBelow(s, x) == PositionsBelow(s[..n], x) + if s[n] < x then {n} else {};
    }
  }

  /** In a sorted list the elements below x come first. */
  lemma {:induction false} CountLessSplits(u: seq<int>, x: int)
    requires Combinations.Increasing(u)
    ensures forall i :: 0 <= i < |u| ==> (u[i] < x <==> i < CountLess(u, x))
  {
    if u != [] {
      var n := |u| - 1;
      CountLessSplits(u[..n], x);
      assert forall i :: 0 <= i < n ==> u[..n][i] == u[i] && u[i] < u[n];
      if u[n] < x && n > 0 {
        assert u[n - 1] < x;
      }
    }
  }

  /** Where a Python slice bound falls in a sequence of length n. */
  function SliceBound(i: int, n: nat): (r: int)
    ensures 0 <= r <= n
    ensures 0 <= i <= n ==> r == i
    ensures i > n ==> r == n
    ensures i < 0 <= i + n ==> r == i + n
    ensures i + n < 0 ==> r == 0
  {
    if i < 0 then (if i + n < 0 then 0 else i + n) else if i <= n then i else n
  }
}
