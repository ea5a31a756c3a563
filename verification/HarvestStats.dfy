/**
 * `top_n_spread` in metrics/harvest_stats.py: per date, the mean label of the n best
 * scores minus the mean label of all. Dates and tie keys are numbers; a missing cell is None.
 */
module HarvestStats {
  import opened Wrappers
  import Combinations
  import opened Extrema
  import opened Sums

  datatype Observation = Observation(date: Option<int>, score: Option<real>, response: Option<real>, tie: Option<int>)

  /** A row of one date after `dropna`. */
  datatype Entry = Entry(score: real, tie: int, response: real)

  datatype SpreadError = AmbiguousTies(date: int, shared: seq<int>)

  datatype Point = Point(date: int, spread: Option<real>)

  predicate Complete(o: Observation) {
    o.date.Some? && o.score.Some? && o.response.Some? && o.tie.Some?
  }

  function CleanDates(rows: seq<Observation>): seq<int> {
    if rows == [] then []
    else (if Complete(rows[0]) then [rows[0].date.value] else []) + CleanDates(rows[1..])
  }

  /** The complete rows of one date, in row order. */
  function Group(rows: seq<Observation>, date: int): seq<Entry> {
    if rows == [] then []
    else GroupRow(rows[0], date) + Group(rows[1..], date)
  }

  function GroupRow(o: Observation, date: int): seq<Entry> {
    if Complete(o) && o.date.value == date then [Entry(o.score.value, o.tie.value, o.response.value)] else []
  }

  // ---------------------------------------------------------------- one date

  /** Higher score first, then smaller tie key. */
  predicate Better(a: Entry, b: Entry) {
    a.score > b.score || (a.score == b.score && a.tie < b.tie)
  }

  function InsertEntry(x: Entry, s: seq<Entry>): seq<Entry> {
    if s == [] || !Better(s[0], x) then [x] + s else [s[0]] + InsertEntry(x, s[1..])
  }

  /** The stable sort by score descending, tie key ascending. */
  function Ranked(s: seq<Entry>): seq<Entry> {
    if s == [] then [] else InsertEntry(s[0], Ranked(s[1..]))
  }

  function Labels(s: seq<Entry>): (r: seq<real>)
    ensures |r| == |s| && forall i :: 0 <= i < |s| ==> r[i] == s[i].response
  {
    seq(|s|, i requires 0 <= i < |s| => s[i].response)
  }

  function Over(total: real, size: nat): (mean: real)
    requires size > 0
    ensures size as real * mean == total
  {
    total / size as real
  }

  function Mean(xs: seq<real>): Option<real> {
    if |xs| == 0 then None else Some(Over(Total(xs), |xs|))
  }

  /** `clip(-w, w)`; the library swaps the two bounds when w is negative. */
  function Clip(x: real, winsorize: Option<real>): (r: real)
    ensures winsorize.None? ==> r == x
    ensures winsorize.Some? ==>
              var b := if winsorize.value < 0.0 then -winsorize.value else winsorize.value;
              -b <= r <= b && (-b <= x <= b ==> r == x) && (r != x ==> r == b < x || x < -b == r)
  {
    match winsorize
    case None => x
    case Some(w) =>
      var bound := if w < 0.0 then -w else w;
      if x < -bound then -bound else if x > bound then bound else x
  }

  function Clipped(g: seq<Entry>, winsorize: Option<real>): (r: seq<Entry>)
    ensures |r| == |g|
    ensures forall i :: 0 <= i < |g| ==> r[i] == g[i].(response := Clip(g[i].response, winsorize))
  {
    seq(|g|, i requires 0 <= i < |g| => g[i].(response := Clip(g[i].response, winsorize)))
  }

  function TopMinusAll(c: seq<Entry>, n: int): Option<real> {
    match (Mean(Labels(Ranked(c))[..SliceBound(n, |Ranked(c)|)]), Mean(Labels(c)))
    case (Some(top), Some(all)) => Some(top - all)
    case _ => None
  }

  /** The spread of one date; the mean of no values is None. */
  function Spread(g: seq<Entry>, n: int, winsorize: Option<real>): Option<real> {
    TopMinusAll(Clipped(g, winsorize), n)
  }

  function TieCount(g: seq<Entry>, t: int): nat {
    if g == [] then 0 else (if g[0].tie == t then 1 else 0) + TieCount(g[1..], t)
  }

  /** The tie keys among the first k entries that occur more than once in the whole group. */
  function SharedAmong(g: seq<Entry>, k: nat): (r: seq<int>)
    requires k <= |g|
  {
    if k == 0 then []
    else SharedAmong(g, k - 1) + if TieCount(g, g[k - 1].tie) >= 2 then [g[k - 1].tie] else []
  }

  /** The duplicated tie keys, sorted. */
  function SharedTies(g: seq<Entry>): seq<int> {
    SortedDistinct(SharedAmong(g, |g|))
  }

  // ---------------------------------------------------------------- all dates

  function SpreadsOver(rows: seq<Observation>, dates: seq<int>, n: int, minNames: int, winsorize: Option<real>)
    : Result<seq<Point>, SpreadError>
  {
    if dates == [] then Ok([])
    else
      var d := dates[|dates| - 1];
      var g := Group(rows, d);
      match SpreadsOver(rows, dates[..|dates| - 1], n, minNames, winsorize)
      case Err(e) => Err(e)
      case Ok(out) =>
        if |g| < minNames then Ok(out)
        else if SharedTies(g) != [] then Err(AmbiguousTies(d, SharedTies(g)))
        else Ok(out + [Point(d, Spread(g, n, winsorize))])
  }

  /** `top_n_spread`: the series in date order, or the first ambiguous date. */
  function TopNSpread(rows: seq<Observation>, n: int, minNames: int, winsorize: Option<real>)
    : Result<seq<Point>, SpreadError>
  {
    SpreadsOver(rows, SortedDistinct(CleanDates(rows)), n, minNames, winsorize)
  }

  method TopNSpreadByDate(rows: seq<Observation>, n: int, minNames: int, winsorize: Option<real>)
    returns (r: Result<seq<Point>, SpreadError>)
    ensures r == TopNSpread(rows, n, minNames, winsorize)
    ensures r.Ok? <==> NoneRefused(rows, CleanDates(rows), minNames)
    ensures r.Err? ==>
              && FirstRefused(rows, CleanDates(rows), minNames, r.error.date)
              && r.error.shared == SharedTies(Group(rows, r.error.date))
  {
    RefusedIff(rows, n, minNames, winsorize);
    hide SortedDistinct, Group, Spread, SharedTies, NoneRefused, FirstRefused;
    var dates := SortedDistinct(CleanDates(rows));
    var out := [];
    var i := 0;
    while i < |dates|
      invariant 0 <= i <= |dates|
      invariant SpreadsOver(rows, dates[..i], n, minNames, winsorize) == Ok(out)
    {
      assert dates[..i + 1][..i] == dates[..i];
      var g := Group(rows, dates[i]);
      if |g| >= minNames {
        if SharedTies(g) != [] {
          ErrorSticks(rows, dates, i + 1, n, minNames, winsorize);
          return Err(AmbiguousTies(dates[i], SharedTies(g)));
        }
        out := out + [Point(dates[i], Spread(g, n, winsorize))];
      }
      i := i + 1;
    }
    assert dates[..i] == dates;
    r := Ok(out);
  }

  lemma {:induction false} ErrorSticks(rows: seq<Observation>, dates: seq<int>, k: nat, n: int, minNames: int,
                                       winsorize: Option<real>)
    requires k <= |dates| && SpreadsOver(rows, dates[..k], n, minNames, winsorize).Err?
    ensures SpreadsOver(rows, dates, n, minNames, winsorize) == SpreadsOver(rows, dates[..k], n, minNames, winsorize)
  {
    hide Group, Spread, SharedTies;
    if k == |dates| {
      assert dates[..k] == dates;
    } else {
      var init := dates[..|dates| - 1];
      assert init[..k] == dates[..k];
      ErrorSticks(rows, init, k, n, minNames, winsorize);
    }
  }

  function TotalResponse(s: seq<Entry>): real {
    SumOf(s, (e: Entry) => e.response)
  }

  lemma {:induction false} TotalOfLabels(s: seq<Entry>)
    ensures Total(Labels(s)) == TotalResponse(s)
  {
    if s != [] {
      TotalOfLabels(s[1..]);
      assert Labels(s)[1..] == Labels(s[1..]);
    }
  }

  // ---------------------------------------------------------------- the sort

  ghost predicate InRankOrder(s: seq<Entry>) {
    forall i, j :: 0 <= i < j < |s| ==> !Better(s[j], s[i])
  }

  lemma {:induction false} InsertEntryRanks(x: Entry, s: seq<Entry>)
    requires InRankOrder(s)
    ensures InRankOrder(InsertEntry(x, s)) && multiset(InsertEntry(x, s)) == multiset(s) + multiset{x}
  {
    if s != [] && Better(s[0], x) {
      InsertEntryRanks(x, s[1..]);
      assert s == [s[0]] + s[1..];
      var rest := InsertEntry(x, s[1..]);
      forall j | 0 <= j < |rest|
        ensures !Better(rest[j], s[0])
      {
        assert rest[j] in multiset(rest);
        if rest[j] != x {
          assert rest[j] in s[1..];
        }
      }
    }
  }

  lemma {:induction false} RankedRanks(s: seq<Entry>)
    ensures InRankOrder(Ranked(s)) && multiset(Ranked(s)) == multiset(s)
  {
    if s != [] {
      RankedRanks(s[1..]);
      InsertEntryRanks(s[0], Ranked(s[1..]));
      assert s == [s[0]] + s[1..];
    }
  }

  // ---------------------------------------------------------------- the spread by rank, without sorting

  /** How many entries of s rank strictly before e. */
  function CountBetter(s: seq<Entry>, e: Entry): nat {
    if s == [] then 0 else (if Better(s[0], e) then 1 else 0) + CountBetter(s[1..], e)
  }

  /** The response of an entry that fewer than k entries of g rank before. */
  function TopResponse(g: seq<Entry>, k: nat): Entry -> real {
    e => if CountBetter(g, e) < k then e.response else 0.0
  }

  /** The responses of the entries that fewer than k entries rank before, added up. */
  function TopTotal(g: seq<Entry>, k: nat): real {
    SumOf(g, TopResponse(g, k))
  }

  ghost predicate UniqueTies(g: seq<Entry>) {
    forall i, j :: 0 <= i < j < |g| ==> g[i].tie != g[j].tie
  }

  lemma {:induction false} CountBetterAppend(s: seq<Entry>, t: seq<Entry>, e: Entry)
    ensures CountBetter(s + t, e) == CountBetter(s, e) + CountBetter(t, e)
  {
    if s == [] {
      assert s + t == t;
    } else {
      assert (s + t)[1..] == s[1..] + t;
      CountBetterAppend(s[1..], t, e);
    }
  }

  lemma {:induction false} CountBetterPermutation(s: seq<Entry>, t: seq<Entry>, e: Entry)
    requires multiset(s) == multiset(t)
    ensures CountBetter(s, e) == CountBetter(t, e)
    decreases |s|
  {
    if s == [] {
      assert |t| == |multiset(t)|;
    } else {
      var a, b := SplitAround(s, t);
      CountBetterPermutation(s[1..], a + b, e);
      CountBetterAppend(a, b, e);
      CountBetterAppend(a, [s[0]] + b, e);
      assert a + [s[0]] + b == a + ([s[0]] + b);
      assert ([s[0]] + b)[1..] == b;
    }
  }

  lemma {:induction false} CountAllBetter(s: seq<Entry>, e: Entry)
    requires forall i :: 0 <= i < |s| ==> Better(s[i], e)
    ensures CountBetter(s, e) == |s|
  {
    if s != [] {
      CountAllBetter(s[1..], e);
    }
  }

  lemma {:induction false} CountNoneBetter(s: seq<Entry>, e: Entry)
    requires forall i :: 0 <= i < |s| ==> !Better(s[i], e)
    ensures CountBetter(s, e) == 0
  {
    if s != [] {
      CountNoneBetter(s[1..], e);
    }
  }

  lemma EarlierIsBetter(s: seq<Entry>, i: nat)
    requires InRankOrder(s) && UniqueTies(s) && i < |s|
    ensures forall j :: 0 <= j < |s[..i]| ==> Better(s[..i][j], s[i])
    ensures forall j :: 0 <= j < |s[i..]| ==> !Better(s[i..][j], s[i])
  {
    forall j | 0 <= j < i
      ensures Better(s[j], s[i])
    {
      assert !Better(s[i], s[j]) && s[j].tie != s[i].tie;
    }
  }

  /** Position i of a ranked list without shared ties is beaten by exactly i entries. */
  lemma RankIsPosition(s: seq<Entry>, i: nat)
    requires InRankOrder(s) && UniqueTies(s) && i < |s|
    ensures CountBetter(s, s[i]) == i
  {
    hide UniqueTies, InRankOrder, Better, CountBetter;
    EarlierIsBetter(s, i);
    CountAllBetter(s[..i], s[i]);
    CountNoneBetter(s[i..], s[i]);
    assert s == s[..i] + s[i..];
    CountBetterAppend(s[..i], s[i..], s[i]);
  }

  lemma FrontSums(front: seq<Entry>, f: Entry -> real)
    requires forall i :: 0 <= i < |front| ==> f(front[i]) == front[i].response
    ensures SumOf(front, f) == Total(Labels(front))
  {
    SumOfSame(front, f, (e: Entry) => e.response);
    TotalOfLabels(front);
  }

  lemma BackVanishes(back: seq<Entry>, f: Entry -> real)
    requires forall i :: 0 <= i < |back| ==> f(back[i]) == 0.0
    ensures SumOf(back, f) == 0.0
  {
  }

  lemma TopResponseAt(s: seq<Entry>, k: nat, i: nat)
    requires InRankOrder(s) && UniqueTies(s) && i < |s|
    ensures TopResponse(s, k)(s[i]) == if i < k then s[i].response else 0.0
  {
    RankIsPosition(s, i);
  }

  /** Over a ranked list, the top responses are the first k. */
  lemma TopOfRanked(s: seq<Entry>, k: nat)
    requires InRankOrder(s) && UniqueTies(s) && k <= |s|
    ensures TopTotal(s, k) == Total(Labels(s)[..k])
  {
    var f := TopResponse(s, k);
    hide InRankOrder, UniqueTies, TopResponse, SumOf, Total;
    var front, back := s[..k], s[k..];
    forall i | 0 <= i < k
      ensures f(front[i]) == front[i].response
    {
      TopResponseAt(s, k, i);
    }
    forall i | 0 <= i < |back|
      ensures f(back[i]) == 0.0
    {
      TopResponseAt(s, k, k + i);
    }
    assert s == front + back;
    SumOfAppend(front, back, f);
    FrontSums(front, f);
    BackVanishes(back, f);
    assert Labels(front) == Labels(s)[..k];
  }

  lemma TiesSurvive(s: seq<Entry>, t: seq<Entry>)
    requires UniqueTies(s) && multiset(s) == multiset(t)
    ensures UniqueTies(t)
  {
    forall t0: int
      ensures TieCount(t, t0) == TieCount(s, t0)
    {
      TieCountPermutation(s, t, t0);
    }
    forall i, j | 0 <= i < j < |t|
      ensures t[i].tie != t[j].tie
    {
      UniqueMeansOnce(s, t[i].tie);
      TwoShare(t, i, j);
    }
  }

  lemma {:induction false} TieCountAppend(s: seq<Entry>, t: seq<Entry>, k: int)
    ensures TieCount(s + t, k) == TieCount(s, k) + TieCount(t, k)
  {
    if s == [] {
      assert s + t == t;
    } else {
      assert (s + t)[1..] == s[1..] + t;
      TieCountAppend(s[1..], t, k);
    }
  }

  lemma {:induction false} TieCountPermutation(s: seq<Entry>, t: seq<Entry>, k: int)
    requires multiset(s) == multiset(t)
    ensures TieCount(s, k) == TieCount(t, k)
    decreases |s|
  {
    if s == [] {
      assert |t| == |multiset(t)|;
    } else {
      var a, b := SplitAround(s, t);
      TieCountPermutation(s[1..], a + b, k);
      TieCountAppend(a, b, k);
      TieCountAppend(a, [s[0]] + b, k);
      assert a + [s[0]] + b == a + ([s[0]] + b);
      assert ([s[0]] + b)[1..] == b;
    }
  }

  /** A key that occurs at i is counted; twice if it occurs again at j. */
  lemma TwoShare(g: seq<Entry>, i: int, j: int)
    requires 0 <= i < j < |g|
    ensures g[i].tie == g[j].tie ==> TieCount(g, g[i].tie) >= 2
  {
    var k := g[i].tie;
    TieCountAppend(g[..j], g[j..], k);
    assert g == g[..j] + g[j..];
    TieCountAppend(g[..j][..i], g[..j][i..], k);
    assert g[..j] == g[..j][..i] + g[..j][i..];
    assert g[..j][i..][0] == g[i] && g[j..][0] == g[j];
  }

  lemma {:induction false} UniqueMeansOnce(g: seq<Entry>, k: int)
    requires UniqueTies(g)
    ensures TieCount(g, k) <= 1
  {
    if g != [] {
      UniqueMeansOnce(g[1..], k);
      if g[0].tie == k {
        NoneShare(g[1..], k);
      }
    }
  }

  lemma {:induction false} NoneShare(g: seq<Entry>, k: int)
    requires forall i :: 0 <= i < |g| ==> g[i].tie != k
    ensures TieCount(g, k) == 0
  {
    if g != [] {
      NoneShare(g[1..], k);
    }
  }

  /** The total of the top responses is what the sorted slice adds up to. */
  lemma TopTotalIsSlice(c: seq<Entry>, k: nat)
    requires UniqueTies(c) && k <= |c|
    ensures |Ranked(c)| == |c| && Total(Labels(Ranked(c))[..k]) == TopTotal(c, k)
  {
    var s := Ranked(c);
    RankedRanks(c);
    RankedSize(c);
    hide Ranked, Better;
    TiesSurvive(c, s);
    TopOfRanked(s, k);
    TopTotalPermutation(c, s, k);
  }

  lemma TopTotalPermutation(c: seq<Entry>, d: seq<Entry>, k: nat)
    requires multiset(c) == multiset(d)
    ensures TopTotal(c, k) == TopTotal(d, k)
  {
    hide SumOf;
    SumOfPermutation(c, d, TopResponse(c, k));
    forall e
      ensures TopResponse(c, k)(e) == TopResponse(d, k)(e)
    {
      CountBetterPermutation(c, d, e);
    }
    SumOfSame(d, TopResponse(c, k), TopResponse(d, k));
  }

  /** The spread needs no sort: the mean of the k entries that fewer than k entries beat, minus the mean of all. */
  lemma SpreadIsRankBased(c: seq<Entry>, n: int)
    requires UniqueTies(c)
    ensures var k := SliceBound(n, |c|);
            TopMinusAll(c, n) ==
              if k > 0 then Some(Over(TopTotal(c, k), k) - Over(TotalResponse(c), |c|)) else None
  {
    TopTotalIsSlice(c, SliceBound(n, |c|));
    TotalOfLabels(c);
    hide Ranked, TopTotal, TotalResponse, Total, UniqueTies, Over;
  }

  // ---------------------------------------------------------------- the spread of a set of names

  /** The positions in names are ahead of all others: higher score, or the same score and a smaller tie key. */
  ghost predicate IsTopSet(c: seq<Entry>, names: set<int>) {
    && (forall i :: i in names ==> 0 <= i < |c|)
    && forall i, j :: i in names && 0 <= j < |c| && j !in names ==>
         c[i].score > c[j].score || (c[i].score == c[j].score && c[i].tie < c[j].tie)
  }

  /** i |-> the response of entry i, if it is among the names. */
  ghost function ResponseIn(c: seq<Entry>, names: set<int>): int -> real {
    i => if 0 <= i < |c| && i in names then c[i].response else 0.0
  }

  ghost function Response(c: seq<Entry>): int -> real {
    i => if 0 <= i < |c| then c[i].response else 0.0
  }

  ghost function BetterAt(s: seq<Entry>, e: Entry): set<int> {
    set i | 0 <= i < |s| && Better(s[i], e)
  }

  lemma BetterAtSplits(s: seq<Entry>, e: Entry)
    ensures s == [] ==> |BetterAt(s, e)| == 0
    ensures s != [] ==>
              |BetterAt(s, e)| == |BetterAt(s[..|s| - 1], e)| + if Better(s[|s| - 1], e) then 1 else 0
  {
    if s != [] {
      var n := |s| - 1;
      var init := BetterAt(s[..n], e);
      assert n !in init;
      assert BetterAt(s, e) == if Better(s[n], e) then init + {n} else init;
    }
  }

  lemma {:induction false} CountBetterIsSize(s: seq<Entry>, e: Entry)
    ensures CountBetter(s, e) == |BetterAt(s, e)|
  {
    BetterAtSplits(s, e);
    if s != [] {
      var n := |s| - 1;
      CountBetterIsSize(s[..n], e);
      CountBetterAppend(s[..n], [s[n]], e);
      assert s == s[..n] + [s[n]];
    }
  }

  /** Fewer than k entries beat an entry exactly when it is in the top set of k. */
  lemma TopSetByRank(c: seq<Entry>, names: set<int>, i: int)
    requires IsTopSet(c, names) && 0 <= i < |c|
    ensures CountBetter(c, c[i]) < |names| <==> i in names
  {
    CountBetterIsSize(c, c[i]);
    var ahead := BetterAt(c, c[i]);
    if i in names {
      assert ahead <= names - {i};
      Combinations.SubsetIsSmaller(ahead, names - {i});
    } else {
      assert names <= ahead;
      Combinations.SubsetIsSmaller(names, ahead);
    }
  }

  lemma {:induction false} SumOverList(s: seq<Entry>, f: Entry -> real, g: int -> real)
    requires forall i :: 0 <= i < |s| ==> g(i) == f(s[i])
    ensures SumOf(s, f) == Sum(g, 0, |s|)
  {
    if s != [] {
      var n := |s| - 1;
      SumOverList(s[..n], f, g);
      SumOfAppend(s[..n], [s[n]], f);
      assert s == s[..n] + [s[n]];
      assert SumOf([s[n]], f) == f(s[n]) + SumOf([s[n]][1..], f);
    }
  }

  lemma TotalsOfTopSet(c: seq<Entry>, names: set<int>)
    requires IsTopSet(c, names)
    ensures TopTotal(c, |names|) == Sum(ResponseIn(c, names), 0, |c|)
    ensures TotalResponse(c) == Sum(Response(c), 0, |c|)
  {
    forall i | 0 <= i < |c|
      ensures ResponseIn(c, names)(i) == TopResponse(c, |names|)(c[i])
    {
      TopSetByRank(c, names, i);
    }
    hide IsTopSet, CountBetter;
    SumOverList(c, TopResponse(c, |names|), ResponseIn(c, names));
    SumOverList(c, (e: Entry) => e.response, Response(c));
  }

  /** v == top / k - all / m, multiplied out. */
  ghost predicate IsDifference(k: real, m: real, top: real, all: real, v: real) {
    k * m * v == m * top - k * all
  }

  lemma CommonDenominator(k: real, m: real, a: real, b: real, top: real, all: real)
    requires k * a == top && m * b == all
    ensures IsDifference(k, m, top, all, a - b)
  {
    assert k * m * (a - b) == m * (k * a) - k * (m * b);
  }

  lemma OversMultipliedOut(top: real, k: nat, all: real, m: nat)
    requires k > 0 && m > 0
    ensures IsDifference(k as real, m as real, top, all, Over(top, k) - Over(all, m))
  {
    CommonDenominator(k as real, m as real, Over(top, k), Over(all, m), top, all);
  }

  /** v is the mean response of the names minus the mean response of all. */
  ghost predicate IsMeanDifference(c: seq<Entry>, names: set<int>, v: real) {
    IsDifference(|names| as real, |c| as real, Sum(ResponseIn(c, names), 0, |c|), Sum(Response(c), 0, |c|), v)
  }

  lemma MeansMultipliedOut(c: seq<Entry>, names: set<int>)
    requires IsTopSet(c, names) && 0 < |names| <= |c|
    ensures IsMeanDifference(c, names, Over(TopTotal(c, |names|), |names|) - Over(TotalResponse(c), |c|))
  {
    hide IsTopSet, TopTotal, TotalResponse, Sum, IsDifference, Over;
    TotalsOfTopSet(c, names);
    OversMultipliedOut(TopTotal(c, |names|), |names|, TotalResponse(c), |c|);
  }

  /**
   * The spread is the mean response of the k names ahead of all others minus the mean of
   * all; k is what the slice of n takes.
   */
  lemma SpreadOfTopSet(c: seq<Entry>, n: int, names: set<int>)
    requires UniqueTies(c) && IsTopSet(c, names) && |names| == SliceBound(n, |c|) > 0
    ensures TopMinusAll(c, n).Some? && IsMeanDifference(c, names, TopMinusAll(c, n).value)
  {
    hide TopMinusAll, TopTotal, TotalResponse, IsTopSet, UniqueTies, IsMeanDifference, Over;
    SpreadIsRankBased(c, n);
    MeansMultipliedOut(c, names);
  }

  /** The order of a date's rows does not matter. */
  lemma SpreadPermutation(c: seq<Entry>, d: seq<Entry>, n: int)
    requires UniqueTies(c) && multiset(c) == multiset(d)
    ensures TopMinusAll(c, n) == TopMinusAll(d, n)
  {
    assert |c| == |multiset(c)| == |multiset(d)| == |d|;
    TiesSurvive(c, d);
    SpreadIsRankBased(c, n);
    SpreadIsRankBased(d, n);
    TopTotalPermutation(c, d, SliceBound(n, |c|));
    SumOfPermutation(c, d, (e: Entry) => e.response);
    hide TopTotal, TopMinusAll, SumOf, Over, UniqueTies;
  }

  lemma RankedSize(c: seq<Entry>)
    ensures |Ranked(c)| == |c|
  {
    RankedRanks(c);
    assert |Ranked(c)| == |multiset(Ranked(c))| == |multiset(c)| == |c|;
  }

  // ---------------------------------------------------------------- the whole series

  lemma {:induction false} TieCountPositive(g: seq<Entry>, k: int)
    ensures TieCount(g, k) > 0 <==> exists i :: 0 <= i < |g| && g[i].tie == k
  {
    if g != [] {
      TieCountPositive(g[1..], k);
      if i :| 0 <= i < |g[1..]| && g[1..][i].tie == k {
        assert g[i + 1].tie == k;
      }
    }
  }

  lemma {:induction false} SharedAmongMembers(g: seq<Entry>, n: nat, k: int)
    requires n <= |g|
    ensures k in SharedAmong(g, n) <==> TieCount(g, k) >= 2 && exists i :: 0 <= i < n && g[i].tie == k
  {
    if n > 0 {
      SharedAmongMembers(g, n - 1, k);
    }
  }

  /** The reported keys are those that occur at least twice. */
  lemma SharedIffTwice(g: seq<Entry>, k: int)
    ensures k in SharedTies(g) <==> TieCount(g, k) >= 2
  {
    SharedAmongMembers(g, |g|, k);
    TieCountPositive(g, k);
    hide TieCount, SharedAmong;
  }

  /** Some key is reported exactly when two entries share one. */
  lemma AmbiguousIffShared(g: seq<Entry>)
    ensures SharedTies(g) == [] <==> UniqueTies(g)
  {
    if UniqueTies(g) {
      forall k
        ensures k !in SharedTies(g)
      {
        SharedIffTwice(g, k);
        UniqueMeansOnce(g, k);
      }
      HeadIsMember(SharedTies(g));
    } else {
      var i, j :| 0 <= i < j < |g| && g[i].tie == g[j].tie;
      SharedIffTwice(g, g[i].tie);
      TwoShare(g, i, j);
    }
  }

  lemma SharedPermutation(g: seq<Entry>, h: seq<Entry>)
    requires multiset(g) == multiset(h)
    ensures SharedTies(g) == SharedTies(h)
  {
    forall k
      ensures k in SharedTies(g) <==> k in SharedTies(h)
    {
      SharedIffTwice(g, k);
      SharedIffTwice(h, k);
      TieCountPermutation(g, h, k);
    }
    Combinations.IncreasingUnique(SharedTies(g), SharedTies(h));
  }

  lemma ClippedAppend(g: seq<Entry>, h: seq<Entry>, w: Option<real>)
    ensures Clipped(g + h, w) == Clipped(g, w) + Clipped(h, w)
  {
  }

  lemma {:induction false} ClippedPermutation(g: seq<Entry>, h: seq<Entry>, w: Option<real>)
    requires multiset(g) == multiset(h)
    ensures multiset(Clipped(g, w)) == multiset(Clipped(h, w))
    decreases |g|
  {
    if g == [] {
      assert |h| == |multiset(h)|;
    } else {
      var a, b := SplitAround(g, h);
      ClippedPermutation(g[1..], a + b, w);
      ClippedAppend(a, b, w);
      ClippedAppend(a + [g[0]], b, w);
      ClippedAppend(a, [g[0]], w);
      ClippedAppend([g[0]], g[1..], w);
      assert g == [g[0]] + g[1..];
      hide Clipped;
    }
  }

  lemma {:induction false} GroupAppend(rows: seq<Observation>, more: seq<Observation>, date: int)
    ensures Group(rows + more, date) == Group(rows, date) + Group(more, date)
  {
    if rows == [] {
      assert rows + more == more;
    } else {
      assert (rows + more)[1..] == rows[1..] + more;
      GroupAppend(rows[1..], more, date);
    }
  }

  lemma Rearranged(front: seq<Entry>, x: seq<Entry>, back: seq<Entry>, rest: seq<Entry>)
    requires multiset(rest) == multiset(front + back)
    ensures multiset(x + rest) == multiset(front + x + back)
  {
  }

  lemma {:induction false} GroupPermutation(rows: seq<Observation>, others: seq<Observation>, date: int)
    requires multiset(rows) == multiset(others)
    ensures multiset(Group(rows, date)) == multiset(Group(others, date))
    decreases |rows|
  {
    if rows == [] {
      assert |others| == |multiset(others)|;
    } else {
      var a, b := SplitAround(rows, others);
      GroupPermutation(rows[1..], a + b, date);
      hide Group;
      GroupAppend(a, b, date);
      GroupAppend(a + [rows[0]], b, date);
      GroupAppend(a, [rows[0]], date);
      GroupAppend([rows[0]], rows[1..], date);
      assert rows == [rows[0]] + rows[1..];
      Rearranged(Group(a, date), Group([rows[0]], date), Group(b, date), Group(rows[1..], date));
    }
  }

  lemma {:induction false} CleanDatesMembers(rows: seq<Observation>, d: int)
    ensures d in CleanDates(rows) <==> exists i :: 0 <= i < |rows| && Complete(rows[i]) && rows[i].date.value == d
  {
    if rows != [] {
      CleanDatesMembers(rows[1..], d);
      if i :| 0 <= i < |rows[1..]| && Complete(rows[1..][i]) && rows[1..][i].date.value == d {
        assert rows[i + 1] == rows[1..][i];
      }
    }
  }

  lemma DateSurvives(rows: seq<Observation>, others: seq<Observation>, d: int)
    requires multiset(rows) == multiset(others) && d in CleanDates(rows)
    ensures d in CleanDates(others)
  {
    CleanDatesMembers(rows, d);
    CleanDatesMembers(others, d);
    hide CleanDates;
    var i :| 0 <= i < |rows| && Complete(rows[i]) && rows[i].date.value == d;
    assert rows[i] in multiset(others);
    var j :| 0 <= j < |others| && others[j] == rows[i];
  }

  lemma DatesPermutation(rows: seq<Observation>, others: seq<Observation>)
    requires multiset(rows) == multiset(others)
    ensures SortedDistinct(CleanDates(rows)) == SortedDistinct(CleanDates(others))
  {
    hide CleanDates;
    forall d
      ensures d in CleanDates(rows) <==> d in CleanDates(others)
    {
      if d in CleanDates(rows) {
        DateSurvives(rows, others, d);
      }
      if d in CleanDates(others) {
        DateSurvives(others, rows, d);
      }
    }
    Combinations.IncreasingUnique(SortedDistinct(CleanDates(rows)), SortedDistinct(CleanDates(others)));
  }

  lemma OneDatePermutation(g: seq<Entry>, h: seq<Entry>, n: int, w: Option<real>)
    requires multiset(g) == multiset(h)
    ensures |g| == |h| && SharedTies(g) == SharedTies(h)
    ensures SharedTies(g) == [] ==> Spread(g, n, w) == Spread(h, n, w)
  {
    assert |g| == |multiset(g)| == |multiset(h)| == |h|;
    SharedPermutation(g, h);
    AmbiguousIffShared(g);
    ClippedPermutation(g, h, w);
    hide TopMinusAll, SharedTies;
    if SharedTies(g) == [] {
      SpreadPermutation(Clipped(g, w), Clipped(h, w), n);
    }
  }

  lemma {:induction false} SpreadsPermutation(rows: seq<Observation>, others: seq<Observation>, dates: seq<int>, n: int,
                                              minNames: int, w: Option<real>)
    requires multiset(rows) == multiset(others)
    ensures SpreadsOver(rows, dates, n, minNames, w) == SpreadsOver(others, dates, n, minNames, w)
  {
    hide Group, Spread, SharedTies;
    if dates != [] {
      var d := dates[|dates| - 1];
      SpreadsPermutation(rows, others, dates[..|dates| - 1], n, minNames, w);
      GroupPermutation(rows, others, d);
      OneDatePermutation(Group(rows, d), Group(others, d), n, w);
    }
  }

  /** The series, and the refusal with its date and keys, are the same for every order of the input rows. */
  lemma RowOrderIrrelevant(rows: seq<Observation>, others: seq<Observation>, n: int, minNames: int, w: Option<real>)
    requires multiset(rows) == multiset(others)
    ensures TopNSpread(rows, n, minNames, w) == TopNSpread(others, n, minNames, w)
  {
    hide SpreadsOver, CleanDates, SortedDistinct;
    DatesPermutation(rows, others);
    SpreadsPermutation(rows, others, SortedDistinct(CleanDates(rows)), n, minNames, w);
  }

  /** A result has a point for each date with enough names and for no other, in date order. */
  lemma {:induction false} SeriesPoints(rows: seq<Observation>, dates: seq<int>, n: int, minNames: int, w: Option<real>)
    returns (kept: seq<int>)
    requires SpreadsOver(rows, dates, n, minNames, w).Ok? && Combinations.Increasing(dates)
    ensures var out := SpreadsOver(rows, dates, n, minNames, w).value;
            && |kept| == |out| && Combinations.Increasing(kept)
            && (forall d :: d in kept <==> d in dates && minNames <= |Group(rows, d)|)
            && forall i :: 0 <= i < |out| ==>
                 out[i] == Point(kept[i], Spread(Group(rows, kept[i]), n, w)) && UniqueTies(Group(rows, kept[i]))
  {
    hide Group, Spread, SharedTies, UniqueTies;
    if dates == [] {
      kept := [];
    } else {
      var init, d := dates[..|dates| - 1], dates[|dates| - 1];
      kept := SeriesPoints(rows, init, n, minNames, w);
      BelowLast(dates, init);
      assert forall x :: x in dates <==> x in init || x == d;
      if minNames <= |Group(rows, d)| {
        AmbiguousIffShared(Group(rows, d));
        Combinations.IncreasingAppend(kept, d);
        kept := kept + [d];
      }
    }
  }

  /** Every point of the series is the spread of its date's top names, with the labels winsorized first. */
  lemma PointOfTopSet(rows: seq<Observation>, n: int, minNames: int, w: Option<real>, i: nat, names: set<int>)
    requires TopNSpread(rows, n, minNames, w).Ok? && i < |TopNSpread(rows, n, minNames, w).value|
    requires var c := Clipped(Group(rows, TopNSpread(rows, n, minNames, w).value[i].date), w);
             IsTopSet(c, names) && |names| == SliceBound(n, |c|) > 0
    ensures var point := TopNSpread(rows, n, minNames, w).value[i];
            var c := Clipped(Group(rows, point.date), w);
            point.spread.Some? && IsMeanDifference(c, names, point.spread.value)
  {
    hide SpreadsOver, Group, UniqueTies, IsTopSet, TopMinusAll, Clipped, IsMeanDifference, SharedTies, Spread;
    var kept := SeriesPoints(rows, SortedDistinct(CleanDates(rows)), n, minNames, w);
    var g := Group(rows, kept[i]);
    ClippedTies(g, w);
    SpreadOfTopSet(Clipped(g, w), n, names);
    SpreadIsClipped(g, n, w);
  }

  lemma SpreadIsClipped(g: seq<Entry>, n: int, w: Option<real>)
    ensures Spread(g, n, w) == TopMinusAll(Clipped(g, w), n)
  {
  }

  lemma ClippedTies(g: seq<Entry>, w: Option<real>)
    requires UniqueTies(g)
    ensures UniqueTies(Clipped(g, w))
  {
  }

  /** The rows that give a certain entry of a date: complete, of that date, with its score, tie key and label. */
  ghost function RowsGiving(rows: seq<Observation>, date: int, e: Entry): set<int> {
    set i | 0 <= i < |rows| && rows[i] == Observation(Some(date), Some(e.score), Some(e.response), Some(e.tie))
  }

  lemma RowsGivingSplits(rows: seq<Observation>, date: int, e: Entry)
    ensures rows == [] ==> |RowsGiving(rows, date, e)| == 0
    ensures rows != [] ==>
              var n := |rows| - 1;
              |RowsGiving(rows, date, e)| == |RowsGiving(rows[..n], date, e)| +
                if rows[n] == Observation(Some(date), Some(e.score), Some(e.response), Some(e.tie)) then 1 else 0
  {
    if rows != [] {
      var n := |rows| - 1;
      var init := RowsGiving(rows[..n], date, e);
      assert n !in init;
      assert RowsGiving(rows, date, e) ==
             if rows[n] == Observation(Some(date), Some(e.score), Some(e.response), Some(e.tie)) then init + {n}
             else init;
    }
  }

  /** A date's group holds each entry as often as rows give it. */
  lemma {:induction false} GroupCounts(rows: seq<Observation>, date: int, e: Entry)
    ensures multiset(Group(rows, date))[e] == |RowsGiving(rows, date, e)|
  {
    RowsGivingSplits(rows, date, e);
    if rows != [] {
      hide RowsGiving, Group;
      var n := |rows| - 1;
      GroupCounts(rows[..n], date, e);
      assert rows == rows[..n] + [rows[n]];
      GroupAppend(rows[..n], [rows[n]], date);
      OneRowGroup(rows[n], date, e);
    }
  }

  lemma OneRowGroup(o: Observation, date: int, e: Entry)
    ensures multiset(Group([o], date))[e] ==
            if o == Observation(Some(date), Some(e.score), Some(e.response), Some(e.tie)) then 1 else 0
  {
    assert Group([o], date) == GroupRow(o, date) + Group([o][1..], date);
    assert Group([o], date) == GroupRow(o, date);
  }

  // ---------------------------------------------------------------- refusals

  /** The date has enough names to be used, and two of its rows share a tie key. */
  ghost predicate Refused(rows: seq<Observation>, date: int, minNames: int) {
    minNames <= |Group(rows, date)| && !UniqueTies(Group(rows, date))
  }

  ghost predicate NoneRefused(rows: seq<Observation>, dates: seq<int>, minNames: int) {
    forall d :: d in dates ==> !Refused(rows, d, minNames)
  }

  /** date is the first of the refused dates. */
  ghost predicate FirstRefused(rows: seq<Observation>, dates: seq<int>, minNames: int, date: int) {
    date in dates && Refused(rows, date, minNames)
    && forall d :: d in dates && Refused(rows, d, minNames) ==> date <= d
  }

  lemma {:induction false} OverDatesRefused(rows: seq<Observation>, dates: seq<int>, n: int, minNames: int,
                                            w: Option<real>)
    requires Combinations.Increasing(dates)
    ensures var r := SpreadsOver(rows, dates, n, minNames, w);
            match r
            case Ok(_) => NoneRefused(rows, dates, minNames)
            case Err(e) =>
              FirstRefused(rows, dates, minNames, e.date) && e.shared == SharedTies(Group(rows, e.date))
  {
    hide Group, Spread, SharedTies, UniqueTies;
    if dates != [] {
      var init, d := dates[..|dates| - 1], dates[|dates| - 1];
      OverDatesRefused(rows, init, n, minNames, w);
      BelowLast(dates, init);
      AmbiguousIffShared(Group(rows, d));
      assert forall x :: x in dates <==> x in init || x == d;
    }
  }

  /**
   * The call is refused exactly when some date with complete rows has at least min_names
   * of them and two that share a tie key. It then reports the first such date, with the
   * keys that occur there at least twice.
   */
  lemma RefusedIff(rows: seq<Observation>, n: int, minNames: int, w: Option<real>)
    ensures TopNSpread(rows, n, minNames, w).Ok? <==> NoneRefused(rows, CleanDates(rows), minNames)
    ensures TopNSpread(rows, n, minNames, w).Err? ==>
              var e := TopNSpread(rows, n, minNames, w).error;
              && FirstRefused(rows, CleanDates(rows), minNames, e.date)
              && e.shared == SharedTies(Group(rows, e.date))
              && forall k :: k in e.shared <==> TieCount(Group(rows, e.date), k) >= 2
  {
    var dates := SortedDistinct(CleanDates(rows));
    OverDatesRefused(rows, dates, n, minNames, w);
    hide SpreadsOver, CleanDates, SortedDistinct, Group, Refused, TieCount, SharedTies;
    if TopNSpread(rows, n, minNames, w).Err? {
      var e := TopNSpread(rows, n, minNames, w).error;
      forall k
        ensures k in e.shared <==> TieCount(Group(rows, e.date), k) >= 2
      {
        SharedIffTwice(Group(rows, e.date), k);
      }
    }
  }

  lemma {:induction false} GroupSize(rows: seq<Observation>, date: int)
    ensures |Group(rows, date)| <= |rows|
  {
    if rows != [] {
      GroupSize(rows[1..], date);
    }
  }

  lemma {:induction false} ThinDatesGiveNothing(rows: seq<Observation>, dates: seq<int>, n: int, minNames: int,
                                                w: Option<real>)
    requires |rows| < minNames
    ensures SpreadsOver(rows, dates, n, minNames, w) == Ok([])
  {
    hide Group, Spread, SharedTies;
    if dates != [] {
      ThinDatesGiveNothing(rows, dates[..|dates| - 1], n, minNames, w);
      GroupSize(rows, dates[|dates| - 1]);
    }
  }

  /** Dates with too few names are skipped before their tie keys are looked at: two equal rows pass. */
  lemma ThinDateExample(score: real, response: real, n: int, w: Option<real>)
    ensures var o := Observation(Some(0), Some(score), Some(response), Some(7));
            !UniqueTies(Group([o] + [o], 0)) && TopNSpread([o] + [o], n, 3, w) == Ok([])
  {
    var o := Observation(Some(0), Some(score), Some(response), Some(7));
    ThinDatesGiveNothing([o] + [o], SortedDistinct(CleanDates([o] + [o])), n, 3, w);
    hide SpreadsOver, SortedDistinct, CleanDates;
    GroupAppend([o], [o], 0);
    assert Group([o], 0) == [Entry(score, 7, response)] by {
      assert [o][1..] == [];
    }
    assert Group([o] + [o], 0)[0].tie == Group([o] + [o], 0)[1].tie;
  }

  // ---------------------------------------------------------------- bounds

  lemma OneMore(b: real, k: nat)
    ensures b * (k + 1) as real == b * k as real + b
  {
  }

  lemma {:induction false} TotalBounded(xs: seq<real>, b: real)
    requires forall i :: 0 <= i < |xs| ==> -b <= xs[i] <= b
    ensures -(b * |xs| as real) <= Total(xs) <= b * |xs| as real
  {
    if xs != [] {
      TotalBounded(xs[1..], b);
      OneMore(b, |xs[1..]|);
    }
  }

  lemma OverBounded(t: real, k: nat, b: real)
    requires k > 0 && -(b * k as real) <= t <= b * k as real
    ensures -b <= Over(t, k) <= b
  {
  }

  lemma MeanBounded(xs: seq<real>, b: real)
    requires forall i :: 0 <= i < |xs| ==> -b <= xs[i] <= b
    ensures xs != [] ==> -b <= Mean(xs).value <= b
  {
    if xs != [] {
      TotalBounded(xs, b);
      OverBounded(Total(xs), |xs|, b);
    }
  }

  /** With labels winsorized at w no spread exceeds 2|w| in size. */
  lemma SpreadBounded(g: seq<Entry>, n: int, w: real)
    requires Spread(g, n, Some(w)).Some?
    ensures var b := if w < 0.0 then -w else w;
            -2.0 * b <= Spread(g, n, Some(w)).value <= 2.0 * b
  {
    var b := if w < 0.0 then -w else w;
    var c := Clipped(g, Some(w));
    RankedRanks(c);
    RankedSize(c);
    forall e | e in Ranked(c)
      ensures -b <= e.response <= b
    {
      assert e in multiset(c);
      assert e in c;
    }
    MeanBounded(Labels(Ranked(c))[..SliceBound(n, |c|)], b);
    MeanBounded(Labels(c), b);
    hide Mean, Ranked, Total;
  }

  /** Asking for every name, or more, leaves no spread. */
  lemma AllNamesNoSpread(g: seq<Entry>, n: int, w: Option<real>)
    requires g != [] && |g| <= n
    ensures Spread(g, n, w) == Some(0.0)
  {
    var c := Clipped(g, w);
    RankedRanks(c);
    RankedSize(c);
    TotalOfLabels(c);
    TotalOfLabels(Ranked(c));
    SumOfPermutation(c, Ranked(c), (e: Entry) => e.response);
    assert Labels(Ranked(c))[..SliceBound(n, |c|)] == Labels(Ranked(c));
    hide Ranked, Over, Total;
  }
}
