/**
 * Purged k-fold and combinatorial purged cross-validation: the two `split`
 * generators of purged_cv.py. A panel is its date column, one normalised date per
 * row; None stands for a panel without that column.
 */
module PurgedCv {
  import opened Wrappers
  import opened Combinations
  import opened Extrema

  datatype CvError = TooFewSplits | MissingDateColumn | BadTestGroups | NotEnoughDates(unique: nat)

  /** The row indices a generator step yields. */
  datatype Fold = Fold(train: seq<int>, test: seq<int>)

  // ---------------------------------------------------------------- dates and their ranks

  // The panel's unique dates, `sorted(set(dates))`, are SortedDistinct(dates).

  /** The position of d among the unique dates. */
  ghost function Rank(u: seq<int>, d: int): (t: int)
    requires d in u
    ensures 0 <= t < |u| && u[t] == d
  {
    var t :| 0 <= t < |u| && u[t] == d;
    t
  }

  lemma RankInRange(u: seq<int>, d: int, a: int, b: int)
    requires Increasing(u) && d in u && 0 <= a <= b <= |u|
    ensures d in u[a..b] <==> a <= Rank(u, d) < b
  {
  }

  // ---------------------------------------------------------------- slices and groups

  /** `s[a:b]` with Python's rules for negative and out-of-range bounds. */
  function PySlice(s: seq<int>, a: int, b: int): seq<int> {
    var lo, hi := SliceBound(a, |s|), SliceBound(b, |s|);
    if lo <= hi then s[lo..hi] else []
  }

  /** `fold_edges[g]`: equal groups, the last one taking the remainder. */
  function Edge(g: int, n: nat, days: nat): int
    requires n > 0
  {
    if g == n then days else g * (days / n)
  }

  lemma {:induction false} EdgesIncrease(g: nat, h: nat, n: nat, days: nat)
    requires g < h <= n <= days && n > 0
    ensures 0 <= Edge(g, n, days) < Edge(h, n, days) <= days
  {
  }

  predicate InGroup(t: int, g: int, n: nat, days: nat)
    requires n > 0
  {
    Edge(g, n, days) <= t < Edge(g + 1, n, days)
  }

  /** The last group that starts at or before rank t. */
  ghost function GroupOf(t: int, n: nat, days: nat, g: nat): (r: nat)
    requires 0 <= t < days && 0 < n <= days && g < n && t < Edge(g + 1, n, days)
    ensures r < n && InGroup(t, r, n, days)
  {
    if Edge(g, n, days) <= t then g else GroupOf(t, n, days, g - 1)
  }

  ghost function Group(t: int, n: nat, days: nat): (r: nat)
    requires 0 <= t < days && 0 < n <= days
    ensures r < n && InGroup(t, r, n, days)
  {
    GroupOf(t, n, days, n - 1)
  }

  lemma GroupUnique(t: int, g: nat, h: nat, n: nat, days: nat)
    requires 0 < n <= days && g < n && h < n
    requires InGroup(t, g, n, days) && InGroup(t, h, n, days)
    ensures g == h
  {
    if g + 1 < h {
      EdgesIncrease(g + 1, h, n, days);
    } else if h + 1 < g {
      EdgesIncrease(h + 1, g, n, days);
    }
  }

  // ---------------------------------------------------------------- group sizes

  /** The ranks of group g. */
  ghost function GroupRanks(g: int, n: nat, days: nat): set<int>
    requires n > 0
  {
    set t | 0 <= t < days && InGroup(t, g, n, days)
  }

  ghost function Interval(a: int, b: int): (s: set<int>)
    ensures |s| == if a <= b then b - a else 0
    ensures forall t :: t in s <==> a <= t < b
    decreases b - a
  {
    if a >= b then {} else Interval(a, b - 1) + {b - 1}
  }

  lemma EdgeDistance(g: nat, n: nat, days: nat)
    requires g < n <= days
    ensures Edge(g + 1, n, days) - Edge(g, n, days) == days / n + (if g == n - 1 then days % n else 0)
  {
    var size := days / n;
    assert days == n * size + days % n;
    assert (g + 1) * size == g * size + size;
    if g == n - 1 {
      assert n * size == (g + 1) * size;
    }
  }

  /** Equal groups of days // n dates, the last one with the remainder. */
  lemma GroupSize(g: nat, n: nat, days: nat)
    requires g < n <= days
    ensures |GroupRanks(g, n, days)| == days / n + (if g == n - 1 then days % n else 0)
  {
    EdgesIncrease(g, g + 1, n, days);
    EdgeDistance(g, n, days);
    hide Edge;
    assert GroupRanks(g, n, days) == Interval(Edge(g, n, days), Edge(g + 1, n, days));
  }

  /** `unique_dates[fold_edges[g]:fold_edges[g + 1]]`. */
  function GroupDates(u: seq<int>, n: nat, g: int): seq<int>
    requires n > 0
  {
    PySlice(u, Edge(g, n, |u|), Edge(g + 1, n, |u|))
  }

  function PurgeDates(u: seq<int>, lo: int, lookahead: int): seq<int> {
    PySlice(u, if lo - lookahead > 0 then lo - lookahead else 0, lo)
  }

  function EmbargoDates(u: seq<int>, hi: int, embargo: int): seq<int> {
    PySlice(u, hi, if hi + embargo < |u| then hi + embargo else |u|)
  }

  // ---------------------------------------------------------------- specification

  /** No rank of group g is within lookahead after t, nor within embargo before t. */
  predicate Separated(t: int, u: int, lookahead: int, embargo: int) {
    && t != u
    && (t < u ==> u - t > lookahead)
    && (u < t ==> t - u > embargo)
  }

  ghost predicate Tested(t: int, groups: seq<int>, n: nat, days: nat)
    requires n > 0
  {
    exists g :: g in groups && InGroup(t, g, n, days)
  }

  /** The ranks [hi, hi + embargo) that the embargo slice masks, with Python's wrap-around. */
  predicate Embargoed(t: int, hi: int, days: nat, embargo: int) {
    hi <= t < SliceBound(if hi + embargo < days then hi + embargo else days, days)
  }

  /** What the masks of one group leave: outside it, before its purge, after its embargo. */
  predicate Clear(t: int, g: int, n: nat, days: nat, lookahead: int, embargo: int)
    requires n > 0
  {
    var lo, hi := Edge(g, n, days), Edge(g + 1, n, days);
    !(lo <= t < hi) && !(lo - lookahead <= t < lo) && !Embargoed(t, hi, days, embargo)
  }

  ghost predicate TestRow(dates: seq<int>, n: nat, groups: seq<int>, i: int)
    requires n > 0
  {
    0 <= i < |dates| && Tested(Rank(SortedDistinct(dates), dates[i]), groups, n, |SortedDistinct(dates)|)
  }

  /** A row the masks of every test group leave in the training set. */
  ghost predicate UnmaskedRow(dates: seq<int>, n: nat, groups: seq<int>, lookahead: int, embargo: int, i: int)
    requires n > 0
  {
    0 <= i < |dates| && forall g :: g in groups ==>
      Clear(Rank(SortedDistinct(dates), dates[i]), g, n, |SortedDistinct(dates)|, lookahead, embargo)
  }

  /** A row whose date rank is separated from that of every test row. */
  ghost predicate SeparatedRow(dates: seq<int>, n: nat, groups: seq<int>, lookahead: int, embargo: int, i: int)
    requires n > 0
  {
    0 <= i < |dates| && forall j :: TestRow(dates, n, groups, j) ==>
      Separated(Rank(SortedDistinct(dates), dates[i]), Rank(SortedDistinct(dates), dates[j]), lookahead, embargo)
  }

  /** A fold as the masks produce it, for the test groups given. */
  ghost predicate IsMasked(dates: seq<int>, n: nat, groups: seq<int>, lookahead: int, embargo: int, f: Fold)
    requires n > 0
  {
    && Increasing(f.train) && Increasing(f.test)
    && (forall i :: i in f.test <==> TestRow(dates, n, groups, i))
    && (forall i :: i in f.train <==> UnmaskedRow(dates, n, groups, lookahead, embargo, i))
  }

  /** A fold without leakage: train holds exactly the rows separated from every test row. */
  ghost predicate IsSeparated(dates: seq<int>, n: nat, groups: seq<int>, lookahead: int, embargo: int, f: Fold)
    requires n > 0
  {
    && Increasing(f.train) && Increasing(f.test)
    && (forall i :: i in f.test <==> TestRow(dates, n, groups, i))
    && (forall i :: i in f.train <==> SeparatedRow(dates, n, groups, lookahead, embargo, i))
  }

  // ---------------------------------------------------------------- masks

  /** `np.isin(dates, wanted)`. */
  method IsIn(dates: seq<int>, wanted: seq<int>) returns (mask: array<bool>)
    ensures fresh(mask) && mask.Length == |dates|
    ensures forall i :: 0 <= i < |dates| ==> mask[i] == (dates[i] in wanted)
  {
    mask := new bool[|dates|](i requires 0 <= i < |dates| => dates[i] in wanted);
  }

  /** `if len(banned): train_mask &= ~np.isin(dates, banned)`. */
  method Narrow(mask: array<bool>, dates: seq<int>, banned: seq<int>)
    requires mask.Length == |dates|
    modifies mask
    ensures forall i :: 0 <= i < |dates| ==> mask[i] == (old(mask[i]) && dates[i] !in banned)
  {
    if |banned| > 0 {
      forall i | 0 <= i < |dates| {
        mask[i] := mask[i] && dates[i] !in banned;
      }
    }
  }

  /** `all_idx[mask]`. */
  method Selected(mask: array<bool>) returns (idx: seq<int>)
    ensures Increasing(idx)
    ensures forall i :: i in idx <==> 0 <= i < mask.Length && mask[i]
  {
    idx := [];
    for i := 0 to mask.Length
      invariant Increasing(idx)
      invariant forall x :: x in idx <==> 0 <= x < i && mask[x]
    {
      if mask[i] {
        IncreasingAppend(idx, i);
        idx := idx + [i];
      }
    }
  }

  // ---------------------------------------------------------------- the slices in ranks

  lemma GroupDatesInRanks(u: seq<int>, n: nat, g: nat, d: int)
    requires Increasing(u) && d in u && g < n <= |u|
    ensures d in GroupDates(u, n, g) <==> InGroup(Rank(u, d), g, n, |u|)
  {
    EdgesIncrease(g, g + 1, n, |u|);
    RankInRange(u, d, Edge(g, n, |u|), Edge(g + 1, n, |u|));
  }

  /** One group's two masks and its test block remove exactly the ranks that are not Clear. */
  lemma MasksInRanks(u: seq<int>, n: nat, g: nat, lookahead: int, embargo: int, d: int)
    requires Increasing(u) && d in u && g < n <= |u|
    ensures Clear(Rank(u, d), g, n, |u|, lookahead, embargo) <==>
              && !InGroup(Rank(u, d), g, n, |u|)
              && d !in PurgeDates(u, Edge(g, n, |u|), lookahead)
              && d !in EmbargoDates(u, Edge(g + 1, n, |u|), embargo)
  {
    EdgesIncrease(g, g + 1, n, |u|);
    var lo, hi := Edge(g, n, |u|), Edge(g + 1, n, |u|);
    var from := if lo - lookahead > 0 then lo - lookahead else 0;
    if from <= lo {
      RankInRange(u, d, from, lo);
    }
    var to := SliceBound(if hi + embargo < |u| then hi + embargo else |u|, |u|);
    if hi <= to {
      RankInRange(u, d, hi, to);
    }
  }

  /** `np.concatenate([groups[idx] for idx in combo])`. */
  function ConcatGroups(u: seq<int>, n: nat, combo: seq<int>): seq<int>
    requires n > 0
  {
    if combo == [] then [] else GroupDates(u, n, combo[0]) + ConcatGroups(u, n, combo[1..])
  }

  lemma {:induction false} ConcatGroupsInRanks(u: seq<int>, n: nat, combo: seq<int>, d: int)
    requires Increasing(u) && d in u && 0 < n <= |u| && forall g :: g in combo ==> 0 <= g < n
    ensures d in ConcatGroups(u, n, combo) <==> Tested(Rank(u, d), combo, n, |u|)
  {
    hide InGroup, GroupDates, Increasing, Edge;
    if combo != [] {
      assert forall g :: g in combo <==> g == combo[0] || g in combo[1..];
      assert combo[0] in combo;
      GroupDatesInRanks(u, n, combo[0], d);
      ConcatGroupsInRanks(u, n, combo[1..], d);
    }
  }

  // ---------------------------------------------------------------- the splitters

  datatype PurgedKFold = PurgedKFold(nSplits: int, embargoDays: int, lookaheadDays: int) {

    /** `PurgedKFold.split`: fold g tests group g. */
    method Split(panel: Option<seq<int>>) returns (r: Result<seq<Fold>, CvError>)
      ensures nSplits < 2 ==> r == Err(TooFewSplits)
      ensures nSplits >= 2 && panel.None? ==> r == Err(MissingDateColumn)
      ensures nSplits >= 2 && panel.Some? ==>
                var unique := |SortedDistinct(panel.value)|;
                if unique < nSplits then r == Err(NotEnoughDates(unique))
                else r.Ok? && |r.value| == nSplits
                     && forall g :: 0 <= g < nSplits ==>
                          IsFold(panel.value, nSplits, [g], lookaheadDays, embargoDays, r.value[g])
    {
      if nSplits < 2 {
        return Err(TooFewSplits);
      }
      if panel.None? {
        return Err(MissingDateColumn);
      }
      var dates := panel.value;
      var u := SortedDistinct(dates);
      if |u| < nSplits {
        return Err(NotEnoughDates(|u|));
      }
      hide IsFold, IsMasked, SortedDistinct;
      var folds: seq<Fold> := [];
      for g := 0 to nSplits
        invariant |folds| == g
        invariant forall h :: 0 <= h < g ==> IsFold(dates, nSplits, [h], lookaheadDays, embargoDays, folds[h])
      {
        var fold := SplitOne(dates, g);
        FoldTestSize(dates, nSplits, [g], lookaheadDays, embargoDays, fold);
        folds := folds + [fold];
      }
      r := Ok(folds);
    }

    /** The body of the loop over folds. */
    method SplitOne(dates: seq<int>, g: nat) returns (f: Fold)
      requires g < nSplits <= |SortedDistinct(dates)|
      ensures IsMasked(dates, nSplits, [g], lookaheadDays, embargoDays, f)
    {
      hide GroupDates, PurgeDates, EmbargoDates, Increasing, SortedDistinct, IsMasked, Edge;
      var u := SortedDistinct(dates);
      var lo, hi := Edge(g, nSplits, |u|), Edge(g + 1, nSplits, |u|);
      var testMask := IsIn(dates, GroupDates(u, nSplits, g));
      var trainMask := new bool[|dates|](i requires 0 <= i < testMask.Length reads testMask => !testMask[i]);
      Narrow(trainMask, dates, PurgeDates(u, lo, lookaheadDays));
      Narrow(trainMask, dates, EmbargoDates(u, hi, embargoDays));
      var train := Selected(trainMask);
      var test := Selected(testMask);
      f := Fold(train, test);
      OneGroupFold(dates, nSplits, g, lookaheadDays, embargoDays, f);
    }
  }

  lemma OneGroupFold(dates: seq<int>, n: nat, g: nat, lookahead: int, embargo: int, f: Fold)
    requires g < n <= |SortedDistinct(dates)|
    requires Increasing(f.train) && Increasing(f.test)
    requires var u := SortedDistinct(dates);
             && (forall i :: i in f.test <==> 0 <= i < |dates| && dates[i] in GroupDates(u, n, g))
             && forall i :: i in f.train <==>
                  && 0 <= i < |dates| && dates[i] !in GroupDates(u, n, g)
                  && dates[i] !in PurgeDates(u, Edge(g, n, |u|), lookahead)
                  && dates[i] !in EmbargoDates(u, Edge(g + 1, n, |u|), embargo)
    ensures IsMasked(dates, n, [g], lookahead, embargo, f)
  {
    hide Clear, InGroup, Edge, SortedDistinct, GroupDates, PurgeDates, EmbargoDates, Increasing;
    var u := SortedDistinct(dates);
    assert g in [g];
    forall i | 0 <= i < |dates|
      ensures i in f.test <==> TestRow(dates, n, [g], i)
      ensures i in f.train <==> UnmaskedRow(dates, n, [g], lookahead, embargo, i)
    {
      GroupDatesInRanks(u, n, g, dates[i]);
      MasksInRanks(u, n, g, lookahead, embargo, dates[i]);
    }
  }

  datatype CombinatorialPurgedCV = CombinatorialPurgedCV(
    nSplits: int, nTestGroups: int, embargoDays: int, lookaheadDays: int) {

    /** `CombinatorialPurgedCV.split`: one fold per combination of test groups. */
    method Split(panel: Option<seq<int>>) returns (r: Result<seq<Fold>, CvError>)
      ensures nSplits < 2 ==> r == Err(TooFewSplits)
      ensures nSplits >= 2 && !(1 <= nTestGroups < nSplits) ==> r == Err(BadTestGroups)
      ensures nSplits >= 2 && 1 <= nTestGroups < nSplits && panel.None? ==> r == Err(MissingDateColumn)
      ensures nSplits >= 2 && 1 <= nTestGroups < nSplits && panel.Some? ==>
                var unique := |SortedDistinct(panel.value)|;
                var combos := Combos(nSplits, nTestGroups);
                if unique < nSplits then r == Err(NotEnoughDates(unique))
                else r.Ok? && |r.value| == |combos|
                     && forall c :: 0 <= c < |combos| ==>
                          IsFold(panel.value, nSplits, combos[c], lookaheadDays, embargoDays, r.value[c])
    {
      if nSplits < 2 {
        return Err(TooFewSplits);
      }
      if nTestGroups < 1 || nTestGroups >= nSplits {
        return Err(BadTestGroups);
      }
      if panel.None? {
        return Err(MissingDateColumn);
      }
      var dates := panel.value;
      var u := SortedDistinct(dates);
      if |u| < nSplits {
        return Err(NotEnoughDates(|u|));
      }
      var combos := Combos(nSplits, nTestGroups);
      CombosSound(0, nSplits, nTestGroups);
      hide IsFold, IsMasked, SortedDistinct, CombosFrom;
      var folds: seq<Fold> := [];
      for c := 0 to |combos|
        invariant |folds| == c
        invariant forall d :: 0 <= d < c ==> IsFold(dates, nSplits, combos[d], lookaheadDays, embargoDays, folds[d])
      {
        assert IsCombo(combos[c], 0, nSplits, nTestGroups);
        var fold := SplitOne(dates, combos[c]);
        FoldTestSize(dates, nSplits, combos[c], lookaheadDays, embargoDays, fold);
        folds := folds + [fold];
      }
      r := Ok(folds);
    }

    /** The body of the loop over combinations. */
    method SplitOne(dates: seq<int>, combo: seq<int>) returns (f: Fold)
      requires 2 <= nSplits <= |SortedDistinct(dates)|
      requires forall g :: g in combo ==> 0 <= g < nSplits
      ensures IsMasked(dates, nSplits, combo, lookaheadDays, embargoDays, f)
    {
      var u := SortedDistinct(dates);
      var testMask := IsIn(dates, ConcatGroups(u, nSplits, combo));
      var trainMask := new bool[|dates|](i requires 0 <= i < testMask.Length reads testMask => !testMask[i]);
      ghost var tested := testMask[..];
      for c := 0 to |combo|
        invariant testMask[..] == tested
        invariant forall i :: 0 <= i < |dates| ==>
                    (trainMask[i] <==>
                      !testMask[i] && Spared(dates[i], u, nSplits, combo[..c], lookaheadDays, embargoDays))
      {
        var lo, hi := Edge(combo[c], nSplits, |u|), Edge(combo[c] + 1, nSplits, |u|);
        Narrow(trainMask, dates, PurgeDates(u, lo, lookaheadDays));
        Narrow(trainMask, dates, EmbargoDates(u, hi, embargoDays));
        SparedStep(u, nSplits, combo, c, lookaheadDays, embargoDays);
      }
      var train := Selected(trainMask);
      var test := Selected(testMask);
      f := Fold(train, test);
      assert combo[..|combo|] == combo;
      ManyGroupsFold(dates, nSplits, combo, lookaheadDays, embargoDays, f);
    }
  }

  /** d survives the purge and embargo masks of every group given. */
  ghost predicate Spared(d: int, u: seq<int>, n: nat, groups: seq<int>, lookahead: int, embargo: int)
    requires n > 0
  {
    forall g :: g in groups ==>
      d !in PurgeDates(u, Edge(g, n, |u|), lookahead) && d !in EmbargoDates(u, Edge(g + 1, n, |u|), embargo)
  }

  lemma SparedStep(u: seq<int>, n: nat, combo: seq<int>, c: nat, lookahead: int, embargo: int)
    requires n > 0 && c < |combo|
    ensures forall d :: Spared(d, u, n, combo[..c + 1], lookahead, embargo) <==>
              && Spared(d, u, n, combo[..c], lookahead, embargo)
              && d !in PurgeDates(u, Edge(combo[c], n, |u|), lookahead)
              && d !in EmbargoDates(u, Edge(combo[c] + 1, n, |u|), embargo)
  {
    assert combo[..c + 1] == combo[..c] + [combo[c]];
    assert forall g :: g in combo[..c + 1] <==> g in combo[..c] || g == combo[c];
  }

  lemma ManyGroupsFold(dates: seq<int>, n: nat, combo: seq<int>, lookahead: int, embargo: int, f: Fold)
    requires 0 < n <= |SortedDistinct(dates)|
    requires forall g :: g in combo ==> 0 <= g < n
    requires Increasing(f.train) && Increasing(f.test)
    requires var u := SortedDistinct(dates);
             && (forall i :: i in f.test <==> 0 <= i < |dates| && dates[i] in ConcatGroups(u, n, combo))
             && forall i :: i in f.train <==>
                  && 0 <= i < |dates| && dates[i] !in ConcatGroups(u, n, combo)
                  && Spared(dates[i], u, n, combo, lookahead, embargo)
    ensures IsMasked(dates, n, combo, lookahead, embargo, f)
  {
    hide Clear, InGroup, Edge, SortedDistinct, ConcatGroups, PurgeDates, EmbargoDates, Increasing, Tested, Spared;
    var u := SortedDistinct(dates);
    forall i | 0 <= i < |dates|
      ensures i in f.test <==> TestRow(dates, n, combo, i)
      ensures i in f.train <==> UnmaskedRow(dates, n, combo, lookahead, embargo, i)
    {
      ConcatGroupsInRanks(u, n, combo, dates[i]);
      ClearOfAll(u, n, combo, lookahead, embargo, dates[i]);
    }
  }

  lemma ClearOfAll(u: seq<int>, n: nat, combo: seq<int>, lookahead: int, embargo: int, d: int)
    requires Increasing(u) && d in u && 0 < n <= |u| && forall g :: g in combo ==> 0 <= g < n
    ensures (forall g :: g in combo ==> Clear(Rank(u, d), g, n, |u|, lookahead, embargo)) <==>
              !Tested(Rank(u, d), combo, n, |u|) && Spared(d, u, n, combo, lookahead, embargo)
  {
    hide Clear, InGroup, Edge, PurgeDates, EmbargoDates, Increasing;
    var t := Rank(u, d);
    if forall g :: g in combo ==> Clear(t, g, n, |u|, lookahead, embargo) {
      forall g | g in combo
        ensures !InGroup(t, g, n, |u|)
        ensures d !in PurgeDates(u, Edge(g, n, |u|), lookahead) && d !in EmbargoDates(u, Edge(g + 1, n, |u|), embargo)
      {
        assert Clear(t, g, n, |u|, lookahead, embargo);
        MasksInRanks(u, n, g, lookahead, embargo, d);
      }
    }
    if !Tested(t, combo, n, |u|) && Spared(d, u, n, combo, lookahead, embargo) {
      forall g | g in combo
        ensures Clear(t, g, n, |u|, lookahead, embargo)
      {
        assert !InGroup(t, g, n, |u|);
        MasksInRanks(u, n, g, lookahead, embargo, d);
      }
    }
  }

  // ---------------------------------------------------------------- no leakage

  /** The embargo slice of a group does not wrap around: always so for a non-negative embargo. */
  predicate NoWrap(g: int, n: nat, days: nat, embargo: int)
    requires n > 0
  {
    embargo >= 0 || Edge(g + 1, n, days) + embargo >= 0 || days + embargo <= 0
  }

  /** A rank is clear of a group exactly when it is separated from every rank in it. */
  lemma ClearIsSeparated(t: int, g: nat, n: nat, days: nat, lookahead: int, embargo: int)
    requires g < n <= days && 0 <= t < days && NoWrap(g, n, days, embargo)
    ensures Clear(t, g, n, days, lookahead, embargo) <==>
              forall u :: InGroup(u, g, n, days) ==> Separated(t, u, lookahead, embargo)
  {
    EdgesIncrease(g, g + 1, n, days);
    var lo, hi := Edge(g, n, days), Edge(g + 1, n, days);
    hide Edge;
    if forall u :: InGroup(u, g, n, days) ==> Separated(t, u, lookahead, embargo) {
      assert InGroup(lo, g, n, days) && InGroup(hi - 1, g, n, days);
      assert Separated(t, lo, lookahead, embargo) && Separated(t, hi - 1, lookahead, embargo);
      assert InGroup(t, g, n, days) ==> Separated(t, t, lookahead, embargo);
    }
  }

  /** Every rank is the rank of some row. */
  lemma RowOfRank(dates: seq<int>, t: int) returns (i: int)
    requires 0 <= t < |SortedDistinct(dates)|
    ensures 0 <= i < |dates| && Rank(SortedDistinct(dates), dates[i]) == t
  {
    var u := SortedDistinct(dates);
    assert u[t] in u;
    i :| 0 <= i < |dates| && dates[i] == u[t];
    var r := Rank(u, dates[i]);
    assert u[r] == u[t];
  }

  lemma UnmaskedIsSeparated(dates: seq<int>, n: nat, groups: seq<int>, lookahead: int, embargo: int, i: int)
    requires 0 < n <= |SortedDistinct(dates)| && 0 <= i < |dates|
    requires forall g :: g in groups ==> 0 <= g < n && NoWrap(g, n, |SortedDistinct(dates)|, embargo)
    ensures UnmaskedRow(dates, n, groups, lookahead, embargo, i) <==>
            SeparatedRow(dates, n, groups, lookahead, embargo, i)
  {
    hide Clear, InGroup, NoWrap, SortedDistinct, Separated;
    var u := SortedDistinct(dates);
    var t := Rank(u, dates[i]);
    if UnmaskedRow(dates, n, groups, lookahead, embargo, i) {
      forall j | TestRow(dates, n, groups, j)
        ensures Separated(t, Rank(u, dates[j]), lookahead, embargo)
      {
        var g :| g in groups && InGroup(Rank(u, dates[j]), g, n, |u|);
        assert Clear(t, g, n, |u|, lookahead, embargo);
        ClearIsSeparated(t, g, n, |u|, lookahead, embargo);
      }
    }
    if SeparatedRow(dates, n, groups, lookahead, embargo, i) {
      forall g | g in groups
        ensures Clear(t, g, n, |u|, lookahead, embargo)
      {
        forall r | InGroup(r, g, n, |u|)
          ensures Separated(t, r, lookahead, embargo)
        {
          InGroupInRange(r, g, n, |u|);
          var j := RowOfRank(dates, r);
          assert TestRow(dates, n, groups, j);
        }
        ClearIsSeparated(t, g, n, |u|, lookahead, embargo);
      }
    }
  }

  lemma InGroupInRange(t: int, g: nat, n: nat, days: nat)
    requires g < n <= days && InGroup(t, g, n, days)
    ensures 0 <= t < days
  {
    EdgesIncrease(g, g + 1, n, days);
  }

  /** No leakage: the masks leave in train exactly the rows separated from every test row. */
  lemma MaskedIsSeparated(dates: seq<int>, n: nat, groups: seq<int>, lookahead: int, embargo: int, f: Fold)
    requires 0 < n <= |SortedDistinct(dates)|
    requires forall g :: g in groups ==> 0 <= g < n && NoWrap(g, n, |SortedDistinct(dates)|, embargo)
    requires IsMasked(dates, n, groups, lookahead, embargo, f)
    ensures IsSeparated(dates, n, groups, lookahead, embargo, f)
  {
    hide UnmaskedRow, SeparatedRow, TestRow, SortedDistinct, NoWrap;
    forall i
      ensures UnmaskedRow(dates, n, groups, lookahead, embargo, i) <==>
              SeparatedRow(dates, n, groups, lookahead, embargo, i)
    {
      OnlyRows(dates, n, groups, lookahead, embargo, i);
      if 0 <= i < |dates| {
        UnmaskedIsSeparated(dates, n, groups, lookahead, embargo, i);
      }
    }
  }

  lemma OnlyRows(dates: seq<int>, n: nat, groups: seq<int>, lookahead: int, embargo: int, i: int)
    requires n > 0
    ensures UnmaskedRow(dates, n, groups, lookahead, embargo, i) ==> 0 <= i < |dates|
    ensures SeparatedRow(dates, n, groups, lookahead, embargo, i) ==> 0 <= i < |dates|
  {
  }

  // ---------------------------------------------------------------- test sizes

  /** The dates of a fold's test rows. */
  ghost function TestedDates(dates: seq<int>, f: Fold): set<int> {
    set i | i in f.test && 0 <= i < |dates| :: dates[i]
  }

  ghost function TestedRanks(groups: seq<int>, n: nat, days: nat): set<int>
    requires n > 0
  {
    set t | 0 <= t < days && Tested(t, groups, n, days)
  }

  /** The size of the test groups together: equal shares, and the remainder if the last group is among them. */
  function TestSize(groups: seq<int>, n: nat, days: nat): int
    requires n > 0
  {
    |groups| * (days / n) + if n - 1 in groups then days % n else 0
  }

  lemma TestSizeSplit(groups: seq<int>, n: nat, days: nat)
    requires 0 < n && groups != [] && groups[0] !in groups[1..]
    ensures TestSize(groups, n, days) ==
            TestSize(groups[1..], n, days) + days / n + (if groups[0] == n - 1 then days % n else 0)
  {
    var size := days / n;
    assert |groups| * size == (|groups| - 1) * size + size;
    assert n - 1 in groups <==> groups[0] == n - 1 || n - 1 in groups[1..];
  }

  lemma TestedRanksSplit(groups: seq<int>, n: nat, days: nat)
    requires 0 < n <= days && IsCombo(groups, 0, n, |groups|) && groups != []
    ensures TestedRanks(groups, n, days) == GroupRanks(groups[0], n, days) + TestedRanks(groups[1..], n, days)
    ensures GroupRanks(groups[0], n, days) !! TestedRanks(groups[1..], n, days)
  {
    var rest := groups[1..];
    assert forall g :: g in groups <==> g == groups[0] || g in rest;
    HeadIsLeast(groups);
    assert groups[0] in groups;
    hide InGroup, IsCombo;
    forall t | t in GroupRanks(groups[0], n, days)
      ensures t !in TestedRanks(rest, n, days)
    {
      if t in TestedRanks(rest, n, days) {
        var g :| g in rest && InGroup(t, g, n, days);
        GroupUnique(t, groups[0], g, n, days);
      }
    }
    assert forall t :: Tested(t, groups, n, days) <==> InGroup(t, groups[0], n, days) || Tested(t, rest, n, days);
  }

  lemma NoGroups(n: nat, days: nat)
    requires n > 0
    ensures |TestedRanks([], n, days)| == 0 == TestSize([], n, days)
  {
    assert TestedRanks([], n, days) == {};
  }

  lemma RestIsCombo(groups: seq<int>, n: nat)
    requires IsCombo(groups, 0, n, |groups|) && groups != []
    ensures IsCombo(groups[1..], 0, n, |groups| - 1) && groups[0] !in groups[1..] && 0 <= groups[0] < n
  {
    HeadIsLeast(groups);
    assert groups[0] in groups;
    assert forall g :: g in groups[1..] ==> g in groups;
  }

  lemma OneGroupMore(groups: seq<int>, n: nat, days: nat)
    requires 0 < n <= days && IsCombo(groups, 0, n, |groups|) && groups != []
    ensures IsCombo(groups[1..], 0, n, |groups| - 1)
    ensures |TestedRanks(groups, n, days)| - |TestedRanks(groups[1..], n, days)| ==
            TestSize(groups, n, days) - TestSize(groups[1..], n, days)
  {
    RestIsCombo(groups, n);
    hide TestedRanks, GroupRanks, TestSize, IsCombo;
    TestedRanksSplit(groups, n, days);
    TestSizeSplit(groups, n, days);
    GroupSize(groups[0], n, days);
  }

  lemma {:induction false} TestedRanksSize(groups: seq<int>, n: nat, days: nat)
    requires 0 < n <= days && IsCombo(groups, 0, n, |groups|)
    ensures |TestedRanks(groups, n, days)| == TestSize(groups, n, days)
  {
    hide TestedRanks, TestSize, IsCombo;
    if groups == [] {
      NoGroups(n, days);
    } else {
      OneGroupMore(groups, n, days);
      TestedRanksSize(groups[1..], n, days);
    }
  }

  ghost function RanksBelow(ranks: set<int>, k: nat): set<int> {
    if k == 0 then {} else RanksBelow(ranks, k - 1) + if k - 1 in ranks then {k - 1} else {}
  }

  /** The dates at the given ranks below k. */
  ghost function DatesAt(u: seq<int>, ranks: set<int>, k: nat): set<int>
    requires k <= |u|
  {
    if k == 0 then {} else DatesAt(u, ranks, k - 1) + if k - 1 in ranks then {u[k - 1]} else {}
  }

  lemma {:induction false} RanksBelowMembers(ranks: set<int>, k: nat, t: int)
    ensures t in RanksBelow(ranks, k) <==> t in ranks && 0 <= t < k
  {
    if k > 0 {
      RanksBelowMembers(ranks, k - 1, t);
    }
  }

  lemma {:induction false} DatesAtMembers(u: seq<int>, ranks: set<int>, k: nat, d: int)
    requires k <= |u|
    ensures d in DatesAt(u, ranks, k) <==> exists t :: t in ranks && 0 <= t < k && u[t] == d
  {
    if k > 0 {
      DatesAtMembers(u, ranks, k - 1, d);
    }
  }

  lemma SizeStep(u: seq<int>, ranks: set<int>, k: nat)
    requires Increasing(u) && k < |u|
    ensures var more := if k in ranks then 1 else 0;
            && |DatesAt(u, ranks, k + 1)| == |DatesAt(u, ranks, k)| + more
            && |RanksBelow(ranks, k + 1)| == |RanksBelow(ranks, k)| + more
  {
    RanksBelowMembers(ranks, k, k);
    DatesAtMembers(u, ranks, k, u[k]);
  }

  /** Different ranks are different dates. */
  lemma {:induction false} DatesAtSize(u: seq<int>, ranks: set<int>, k: nat)
    requires Increasing(u) && k <= |u|
    ensures |DatesAt(u, ranks, k)| == |RanksBelow(ranks, k)|
  {
    if k > 0 {
      hide DatesAt, RanksBelow, Increasing;
      SizeStep(u, ranks, k - 1);
      DatesAtSize(u, ranks, k - 1);
    }
  }

  lemma TestedDatesAreRanks(dates: seq<int>, n: nat, groups: seq<int>, lookahead: int, embargo: int, f: Fold)
    requires 0 < n <= |SortedDistinct(dates)| && IsMasked(dates, n, groups, lookahead, embargo, f)
    ensures var u := SortedDistinct(dates); TestedDates(dates, f) == DatesAt(u, TestedRanks(groups, n, |u|), |u|)
  {
    var u := SortedDistinct(dates);
    var ranks := TestedRanks(groups, n, |u|);
    hide SortedDistinct, Tested, DatesAt;
    forall d | d in TestedDates(dates, f)
      ensures d in DatesAt(u, ranks, |u|)
    {
      DatesAtMembers(u, ranks, |u|, d);
      var i :| i in f.test && 0 <= i < |dates| && dates[i] == d;
      assert TestRow(dates, n, groups, i);
      assert u[Rank(u, d)] == d;
    }
    forall d | d in DatesAt(u, ranks, |u|)
      ensures d in TestedDates(dates, f)
    {
      DatesAtMembers(u, ranks, |u|, d);
      var t :| t in ranks && 0 <= t < |u| && u[t] == d;
      var i := RowOfRank(dates, t);
      assert TestRow(dates, n, groups, i);
    }
  }

  /** A fold as the masks produce it, which tests as many dates as its groups are to hold. */
  ghost predicate IsFold(dates: seq<int>, n: nat, groups: seq<int>, lookahead: int, embargo: int, f: Fold)
    requires n > 0
  {
    && IsMasked(dates, n, groups, lookahead, embargo, f)
    && |TestedDates(dates, f)| == TestSize(groups, n, |SortedDistinct(dates)|)
  }

  /** A fold tests as many dates as its groups hold. */
  lemma FoldTestSize(dates: seq<int>, n: nat, groups: seq<int>, lookahead: int, embargo: int, f: Fold)
    requires 0 < n <= |SortedDistinct(dates)| && IsCombo(groups, 0, n, |groups|)
    requires IsMasked(dates, n, groups, lookahead, embargo, f)
    ensures IsFold(dates, n, groups, lookahead, embargo, f)
  {
    var u := SortedDistinct(dates);
    TestedDatesAreRanks(dates, n, groups, lookahead, embargo, f);
    var ranks := TestedRanks(groups, n, |u|);
    forall t
      ensures t in RanksBelow(ranks, |u|) <==> t in ranks
    {
      RanksBelowMembers(ranks, |u|, t);
    }
    assert RanksBelow(ranks, |u|) == ranks;
    hide SortedDistinct, TestedRanks, TestSize, TestedDates, IsMasked;
    TestedRanksSize(groups, n, |u|);
    DatesAtSize(u, ranks, |u|);
  }

  // ---------------------------------------------------------------- counting

  function CountTesting(folds: seq<Fold>, i: int): nat {
    if folds == [] then 0 else (if i in folds[0].test then 1 else 0) + CountTesting(folds[1..], i)
  }

  lemma {:induction false} CountsAgree(folds: seq<Fold>, combos: seq<seq<int>>, i: int, g: int)
    requires |folds| == |combos|
    requires forall c :: 0 <= c < |combos| ==> (i in folds[c].test <==> g in combos[c])
    ensures CountTesting(folds, i) == CountContaining(combos, g)
  {
    if folds != [] {
      assert i in folds[0].test <==> g in combos[0];
      forall c | 0 <= c < |combos[1..]|
        ensures i in folds[1..][c].test <==> g in combos[1..][c]
      {
        assert i in folds[c + 1].test <==> g in combos[c + 1];
      }
      CountsAgree(folds[1..], combos[1..], i, g);
    }
  }

  /** The folds of a combinatorial split, one per combination in order. */
  ghost predicate AreFoldsOf(dates: seq<int>, n: nat, k: nat, lookahead: int, embargo: int, folds: seq<Fold>)
    requires n > 0
  {
    && |folds| == |Combos(n, k)|
    && forall c :: 0 <= c < |folds| ==> IsMasked(dates, n, Combos(n, k)[c], lookahead, embargo, folds[c])
  }

  lemma TestedByGroup(dates: seq<int>, n: nat, combo: seq<int>, i: int)
    requires 0 < n <= |SortedDistinct(dates)| && 0 <= i < |dates| && forall g :: g in combo ==> 0 <= g < n
    ensures TestRow(dates, n, combo, i) <==>
            Group(Rank(SortedDistinct(dates), dates[i]), n, |SortedDistinct(dates)|) in combo
  {
    var u := SortedDistinct(dates);
    var t := Rank(u, dates[i]);
    var h := Group(t, n, |u|);
    if TestRow(dates, n, combo, i) {
      var g :| g in combo && InGroup(t, g, n, |u|);
      GroupUnique(t, g, h, n, |u|);
    }
  }

  /** A fold tests a row exactly when its combination holds the row's group. */
  lemma TestedInFold(dates: seq<int>, n: nat, k: nat, lookahead: int, embargo: int, folds: seq<Fold>, c: nat, i: int)
    requires 0 < k < n <= |SortedDistinct(dates)| && 0 <= i < |dates|
    requires AreFoldsOf(dates, n, k, lookahead, embargo, folds) && c < |folds|
    ensures i in folds[c].test <==>
            Group(Rank(SortedDistinct(dates), dates[i]), n, |SortedDistinct(dates)|) in Combos(n, k)[c]
  {
    var combo := Combos(n, k)[c];
    assert IsCombo(combo, 0, n, k) by {
      CombosSound(0, n, k);
    }
    assert IsMasked(dates, n, combo, lookahead, embargo, folds[c]);
    hide CombosFrom, SortedDistinct, TestRow;
    TestedByGroup(dates, n, combo, i);
  }

  lemma FoldsTesting(dates: seq<int>, n: nat, k: nat, lookahead: int, embargo: int, folds: seq<Fold>, i: int)
    requires 0 < k < n <= |SortedDistinct(dates)| && 0 <= i < |dates|
    requires AreFoldsOf(dates, n, k, lookahead, embargo, folds)
    ensures |folds| == |Combos(n, k)|
    ensures var u := SortedDistinct(dates);
            CountTesting(folds, i) == CountContaining(Combos(n, k), Group(Rank(u, dates[i]), n, |u|))
  {
    hide CombosFrom, SortedDistinct, Group, Rank, IsMasked;
    var u := SortedDistinct(dates);
    var g := Group(Rank(u, dates[i]), n, |u|);
    forall c | 0 <= c < |folds|
      ensures i in folds[c].test <==> g in Combos(n, k)[c]
    {
      TestedInFold(dates, n, k, lookahead, embargo, folds, c, i);
    }
    CountsAgree(folds, Combos(n, k), i, g);
  }

  /** CPCV yields C(n, k) folds and tests every row in exactly C(n-1, k-1) of them. */
  lemma CpcvCounts(dates: seq<int>, n: nat, k: nat, lookahead: int, embargo: int, folds: seq<Fold>, i: int)
    requires 0 < k < n <= |SortedDistinct(dates)| && 0 <= i < |dates|
    requires AreFoldsOf(dates, n, k, lookahead, embargo, folds)
    ensures |folds| == Binomial(n, k)
    ensures CountTesting(folds, i) == Binomial(n - 1, k - 1)
  {
    var u := SortedDistinct(dates);
    var g := Group(Rank(u, dates[i]), n, |u|);
    hide CombosFrom, SortedDistinct, Group, Rank, AreFoldsOf, CountTesting, CountContaining, Binomial;
    ComboCount(0, n, k);
    FoldsTesting(dates, n, k, lookahead, embargo, folds, i);
    CountContainingIndex(0, n, k, g);
  }

  /** No two folds have the same test rows. */
  lemma CpcvDistinct(dates: seq<int>, n: nat, k: nat, lookahead: int, embargo: int, folds: seq<Fold>, c: nat, d: nat)
    requires 0 < k < n <= |SortedDistinct(dates)|
    requires AreFoldsOf(dates, n, k, lookahead, embargo, folds)
    requires c < d < |folds|
    ensures folds[c].test != folds[d].test
  {
    var a, b := Combos(n, k)[c], Combos(n, k)[d];
    CombosSound(0, n, k);
    CombosDistinct(0, n, k);
    assert IsCombo(a, 0, n, k) && IsCombo(b, 0, n, k) && a != b;
    assert IsMasked(dates, n, a, lookahead, embargo, folds[c]);
    assert IsMasked(dates, n, b, lookahead, embargo, folds[d]);
    if forall g :: g in a <==> g in b {
      IncreasingUnique(a, b);
    } else {
      var g :| !(g in a <==> g in b);
      EdgesIncrease(g, g + 1, n, |SortedDistinct(dates)|);
      var i := RowOfRank(dates, Edge(g, n, |SortedDistinct(dates)|));
      GroupUnique(Edge(g, n, |SortedDistinct(dates)|),
                  Group(Edge(g, n, |SortedDistinct(dates)|), n, |SortedDistinct(dates)|),
                  g, n, |SortedDistinct(dates)|);
      TestedByGroup(dates, n, a, i);
      TestedByGroup(dates, n, b, i);
      assert i in folds[c].test <==> i !in folds[d].test;
    }
  }

  /** The masks determine a fold. */
  lemma MaskedUnique(dates: seq<int>, n: nat, groups: seq<int>, lookahead: int, embargo: int, f: Fold, f': Fold)
    requires n > 0
    requires IsMasked(dates, n, groups, lookahead, embargo, f) && IsMasked(dates, n, groups, lookahead, embargo, f')
    ensures f == f'
  {
    hide TestRow, UnmaskedRow;
    IncreasingUnique(f.train, f'.train);
    IncreasingUnique(f.test, f'.test);
  }

  /** With one test group, CPCV is the purged k-fold split, fold by fold. */
  lemma CpcvOneIsKFold(dates: seq<int>, n: nat, lookahead: int, embargo: int, kfolds: seq<Fold>, folds: seq<Fold>)
    requires 1 < n <= |SortedDistinct(dates)|
    requires |kfolds| == n && forall g :: 0 <= g < n ==> IsMasked(dates, n, [g], lookahead, embargo, kfolds[g])
    requires AreFoldsOf(dates, n, 1, lookahead, embargo, folds)
    ensures folds == kfolds
    ensures forall i :: 0 <= i < |dates| ==> CountTesting(kfolds, i) == 1
  {
    hide IsMasked, SortedDistinct, Binomial, CountTesting, CombosFrom;
    SingletonCombos(0, n);
    forall g | 0 <= g < n
      ensures folds[g] == kfolds[g]
    {
      assert Combos(n, 1)[g] == [g];
      MaskedUnique(dates, n, [g], lookahead, embargo, folds[g], kfolds[g]);
    }
    assert folds == kfolds;
    forall i | 0 <= i < |dates|
      ensures CountTesting(kfolds, i) == 1
    {
      CpcvCounts(dates, n, 1, lookahead, embargo, folds, i);
      BinomialOfZero(n - 1);
    }
  }

  lemma BinomialOfZero(n: nat)
    ensures Binomial(n, 0) == 1
  {
  }
}
