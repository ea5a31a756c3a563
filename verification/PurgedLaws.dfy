/**
 * Two documented properties of the splitters of purged_cv.py that do not always hold, each
 * with its exact condition for any combination of test groups: the separation of train and
 * test under a negative embargo, and the pinned form of the module's docstring.
 */
module PurgedLaws {
  import opened Combinations
  import opened Extrema
  import opened PurgedCv

  // ---------------------------------------------------------------- negative embargo

  /** The rank lies in the purge of some test group. */
  ghost predicate Purged(t: int, groups: seq<int>, n: nat, days: nat, lookahead: int)
    requires n > 0
  {
    exists g :: g in groups && PurgedBy(t, g, n, days, lookahead)
  }

  predicate PurgedBy(t: int, g: int, n: nat, days: nat, lookahead: int)
    requires n > 0
  {
    Edge(g, n, days) - lookahead <= t < Edge(g, n, days)
  }

  /** Every rank a wrapped embargo slice masks is a test rank or purged anyway. */
  ghost predicate WrapHarmless(groups: seq<int>, n: nat, days: nat, lookahead: int, embargo: int)
    requires n > 0
  {
    forall g, t :: g in groups && Embargoed(t, Edge(g + 1, n, days), days, embargo) ==>
      Tested(t, groups, n, days) || Purged(t, groups, n, days, lookahead)
  }

  /** Under a negative embargo a rank is separated from a group unless it lies in it or in its purge. */
  lemma SeparatedFromGroup(t: int, u: int, g: nat, n: nat, days: nat, lookahead: int, embargo: int)
    requires g < n <= days && embargo < 0 && InGroup(u, g, n, days)
    requires !InGroup(t, g, n, days) && !PurgedBy(t, g, n, days, lookahead)
    ensures Separated(t, u, lookahead, embargo)
  {
    hide Edge;
  }

  lemma FirstOfGroup(t: int, g: nat, n: nat, days: nat, lookahead: int, embargo: int)
    requires g < n <= days
    ensures InGroup(Edge(g, n, days), g, n, days)
    ensures PurgedBy(t, g, n, days, lookahead) ==> !Separated(t, Edge(g, n, days), lookahead, embargo)
  {
    EdgesIncrease(g, g + 1, n, days);
    hide Edge;
  }

  /** Separation of a row under a negative embargo, in ranks. */
  lemma SeparatedRowIff(dates: seq<int>, n: nat, groups: seq<int>, lookahead: int, embargo: int, i: int)
    requires 0 < n <= |SortedDistinct(dates)| && 0 <= i < |dates| && embargo < 0
    requires forall g :: g in groups ==> 0 <= g < n
    ensures var u := SortedDistinct(dates);
            SeparatedRow(dates, n, groups, lookahead, embargo, i) <==>
              && !Tested(Rank(u, dates[i]), groups, n, |u|)
              && !Purged(Rank(u, dates[i]), groups, n, |u|, lookahead)
  {
    var u := SortedDistinct(dates);
    var t := Rank(u, dates[i]);
    hide SortedDistinct, InGroup, Edge, PurgedBy;
    if SeparatedRow(dates, n, groups, lookahead, embargo, i) {
      forall g | g in groups
        ensures !PurgedBy(t, g, n, |u|, lookahead)
      {
        FirstOfGroup(t, g, n, |u|, lookahead, embargo);
        InGroupInRange(Edge(g, n, |u|), g, n, |u|);
        var j := RowOfRank(dates, Edge(g, n, |u|));
        assert TestRow(dates, n, groups, j);
      }
      assert TestRow(dates, n, groups, i) ==> Separated(t, t, lookahead, embargo);
    }
    if !Tested(t, groups, n, |u|) && !Purged(t, groups, n, |u|, lookahead) {
      forall j | TestRow(dates, n, groups, j)
        ensures Separated(t, Rank(u, dates[j]), lookahead, embargo)
      {
        var g :| g in groups && InGroup(Rank(u, dates[j]), g, n, |u|);
        SeparatedFromGroup(t, Rank(u, dates[j]), g, n, |u|, lookahead, embargo);
      }
    }
  }

  /** What the masks leave, in ranks. */
  lemma UnmaskedRowIff(dates: seq<int>, n: nat, groups: seq<int>, lookahead: int, embargo: int, i: int)
    requires 0 < n <= |SortedDistinct(dates)| && 0 <= i < |dates|
    ensures var u := SortedDistinct(dates);
            var t := Rank(u, dates[i]);
            UnmaskedRow(dates, n, groups, lookahead, embargo, i) <==>
              && !Tested(t, groups, n, |u|) && !Purged(t, groups, n, |u|, lookahead)
              && forall g :: g in groups ==> !Embargoed(t, Edge(g + 1, n, |u|), |u|, embargo)
  {
    var u := SortedDistinct(dates);
    var t := Rank(u, dates[i]);
    hide SortedDistinct, Edge, Embargoed;
    assert forall g :: Clear(t, g, n, |u|, lookahead, embargo) <==>
             && !InGroup(t, g, n, |u|) && !PurgedBy(t, g, n, |u|, lookahead)
             && !Embargoed(t, Edge(g + 1, n, |u|), |u|, embargo);
    hide Clear, InGroup, PurgedBy;
  }

  lemma EmbargoedInRange(t: int, g: nat, n: nat, days: nat, embargo: int)
    requires g < n <= days && Embargoed(t, Edge(g + 1, n, days), days, embargo)
    ensures 0 <= t < days
  {
    EdgesIncrease(g, g + 1, n, days);
    hide Edge;
  }

  lemma HarmlessSeparates(dates: seq<int>, n: nat, groups: seq<int>, lookahead: int, embargo: int, f: Fold)
    requires 0 < n <= |SortedDistinct(dates)| && embargo < 0 && forall g :: g in groups ==> 0 <= g < n
    requires IsMasked(dates, n, groups, lookahead, embargo, f)
    requires WrapHarmless(groups, n, |SortedDistinct(dates)|, lookahead, embargo)
    ensures IsSeparated(dates, n, groups, lookahead, embargo, f)
  {
    hide SortedDistinct, Tested, Purged, Edge, UnmaskedRow, SeparatedRow, TestRow, Increasing;
    forall i
      ensures UnmaskedRow(dates, n, groups, lookahead, embargo, i) <==>
              SeparatedRow(dates, n, groups, lookahead, embargo, i)
    {
      OnlyRows(dates, n, groups, lookahead, embargo, i);
      if 0 <= i < |dates| {
        UnmaskedRowIff(dates, n, groups, lookahead, embargo, i);
        SeparatedRowIff(dates, n, groups, lookahead, embargo, i);
      }
    }
  }

  lemma SeparatedIsHarmless(dates: seq<int>, n: nat, groups: seq<int>, lookahead: int, embargo: int, f: Fold)
    requires 0 < n <= |SortedDistinct(dates)| && embargo < 0 && forall g :: g in groups ==> 0 <= g < n
    requires IsMasked(dates, n, groups, lookahead, embargo, f)
    requires IsSeparated(dates, n, groups, lookahead, embargo, f)
    ensures WrapHarmless(groups, n, |SortedDistinct(dates)|, lookahead, embargo)
  {
    hide SortedDistinct, Tested, Purged, Edge, UnmaskedRow, SeparatedRow, TestRow, Increasing;
    var days := |SortedDistinct(dates)|;
    forall g, t | g in groups && Embargoed(t, Edge(g + 1, n, days), days, embargo)
      ensures Tested(t, groups, n, days) || Purged(t, groups, n, days, lookahead)
    {
      EmbargoedInRange(t, g, n, days, embargo);
      var i := RowOfRank(dates, t);
      UnmaskedRowIff(dates, n, groups, lookahead, embargo, i);
      SeparatedRowIff(dates, n, groups, lookahead, embargo, i);
      assert i in f.train <==> UnmaskedRow(dates, n, groups, lookahead, embargo, i);
    }
  }

  /**
   * The masks separate train from test exactly when the embargo is not negative, or every
   * rank its wrapped slices mask is a test rank or purged anyway.
   */
  lemma SeparatedIffWrapHarmless(dates: seq<int>, n: nat, groups: seq<int>, lookahead: int, embargo: int, f: Fold)
    requires 0 < n <= |SortedDistinct(dates)| && forall g :: g in groups ==> 0 <= g < n
    requires IsMasked(dates, n, groups, lookahead, embargo, f)
    ensures IsSeparated(dates, n, groups, lookahead, embargo, f) <==>
              embargo >= 0 || WrapHarmless(groups, n, |SortedDistinct(dates)|, lookahead, embargo)
  {
    hide SortedDistinct, IsMasked, IsSeparated, WrapHarmless, Edge;
    if embargo >= 0 {
      MaskedIsSeparated(dates, n, groups, lookahead, embargo, f);
    } else {
      if WrapHarmless(groups, n, |SortedDistinct(dates)|, lookahead, embargo) {
        HarmlessSeparates(dates, n, groups, lookahead, embargo, f);
      }
      if IsSeparated(dates, n, groups, lookahead, embargo, f) {
        SeparatedIsHarmless(dates, n, groups, lookahead, embargo, f);
      }
    }
  }

  /** The one-group case: the wrapped slice is harmless only if it is empty. */
  lemma OneGroupWrap(g: nat, n: nat, days: nat, lookahead: int, embargo: int)
    requires g < n <= days && embargo < 0
    ensures WrapHarmless([g], n, days, lookahead, embargo) <==> NoWrap(g, n, days, embargo)
  {
    EdgesIncrease(g, g + 1, n, days);
    var hi := Edge(g + 1, n, days);
    hide Edge;
    assert forall h :: h in [g] <==> h == g;
    if NoWrap(g, n, days, embargo) {
      assert forall t :: !Embargoed(t, hi, days, embargo);
    } else {
      assert g in [g] && Embargoed(hi, Edge(g + 1, n, days), days, embargo);
      assert !Tested(hi, [g], n, days) && !Purged(hi, [g], n, days, lookahead);
    }
  }

  /** A k-fold split leaks or wastes rows exactly when its embargo slice wraps around. */
  lemma KFoldSeparatedIffNoWrap(dates: seq<int>, n: nat, g: nat, lookahead: int, embargo: int, f: Fold)
    requires g < n <= |SortedDistinct(dates)|
    requires IsMasked(dates, n, [g], lookahead, embargo, f)
    ensures IsSeparated(dates, n, [g], lookahead, embargo, f) <==> NoWrap(g, n, |SortedDistinct(dates)|, embargo)
  {
    hide SortedDistinct, IsMasked, IsSeparated, WrapHarmless, Edge;
    SeparatedIffWrapHarmless(dates, n, [g], lookahead, embargo, f);
    if embargo < 0 {
      OneGroupWrap(g, n, |SortedDistinct(dates)|, lookahead, embargo);
    }
  }

  // ---------------------------------------------------------------- the pinned form

  /** The module's pinned form, `max(train) + lookahead < min(test)`, in date ranks. */
  ghost predicate TrainPrecedesTest(dates: seq<int>, lookahead: int, f: Fold) {
    forall i, j :: i in f.train && j in f.test && 0 <= i < |dates| && 0 <= j < |dates| ==>
      Rank(SortedDistinct(dates), dates[i]) + lookahead < Rank(SortedDistinct(dates), dates[j])
  }

  function Max(a: int, b: int): int {
    if a < b then b else a
  }

  /** Where the slice that masks the embargo from rank hi on ends. */
  function EmbargoEnd(hi: int, days: nat, embargo: int): int {
    SliceBound(if hi + embargo < days then hi + embargo else days, days)
  }

  /**
   * After the c-th test group: the first rank that neither group nor embargo of the groups
   * so far masks, and that is too late for the pinned form.
   */
  function GapReach(groups: seq<int>, c: nat, n: nat, days: nat, lookahead: int, embargo: int): int
    requires n > 0 && c < |groups|
  {
    var hi := Edge(groups[c] + 1, n, days);
    Max(Max(hi, EmbargoEnd(hi, days, embargo)),
        if c == 0 then Edge(groups[0], n, days) - lookahead
        else GapReach(groups, c - 1, n, days, lookahead, embargo))
  }

  /** The purge before the next test group, or the end of the panel after the last. */
  function GapStop(groups: seq<int>, c: nat, n: nat, days: nat, lookahead: int): int
    requires n > 0 && c < |groups|
  {
    if c + 1 < |groups| then Edge(groups[c + 1], n, days) - Max(lookahead, 0) else days
  }

  /** Nothing is left to train on between the two. */
  predicate GapCovered(groups: seq<int>, c: nat, n: nat, days: nat, lookahead: int, embargo: int)
    requires n > 0 && c < |groups|
  {
    GapReach(groups, c, n, days, lookahead, embargo) >= GapStop(groups, c, n, days, lookahead)
  }

  lemma EdgeMonotone(g: nat, h: nat, n: nat, days: nat)
    requires g <= h <= n <= days && n > 0
    ensures 0 <= Edge(g, n, days) <= Edge(h, n, days) <= days
  {
    if g < h {
      EdgesIncrease(g, h, n, days);
    } else if h < n {
      EdgesIncrease(h, h + 1, n, days);
    } else {
      EdgesIncrease(h - 1, h, n, days);
    }
  }

  lemma {:induction false} ReachBounds(groups: seq<int>, c: nat, n: nat, days: nat, lookahead: int, embargo: int,
                                       d: nat)
    requires n > 0 && d <= c < |groups|
    ensures var t := GapReach(groups, c, n, days, lookahead, embargo);
            && Edge(groups[0], n, days) - lookahead <= t && Edge(groups[d] + 1, n, days) <= t
            && EmbargoEnd(Edge(groups[d] + 1, n, days), days, embargo) <= t
  {
    hide Edge, EmbargoEnd;
    if c > 0 {
      ReachBounds(groups, c - 1, n, days, lookahead, embargo, if d < c then d else 0);
    }
  }

  /** The first rank of an uncovered gap is left in train. */
  lemma UncoveredIsClear(groups: seq<int>, c: nat, d: nat, n: nat, days: nat, lookahead: int, embargo: int)
    requires 0 < n <= days && IsCombo(groups, 0, n, |groups|) && c < |groups| && d < |groups|
    requires !GapCovered(groups, c, n, days, lookahead, embargo)
    ensures var t := GapReach(groups, c, n, days, lookahead, embargo);
            0 <= t < days && Clear(t, groups[d], n, days, lookahead, embargo)
  {
    assert groups[c] in groups && groups[d] in groups;
    EdgesIncrease(groups[c], groups[c] + 1, n, days);
    EdgesIncrease(groups[d], groups[d] + 1, n, days);
    ReachBounds(groups, c, n, days, lookahead, embargo, c);
    if c + 1 < |groups| {
      assert groups[c + 1] in groups;
      EdgeMonotone(groups[c + 1], n, n, days);
    }
    if d <= c {
      ReachBounds(groups, c, n, days, lookahead, embargo, d);
    } else {
      EdgeMonotone(groups[c + 1], groups[d], n, days);
    }
    hide Edge, IsCombo, GapReach;
  }

  /** With the gaps before covered, a rank left in train from the purge on is past the c-th group. */
  lemma {:induction false} StaysAbove(t: int, groups: seq<int>, c: nat, n: nat, days: nat, lookahead: int, embargo: int)
    requires 0 < n <= days && c < |groups| && t + lookahead >= Edge(groups[0], n, days)
    requires forall d :: 0 <= d < |groups| ==> GapCovered(groups, d, n, days, lookahead, embargo)
    requires forall d :: 0 <= d < |groups| ==> Clear(t, groups[d], n, days, lookahead, embargo)
    ensures GapReach(groups, c, n, days, lookahead, embargo) <= t
  {
    hide Edge, SliceBound;
    assert Clear(t, groups[c], n, days, lookahead, embargo);
    if c > 0 {
      StaysAbove(t, groups, c - 1, n, days, lookahead, embargo);
      assert GapCovered(groups, c - 1, n, days, lookahead, embargo);
    }
  }

  /** With every gap covered, a rank left in train lies before every purge. */
  lemma CoveredMeansBefore(t: int, groups: seq<int>, n: nat, days: nat, lookahead: int, embargo: int)
    requires 0 < n <= days && 0 <= t < days && groups != []
    requires forall d :: 0 <= d < |groups| ==> GapCovered(groups, d, n, days, lookahead, embargo)
    requires forall d :: 0 <= d < |groups| ==> Clear(t, groups[d], n, days, lookahead, embargo)
    ensures t + lookahead < Edge(groups[0], n, days)
  {
    hide Edge, GapReach, Clear;
    var last := |groups| - 1;
    assert GapCovered(groups, last, n, days, lookahead, embargo);
    if t + lookahead >= Edge(groups[0], n, days) {
      StaysAbove(t, groups, last, n, days, lookahead, embargo);
    }
  }

  /** Test rows start at the first test group. */
  lemma TestedFromFirst(t: int, groups: seq<int>, n: nat, days: nat)
    requires 0 < n <= days && IsCombo(groups, 0, n, |groups|) && Tested(t, groups, n, days)
    ensures groups != [] && Edge(groups[0], n, days) <= t
  {
    var g :| g in groups && InGroup(t, g, n, days);
    HeadIsLeast(groups);
    assert groups[0] in groups;
    EdgeMonotone(groups[0], g, n, days);
  }

  /**
   * The pinned form, exactly: for any combination of test groups, lookahead and embargo it
   * holds if and only if every gap between consecutive test groups, and the one after the
   * last, is covered.
   */
  lemma PinnedFormIffGapsCovered(dates: seq<int>, n: nat, groups: seq<int>, lookahead: int, embargo: int, f: Fold)
    requires 0 < n <= |SortedDistinct(dates)| && IsCombo(groups, 0, n, |groups|) && groups != []
    requires IsMasked(dates, n, groups, lookahead, embargo, f)
    ensures TrainPrecedesTest(dates, lookahead, f) <==>
              forall c :: 0 <= c < |groups| ==>
                GapCovered(groups, c, n, |SortedDistinct(dates)|, lookahead, embargo)
  {
    var u := SortedDistinct(dates);
    hide Edge, SortedDistinct, Clear, GapCovered, InGroup, Increasing;
    if forall c :: 0 <= c < |groups| ==> GapCovered(groups, c, n, |u|, lookahead, embargo) {
      forall i, j | i in f.train && j in f.test && 0 <= i < |dates| && 0 <= j < |dates|
        ensures Rank(u, dates[i]) + lookahead < Rank(u, dates[j])
      {
        assert UnmaskedRow(dates, n, groups, lookahead, embargo, i) && TestRow(dates, n, groups, j);
        CoveredMeansBefore(Rank(u, dates[i]), groups, n, |u|, lookahead, embargo);
        TestedFromFirst(Rank(u, dates[j]), groups, n, |u|);
      }
    } else {
      var c :| 0 <= c < |groups| && !GapCovered(groups, c, n, |u|, lookahead, embargo);
      LateTrainRow(dates, n, groups, c, lookahead, embargo, f);
    }
  }

  /** An uncovered gap leaves a rank that does not precede the first test rank. */
  lemma LateRank(groups: seq<int>, c: nat, n: nat, days: nat, lookahead: int, embargo: int)
    requires 0 < n <= days && IsCombo(groups, 0, n, |groups|) && c < |groups|
    requires !GapCovered(groups, c, n, days, lookahead, embargo)
    ensures var t, first := GapReach(groups, c, n, days, lookahead, embargo), Edge(groups[0], n, days);
            && 0 <= first < days && 0 <= t < days && first <= t + lookahead
            && groups[0] in groups && InGroup(first, groups[0], n, days)
            && forall g :: g in groups ==> Clear(t, g, n, days, lookahead, embargo)
  {
    assert groups[0] in groups;
    FirstOfGroup(0, groups[0], n, days, lookahead, embargo);
    EdgesIncrease(groups[0], groups[0] + 1, n, days);
    ReachBounds(groups, c, n, days, lookahead, embargo, c);
    UncoveredIsClear(groups, c, c, n, days, lookahead, embargo);
    forall g | g in groups
      ensures Clear(GapReach(groups, c, n, days, lookahead, embargo), g, n, days, lookahead, embargo)
    {
      var d :| 0 <= d < |groups| && groups[d] == g;
      UncoveredIsClear(groups, c, d, n, days, lookahead, embargo);
    }
    hide Edge, Clear, GapCovered, GapReach, InGroup, IsCombo;
  }

  /** So a row in train does not precede the first test row. */
  lemma LateTrainRow(dates: seq<int>, n: nat, groups: seq<int>, c: nat, lookahead: int, embargo: int, f: Fold)
    requires 0 < n <= |SortedDistinct(dates)| && IsCombo(groups, 0, n, |groups|) && c < |groups|
    requires IsMasked(dates, n, groups, lookahead, embargo, f)
    requires !GapCovered(groups, c, n, |SortedDistinct(dates)|, lookahead, embargo)
    ensures !TrainPrecedesTest(dates, lookahead, f)
  {
    var u := SortedDistinct(dates);
    hide Edge, SortedDistinct, Clear, GapCovered, GapReach, InGroup, Increasing, IsCombo;
    LateRank(groups, c, n, |u|, lookahead, embargo);
    var i := RowOfRank(dates, GapReach(groups, c, n, |u|, lookahead, embargo));
    var j := RowOfRank(dates, Edge(groups[0], n, |u|));
    assert UnmaskedRow(dates, n, groups, lookahead, embargo, i) && TestRow(dates, n, groups, j);
    assert i in f.train && j in f.test;
  }

  /** Without negative bounds the reach is the end of the embargo. */
  lemma {:induction false} ReachIsEmbargo(groups: seq<int>, c: nat, n: nat, days: nat, lookahead: nat, embargo: nat)
    requires 0 < n <= days && IsCombo(groups, 0, n, |groups|) && c < |groups|
    ensures var end := Edge(groups[c] + 1, n, days) + embargo;
            GapReach(groups, c, n, days, lookahead, embargo) == if end < days then end else days
  {
    assert groups[c] in groups && groups[0] in groups;
    EdgesIncrease(groups[c], groups[c] + 1, n, days);
    if c > 0 {
      assert groups[c - 1] in groups;
      EdgeMonotone(groups[c - 1] + 1, groups[c], n, days);
      ReachIsEmbargo(groups, c - 1, n, days, lookahead, embargo);
    }
    hide Edge, IsCombo;
  }

  /** Then a gap is covered when the embargo reaches the purge before the next group, or the end of the panel. */
  lemma CoveredByEmbargo(groups: seq<int>, c: nat, n: nat, days: nat, lookahead: nat, embargo: nat)
    requires 0 < n <= days && IsCombo(groups, 0, n, |groups|) && c < |groups|
    ensures GapCovered(groups, c, n, days, lookahead, embargo) <==>
            Edge(groups[c] + 1, n, days) + embargo >= GapStop(groups, c, n, days, lookahead)
  {
    ReachIsEmbargo(groups, c, n, days, lookahead, embargo);
    if c + 1 < |groups| {
      assert groups[c + 1] in groups;
      EdgeMonotone(groups[c + 1], n, n, days);
    }
    hide Edge, GapReach, IsCombo;
  }

  lemma OneGroupGap(g: nat, n: nat, days: nat, lookahead: int, embargo: int)
    requires g < n <= days
    ensures GapCovered([g], 0, n, days, lookahead, embargo) <==>
            Edge(g + 1, n, days) + Max(embargo, 0) >= days || Edge(g, n, days) - lookahead >= days
  {
    EdgesIncrease(g, g + 1, n, days);
    hide Edge;
  }

  /**
   * For one test group: only when it or its embargo reaches the end of the panel, or the
   * lookahead is that far below zero.
   */
  lemma PinnedFormIffNothingAfter(dates: seq<int>, n: nat, g: nat, lookahead: int, embargo: int, f: Fold)
    requires g < n <= |SortedDistinct(dates)|
    requires IsMasked(dates, n, [g], lookahead, embargo, f)
    ensures var days := |SortedDistinct(dates)|;
            TrainPrecedesTest(dates, lookahead, f) <==>
              || Edge(g + 1, n, days) + Max(embargo, 0) >= days
              || Edge(g, n, days) - lookahead >= days
  {
    hide SortedDistinct, IsMasked, TrainPrecedesTest, Edge, GapCovered;
    PinnedFormIffGapsCovered(dates, n, [g], lookahead, embargo, f);
    OneGroupGap(g, n, |SortedDistinct(dates)|, lookahead, embargo);
  }

  // ---------------------------------------------------------------- both failures at an input

  lemma SortedStays(dates: seq<int>)
    requires Increasing(dates)
    ensures SortedDistinct(dates) == dates
  {
    IncreasingUnique(SortedDistinct(dates), dates);
  }

  lemma MiddleLeftOpen()
    ensures !GapCovered([0, 2], 0, 3, 3, 0, 0)
  {
  }

  lemma SlicesWrap()
    ensures !NoWrap(0, 2, 4, -3)
  {
  }

  /** Three dates, groups 0 and 2 of three tested, nothing masked: group 1 is trained after group 0. */
  lemma PinnedFormExample(f: Fold)
    requires IsMasked([0, 1, 2], 3, [0, 2], 0, 0, f)
    ensures !TrainPrecedesTest([0, 1, 2], 0, f)
  {
    hide IsMasked, TrainPrecedesTest, SortedDistinct, GapCovered, NoWrap;
    SortedStays([0, 1, 2]);
    MiddleLeftOpen();
    PinnedFormIffGapsCovered([0, 1, 2], 3, [0, 2], 0, 0, f);
  }

  /** Four dates in two groups, the first tested: an embargo of -3 wraps around and masks the safe third date. */
  lemma WrapExample(f: Fold)
    requires IsMasked([0, 1, 2, 3], 2, [0], 0, -3, f)
    ensures !IsSeparated([0, 1, 2, 3], 2, [0], 0, -3, f)
  {
    hide IsMasked, IsSeparated, SortedDistinct, NoWrap;
    SortedStays([0, 1, 2, 3]);
    SlicesWrap();
    KFoldSeparatedIffNoWrap([0, 1, 2, 3], 2, 0, 0, -3, f);
  }
}
