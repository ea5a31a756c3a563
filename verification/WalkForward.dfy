/**
 * Walk-forward splits (walk_forward_splits.py) and point-in-time fold selection
 * (walk_forward_fold_selection.py), over normalised dates.
 */
module WalkForward {
  import opened Wrappers
  import opened BusinessDays

  // ---------------------------------------------------------------- fold eligibility

  /** A retrain entry: `effective_train_cutoff_date` is None when absent or empty. */
  datatype Entry = Entry(cutoff: int, lookahead: int, effective: Option<int>)

  function FeatureCutoff(cutoff: int, effective: Option<int>): int {
    effective.GetOr(cutoff)
  }

  /** `safe_last_label_date`. */
  function SafeLastLabelDate(cutoff: int, lookahead: int, effective: Option<int>): int {
    var base := FeatureCutoff(cutoff, effective);
    if lookahead > 0 then Offset(base, lookahead) else base
  }

  /** `is_fold_eligible`: strictly before today. */
  predicate IsEligible(e: Entry, today: int) {
    SafeLastLabelDate(e.cutoff, e.lookahead, e.effective) < today
  }

  /** The safe date lies between L and L + 2*ceil(L/5) calendar days after its base. */
  lemma SafeDateBounds(cutoff: int, lookahead: int, effective: Option<int>)
    requires lookahead >= 1
    ensures lookahead
            <= SafeLastLabelDate(cutoff, lookahead, effective) - (if effective.Some? then effective.value else cutoff)
            <= lookahead + 2 * ((lookahead + 4) / 5)
  {
    AfterBounds(FeatureCutoff(cutoff, effective), lookahead);
  }

  /**
   * A fold is eligible exactly when its whole label horizon has passed strictly before
   * today, counted from the effective cutoff if there is one; without a horizon, when that
   * cutoff has.
   */
  lemma EligibleIffRealised(e: Entry, today: int)
    ensures IsEligible(e, today) <==>
              var base := if e.effective.Some? then e.effective.value else e.cutoff;
              if e.lookahead >= 1 then CountBusinessDays(base + 1, today) >= e.lookahead else base < today
  {
    if e.lookahead >= 1 {
      HorizonPassed(FeatureCutoff(e.cutoff, e.effective), e.lookahead, today);
    }
  }

  lemma HorizonPassed(base: int, lookahead: nat, today: int)
    requires lookahead >= 1
    ensures After(base, lookahead) < today <==> CountBusinessDays(base + 1, today) >= lookahead
  {
    var safe := After(base, lookahead);
    AfterCounts(base, lookahead);
    hide After;
    if safe < today {
      CountSplit(base + 1, safe + 1, today);
    } else if base + 1 <= today {
      CountSplit(base + 1, today, safe + 1);
      CountSplit(today, safe, safe + 1);
    }
  }

  // ---------------------------------------------------------------- split labels

  datatype Label = Train | Embargo | Val | Test

  datatype WalkForwardCut = WalkForwardCut(valStart: int, valEnd: int)

  /** `cut.val_start - BDay(embargo_days)`. */
  function TrainEnd(cut: WalkForwardCut, embargoDays: int): int {
    Offset(cut.valStart, -embargoDays)
  }

  /** `assign_split_column`: the column starts as test and is overwritten three times. */
  method AssignSplitColumn(dates: seq<int>, cut: WalkForwardCut, embargoDays: int) returns (out: array<Label>)
    ensures fresh(out) && out.Length == |dates|
    ensures forall i :: 0 <= i < |dates| ==> IsLabel(out[i], dates[i], cut, embargoDays)
  {
    var trainEnd := TrainEnd(cut, embargoDays);
    out := new Label[|dates|](_ => Test);
    forall i | 0 <= i < |dates| && dates[i] < trainEnd {
      out[i] := Train;
    }
    forall i | 0 <= i < |dates| && trainEnd <= dates[i] < cut.valStart {
      out[i] := Embargo;
    }
    forall i | 0 <= i < |dates| && cut.valStart <= dates[i] < cut.valEnd {
      out[i] := Val;
    }
  }

  /** What each label says about its row; the four are exclusive and exhaustive. */
  ghost predicate IsLabel(split: Label, d: int, cut: WalkForwardCut, embargoDays: int) {
    var trainEnd := TrainEnd(cut, embargoDays);
    && (split == Val <==> cut.valStart <= d < cut.valEnd)
    && (split == Embargo <==> trainEnd <= d < cut.valStart)
    && (split == Train <==> d < trainEnd && (d < cut.valStart || cut.valEnd <= d))
  }

  /** Where train ends: the embargo's business days before validation; a negative embargo counts forward. */
  lemma TrainEndCounts(cut: WalkForwardCut, embargoDays: int)
    ensures var end := TrainEnd(cut, embargoDays);
            && IsBusinessDay(end)
            && (embargoDays > 0 ==> end < cut.valStart && CountBusinessDays(end, cut.valStart) == embargoDays)
            && (embargoDays < 0 ==>
                  cut.valStart < end && CountBusinessDays(cut.valStart + 1, end + 1) == -embargoDays)
            && (embargoDays == 0 ==> cut.valStart <= end && CountBusinessDays(cut.valStart, end) == 0)
  {
    if embargoDays > 0 {
      BeforeCounts(cut.valStart, embargoDays);
      TrainEndPrecedes(cut, embargoDays);
    } else if embargoDays < 0 {
      AfterCounts(cut.valStart, -embargoDays);
      AfterMonotone(cut.valStart, 1, -embargoDays);
    } else if !IsBusinessDay(cut.valStart) {
      CountNone(cut.valStart, NextBusinessDay(cut.valStart));
    }
  }

  lemma TrainEndPrecedes(cut: WalkForwardCut, embargoDays: int)
    requires embargoDays >= 1
    ensures TrainEnd(cut, embargoDays) == Before(cut.valStart, embargoDays) < cut.valStart
  {
  }

  /**
   * With an embargo of at least one business day a row is trained on exactly when its
   * label window of that many business days ends before validation: no leak, no waste.
   */
  lemma TrainIffLabelSafe(split: Label, d: int, cut: WalkForwardCut, embargoDays: int)
    requires embargoDays >= 1 && cut.valStart <= cut.valEnd && IsLabel(split, d, cut, embargoDays)
    ensures split == Train <==> SafeLastLabelDate(d, embargoDays, None) < cut.valStart
    ensures split == Test <==> cut.valEnd <= d
  {
    TrainEndPrecedes(cut, embargoDays);
    OffsetAdjoint(d, cut.valStart, embargoDays);
  }

  /** No label horizon within the embargo reaches validation from a training row. */
  lemma NoLabelReachesValidation(split: Label, d: int, cut: WalkForwardCut, embargoDays: int, lookahead: int)
    requires embargoDays >= 1 && cut.valStart <= cut.valEnd && IsLabel(split, d, cut, embargoDays)
    requires split == Train && lookahead <= embargoDays
    ensures SafeLastLabelDate(d, lookahead, None) < cut.valStart
  {
    TrainIffLabelSafe(split, d, cut, embargoDays);
    if lookahead > 0 {
      AfterMonotone(d, lookahead, embargoDays);
    } else {
      AfterMonotone(d, 0, embargoDays);
    }
  }

  /** No date at or after the start of validation is labelled train. */
  ghost predicate TrainPrecedesValidation(cut: WalkForwardCut, embargoDays: int) {
    forall d, split: Label :: IsLabel(split, d, cut, embargoDays) && split == Train ==> d < cut.valStart
  }

  /** That fails exactly when the embargo is so far from positive that train ends after validation does. */
  lemma TrainPrecedesValidationIff(cut: WalkForwardCut, embargoDays: int)
    ensures TrainPrecedesValidation(cut, embargoDays) <==>
            TrainEnd(cut, embargoDays) <= cut.valStart || TrainEnd(cut, embargoDays) <= cut.valEnd
  {
    var from := if cut.valStart < cut.valEnd then cut.valEnd else cut.valStart;
    if from < TrainEnd(cut, embargoDays) {
      assert IsLabel(Train, from, cut, embargoDays);
    }
  }

  /** A zero embargo over an empty validation window that starts on a Saturday trains on that Saturday. */
  lemma ZeroEmbargoExample()
    ensures Weekday(2) == 5
    ensures IsLabel(Train, 2, WalkForwardCut(2, 2), 0)
  {
  }

  // ---------------------------------------------------------------- fold selection

  /** `[e for e in entries if safe < today]`, as positions in the list. */
  function EligibleEntries(entries: seq<Entry>, today: int): (r: seq<int>)
    ensures forall i :: i in r <==> 0 <= i < |entries| && IsEligible(entries[i], today)
    ensures forall a, b :: 0 <= a < b < |r| ==> r[a] < r[b]
  {
    if entries == [] then []
    else
      var last := |entries| - 1;
      var init := EligibleEntries(entries[..last], today);
      if IsEligible(entries[last], today) then
        assert forall a :: 0 <= a < |init| ==> init[a] in init;
        init + [last]
      else init
  }

  ghost predicate InBounds(eligible: seq<int>, n: nat) {
    forall a :: 0 <= a < |eligible| ==> 0 <= eligible[a] < n
  }

  /** `max(eligible, key=cutoff)`, as a position in eligible: Python keeps the first maximal element. */
  function FirstMax(entries: seq<Entry>, eligible: seq<int>): (p: int)
    requires eligible != [] && InBounds(eligible, |entries|)
    ensures 0 <= p < |eligible|
    ensures forall a :: 0 <= a < |eligible| ==> entries[eligible[a]].cutoff <= entries[eligible[p]].cutoff
    ensures forall a :: 0 <= a < p ==> entries[eligible[a]].cutoff < entries[eligible[p]].cutoff
  {
    var n := |eligible| - 1;
    if n == 0 then 0
    else
      var p := FirstMax(entries, eligible[..n]);
      if entries[eligible[n]].cutoff > entries[eligible[p]].cutoff then n else p
  }

  /** `select_latest_eligible_fold`, as the position of the chosen entry. */
  function SelectLatest(entries: seq<Entry>, today: int): (r: Option<int>)
    ensures r.None? <==> forall i :: 0 <= i < |entries| ==> !IsEligible(entries[i], today)
    ensures r.Some? ==> IsSelected(entries, today, r.value)
  {
    var eligible := EligibleEntries(entries, today);
    if eligible == [] then
      assert forall i :: 0 <= i < |entries| && IsEligible(entries[i], today) ==> i in eligible;
      None
    else
      EligibleInBounds(entries, today);
      FirstMaxSelected(entries, today);
      Some(eligible[FirstMax(entries, eligible)])
  }

  lemma EligibleInBounds(entries: seq<Entry>, today: int)
    ensures InBounds(EligibleEntries(entries, today), |entries|)
  {
  }

  lemma FirstMaxSelected(entries: seq<Entry>, today: int)
    requires EligibleEntries(entries, today) != [] && InBounds(EligibleEntries(entries, today), |entries|)
    ensures var eligible := EligibleEntries(entries, today);
            IsSelected(entries, today, eligible[FirstMax(entries, eligible)])
  {
    hide EligibleEntries, FirstMax, IsEligible;
    var eligible := EligibleEntries(entries, today);
    var p := FirstMax(entries, eligible);
    assert eligible[p] in eligible;
    forall i | 0 <= i < |entries| && IsEligible(entries[i], today)
      ensures entries[i].cutoff <= entries[eligible[p]].cutoff
      ensures i < eligible[p] ==> entries[i].cutoff < entries[eligible[p]].cutoff
    {
      assert i in eligible;
      var a :| 0 <= a < |eligible| && eligible[a] == i;
      if i < eligible[p] {
        assert a < p;
      }
    }
  }

  /** The first entry with the maximal cutoff among exactly the eligible ones. */
  ghost predicate IsSelected(entries: seq<Entry>, today: int, best: int) {
    && 0 <= best < |entries| && IsEligible(entries[best], today)
    && forall i :: 0 <= i < |entries| && IsEligible(entries[i], today) ==>
         && entries[i].cutoff <= entries[best].cutoff
         && (i < best ==> entries[i].cutoff < entries[best].cutoff)
  }

  /** The chosen cutoff never decreases as today advances or as entries are added, anywhere in the list. */
  lemma SelectionMonotone(entries: seq<Entry>, more: seq<Entry>, today: int, later: int)
    requires today <= later && forall e :: e in entries ==> e in more
    requires SelectLatest(entries, today).Some?
    ensures SelectLatest(more, later).Some?
    ensures entries[SelectLatest(entries, today).value].cutoff <= more[SelectLatest(more, later).value].cutoff
  {
    var e := entries[SelectLatest(entries, today).value];
    assert e in more;
    var j :| 0 <= j < |more| && more[j] == e;
    assert IsEligible(more[j], later);
  }
}
