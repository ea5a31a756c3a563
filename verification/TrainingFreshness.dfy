/**
 * `assess_training_panel_freshness` in training_freshness.py: which panels pass the gate,
 * and what a pass promises to the folds. Dates are day numbers, tickers are numbered, and
 * a missing ticker cell is None.
 */
module TrainingFreshness {
  import opened Wrappers
  import Combinations
  import opened Extrema

  datatype Row = Row(date: int, ticker: Option<int>)

  /** The two columns the gate looks at; either may be absent from the frame. */
  datatype Panel = Panel(rows: seq<Row>, hasDate: bool, hasTicker: bool)

  /** Zero (or None) switches a floor off. */
  datatype Limits = Limits(
    required: int,
    minTickers: int,
    minRows: int,
    maxGap: Option<int>,
    maxStaleness: Option<int>,
    today: int)

  datatype Reason =
    | EmptyPanel
    | EndsShort
    | NothingInWindow
    | Stale
    | TooFewRows
    | ThinDays(count: nat)
    | NoTickerColumn
    | GapTooWide(days: int)

  datatype Verdict = Verdict(
    ok: bool,
    reasons: seq<Reason>,
    required: int,
    maxDate: Option<int>,
    minDate: Option<int>,
    nDays: nat,
    nRows: nat,
    nRowsInWindow: nat,
    minTickersObserved: Option<int>,
    maxGapObserved: Option<int>,
    nDaysBelow: nat)

  datatype AssessError = MissingDateColumn

  // ---------------------------------------------------------------- the panel

  function Dates(rows: seq<Row>): (dates: seq<int>)
    ensures |dates| == |rows| && forall i :: 0 <= i < |rows| ==> dates[i] == rows[i].date
  {
    seq(|rows|, i requires 0 <= i < |rows| => rows[i].date)
  }

  /** The distinct tickers of a day; missing cells do not count. */
  function TickersOn(rows: seq<Row>, day: int): (tickers: set<int>)
    ensures forall t :: t in tickers <==> exists i :: 0 <= i < |rows| && rows[i] == Row(day, Some(t))
  {
    if rows == [] then {}
    else
      var last := rows[|rows| - 1];
      TickersOn(rows[..|rows| - 1], day)
      + if last.date == day && last.ticker.Some? then {last.ticker.value} else {}
  }

  /** `groupby(date)[ticker].nunique()` for one day. */
  function TickerCount(rows: seq<Row>, day: int): nat {
    |TickersOn(rows, day)|
  }

  // ---------------------------------------------------------------- what the checks mean

  ghost predicate Reaches(dates: seq<int>, day: int) {
    exists d :: d in dates && day <= d
  }

  ghost predicate HasBefore(dates: seq<int>, day: int) {
    exists d :: d in dates && d < day
  }

  /** Every day before `required` has at least m distinct tickers. */
  ghost predicate DenseDays(rows: seq<Row>, required: int, m: int) {
    forall d :: d in Dates(rows) && d < required ==> m <= TickerCount(rows, d)
  }

  ghost predicate FollowedWithin(dates: seq<int>, d: int, g: int) {
    exists n :: n in dates && d < n <= d + g
  }

  /** A day before `required` that is not the last one has a successor within g days. */
  ghost predicate NoWideGap(dates: seq<int>, required: int, g: int) {
    forall d :: d in dates && d < required && Reaches(dates, d + 1) ==> FollowedWithin(dates, d, g)
  }

  /** All enabled checks hold. */
  ghost predicate Passes(panel: Panel, l: Limits) {
    var dates := Dates(panel.rows);
    && Reaches(dates, l.required) && HasBefore(dates, l.required)
    && (l.maxStaleness.Some? ==> Reaches(dates, l.today - l.maxStaleness.value))
    && (l.minRows != 0 ==> l.minRows <= |panel.rows|)
    && (l.minTickers != 0 ==> panel.hasTicker && DenseDays(panel.rows, l.required, l.minTickers))
    && (l.maxGap.Some? ==> NoWideGap(dates, l.required, l.maxGap.value))
  }

  // ---------------------------------------------------------------- sorted dates

  /** The window's days and, when there is one, the first day at or after `required`. */
  function GapDates(unique: seq<int>, required: int): (r: seq<int>) {
    var k := CountLess(unique, required);
    if k < |unique| then unique[..k + 1] else unique
  }

  function Step(u: seq<int>, i: int): int
    requires 0 <= i < |u| - 1
  {
    u[i + 1] - u[i]
  }

  /** `diff().max()`. */
  function LargestStep(u: seq<int>): int
    requires |u| >= 2
  {
    var n := |u| - 1;
    var last := Step(u, n - 1);
    if n == 1 then last
    else
      var g := LargestStep(u[..n]);
      if g < last then last else g
  }

  lemma {:induction false} LargestStepIsMax(u: seq<int>)
    requires |u| >= 2
    ensures forall i :: 0 <= i < |u| - 1 ==> Step(u, i) <= LargestStep(u)
    ensures exists i :: 0 <= i < |u| - 1 && Step(u, i) == LargestStep(u)
  {
    var n := |u| - 1;
    if n > 1 {
      LargestStepIsMax(u[..n]);
      assert forall j :: 0 <= j < n - 1 ==> Step(u[..n], j) == Step(u, j);
      assert LargestStep(u) == LargestStep(u[..n]) || Step(u, n - 1) == LargestStep(u);
    } else {
      assert Step(u, 0) == LargestStep(u);
    }
  }

  // ---------------------------------------------------------------- the gate

  function When(b: bool, reason: Reason): seq<Reason> {
    if b then [reason] else []
  }

  /** What each check appends, in the order it is made. */
  ghost function Breaches(panel: Panel, l: Limits): seq<Reason> {
    if panel.rows == [] then [EmptyPanel]
    else CoverageBreach(panel, l) + TickerBreach(panel, l) + GapBreach(Dates(panel.rows), l)
  }

  ghost function CoverageBreach(panel: Panel, l: Limits): seq<Reason> {
    var dates := Dates(panel.rows);
    When(!Reaches(dates, l.required), EndsShort)
    + When(!HasBefore(dates, l.required), NothingInWindow)
    + When(l.maxStaleness.Some? && !Reaches(dates, l.today - l.maxStaleness.value), Stale)
    + When(l.minRows != 0 && |panel.rows| < l.minRows, TooFewRows)
  }

  ghost function TickerBreach(panel: Panel, l: Limits): seq<Reason> {
    if l.minTickers == 0 then []
    else if !panel.hasTicker then [NoTickerColumn]
    else if DenseDays(panel.rows, l.required, l.minTickers) then []
    else [ThinDays(ThinDayCount(panel, l))]
  }

  ghost function GapBreach(dates: seq<int>, l: Limits): seq<Reason> {
    if l.maxGap.None? || NoWideGap(dates, l.required, l.maxGap.value) then []
    else [GapTooWide(WidestGap(dates, l.required))]
  }

  function WindowDays(dates: seq<int>, required: int): seq<int> {
    var unique := SortedDistinct(dates);
    unique[..CountLess(unique, required)]
  }

  function DayCounts(rows: seq<Row>, days: seq<int>): (r: seq<int>)
    ensures |r| == |days| && forall i :: 0 <= i < |days| ==> r[i] == TickerCount(rows, days[i])
  {
    seq(|days|, i requires 0 <= i < |days| => TickerCount(rows, days[i]))
  }

  function ThinDayCount(panel: Panel, l: Limits): nat {
    CountLess(DayCounts(panel.rows, WindowDays(Dates(panel.rows), l.required)), l.minTickers)
  }

  function WidestGap(dates: seq<int>, required: int): int {
    var days := GapDates(SortedDistinct(dates), required);
    if |days| >= 2 then LargestStep(days) else 0
  }

  /** The per-day floor looks at the window only when it is enabled and can be checked. */
  predicate TickersChecked(panel: Panel, l: Limits) {
    l.minTickers != 0 && panel.hasTicker && CountLess(Dates(panel.rows), l.required) > 0
  }

  /** Sections 1, 2 and 3a: coverage, recency and the row floor. */
  method CheckCoverage(panel: Panel, l: Limits) returns (reasons: seq<Reason>)
    requires panel.rows != []
    ensures reasons == CoverageBreach(panel, l)
  {
    var dates := Dates(panel.rows);
    EndChecks(dates, l.required);
    if l.maxStaleness.Some? {
      EndChecks(dates, l.today - l.maxStaleness.value);
    }
    hide Reaches, HasBefore, CountLess, Greatest;
    var maxDate := Greatest(dates);
    reasons := [];
    if maxDate < l.required {
      reasons := reasons + [EndsShort];
    }
    if CountLess(dates, l.required) == 0 {
      reasons := reasons + [NothingInWindow];
    }
    if l.maxStaleness.Some? {
      if maxDate < l.today - l.maxStaleness.value {
        reasons := reasons + [Stale];
      }
    }
    if l.minRows != 0 && |panel.rows| < l.minRows {
      reasons := reasons + [TooFewRows];
    }
  }

  /** Section 3b: the per-day ticker floor. */
  method CheckTickers(panel: Panel, l: Limits) returns (reasons: seq<Reason>, observed: Option<int>, below: nat)
    ensures reasons == TickerBreach(panel, l)
    ensures below == if TickersChecked(panel, l) then ThinDayCount(panel, l) else 0
    ensures observed.Some? <==> TickersChecked(panel, l)
    ensures observed.Some? ==>
              var counts := DayCounts(panel.rows, WindowDays(Dates(panel.rows), l.required));
              observed.value in counts && AllAtLeast(counts, observed.value)
  {
    TickerReasons(panel, l);
    var dates := Dates(panel.rows);
    hide TickerBreach, CountLess, Least, TickerCount, Dates, SortedDistinct;
    reasons, observed, below := [], None, 0;
    if l.minTickers != 0 && panel.hasTicker && CountLess(dates, l.required) > 0 {
      var perDay := DayCounts(panel.rows, WindowDays(dates, l.required));
      WindowNonEmpty(dates, l.required);
      observed := Some(Least(perDay));
      below := CountLess(perDay, l.minTickers);
      if below > 0 {
        reasons := reasons + [ThinDays(below)];
      }
    } else if l.minTickers != 0 && !panel.hasTicker {
      reasons := reasons + [NoTickerColumn];
    }
  }

  /** Section 3c: the widest step between window days, the first day past the window included. */
  method CheckGap(dates: seq<int>, l: Limits) returns (reasons: seq<Reason>, observed: Option<int>)
    ensures reasons == GapBreach(dates, l)
    ensures observed.Some? <==> l.maxGap.Some? && |GapDates(SortedDistinct(dates), l.required)| >= 2
    ensures observed.Some? ==> observed.value == WidestGap(dates, l.required)
  {
    GapReasons(dates, l);
    hide GapBreach, GapDates, SortedDistinct, LargestStep;
    reasons, observed := [], None;
    if l.maxGap.Some? {
      var days := GapDates(SortedDistinct(dates), l.required);
      if |days| >= 2 {
        observed := Some(LargestStep(days));
        if observed.value > l.maxGap.value {
          reasons := reasons + [GapTooWide(observed.value)];
        }
      }
    }
  }

  method Assess(panel: Panel, l: Limits) returns (r: Result<Verdict, AssessError>)
    ensures r.Err? <==> !panel.hasDate
    ensures r.Ok? ==>
              var v := r.value;
              && v.ok == (v.reasons == []) && v.reasons == Breaches(panel, l)
              && v.required == l.required && v.nRows == |panel.rows|
              && v.nRowsInWindow == CountLess(Dates(panel.rows), l.required)
              && v.nDays == |SortedDistinct(Dates(panel.rows))|
    ensures r.Ok? && panel.rows == [] ==> r.value.maxDate.None? && r.value.minDate.None?
    ensures r.Ok? && panel.rows != [] ==>
              && r.value.maxDate == Some(Greatest(Dates(panel.rows)))
              && r.value.minDate == Some(Least(Dates(panel.rows)))
    ensures r.Ok? ==>
              && r.value.nDaysBelow == (if TickersChecked(panel, l) then ThinDayCount(panel, l) else 0)
              && (r.value.minTickersObserved.Some? <==> TickersChecked(panel, l))
              && (r.value.minTickersObserved.Some? ==>
                    var counts := DayCounts(panel.rows, WindowDays(Dates(panel.rows), l.required));
                    r.value.minTickersObserved.value in counts && AllAtLeast(counts, r.value.minTickersObserved.value))
    ensures r.Ok? ==>
              && (r.value.maxGapObserved.Some? <==>
                    l.maxGap.Some? && |GapDates(SortedDistinct(Dates(panel.rows)), l.required)| >= 2)
              && (r.value.maxGapObserved.Some? ==>
                    r.value.maxGapObserved.value == WidestGap(Dates(panel.rows), l.required))
  {
    if !panel.hasDate {
      return Err(MissingDateColumn);
    }
    var dates := Dates(panel.rows);
    NoDates(l.required);
    if |panel.rows| == 0 {
      return Ok(Verdict(false, [EmptyPanel], l.required, None, None, 0, 0, 0, None, None, 0));
    }
    hide CoverageBreach, TickerBreach, GapBreach, Greatest, Least, CountLess, SortedDistinct, WidestGap,
      ThinDayCount, GapDates, WindowDays, DayCounts, AllAtLeast;
    var reasons := CheckCoverage(panel, l);
    var tickers, minTickers, below := CheckTickers(panel, l);
    reasons := reasons + tickers;
    var gaps, maxGap := CheckGap(dates, l);
    reasons := reasons + gaps;
    r := Ok(Verdict(|reasons| == 0, reasons, l.required, Some(Greatest(dates)), Some(Least(dates)),
                    |SortedDistinct(dates)|, |panel.rows|, CountLess(dates, l.required), minTickers, maxGap, below));
  }

  lemma NoDates(required: int)
    ensures Dates([]) == [] && CountLess([], required) == 0 && SortedDistinct([]) == []
    ensures GapDates([], required) == []
  {
  }

  /** The two end checks of the coverage and recency rules. */
  lemma EndChecks(dates: seq<int>, day: int)
    requires dates != []
    ensures Greatest(dates) < day <==> !Reaches(dates, day)
    ensures CountLess(dates, day) == 0 <==> !HasBefore(dates, day)
  {
  }

  lemma TickerReasons(panel: Panel, l: Limits)
    ensures TickerBreach(panel, l) ==
            if TickersChecked(panel, l) then
              if ThinDayCount(panel, l) > 0 then [ThinDays(ThinDayCount(panel, l))] else []
            else if l.minTickers != 0 && !panel.hasTicker then [NoTickerColumn]
            else []
  {
    TickerCheck(panel, l);
    hide ThinDayCount, DenseDays, CountLess;
  }

  lemma GapReasons(dates: seq<int>, l: Limits)
    ensures var days := GapDates(SortedDistinct(dates), l.required);
            GapBreach(dates, l) ==
              if l.maxGap.Some? && |days| >= 2 && LargestStep(days) > l.maxGap.value
              then [GapTooWide(LargestStep(days))] else []
  {
    if l.maxGap.Some? {
      GapCheck(dates, l.required, l.maxGap.value);
    }
    hide NoWideGap, GapDates, SortedDistinct, LargestStep;
  }

  lemma WindowMembers(dates: seq<int>, required: int, d: int)
    ensures d in WindowDays(dates, required) <==> d in dates && d < required
  {
    var unique := SortedDistinct(dates);
    var k := CountLess(unique, required);
    CountLessSplits(unique, required);
    hide SortedDistinct, CountLess;
    if d in dates && d < required {
      var i :| 0 <= i < |unique| && unique[i] == d;
      assert unique[..k][i] == d;
    }
    if d in unique[..k] {
      var i :| 0 <= i < k && unique[..k][i] == d;
      assert unique[i] == d && unique[i] in unique;
    }
  }

  lemma WindowNonEmpty(dates: seq<int>, required: int)
    requires CountLess(dates, required) > 0
    ensures WindowDays(dates, required) != []
  {
  }

  /** The ticker floor is breached exactly when a window day is thin. */
  lemma TickerCheck(panel: Panel, l: Limits)
    ensures ThinDayCount(panel, l) == 0 <==> DenseDays(panel.rows, l.required, l.minTickers)
    ensures CountLess(Dates(panel.rows), l.required) == 0 ==> DenseDays(panel.rows, l.required, l.minTickers)
  {
    var dates := Dates(panel.rows);
    var days := WindowDays(dates, l.required);
    var counts := DayCounts(panel.rows, days);
    hide CountLess, WindowDays, TickerCount, Dates;
    if AllAtLeast(counts, l.minTickers) {
      forall d | d in dates && d < l.required
        ensures l.minTickers <= TickerCount(panel.rows, d)
      {
        WindowMembers(dates, l.required, d);
        var i :| 0 <= i < |days| && days[i] == d;
        assert counts[i] in counts;
      }
    } else {
      var c :| c in counts && c < l.minTickers;
      var i :| 0 <= i < |counts| && counts[i] == c;
      WindowMembers(dates, l.required, days[i]);
    }
  }

  lemma GapDatesAt(unique: seq<int>, required: int)
    requires Combinations.Increasing(unique)
    ensures var days := GapDates(unique, required);
            && |days| <= |unique| && (forall i :: 0 <= i < |days| ==> days[i] == unique[i])
            && (forall i :: 0 <= i < |days| - 1 ==> unique[i] < required)
            && forall i :: 0 <= i < |unique| - 1 && unique[i] < required ==> i < |days| - 1
  {
    CountLessSplits(unique, required);
    hide CountLess;
  }

  lemma WideGapFound(dates: seq<int>, required: int, g: int, days: seq<int>, i: int)
    requires days == GapDates(SortedDistinct(dates), required)
    requires 0 <= i < |days| - 1 && Step(days, i) > g
    ensures !NoWideGap(dates, required, g)
  {
    var unique := SortedDistinct(dates);
    GapDatesAt(unique, required);
    WideStep(dates, unique, i, g);
    assert unique[i] in unique && unique[i + 1] in unique;
  }

  lemma SmallStepsSuffice(dates: seq<int>, required: int, g: int, days: seq<int>)
    requires days == GapDates(SortedDistinct(dates), required)
    requires forall i :: 0 <= i < |days| - 1 ==> Step(days, i) <= g
    ensures NoWideGap(dates, required, g)
  {
    var unique := SortedDistinct(dates);
    GapDatesAt(unique, required);
    hide SortedDistinct, Combinations.Increasing, CountLess;
    forall d | d in dates && d < required && Reaches(dates, d + 1)
      ensures FollowedWithin(dates, d, g)
    {
      NextDay(dates, unique, d);
      var i :| 0 <= i < |unique| - 1 && unique[i] == d && d < unique[i + 1];
      assert i < |days| - 1 && days[i] == unique[i];
      assert Step(days, i) <= g && days[i + 1] == unique[i + 1];
      assert unique[i + 1] in unique;
    }
  }

  /** The gap check is breached exactly when a window day has no successor in time. */
  lemma GapCheck(dates: seq<int>, required: int, g: int)
    ensures var days := GapDates(SortedDistinct(dates), required);
            |days| >= 2 && LargestStep(days) > g <==> !NoWideGap(dates, required, g)
  {
    var days := GapDates(SortedDistinct(dates), required);
    if |days| >= 2 {
      LargestStepIsMax(days);
    }
    hide SortedDistinct, GapDates, LargestStep, NoWideGap, Step;
    if |days| >= 2 && LargestStep(days) > g {
      var i :| 0 <= i < |days| - 1 && Step(days, i) == LargestStep(days);
      WideGapFound(dates, required, g, days, i);
    } else {
      SmallStepsSuffice(dates, required, g, days);
    }
  }

  /** No panel day lies inside a step. */
  lemma WideStep(dates: seq<int>, unique: seq<int>, i: int, g: int)
    requires Combinations.Increasing(unique) && (forall d :: d in unique <==> d in dates)
    requires 0 <= i < |unique| - 1 && Step(unique, i) > g
    ensures !FollowedWithin(dates, unique[i], g)
  {
  }

  /** A day that is not the last has a next one. */
  lemma NextDay(dates: seq<int>, unique: seq<int>, d: int)
    requires Combinations.Increasing(unique) && (forall d :: d in unique <==> d in dates)
    requires d in dates && Reaches(dates, d + 1)
    ensures exists i :: 0 <= i < |unique| - 1 && unique[i] == d && d < unique[i + 1]
  {
    assert d in unique;
    var i :| 0 <= i < |unique| && unique[i] == d;
    var later :| later in dates && d + 1 <= later;
    assert later in unique;
    var j :| 0 <= j < |unique| && unique[j] == later;
    assert i < j;
    assert unique[i] < unique[i + 1];
  }

  // ---------------------------------------------------------------- what a pass promises

  /** The verdict is ok exactly when the panel has rows and every enabled check holds. */
  lemma OkIffPasses(panel: Panel, l: Limits)
    ensures Breaches(panel, l) == [] <==> panel.rows != [] && Passes(panel, l)
  {
    var dates := Dates(panel.rows);
    if panel.rows != [] {
      assert CoverageBreach(panel, l) == [] <==>
             && Reaches(dates, l.required) && HasBefore(dates, l.required)
             && (l.maxStaleness.Some? ==> Reaches(dates, l.today - l.maxStaleness.value))
             && (l.minRows != 0 ==> l.minRows <= |panel.rows|) by {
        hide Reaches, HasBefore;
        assert |CoverageBreach(panel, l)| ==
               |When(!Reaches(dates, l.required), EndsShort)| + |When(!HasBefore(dates, l.required), NothingInWindow)|
               + |When(l.maxStaleness.Some? && !Reaches(dates, l.today - l.maxStaleness.value), Stale)|
               + |When(l.minRows != 0 && |panel.rows| < l.minRows, TooFewRows)|;
      }
      assert |Breaches(panel, l)| == |CoverageBreach(panel, l)| + |TickerBreach(panel, l)| + |GapBreach(dates, l)|;
      hide Breaches, CoverageBreach, Reaches, HasBefore, DenseDays, NoWideGap;
    }
  }

  function DaysBefore(dates: seq<int>, e: int): (r: seq<int>)
    ensures forall d :: d in r <==> d in dates && d < e
  {
    if dates == [] then []
    else
      var init, last := dates[..|dates| - 1], dates[|dates| - 1];
      assert last in dates && forall d :: d in dates <==> d == last || d in init;
      DaysBefore(init, e) + if last < e then [last] else []
  }

  function DaysAfter(dates: seq<int>, e: int): (r: seq<int>)
    ensures forall d :: d in r <==> d in dates && e < d
  {
    if dates == [] then []
    else
      var init, last := dates[..|dates| - 1], dates[|dates| - 1];
      assert last in dates && forall d :: d in dates <==> d == last || d in init;
      DaysAfter(init, e) + if e < last then [last] else []
  }

  /** Some panel day lies in [from, to). */
  ghost predicate HasWithin(dates: seq<int>, from: int, to: int) {
    exists d :: d in dates && from <= d < to
  }

  /** Every fold end after the panel's first day and up to `last` has data in the g days before it. */
  ghost predicate EveryFoldEndFresh(dates: seq<int>, last: int, g: int) {
    forall e :: HasBefore(dates, e) && e <= last ==> HasWithin(dates, e - g, e)
  }

  /**
   * The gap floor, exactly: with `first` the first panel day at or after `required`, it
   * holds if and only if every fold end up to `first` has data in the g days before it.
   */
  lemma GapFloorIffFresh(dates: seq<int>, required: int, first: int, g: int)
    requires first in dates && required <= first && forall d :: d in dates && required <= d ==> first <= d
    ensures NoWideGap(dates, required, g) <==> EveryFoldEndFresh(dates, first, g)
  {
    if NoWideGap(dates, required, g) {
      forall e | HasBefore(dates, e) && e <= first
        ensures HasWithin(dates, e - g, e)
      {
        FreshBefore(dates, required, first, g, e);
      }
    }
    if EveryFoldEndFresh(dates, first, g) {
      forall d | d in dates && d < required && Reaches(dates, d + 1)
        ensures FollowedWithin(dates, d, g)
      {
        assert first in DaysAfter(dates, d);
        var n := Least(DaysAfter(dates, d));
        assert n in DaysAfter(dates, d);
        assert HasBefore(dates, n) && n <= first;
        var x :| x in dates && n - g <= x < n;
        assert x <= d by {
          assert x > d ==> x in DaysAfter(dates, d);
        }
      }
    }
  }

  /** No panel day lies between the two. */
  ghost predicate Consecutive(dates: seq<int>, d: int, e: int) {
    d in dates && e in dates && d < e && forall x :: x in dates ==> x <= d || e <= x
  }

  /** The floor as documented: steps between consecutive days of the window. */
  ghost predicate WindowGapsOk(dates: seq<int>, required: int, g: int) {
    forall d, e :: Consecutive(dates, d, e) && e < required ==> e - d <= g
  }

  /** The step that leaves the window, if the panel goes on after it. */
  ghost predicate BoundaryGapOk(dates: seq<int>, required: int, g: int) {
    forall d, e :: Consecutive(dates, d, e) && d < required <= e ==> e - d <= g
  }

  /** The next panel day after d. */
  lemma NextAfter(dates: seq<int>, d: int) returns (n: int)
    requires d in dates && Reaches(dates, d + 1)
    ensures Consecutive(dates, d, n)
  {
    var later :| later in dates && d + 1 <= later;
    assert later in DaysAfter(dates, d);
    n := Least(DaysAfter(dates, d));
    assert n in DaysAfter(dates, d);
    forall x | x in dates
      ensures x <= d || n <= x
    {
      assert x > d ==> x in DaysAfter(dates, d);
    }
  }

  /**
   * The gap floor bounds the documented steps and one more: it holds if and only if the
   * steps inside the window are within g and so is the step that leaves it.
   */
  lemma GapFloorIffBoth(dates: seq<int>, required: int, g: int)
    ensures NoWideGap(dates, required, g) <==>
            WindowGapsOk(dates, required, g) && BoundaryGapOk(dates, required, g)
  {
    if NoWideGap(dates, required, g) {
      forall d, e | Consecutive(dates, d, e) && d < required
        ensures e - d <= g
      {
        assert Reaches(dates, d + 1);
        assert FollowedWithin(dates, d, g);
      }
    }
    if WindowGapsOk(dates, required, g) && BoundaryGapOk(dates, required, g) {
      forall d | d in dates && d < required && Reaches(dates, d + 1)
        ensures FollowedWithin(dates, d, g)
      {
        var n := NextAfter(dates, d);
        assert n - d <= g;
      }
    }
  }

  /** The documented floor passes and the gate refuses: only the step out of the window is wide. */
  lemma BoundaryGapExample()
    ensures WindowGapsOk([1, 2, 3, 20], 10, 5) && !NoWideGap([1, 2, 3, 20], 10, 5)
  {
    var dates := [1, 2, 3, 20];
    forall d, e | Consecutive(dates, d, e) && e < 10
      ensures e - d <= 5
    {
      assert 1 <= d && e <= 3;
    }
    assert 3 in dates && 20 in dates && Consecutive(dates, 3, 20);
    GapFloorIffBoth(dates, 10, 5);
  }

  lemma FreshBefore(dates: seq<int>, required: int, first: int, g: int, e: int)
    requires first in dates && required <= first && forall d :: d in dates && required <= d ==> first <= d
    requires NoWideGap(dates, required, g) && HasBefore(dates, e) && e <= first
    ensures HasWithin(dates, e - g, e)
  {
    var d0 :| d0 in dates && d0 < e;
    assert d0 in DaysBefore(dates, e);
    var d := Greatest(DaysBefore(dates, e));
    assert d in DaysBefore(dates, e);
    hide Greatest, DaysBefore;
    assert d < required && Reaches(dates, d + 1);
    assert FollowedWithin(dates, d, g);
    var n :| n in dates && d < n <= d + g;
    assert n >= e by {
      assert n < e ==> n in DaysBefore(dates, e);
    }
  }

  /** A passing panel has data within g days before every fold end the run needs. */
  lemma PassMeansFresh(panel: Panel, l: Limits, e: int)
    requires Passes(panel, l) && l.maxGap.Some? && panel.rows != []
    requires Least(Dates(panel.rows)) < e <= l.required
    ensures HasWithin(Dates(panel.rows), e - l.maxGap.value, e)
  {
    var dates := Dates(panel.rows);
    var d :| d in dates && l.required <= d;
    assert d in DaysAfter(dates, l.required - 1);
    var first := Least(DaysAfter(dates, l.required - 1));
    assert first in DaysAfter(dates, l.required - 1);
    forall x | x in dates && l.required <= x
      ensures first <= x
    {
      assert x in DaysAfter(dates, l.required - 1);
    }
    assert Least(dates) in dates && HasBefore(dates, e);
    FreshBefore(dates, l.required, first, l.maxGap.value, e);
  }

  // ---------------------------------------------------------------- counting rows

  function RowsOn(rows: seq<Row>, day: int): nat {
    if rows == [] then 0
    else RowsOn(rows[..|rows| - 1], day) + if rows[|rows| - 1].date == day then 1 else 0
  }

  function RowsOnDays(rows: seq<Row>, days: seq<int>): nat {
    if days == [] then 0 else RowsOnDays(rows, days[..|days| - 1]) + RowsOn(rows, days[|days| - 1])
  }

  lemma {:induction false} TickersNeedRows(rows: seq<Row>, day: int)
    ensures TickerCount(rows, day) <= RowsOn(rows, day)
  {
    if rows != [] {
      TickersNeedRows(rows[..|rows| - 1], day);
    }
  }

  lemma {:induction false} NoRows(days: seq<int>)
    ensures RowsOnDays([], days) == 0
  {
    if days != [] {
      NoRows(days[..|days| - 1]);
    }
  }

  /** One more row adds one to the total if its day is listed. */
  lemma {:induction false} RowAddsOnce(rows: seq<Row>, days: seq<int>)
    requires rows != [] && Combinations.Increasing(days)
    ensures var last := rows[|rows| - 1];
            RowsOnDays(rows, days) == RowsOnDays(rows[..|rows| - 1], days) + if last.date in days then 1 else 0
  {
    if days != [] {
      var init := days[..|days| - 1];
      RowAddsOnce(rows, init);
      var day := rows[|rows| - 1].date;
      BelowLast(days, init);
      assert day in days <==> day in init || day == days[|days| - 1];
    }
  }

  lemma {:induction false} WindowHoldsDays(rows: seq<Row>, days: seq<int>, required: int)
    requires Combinations.Increasing(days) && forall d :: d in days ==> d < required
    ensures RowsOnDays(rows, days) <= CountLess(Dates(rows), required)
  {
    if rows == [] {
      NoRows(days);
    } else {
      var init := rows[..|rows| - 1];
      WindowHoldsDays(init, days, required);
      RowAddsOnce(rows, days);
      assert Dates(rows)[..|rows| - 1] == Dates(init);
    }
  }

  lemma TimesSuccessor(m: int, k: int)
    ensures m * (k + 1) == m * k + m
  {
  }

  lemma {:induction false} DenseDaysHoldRows(rows: seq<Row>, days: seq<int>, m: int)
    requires forall i :: 0 <= i < |days| ==> m <= TickerCount(rows, days[i])
    ensures m * |days| <= RowsOnDays(rows, days)
  {
    if days != [] {
      var k := |days| - 1;
      DenseDaysHoldRows(rows, days[..k], m);
      TickersNeedRows(rows, days[k]);
      hide TickerCount, RowsOn;
      TimesSuccessor(m, k);
    }
  }

  /** A passing panel with ticker floor m has at least m rows for every distinct window day. */
  lemma PassMeansEnoughRows(panel: Panel, l: Limits)
    requires Passes(panel, l)
    ensures l.minTickers * |WindowDays(Dates(panel.rows), l.required)| <= CountLess(Dates(panel.rows), l.required)
  {
    var dates := Dates(panel.rows);
    var days := WindowDays(dates, l.required);
    if l.minTickers != 0 {
      forall i | 0 <= i < |days|
        ensures l.minTickers <= TickerCount(panel.rows, days[i])
      {
        assert days[i] in days;
        WindowMembers(dates, l.required, days[i]);
      }
      forall d | d in days
        ensures d < l.required
      {
        WindowMembers(dates, l.required, d);
      }
      DenseDaysHoldRows(panel.rows, days, l.minTickers);
      WindowHoldsDays(panel.rows, days, l.required);
    }
  }
}
