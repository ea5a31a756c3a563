/**
 * Session lookups of market_calendar.py. The exchange dataset is a parameter: `schedule`
 * gives the bounds of a day's session, or None. Dates are day numbers in the calendar's
 * own zone, instants are minutes on that zone's clock.
 */
module MarketCalendar {
  import opened Wrappers
  import opened Combinations
  import Extrema

  const MINUTES_PER_DAY := 1440

  datatype Bounds = Bounds(open: int, close: int)

  datatype CalendarError = NoSession

  type Schedule = int -> Option<Bounds>

  /** `session_bounds(day) is not None`. */
  predicate IsSession(schedule: Schedule, d: int) {
    schedule(d).Some?
  }

  /** `AlwaysOpenSessionCalendar.session_bounds`: every day is a session, midnight to midnight. */
  function AlwaysOpen(d: int): Option<Bounds> {
    Some(Bounds(d * MINUTES_PER_DAY, (d + 1) * MINUTES_PER_DAY))
  }

  /** Every instant lies in exactly one always-open session, that of its own day. */
  lemma AlwaysOpenTiles(d: int, now: int)
    ensures AlwaysOpen(d).Some?
    ensures AlwaysOpen(d).value.open <= now < AlwaysOpen(d).value.close <==> DateOf(now) == d
  {
  }

  // ---------------------------------------------------------------- range queries

  /** `sessions_between`: the sessions in [start, end], in order. */
  function SessionsBetween(schedule: Schedule, start: int, end: int): (days: seq<int>)
    ensures Increasing(days)
    ensures forall d :: d in days <==> start <= d <= end && IsSession(schedule, d)
    decreases end - start
  {
    if start > end then []
    else
      var init := SessionsBetween(schedule, start, end - 1);
      if IsSession(schedule, end) then
        IncreasingAppend(init, end);
        init + [end]
      else init
  }

  /** s is the latest session in [start, end]. */
  ghost predicate IsLatest(schedule: Schedule, start: int, end: int, s: int) {
    && start <= s <= end && IsSession(schedule, s)
    && forall d :: s < d <= end ==> !IsSession(schedule, d)
  }

  ghost predicate NoneBetween(schedule: Schedule, start: int, end: int) {
    forall d :: start <= d <= end ==> !IsSession(schedule, d)
  }

  /** r is the latest session in [start, end], or an error when there is none. */
  ghost predicate LatestOf(schedule: Schedule, start: int, end: int, r: Result<int, CalendarError>) {
    match r
    case Ok(s) => IsLatest(schedule, start, end, s)
    case Err(_) => NoneBetween(schedule, start, end)
  }

  /** At most one result is the latest; a shorter window gives the same one whenever it has any. */
  lemma LatestDetermined(schedule: Schedule, a: int, b: int, end: int,
                         r: Result<int, CalendarError>, q: Result<int, CalendarError>)
    requires a <= b && LatestOf(schedule, a, end, r) && LatestOf(schedule, b, end, q)
    ensures q.Ok? || a == b ==> r == q
  {
    if r.Ok? && q.Ok? {
      assert !(r.value < q.value) && !(q.value < r.value);
    } else if r.Err? && q.Err? {
      assert r.error.NoSession? && q.error.NoSession?;
    }
  }

  lemma LastIsLatest(schedule: Schedule, start: int, end: int)
    ensures var days := SessionsBetween(schedule, start, end);
            LatestOf(schedule, start, end, if days == [] then Err(NoSession) else Ok(days[|days| - 1]))
  {
    var days := SessionsBetween(schedule, start, end);
    hide SessionsBetween;
    if days != [] {
      Extrema.LastIsGreatest(days);
      assert days[|days| - 1] in days;
    }
  }

  /** `previous_session`: the last of the sessions in the lookback window. */
  function PreviousSession(schedule: Schedule, day: int, lookback: int): (r: Result<int, CalendarError>)
    ensures LatestOf(schedule, day - lookback, day - 1, r)
  {
    var days := SessionsBetween(schedule, day - lookback, day - 1);
    LastIsLatest(schedule, day - lookback, day - 1);
    if |days| == 0 then Err(NoSession) else Ok(days[|days| - 1])
  }

  /** `previous_session` in always-open mode: the day before, whatever the lookback. */
  function PreviousAlwaysOpen(day: int): Result<int, CalendarError> {
    Ok(day - 1)
  }

  // ---------------------------------------------------------------- the cached calendar

  /** `NyseSessionCalendar`: one backend query per day, then the cache. */
  class NyseSessionCalendar {
    const schedule: Schedule
    var cache: map<int, Option<Bounds>>
    ghost var asked: seq<int>

    /** The cache holds what the backend said, and no day was asked twice. */
    ghost predicate Valid()
      reads this
    {
      && (forall d :: d in cache ==> cache[d] == schedule(d))
      && Distinct(asked)
      && forall d :: d in cache <==> d in asked
    }

    constructor (schedule: Schedule)
      ensures Valid() && this.schedule == schedule && cache == map[]
    {
      this.schedule := schedule;
      cache := map[];
      asked := [];
    }

    method SessionBounds(day: int) returns (bounds: Option<Bounds>)
      requires Valid()
      modifies this
      ensures Valid() && bounds == schedule(day)
      ensures cache == old(cache)[day := bounds]
      ensures asked == if day in old(cache) then old(asked) else old(asked) + [day]
    {
      if day in cache {
        return cache[day];
      }
      bounds := schedule(day);
      assert day !in asked;
      DistinctAppend(asked, [day]);
      cache := cache[day := bounds];
      asked := asked + [day];
    }

    /** `previous_session_from_calendar`: the day walk. */
    method PreviousSessionByWalk(day: int, maxLookback: int) returns (r: Result<int, CalendarError>)
      requires Valid()
      modifies this
      ensures Valid()
      ensures r == PreviousSession(schedule, day, maxLookback)
    {
      var probe := day;
      var steps := 0;
      while steps < maxLookback
        invariant Valid() && 0 <= steps && (steps <= maxLookback || maxLookback < 0)
        invariant probe == day - steps
        invariant NoneBetween(schedule, probe, day - 1)
      {
        probe := probe - 1;
        var bounds := SessionBounds(probe);
        if bounds.Some? {
          r := Ok(probe);
          LatestDetermined(schedule, day - maxLookback, day - maxLookback, day - 1,
                           r, PreviousSession(schedule, day, maxLookback));
          return;
        }
        steps := steps + 1;
      }
      r := Err(NoSession);
      LatestDetermined(schedule, day - maxLookback, day - maxLookback, day - 1,
                       r, PreviousSession(schedule, day, maxLookback));
    }
  }

  /** Always-open mode agrees with the day walk over an always-open calendar only for a positive lookback. */
  lemma AlwaysOpenAgreesIff(day: int, lookback: int)
    ensures PreviousAlwaysOpen(day) == PreviousSession(AlwaysOpen, day, lookback) <==> lookback >= 1
  {
  }

  // ---------------------------------------------------------------- session keys

  /** `sessions.searchsorted(x, side="right")`: where x would go after its equals. */
  function SearchRight(sessions: seq<int>, x: int): (r: nat)
    requires Increasing(sessions)
    ensures r <= |sessions|
    ensures forall i :: 0 <= i < r ==> sessions[i] <= x
    ensures forall i :: r <= i < |sessions| ==> x < sessions[i]
  {
    if sessions == [] then 0
    else if sessions[|sessions| - 1] <= x then |sessions|
    else SearchRight(sessions[..|sessions| - 1], x)
  }

  /** The last of the sessions at or before x. */
  function KeyIn(sessions: seq<int>, x: int): Result<int, CalendarError>
    requires Increasing(sessions)
  {
    var idx := SearchRight(sessions, x) - 1;
    if idx < 0 then Err(NoSession) else Ok(sessions[idx])
  }

  /** `session_key` with its own window. */
  function SessionKey(schedule: Schedule, day: int, lookback: int): Result<int, CalendarError> {
    KeyIn(SessionsBetween(schedule, day - lookback, day), day)
  }

  lemma SearchSplits(days: seq<int>, x: int)
    requires Increasing(days)
    ensures var r := SearchRight(days, x);
            forall d :: d in days && d <= x ==> r > 0 && d <= days[r - 1]
  {
    var r := SearchRight(days, x);
    hide SearchRight;
    forall d | d in days && d <= x
      ensures r > 0 && d <= days[r - 1]
    {
      var i :| 0 <= i < |days| && days[i] == d;
    }
  }

  lemma KeyIsLatest(schedule: Schedule, start: int, end: int, x: int)
    requires x <= end
    ensures LatestOf(schedule, start, x, KeyIn(SessionsBetween(schedule, start, end), x))
  {
    var days := SessionsBetween(schedule, start, end);
    SearchSplits(days, x);
    hide SessionsBetween, SearchRight;
    var r := SearchRight(days, x);
    if r > 0 {
      assert days[r - 1] in days;
    }
  }

  /** A session is its own key; any other day has its previous session's. */
  lemma KeyIsDayOrPrevious(schedule: Schedule, day: int, lookback: int)
    ensures SessionKey(schedule, day, lookback) ==
            if lookback >= 0 && IsSession(schedule, day) then Ok(day) else PreviousSession(schedule, day, lookback)
  {
  }

  /** A key is its own key. */
  lemma KeyIdempotent(schedule: Schedule, day: int, lookback: int)
    requires SessionKey(schedule, day, lookback).Ok?
    ensures SessionKey(schedule, SessionKey(schedule, day, lookback).value, lookback) ==
            SessionKey(schedule, day, lookback)
  {
  }

  /** Keys never go backwards. */
  lemma KeyMonotone(schedule: Schedule, a: int, b: int, lookback: int)
    requires a <= b && SessionKey(schedule, a, lookback).Ok? && SessionKey(schedule, b, lookback).Ok?
    ensures SessionKey(schedule, a, lookback).value <= SessionKey(schedule, b, lookback).value
  {
    KeyIsLatest(schedule, a - lookback, a, a);
    KeyIsLatest(schedule, b - lookback, b, b);
    hide SessionsBetween, SearchRight, KeyIn;
    var s, t := SessionKey(schedule, a, lookback).value, SessionKey(schedule, b, lookback).value;
    assert t < s ==> !IsSession(schedule, s);
  }

  function KeysIn(sessions: seq<int>, dates: seq<int>): (r: Result<seq<int>, CalendarError>)
    requires Increasing(sessions)
    ensures r.Ok? <==> forall i :: 0 <= i < |dates| ==> KeyIn(sessions, dates[i]).Ok?
    ensures r.Ok? ==>
              |r.value| == |dates| && forall i :: 0 <= i < |dates| ==> Ok(r.value[i]) == KeyIn(sessions, dates[i])
  {
    if dates == [] then Ok([])
    else
      var n := |dates| - 1;
      assert forall i :: 0 <= i < n ==> dates[..n][i] == dates[i];
      match (KeysIn(sessions, dates[..n]), KeyIn(sessions, dates[n]))
      case (Ok(init), Ok(last)) => Ok(init + [last])
      case _ => Err(NoSession)
  }

  /** `session_keys`: one window for all dates. */
  function SessionKeys(schedule: Schedule, dates: seq<int>, lookback: int): Result<seq<int>, CalendarError> {
    if dates == [] then Ok([])
    else KeysIn(SessionsBetween(schedule, Extrema.Least(dates) - lookback, Extrema.Greatest(dates)), dates)
  }

  /** Over the shared window, a date's key is its own one whenever the scalar form has any. */
  lemma WiderWindowKey(schedule: Schedule, start: int, end: int, day: int, lookback: int)
    requires start <= day - lookback && day <= end
    ensures SessionKey(schedule, day, lookback).Ok? || start == day - lookback ==>
              KeyIn(SessionsBetween(schedule, start, end), day) == SessionKey(schedule, day, lookback)
  {
    KeyIsLatest(schedule, start, end, day);
    KeyIsLatest(schedule, day - lookback, day, day);
    hide SessionsBetween, SearchRight, KeyIn;
    LatestDetermined(schedule, start, day - lookback, day,
                     KeyIn(SessionsBetween(schedule, start, end), day), SessionKey(schedule, day, lookback));
  }

  /** Once the earliest date has a key in a window, every later date has one too. */
  lemma LaterDatesHaveKeys(sessions: seq<int>, lo: int, x: int)
    requires Increasing(sessions) && lo <= x && KeyIn(sessions, lo).Ok?
    ensures KeyIn(sessions, x).Ok?
  {
  }

  /**
   * The vectorised form succeeds exactly when the scalar form succeeds on the earliest
   * date, and wherever the scalar form succeeds the two agree.
   */
  lemma SessionKeysAgree(schedule: Schedule, dates: seq<int>, lookback: int)
    requires dates != []
    ensures SessionKeys(schedule, dates, lookback).Ok? <==> SessionKey(schedule, Extrema.Least(dates), lookback).Ok?
    ensures SessionKeys(schedule, dates, lookback).Ok? ==>
              |SessionKeys(schedule, dates, lookback).value| == |dates|
    ensures SessionKeys(schedule, dates, lookback).Ok? ==>
              forall i :: 0 <= i < |dates| && SessionKey(schedule, dates[i], lookback).Ok? ==>
                SessionKey(schedule, dates[i], lookback) == Ok(SessionKeys(schedule, dates, lookback).value[i])
  {
    hide SessionsBetween, SearchRight, Extrema.Least, Extrema.Greatest, KeyIn, SessionKey, KeysIn;
    var lo, hi := Extrema.Least(dates), Extrema.Greatest(dates);
    var days := SessionsBetween(schedule, lo - lookback, hi);
    WiderWindowKey(schedule, lo - lookback, hi, lo, lookback);
    var first :| 0 <= first < |dates| && dates[first] == lo;
    forall i | 0 <= i < |dates|
      ensures KeyIn(days, lo).Ok? ==> KeyIn(days, dates[i]).Ok?
      ensures SessionKey(schedule, dates[i], lookback).Ok? ==>
                KeyIn(days, dates[i]) == SessionKey(schedule, dates[i], lookback)
    {
      assert dates[i] in dates;
      WiderWindowKey(schedule, lo - lookback, hi, dates[i], lookback);
      if KeyIn(days, lo).Ok? {
        LaterDatesHaveKeys(days, lo, dates[i]);
      }
    }
  }

  // ---------------------------------------------------------------- completed sessions

  function DateOf(now: int): (d: int)
    ensures d * 1440 <= now < (d + 1) * 1440
  {
    now / MINUTES_PER_DAY
  }

  /**
   * `last_completed_session`: `now` is the instant on the calendar's own clock, and `offset`
   * is how far the clock of the given timestamp is ahead of it; a naive timestamp has none.
   * The timestamp's own date is looked up, and instants are compared.
   */
  function LastCompleted(schedule: Schedule, now: int, offset: int, lookback: int): Result<int, CalendarError> {
    var today := DateOf(now + offset);
    var sched := SessionsBetween(schedule, today - lookback, today);
    var before := SessionsBetween(schedule, today - lookback, today - 1);
    if today in sched && schedule(today).Some? && now >= schedule(today).value.close then Ok(today)
    else if before != [] then Ok(before[|before| - 1])
    else Err(NoSession)
  }

  /** Sessions close on their own day, at midnight at the latest. */
  ghost predicate ClosesByMidnight(schedule: Schedule) {
    forall d :: IsSession(schedule, d) ==>
      d * MINUTES_PER_DAY <= schedule(d).value.close <= (d + 1) * MINUTES_PER_DAY
  }

  predicate Completed(schedule: Schedule, d: int, now: int) {
    IsSession(schedule, d) && schedule(d).value.close <= now
  }

  /** `last_completed_session` in always-open mode. */
  function LastCompletedAlwaysOpen(now: int): Result<int, CalendarError> {
    Ok(DateOf(now) - 1)
  }

  /** The latest completed day of [start, end], or an error when there is none. */
  ghost predicate IsLatestCompleted(schedule: Schedule, start: int, end: int, now: int, r: Result<int, CalendarError>) {
    match r
    case Ok(s) =>
      start <= s <= end && Completed(schedule, s, now) && forall d :: s < d <= end ==> !Completed(schedule, d, now)
    case Err(_) => forall d :: start <= d <= end ==> !Completed(schedule, d, now)
  }

  /** A session of a day before one that has begun is over. */
  lemma EarlierHasClosed(schedule: Schedule, s: int, day: int, now: int)
    requires ClosesByMidnight(schedule) && IsSession(schedule, s)
    requires s < day && day * MINUTES_PER_DAY <= now
    ensures Completed(schedule, s, now)
  {
  }

  lemma DayHasBegun(now: int)
    ensures DateOf(now) * MINUTES_PER_DAY <= now
  {
  }

  /** Before a completed session every session is completed. */
  lemma EarlierThanCompleted(schedule: Schedule, s: int, day: int, now: int)
    requires ClosesByMidnight(schedule) && Completed(schedule, day, now) && IsSession(schedule, s) && s < day
    ensures Completed(schedule, s, now)
  {
    EarlierHasClosed(schedule, s, day, now);
  }

  /** Sessions of the window before the looked-up date that are not over. */
  ghost predicate NoneOpenBefore(schedule: Schedule, start: int, today: int, now: int) {
    forall d :: start <= d < today && IsSession(schedule, d) ==> Completed(schedule, d, now)
  }

  /** No session after the looked-up date is over. */
  ghost predicate NoneCompletedAfter(schedule: Schedule, start: int, today: int, end: int, now: int) {
    forall d :: start <= d <= end && today < d ==> !Completed(schedule, d, now)
  }

  lemma LastCompletedUnfolds(schedule: Schedule, now: int, offset: int, lookback: int)
    ensures var today := DateOf(now + offset);
            var r := LastCompleted(schedule, now, offset, lookback);
            if lookback >= 0 && Completed(schedule, today, now) then r == Ok(today)
            else LatestOf(schedule, today - lookback, today - 1, r)
  {
    var today := DateOf(now + offset);
    LastIsLatest(schedule, today - lookback, today - 1);
    hide LatestOf, DateOf;
  }

  /** With today completed the earlier sessions are over, so only later ones can be missed. */
  lemma TodayIsLatest(schedule: Schedule, start: int, today: int, end: int, now: int)
    requires ClosesByMidnight(schedule) && Completed(schedule, today, now) && start <= today <= end
    ensures NoneOpenBefore(schedule, start, today, now)
    ensures IsLatestCompleted(schedule, start, end, now, Ok(today)) <==>
              NoneCompletedAfter(schedule, start, today, end, now)
  {
    forall d | start <= d < today && IsSession(schedule, d)
      ensures Completed(schedule, d, now)
    {
      EarlierThanCompleted(schedule, d, today, now);
    }
    hide ClosesByMidnight, Completed;
  }

  /** Otherwise the latest earlier session is the latest completed one if none of them is still open. */
  lemma BeforeIsLatest(schedule: Schedule, start: int, today: int, end: int, now: int, r: Result<int, CalendarError>)
    requires ClosesByMidnight(schedule) && today <= end && LatestOf(schedule, start, today - 1, r)
    requires start <= today ==> !Completed(schedule, today, now)
    ensures IsLatestCompleted(schedule, start, end, now, r) <==>
              NoneOpenBefore(schedule, start, today, now) && NoneCompletedAfter(schedule, start, today, end, now)
  {
    if r.Ok? && Completed(schedule, r.value, now) {
      forall d | start <= d < today && IsSession(schedule, d)
        ensures Completed(schedule, d, now)
      {
        if d < r.value {
          EarlierThanCompleted(schedule, d, r.value, now);
        }
      }
    }
    assert forall d :: Completed(schedule, d, now) ==> IsSession(schedule, d);
    hide ClosesByMidnight, Completed;
  }

  /**
   * The documented "most recent completed session" for a timestamp of any zone, exactly:
   * up to the later of the two dates the result is the latest session that is over (and an
   * error means there is none) if and only if no session of the window before the
   * timestamp's own date is still to end, and none after that date has ended.
   */
  lemma LastCompletedIff(schedule: Schedule, now: int, offset: int, lookback: int)
    requires ClosesByMidnight(schedule)
    ensures var today := DateOf(now + offset);
            var end := if today < DateOf(now) then DateOf(now) else today;
            IsLatestCompleted(schedule, today - lookback, end, now, LastCompleted(schedule, now, offset, lookback)) <==>
              && NoneOpenBefore(schedule, today - lookback, today, now)
              && NoneCompletedAfter(schedule, today - lookback, today, end, now)
  {
    hide DateOf, LastCompleted, ClosesByMidnight, Completed, LatestOf, IsLatestCompleted, NoneOpenBefore,
      NoneCompletedAfter;
    var today := DateOf(now + offset);
    var end := if today < DateOf(now) then DateOf(now) else today;
    LastCompletedUnfolds(schedule, now, offset, lookback);
    if lookback >= 0 && Completed(schedule, today, now) {
      TodayIsLatest(schedule, today - lookback, today, end, now);
    } else {
      BeforeIsLatest(schedule, today - lookback, today, end, now, LastCompleted(schedule, now, offset, lookback));
    }
  }

  /** A session the result names is over, exactly when no session before the timestamp's own date is still to end. */
  lemma ResultHasClosedIff(schedule: Schedule, now: int, offset: int, lookback: int)
    requires ClosesByMidnight(schedule) && LastCompleted(schedule, now, offset, lookback).Ok?
    ensures Completed(schedule, LastCompleted(schedule, now, offset, lookback).value, now) <==>
              NoneOpenBefore(schedule, DateOf(now + offset) - lookback, DateOf(now + offset), now)
  {
    var today := DateOf(now + offset);
    var r := LastCompleted(schedule, now, offset, lookback);
    LastCompletedUnfolds(schedule, now, offset, lookback);
    hide DateOf, LastCompleted, ClosesByMidnight, Completed;
    if lookback >= 0 && Completed(schedule, today, now) {
      TodayIsLatest(schedule, today - lookback, today, today, now);
    } else {
      BeforeIsLatest(schedule, today - lookback, today, today, now, r);
      assert NoneCompletedAfter(schedule, today - lookback, today, today, now);
      BeforeTodayOnly(schedule, today - lookback, today, now, r.value);
    }
  }

  /** Up to a date that is not completed, the latest earlier session is the latest completed one if it is over. */
  lemma BeforeTodayOnly(schedule: Schedule, start: int, today: int, now: int, s: int)
    requires IsLatest(schedule, start, today - 1, s) && !Completed(schedule, today, now)
    ensures IsLatestCompleted(schedule, start, today, now, Ok(s)) <==> Completed(schedule, s, now)
  {
  }

  /** On the calendar's own clock, as for a naive timestamp, it always is. */
  lemma LastCompletedIsLatestClosed(schedule: Schedule, now: int, lookback: int)
    requires ClosesByMidnight(schedule)
    ensures IsLatestCompleted(schedule, DateOf(now) - lookback, DateOf(now), now,
                              LastCompleted(schedule, now, 0, lookback))
  {
    hide DateOf, LastCompleted, ClosesByMidnight, Completed, IsLatestCompleted;
    DayHasBegun(now);
    var today := DateOf(now);
    forall d | today - lookback <= d < today && IsSession(schedule, d)
      ensures Completed(schedule, d, now)
    {
      EarlierHasClosed(schedule, d, today, now);
    }
    LastCompletedIff(schedule, now, 0, lookback);
  }

  /** Sessions from half past nine to four. */
  function DayTime(d: int): Option<Bounds> {
    Some(Bounds(d * MINUTES_PER_DAY + 570, d * MINUTES_PER_DAY + 960))
  }

  /** Noon on day 1, stamped one in the morning of day 2 by a clock 13 hours ahead: the open session is returned. */
  lemma AheadOfTheExchangeExample()
    ensures var now := 1 * MINUTES_PER_DAY + 720;
            LastCompleted(DayTime, now, 780, 14) == Ok(1) && !Completed(DayTime, 1, now)
  {
  }

  /** Always-open mode is the general form over an always-open schedule, for a positive lookback. */
  lemma AlwaysOpenCompletedIff(now: int, lookback: int)
    ensures LastCompletedAlwaysOpen(now) == LastCompleted(AlwaysOpen, now, 0, lookback) <==> lookback >= 1
  {
  }
}
