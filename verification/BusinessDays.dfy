/**
 * Business-day arithmetic as `pandas.offsets.BDay` does it: dates are day numbers since
 * 1970-01-01, a Thursday; business days are Monday to Friday.
 */
module BusinessDays {

  /** Monday is 0, Sunday is 6. */
  function Weekday(d: int): (w: int)
    ensures 0 <= w < 7
  {
    (d + 3) % 7
  }

  predicate IsBusinessDay(d: int) {
    Weekday(d) < 5
  }

  /** The first business day after d. */
  function NextBusinessDay(d: int): (r: int)
    ensures d < r && IsBusinessDay(r) && forall x :: d < x < r ==> !IsBusinessDay(x)
  {
    if Weekday(d) < 4 || Weekday(d) == 6 then d + 1
    else if Weekday(d) == 4 then d + 3
    else d + 2
  }

  /** The last business day before d. */
  function PreviousBusinessDay(d: int): (r: int)
    ensures r < d && IsBusinessDay(r) && forall x :: r < x < d ==> !IsBusinessDay(x)
  {
    if Weekday(d) == 0 then d - 3
    else if Weekday(d) == 6 then d - 2
    else d - 1
  }

  /** The n-th business day strictly after d; d itself for n == 0. */
  function After(d: int, n: nat): int {
    if n == 0 then d else NextBusinessDay(After(d, n - 1))
  }

  /** The n-th business day strictly before d; d itself for n == 0. */
  function Before(d: int, n: nat): int {
    if n == 0 then d else PreviousBusinessDay(Before(d, n - 1))
  }

  /** `date + BDay(n)`; a zero offset rolls a weekend forward. */
  function Offset(d: int, n: int): int {
    if n > 0 then After(d, n)
    else if n < 0 then Before(d, -n)
    else if IsBusinessDay(d) then d
    else NextBusinessDay(d)
  }

  // ---------------------------------------------------------------- what the offsets mean

  /** The number of business days in [a, b). */
  function CountBusinessDays(a: int, b: int): nat
    decreases b - a
  {
    if a >= b then 0 else CountBusinessDays(a, b - 1) + (if IsBusinessDay(b - 1) then 1 else 0)
  }

  lemma {:induction false} CountSplit(a: int, m: int, b: int)
    requires a <= m <= b
    ensures CountBusinessDays(a, b) == CountBusinessDays(a, m) + CountBusinessDays(m, b)
    decreases b - m
  {
    if m < b {
      CountSplit(a, m, b - 1);
    }
  }

  lemma {:induction false} CountNone(a: int, b: int)
    requires forall x :: a <= x < b ==> !IsBusinessDay(x)
    ensures CountBusinessDays(a, b) == 0
    decreases b - a
  {
    if a < b {
      CountNone(a, b - 1);
    }
  }

  /** An offset of n lands on the business day with exactly n business days in (d, r]. */
  lemma {:induction false} AfterCounts(d: int, n: nat)
    ensures d <= After(d, n) && (n > 0 ==> IsBusinessDay(After(d, n)))
    ensures CountBusinessDays(d + 1, After(d, n) + 1) == n
  {
    if n > 0 {
      AfterCounts(d, n - 1);
      var p, r := After(d, n - 1), After(d, n);
      hide Weekday, NextBusinessDay;
      CountSplit(d + 1, p + 1, r + 1);
      CountNone(p + 1, r);
    }
  }

  /** Likewise backwards, in [r, d). */
  lemma {:induction false} BeforeCounts(d: int, n: nat)
    ensures Before(d, n) <= d && (n > 0 ==> IsBusinessDay(Before(d, n)))
    ensures CountBusinessDays(Before(d, n), d) == n
  {
    if n > 0 {
      BeforeCounts(d, n - 1);
      var p, r := Before(d, n - 1), Before(d, n);
      hide Weekday, PreviousBusinessDay;
      CountSplit(r, p, d);
      CountSplit(r, r + 1, p);
      CountNone(r + 1, p);
      assert CountBusinessDays(r, r) == 0;
    }
  }

  /** Taking the first step first. */
  lemma {:induction false} AfterFirst(d: int, n: nat)
    requires n > 0
    ensures After(d, n) == After(NextBusinessDay(d), n - 1)
  {
    if n > 1 {
      AfterFirst(d, n - 1);
    }
  }

  /** One step forward and one step back are adjoint. */
  lemma StepAdjoint(d: int, v: int)
    ensures d < PreviousBusinessDay(v) <==> NextBusinessDay(d) < v
  {
  }

  /** The embargo and the label horizon are adjoint: d lies before v - e exactly when d + e lies before v. */
  lemma {:induction false} OffsetAdjoint(d: int, v: int, e: nat)
    ensures d < Before(v, e) <==> After(d, e) < v
    decreases e
  {
    if e > 0 {
      StepAdjoint(d, Before(v, e - 1));
      OffsetAdjoint(NextBusinessDay(d), v, e - 1);
      AfterFirst(d, e);
    }
  }

  lemma {:induction false} AfterMonotone(d: int, m: nat, n: nat)
    requires m <= n
    ensures After(d, m) <= After(d, n)
  {
    if m < n {
      AfterMonotone(d, m, n - 1);
    }
  }

  // ---------------------------------------------------------------- the closed form

  /** pandas: whole weeks first, then at most four more business days. */
  function ClosedForm(d: int, n: int): int {
    d + Span(Weekday(d), n)
  }

  /** The calendar days that n business days take from weekday w. */
  function Span(w: int, n: int): int {
    7 * (n / 5) + WithinWeek(w, n)
  }

  /** The days beyond whole weeks, from weekday w. */
  function WithinWeek(w: int, n: int): int {
    Days(w, (if n <= 0 && w > 4 then n + 1 else n) - 5 * (n / 5))
  }

  function Days(w: int, k: int): int {
    if k == 0 && w > 4 then 4 - w
    else if w > 4 then (7 - w) + (k - 1)
    else if w + k <= 4 then k
    else k + 2
  }

  lemma WeekdayShift(d: int, k: int)
    ensures Weekday(d + k) == (Weekday(d) + k) % 7
  {
  }

  lemma NextShift(d: int, k: int)
    ensures NextBusinessDay(d + k) == d + k + NextStep((Weekday(d) + k) % 7)
  {
    WeekdayShift(d, k);
  }

  function NextStep(w: int): int {
    if w < 4 || w == 6 then 1 else if w == 4 then 3 else 2
  }

  function PreviousStep(w: int): int {
    if w == 0 then 3 else if w == 6 then 2 else 1
  }

  lemma PreviousShift(d: int, k: int)
    ensures PreviousBusinessDay(d + k) == d + k - PreviousStep((Weekday(d) + k) % 7)
  {
    WeekdayShift(d, k);
  }

  /** The weeks-then-days closed form is the n-th business day. */
  lemma {:induction false} ClosedFormAfter(d: int, n: nat)
    requires n > 0
    ensures After(d, n) == ClosedForm(d, n)
  {
    if n == 1 {
      NextShift(d, 0);
      assert After(d, 1) == NextBusinessDay(After(d, 0));
    } else {
      ClosedFormAfter(d, n - 1);
      hide Weekday, NextBusinessDay, Span, NextStep;
      NextShift(d, Span(Weekday(d), n - 1));
      ForwardStep(Weekday(d), n - 1);
    }
  }

  lemma ForwardStep(w: int, n: nat)
    requires 0 <= w < 7 && n > 0
    ensures Span(w, n + 1) == Span(w, n) + NextStep((w + Span(w, n)) % 7)
  {
    var q, r := n / 5, n % 5;
    WholeWeeks(w, q, Days(w, r));
    assert (n + 1) / 5 == (if r == 4 then q + 1 else q);
    hide Days, NextStep;
    DaysStep(w, r);
  }

  lemma WholeWeeks(w: int, q: int, k: int)
    ensures (w + (7 * q + k)) % 7 == (w + k) % 7
  {
  }

  /** One more business day: the next slot of the week, or the first of the next. */
  lemma DaysStep(w: int, r: int)
    requires 0 <= w < 7 && 0 <= r < 5
    ensures Days(w, r) + NextStep((w + Days(w, r)) % 7) == if r == 4 then 7 + Days(w, 0) else Days(w, r + 1)
  {
  }

  lemma {:induction false} ClosedFormBefore(d: int, n: int)
    requires n < 0
    ensures Before(d, -n) == ClosedForm(d, n)
    decreases -n
  {
    if n == -1 {
      PreviousShift(d, 0);
      assert Before(d, 1) == PreviousBusinessDay(Before(d, 0));
    } else {
      ClosedFormBefore(d, n + 1);
      hide Weekday, PreviousBusinessDay, Span, PreviousStep;
      PreviousShift(d, Span(Weekday(d), n + 1));
      BackwardStep(Weekday(d), n + 1);
    }
  }

  lemma BackwardStep(w: int, n: int)
    requires 0 <= w < 7 && n < 0
    ensures Span(w, n - 1) == Span(w, n) - PreviousStep((w + Span(w, n)) % 7)
  {
    var q, r := n / 5, n % 5;
    var k := if w > 4 then r + 1 else r;
    WholeWeeks(w, q, Days(w, k));
    assert (n - 1) / 5 == (if r == 0 then q - 1 else q);
    hide Days, PreviousStep;
    DaysStepBack(w, k);
  }

  lemma DaysStepBack(w: int, k: int)
    requires 0 <= w < 7 && if w > 4 then 1 <= k <= 5 else 0 <= k < 5
    ensures Days(w, k) - PreviousStep((w + Days(w, k)) % 7) ==
            if w > 4 then (if k == 1 then Days(w, 5) - 7 else Days(w, k - 1))
            else (if k == 0 then Days(w, 4) - 7 else Days(w, k - 1))
  {
  }

  /** The closed form agrees with the definition for every date and every offset. */
  lemma ClosedFormCorrect(d: int, n: int)
    ensures Offset(d, n) == ClosedForm(d, n)
  {
    if n > 0 {
      ClosedFormAfter(d, n);
    } else if n < 0 {
      ClosedFormBefore(d, n);
    }
  }

  /** n business days span at least n calendar days and at most n plus a weekend per started week. */
  lemma AfterBounds(d: int, n: nat)
    requires n > 0
    ensures n <= After(d, n) - d <= n + 2 * ((n + 4) / 5)
  {
    ClosedFormAfter(d, n);
  }
}
