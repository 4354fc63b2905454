/**
 * Calendar arithmetic as JavaScript's `Date` performs it, with local time taken to be UTC.
 * An instant is a normalised civil date: a year, a 0-based month (as `getMonth` returns it),
 * a day of the month and a millisecond of the day. `setMonth` and `setDate` accept any
 * integer and let it overflow into the neighbouring months and years; `MakeDate` reproduces
 * that, and `MakeDateAgreesWithMakeDay` ties it to the day number of the MakeDay abstract
 * operation of the ECMAScript Language Specification. Instants are compared, as `<` compares
 * two `Date` objects, by their time value `Millis`.
 */
module CivilDate {

  const MS_PER_DAY: int := 86_400_000
  const MS_PER_MINUTE: int := 60_000
  /** 23:59:59.999 as a millisecond of the day. */
  const END_OF_DAY_MS: int := 86_399_999

  predicate IsLeap(y: int) {
    y % 4 == 0 && (y % 100 != 0 || y % 400 == 0)
  }

  function DaysInMonth(y: int, m: int): (n: int)
    requires 0 <= m < 12
    ensures 28 <= n <= 31
  {
    if m == 1 then (if IsLeap(y) then 29 else 28)
    else if m == 3 || m == 5 || m == 8 || m == 10 then 30
    else 31
  }

  function YearLength(y: int): int {
    if IsLeap(y) then 366 else 365
  }

  datatype Civil = Civil(year: int, month: int, day: int, ms: int)

  predicate ValidCivil(c: Civil) {
    0 <= c.month < 12 && 1 <= c.day <= DaysInMonth(c.year, c.month) && 0 <= c.ms < MS_PER_DAY
  }

  /** A point in time, as a JavaScript `Date` holds it. */
  type Instant = c: Civil | ValidCivil(c) witness Civil(1970, 0, 1, 0)

  // ---------------------------------------------------------------------------------------
  // Day numbers and time values
  // ---------------------------------------------------------------------------------------

  /** The number of days from 1970-01-01 to the first day of year y (DayFromYear). */
  function DayFromYear(y: int): int {
    365 * (y - 1970) + (y - 1969) / 4 - (y - 1901) / 100 + (y - 1601) / 400
  }

  /** The number of days in the months of year y before month m. */
  function DaysBeforeMonth(y: int, m: int): int
    requires 0 <= m < 12
  {
    var common :=
      if m < 6 then
        (if m == 0 then 0 else if m == 1 then 31 else if m == 2 then 59
         else if m == 3 then 90 else if m == 4 then 120 else 151)
      else
        (if m == 6 then 181 else if m == 7 then 212 else if m == 8 then 243
         else if m == 9 then 273 else if m == 10 then 304 else 334);
    common + (if m >= 2 && IsLeap(y) then 1 else 0)
  }

  /** The day number of an instant, counted from 1970-01-01. */
  function EpochDay(c: Instant): int {
    DayFromYear(c.year) + DaysBeforeMonth(c.year, c.month) + c.day - 1
  }

  /** The time value of an instant: milliseconds since 1970-01-01T00:00:00.000. */
  function Millis(c: Instant): int {
    EpochDay(c) * MS_PER_DAY + c.ms
  }

  /** `a < b` on two dates: the earlier civil date, field by field. `BeforeMillis` shows it is
      the order of the time values. */
  predicate Before(a: Instant, b: Instant) {
    a.year < b.year
    || (a.year == b.year && (a.month < b.month
    || (a.month == b.month && (a.day < b.day
    || (a.day == b.day && a.ms < b.ms)))))
  }

  /** `a <= b` on two dates. */
  predicate AtOrBefore(a: Instant, b: Instant) {
    !Before(b, a)
  }

  // ---------------------------------------------------------------------------------------
  // Overflow normalisation
  // ---------------------------------------------------------------------------------------

  /** The month before (y, m). */
  function PrevMonth(y: int, m: int): (r: (int, int))
    requires 0 <= m < 12
    ensures 0 <= r.1 < 12
  {
    if m == 0 then (y - 1, 11) else (y, m - 1)
  }

  /** The month after (y, m). */
  function NextMonth(y: int, m: int): (r: (int, int))
    requires 0 <= m < 12
    ensures 0 <= r.1 < 12
  {
    if m == 11 then (y + 1, 0) else (y, m + 1)
  }

  /** Day d of month (y, m), for any integer d: days before the 1st fall into the months
      before, days past the end of the month into the months after. */
  function NormDay(y: int, m: int, d: int, ms: int): (c: Instant)
    requires 0 <= m < 12 && 0 <= ms < MS_PER_DAY
    ensures c.ms == ms
    decreases if d < 1 then 1 - d else 0, if d < 1 then 0 else d
  {
    if d < 1 then
      var p := PrevMonth(y, m);
      NormDay(p.0, p.1, d + DaysInMonth(p.0, p.1), ms)
    else if d > DaysInMonth(y, m) then
      var n := NextMonth(y, m);
      NormDay(n.0, n.1, d - DaysInMonth(y, m), ms)
    else
      Civil(y, m, d, ms)
  }

  /** `new Date(y, m, d)` with the time of day ms: month m may lie outside 0..11 and is
      carried into the year first, then day d is carried into the months. */
  function MakeDate(y: int, m: int, d: int, ms: int): (c: Instant)
    requires 0 <= ms < MS_PER_DAY
    ensures c.ms == ms
    ensures 0 <= m < 12 && 1 <= d <= DaysInMonth(y, m) ==> c == Civil(y, m, d, ms)
  {
    NormDay(y + m / 12, m % 12, d, ms)
  }

  /** `date.setMonth(m)`: keeps the day of the month and the time of day. */
  function SetMonth(c: Instant, m: int): Instant {
    MakeDate(c.year, m, c.day, c.ms)
  }

  /** `date.setDate(d)`: keeps the month and the time of day. */
  function SetDate(c: Instant, d: int): Instant {
    MakeDate(c.year, c.month, d, c.ms)
  }

  /** `date.setHours(h, min, s, ms)` with in-range arguments, given as a millisecond of the day. */
  function SetTimeOfDay(c: Instant, t: int): (r: Instant)
    requires 0 <= t < MS_PER_DAY
    ensures r.year == c.year && r.month == c.month && r.day == c.day && r.ms == t
  {
    Civil(c.year, c.month, c.day, t)
  }

  /** The instant k whole days after c (before c when k is negative): `setDate(getDate() + k)`,
      and also `new Date(c.getTime() + k * 86400000)`, by `ShiftDaysMillis`. */
  function ShiftDays(c: Instant, k: int): Instant {
    SetDate(c, c.day + k)
  }

  // ---------------------------------------------------------------------------------------
  // Lemmas
  // ---------------------------------------------------------------------------------------

  /** `(n + 1) / k - n / k` is 1 exactly when k divides n + 1, for the divisors of the
      leap-year rule. */
  lemma FloorStep(n: int, k: int)
    requires k == 4 || k == 100 || k == 400
    ensures (n + 1) / k - n / k == (if (n + 1) % k == 0 then 1 else 0)
  {
  }

  /** Consecutive years are a year length apart. */
  lemma YearStep(y: int)
    ensures DayFromYear(y + 1) == DayFromYear(y) + YearLength(y)
  {
    FloorStep(y - 1969, 4);
    FloorStep(y - 1901, 100);
    FloorStep(y - 1601, 400);
    assert (y - 1968) % 4 == 0 <==> y % 4 == 0;
    assert (y - 1900) % 100 == 0 <==> y % 100 == 0;
    assert (y - 1600) % 400 == 0 <==> y % 400 == 0;
  }

  /** The first day of the next month is a month length after the first day of this one. */
  lemma MonthStep(y: int, m: int)
    requires 0 <= m < 12
    ensures var n := NextMonth(y, m);
      DayFromYear(n.0) + DaysBeforeMonth(n.0, n.1)
        == DayFromYear(y) + DaysBeforeMonth(y, m) + DaysInMonth(y, m)
  {
    if m == 11 {
      YearStep(y);
    }
  }

  /** Normalising a day keeps its day number: day d of month (y, m) lies d - 1 days after
      the first of that month, whatever the sign or size of d. */
  lemma {:induction false} NormDayEpochDay(y: int, m: int, d: int, ms: int)
    requires 0 <= m < 12 && 0 <= ms < MS_PER_DAY
    ensures EpochDay(NormDay(y, m, d, ms)) == DayFromYear(y) + DaysBeforeMonth(y, m) + d - 1
    decreases if d < 1 then 1 - d else 0, if d < 1 then 0 else d
  {
    if d < 1 {
      var p := PrevMonth(y, m);
      var d' := d + DaysInMonth(p.0, p.1);
      assert NormDay(y, m, d, ms) == NormDay(p.0, p.1, d', ms);
      NormDayEpochDay(p.0, p.1, d', ms);
      MonthStep(p.0, p.1);
      assert NextMonth(p.0, p.1) == (y, m);
    } else if d > DaysInMonth(y, m) {
      var n := NextMonth(y, m);
      var d' := d - DaysInMonth(y, m);
      assert NormDay(y, m, d, ms) == NormDay(n.0, n.1, d', ms);
      NormDayEpochDay(n.0, n.1, d', ms);
      MonthStep(y, m);
    } else {
      assert NormDay(y, m, d, ms) == Civil(y, m, d, ms);
    }
  }

  /** The day number of the MakeDay abstract operation: month m is carried into the year,
      then day d counted from the first of the resulting month. */
  function MakeDay(y: int, m: int, d: int): int {
    DayFromYear(y + m / 12) + DaysBeforeMonth(y + m / 12, m % 12) + d - 1
  }

  /** `MakeDate` lands on the day MakeDay computes, at the given time of day. */
  lemma MakeDateAgreesWithMakeDay(y: int, m: int, d: int, ms: int)
    requires 0 <= ms < MS_PER_DAY
    ensures Millis(MakeDate(y, m, d, ms)) == MakeDay(y, m, d) * MS_PER_DAY + ms
  {
    NormDayEpochDay(y + m / 12, m % 12, d, ms);
  }

  /** Shifting by k days moves the time value by exactly k days. */
  lemma ShiftDaysMillis(c: Instant, k: int)
    ensures Millis(ShiftDays(c, k)) == Millis(c) + k * MS_PER_DAY
  {
    MakeDateAgreesWithMakeDay(c.year, c.month, c.day + k, c.ms);
    assert c.year + c.month / 12 == c.year && c.month % 12 == c.month;
  }

  /** January 31 plus one month is March 3 in a common year, and March 2 in a leap year. */
  lemma SetMonthOverflowExample()
    ensures SetMonth(Civil(2023, 0, 31, 0), 1) == Civil(2023, 2, 3, 0)
    ensures SetMonth(Civil(2024, 0, 31, 0), 1) == Civil(2024, 2, 2, 0)
  {
    assert NormDay(2023, 1, 31, 0) == NormDay(2023, 2, 3, 0);
    assert NormDay(2024, 1, 31, 0) == NormDay(2024, 2, 2, 0);
  }

  // ---------------------------------------------------------------------------------------
  // The order of instants
  // ---------------------------------------------------------------------------------------

  /** The months of a year follow one another without gaps. */
  lemma MonthFollows(y: int, m: int)
    requires 0 <= m < 11
    ensures DaysBeforeMonth(y, m + 1) == DaysBeforeMonth(y, m) + DaysInMonth(y, m)
  {
  }

  /** December ends the year. */
  lemma DecemberEndsYear(y: int)
    ensures DaysBeforeMonth(y, 11) + DaysInMonth(y, 11) == YearLength(y)
  {
  }

  /** A month ends before any later month of the same year begins. */
  lemma {:induction false} MonthEndsBefore(y: int, m1: int, m2: int)
    requires 0 <= m1 < m2 < 12
    ensures DaysBeforeMonth(y, m1) + DaysInMonth(y, m1) <= DaysBeforeMonth(y, m2)
    decreases m2 - m1
  {
    MonthFollows(y, m2 - 1);
    if m1 + 1 < m2 {
      MonthEndsBefore(y, m1, m2 - 1);
    }
  }

  /** Later years begin later. */
  lemma {:induction false} DayFromYearMono(y1: int, y2: int)
    requires y1 <= y2
    ensures DayFromYear(y1) <= DayFromYear(y2)
    decreases y2 - y1
  {
    if y1 < y2 {
      DayFromYearMono(y1, y2 - 1);
      YearStep(y2 - 1);
    }
  }

  /** Every day of a year lies before the first day of the next. */
  lemma EndOfYear(c: Instant)
    ensures EpochDay(c) < DayFromYear(c.year + 1)
  {
    YearStep(c.year);
    DecemberEndsYear(c.year);
    if c.month < 11 {
      MonthEndsBefore(c.year, c.month, 11);
    }
  }

  /** An earlier civil date has a smaller time value. */
  lemma EarlierHasSmallerMillis(a: Instant, b: Instant)
    requires Before(a, b)
    ensures Millis(a) < Millis(b)
  {
    if a.year < b.year {
      EndOfYear(a);
      DayFromYearMono(a.year + 1, b.year);
    } else if a.month < b.month {
      MonthEndsBefore(a.year, a.month, b.month);
    }
    assert EpochDay(a) < EpochDay(b) || (EpochDay(a) == EpochDay(b) && a.ms < b.ms);
  }

  /** `Before` is the order of the time values. */
  lemma BeforeMillis(a: Instant, b: Instant)
    ensures Before(a, b) <==> Millis(a) < Millis(b)
    ensures AtOrBefore(a, b) <==> Millis(a) <= Millis(b)
  {
    if Before(a, b) {
      EarlierHasSmallerMillis(a, b);
    } else if Before(b, a) {
      EarlierHasSmallerMillis(b, a);
    } else {
      assert a == b;
    }
  }

  // ---------------------------------------------------------------------------------------
  // Month arithmetic
  // ---------------------------------------------------------------------------------------

  /** The month of an instant counted from year 0, so that consecutive months differ by one. */
  function MonthIndex(c: Instant): int {
    c.year * 12 + c.month
  }

  /** Day d of a month, with d at most 28 days past its end, normalises in at most one step. */
  lemma NormDayOneStep(y: int, m: int, d: int, ms: int)
    requires 0 <= m < 12 && 0 <= ms < MS_PER_DAY
    requires 1 <= d <= DaysInMonth(y, m) + 28
    ensures var n := NextMonth(y, m);
      NormDay(y, m, d, ms) ==
        if d <= DaysInMonth(y, m) then Civil(y, m, d, ms)
        else Civil(n.0, n.1, d - DaysInMonth(y, m), ms)
  {
    if d > DaysInMonth(y, m) {
      var n := NextMonth(y, m);
      assert NormDay(y, m, d, ms) == NormDay(n.0, n.1, d - DaysInMonth(y, m), ms);
      assert d - DaysInMonth(y, m) <= DaysInMonth(n.0, n.1);
    }
  }

  /** Carrying a month number into the year keeps the month index. */
  lemma MonthCarry(y: int, t: int)
    ensures (y + t / 12) * 12 + t % 12 == y * 12 + t
  {
  }

  lemma NextMonthIndex(y: int, m: int)
    requires 0 <= m < 12
    ensures NextMonth(y, m).0 * 12 + NextMonth(y, m).1 == y * 12 + m + 1
  {
  }

  /** `setMonth(getMonth() + k)` lands k months on with the same day, or, when that day
      does not exist there, one month further on one of its first three days. */
  lemma SetMonthForward(c: Instant, k: int)
    requires k >= 0
    ensures var r := SetMonth(c, c.month + k);
      var j := MonthIndex(r) - MonthIndex(c) - k;
      (j == 0 && r.day == c.day) || (j == 1 && r.day <= 3 && c.day > 28)
  {
    var y, m := c.year + (c.month + k) / 12, (c.month + k) % 12;
    MonthCarry(c.year, c.month + k);
    NormDayOneStep(y, m, c.day, c.ms);
    assert SetMonth(c, c.month + k) == NormDay(y, m, c.day, c.ms);
    if c.day > DaysInMonth(y, m) {
      NextMonthIndex(y, m);
    }
  }

  /** An instant in a later month is a later instant. */
  lemma MonthIndexOrder(a: Instant, b: Instant)
    requires MonthIndex(a) < MonthIndex(b)
    ensures Before(a, b)
  {
    if a.year >= b.year {
      assert a.year * 12 >= b.year * 12;
    }
  }

  /** `setMonth(getMonth() - k)` for one to three months lands before `now`: on the same day
      k months back, or, when that day does not exist, a few days into the following month. */
  lemma MonthsBackBefore(now: Instant, k: int)
    requires 1 <= k <= 3
    ensures Before(SetMonth(now, now.month - k), now)
  {
    var y, m := now.year + (now.month - k) / 12, (now.month - k) % 12;
    assert SetMonth(now, now.month - k) == NormDay(y, m, now.day, now.ms);
    assert y * 12 + m == now.year * 12 + now.month - k;
    if now.day > DaysInMonth(y, m) {
      NormDayOneStep(y, m, now.day, now.ms);
      var n := NextMonth(y, m);
      assert n.0 * 12 + n.1 == y * 12 + m + 1;
    } else {
      NormDayOneStep(y, m, now.day, now.ms);
    }
  }
}
