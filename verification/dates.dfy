/**
 * Gregorian calendar days and moments of local time, as the date library used by
 * the widget sees them. A day is a (year, month, day) triple of the proleptic
 * Gregorian calendar; `Ordinal` numbers days consecutively, with 1970-01-01 as
 * day 0. A moment is a day plus the milliseconds elapsed since its midnight.
 */
module Dates {

  datatype Date = Date(year: int, month: int, day: int)

  predicate IsLeapYear(y: int) {
    y % 4 == 0 && (y % 100 != 0 || y % 400 == 0)
  }

  function DaysInMonth(y: int, m: int): (n: int)
    requires 1 <= m <= 12
    ensures 28 <= n <= 31
  {
    if m == 2 then (if IsLeapYear(y) then 29 else 28)
    else if m == 4 || m == 6 || m == 9 || m == 11 then 30
    else 31
  }

  predicate Valid(d: Date) {
    1 <= d.month <= 12 && 1 <= d.day <= DaysInMonth(d.year, d.month)
  }

  /** A calendar day. */
  type Day = d: Date | Valid(d) witness Date(1970, 1, 1)

  function YearLength(y: int): int {
    if IsLeapYear(y) then 366 else 365
  }

  /** Days of year `y` before the first of month `m`. */
  function DaysBeforeMonth(y: int, m: int): (n: int)
    requires 1 <= m <= 12
  {
    var leap := if IsLeapYear(y) then 1 else 0;
    if m == 1 then 0
    else if m == 2 then 31
    else [59, 90, 120, 151, 181, 212, 243, 273, 304, 334][m - 3] + leap
  }

  /** Number of leap years in [0, y), negated when y < 0. */
  function LeapYearsBefore(y: int): int {
    (y + 3) / 4 - (y + 99) / 100 + (y + 399) / 400
  }

  /** Ordinal of January 1st of year `y`. */
  function YearStart(y: int): int {
    365 * (y - 1970) + LeapYearsBefore(y) - LeapYearsBefore(1970)
  }

  /** Consecutive day number, 1970-01-01 being day 0. */
  function Ordinal(d: Day): int {
    YearStart(d.year) + DaysBeforeMonth(d.year, d.month) + d.day - 1
  }

  /** Day of the week, 0 for Sunday up to 6 for Saturday (1970-01-01 was a Thursday). */
  function Weekday(d: Day): (w: int)
    ensures 0 <= w < 7
  {
    (Ordinal(d) + 4) % 7
  }

  lemma LeapYearCount(y: int)
    ensures LeapYearsBefore(y + 1) == LeapYearsBefore(y) + (if IsLeapYear(y) then 1 else 0)
  {
    MultiplesStep(y, 4);
    MultiplesStep(y, 100);
    MultiplesStep(y, 400);
    DividesThrough(y);
  }

  /** Going from y - 1 to y adds one multiple of k to the count exactly when k divides y. */
  lemma MultiplesStep(y: int, k: int)
    requires k > 0
    ensures (y + k) / k == (y + k - 1) / k + (if y % k == 0 then 1 else 0)
  {
    var q, r := y / k, y % k;
    DivUnique(y, k, q, r);
    DivUnique(y + k, k, q + 1, r);
    if r == 0 {
      DivUnique(y + k - 1, k, q, k - 1);
    } else {
      DivUnique(y + k - 1, k, q + 1, r - 1);
    }
  }

  /** A multiple of 400 is a multiple of 100, and a multiple of 100 a multiple of 4. */
  lemma DividesThrough(y: int)
    ensures y % 400 == 0 ==> y % 100 == 0
    ensures y % 100 == 0 ==> y % 4 == 0
  {
    var q, r := y / 400, y % 400;
    DivUnique(y, 400, q, r);
    DivUnique(y, 100, 4 * q + r / 100, r % 100);
    var p, t := y / 100, y % 100;
    DivUnique(y, 4, 25 * p + t / 4, t % 4);
  }

  /** Quotient and remainder are the only ones: x == k * q + r with 0 <= r < k fixes both. */
  lemma DivUnique(x: int, k: int, q: int, r: int)
    requires k > 0 && 0 <= r < k && x == k * q + r
    ensures x / k == q && x % k == r
  {
    var q' := x / k;
    MulAtLeast(k, q' - q);
    MulAtLeast(k, q - q');
    assert k * q' - k * q == k * (q' - q);
  }

  lemma {:induction false} MulAtLeast(k: int, n: int)
    requires k > 0
    ensures n >= 1 ==> k * n >= k
    decreases if n < 1 then 0 else n
  {
    if n > 1 {
      MulAtLeast(k, n - 1);
      assert k * n == k * (n - 1) + k;
    }
  }

  /** Consecutive years are as far apart as the earlier one is long. */
  lemma NextYearStart(y: int)
    ensures YearStart(y + 1) == YearStart(y) + YearLength(y)
  {
    LeapYearCount(y);
  }

  lemma MonthsFillYear(y: int, m: int)
    requires 1 <= m <= 12
    ensures DaysBeforeMonth(y, m) + DaysInMonth(y, m)
         == if m < 12 then DaysBeforeMonth(y, m + 1) else YearLength(y)
  {
  }

  lemma {:induction false} YearStartMonotone(y1: int, y2: int)
    requires y1 <= y2
    ensures YearStart(y1) + 365 * (y2 - y1) <= YearStart(y2)
    decreases y2 - y1
  {
    if y1 < y2 {
      NextYearStart(y1);
      YearStartMonotone(y1 + 1, y2);
    }
  }

  /** Position of a day inside its year: every day of year y lies before YearStart(y + 1). */
  lemma WithinYear(d: Day)
    ensures YearStart(d.year) <= Ordinal(d) < YearStart(d.year + 1)
  {
    MonthsFillYear(d.year, d.month);
    if d.month < 12 {
      MonthsBefore(d.year, d.month + 1, 12);
      MonthsFillYear(d.year, 12);
    }
    NextYearStart(d.year);
  }

  lemma MonthsBefore(y: int, m1: int, m2: int)
    requires 1 <= m1 <= m2 <= 12
    ensures DaysBeforeMonth(y, m1) + 28 * (m2 - m1) <= DaysBeforeMonth(y, m2)
  {
  }

  /** Days of one month precede the days of every later month. */
  lemma {:induction false} OrdinalMonthOrder(a: Day, b: Day)
    requires MonthIndex(a) < MonthIndex(b)
    ensures Ordinal(a) < Ordinal(b)
  {
    if a.year < b.year {
      WithinYear(a);
      WithinYear(b);
      YearStartMonotone(a.year + 1, b.year);
    } else {
      assert a.year == b.year && a.month < b.month;
      MonthsFillYear(a.year, a.month);
      MonthsBefore(a.year, a.month + 1, b.month);
    }
  }

  /** Distinct days have distinct ordinals, so `Ordinal` is a faithful numbering of days. */
  lemma {:induction false} OrdinalInjective(a: Day, b: Day)
    ensures Ordinal(a) == Ordinal(b) ==> a == b
  {
    if MonthIndex(a) < MonthIndex(b) {
      OrdinalMonthOrder(a, b);
    } else if MonthIndex(b) < MonthIndex(a) {
      OrdinalMonthOrder(b, a);
    } else {
      assert IsSameMonth(a, b);
    }
  }

  /** The day after `d` (the library's addDays(d, 1)). */
  function NextDay(d: Day): (e: Day)
    ensures Ordinal(e) == Ordinal(d) + 1
  {
    MonthsFillYear(d.year, d.month);
    NextYearStart(d.year);
    if d.day < DaysInMonth(d.year, d.month) then Date(d.year, d.month, d.day + 1)
    else if d.month < 12 then Date(d.year, d.month + 1, 1)
    else Date(d.year + 1, 1, 1)
  }

  /** The day before `d` (the library's addDays(d, -1)). */
  function PrevDay(d: Day): (e: Day)
    ensures Ordinal(e) == Ordinal(d) - 1
  {
    NextYearStart(d.year - 1);
    if d.day > 1 then Date(d.year, d.month, d.day - 1)
    else if d.month > 1 then
      MonthsFillYear(d.year, d.month - 1);
      Date(d.year, d.month - 1, DaysInMonth(d.year, d.month - 1))
    else
      MonthsFillYear(d.year - 1, 12);
      Date(d.year - 1, 12, 31)
  }

  /** The library's addDays(d, n): the day n days later (earlier when n < 0). */
  function AddDays(d: Day, n: int): (e: Day)
    ensures Ordinal(e) == Ordinal(d) + n
    decreases if n < 0 then -n else n
  {
    if n == 0 then d
    else if n > 0 then NextDay(AddDays(d, n - 1))
    else PrevDay(AddDays(d, n + 1))
  }

  /** Months numbered consecutively: year * 12 + (month - 1). */
  function MonthIndex(d: Day): int {
    d.year * 12 + d.month - 1
  }

  /** The library's isSameMonth: two days share a month exactly when their month numbers agree. */
  function IsSameMonth(a: Day, b: Day): (r: bool)
    ensures r <==> MonthIndex(a) == MonthIndex(b)
  {
    a.year == b.year && a.month == b.month
  }

  /** The library's startOfMonth. */
  function StartOfMonth(d: Day): (s: Day)
    ensures IsSameMonth(s, d) && s.day == 1
    ensures Ordinal(s) == Ordinal(d) - (d.day - 1)
  {
    Date(d.year, d.month, 1)
  }

  /** The library's startOfWeek with Sunday as first day: the Sunday on or before `d`. */
  function StartOfWeek(d: Day): (s: Day)
    ensures Weekday(s) == 0
    ensures Ordinal(d) - 6 <= Ordinal(s) <= Ordinal(d)
    ensures Ordinal(s) == Ordinal(d) - Weekday(d)
  {
    var s := AddDays(d, -Weekday(d));
    ShiftToSunday(Ordinal(d) + 4, Weekday(d));
    s
  }

  lemma ShiftToSunday(x: int, w: int)
    requires w == x % 7
    ensures (x - w) % 7 == 0
  {
    assert x - w == 7 * (x / 7);
  }

  /**
   * The library's addMonths(d, n): the same day of the month n months later,
   * clamped to the last day of the target month when that month is shorter.
   */
  function AddMonths(d: Day, n: int): (e: Day)
    ensures MonthIndex(e) == MonthIndex(d) + n
    ensures e.day <= d.day
    ensures e.day < d.day ==> e.day == DaysInMonth(e.year, e.month)
  {
    var k := MonthIndex(d) + n;
    var y, m := k / 12, k % 12 + 1;
    var last := DaysInMonth(y, m);
    Date(y, m, if d.day <= last then d.day else last)
  }

  /** The library's subMonths(d, n). */
  function SubMonths(d: Day, n: int): (e: Day)
    ensures MonthIndex(e) == MonthIndex(d) - n
    ensures e.day <= d.day
    ensures e.day < d.day ==> e.day == DaysInMonth(e.year, e.month)
  {
    AddMonths(d, -n)
  }

  /** Moving n months and back returns to the same day when no clamping occurred. */
  lemma {:induction false} AddMonthsRoundTrip(d: Day, n: int)
    requires d.day == AddMonths(d, n).day
    ensures SubMonths(AddMonths(d, n), n) == d
  {
  }

  /** Moving n months always lands in a month of its own, whatever the clamping. */
  lemma {:induction false} AddMonthsBackSameMonth(d: Day, n: int)
    ensures IsSameMonth(SubMonths(AddMonths(d, n), n), d)
    ensures SubMonths(AddMonths(d, n), n).day <= d.day
  {
  }

  /** Milliseconds in a day. */
  const MsPerDay := 86400000

  /** A moment of local wall-clock time: a day and the milliseconds since its midnight. */
  datatype DateTime = DateTime(date: Day, ms: int)

  /** A JavaScript `Date` as the widget uses it: a day and a time of day. */
  type Moment = t: DateTime | 0 <= t.ms < MsPerDay witness DateTime(Date(1970, 1, 1), 0)

  /** Midnight at the start of `d`. Every day of the grid is a midnight. */
  function Midnight(d: Day): Moment {
    DateTime(d, 0)
  }

  /** Wall-clock milliseconds since 1970-01-01 00:00, the number the library compares. */
  function Timestamp(t: Moment): int {
    Ordinal(t.date) * MsPerDay + t.ms
  }

  /** Distinct moments have distinct timestamps, so isEqual is equality of moments. */
  lemma {:induction false} TimestampInjective(a: Moment, b: Moment)
    ensures Timestamp(a) == Timestamp(b) ==> a == b
  {
    if Ordinal(a.date) < Ordinal(b.date) {
      assert Timestamp(a) < Timestamp(b);
    } else if Ordinal(b.date) < Ordinal(a.date) {
      assert Timestamp(b) < Timestamp(a);
    } else {
      OrdinalInjective(a.date, b.date);
    }
  }

  /** The library's isBefore: an earlier day, or the same day at an earlier time. */
  function IsBefore(a: Moment, b: Moment): (r: bool)
    ensures r <==> Ordinal(a.date) < Ordinal(b.date) || (a.date == b.date && a.ms < b.ms)
  {
    OrdinalInjective(a.date, b.date);
    Timestamp(a) < Timestamp(b)
  }

  /** The library's isEqual: the same day at the same time. */
  function IsEqual(a: Moment, b: Moment): (r: bool)
    ensures r <==> a == b
  {
    TimestampInjective(a, b);
    Timestamp(a) == Timestamp(b)
  }

  /** The library's isAfter: a later day, or the same day at a later time. */
  function IsAfter(a: Moment, b: Moment): (r: bool)
    ensures r <==> Ordinal(a.date) > Ordinal(b.date) || (a.date == b.date && a.ms > b.ms)
  {
    OrdinalInjective(a.date, b.date);
    Timestamp(a) > Timestamp(b)
  }

  /** Day number of the first midnight at or after `t`: t's own day when t is a midnight, else the next day. */
  function FirstMidnight(t: Moment): int {
    Ordinal(t.date) + (if t.ms == 0 then 0 else 1)
  }

  /**
   * Comparing the midnight of `d` with a moment `t` is comparing d's day number
   * with t's first midnight: d's midnight is before t exactly when d comes
   * before that day, and equal to or after t exactly when it does not.
   */
  lemma {:induction false} MidnightComparison(d: Day, t: Moment)
    ensures IsBefore(Midnight(d), t) <==> Ordinal(d) < FirstMidnight(t)
    ensures IsEqual(Midnight(d), t) || IsAfter(Midnight(d), t) <==> Ordinal(d) >= FirstMidnight(t)
    ensures IsEqual(Midnight(d), t) <==> d == t.date && t.ms == 0
  {
    if Ordinal(d) < Ordinal(t.date) {
      assert Timestamp(Midnight(d)) + MsPerDay <= Timestamp(t);
    } else if Ordinal(d) > Ordinal(t.date) {
      assert Timestamp(Midnight(d)) >= Timestamp(t) + 1;
    } else {
      OrdinalInjective(d, t.date);
    }
  }
}
