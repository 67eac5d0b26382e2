/**
 * Civil (proleptic Gregorian) dates as JavaScript's local-time `Date`
 * presents them: a year, a 0-based month, a day of the month and a
 * wall-clock time. Day numbers count days from 0001-01-01, which was a
 * Monday; weekdays are numbered as `getDay()` numbers them (Sunday = 0).
 */
module Calendar {

  predicate IsLeapYear(y: int) {
    y % 4 == 0 && (y % 100 != 0 || y % 400 == 0)
  }

  /** A 0-based month, as `getMonth()` returns it (January = 0). */
  type Month = m: int | 0 <= m < 12

  /** `new Date(y, m + 1, 0).getDate()`. */
  function DaysInMonth(y: int, m: Month): (n: int)
    ensures 28 <= n <= 31
    ensures n == 29 <==> m == 1 && IsLeapYear(y)
  {
    if m == 1 then (if IsLeapYear(y) then 29 else 28)
    else if m == 3 || m == 5 || m == 8 || m == 10 then 30
    else 31
  }

  function DaysInYear(y: int): int {
    if IsLeapYear(y) then 366 else 365
  }

  /** Days of year `y` that come before the first of month `m` (`m == 12` gives the whole year). */
  function DaysBeforeMonth(y: int, m: int): int
    requires 0 <= m <= 12
  {
    [0, 31, 59, 90, 120, 151, 181, 212, 243, 273, 304, 334, 365][m]
      + (if m >= 2 && IsLeapYear(y) then 1 else 0)
  }

  /** Days from 0001-01-01 to the first of January of year `y`. */
  function DaysBeforeYear(y: int): int {
    var p := y - 1;
    365 * p + p / 4 - p / 100 + p / 400
  }

  datatype Date = Date(year: int, month: Month, day: int) {
    predicate Valid() {
      1 <= day <= DaysInMonth(year, month)
    }
  }

  function DayNumber(d: Date): int
  {
    DaysBeforeYear(d.year) + DaysBeforeMonth(d.year, d.month) + d.day - 1
  }

  /** `getDay()`: 0 for Sunday through 6 for Saturday. */
  function Weekday(d: Date): (w: int)
    ensures 0 <= w < 7
  {
    (DayNumber(d) + 1) % 7
  }

  /** Anchors: 1970-01-01 was a Thursday and 2024-01-01 a Monday. */
  lemma WeekdayAnchors()
    ensures Weekday(Date(1970, 0, 1)) == 4
    ensures Weekday(Date(2024, 0, 1)) == 1
  {
  }

  /** Within one month, moving `k` days on moves the weekday `k` places on. */
  lemma WeekdayShift(y: int, m: Month, d: int, k: int)
    ensures Weekday(Date(y, m, d + k)) == (Weekday(Date(y, m, d)) + k) % 7
  {
    var a := DayNumber(Date(y, m, d)) + 1;
    assert DayNumber(Date(y, m, d + k)) + 1 == a + k;
    ModAdd(a, k);
  }

  lemma ModAdd(a: int, k: int)
    ensures (a + k) % 7 == (a % 7 + k) % 7
  {
    var q := a / 7;
    assert a == 7 * q + a % 7;
    assert a + k == 7 * q + (a % 7 + k);
  }

  lemma DivStep4(y: int)
    ensures y / 4 - (y - 1) / 4 == if y % 4 == 0 then 1 else 0
  {
  }

  lemma DivStep100(y: int)
    ensures y / 100 - (y - 1) / 100 == if y % 100 == 0 then 1 else 0
  {
  }

  lemma DivStep400(y: int)
    ensures y / 400 - (y - 1) / 400 == if y % 400 == 0 then 1 else 0
  {
  }

  /** A year contributes `DaysInYear` days to the count. */
  lemma DaysBeforeYearStep(y: int)
    ensures DaysBeforeYear(y + 1) == DaysBeforeYear(y) + DaysInYear(y)
  {
    DivStep4(y);
    DivStep100(y);
    DivStep400(y);
  }

  lemma DaysBeforeMonthStep(y: int, m: Month)
    ensures DaysBeforeMonth(y, m + 1) == DaysBeforeMonth(y, m) + DaysInMonth(y, m)
  {
  }

  /** Later years start later. */
  lemma {:induction false} DaysBeforeYearMonotonic(y: int, z: int)
    requires y <= z
    ensures DaysBeforeYear(y) + (z - y) * 365 <= DaysBeforeYear(z)
    decreases z - y
  {
    if y < z {
      DaysBeforeYearMonotonic(y, z - 1);
      DaysBeforeYearStep(z - 1);
    }
  }

  /** The first day of the month after `d`'s month. */
  function FirstOfNextMonth(d: Date): (r: Date)
    requires d.Valid()
    ensures r.Valid() && r.day == 1
    ensures DayNumber(r) == DayNumber(Date(d.year, d.month, DaysInMonth(d.year, d.month))) + 1
  {
    if d.month == 11 then
      DaysBeforeYearStep(d.year);
      Date(d.year + 1, 0, 1)
    else
      DaysBeforeMonthStep(d.year, d.month);
      Date(d.year, d.month + 1, 1)
  }

  /** The last day of the month before `d`'s month. */
  function LastOfPreviousMonth(d: Date): (r: Date)
    requires d.Valid()
    ensures r.Valid() && r.day == DaysInMonth(r.year, r.month)
    ensures DayNumber(r) + 1 == DayNumber(Date(d.year, d.month, 1))
  {
    if d.month == 0 then
      DaysBeforeYearStep(d.year - 1);
      Date(d.year - 1, 11, 31)
    else
      DaysBeforeMonthStep(d.year, d.month - 1);
      Date(d.year, d.month - 1, DaysInMonth(d.year, d.month - 1))
  }

  /**
   * `date.setDate(date.getDate() + n)`: the day-of-month overflows into
   * following (or, for negative `n`, preceding) months and years.
   */
  function ShiftDays(d: Date, n: int): (r: Date)
    requires d.Valid()
    ensures r.Valid()
    ensures DayNumber(r) == DayNumber(d) + n
    decreases if n >= 0 then n else -n
  {
    var dim := DaysInMonth(d.year, d.month);
    if n == 0 then d
    else if n > 0 then
      if d.day + n <= dim then Date(d.year, d.month, d.day + n)
      else ShiftDays(FirstOfNextMonth(d), n - (dim - d.day + 1))
    else
      if d.day + n >= 1 then Date(d.year, d.month, d.day + n)
      else ShiftDays(LastOfPreviousMonth(d), n + d.day)
  }

  /** Consecutive months in one index: `year * 12 + month`. */
  function MonthIndex(d: Date): int {
    d.year * 12 + d.month
  }

  /** Every valid day falls inside its year. */
  lemma DayOfYearBound(a: Date)
    requires a.Valid()
    ensures DaysBeforeYear(a.year) <= DayNumber(a) < DaysBeforeYear(a.year + 1)
  {
    DaysBeforeMonthStep(a.year, a.month);
    DaysBeforeYearStep(a.year);
  }

  /** Within one year, a day of an earlier month comes before the first of a later month. */
  lemma DayBeforeLaterMonth(a: Date, m: Month)
    requires a.Valid() && a.month < m
    ensures DaysBeforeMonth(a.year, a.month) + a.day - 1 < DaysBeforeMonth(a.year, m)
  {
    DaysBeforeMonthStep(a.year, a.month);
  }

  /** A day of an earlier month has a smaller day number than any day of a later month. */
  lemma EarlierMonthEarlierDay(a: Date, b: Date)
    requires a.Valid() && b.Valid()
    requires MonthIndex(a) < MonthIndex(b)
    ensures DayNumber(a) < DayNumber(b)
  {
    if a.year < b.year {
      DayOfYearBound(a);
      DayOfYearBound(b);
      DaysBeforeYearMonotonic(a.year + 1, b.year);
      assert DaysBeforeYear(a.year + 1) <= DaysBeforeYear(b.year);
    } else {
      assert a.year == b.year && a.month < b.month;
      DayBeforeLaterMonth(a, b.month);
    }
  }

  /** A local date and wall-clock time, to the millisecond. */
  datatype DateTime = DateTime(date: Date, hour: int, minute: int, second: int, millisecond: int) {
    predicate Valid() {
      date.Valid() && 0 <= hour < 24 && 0 <= minute < 60 && 0 <= second < 60 && 0 <= millisecond < 1000
    }
  }

  const MsPerDay: int := 86_400_000

  /** The moment `t` denotes, in milliseconds; `Date` comparison compares these. */
  function Instant(t: DateTime): int
  {
    DayNumber(t.date) * MsPerDay + ((t.hour * 60 + t.minute) * 60 + t.second) * 1000 + t.millisecond
  }

  /** A valid time of day stays below one day's milliseconds, so later days are later instants. */
  lemma LaterDayLaterInstant(s: DateTime, t: DateTime)
    requires s.Valid() && t.Valid()
    requires DayNumber(s.date) < DayNumber(t.date)
    ensures Instant(s) < Instant(t)
  {
    assert ((s.hour * 60 + s.minute) * 60 + s.second) * 1000 + s.millisecond < MsPerDay;
  }
}
