/**
 * Dates of recurring events: every N weeks from a start date, or on the
 * Nth (or last) given weekday of every month; the occurrence caps, the
 * human-readable pattern and the `YYYY-MM-DD` slug suffix.
 */
module Recurrence {
  import opened Wrappers
  import opened Strings
  import opened Calendar

  datatype RecurrenceType = Weekly | Monthly

  /** Labels of `getDay()` values 0 (Sunday) to 6 (Saturday). */
  const DayNames: seq<string> :=
    ["Sunday", "Monday", "Tuesday", "Wednesday", "Thursday", "Friday", "Saturday"]

  /** Labels of week-of-month values 1 to 5; 5 means the last one. */
  const WeekLabels: seq<string> := ["1st", "2nd", "3rd", "4th", "Last"]

  predicate SameClock(a: DateTime, b: DateTime) {
    a.hour == b.hour && a.minute == b.minute && a.second == b.second && a.millisecond == b.millisecond
  }

  lemma MulStep(x: int, i: int)
    ensures x * (i + 1) == x * i + x
  {
  }

  lemma MulPositive(x: int, k: int)
    requires x >= 1 && k >= 1
    ensures x * k >= 1
  {
  }

  /** The day number `step * k` days after `start`. */
  function DueDay(start: DateTime, step: int, k: int): int {
    DayNumber(start.date) + step * k
  }

  /** Each `dates[k]` is valid, at `start`'s clock time and `step * k` days after `start`. */
  ghost predicate Stepped(dates: seq<DateTime>, start: DateTime, step: int) {
    forall k :: 0 <= k < |dates| ==>
      dates[k].Valid() && SameClock(dates[k], start)
      && DayNumber(dates[k].date) == DueDay(start, step, k)
  }

  /** One turn of the weekly loop: the current date extends the list and the shifted date is the next one due. */
  lemma SteppedAppend(dates: seq<DateTime>, start: DateTime, step: int, current: DateTime)
    requires Stepped(dates, start, step)
    requires current.Valid() && SameClock(current, start)
    requires DayNumber(current.date) == DueDay(start, step, |dates|)
    ensures Stepped(dates + [current], start, step)
    ensures var next := current.(date := ShiftDays(current.date, step));
      next.Valid() && SameClock(next, start) && DayNumber(next.date) == DueDay(start, step, |dates| + 1)
  {
    MulStep(step, |dates|);
  }

  /** Dates whose day numbers climb by a positive `step` come at increasing instants. */
  lemma SteppedDatesIncrease(dates: seq<DateTime>, start: DateTime, step: int)
    requires step >= 1 && Stepped(dates, start, step)
    ensures forall i, j :: 0 <= i < j < |dates| ==> Instant(dates[i]) < Instant(dates[j])
  {
    forall i, j | 0 <= i < j < |dates| ensures Instant(dates[i]) < Instant(dates[j]) {
      MulPositive(step, j - i);
      assert step * j == step * i + step * (j - i);
      LaterDayLaterInstant(dates[i], dates[j]);
    }
  }

  /**
   * `count` dates, the first being `start` and each later one
   * `intervalWeeks * 7` calendar days after the previous at the same
   * wall-clock time.
   */
  method GenerateWeeklyDates(start: DateTime, intervalWeeks: int, count: int) returns (dates: seq<DateTime>)
    requires start.Valid()
    ensures |dates| == if count < 0 then 0 else count
    ensures |dates| > 0 ==> dates[0] == start
    ensures Stepped(dates, start, intervalWeeks * 7)
    ensures intervalWeeks >= 1 ==>
      forall i, j :: 0 <= i < j < |dates| ==> Instant(dates[i]) < Instant(dates[j])
  {
    var step := intervalWeeks * 7;
    dates := [];
    var current := start;
    var i := 0;
    while i < count
      invariant 0 <= i <= if count < 0 then 0 else count
      invariant |dates| == i
      invariant current.Valid() && SameClock(current, start)
      invariant DayNumber(current.date) == DueDay(start, step, i)
      invariant i == 0 ==> current == start
      invariant i > 0 ==> dates[0] == start
      invariant Stepped(dates, start, step)
    {
      SteppedAppend(dates, start, step, current);
      dates := dates + [current];
      current := current.(date := ShiftDays(current.date, step));
      i := i + 1;
    }
    if intervalWeeks >= 1 {
      SteppedDatesIncrease(dates, start, step);
    }
  }

  /** The last `dayOfWeek` of the month: step back from its last day. */
  function LastWeekdayOfMonth(year: int, month: Month, dayOfWeek: int): (d: Date)
    requires 0 <= dayOfWeek < 7
    ensures d.Valid() && d.year == year && d.month == month
    ensures Weekday(d) == dayOfWeek
    ensures d.day + 7 > DaysInMonth(year, month)
  {
    var lastDay := DaysInMonth(year, month);
    var lastDayOfWeek := Weekday(Date(year, month, lastDay));
    var diff := lastDayOfWeek - dayOfWeek;
    var back := if diff < 0 then diff + 7 else diff;
    WeekdayShift(year, month, lastDay, -back);
    Date(year, month, lastDay - back)
  }

  /** The first-of-month weekday plus the days to the first `dayOfWeek`, plus whole weeks. */
  function NthWeekdayDay(year: int, month: Month, dayOfWeek: int, weekOfMonth: int): (day: int)
    requires 0 <= dayOfWeek < 7 && 1 <= weekOfMonth <= 4
    ensures 7 * (weekOfMonth - 1) < day <= 7 * weekOfMonth
    ensures Weekday(Date(year, month, day)) == dayOfWeek
  {
    var firstDayOfWeek := Weekday(Date(year, month, 1));
    var daysUntilTarget := dayOfWeek - firstDayOfWeek;
    var forward := if daysUntilTarget < 0 then daysUntilTarget + 7 else daysUntilTarget;
    var weeks := (weekOfMonth - 1) * 7;
    WeekdayShift(year, month, 1, forward + weeks);
    WholeWeeks(firstDayOfWeek + forward, weekOfMonth - 1);
    1 + forward + weeks
  }

  /** Whole weeks do not move the weekday. */
  lemma WholeWeeks(a: int, n: int)
    ensures (a + n * 7) % 7 == a % 7
  {
  }

  /**
   * The `weekOfMonth`-th `dayOfWeek` of the month (0-based `month`) of
   * `year`, or its last one when `weekOfMonth` is 5; `None` when that day
   * would fall outside the month.
   */
  function GetNthWeekdayOfMonth(year: int, month: Month, dayOfWeek: int, weekOfMonth: int): (r: Option<Date>)
    requires 0 <= dayOfWeek < 7 && 1 <= weekOfMonth <= 5
    ensures r.Some? ==> r.value.Valid() && r.value.year == year && r.value.month == month
    ensures r.Some? ==> Weekday(r.value) == dayOfWeek
    ensures weekOfMonth <= 4 ==> r.Some? && 7 * (weekOfMonth - 1) < r.value.day <= 7 * weekOfMonth
    ensures weekOfMonth == 5 ==> r.Some? && r.value.day + 7 > DaysInMonth(year, month)
  {
    if weekOfMonth == 5 then Some(LastWeekdayOfMonth(year, month, dayOfWeek))
    else
      var targetDay := NthWeekdayDay(year, month, dayOfWeek, weekOfMonth);
      if targetDay > DaysInMonth(year, month) then None
      else Some(Date(year, month, targetDay))
  }

  /** The occurrence `GenerateMonthlyDates` finds in the month with index `mi` (see `MonthIndex`). */
  function OccurrenceInMonth(mi: int, dayOfWeek: int, weekOfMonth: int): (d: Date)
    requires 0 <= dayOfWeek < 7 && 1 <= weekOfMonth <= 5
    ensures d.Valid() && MonthIndex(d) == mi && Weekday(d) == dayOfWeek
  {
    GetNthWeekdayOfMonth(mi / 12, mi % 12, dayOfWeek, weekOfMonth).value
  }

  function Min(a: int, b: int): int { if a <= b then a else b }

  /** `dates[k]` is the occurrence in the `k`-th month from month index `mi0`, at `hour:minute:00.000`. */
  ghost predicate MonthlyPrefix(dates: seq<DateTime>, mi0: int, dayOfWeek: int, weekOfMonth: int, hour: int, minute: int)
    requires 0 <= dayOfWeek < 7 && 1 <= weekOfMonth <= 5
  {
    forall k :: 0 <= k < |dates| ==>
      dates[k] == DateTime(OccurrenceInMonth(mi0 + k, dayOfWeek, weekOfMonth), hour, minute, 0, 0)
  }

  /** Occurrences in consecutive months at one valid time come at increasing instants, all after `start` but the first. */
  lemma MonthlyIncreasing(dates: seq<DateTime>, start: DateTime, dayOfWeek: int, weekOfMonth: int)
    requires start.Valid() && 0 <= dayOfWeek < 7 && 1 <= weekOfMonth <= 5
    requires MonthlyPrefix(dates, MonthIndex(start.date), dayOfWeek, weekOfMonth, start.hour, start.minute)
    ensures forall i, j :: 0 <= i < j < |dates| ==> Instant(dates[i]) < Instant(dates[j])
    ensures forall k :: 1 <= k < |dates| ==> Instant(dates[k]) >= Instant(start)
  {
    forall i, j | 0 <= i < j < |dates| ensures Instant(dates[i]) < Instant(dates[j]) {
      EarlierMonthEarlierDay(dates[i].date, dates[j].date);
      LaterDayLaterInstant(dates[i], dates[j]);
    }
    forall k | 1 <= k < |dates| ensures Instant(dates[k]) >= Instant(start) {
      EarlierMonthEarlierDay(start.date, dates[k].date);
      LaterDayLaterInstant(start, dates[k]);
    }
  }

  /** Each entry of a monthly prefix from `start`'s month is its month's occurrence, at `start`'s hour and minute. */
  lemma MonthlyPrefixFacts(dates: seq<DateTime>, start: DateTime, dayOfWeek: int, weekOfMonth: int)
    requires start.Valid() && 0 <= dayOfWeek < 7 && 1 <= weekOfMonth <= 5
    requires MonthlyPrefix(dates, MonthIndex(start.date), dayOfWeek, weekOfMonth, start.hour, start.minute)
    ensures forall k :: 0 <= k < |dates| ==>
      dates[k].Valid() && Weekday(dates[k].date) == dayOfWeek
      && dates[k].hour == start.hour && dates[k].minute == start.minute
      && dates[k].second == 0 && dates[k].millisecond == 0
    ensures forall k :: 0 <= k < |dates| ==>
      MonthIndex(dates[k].date) == MonthIndex(start.date) + k
      && dates[k].date == OccurrenceInMonth(MonthIndex(start.date) + k, dayOfWeek, weekOfMonth)
  {
  }

  /** The occurrence in the month with index `year * 12 + month` is the one `GetNthWeekdayOfMonth(year, month, …)` finds. */
  lemma OccurrenceAt(year: int, month: Month, dayOfWeek: int, weekOfMonth: int)
    requires 0 <= dayOfWeek < 7 && 1 <= weekOfMonth <= 5
    ensures GetNthWeekdayOfMonth(year, month, dayOfWeek, weekOfMonth).Some?
    ensures OccurrenceInMonth(year * 12 + month, dayOfWeek, weekOfMonth) == GetNthWeekdayOfMonth(year, month, dayOfWeek, weekOfMonth).value
  {
    assert (year * 12 + month) / 12 == year && (year * 12 + month) % 12 == month;
  }

  /** An occurrence in a later month than `start`'s, at a valid time of day, comes after `start`. */
  lemma LaterMonthLater(start: DateTime, at: DateTime)
    requires start.Valid() && at.Valid() && MonthIndex(start.date) < MonthIndex(at.date)
    ensures Instant(at) >= Instant(start)
  {
    EarlierMonthEarlierDay(start.date, at.date);
    LaterDayLaterInstant(start, at);
  }

  /** Appending the occurrence of the next month keeps a monthly prefix. */
  lemma MonthlyPrefixAppend(dates: seq<DateTime>, mi0: int, dayOfWeek: int, weekOfMonth: int, hour: int, minute: int, date: Date)
    requires 0 <= dayOfWeek < 7 && 1 <= weekOfMonth <= 5
    requires MonthlyPrefix(dates, mi0, dayOfWeek, weekOfMonth, hour, minute)
    requires date == OccurrenceInMonth(mi0 + |dates|, dayOfWeek, weekOfMonth)
    ensures MonthlyPrefix(dates + [DateTime(date, hour, minute, 0, 0)], mi0, dayOfWeek, weekOfMonth, hour, minute)
  {
    var ext := dates + [DateTime(date, hour, minute, 0, 0)];
    forall k | 0 <= k < |ext|
      ensures ext[k] == DateTime(OccurrenceInMonth(mi0 + k, dayOfWeek, weekOfMonth), hour, minute, 0, 0)
    {
      if k < |dates| {
        assert ext[k] == dates[k];
      }
    }
  }

  /** The occurrence in the next month exists, extends the prefix and, after the first, is not before `start`. */
  lemma MonthlyStep(dates: seq<DateTime>, start: DateTime, dayOfWeek: int, weekOfMonth: int, year: int, month: Month)
    requires start.Valid() && 0 <= dayOfWeek < 7 && 1 <= weekOfMonth <= 5
    requires MonthlyPrefix(dates, MonthIndex(start.date), dayOfWeek, weekOfMonth, start.hour, start.minute)
    requires year * 12 + month == MonthIndex(start.date) + |dates|
    ensures GetNthWeekdayOfMonth(year, month, dayOfWeek, weekOfMonth).Some?
    ensures var at := DateTime(GetNthWeekdayOfMonth(year, month, dayOfWeek, weekOfMonth).value, start.hour, start.minute, 0, 0);
      (|dates| > 0 ==> Instant(at) >= Instant(start))
      && MonthlyPrefix(dates + [at], MonthIndex(start.date), dayOfWeek, weekOfMonth, start.hour, start.minute)
  {
    var date := GetNthWeekdayOfMonth(year, month, dayOfWeek, weekOfMonth).value;
    var at := DateTime(date, start.hour, start.minute, 0, 0);
    OccurrenceAt(year, month, dayOfWeek, weekOfMonth);
    MonthlyPrefixAppend(dates, MonthIndex(start.date), dayOfWeek, weekOfMonth, start.hour, start.minute, date);
    if |dates| > 0 {
      LaterMonthLater(start, at);
    }
  }

  /**
   * Up to `count` dates on the `weekOfMonth`-th (5: last) `dayOfWeek` of
   * consecutive months from `start`'s month on, at `start`'s hour and
   * minute with zero seconds. Only months up to December of
   * `start`'s year + 3 are examined. Every month has such a day and every
   * month after `start`'s is later than `start`, so no month is skipped.
   */
  method GenerateMonthlyDates(start: DateTime, dayOfWeek: int, weekOfMonth: int, count: int)
    returns (dates: seq<DateTime>)
    requires start.Valid() && 0 <= dayOfWeek < 7 && 1 <= weekOfMonth <= 5
    ensures |dates| == if count <= 0 then 0 else Min(count, 48 - start.date.month)
    ensures 0 <= count <= 37 ==> |dates| == count
    ensures forall k :: 0 <= k < |dates| ==>
      dates[k].Valid() && Weekday(dates[k].date) == dayOfWeek
      && dates[k].hour == start.hour && dates[k].minute == start.minute
      && dates[k].second == 0 && dates[k].millisecond == 0
    ensures forall k :: 0 <= k < |dates| ==>
      MonthIndex(dates[k].date) == MonthIndex(start.date) + k
      && dates[k].date == OccurrenceInMonth(MonthIndex(start.date) + k, dayOfWeek, weekOfMonth)
      && dates[k].date.year <= start.date.year + 3
    ensures forall i, j :: 0 <= i < j < |dates| ==> Instant(dates[i]) < Instant(dates[j])
    ensures forall k :: 1 <= k < |dates| ==> Instant(dates[k]) >= Instant(start)
  {
    dates := [];
    var year := start.date.year;
    var month: int := start.date.month;
    var hours := start.hour;
    var minutes := start.minute;
    ghost var mi0 := MonthIndex(start.date);

    while |dates| < count
      invariant 0 <= month < 12 && year <= start.date.year + 3
      invariant |dates| <= if count <= 0 then 0 else count
      invariant year * 12 + month == mi0 + |dates|
      invariant MonthlyPrefix(dates, mi0, dayOfWeek, weekOfMonth, hours, minutes)
      decreases start.date.year * 12 + 48 - (year * 12 + month)
    {
      MonthlyStep(dates, start, dayOfWeek, weekOfMonth, year, month);
      var date := GetNthWeekdayOfMonth(year, month, dayOfWeek, weekOfMonth);
      if date.Some? {
        var at := DateTime(date.value, hours, minutes, 0, 0);
        if Instant(at) >= Instant(start) || |dates| == 0 {
          dates := dates + [at];
        }
      }
      month := month + 1;
      if month > 11 {
        month := 0;
        year := year + 1;
      }
      if year > start.date.year + 3 {
        break;
      }
    }
    MonthlyPrefixFacts(dates, start, dayOfWeek, weekOfMonth);
    MonthlyIncreasing(dates, start, dayOfWeek, weekOfMonth);
  }

  /** Integer division rounded down, as `Math.floor(a / b)` for `b != 0`. */
  function FloorDiv(a: int, b: int): (q: int)
    requires b != 0
    ensures b > 0 ==> q * b <= a < q * b + b
    ensures b < 0 ==> q * b + b < a <= q * b
  {
    if b > 0 then a / b else (-a) / (-b)
  }

  /**
   * The largest number of occurrences the form allows: 24 monthly, or
   * two years of weeks divided by the interval (default 1). `None`
   * stands for the `Infinity` a zero interval gives.
   */
  function GetMaxOccurrences(recurrenceType: RecurrenceType, intervalWeeks: Option<int>): (r: Option<int>)
    ensures recurrenceType == Monthly ==> r == Some(24)
    ensures recurrenceType == Weekly && intervalWeeks == None ==> r == Some(104)
    ensures r.None? <==> recurrenceType == Weekly && intervalWeeks == Some(0)
    ensures recurrenceType == Weekly && intervalWeeks.Some? && intervalWeeks.value != 0 ==>
      r == Some(FloorDiv(104, intervalWeeks.value))
  {
    var twoYearsInWeeks := 104;
    match (recurrenceType, intervalWeeks)
    case (Monthly, _) => Some(24)
    case (Weekly, None) => Some(FloorDiv(twoYearsInWeeks, 1))
    case (Weekly, Some(interval)) =>
      if interval == 0 then None else Some(FloorDiv(twoYearsInWeeks, interval))
  }

  /** A weekly series within the cap spans at most two years of weeks. */
  lemma WeeklyCapSpansTwoYears(intervalWeeks: int, count: int)
    requires intervalWeeks >= 1 && 0 <= count
    requires count <= GetMaxOccurrences(Weekly, Some(intervalWeeks)).GetOr(0)
    ensures count * intervalWeeks <= 104
  {
    var q := FloorDiv(104, intervalWeeks);
    assert q * intervalWeeks <= 104;
    assert count <= q;
    assert count * intervalWeeks <= q * intervalWeeks;
  }

  /** For a positive interval the cap is the largest count whose weeks fit in two years. */
  lemma WeeklyCapIsLargest(intervalWeeks: int)
    requires intervalWeeks >= 1
    ensures var m := GetMaxOccurrences(Weekly, Some(intervalWeeks)).value;
      m >= 0 && m * intervalWeeks <= 104 < (m + 1) * intervalWeeks
  {
    var m := FloorDiv(104, intervalWeeks);
    assert m * intervalWeeks <= 104 < m * intervalWeeks + intervalWeeks;
    assert (m + 1) * intervalWeeks == m * intervalWeeks + intervalWeeks;
    if m < 0 {
      assert m * intervalWeeks < 0;
    }
  }

  function IntervalText(intervalWeeks: Option<int>): string {
    match intervalWeeks
    case Some(n) => IntToString(n)
    case None => "undefined"
  }

  /** The label shown for a series, e.g. "Every Tuesday" or "Last Friday of every month". */
  function FormatRecurrencePattern(recurrenceType: RecurrenceType, dayOfWeek: int,
                                   weekOfMonth: Option<int>, intervalWeeks: Option<int>): (r: string)
    requires 0 <= dayOfWeek < 7
    requires weekOfMonth.Some? ==> 1 <= weekOfMonth.value <= 5
    ensures recurrenceType == Weekly ==> "Every " <= r
    ensures recurrenceType == Monthly && weekOfMonth.Some? ==>
      WeekLabels[weekOfMonth.value - 1] + " " <= r
    ensures recurrenceType == Monthly && weekOfMonth.None? ==> r == ""
  {
    var dayName := DayNames[dayOfWeek];
    if recurrenceType == Weekly then
      if intervalWeeks == Some(1) then "Every " + dayName
      else "Every " + IntervalText(intervalWeeks) + " weeks on " + dayName
    else if weekOfMonth.Some? then
      WeekLabels[weekOfMonth.value - 1] + " " + dayName + " of every month"
    else ""
  }

  lemma DayNamesDistinct(a: int, b: int)
    requires 0 <= a < 7 && 0 <= b < 7 && a != b
    ensures DayNames[a] != DayNames[b]
  {
  }

  /** A weekly label never reads like a monthly one: the monthly labels start with a week label. */
  lemma WeeklyAndMonthlyLabelsDiffer(d1: int, w1: Option<int>, i1: Option<int>, d2: int, w2: int)
    requires 0 <= d1 < 7 && 0 <= d2 < 7 && 1 <= w2 <= 5
    requires w1.Some? ==> 1 <= w1.value <= 5
    ensures FormatRecurrencePattern(Weekly, d1, w1, i1) != FormatRecurrencePattern(Monthly, d2, Some(w2), None)
  {
    var a := FormatRecurrencePattern(Weekly, d1, w1, i1);
    var b := FormatRecurrencePattern(Monthly, d2, Some(w2), None);
    assert a[0] == 'E';
    assert b[0] == WeekLabels[w2 - 1][0];
  }

  /** Different monthly schedules get different labels. */
  lemma MonthlyLabelInjective(d1: int, w1: int, d2: int, w2: int)
    requires 0 <= d1 < 7 && 0 <= d2 < 7 && 1 <= w1 <= 5 && 1 <= w2 <= 5
    requires FormatRecurrencePattern(Monthly, d1, Some(w1), None) == FormatRecurrencePattern(Monthly, d2, Some(w2), None)
    ensures d1 == d2 && w1 == w2
  {
    var s := FormatRecurrencePattern(Monthly, d1, Some(w1), None);
    var l1, l2 := WeekLabels[w1 - 1], WeekLabels[w2 - 1];
    assert s[0] == l1[0] && s[0] == l2[0];
    assert w1 == w2;
    var tail := " of every month";
    var p := l1 + " ";
    assert s == p + DayNames[d1] + tail;
    assert s == p + DayNames[d2] + tail;
    assert DayNames[d1] == s[|p|..|s| - |tail|];
    assert DayNames[d2] == s[|p|..|s| - |tail|];
    if d1 != d2 {
      DayNamesDistinct(d1, d2);
    }
  }

  /** "Every <Day>" labels name the day. */
  lemma WeeklyLabelInjective(d1: int, d2: int, w: Option<int>)
    requires 0 <= d1 < 7 && 0 <= d2 < 7
    requires w.Some? ==> 1 <= w.value <= 5
    requires FormatRecurrencePattern(Weekly, d1, w, Some(1)) == FormatRecurrencePattern(Weekly, d2, w, Some(1))
    ensures d1 == d2
  {
    var s := FormatRecurrencePattern(Weekly, d1, w, Some(1));
    assert DayNames[d1] == s[6..];
    assert DayNames[d2] == s[6..];
    if d1 != d2 {
      DayNamesDistinct(d1, d2);
    }
  }

  /** `YYYY-MM-DD` with a 1-based, zero-padded month and a zero-padded day. */
  function GenerateDateSlugSuffix(d: Date): (r: string)
    requires d.Valid()
    ensures var n := |IntToString(d.year)|;
      |r| == n + 6 && r[..n] == IntToString(d.year) && r[n] == '-' && r[n + 3] == '-'
      && AllDigits(r[n + 1..n + 3]) && ParseDigits(r[n + 1..n + 3]) == d.month + 1
      && AllDigits(r[n + 4..]) && ParseDigits(r[n + 4..]) == d.day
  {
    PadStart2Nat(d.month + 1);
    PadStart2Nat(d.day);
    IntToString(d.year) + "-" + PadStart2(NatToString(d.month + 1)) + "-" + PadStart2(NatToString(d.day))
  }

  /** Reads a `YYYY-MM-DD` suffix back into a date; `None` unless it names a valid day. */
  function ParseDateSlugSuffix(s: string): (r: Option<Date>)
    ensures r.Some? ==> r.value.Valid()
  {
    if |s| == 10 && s[4] == '-' && s[7] == '-'
       && AllDigits(s[..4]) && AllDigits(s[5..7]) && AllDigits(s[8..])
    then
      var year, month, day := ParseDigits(s[..4]), ParseDigits(s[5..7]) - 1, ParseDigits(s[8..]);
      if 0 <= month < 12 && 1 <= day <= DaysInMonth(year, month) then Some(Date(year, month, day))
      else None
    else None
  }

  /** For four-digit years the suffix determines the date. */
  lemma SlugSuffixRoundTrip(d: Date)
    requires d.Valid() && 1000 <= d.year <= 9999
    ensures var s := GenerateDateSlugSuffix(d); |s| == 10 && s[4] == '-' && s[7] == '-'
    ensures ParseDateSlugSuffix(GenerateDateSlugSuffix(d)) == Some(d)
  {
    var y := NatToString(d.year);
    var m := PadStart2(NatToString(d.month + 1));
    var dd := PadStart2(NatToString(d.day));
    NatToStringFourDigits(d.year);
    PadStart2Nat(d.month + 1);
    PadStart2Nat(d.day);
    ParseNatToString(d.year);
    DashedParts(y, m, dd);
  }

  /** A `YYYY-MM-DD` string splits back into its three fields. */
  lemma DashedParts(y: string, m: string, dd: string)
    requires |y| == 4 && |m| == 2 && |dd| == 2
    ensures var s := y + "-" + m + "-" + dd;
      |s| == 10 && s[4] == '-' && s[7] == '-' && s[..4] == y && s[5..7] == m && s[8..] == dd
  {
    var s := y + "-" + m + "-" + dd;
    assert s[..4] == y;
    assert s[5..7] == m;
    assert s[8..] == dd;
  }
}
