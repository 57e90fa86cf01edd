/** Gregorian day arithmetic on a single, uniform seconds scale.

    An instant is a count of seconds since 0001-01-01T00:00:00 of the
    proleptic Gregorian calendar. There are no time zones, daylight-saving
    shifts or leap seconds: every civil day is exactly 86400 seconds long.
    This is the part of `Calendar.current` that the widgets rely on. */
module Gregorian {

  const SecondsPerDay: int := 86400
  const SecondsPerMinute: int := 60

  /** Seconds since 0001-01-01T00:00:00. */
  type Instant = nat

  /** A broken-down civil date: year, month 1..12, day of month and second of the day. */
  datatype DateTime = DateTime(year: int, month: int, day: int, second: int)

  predicate IsLeap(year: int) {
    year % 4 == 0 && (year % 100 != 0 || year % 400 == 0)
  }

  function DaysInYear(year: int): int {
    if IsLeap(year) then 366 else 365
  }

  function DaysInMonth(year: int, month: int): (n: int)
    requires 1 <= month <= 12
    ensures 28 <= n <= 31
    ensures n == 29 <==> month == 2 && IsLeap(year)
  {
    if month == 2 then (if IsLeap(year) then 29 else 28)
    else if month == 4 || month == 6 || month == 9 || month == 11 then 30
    else 31
  }

  /** Days of the year that lie in the months before `month` (13 means the whole year). */
  function DaysBeforeMonth(year: int, month: int): (n: int)
    requires 1 <= month <= 13
    ensures 0 <= n <= 366
  {
    var common :=
      if month == 1 then 0 else if month == 2 then 31 else if month == 3 then 59
      else if month == 4 then 90 else if month == 5 then 120 else if month == 6 then 151
      else if month == 7 then 181 else if month == 8 then 212 else if month == 9 then 243
      else if month == 10 then 273 else if month == 11 then 304 else if month == 12 then 334
      else 365;
    if month > 2 && IsLeap(year) then common + 1 else common
  }

  /** The cumulative table agrees with the month lengths. */
  lemma DaysBeforeMonthStep(year: int, month: int)
    requires 1 <= month <= 12
    ensures DaysBeforeMonth(year, month + 1) == DaysBeforeMonth(year, month) + DaysInMonth(year, month)
  {
  }

  /** The twelve months fill the year exactly. */
  lemma MonthsFillYear(year: int)
    ensures DaysBeforeMonth(year, 13) == DaysInYear(year)
  {
  }

  lemma DaysBeforeMonthMonotone(year: int, a: int, b: int)
    requires 1 <= a < b <= 13
    ensures DaysBeforeMonth(year, a) + DaysInMonth(year, a) <= DaysBeforeMonth(year, b)
  {
  }

  /** Days from 0001-01-01 to January 1st of `year`. */
  function DaysBeforeYear(year: int): int
    requires year >= 1
  {
    var p := year - 1;
    365 * p + p / 4 - p / 100 + p / 400
  }

  /** The closed form counts each earlier year with its own length. */
  lemma DaysBeforeYearStep(year: int)
    requires year >= 1
    ensures DaysBeforeYear(year + 1) == DaysBeforeYear(year) + DaysInYear(year)
  {
    var p := year - 1;
    DivSucc(p, 4);
    DivSucc(p, 100);
    DivSucc(p, 400);
    ModChain(year);
  }

  /** Multiples of 400 are multiples of 100, and those are multiples of 4. */
  lemma ModChain(y: int)
    ensures y % 400 == 0 ==> y % 100 == 0
    ensures y % 100 == 0 ==> y % 4 == 0
  {
    if y % 400 == 0 {
      MultipleMod(y / 400 * 4, 100);
    }
    if y % 100 == 0 {
      MultipleMod(y / 100 * 25, 4);
    }
  }

  lemma MultipleMod(k: int, m: int)
    requires m == 4 || m == 100
    ensures (k * m) % m == 0
  {
    if m == 4 {
      assert (k * 4) % 4 == 0;
    } else {
      assert (k * 100) % 100 == 0;
    }
  }

  /** Counting multiples of `m` up to `p + 1` adds one exactly when `p + 1` is one. */
  lemma DivSucc(p: nat, m: int)
    requires m == 4 || m == 100 || m == 400
    ensures (p + 1) / m == p / m + (if (p + 1) % m == 0 then 1 else 0)
  {
    if m == 4 {
      assert (p + 1) / 4 == p / 4 + (if (p + 1) % 4 == 0 then 1 else 0);
    } else if m == 100 {
      assert (p + 1) / 100 == p / 100 + (if (p + 1) % 100 == 0 then 1 else 0);
    } else {
      assert (p + 1) / 400 == p / 400 + (if (p + 1) % 400 == 0 then 1 else 0);
    }
  }

  /** The instant of January 1st, 00:00:00 of `year`. */
  function YearStart(year: int): (t: Instant)
    requires year >= 1
  {
    DaysBeforeYear(year) * SecondsPerDay
  }

  lemma YearLength(year: int)
    requires year >= 1
    ensures YearStart(year + 1) == YearStart(year) + DaysInYear(year) * SecondsPerDay
  {
    DaysBeforeYearStep(year);
  }

  lemma {:induction false} YearStartMonotone(a: int, b: int)
    requires 1 <= a < b
    ensures YearStart(a + 1) <= YearStart(b)
    decreases b - a
  {
    if a + 1 < b {
      YearStartMonotone(a + 1, b);
      YearLength(a + 1);
    }
  }

  /** The year containing `t`, found by searching forward from `year`. */
  function YearFrom(year: int, t: Instant): (y: int)
    requires year >= 1 && YearStart(year) <= t
    ensures y >= year && YearStart(y) <= t < YearStart(y + 1)
    decreases t - YearStart(year)
  {
    YearLength(year);
    if t < YearStart(year + 1) then year else YearFrom(year + 1, t)
  }

  /** `calendar.component(.year, from: t)` */
  function YearOf(t: Instant): (y: int)
    ensures y >= 1 && YearStart(y) <= t < YearStart(y + 1)
  {
    YearFrom(1, t)
  }

  /** Only one year contains a given instant. */
  lemma YearOfUnique(t: Instant, year: int)
    requires year >= 1 && YearStart(year) <= t < YearStart(year + 1)
    ensures YearOf(t) == year
  {
    var y := YearOf(t);
    if y < year {
      YearStartMonotone(y, year);
    } else if year < y {
      YearStartMonotone(year, y);
    }
  }

  /** The month holding day index `d0` (0-based) of `year`, searching from `month`. */
  function MonthFrom(year: int, month: int, d0: int): (m: int)
    requires 1 <= month <= 12
    requires DaysBeforeMonth(year, month) <= d0 < DaysInYear(year)
    ensures month <= m <= 12
    ensures DaysBeforeMonth(year, m) <= d0 < DaysBeforeMonth(year, m + 1)
    decreases 12 - month
  {
    DaysBeforeMonthStep(year, month);
    MonthsFillYear(year);
    if month == 12 || d0 < DaysBeforeMonth(year, month + 1) then month
    else MonthFrom(year, month + 1, d0)
  }

  predicate ValidDateTime(d: DateTime) {
    && d.year >= 1
    && 1 <= d.month <= 12
    && 1 <= d.day <= DaysInMonth(d.year, d.month)
    && 0 <= d.second < SecondsPerDay
  }

  /** 1-based ordinal of the date within its year. */
  function DayOfYear(d: DateTime): (n: int)
    requires ValidDateTime(d)
    ensures 1 <= n <= DaysInYear(d.year)
  {
    DaysBeforeMonthMonotone(d.year, d.month, 13);
    MonthsFillYear(d.year);
    DaysBeforeMonth(d.year, d.month) + d.day
  }

  /** `calendar.date(from: DateComponents(...))`: the instant of a civil date and time. */
  function ToInstant(d: DateTime): (t: Instant)
    requires ValidDateTime(d)
    ensures YearStart(d.year) <= t < YearStart(d.year + 1)
    ensures t == YearStart(d.year) + (DayOfYear(d) - 1) * SecondsPerDay + d.second
  {
    YearLength(d.year);
    YearStart(d.year) + (DayOfYear(d) - 1) * SecondsPerDay + d.second
  }

  /** The civil date and time of an instant. */
  function FromInstant(t: Instant): (d: DateTime)
    ensures ValidDateTime(d)
    ensures d.year == YearOf(t)
    ensures ToInstant(d) == t
  {
    var y := YearOf(t);
    YearLength(y);
    var r := t - YearStart(y);
    var d0 := r / SecondsPerDay;
    var m := MonthFrom(y, 1, d0);
    DaysBeforeMonthStep(y, m);
    DateTime(y, m, d0 - DaysBeforeMonth(y, m) + 1, r % SecondsPerDay)
  }

  lemma MonthUnique(year: int, m: int, n: int, d0: int)
    requires 1 <= m <= 12 && 1 <= n <= 12
    requires DaysBeforeMonth(year, m) <= d0 < DaysBeforeMonth(year, m + 1)
    requires DaysBeforeMonth(year, n) <= d0 < DaysBeforeMonth(year, n + 1)
    ensures m == n
  {
    if m < n {
      DaysBeforeMonthMonotone(year, m + 1, n + 1);
      DaysBeforeMonthMonotone(year, m, m + 1);
    } else if n < m {
      DaysBeforeMonthMonotone(year, n + 1, m + 1);
      DaysBeforeMonthMonotone(year, n, n + 1);
    }
  }

  /** Whole days and the second of the day are determined by their seconds count. */
  lemma DayOffsetUnique(q: int, r: int, q': int, r': int)
    requires 0 <= r < SecondsPerDay && 0 <= r' < SecondsPerDay
    requires q * SecondsPerDay + r == q' * SecondsPerDay + r'
    ensures q == q' && r == r'
  {
    DivModDay(q, r);
    DivModDay(q', r');
  }

  /** A valid date's day of the year lies within its month's span of days. */
  lemma DayOfYearInMonth(d: DateTime)
    requires ValidDateTime(d)
    ensures DaysBeforeMonth(d.year, d.month) <= DayOfYear(d) - 1 < DaysBeforeMonth(d.year, d.month + 1)
  {
    DaysBeforeMonthStep(d.year, d.month);
  }

  /** Within one year the day of the year determines the month and the day. */
  lemma DayOfYearUnique(d: DateTime, e: DateTime)
    requires ValidDateTime(d) && ValidDateTime(e)
    requires d.year == e.year && DayOfYear(d) == DayOfYear(e)
    ensures d.month == e.month && d.day == e.day
  {
    DayOfYearInMonth(d);
    DayOfYearInMonth(e);
    MonthUnique(d.year, d.month, e.month, DayOfYear(d) - 1);
  }

  /** Breaking an instant down and building it again are inverse. */
  lemma FromToInstant(d: DateTime)
    requires ValidDateTime(d)
    ensures FromInstant(ToInstant(d)) == d
  {
    var t := ToInstant(d);
    InstantInYear(t, d.year, DayOfYear(d) - 1, d.second);
    DayOfYearUnique(d, FromInstant(t));
  }

  /** The instant `t`, `n` whole days and `second` seconds into `year`, falls on
      the year's day `n + 1`, at that second. */
  lemma InstantInYear(t: Instant, year: int, n: int, second: int)
    requires year >= 1 && 0 <= n < DaysInYear(year) && 0 <= second < SecondsPerDay
    requires t == YearStart(year) + n * SecondsPerDay + second
    ensures FromInstant(t).year == year
    ensures DayOfYear(FromInstant(t)) == n + 1
    ensures FromInstant(t).second == second
  {
    YearLength(year);
    YearOfUnique(t, year);
    var d := FromInstant(t);
    DayOffsetUnique(DayOfYear(d) - 1, d.second, n, second);
  }

  /** Two instants with the same civil date and time are the same instant. */
  lemma ToInstantInjective(d: DateTime, e: DateTime)
    requires ValidDateTime(d) && ValidDateTime(e)
    requires ToInstant(d) == ToInstant(e)
    ensures d == e
  {
    FromToInstant(d);
    FromToInstant(e);
  }

  /** The instant of midnight starting the given civil date. */
  function DateStart(year: int, month: int, day: int): (t: Instant)
    requires year >= 1 && 1 <= month <= 12 && 1 <= day <= DaysInMonth(year, month)
    ensures t % SecondsPerDay == 0
    ensures FromInstant(t) == DateTime(year, month, day, 0)
  {
    var d := DateTime(year, month, day, 0);
    FromToInstant(d);
    ToInstantDays(d);
    ToInstant(d)
  }

  /** Midnights of two days of one month lie their difference in days apart. */
  lemma SameMonthDistance(year: int, month: int, i: int, j: int)
    requires year >= 1 && 1 <= month <= 12
    requires 1 <= i <= DaysInMonth(year, month) && 1 <= j <= DaysInMonth(year, month)
    ensures DateStart(year, month, i) - DateStart(year, month, j) == (i - j) * SecondsPerDay
  {
    var a := DateTime(year, month, i, 0);
    var b := DateTime(year, month, j, 0);
    assert DayOfYear(a) - DayOfYear(b) == i - j;
    assert ToInstant(a) - ToInstant(b) == (DayOfYear(a) - DayOfYear(b)) * SecondsPerDay;
  }

  /** `calendar.startOfDay(for: t)` */
  function StartOfDay(t: Instant): (s: Instant)
    ensures s <= t < s + SecondsPerDay
    ensures s % SecondsPerDay == 0
  {
    t - t % SecondsPerDay
  }

  /** Splitting a seconds count into whole days and the second of the day. */
  lemma DivModDay(q: int, r: int)
    requires 0 <= r < SecondsPerDay
    ensures (q * SecondsPerDay + r) / SecondsPerDay == q
    ensures (q * SecondsPerDay + r) % SecondsPerDay == r
  {
  }

  /** An instant counts whole days since the epoch plus the second of its day. */
  lemma ToInstantDays(d: DateTime)
    requires ValidDateTime(d)
    ensures ToInstant(d) / SecondsPerDay == DaysBeforeYear(d.year) + DayOfYear(d) - 1
    ensures ToInstant(d) % SecondsPerDay == d.second
  {
    var q := DaysBeforeYear(d.year) + DayOfYear(d) - 1;
    assert ToInstant(d) == q * SecondsPerDay + d.second;
    DivModDay(q, d.second);
  }

  /** Midnight of an instant's day has the same date, at second 0. */
  lemma StartOfDayDate(t: Instant)
    ensures FromInstant(StartOfDay(t)) == FromInstant(t).(second := 0)
    ensures YearOf(StartOfDay(t)) == YearOf(t)
  {
    var d := FromInstant(t);
    var d' := d.(second := 0);
    ToInstantDays(d);
    assert StartOfDay(t) == ToInstant(d');
    FromToInstant(d');
  }

  /** Two instants fall on the same civil day exactly when they share year, month and day. */
  lemma SameDayIffSameDate(a: Instant, b: Instant)
    ensures StartOfDay(a) == StartOfDay(b) <==>
      (FromInstant(a).year == FromInstant(b).year &&
       FromInstant(a).month == FromInstant(b).month &&
       FromInstant(a).day == FromInstant(b).day)
  {
    StartOfDayDate(a);
    StartOfDayDate(b);
    var da := FromInstant(a).(second := 0);
    var db := FromInstant(b).(second := 0);
    if da == db {
      assert StartOfDay(a) == ToInstant(da);
      assert StartOfDay(b) == ToInstant(db);
    }
  }

  /** `calendar.date(byAdding: .minute, value: minutes, to: t)`: exactly `minutes`
      whole minutes later, with the second within the minute kept. */
  function AddingMinutes(t: Instant, minutes: nat): (r: Instant)
    ensures t <= r
    ensures r / SecondsPerMinute == t / SecondsPerMinute + minutes
    ensures r % SecondsPerMinute == t % SecondsPerMinute
  {
    t + minutes * SecondsPerMinute
  }

  /** Adding minutes in two steps adds their sum. */
  lemma AddingMinutesTwice(t: Instant, a: nat, b: nat)
    ensures AddingMinutes(AddingMinutes(t, a), b) == AddingMinutes(t, a + b)
  {
  }

  /** `calendar.date(byAdding: .day, value: days, to: t)`: the time of day is kept
      and the day moves on by `days`. */
  function AddingDays(t: Instant, days: nat): (r: Instant)
    ensures r % SecondsPerDay == t % SecondsPerDay
    ensures StartOfDay(r) == StartOfDay(t) + days * SecondsPerDay
  {
    DivModDay(t / SecondsPerDay + days, t % SecondsPerDay);
    t + days * SecondsPerDay
  }

  /** `calendar.dateComponents([.day], from: a, to: b).day`: whole days from `a`
      to `b`, truncated toward zero when `b` precedes `a`. */
  function DaysBetween(a: int, b: int): (n: int)
    ensures a <= b ==> 0 <= n && n * SecondsPerDay <= b - a < (n + 1) * SecondsPerDay
    ensures b < a ==> n <= 0 && (-n) * SecondsPerDay <= a - b < (1 - n) * SecondsPerDay
  {
    if a <= b then (b - a) / SecondsPerDay else -((a - b) / SecondsPerDay)
  }

  /** `calendar.component(.weekday, from: t)`, numbered as Foundation does:
      Sunday = 1, ..., Saturday = 7. 0001-01-01 was a Monday. */
  function Weekday(t: Instant): (w: int)
    ensures 1 <= w <= 7
  {
    (t / SecondsPerDay + 1) % 7 + 1
  }

  /** The weekday advances by one, cyclically, from one day to the next. */
  lemma WeekdayNext(t: Instant)
    ensures Weekday(t + SecondsPerDay) == Weekday(t) % 7 + 1
  {
    assert (t + SecondsPerDay) / SecondsPerDay == t / SecondsPerDay + 1;
  }

  /** The weekday is the same at every instant of a day. */
  lemma WeekdayOfStartOfDay(t: Instant)
    ensures Weekday(StartOfDay(t)) == Weekday(t)
  {
    DivModDay(t / SecondsPerDay, 0);
  }

  /** 2024 is a leap year and January 1st, 2024 was a Monday. */
  lemma Example2024()
    ensures DaysInYear(2024) == 366
    ensures Weekday(DateStart(2024, 1, 1)) == 2
  {
    var t := DateStart(2024, 1, 1);
    assert t == DaysBeforeYear(2024) * SecondsPerDay;
    assert DaysBeforeYear(2024) == 738885;
  }
}
