/** The month-grid widget: the days of the current month laid out in weeks of
    seven cells, each cell marked as today, past or future. */
module MonthGridWidget {
  import opened Gregorian
  import opened Timelines
  import opened Wrappers
  import MonthGridIntent

  const DaysPerWeek: int := 7

  /** `MonthGridEntry` */
  datatype MonthGridEntry = MonthGridEntry(date: Instant, displayOption: MonthGridIntent.MonthGridDisplayOption)

  // ---------------------------------------------------------------------------
  // The days of the month

  /** Midnight of every day of one month, in order. */
  function MonthMidnights(year: int, month: int): (days: seq<Instant>)
    requires year >= 1 && 1 <= month <= 12
    ensures |days| == DaysInMonth(year, month)
    ensures forall k :: 0 <= k < |days| ==> days[k] == DateStart(year, month, k + 1)
  {
    var n := DaysInMonth(year, month);
    seq(n, k requires 0 <= k < n => DateStart(year, month, k + 1))
  }

  /** `MonthGridEntry.monthDays`: midnight of every day of the entry's month, in order. */
  function MonthDays(date: Instant): (days: seq<Instant>)
    ensures |days| == DaysInMonth(FromInstant(date).year, FromInstant(date).month)
    ensures 28 <= |days| <= 31
  {
    var d := FromInstant(date);
    MonthMidnights(d.year, d.month)
  }

  /** The k-th of the month's days is day k + 1 of the entry's year and month, at midnight. */
  lemma MonthDaysDates(date: Instant)
    ensures forall k :: 0 <= k < |MonthDays(date)| ==>
      FromInstant(MonthDays(date)[k]) == DateTime(FromInstant(date).year, FromInstant(date).month, k + 1, 0)
  {
    var d := FromInstant(date);
    var days := MonthDays(date);
    forall k | 0 <= k < |days|
      ensures FromInstant(days[k]) == DateTime(d.year, d.month, k + 1, 0)
    {
      assert days[k] == DateStart(d.year, d.month, k + 1);
    }
  }

  /** The month's days are consecutive midnights, starting on the 1st. */
  lemma MonthDaysConsecutive(date: Instant)
    ensures MonthDays(date)[0] == DateStart(FromInstant(date).year, FromInstant(date).month, 1)
    ensures MonthDays(date)[0] % SecondsPerDay == 0
    ensures forall k :: 0 <= k < |MonthDays(date)| ==>
      MonthDays(date)[k] == MonthDays(date)[0] + k * SecondsPerDay
  {
    var d := FromInstant(date);
    var days := MonthDays(date);
    assert days == MonthMidnights(d.year, d.month);
    forall k | 0 <= k < |days|
      ensures days[k] == days[0] + k * SecondsPerDay
    {
      SameMonthDistance(d.year, d.month, k + 1, 1);
    }
  }

  // ---------------------------------------------------------------------------
  // Day cells

  /** `ComparisonResult` */
  datatype Ordering = OrderedAscending | OrderedSame | OrderedDescending

  /** `calendar.compare(a, to: b, toGranularity: .day)` */
  function CompareDays(a: Instant, b: Instant): Ordering {
    if StartOfDay(a) < StartOfDay(b) then OrderedAscending
    else if StartOfDay(a) == StartOfDay(b) then OrderedSame
    else OrderedDescending
  }

  /** Comparing the other way round gives the converse order, and the same day
      compares as `orderedSame` exactly when `isDate(_:inSameDayAs:)` holds. */
  lemma CompareDaysConverse(a: Instant, b: Instant)
    ensures CompareDays(a, b) == OrderedAscending <==> CompareDays(b, a) == OrderedDescending
    ensures CompareDays(a, b) == OrderedSame <==> CompareDays(b, a) == OrderedSame
    ensures CompareDays(a, b) == OrderedSame <==> IsSameDay(a, b)
  {
  }

  /** `calendar.isDate(a, inSameDayAs: b)` */
  predicate IsSameDay(a: Instant, b: Instant) {
    StartOfDay(a) == StartOfDay(b)
  }

  /** The three fills a `DayCell` chooses between. */
  datatype CellFill = TodayFill | PastFill | FutureFill

  /** `DayCell`'s `isPast` */
  predicate IsPast(date: Instant, currentDate: Instant) {
    CompareDays(date, currentDate) == OrderedAscending
  }

  /** `DayCell`'s `isToday` */
  predicate IsToday(date: Instant, currentDate: Instant) {
    IsSameDay(date, currentDate)
  }

  /** The fill of a `DayCell`: today's colour wins over past. */
  function Fill(date: Instant, currentDate: Instant): CellFill {
    if IsToday(date, currentDate) then TodayFill
    else if IsPast(date, currentDate) then PastFill
    else FutureFill
  }

  /** A cell is never both today and past; it is today exactly when it has the
      current year, month and day; past and future are earlier and later days. */
  lemma FillClassification(date: Instant, currentDate: Instant)
    ensures !(IsToday(date, currentDate) && IsPast(date, currentDate))
    ensures Fill(date, currentDate) == TodayFill <==>
      (FromInstant(date).year == FromInstant(currentDate).year &&
       FromInstant(date).month == FromInstant(currentDate).month &&
       FromInstant(date).day == FromInstant(currentDate).day)
    ensures Fill(date, currentDate) == PastFill <==> StartOfDay(date) < StartOfDay(currentDate)
    ensures Fill(date, currentDate) == FutureFill <==> StartOfDay(currentDate) < StartOfDay(date)
  {
    SameDayIffSameDate(date, currentDate);
  }

  /** In the entry's own month, the cell of day `k + 1` is today, past or future
      exactly as `k + 1` compares with the entry's day of the month. */
  lemma MonthDayFill(date: Instant, k: int)
    requires 0 <= k < |MonthDays(date)|
    ensures Fill(MonthDays(date)[k], date) ==
      if k + 1 == FromInstant(date).day then TodayFill
      else if k + 1 < FromInstant(date).day then PastFill
      else FutureFill
  {
    var d := FromInstant(date);
    var days := MonthDays(date);
    assert days == MonthMidnights(d.year, d.month);
    var cell := days[k];
    assert StartOfDay(cell) == cell;
    StartOfDayDate(date);
    assert StartOfDay(date) == DateStart(d.year, d.month, d.day) by {
      assert FromInstant(StartOfDay(date)) == DateTime(d.year, d.month, d.day, 0);
    }
    SameMonthDistance(d.year, d.month, k + 1, d.day);
  }

  // ---------------------------------------------------------------------------
  // Weeks

  /** `n` empty cells. */
  function Blanks<T>(n: nat): (s: seq<Option<T>>)
    ensures |s| == n
    ensures forall i :: 0 <= i < n ==> s[i] == None
  {
    seq(n, _ => None)
  }

  /** Every element as a filled cell. */
  function Lift<T>(s: seq<T>): (r: seq<Option<T>>)
    ensures |r| == |s|
    ensures forall i :: 0 <= i < |s| ==> r[i] == Some(s[i])
  {
    seq(|s|, i requires 0 <= i < |s| => Some(s[i]))
  }

  /** The rows read one after the other. */
  function Flatten<T>(rows: seq<seq<T>>): seq<T> {
    if rows == [] then [] else rows[0] + Flatten(rows[1..])
  }

  predicate FullWeeks<T>(rows: seq<seq<T>>) {
    forall i :: 0 <= i < |rows| ==> |rows[i]| == DaysPerWeek
  }

  lemma {:induction false} FlattenAppend<T>(rows: seq<seq<T>>, row: seq<T>)
    ensures Flatten(rows + [row]) == Flatten(rows) + row
  {
    if rows != [] {
      assert (rows + [row])[1..] == rows[1..] + [row];
      FlattenAppend(rows[1..], row);
    }
  }

  lemma {:induction false} FlattenLength<T>(rows: seq<seq<T>>)
    requires FullWeeks(rows)
    ensures |Flatten(rows)| == DaysPerWeek * |rows|
  {
    if rows != [] {
      FlattenLength(rows[1..]);
    }
  }

  /** Cell `c` of row `r` is element `7 r + c` of the flattened rows. */
  lemma {:induction false} FlattenIndex<T>(rows: seq<seq<T>>, r: int, c: int)
    requires FullWeeks(rows) && 0 <= r < |rows| && 0 <= c < DaysPerWeek
    ensures |Flatten(rows)| == DaysPerWeek * |rows|
    ensures Flatten(rows)[DaysPerWeek * r + c] == rows[r][c]
  {
    FlattenLength(rows);
    if r > 0 {
      FlattenIndex(rows[1..], r - 1, c);
    }
  }

  /** A sequence whose length is a multiple of 7, cut into rows of 7. */
  function Rows<T>(s: seq<T>): (rows: seq<seq<T>>)
    requires |s| % DaysPerWeek == 0
    ensures FullWeeks(rows)
    ensures |rows| == |s| / DaysPerWeek
    ensures Flatten(rows) == s
    decreases |s|
  {
    if |s| == 0 then []
    else
      var rest := Rows(s[DaysPerWeek..]);
      assert [s[..DaysPerWeek]] + rest == [s[..DaysPerWeek]] + rest;
      assert s == s[..DaysPerWeek] + s[DaysPerWeek..];
      [s[..DaysPerWeek]] + rest
  }

  /** Rows of seven are determined by what they read as. */
  lemma {:induction false} RowsOfFlatten<T>(rows: seq<seq<T>>)
    requires FullWeeks(rows)
    ensures |Flatten(rows)| % DaysPerWeek == 0
    ensures Rows(Flatten(rows)) == rows
  {
    FlattenLength(rows);
    if rows != [] {
      var s := Flatten(rows);
      assert s[..DaysPerWeek] == rows[0];
      assert s[DaysPerWeek..] == Flatten(rows[1..]);
      RowsOfFlatten(rows[1..]);
    }
  }

  /** Empty cells after the last day, so that the last week is full. */
  function TrailingBlanks(leading: nat, n: nat): (t: nat)
    ensures t < DaysPerWeek
    ensures (leading + n + t) % DaysPerWeek == 0
  {
    (DaysPerWeek - (leading + n) % DaysPerWeek) % DaysPerWeek
  }

  /** `weekday - 1` blanks, the days in order, then blanks up to a multiple of 7. */
  function PaddedDays<T>(days: seq<T>, weekday: int): (cells: seq<Option<T>>)
    requires 1 <= weekday <= 7
    ensures |cells| % DaysPerWeek == 0
  {
    Blanks(weekday - 1) + Lift(days) + Blanks(TrailingBlanks(weekday - 1, |days|))
  }

  /** What `createWeekArrays` returns: no weeks for no days, otherwise the padded
      days cut into weeks. */
  function WeekGrid<T>(days: seq<T>, weekday: int): (weeks: seq<seq<Option<T>>>)
    requires 1 <= weekday <= 7
    ensures FullWeeks(weeks)
    ensures |days| == 0 ==> weeks == []
    ensures |days| > 0 ==>
      Flatten(weeks) == Blanks(weekday - 1) + Lift(days) + Blanks(TrailingBlanks(weekday - 1, |days|))
  {
    if |days| == 0 then [] else Rows(PaddedDays(days, weekday))
  }

  /** `createWeekArrays(from:)`, over any element type, with the weekday of the
      first element (Sunday = 1) supplied by the caller. */
  method CreateWeekArrays<T>(dates: seq<T>, weekday: int) returns (weeks: seq<seq<Option<T>>>)
    requires 1 <= weekday <= 7
    ensures weeks == WeekGrid(dates, weekday)
  {
    weeks := [];
    var currentWeek: seq<Option<T>> := [];
    if |dates| == 0 {
      return;
    }
    for i := 1 to weekday
      invariant currentWeek == Blanks(i - 1)
    {
      BlanksSnoc<T>(i - 1);
      currentWeek := currentWeek + [None];
    }
    for i := 0 to |dates|
      invariant FullWeeks(weeks) && |currentWeek| < DaysPerWeek
      invariant Flatten(weeks) + currentWeek == Blanks(weekday - 1) + Lift(dates[..i])
    {
      LiftSnoc(dates, i);
      AppendCell(weeks, currentWeek, Blanks(weekday - 1) + Lift(dates[..i]), Some(dates[i]));
      currentWeek := currentWeek + [Some(dates[i])];
      if |currentWeek| == DaysPerWeek {
        weeks := weeks + [currentWeek];
        currentWeek := [];
      }
    }
    assert dates[..|dates|] == dates;
    FlattenLength(weeks);
    TailWidth(weekday - 1, |dates|, |weeks|, |currentWeek|);
    ghost var filled := |currentWeek|;
    if |currentWeek| > 0 {
      while |currentWeek| < DaysPerWeek
        invariant filled <= |currentWeek| <= DaysPerWeek
        invariant Flatten(weeks) + currentWeek ==
          Blanks(weekday - 1) + Lift(dates) + Blanks(|currentWeek| - filled)
      {
        BlanksSnoc<T>(|currentWeek| - filled);
        AppendCell(weeks, currentWeek, Blanks(weekday - 1) + Lift(dates) + Blanks(|currentWeek| - filled), None);
        currentWeek := currentWeek + [None];
      }
      FlattenAppend(weeks, currentWeek);
      weeks := weeks + [currentWeek];
    } else {
      assert Flatten(weeks) + currentWeek == Flatten(weeks);
    }
    GridOfPadding(weeks, dates, weekday);
  }

  lemma BlanksSnoc<T>(n: nat)
    ensures Blanks<T>(n + 1) == Blanks<T>(n) + [None]
  {
  }

  lemma LiftSnoc<T>(s: seq<T>, i: int)
    requires 0 <= i < |s|
    ensures Lift(s[..i + 1]) == Lift(s[..i]) + [Some(s[i])]
  {
  }

  /** Appending a cell to the week being filled appends it to what the weeks read
      as, whether or not the week is then closed. */
  lemma AppendCell<T>(weeks: seq<seq<T>>, currentWeek: seq<T>, prefix: seq<T>, x: T)
    requires Flatten(weeks) + currentWeek == prefix
    ensures Flatten(weeks) + (currentWeek + [x]) == prefix + [x]
    ensures Flatten(weeks + [currentWeek + [x]]) + [] == prefix + [x]
  {
    FlattenAppend(weeks, currentWeek + [x]);
  }

  /** After the days, the week being filled holds `(weekday - 1 + n) % 7` cells;
      the tail padding completes it, or is empty when it is empty. */
  lemma TailWidth(leading: nat, n: nat, rows: int, filled: int)
    requires 0 <= filled < DaysPerWeek && DaysPerWeek * rows + filled == leading + n
    ensures filled == 0 ==> TrailingBlanks(leading, n) == 0
    ensures filled > 0 ==> TrailingBlanks(leading, n) == DaysPerWeek - filled
  {
  }

  /** Full weeks that read as the padded days are the week grid. */
  lemma GridOfPadding<T>(weeks: seq<seq<Option<T>>>, dates: seq<T>, weekday: int)
    requires 1 <= weekday <= 7 && |dates| > 0 && FullWeeks(weeks)
    requires Flatten(weeks) == Blanks(weekday - 1) + Lift(dates) + Blanks(TrailingBlanks(weekday - 1, |dates|))
    ensures weeks == WeekGrid(dates, weekday)
  {
    RowsOfFlatten(weeks);
  }

  /** There are ceil((weekday - 1 + n) / 7) weeks. */
  lemma WeekGridCount<T>(days: seq<T>, weekday: int)
    requires 1 <= weekday <= 7 && |days| > 0
    ensures |WeekGrid(days, weekday)| == (weekday - 1 + |days| + DaysPerWeek - 1) / DaysPerWeek
  {
    FlattenLength(WeekGrid(days, weekday));
  }

  /** Day `k` sits in week `(weekday - 1 + k) / 7`, column `(weekday - 1 + k) % 7`;
      in particular the first day sits in column `weekday - 1` of the first week,
      after `weekday - 1` empty cells. */
  lemma WeekGridCell<T>(days: seq<T>, weekday: int, k: int)
    requires 1 <= weekday <= 7 && 0 <= k < |days|
    ensures (weekday - 1 + k) / DaysPerWeek < |WeekGrid(days, weekday)|
    ensures WeekGrid(days, weekday)[(weekday - 1 + k) / DaysPerWeek][(weekday - 1 + k) % DaysPerWeek] == Some(days[k])
    ensures forall c :: 0 <= c < weekday - 1 ==> WeekGrid(days, weekday)[0][c] == None
  {
    var weeks := WeekGrid(days, weekday);
    var p := weekday - 1 + k;
    FlattenLength(weeks);
    FlattenIndex(weeks, p / DaysPerWeek, p % DaysPerWeek);
    forall c | 0 <= c < weekday - 1
      ensures weeks[0][c] == None
    {
      FlattenIndex(weeks, 0, c);
    }
  }

  /** A 30-day month that starts on a Wednesday fills five weeks: three blanks,
      the thirty days, and two blanks at the end. */
  lemma ThirtyDaysFromWednesday<T>(days: seq<T>)
    requires |days| == 30
    ensures |WeekGrid(days, 4)| == 5
    ensures Flatten(WeekGrid(days, 4)) == Blanks(3) + Lift(days) + Blanks(2)
  {
    WeekGridCount(days, 4);
  }

  /** The weeks the entry view lays out for `dates`: none for no dates, otherwise
      aligned on the calendar weekday of the first date. */
  function WeekArrays(dates: seq<Instant>): (weeks: seq<seq<Option<Instant>>>)
    ensures FullWeeks(weeks)
    ensures |dates| == 0 <==> weeks == []
  {
    if |dates| == 0 then []
    else
      WeekGridCell(dates, Weekday(dates[0]), 0);
      WeekGrid(dates, Weekday(dates[0]))
  }

  /** `createWeekArrays(from: entry.monthDays)` as the entry view calls it. */
  method EntryWeeks(entry: MonthGridEntry) returns (weeks: seq<seq<Option<Instant>>>)
    ensures weeks == WeekArrays(MonthDays(entry.date))
  {
    var days := MonthDays(entry.date);
    weeks := CreateWeekArrays(days, Weekday(days[0]));
  }

  /** A month fills four to six weeks. */
  lemma MonthWeekCount(date: Instant)
    ensures 4 <= |WeekArrays(MonthDays(date))| <= 6
  {
    var days := MonthDays(date);
    WeekGridCount(days, Weekday(days[0]));
  }

  /** In the grid of consecutive midnights, such as the month's days (see
      `MonthDaysConsecutive`), day k sits in the column of its own weekday, in
      the week counted from the weekday of the first day. */
  lemma ConsecutiveColumns(days: seq<Instant>, k: int)
    requires 0 <= k < |days| && days[0] % SecondsPerDay == 0
    requires forall j :: 0 <= j < |days| ==> days[j] == days[0] + j * SecondsPerDay
    ensures (Weekday(days[0]) - 1 + k) / DaysPerWeek < |WeekArrays(days)|
    ensures WeekArrays(days)[(Weekday(days[0]) - 1 + k) / DaysPerWeek][Weekday(days[k]) - 1] == Some(days[k])
  {
    ConsecutiveWeekdays(days, k);
    WeekGridCell(days, Weekday(days[0]), k);
  }

  /** Along consecutive midnights, the weekday column advances one per day. */
  lemma ConsecutiveWeekdays(days: seq<Instant>, k: int)
    requires 0 <= k < |days| && days[0] % SecondsPerDay == 0
    requires forall j :: 0 <= j < |days| ==> days[j] == days[0] + j * SecondsPerDay
    ensures (Weekday(days[0]) - 1 + k) % DaysPerWeek == Weekday(days[k]) - 1
  {
    WeekdayAfterDays(days[0], k);
  }

  /** `k` days after a midnight, the weekday has advanced by `k` columns. */
  lemma WeekdayAfterDays(t: Instant, k: nat)
    requires t % SecondsPerDay == 0
    ensures (Weekday(t) - 1 + k) % DaysPerWeek == Weekday(t + k * SecondsPerDay) - 1
  {
    var q := t / SecondsPerDay;
    assert t + k * SecondsPerDay == (q + k) * SecondsPerDay;
    DivModDay(q + k, 0);
    assert Weekday(t + k * SecondsPerDay) - 1 == (q + 1 + k) % DaysPerWeek;
    assert Weekday(t) - 1 == (q + 1) % DaysPerWeek;
    ModShift((q + 1) / DaysPerWeek, (q + 1) % DaysPerWeek + k);
  }

  /** Whole weeks do not move a column. */
  lemma ModShift(m: nat, r: nat)
    ensures (DaysPerWeek * m + r) % DaysPerWeek == r % DaysPerWeek
  {
  }

  // ---------------------------------------------------------------------------
  // Provider

  /** `MonthGridProvider.placeholder` */
  function Placeholder(now: Instant): MonthGridEntry {
    MonthGridEntry(now, MonthGridIntent.DaysLeft)
  }

  /** `MonthGridProvider.snapshot` */
  function Snapshot(configuration: MonthGridIntent.MonthGridIntent, now: Instant): MonthGridEntry {
    MonthGridEntry(now, MonthGridIntent.ResolvedDisplayOption(configuration))
  }

  /** The placeholder is what an unconfigured widget shows. */
  lemma PlaceholderIsUnconfiguredSnapshot(now: Instant)
    ensures Placeholder(now) == Snapshot(MonthGridIntent.MonthGridIntent(None, None), now)
  {
  }

  /** Midnight starting today, plus 24 hours. */
  function NextUpdate(now: Instant): (t: Instant)
    ensures now < t <= now + SecondsPerDay
    ensures t % SecondsPerDay == 0
  {
    StartOfDay(now) + 24 * 60 * 60
  }

  /** `MonthGridProvider.timeline`: one entry for now, refreshed at the next midnight. */
  function TimelineFor(configuration: MonthGridIntent.MonthGridIntent, now: Instant): (tl: Timeline<MonthGridEntry>)
    ensures tl.entries == [Snapshot(configuration, now)]
    ensures tl.policy == After(NextUpdate(now))
    ensures tl.policy.After? && now < tl.policy.date <= now + SecondsPerDay
  {
    Timeline([MonthGridEntry(now, MonthGridIntent.ResolvedDisplayOption(configuration))], After(NextUpdate(now)))
  }
}
