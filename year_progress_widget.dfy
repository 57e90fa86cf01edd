/** The year-percentage widget: the share of the year's whole days that have passed, or what remains. */
module YearProgressWidget {
  import opened Gregorian
  import opened Timelines
  import opened Ratios
  import DaysLeftWidget

  /** `YearPercentageEntry` */
  datatype YearPercentageEntry = YearPercentageEntry(date: Instant, showRemaining: bool)

  /** `totalDays`: whole days from January 1st to the next January 1st. */
  function TotalDays(year: int): (n: int)
    requires year >= 1
    ensures n == DaysInYear(year)
    ensures n == 365 || n == 366
  {
    YearLength(year);
    DivModDay(DaysInYear(year), 0);
    DaysBetween(YearStart(year), YearStart(year + 1))
  }

  /** `daysPassed`: whole days from January 1st, 00:00 to the entry's date, truncated. */
  function DaysPassed(date: Instant): (n: int)
    ensures n == DayOfYear(FromInstant(date)) - 1
    ensures 0 <= n < TotalDays(YearOf(date))
  {
    var year := YearOf(date);
    var d := FromInstant(date);
    ToInstantDays(d);
    assert date - YearStart(year) == (DayOfYear(d) - 1) * SecondsPerDay + d.second;
    DivModDay(DayOfYear(d) - 1, d.second);
    DaysBetween(YearStart(year), date)
  }

  /** The truncated day count agrees with the days-left widget's count of passed days. */
  lemma DaysPassedAgreesWithDaysLeftWidget(date: Instant)
    ensures DaysPassed(date) == DaysLeftWidget.DaysPassed(date)
  {
  }

  /** `percentagePassed` */
  function PassedPercentage(date: Instant): (p: real)
    ensures 0.0 <= p < 100.0
  {
    var year := YearOf(date);
    PercentageBounds(DaysPassed(date), TotalDays(year));
    Percentage(DaysPassed(date), TotalDays(year))
  }

  /** `YearPercentageWidgetView.percentage` */
  function DisplayPercentage(entry: YearPercentageEntry): (p: real)
    ensures entry.showRemaining ==> 0.0 < p <= 100.0
    ensures !entry.showRemaining ==> 0.0 <= p < 100.0
  {
    var passed := PassedPercentage(entry.date);
    if entry.showRemaining then 100.0 - passed else passed
  }

  /** The two perspectives on one date add up to 100%. */
  lemma PerspectivesSumTo100(date: Instant)
    ensures DisplayPercentage(YearPercentageEntry(date, false)) + DisplayPercentage(YearPercentageEntry(date, true)) == 100.0
  {
  }

  /** Throughout January 1st the whole year remains. */
  lemma FullYearRemainsOnNewYearsDay(year: int, second: int)
    requires year >= 1 && 0 <= second < SecondsPerDay
    ensures DisplayPercentage(YearPercentageEntry(ToInstant(DateTime(year, 1, 1, second)), true)) == 100.0
    ensures DisplayPercentage(YearPercentageEntry(ToInstant(DateTime(year, 1, 1, second)), false)) == 0.0
  {
    FromToInstant(DateTime(year, 1, 1, second));
  }

  /** The percentage is the same at every instant of a calendar day. */
  lemma ConstantWithinDay(a: Instant, b: Instant, showRemaining: bool)
    requires StartOfDay(a) == StartOfDay(b)
    ensures DisplayPercentage(YearPercentageEntry(a, showRemaining)) == DisplayPercentage(YearPercentageEntry(b, showRemaining))
  {
    StartOfDayDate(a);
    StartOfDayDate(b);
    assert YearOf(a) == YearOf(b);
    assert DaysPassed(a) == DaysPassed(b);
  }

  /** Across the days of one year the passed share strictly grows from day to day. */
  lemma PassedPercentageGrowsDaily(a: Instant, b: Instant)
    requires YearOf(a) == YearOf(b) && StartOfDay(a) < StartOfDay(b)
    ensures PassedPercentage(a) < PassedPercentage(b)
  {
    var year := YearOf(a);
    StartOfDayDate(a);
    StartOfDayDate(b);
    ToInstantDays(FromInstant(StartOfDay(a)));
    ToInstantDays(FromInstant(StartOfDay(b)));
    PercentageStrictlyMonotone(DaysPassed(a), DaysPassed(b), TotalDays(year));
  }

  /** `YearPercentageProvider.placeholder` */
  function Placeholder(now: Instant): YearPercentageEntry {
    YearPercentageEntry(now, true)
  }

  /** `YearPercentageProvider.getSnapshot` */
  function Snapshot(now: Instant): YearPercentageEntry {
    YearPercentageEntry(now, true)
  }

  /** `YearPercentageProvider.getTimeline`: one entry, never reloaded. */
  function TimelineFor(now: Instant): Timeline<YearPercentageEntry> {
    Timeline([YearPercentageEntry(now, true)], Never)
  }

  /** Every entry the provider emits shows the remaining share of the year. */
  lemma ProviderShowsRemaining(now: Instant)
    ensures Placeholder(now) == Snapshot(now)
    ensures TimelineFor(now).entries == [Snapshot(now)] && TimelineFor(now).policy == Never
    ensures DisplayPercentage(Snapshot(now)) == 100.0 - PassedPercentage(now)
  {
  }
}
