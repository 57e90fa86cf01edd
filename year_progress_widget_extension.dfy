/** The extension's year-progress widget: the seconds-based share of the year still left. */
module YearProgressWidgetExtension {
  import opened Gregorian
  import opened Timelines
  import opened Ratios
  import ProgressPillWidget
  import AppIntent
  import DaysLeftWidget
  import MonthGridWidget

  /** `YearProgressEntry` */
  datatype YearProgressEntry = YearProgressEntry(date: Instant, decimalPlaces: int)

  /** The number behind `percentageLeft`: seconds to the next January 1st over the year's length. */
  function PercentageLeft(date: Instant): (p: real)
    ensures 0.0 < p <= 100.0
    ensures date == YearStart(YearOf(date)) ==> p == 100.0
  {
    var year := YearOf(date);
    var startOfYear := YearStart(year);
    var endOfYear := YearStart(year + 1);
    PercentageBounds(date - startOfYear, endOfYear - startOfYear);
    PercentageComplement(date - startOfYear, endOfYear - startOfYear);
    Percentage(endOfYear - date, endOfYear - startOfYear)
  }

  /** The denominator is the progress pill's `totalSeconds`. */
  lemma DenominatorIsTotalSeconds(year: int)
    requires year >= 1
    ensures YearStart(year + 1) - YearStart(year) == ProgressPillWidget.TotalSeconds(year)
  {
  }

  /** What is left is exactly what the progress pill shows as remaining. */
  lemma PercentageLeftIsPillRemaining(date: Instant, decimalPlaces: int)
    ensures PercentageLeft(date) ==
      ProgressPillWidget.DisplayPercentage(ProgressPillWidget.ProgressPillEntry(date, AppIntent.Remaining, decimalPlaces))
  {
    var year := YearOf(date);
    PercentageComplement(date - YearStart(year), YearStart(year + 1) - YearStart(year));
  }

  /** Within one year, the share left strictly shrinks as time advances. */
  lemma PercentageLeftDecreasing(a: Instant, b: Instant)
    requires YearOf(a) == YearOf(b) && a < b
    ensures PercentageLeft(a) > PercentageLeft(b)
  {
    var year := YearOf(a);
    PercentageStrictlyMonotone(YearStart(year + 1) - b, YearStart(year + 1) - a, YearStart(year + 1) - YearStart(year));
  }

  /** At January 1st, 00:00:00 the whole year is left. */
  lemma FullAtYearStart(year: int)
    requires year >= 1
    ensures PercentageLeft(YearStart(year)) == 100.0
  {
    YearLength(year);
    YearOfUnique(YearStart(year), year);
  }

  /** `Provider.placeholder` */
  function Placeholder(now: Instant): YearProgressEntry {
    YearProgressEntry(now, 1)
  }

  /** `Provider.getSnapshot` */
  function Snapshot(now: Instant): YearProgressEntry {
    YearProgressEntry(now, 1)
  }

  /** `startOfTomorrow`: midnight of the day after adding one day to `now`. */
  function StartOfTomorrow(now: Instant): (t: Instant)
    ensures now < t <= now + SecondsPerDay
    ensures t == StartOfDay(now) + SecondsPerDay
  {
    StartOfDay(AddingDays(now, 1))
  }

  /** `Provider.getTimeline`: one entry for now, refreshed at the start of tomorrow. */
  function TimelineFor(now: Instant): (tl: Timeline<YearProgressEntry>)
    ensures tl.entries == [Snapshot(now)]
    ensures tl.policy == After(StartOfTomorrow(now))
    ensures tl.policy.After? && now < tl.policy.date <= now + SecondsPerDay
  {
    Timeline([YearProgressEntry(now, 1)], After(StartOfTomorrow(now)))
  }

  /** The placeholder, the snapshot and the timeline's entry all show one decimal
      place, and the refresh falls at the same instant as the days-left and
      month-grid widgets' next update. */
  lemma ProviderSchedule(now: Instant)
    ensures Placeholder(now).decimalPlaces == 1 && Snapshot(now).decimalPlaces == 1
    ensures forall e :: e in TimelineFor(now).entries ==> e.decimalPlaces == 1
    ensures StartOfTomorrow(now) == DaysLeftWidget.NextUpdate(now)
    ensures StartOfTomorrow(now) == MonthGridWidget.NextUpdate(now)
  {
  }
}
