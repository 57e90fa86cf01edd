/** The progress-pill widget: the seconds-based share of the year, elapsed or remaining. */
module ProgressPillWidget {
  import opened Gregorian
  import opened Timelines
  import opened Ratios
  import opened Wrappers
  import AppIntent

  /** `ProgressPillEntry` */
  datatype ProgressPillEntry = ProgressPillEntry(
    date: Instant,
    displayOption: AppIntent.YearProgressOption,
    decimalPlaces: int)

  /** December 31st, 23:59:59 of `year`. */
  function EndOfYear(year: int): Instant
    requires year >= 1
  {
    ToInstant(DateTime(year, 12, 31, 23 * 3600 + 59 * 60 + 59))
  }

  /** `totalSeconds`: last second of the year minus its first, plus one. */
  function TotalSeconds(year: int): (n: int)
    requires year >= 1
    ensures n == DaysInYear(year) * SecondsPerDay
    ensures n == YearStart(year + 1) - YearStart(year)
  {
    MonthsFillYear(year);
    DaysBeforeMonthStep(year, 12);
    YearLength(year);
    EndOfYear(year) - YearStart(year) + 1
  }

  /** `elapsedPercentage`: seconds since January 1st, 00:00:00 over the year's length. */
  function ElapsedPercentage(date: Instant): (p: real)
    ensures 0.0 <= p < 100.0
    ensures date == YearStart(YearOf(date)) ==> p == 0.0
  {
    var year := YearOf(date);
    PercentageBounds(date - YearStart(year), TotalSeconds(year));
    Percentage(date - YearStart(year), TotalSeconds(year))
  }

  /** Within one year the elapsed share never decreases. */
  lemma ElapsedPercentageMonotone(a: Instant, b: Instant)
    requires YearOf(a) == YearOf(b) && a <= b
    ensures ElapsedPercentage(a) <= ElapsedPercentage(b)
  {
    var year := YearOf(a);
    PercentageMonotone(a - YearStart(year), b - YearStart(year), TotalSeconds(year));
  }

  /** The very first second of any year shows 0% elapsed. */
  lemma ElapsedAtYearStart(year: int)
    requires year >= 1
    ensures ElapsedPercentage(YearStart(year)) == 0.0
  {
    YearLength(year);
    YearOfUnique(YearStart(year), year);
  }

  /** `displayPercentage`: the elapsed share, or what is left of 100. */
  function DisplayPercentage(entry: ProgressPillEntry): (p: real)
    ensures entry.displayOption == AppIntent.Elapsed ==> 0.0 <= p < 100.0
    ensures entry.displayOption == AppIntent.Remaining ==> 0.0 < p <= 100.0
  {
    if entry.displayOption == AppIntent.Elapsed then ElapsedPercentage(entry.date)
    else 100.0 - ElapsedPercentage(entry.date)
  }

  /** The two perspectives on one instant add up to 100%. */
  lemma PerspectivesSumTo100(date: Instant, decimalPlaces: int)
    ensures DisplayPercentage(ProgressPillEntry(date, AppIntent.Elapsed, decimalPlaces)) +
            DisplayPercentage(ProgressPillEntry(date, AppIntent.Remaining, decimalPlaces)) == 100.0
  {
  }

  /** `progressBarPercentage`: the bar always fills with the elapsed share. */
  function ProgressBarPercentage(entry: ProgressPillEntry): (p: real)
    ensures 0.0 <= p < 100.0
  {
    ElapsedPercentage(entry.date)
  }

  /** The bar ignores the display option: it is the elapsed perspective's number. */
  lemma ProgressBarIgnoresDisplayOption(entry: ProgressPillEntry)
    ensures ProgressBarPercentage(entry) == DisplayPercentage(entry.(displayOption := AppIntent.Elapsed))
    ensures entry.displayOption == AppIntent.Remaining ==>
      ProgressBarPercentage(entry) == 100.0 - DisplayPercentage(entry)
  {
  }

  lemma NextMultiple(a: int, step: int)
    ensures (a + 1) * step == a * step + step
  {
  }

  /** Prepending `from` to the multiples of `step` that start one step later. */
  lemma PrependMultiple(from: int, step: int, rest: seq<int>)
    requires forall k :: 0 <= k < |rest| ==> rest[k] == from + step + k * step
    ensures forall k :: 0 <= k < |rest| + 1 ==> ([from] + rest)[k] == from + k * step
  {
    forall k | 0 <= k < |rest| + 1
      ensures ([from] + rest)[k] == from + k * step
    {
      if k > 0 {
        NextMultiple(k - 1, step);
      }
    }
  }

  /** `stride(from:through:by:)` for a positive step: `from`, `from + step`, ...
      up to and including `through`. */
  function Stride(from: int, through: int, step: int): (s: seq<int>)
    requires step > 0
    ensures forall k :: 0 <= k < |s| ==> s[k] == from + k * step
    ensures from <= through ==> |s| > 0 && from + (|s| - 1) * step <= through < from + |s| * step
    ensures from > through ==> s == []
    decreases through - from + step
  {
    if from > through then []
    else
      var rest := Stride(from + step, through, step);
      PrependMultiple(from, step, rest);
      NextMultiple(|rest|, step);
      NextMultiple(|rest| - 1, step);
      [from] + rest
  }

  /** The minute offsets of the timeline: 0, 5, ..., 60. */
  function MinuteOffsets(): (s: seq<int>)
    ensures |s| == 13
    ensures forall k :: 0 <= k < 13 ==> s[k] == 5 * k
  {
    Stride(0, 60, 5)
  }

  /** `ProgressPillProvider.placeholder` */
  function Placeholder(now: Instant): ProgressPillEntry {
    ProgressPillEntry(now, AppIntent.Remaining, 3)
  }

  /** `ProgressPillProvider.snapshot`. `decimalPlaces` is the configuration's precision. */
  function Snapshot(configuration: AppIntent.YearProgressIntent, decimalPlaces: int, now: Instant): ProgressPillEntry {
    ProgressPillEntry(now, AppIntent.ResolvedProgressOption(configuration).displayOption, decimalPlaces)
  }

  /** The placeholder shows what an unconfigured widget shows, the remaining
      share, with three decimal places. */
  lemma PlaceholderIsUnconfiguredSnapshot(now: Instant)
    ensures Placeholder(now) == Snapshot(AppIntent.YearProgressIntent(None), 3, now)
    ensures DisplayPercentage(Placeholder(now)) == 100.0 - ElapsedPercentage(now)
  {
  }

  /** `ProgressPillProvider.timeline`: thirteen entries five minutes apart, each
      the snapshot moved to its own instant, then a refresh five minutes after the
      last one, at now + 65 minutes. */
  function TimelineFor(configuration: AppIntent.YearProgressIntent, decimalPlaces: int, now: Instant)
    : (tl: Timeline<ProgressPillEntry>)
    ensures |tl.entries| == 13
    ensures forall k :: 0 <= k < 13 ==>
      tl.entries[k] == Snapshot(configuration, decimalPlaces, now).(date := now + k * 5 * SecondsPerMinute)
    ensures tl.policy == After(now + 65 * SecondsPerMinute)
  {
    var offsets := MinuteOffsets();
    var option := AppIntent.ResolvedProgressOption(configuration).displayOption;
    var entries := seq(|offsets|, i requires 0 <= i < |offsets| =>
      ProgressPillEntry(AddingMinutes(now, offsets[i]), option, decimalPlaces));
    var last := if |entries| > 0 then entries[|entries| - 1].date else now;
    AddingMinutesTwice(now, 60, 5);
    Timeline(entries, After(AddingMinutes(last, 5)))
  }

  /** Within one year the timeline's entries show a non-decreasing elapsed share. */
  lemma TimelineProgressMonotone(configuration: AppIntent.YearProgressIntent, decimalPlaces: int,
                                 now: Instant, j: int, k: int)
    requires 0 <= j <= k < 13
    requires YearOf(now) == YearOf(now + 65 * SecondsPerMinute)
    ensures ProgressBarPercentage(TimelineFor(configuration, decimalPlaces, now).entries[j]) <=
            ProgressBarPercentage(TimelineFor(configuration, decimalPlaces, now).entries[k])
  {
    var entries := TimelineFor(configuration, decimalPlaces, now).entries;
    var a := now + j * 5 * SecondsPerMinute;
    var b := now + k * 5 * SecondsPerMinute;
    assert entries[j].date == a && entries[k].date == b;
    var year := YearOf(now);
    assert YearStart(year) <= a <= b < YearStart(year + 1) by {
      assert YearOf(now + 65 * SecondsPerMinute) == year;
    }
    YearOfUnique(a, year);
    YearOfUnique(b, year);
    ElapsedPercentageMonotone(a, b);
  }
}
