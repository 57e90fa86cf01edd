/** The days-left widget: whole days left in, or passed of, the current year. */
module DaysLeftWidget {
  import opened Gregorian
  import opened Timelines
  import opened Wrappers
  import DaysLeftIntent

  /** `DaysLeftEntry` */
  datatype DaysLeftEntry = DaysLeftEntry(date: Instant, displayOption: DaysLeftIntent.DaysDisplayOption)

  /** Midnight of the year's first and last days, as the entry builds them. */
  function StartOfYear(year: int): (t: Instant)
    requires year >= 1
  {
    DateStart(year, 1, 1)
  }

  function StartOfLastDay(year: int): (t: Instant)
    requires year >= 1
  {
    DateStart(year, 12, 31)
  }

  /** Midnight of the date's own day lies `DayOfYear - 1` whole days into its year. */
  lemma StartOfDayOffset(date: Instant)
    ensures StartOfDay(date) ==
      YearStart(YearOf(date)) + (DayOfYear(FromInstant(date)) - 1) * SecondsPerDay
  {
    StartOfDayDate(date);
  }

  /** `DaysLeftEntry.daysLeft`: whole days from the start of today to December 31st.
      Today itself is not counted. */
  function DaysLeft(date: Instant): (n: int)
    ensures n == DaysInYear(YearOf(date)) - DayOfYear(FromInstant(date))
    ensures 0 <= n < DaysInYear(YearOf(date))
  {
    var year := YearOf(date);
    var today := StartOfDay(date);
    StartOfDayOffset(date);
    MonthsFillYear(year);
    DaysBeforeMonthStep(year, 12);
    assert StartOfLastDay(year) == YearStart(year) + (DaysInYear(year) - 1) * SecondsPerDay by {
      assert StartOfLastDay(year) == ToInstant(DateTime(year, 12, 31, 0));
      assert DayOfYear(DateTime(year, 12, 31, 0)) == DaysInYear(year);
    }
    var k := DaysInYear(year) - DayOfYear(FromInstant(date));
    assert StartOfLastDay(year) - today == k * SecondsPerDay;
    DivModDay(k, 0);
    DaysBetween(today, StartOfLastDay(year))
  }

  /** `DaysLeftEntry.daysPassed`: whole days from January 1st to the start of today.
      Today itself is not counted. */
  function DaysPassed(date: Instant): (n: int)
    ensures n == DayOfYear(FromInstant(date)) - 1
    ensures 0 <= n < DaysInYear(YearOf(date))
  {
    var year := YearOf(date);
    var today := StartOfDay(date);
    StartOfDayOffset(date);
    assert StartOfYear(year) == YearStart(year) by {
      assert StartOfYear(year) == ToInstant(DateTime(year, 1, 1, 0));
    }
    var k := DayOfYear(FromInstant(date)) - 1;
    assert today - StartOfYear(year) == k * SecondsPerDay;
    DivModDay(k, 0);
    DaysBetween(StartOfYear(year), today)
  }

  /** Today is counted neither as passed nor as left. */
  lemma DaysLeftPlusDaysPassed(date: Instant)
    ensures DaysLeft(date) + DaysPassed(date) == DaysInYear(YearOf(date)) - 1
    ensures DaysLeft(date) + DaysPassed(date) == 364 || DaysLeft(date) + DaysPassed(date) == 365
  {
    var left, passed := DaysLeft(date), DaysPassed(date);
    assert left + passed == DaysInYear(YearOf(date)) - 1;
  }

  /** On January 1st no day has passed; on December 31st no day is left. */
  lemma YearEnds(year: int, second: int)
    requires year >= 1 && 0 <= second < SecondsPerDay
    ensures DaysPassed(ToInstant(DateTime(year, 1, 1, second))) == 0
    ensures DaysLeft(ToInstant(DateTime(year, 1, 1, second))) == DaysInYear(year) - 1
    ensures DaysLeft(ToInstant(DateTime(year, 12, 31, second))) == 0
    ensures DaysPassed(ToInstant(DateTime(year, 12, 31, second))) == DaysInYear(year) - 1
  {
    FromToInstant(DateTime(year, 1, 1, second));
    FromToInstant(DateTime(year, 12, 31, second));
    MonthsFillYear(year);
    DaysBeforeMonthStep(year, 12);
  }

  /** Both counts depend only on the calendar day, not on the time of day. */
  lemma CountsIgnoreTimeOfDay(a: Instant, b: Instant)
    requires StartOfDay(a) == StartOfDay(b)
    ensures DaysLeft(a) == DaysLeft(b)
    ensures DaysPassed(a) == DaysPassed(b)
  {
    StartOfDayDate(a);
    StartOfDayDate(b);
  }

  /** `DaysLeftEntry.displayDays` */
  function DisplayDays(entry: DaysLeftEntry): (n: int)
    ensures entry.displayOption == DaysLeftIntent.DaysLeft ==>
      n == DaysInYear(YearOf(entry.date)) - DayOfYear(FromInstant(entry.date))
    ensures entry.displayOption == DaysLeftIntent.DaysPassed ==>
      n == DayOfYear(FromInstant(entry.date)) - 1
  {
    match entry.displayOption
    case DaysLeft => DaysLeft(entry.date)
    case DaysPassed => DaysPassed(entry.date)
  }

  /** The days-left count on January 1st of a leap year is 365 (366 days, today not counted). */
  lemma LeapYearNewYearsDay()
    ensures DisplayDays(DaysLeftEntry(DateStart(2024, 1, 1), DaysLeftIntent.DaysLeft)) == 365
    ensures DisplayDays(DaysLeftEntry(DateStart(2024, 1, 1), DaysLeftIntent.DaysPassed)) == 0
  {
    assert DateStart(2024, 1, 1) == ToInstant(DateTime(2024, 1, 1, 0));
    assert DaysInYear(2024) == 366;
    YearEnds(2024, 0);
  }

  /** `DaysLeftProvider.placeholder` */
  function Placeholder(now: Instant): DaysLeftEntry {
    DaysLeftEntry(now, DaysLeftIntent.DaysLeft)
  }

  /** `DaysLeftProvider.snapshot` */
  function Snapshot(configuration: DaysLeftIntent.DaysLeftIntent, now: Instant): DaysLeftEntry {
    DaysLeftEntry(now, DaysLeftIntent.ResolvedDisplayOption(configuration))
  }

  /** The placeholder is what an unconfigured widget shows: the days left. */
  lemma PlaceholderIsUnconfiguredSnapshot(now: Instant)
    ensures Placeholder(now) == Snapshot(DaysLeftIntent.DaysLeftIntent(None), now)
    ensures DisplayDays(Placeholder(now)) == DaysLeft(now)
  {
  }

  /** Midnight starting today, plus 24 hours. */
  function NextUpdate(now: Instant): (t: Instant)
    ensures now < t <= now + SecondsPerDay
    ensures t % SecondsPerDay == 0
  {
    StartOfDay(now) + 24 * 60 * 60
  }

  /** `DaysLeftProvider.timeline`: one entry for now, refreshed at the next midnight. */
  function TimelineFor(configuration: DaysLeftIntent.DaysLeftIntent, now: Instant): (tl: Timeline<DaysLeftEntry>)
    ensures tl.entries == [Snapshot(configuration, now)]
    ensures tl.policy == After(NextUpdate(now))
    ensures tl.policy.After? && now < tl.policy.date <= now + SecondsPerDay
  {
    Timeline([DaysLeftEntry(now, DaysLeftIntent.ResolvedDisplayOption(configuration))], After(NextUpdate(now)))
  }

  /** The refresh is midnight ending the day of the year that `now` falls on. */
  lemma NextUpdateOffset(now: Instant)
    ensures NextUpdate(now) == YearStart(YearOf(now)) + DayOfYear(FromInstant(now)) * SecondsPerDay
  {
    StartOfDayOffset(now);
  }

  /** Before December 31st the refresh is midnight of the next day of the same year:
      one day fewer is left. */
  lemma NextUpdateWithinYear(now: Instant)
    requires DayOfYear(FromInstant(now)) < DaysInYear(YearOf(now))
    ensures FromInstant(NextUpdate(now)).second == 0
    ensures YearOf(NextUpdate(now)) == YearOf(now)
    ensures DayOfYear(FromInstant(NextUpdate(now))) == DayOfYear(FromInstant(now)) + 1
    ensures DaysLeft(NextUpdate(now)) == DaysLeft(now) - 1
  {
    NextUpdateOffset(now);
    InstantInYear(NextUpdate(now), YearOf(now), DayOfYear(FromInstant(now)), 0);
  }

  /** On December 31st the refresh is midnight of January 1st of the next year:
      no day has passed. */
  lemma NextUpdateAtYearEnd(now: Instant)
    requires DayOfYear(FromInstant(now)) == DaysInYear(YearOf(now))
    ensures FromInstant(NextUpdate(now)).second == 0
    ensures YearOf(NextUpdate(now)) == YearOf(now) + 1
    ensures FromInstant(NextUpdate(now)).month == 1 && FromInstant(NextUpdate(now)).day == 1
    ensures DaysPassed(NextUpdate(now)) == 0
  {
    var year := YearOf(now) + 1;
    var t := NextUpdate(now);
    NextUpdateOffset(now);
    YearLength(YearOf(now));
    assert t == YearStart(year) + 0 * SecondsPerDay + 0;
    InstantInYear(t, year, 0, 0);
    DayOfYearUnique(FromInstant(t), DateTime(year, 1, 1, 0));
  }

  /** The refresh is midnight of the day after `now`: the next day of the same
      year, with one day fewer left, or January 1st of the next year, with no
      day passed. */
  lemma NextUpdateIsTomorrow(now: Instant)
    ensures FromInstant(NextUpdate(now)).second == 0
    ensures
      || (&& YearOf(NextUpdate(now)) == YearOf(now)
          && DayOfYear(FromInstant(NextUpdate(now))) == DayOfYear(FromInstant(now)) + 1
          && DaysLeft(NextUpdate(now)) == DaysLeft(now) - 1)
      || (&& YearOf(NextUpdate(now)) == YearOf(now) + 1
          && FromInstant(NextUpdate(now)).month == 1 && FromInstant(NextUpdate(now)).day == 1
          && DaysPassed(NextUpdate(now)) == 0)
  {
    if DayOfYear(FromInstant(now)) < DaysInYear(YearOf(now)) {
      NextUpdateWithinYear(now);
    } else {
      NextUpdateAtYearEnd(now);
    }
  }
}
