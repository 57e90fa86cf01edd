# khatm year-progress widgets, modelled in Dafny

khatm is a set of iOS lock-screen widgets that show how far the current year
has progressed. The widgets are:

- a seconds-based **progress pill**, which shows the elapsed or remaining share;
- a **year-percentage** widget, based on whole days;
- the extension's **year-progress** widget, the seconds-based share left;
- a **days-left** counter, which shows days left or days passed;
- a **month grid** of the current month's days, each marked past, today or future.

Each widget is driven by a timeline provider.

This project models the logic underneath the views:

- the calendar arithmetic each widget performs through `Calendar.current`;
- the percentage formulas;
- the provider's choice of entries and refresh date;
- the month grid's week chunking and day-cell classification;
- the entity queries and defaults of the three configuration intents.

Modules follow the Swift files:

| module | file |
|---|---|
| `Gregorian` | stands in for `Calendar.current` |
| `Ratios` | the one `part / whole * 100` formula the percentages share |
| `EntityQueries` | Swift's `compactMap`, `filter` and `map` |
| `Timelines` | WidgetKit's `Timeline` and reload policy |
| `Wrappers` | Swift's `Optional` and the `??` operator |
| `AppIntent`, `DaysLeftIntent`, `MonthGridIntent` | the three intent files |
| `DaysLeftWidget`, `ProgressPillWidget`, `YearProgressWidget`, `MonthGridWidget`, `YearProgressWidgetExtension` | the widget files |

Time is one uniform scale. An `Instant` is a whole number of seconds since
0001-01-01T00:00:00 in the proleptic Gregorian calendar. Every day has 86400
seconds. There are no time zones, no daylight saving and no leap seconds.
`FromInstant` and `ToInstant` convert between an instant and a
(year, month, day, second-of-day) date, and are proved to be mutual inverses.
`StartOfDay`, `DaysBetween`, `AddingMinutes`, `AddingDays` and `Weekday` model
the calendar calls the widgets make:

- `DaysBetween` truncates toward zero, as `dateComponents([.day], ...)` does.
- `Weekday` uses Foundation's numbering, where Sunday is 1.

`createWeekArrays` is the one operation that works by mutation. It is an
imperative method with its three loops. It is proved equal to the
specification function `WeekGrid`, and the grid's properties are proved as
lemmas about `WeekGrid`. Everything else is pure in the source and is modelled
as functions and lemmas.

## Model

| member | source | states |
|---|---|---|
| Gregorian.DaysInMonth | YearProgressWidget/MonthGridWidget.swift:32 | the length of a month is 28 to 31 days, and 29 exactly for February of a leap year |
| Gregorian.YearStart | YearProgressWidget/YearProgressWidget.swift:49-50 | `date(from: DateComponents(year:))`: the first instant of the year; `YearLength` spaces consecutive years DaysInYear days apart and `YearOfUnique` makes it the start of the only year containing its instants |
| Gregorian.YearOf | YearProgressWidget/DaysLeftWidget.swift:37 | `component(.year)`: the year whose first instant is at or before `t` and whose successor's first instant is after `t` |
| Gregorian.FromInstant | YearProgressWidget/DaysLeftWidget.swift:37 | decomposes an instant into a valid date of its own year that converts back to the same instant |
| Gregorian.DayOfYear | YearProgressWidget/DaysLeftWidget.swift:35-47 | the 1-based ordinal of a valid date within its year lies in 1..DaysInYear; `InstantInYear` and `DayOfYearUnique` tie it to the instant and the date |
| Gregorian.ToInstant | YearProgressWidget/MonthGridWidget.swift:35-37 | `date(from: DateComponents(...))`: the instant lies inside its own year, DayOfYear - 1 whole days plus the second after the year starts; `FromToInstant` proves it the inverse of `FromInstant` |
| Gregorian.FromToInstant | YearProgressWidget/MonthGridWidget.swift:35-37 | `date(from: DateComponents(...))` round-trips: converting a valid date to an instant and back gives the date |
| Gregorian.InstantInYear | YearProgressWidget/DaysLeftWidget.swift:37-39 | the instant n whole days and s seconds into a year decomposes to that year, day of the year n + 1 and second s |
| Gregorian.DayOfYearUnique | YearProgressWidget/MonthGridWidget.swift:35-37 | two valid dates of one year with the same day of the year have the same month and day |
| Gregorian.ToInstantInjective | YearProgressWidget/MonthGridWidget.swift:35-37 | different valid dates are different instants |
| Gregorian.DateStart | YearProgressWidget/DaysLeftWidget.swift:38 | midnight of a given year, month and day is a whole-day instant whose date is exactly that day |
| Gregorian.StartOfDay | YearProgressWidget/DaysLeftWidget.swift:39 | `startOfDay(for:)` is the last midnight at or before `t`, less than a day before it |
| Gregorian.StartOfDayDate | YearProgressWidget/DaysLeftWidget.swift:39 | the start of a day has the same year, month and day as the instant, at second 0 |
| Gregorian.SameDayIffSameDate | YearProgressWidget/MonthGridWidget.swift:62 | two instants have the same start of day exactly when they have the same year, month and day |
| Gregorian.DaysBetween | YearProgressWidget/DaysLeftWidget.swift:39 | `dateComponents([.day], from:to:).day`: whole days between two instants, truncated toward zero in both directions |
| Gregorian.AddingMinutes | YearProgressWidget/ProgressPillWidget.swift:30 | `date(byAdding: .minute, ...)` is exactly `minutes` whole minutes later, with the second within the minute kept |
| Gregorian.AddingMinutesTwice | YearProgressWidget/ProgressPillWidget.swift:30-38 | adding minutes in two steps adds their sum, so five minutes after the +60 entry is now + 65 minutes |
| Gregorian.AddingDays | YearProgressWidgetExtension/YearProgressWidgetExtension.swift:38 | `date(byAdding: .day, ...)` keeps the time of day and moves the start of day on by that many days |
| Gregorian.Weekday | YearProgressWidget/MonthGridWidget.swift:123 | `component(.weekday)` lies in 1..7; `WeekdayNext`, `WeekdayOfStartOfDay` and `Example2024` pin it at every instant |
| Gregorian.WeekdayNext | YearProgressWidget/MonthGridWidget.swift:123 | the weekday advances by one, cyclically, from each day to the next |
| Gregorian.WeekdayOfStartOfDay | YearProgressWidget/MonthGridWidget.swift:123 | the weekday is the same at every instant of a day as at its midnight |
| Gregorian.Example2024 | YearProgressWidget/MonthGridWidget.swift:123 | 2024 has 366 days and began on a Monday (weekday 2) |
| Ratios.Percentage | YearProgressWidget/ProgressPillWidget.swift:59 | the shared `(part / whole) * 100`; `PercentageBounds`, `PercentageComplement` and `PercentageStrictlyMonotone` state its range, complement and order |
| Ratios.PercentageBounds | YearProgressWidget/ProgressPillWidget.swift:59 | a part strictly smaller than the whole is a percentage in [0, 100) |
| Ratios.PercentageComplement | YearProgressWidgetExtension/YearProgressWidgetExtension.swift:16-17 | the share of the rest of a whole is 100 minus the share of the part |
| Ratios.PercentageStrictlyMonotone | YearProgressWidget/YearProgressWidget.swift:55 | a larger part of the same whole is a strictly larger percentage |
| EntityQueries.CompactMap | YearProgressWidget/AppIntent.swift:37-40 | `compactMap` never yields more results than inputs |
| EntityQueries.CompactMapSound | YearProgressWidget/AppIntent.swift:37-40 | every result of `compactMap` is the transform of some input |
| EntityQueries.CompactMapKeys | YearProgressWidget/AppIntent.swift:37-40 | when the transform succeeds exactly on the elements satisfying a test and the result remembers its input, the results' keys are the inputs that pass the test, in order |
| EntityQueries.CompactMapTotal | YearProgressWidget/AppIntent.swift:37-40 | a transform that never returns nil makes `compactMap` a plain map |
| EntityQueries.CompactMapAppend | YearProgressWidget/AppIntent.swift:37-40 | `compactMap` distributes over concatenation |
| Wrappers.Option.GetOr | YearProgressWidget/AppIntent.swift:59 | Swift's `??`: the wrapped value when there is one, else the default |
| AppIntent.FromRawValue | YearProgressWidget/AppIntent.swift:4-7 | `YearProgressOption(rawValue:)` succeeds exactly on "elapsed" and "remaining", and the parsed option's raw value is the input |
| AppIntent.RawValue | YearProgressWidget/AppIntent.swift:4-7 | the `rawValue` of a `String` enum, the case name; `RawValueRoundTrip` and `FromRawValueIff` prove parsing inverts it |
| AppIntent.RawValueRoundTrip | YearProgressWidget/AppIntent.swift:4-7 | parsing an option's raw value gives back the option |
| AppIntent.FromRawValueIff | YearProgressWidget/AppIntent.swift:4-7 | parsing yields an option exactly when the input is that option's raw value |
| AppIntent.EntityFor | YearProgressWidget/AppIntent.swift:37-40 | the `guard` closure succeeds exactly on a raw value, keeping the identifier as the id of the parsed option |
| AppIntent.Entities | YearProgressWidget/AppIntent.swift:36-41 | `entities(for:)` is no longer than its input, and every entity's id is its option's raw value |
| AppIntent.EntitiesKeepValidIdentifiers | YearProgressWidget/AppIntent.swift:36-41 | the entities' ids are exactly the valid identifiers, in input order |
| AppIntent.EntitiesOfValidIdentifiers | YearProgressWidget/AppIntent.swift:36-41 | on valid identifiers there is one entity per identifier, with that id and the parsed option |
| AppIntent.EntitiesAppend | YearProgressWidget/AppIntent.swift:36-41 | querying a concatenation of identifiers concatenates the queries |
| AppIntent.SuggestedEntities | YearProgressWidget/AppIntent.swift:43-48 | the two entities "elapsed" and "remaining"; `SuggestedEntitiesRoundTrip` proves they cover both options and query back to themselves |
| AppIntent.SuggestedEntitiesRoundTrip | YearProgressWidget/AppIntent.swift:43-48 | querying the suggestions' ids reproduces the suggestions, and both options are suggested with their raw values as ids |
| AppIntent.ResolvedProgressOption | YearProgressWidget/AppIntent.swift:58-60 | the set entity when present, otherwise id "remaining" with the remaining option |
| AppIntent.ResolvedProgressOptionWellFormed | YearProgressWidget/AppIntent.swift:58-60 | an intent holding a queried entity resolves to an entity whose id is its option's raw value; the default is one of the suggestions |
| DaysLeftIntent.FromRawValue | YearProgressWidget/DaysLeftIntent.swift:5-8 | `DaysDisplayOption(rawValue:)` succeeds exactly on "daysLeft" and "daysPassed", and the parsed option's raw value is the input |
| DaysLeftIntent.RawValue | YearProgressWidget/DaysLeftIntent.swift:5-8 | the `rawValue` of a `String` enum, the case name; `RawValueRoundTrip` proves parsing inverts it |
| DaysLeftIntent.RawValueRoundTrip | YearProgressWidget/DaysLeftIntent.swift:5-8 | parsing an option's raw value gives back the option |
| DaysLeftIntent.EntityFor | YearProgressWidget/DaysLeftIntent.swift:38-41 | the `guard` closure succeeds exactly on a raw value, keeping the identifier as the id of the parsed option |
| DaysLeftIntent.Entities | YearProgressWidget/DaysLeftIntent.swift:37-42 | the query is no longer than its input, and every entity's id is its option's raw value |
| DaysLeftIntent.EntitiesKeepValidIdentifiers | YearProgressWidget/DaysLeftIntent.swift:37-42 | the entities' ids are exactly the valid identifiers, in input order |
| DaysLeftIntent.SuggestedEntities | YearProgressWidget/DaysLeftIntent.swift:44-49 | the two entities "daysLeft" and "daysPassed"; `SuggestedEntitiesRoundTrip` proves they cover both options and query back to themselves |
| DaysLeftIntent.SuggestedEntitiesRoundTrip | YearProgressWidget/DaysLeftIntent.swift:44-49 | querying the suggestions' ids reproduces the suggestions, which cover both options |
| DaysLeftIntent.ResolvedDisplayOption | YearProgressWidget/DaysLeftIntent.swift:59-61 | the set entity's option when present, otherwise days left |
| MonthGridIntent.DisplayOptionFromRawValue | YearProgressWidget/MonthGridIntent.swift:5-8 | parsing succeeds exactly on "daysLeft" and "daysPassed", and the parsed option's raw value is the input |
| MonthGridIntent.ShapeFromRawValue | YearProgressWidget/MonthGridIntent.swift:10-13 | parsing succeeds exactly on "square" and "circle", and the parsed shape's raw value is the input |
| MonthGridIntent.DisplayOptionRawValue | YearProgressWidget/MonthGridIntent.swift:5-8 | the display option's `rawValue`, the case name; `RawValueRoundTrips` proves parsing inverts it |
| MonthGridIntent.ShapeRawValue | YearProgressWidget/MonthGridIntent.swift:10-13 | the shape's `rawValue`, the case name; `RawValueRoundTrips` proves parsing inverts it |
| MonthGridIntent.RawValueRoundTrips | YearProgressWidget/MonthGridIntent.swift:5-13 | for both enums, parsing a raw value gives back the case |
| MonthGridIntent.ShapeEntityFor | YearProgressWidget/MonthGridIntent.swift:69-72 | the shape `guard` closure succeeds exactly on "square" or "circle", keeping the identifier as the id of the parsed shape |
| MonthGridIntent.OptionEntityFor | YearProgressWidget/MonthGridIntent.swift:85-88 | the option `guard` closure succeeds exactly on "daysLeft" or "daysPassed", keeping the identifier as the id of the parsed option |
| MonthGridIntent.ShapeEntities | YearProgressWidget/MonthGridIntent.swift:68-73 | the shape query is no longer than its input, and every entity's id is its shape's raw value |
| MonthGridIntent.ShapeEntitiesKeepValidIdentifiers | YearProgressWidget/MonthGridIntent.swift:68-73 | the shape entities' ids are exactly the identifiers "square" and "circle" of the input, in order |
| MonthGridIntent.OptionEntities | YearProgressWidget/MonthGridIntent.swift:84-89 | the option query is no longer than its input, and every entity's id is its option's raw value |
| MonthGridIntent.OptionEntitiesKeepValidIdentifiers | YearProgressWidget/MonthGridIntent.swift:84-89 | the option entities' ids are exactly the identifiers "daysLeft" and "daysPassed" of the input, in order |
| MonthGridIntent.SuggestedShapeEntities | YearProgressWidget/MonthGridIntent.swift:75-80 | the entities "square" and "circle"; `SuggestedEntitiesRoundTrip` proves they query back to themselves |
| MonthGridIntent.SuggestedOptionEntities | YearProgressWidget/MonthGridIntent.swift:91-96 | the entities "daysLeft" and "daysPassed"; `SuggestedEntitiesRoundTrip` proves they query back to themselves |
| MonthGridIntent.SuggestedEntitiesRoundTrip | YearProgressWidget/MonthGridIntent.swift:75-96 | both queries reproduce their suggestions from the suggestions' ids |
| MonthGridIntent.ResolvedDisplayOption | YearProgressWidget/MonthGridIntent.swift:109-111 | the set option when present, otherwise days left |
| MonthGridIntent.ResolvedShape | YearProgressWidget/MonthGridIntent.swift:113-115 | the set shape when present, otherwise square |
| DaysLeftWidget.StartOfYear | YearProgressWidget/DaysLeftWidget.swift:45 | midnight of January 1st; `DaysPassed` proves it is the year's first instant |
| DaysLeftWidget.StartOfLastDay | YearProgressWidget/DaysLeftWidget.swift:38 | midnight of December 31st; `DaysLeft` proves it lies DaysInYear - 1 whole days into the year |
| DaysLeftWidget.DaysLeft | YearProgressWidget/DaysLeftWidget.swift:35-40 | days left is the year's length minus the day of the year, in [0, DaysInYear) |
| DaysLeftWidget.DaysPassed | YearProgressWidget/DaysLeftWidget.swift:42-47 | days passed is the day of the year minus one, in [0, DaysInYear) |
| DaysLeftWidget.DaysLeftPlusDaysPassed | YearProgressWidget/DaysLeftWidget.swift:35-47 | the two counts add up to DaysInYear - 1 (364 or 365): today is counted in neither |
| DaysLeftWidget.YearEnds | YearProgressWidget/DaysLeftWidget.swift:35-47 | at any time on January 1st no day has passed, and at any time on December 31st no day is left |
| DaysLeftWidget.CountsIgnoreTimeOfDay | YearProgressWidget/DaysLeftWidget.swift:39-46 | both counts are the same at every instant of a calendar day |
| DaysLeftWidget.DisplayDays | YearProgressWidget/DaysLeftWidget.swift:49-56 | the days-left option shows DaysInYear minus the day of the year; the days-passed option shows the day of the year minus one |
| DaysLeftWidget.LeapYearNewYearsDay | YearProgressWidget/DaysLeftWidget.swift:35-56 | on 2024-01-01, 365 days are left and none have passed |
| DaysLeftWidget.PlaceholderIsUnconfiguredSnapshot | YearProgressWidget/DaysLeftWidget.swift:12-18 | the placeholder equals the snapshot of an unconfigured intent and shows the days left |
| DaysLeftWidget.Placeholder | YearProgressWidget/DaysLeftWidget.swift:12-14 | the entry for now showing days left; `PlaceholderIsUnconfiguredSnapshot` proves it the unconfigured snapshot |
| DaysLeftWidget.Snapshot | YearProgressWidget/DaysLeftWidget.swift:16-18 | the entry for now with the resolved display option; `TimelineFor` states that the timeline holds exactly this entry |
| DaysLeftWidget.NextUpdate | YearProgressWidget/DaysLeftWidget.swift:24 | start of today plus 24 hours is a midnight strictly after now and at most a day later |
| DaysLeftWidget.TimelineFor | YearProgressWidget/DaysLeftWidget.swift:20-27 | a single entry, the snapshot for now, refreshed after `NextUpdate(now)`, which lies in (now, now + 1 day] |
| DaysLeftWidget.NextUpdateWithinYear | YearProgressWidget/DaysLeftWidget.swift:24 | before December 31st the refresh is midnight of the same year's next day, where one day fewer is left |
| DaysLeftWidget.NextUpdateAtYearEnd | YearProgressWidget/DaysLeftWidget.swift:24 | on December 31st the refresh is midnight of January 1st of the next year, where no day has passed |
| DaysLeftWidget.NextUpdateIsTomorrow | YearProgressWidget/DaysLeftWidget.swift:24 | the refresh is at midnight of the next day: the same year's next day of the year, with one day fewer left, or January 1st of the next year, with no day passed |
| ProgressPillWidget.EndOfYear | YearProgressWidget/ProgressPillWidget.swift:54 | December 31st, 23:59:59; `TotalSeconds` proves it is one second before the next year starts |
| ProgressPillWidget.TotalSeconds | YearProgressWidget/ProgressPillWidget.swift:53-56 | December 31st 23:59:59 minus January 1st 00:00:00, plus one, is DaysInYear × 86400, the distance to the next year's start |
| ProgressPillWidget.ElapsedPercentage | YearProgressWidget/ProgressPillWidget.swift:49-60 | the elapsed share lies in [0, 100) and is 0 at the year's first second |
| ProgressPillWidget.ElapsedPercentageMonotone | YearProgressWidget/ProgressPillWidget.swift:57-59 | within a year the elapsed share never decreases |
| ProgressPillWidget.ElapsedAtYearStart | YearProgressWidget/ProgressPillWidget.swift:53-59 | every year's first second shows 0% elapsed |
| ProgressPillWidget.DisplayPercentage | YearProgressWidget/ProgressPillWidget.swift:62-64 | the elapsed option shows a value in [0, 100); the remaining option shows one in (0, 100] |
| ProgressPillWidget.PerspectivesSumTo100 | YearProgressWidget/ProgressPillWidget.swift:62-64 | the elapsed and remaining values of one instant add up to 100 |
| ProgressPillWidget.ProgressBarPercentage | YearProgressWidget/ProgressPillWidget.swift:66-68 | the bar's percentage lies in [0, 100) |
| ProgressPillWidget.ProgressBarIgnoresDisplayOption | YearProgressWidget/ProgressPillWidget.swift:66-68 | the bar shows the elapsed value whatever the option, which is 100 minus the remaining value |
| ProgressPillWidget.Stride | YearProgressWidget/ProgressPillWidget.swift:29 | `stride(from:through:by:)` lists `from + k·step` for every k whose value does not pass `through`, and nothing when `from > through` |
| ProgressPillWidget.MinuteOffsets | YearProgressWidget/ProgressPillWidget.swift:29 | the offsets are 0, 5, ..., 60: 13 of them |
| ProgressPillWidget.PlaceholderIsUnconfiguredSnapshot | YearProgressWidget/ProgressPillWidget.swift:13-23 | the placeholder is the unconfigured snapshot with 3 decimal places, showing the remaining share |
| ProgressPillWidget.Placeholder | YearProgressWidget/ProgressPillWidget.swift:13-15 | the entry for now, remaining share, 3 decimal places; `PlaceholderIsUnconfiguredSnapshot` proves it the unconfigured snapshot |
| ProgressPillWidget.Snapshot | YearProgressWidget/ProgressPillWidget.swift:17-23 | the entry for now with the configuration's resolved option; `TimelineFor` states every timeline entry as this snapshot moved to its own instant |
| ProgressPillWidget.TimelineFor | YearProgressWidget/ProgressPillWidget.swift:25-40 | 13 entries at now + 0, 5, ..., 60 minutes, each the snapshot moved to its time; refresh at now + 65 minutes |
| ProgressPillWidget.TimelineProgressMonotone | YearProgressWidget/ProgressPillWidget.swift:29-39 | when the hour stays in one year, later entries have a bar at least as full |
| YearProgressWidget.TotalDays | YearProgressWidget/YearProgressWidget.swift:49-52 | the whole days from January 1st to the next January 1st are DaysInYear, 365 or 366 |
| YearProgressWidget.DaysPassed | YearProgressWidget/YearProgressWidget.swift:53 | the truncated day count since January 1st 00:00 is the day of the year minus one, less than the total days |
| YearProgressWidget.DaysPassedAgreesWithDaysLeftWidget | YearProgressWidget/YearProgressWidget.swift:53 | counting from the instant itself instead of its start of day gives the days-left widget's count |
| YearProgressWidget.PassedPercentage | YearProgressWidget/YearProgressWidget.swift:55 | the passed share lies in [0, 100) |
| YearProgressWidget.DisplayPercentage | YearProgressWidget/YearProgressWidget.swift:46-57 | the remaining perspective shows a value in (0, 100]; the passed perspective one in [0, 100) |
| YearProgressWidget.PerspectivesSumTo100 | YearProgressWidget/YearProgressWidget.swift:56 | the two perspectives add up to 100 |
| YearProgressWidget.FullYearRemainsOnNewYearsDay | YearProgressWidget/YearProgressWidget.swift:53-56 | throughout January 1st, 100% remains and 0% has passed |
| YearProgressWidget.ConstantWithinDay | YearProgressWidget/YearProgressWidget.swift:53-56 | the percentage is the same at every instant of a calendar day |
| YearProgressWidget.PassedPercentageGrowsDaily | YearProgressWidget/YearProgressWidget.swift:53-55 | within a year the passed share strictly grows from one day to a later one |
| YearProgressWidget.ProviderShowsRemaining | YearProgressWidget/YearProgressWidget.swift:28-40 | placeholder, snapshot and the single timeline entry show the remaining share, and the timeline never reloads |
| YearProgressWidget.Placeholder | YearProgressWidget/YearProgressWidget.swift:28-30 | the entry for now with `showRemaining` set; `ProviderShowsRemaining` proves it equal to the snapshot |
| YearProgressWidget.Snapshot | YearProgressWidget/YearProgressWidget.swift:32-35 | the entry for now with `showRemaining` set; `ProviderShowsRemaining` proves it shows 100 minus the passed share |
| YearProgressWidget.TimelineFor | YearProgressWidget/YearProgressWidget.swift:37-40 | one entry, never reloaded; `ProviderShowsRemaining` proves the entry is the snapshot and the policy is `.never` |
| YearProgressWidgetExtension.PercentageLeft | YearProgressWidgetExtension/YearProgressWidgetExtension.swift:9-20 | the share left lies in (0, 100] and is exactly 100 at the year's first second |
| YearProgressWidgetExtension.DenominatorIsTotalSeconds | YearProgressWidgetExtension/YearProgressWidgetExtension.swift:13-15 | the denominator is the progress pill's `totalSeconds` |
| YearProgressWidgetExtension.PercentageLeftIsPillRemaining | YearProgressWidgetExtension/YearProgressWidgetExtension.swift:15-17 | the share left equals the progress pill's remaining value for the same instant |
| YearProgressWidgetExtension.PercentageLeftDecreasing | YearProgressWidgetExtension/YearProgressWidgetExtension.swift:16-17 | within a year the share left strictly decreases |
| YearProgressWidgetExtension.FullAtYearStart | YearProgressWidgetExtension/YearProgressWidgetExtension.swift:12-17 | at every year's first second 100% is left |
| YearProgressWidgetExtension.Placeholder | YearProgressWidgetExtension/YearProgressWidgetExtension.swift:24-26 | the entry for now with one decimal place; `ProviderSchedule` states the decimal place |
| YearProgressWidgetExtension.Snapshot | YearProgressWidgetExtension/YearProgressWidgetExtension.swift:28-31 | the entry for now with one decimal place; `ProviderSchedule` states the decimal place and `TimelineFor` that the timeline holds exactly this entry |
| YearProgressWidgetExtension.StartOfTomorrow | YearProgressWidgetExtension/YearProgressWidgetExtension.swift:38-39 | the start of tomorrow is today's midnight plus one day, strictly after now and at most a day later |
| YearProgressWidgetExtension.TimelineFor | YearProgressWidgetExtension/YearProgressWidgetExtension.swift:33-43 | a single entry, the snapshot for now, refreshed after `StartOfTomorrow(now)`, which lies in (now, now + 1 day] |
| YearProgressWidgetExtension.ProviderSchedule | YearProgressWidgetExtension/YearProgressWidgetExtension.swift:24-41 | every entry has one decimal place, and the refresh equals the days-left and month-grid widgets' next update |
| MonthGridWidget.MonthDays | YearProgressWidget/MonthGridWidget.swift:27-39 | one day per day of the entry's month, DaysInMonth of them (28 to 31) |
| MonthGridWidget.MonthDaysDates | YearProgressWidget/MonthGridWidget.swift:30-38 | the k-th of the month's days is midnight of day k + 1 of the entry's year and month |
| MonthGridWidget.MonthDaysConsecutive | YearProgressWidget/MonthGridWidget.swift:27-39 | the month's days start at the 1st and lie exactly one day apart, so they increase |
| MonthGridWidget.CompareDays | YearProgressWidget/MonthGridWidget.swift:61 | `compare(_:to:toGranularity: .day)` orders two instants by their start of day; `CompareDaysConverse` and `FillClassification` state its meaning |
| MonthGridWidget.CompareDaysConverse | YearProgressWidget/MonthGridWidget.swift:61-62 | swapping the arguments gives the converse order, and `orderedSame` holds exactly when the two are on the same day |
| MonthGridWidget.IsSameDay | YearProgressWidget/MonthGridWidget.swift:62 | `isDate(_:inSameDayAs:)`: the same start of day; `SameDayIffSameDate` proves that means the same year, month and day |
| MonthGridWidget.IsPast | YearProgressWidget/MonthGridWidget.swift:61 | the cell's day compares `orderedAscending` to the current date; `FillClassification` proves it is an earlier day |
| MonthGridWidget.IsToday | YearProgressWidget/MonthGridWidget.swift:62 | the cell is on the current date's day; `FillClassification` proves it never also counts as past |
| MonthGridWidget.Fill | YearProgressWidget/MonthGridWidget.swift:65-66 | today's fill wins over past, otherwise future; `FillClassification` and `MonthDayFill` state which cells get which fill |
| MonthGridWidget.FillClassification | YearProgressWidget/MonthGridWidget.swift:61-66 | a cell is never both today and past; it is today exactly when it has the current year, month and day; past and future cells are earlier and later days |
| MonthGridWidget.MonthDayFill | YearProgressWidget/MonthGridWidget.swift:61-66 | in the entry's month, the cell of day k + 1 is today, past or future as k + 1 equals, precedes or follows the entry's day |
| MonthGridWidget.CreateWeekArrays | YearProgressWidget/MonthGridWidget.swift:117-146 | the loops build exactly `WeekGrid(dates, weekday)` |
| MonthGridWidget.WeekGrid | YearProgressWidget/MonthGridWidget.swift:122-143 | no weeks for no days; otherwise every week has 7 cells, and the weeks read as weekday - 1 blanks, every day in order, then the fewer than 7 blanks that complete the last week |
| MonthGridWidget.Rows | YearProgressWidget/MonthGridWidget.swift:129-136 | cutting into weeks of 7 gives full weeks that read back as the input |
| MonthGridWidget.RowsOfFlatten | YearProgressWidget/MonthGridWidget.swift:129-143 | full weeks are determined by what they read as |
| MonthGridWidget.TrailingBlanks | YearProgressWidget/MonthGridWidget.swift:138-143 | the tail padding is under 7 and makes the cell count a multiple of 7 |
| MonthGridWidget.WeekGridCount | YearProgressWidget/MonthGridWidget.swift:123-145 | there are ceil((weekday - 1 + n) / 7) weeks |
| MonthGridWidget.WeekGridCell | YearProgressWidget/MonthGridWidget.swift:123-145 | day k sits in week (weekday - 1 + k) / 7, column (weekday - 1 + k) mod 7; the first week starts with weekday - 1 blanks |
| MonthGridWidget.ThirtyDaysFromWednesday | YearProgressWidget/MonthGridWidget.swift:117-146 | 30 days starting on a Wednesday fill 5 weeks: 3 blanks, the days, 2 blanks |
| MonthGridWidget.WeekArrays | YearProgressWidget/MonthGridWidget.swift:122-123 | full weeks, and none exactly when there are no dates |
| MonthGridWidget.EntryWeeks | YearProgressWidget/MonthGridWidget.swift:82 | the view's grid is the month's days aligned on the weekday of the 1st |
| MonthGridWidget.MonthWeekCount | YearProgressWidget/MonthGridWidget.swift:82 | a month's grid has 4 to 6 weeks |
| MonthGridWidget.ConsecutiveColumns | YearProgressWidget/MonthGridWidget.swift:122-136 | in the grid of consecutive midnights, such as the month's days, every day is in the column of its own weekday |
| MonthGridWidget.ConsecutiveWeekdays | YearProgressWidget/MonthGridWidget.swift:123-125 | along consecutive midnights, offsetting by the first one's weekday gives each day's own weekday column |
| MonthGridWidget.WeekdayAfterDays | YearProgressWidget/MonthGridWidget.swift:123 | k days after a midnight the weekday has moved k columns, cyclically |
| MonthGridWidget.PlaceholderIsUnconfiguredSnapshot | YearProgressWidget/MonthGridWidget.swift:5-11 | the placeholder equals the snapshot of an unconfigured intent |
| MonthGridWidget.Placeholder | YearProgressWidget/MonthGridWidget.swift:5-7 | the entry for now with the days-left option; `PlaceholderIsUnconfiguredSnapshot` proves it the unconfigured snapshot |
| MonthGridWidget.Snapshot | YearProgressWidget/MonthGridWidget.swift:9-11 | the entry for now with the resolved display option; `TimelineFor` states that the timeline holds exactly this entry |
| MonthGridWidget.NextUpdate | YearProgressWidget/MonthGridWidget.swift:17 | start of today plus 24 hours is a midnight strictly after now and at most a day later |
| MonthGridWidget.TimelineFor | YearProgressWidget/MonthGridWidget.swift:13-20 | a single entry, the snapshot for now, refreshed after `NextUpdate(now)`, which lies in (now, now + 1 day] |

## Left out

- SwiftUI views, layout, fonts and colours are not modelled. The exceptions are the today/past/future choice of the day cell and the grid that the month view lays out. The `#Preview` blocks are left out too. All of this is presentation.
- WidgetKit and AppIntents registration is not modelled: the `Widget` configurations, both widget bundles, the live-activity template file and the app's content view. They contain no logic.
- `async`/`throws` on the entity queries, and the `DisplayRepresentation` titles and subtitles, are not modelled. They are framework plumbing and UI strings.
- `String(format: "%.Nf%%")` and `DateFormatter` ("MMM", "d") are not modelled. They are printf-style rounding and locale-dependent formatting. The models stop at the numbers that are formatted.
- ProgressPillWidget.ElapsedPercentage and YearProgressWidgetExtension.PercentageLeft: instants are whole seconds, so the fractional seconds of Swift's `Date` in `elapsedSeconds` and `remainingSeconds` are truncated away.
- Percentages are exact `real` numbers. This idealises the `Double` arithmetic of the source, so IEEE rounding is not modelled.
- `Calendar.current` is modelled only as the proleptic Gregorian calendar on a uniform scale of seconds. Time zones, daylight-saving transitions, other calendars, leap seconds and instants before year 1 are not modelled.
- Force unwraps (`!`) and the `?? 0` fallbacks are not modelled. They cannot fail on that calendar.
- `Date()` (the clock) is not modelled as such: every provider takes the current instant `now` as a parameter.
- The month-grid entry's `displayOption` and the intent's resolved shape are carried but not modelled further. The view never reads them.
- `decimalPlaces` is never validated: the code passes it unchanged to `String(format:)`, so no error case for a negative value is modelled.
- ProgressPillWidget.Snapshot: takes the number of decimal places as a parameter, as `ProgressPillWidget.TimelineFor` does. It stands for `configuration.decimalPlaces`, which `ProgressPillProvider` reads but `YearProgressIntent` in YearProgressWidget/AppIntent.swift does not declare.
