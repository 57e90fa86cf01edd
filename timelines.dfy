/** The shape of what a WidgetKit timeline provider hands back to the host. */
module Timelines {
  import opened Gregorian

  /** `TimelineReloadPolicy`: reload after a date, or never. */
  datatype ReloadPolicy = After(date: Instant) | Never

  /** `Timeline(entries:policy:)` */
  datatype Timeline<E> = Timeline(entries: seq<E>, policy: ReloadPolicy)
}
