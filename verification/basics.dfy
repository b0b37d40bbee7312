/** Shared vocabulary of the day-timeline model: optional values and results,
    activity ids, day labels, the wall clock as seen by the tracker, and the
    minute-of-day arithmetic. */
module Basics {

  datatype Option<+T> = None | Some(value: T)

  datatype Result<+R> = Ok(value: R) | Err(error: Error)

  /** The user-facing rejections of the tracker; each leaves the state unchanged. */
  datatype Error =
    | EmptyName           // trimmed activity name is empty
    | DuplicateName       // another activity already has that exact name
    | NotFound            // edit of an id that is not in the catalog
    | MissingTime         // a start or end time input is empty
    | NoActivitySelected  // the range editor's activity selector is empty
    | StartAfterEnd       // range start is later than range end

  /** An activity id. Ids stored in the timeline or in a session are always
      truthy strings, so the empty string never occurs as an id. */
  type Id = s: string | s != "" witness "id"

  /** A calendar day label in the `YYYY-MM-DD` form; compared only for equality. */
  type Day = string

  const MinutesPerHour: int := 60
  const MinutesPerDay: int := 24 * MinutesPerHour

  /** An instant as the tracker observes it: the day label of the instant and
      its minute of the day. */
  datatype Clock = Clock(day: Day, minute: int)

  /** Minute of the day from an hour and a minute of the hour. */
  function MinuteOf(hours: int, minutes: int): (m: int)
    requires 0 <= hours < 24 && 0 <= minutes < MinutesPerHour
    ensures 0 <= m < MinutesPerDay
    ensures m / MinutesPerHour == hours && m % MinutesPerHour == minutes
  {
    hours * MinutesPerHour + minutes
  }

  /** Splitting a minute of the day into hours and minutes and joining them again
      gives the same minute back. */
  lemma SplitJoin(m: int)
    requires 0 <= m < MinutesPerDay
    ensures 0 <= m / MinutesPerHour < 24
    ensures MinuteOf(m / MinutesPerHour, m % MinutesPerHour) == m
  {
  }
}
