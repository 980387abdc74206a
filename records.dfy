/**
 * The records of the earnings-announcement preparation: one row of the
 * merged firm-year / daily-market table, the announcement dates it carries
 * and the columns the trading-day matcher adds to it.
 */
module Records {

  datatype Option<T> = None | Some(value: T)

  /** A calendar date as a day number; which calendar year it falls in is
      supplied by the caller as a function `yearOf: Day -> int`. */
  type Day = int

  /** A fiscal quarter, 1..4, as in the columns item5901 .. item5904. */
  type Quarter = q: int | 1 <= q <= 4 witness 1

  /** The last calendar year an announcement may fall in. */
  const CutoffYear: int := 2023

  /**
   * A raw announcement-date cell: missing (NA), present but not a date in
   * month/day/two-digit-year form (coerced to NaT), or a parsed day.
   */
  datatype RawDate = Missing | Unparsed | Parsed(day: Day)

  /** What the matcher records for one quarter: the matched trading date,
      the return on that date and the deviation in days. */
  datatype Match = Match(day: Day, ret: Option<int>, deviation: int)

  /**
   * One row of the merged table: the firm's Datastream code, its four
   * quarterly announcement dates, the daily return and its market date,
   * and the per-quarter matches (a quarter absent from `matches` is unset).
   */
  datatype Row = Row(
    infocode: int,
    q1: RawDate, q2: RawDate, q3: RawDate, q4: RawDate,
    ret: Option<int>,
    marketdate: Option<Day>,
    matches: map<Quarter, Match>)

  /** The announcement date of quarter q (column item590q). */
  function Announcement(r: Row, q: Quarter): RawDate
  {
    match q
    case 1 => r.q1
    case 2 => r.q2
    case 3 => r.q3
    case 4 => r.q4
  }
}
