/**
  Shared vocabulary of the model: an optional value (a SQL row that may be
  missing, a JavaScript field that may be `undefined` or `null`), timestamps as
  integer milliseconds, and the two ways the system turns a time difference
  into whole days.
 */
module Base {

  /** A value that may be absent: `RETURNING *` on zero rows, an omitted
      request field, a `latest_note` that is `null` or `undefined`. */
  datatype Option<+T> = None | Some(value: T)

  /** Timestamps and durations, in milliseconds. */
  type Millis = int

  /** Row identities (SERIAL columns). */
  type Id = int

  /** Milliseconds in a day: `1000 * 60 * 60 * 24` in the browser code and
      86400 seconds in the SQL. */
  const MS_PER_DAY: int := 1000 * 60 * 60 * 24

  /** `Math.floor(a / d)` in JavaScript for a positive divisor. Dafny's `/` is
      Euclidean, which agrees with flooring exactly when the divisor is
      positive, so the model can use it directly. */
  function FloorDiv(a: int, d: int): (q: int)
    requires d > 0
    ensures q * d <= a < q * d + d
  {
    a / d
  }

  /** The day field PostgreSQL reports for the difference of two timestamps
      (`EXTRACT(DAY FROM ts1 - ts2)`): the whole number of days, truncated
      toward zero, so a negative difference of less than a day reads as 0. */
  function TruncDiv(a: int, d: int): (q: int)
    requires d > 0
    ensures a >= 0 ==> q >= 0 && q * d <= a < q * d + d
    ensures a < 0 ==> q <= 0 && q * d - d < a <= q * d
  {
    if a >= 0 then a / d else -((-a) / d)
  }

  /** Whole days elapsed between `since` and `now` as the browser computes
      them: `Math.floor((now - since) / (1000 * 60 * 60 * 24))`. */
  function DaysBetween(since: Millis, now: Millis): (days: int)
    ensures days * MS_PER_DAY <= now - since < days * MS_PER_DAY + MS_PER_DAY
    ensures since <= now ==> days >= 0
  {
    FloorDiv(now - since, MS_PER_DAY)
  }
}
