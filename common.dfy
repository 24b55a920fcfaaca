/** Shared vocabulary: an optional value, and local wall-clock time.

    A timestamp is a count of whole seconds since local midnight of
    1970-01-01 (already converted to the calendar's time zone); a date is a
    count of days since that same day, which was a Thursday. */
module Common {

  datatype Option<T> = None | Some(value: T)

  const SecondsPerDay: int := 86400

  /** The calendar date of a local timestamp (floor division). */
  function DateOf(t: int): int
  {
    t / SecondsPerDay
  }

  /** A later time is never on an earlier date. */
  lemma DateMonotone(a: int, b: int)
    requires a <= b
    ensures DateOf(a) <= DateOf(b)
  {
    var qa, qb := a / SecondsPerDay, b / SecondsPerDay;
    assert a == qa * SecondsPerDay + a % SecondsPerDay;
    assert b == qb * SecondsPerDay + b % SecondsPerDay;
  }

  /** Local midnight at the start of the day holding `t`. */
  function Midnight(t: int): (m: int)
    ensures m <= t < m + SecondsPerDay
    ensures m % SecondsPerDay == 0
    ensures DateOf(m) == DateOf(t)
  {
    t - t % SecondsPerDay
  }

  /** Day of the week of date `d`, Monday = 0 ... Sunday = 6. */
  function Weekday(d: int): (w: int)
    ensures 0 <= w < 7
  {
    (d + 3) % 7
  }

  function Min(a: int, b: int): int
  {
    if a <= b then a else b
  }

  function Max(a: int, b: int): int
  {
    if a >= b then a else b
  }
}
