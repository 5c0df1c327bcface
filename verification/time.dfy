/** Instants are integer microseconds since 1970-01-01T00:00:00 UTC; durations
    are differences of instants. */
module Time {

  const SECOND: int := 1_000_000
  const DAY: int := 86_400_000_000

  /** Whole days in a duration, as Python's `timedelta.days` reports them:
      rounded toward minus infinity, so a negative duration of one microsecond
      is day -1. */
  function FloorDays(d: int): (n: int)
    ensures n * DAY <= d < n * DAY + DAY
  {
    d / DAY
  }

  /** The bracket above determines the day count: any `n` with
      `n * DAY <= d < (n + 1) * DAY` is `FloorDays(d)`. */
  lemma FloorDaysUnique(d: int, n: int)
    requires n * DAY <= d < n * DAY + DAY
    ensures FloorDays(d) == n
  {
  }

  /** `now.replace(hour=23, minute=59, second=59, microsecond=999999)`: the
      last microsecond of the day that contains `now`. */
  function EndOfDay(now: int): (t: int)
    ensures now <= t
    ensures t / DAY == now / DAY
    ensures t % DAY == DAY - 1
  {
    now - now % DAY + DAY - 1
  }

  /** Dropping the fractional seconds of an instant, as parsing only the first
      19 characters of an ISO timestamp does. */
  function TruncateToSecond(t: int): (s: int)
    ensures s <= t < s + SECOND
    ensures s % SECOND == 0
  {
    t - t % SECOND
  }
}
