/** Proleptic Gregorian calendar arithmetic on day numbers (days since
    1970-01-01) and on month indices (months since 1970-01, the ordinal pandas
    gives a monthly period). */
module Calendar {
  import opened Time

  predicate IsLeapYear(y: int) {
    y % 4 == 0 && (y % 100 != 0 || y % 400 == 0)
  }

  function DaysInMonth(y: int, m: int): (n: int)
    requires 1 <= m <= 12
    ensures 28 <= n <= 31
    ensures m == 2 ==> (n == 29 <==> IsLeapYear(y))
  {
    if m == 2 then (if IsLeapYear(y) then 29 else 28)
    else if m == 4 || m == 6 || m == 9 || m == 11 then 30
    else 31
  }

  /** Month index of `YYYY-MM`: the months elapsed since 1970-01. */
  function MonthIndex(y: int, m: int): int
    requires 1 <= m <= 12
  {
    (y - 1970) * 12 + (m - 1)
  }

  function YearOf(mi: int): int {
    1970 + mi / 12
  }

  function MonthOf(mi: int): (m: int)
    ensures 1 <= m <= 12
  {
    mi % 12 + 1
  }

  /** Year and month of a month index and the index of a year and month are
      inverse to each other. */
  lemma MonthIndexRoundTrip(y: int, m: int, mi: int)
    requires 1 <= m <= 12
    ensures YearOf(MonthIndex(y, m)) == y && MonthOf(MonthIndex(y, m)) == m
    ensures MonthIndex(YearOf(mi), MonthOf(mi)) == mi
  {
  }

  /** A month follows the previous one in the calendar: within a year the
      month number goes up by one, after December comes January of the next
      year. */
  lemma NextMonth(mi: int)
    ensures MonthOf(mi) < 12 ==> YearOf(mi + 1) == YearOf(mi) && MonthOf(mi + 1) == MonthOf(mi) + 1
    ensures MonthOf(mi) == 12 ==> YearOf(mi + 1) == YearOf(mi) + 1 && MonthOf(mi + 1) == 1
  {
  }

  function MonthLengthAt(mi: int): (n: int)
    ensures 28 <= n <= 31
  {
    DaysInMonth(YearOf(mi), MonthOf(mi))
  }

  /** Day number of the first day of the month with index `mi`, counted from
      1970-01-01 by adding (or, before 1970, subtracting) month lengths: every
      month lies 28 to 31 days after the one before. */
  function MonthStartDay(mi: int): (d: int)
    ensures mi >= 0 ==> 28 * mi <= d <= 31 * mi
    ensures mi < 0 ==> 31 * mi <= d <= 28 * mi
    decreases if mi >= 0 then mi else -mi
  {
    if mi == 0 then 0
    else if mi > 0 then MonthStartDay(mi - 1) + MonthLengthAt(mi - 1)
    else MonthStartDay(mi + 1) - MonthLengthAt(mi)
  }

  /** A month starts where the previous one ends. */
  lemma MonthStartStep(mi: int)
    ensures MonthStartDay(mi + 1) == MonthStartDay(mi) + MonthLengthAt(mi)
  {
  }

  /** Month starts strictly increase with the month index. */
  lemma {:induction false} MonthStartMonotone(a: int, b: int)
    requires a < b
    ensures MonthStartDay(a) < MonthStartDay(b)
    decreases b - a
  {
    MonthStartStep(b - 1);
    if a < b - 1 {
      MonthStartMonotone(a, b - 1);
    }
  }

  function SearchUp(d: int, mi: int): (r: int)
    requires MonthStartDay(mi) <= d
    ensures MonthStartDay(r) <= d < MonthStartDay(r + 1)
    decreases d - MonthStartDay(mi)
  {
    MonthStartStep(mi);
    if d < MonthStartDay(mi + 1) then mi else SearchUp(d, mi + 1)
  }

  function SearchDown(d: int, mi: int): (r: int)
    requires d < MonthStartDay(mi + 1)
    ensures MonthStartDay(r) <= d < MonthStartDay(r + 1)
    decreases MonthStartDay(mi + 1) - d
  {
    MonthStartStep(mi);
    if MonthStartDay(mi) <= d then mi else SearchDown(d, mi - 1)
  }

  /** Index of the month that contains day number `d`. */
  function MonthOfDay(d: int): (mi: int)
    ensures MonthStartDay(mi) <= d < MonthStartDay(mi + 1)
  {
    if MonthStartDay(0) <= d then SearchUp(d, 0) else SearchDown(d, -1)
  }

  /** Only one month contains a given day. */
  lemma {:induction false} MonthOfDayUnique(d: int, mi: int)
    requires MonthStartDay(mi) <= d < MonthStartDay(mi + 1)
    ensures MonthOfDay(d) == mi
  {
    var r := MonthOfDay(d);
    if r < mi {
      MonthStartMonotone(r + 1, mi + 1);
      if r + 1 < mi { MonthStartMonotone(r + 1, mi); }
    } else if mi < r {
      if mi + 1 < r { MonthStartMonotone(mi + 1, r); }
    }
  }

  /** Month index of an instant, in UTC (`to_period("M")` of the naive UTC
      wall time). */
  function MonthOfInstant(t: int): (mi: int)
    ensures MonthStartDay(mi) * DAY <= t < MonthStartDay(mi + 1) * DAY
  {
    MonthOfDay(t / DAY)
  }

  /** An instant in an earlier month is earlier. */
  lemma MonthOrder(a: int, b: int)
    requires MonthOfInstant(a) < MonthOfInstant(b)
    ensures a < b
  {
    var ma, mb := MonthOfInstant(a), MonthOfInstant(b);
    if ma + 1 < mb {
      MonthStartMonotone(ma + 1, mb);
    }
    BelowAbove(a, b, MonthStartDay(ma + 1), MonthStartDay(mb));
  }

  /** Whatever lies below day `x` precedes whatever lies at or above a later day `y`. */
  lemma BelowAbove(a: int, b: int, x: int, y: int)
    requires a < x * DAY && y * DAY <= b && x <= y
    ensures a < b
  {
    assert x * DAY <= y * DAY;
  }

  /** First and last microsecond of month `YYYY-MM` (pandas `Period.start_time`
      and `Period.end_time`; the latter is one nanosecond before the next
      month, which on whole microseconds is one microsecond before it). */
  function MonthWindow(y: int, m: int): (w: (int, int))
    requires 1 <= m <= 12
    ensures w.1 - w.0 + 1 == DaysInMonth(y, m) * DAY
    ensures w.0 % DAY == 0
  {
    var mi := MonthIndex(y, m);
    var first := MonthStartDay(mi);
    MonthStartStep(mi);
    LengthAtIndex(y, m);
    WholeDays(first);
    (first * DAY, (first + MonthLengthAt(mi)) * DAY - 1)
  }

  lemma LengthAtIndex(y: int, m: int)
    requires 1 <= m <= 12
    ensures MonthLengthAt(MonthIndex(y, m)) == DaysInMonth(y, m)
  {
    MonthIndexRoundTrip(y, m, 0);
  }

  lemma WholeDays(d: int)
    ensures (d * DAY) % DAY == 0
  {
  }

  /** An instant lies in the window of `YYYY-MM` exactly when its month is
      `YYYY-MM`. */
  lemma {:induction false} MonthWindowExact(y: int, m: int, t: int)
    requires 1 <= m <= 12
    ensures MonthWindow(y, m).0 <= t <= MonthWindow(y, m).1 <==> MonthOfInstant(t) == MonthIndex(y, m)
  {
    var mi := MonthIndex(y, m);
    var d := t / DAY;
    if MonthWindow(y, m).0 <= t <= MonthWindow(y, m).1 {
      assert MonthStartDay(mi) <= d < MonthStartDay(mi + 1);
      MonthOfDayUnique(d, mi);
    }
  }

  function Min(a: int, b: int): int {
    if a <= b then a else b
  }

  /** Days elapsed since the first of its month, for the day containing `t`. */
  function DayOfMonth(t: int): (k: int)
    ensures 0 <= k < MonthLengthAt(MonthOfInstant(t))
  {
    MonthStartStep(MonthOfInstant(t));
    t / DAY - MonthStartDay(MonthOfInstant(t))
  }

  /** `t - pd.DateOffset(months=n)`: the same time of day, `n` months earlier,
      on the same day of the month, or on the last day of the target month
      when that month is shorter. */
  function SubtractMonths(t: int, n: int): (r: int)
    ensures MonthOfInstant(r) == MonthOfInstant(t) - n
    ensures r % DAY == t % DAY
    ensures DayOfMonth(r) == Min(DayOfMonth(t), MonthLengthAt(MonthOfInstant(t) - n) - 1)
  {
    var target := MonthOfInstant(t) - n;
    var dom := Min(DayOfMonth(t), MonthLengthAt(target) - 1);
    MonthStartStep(target);
    var day := MonthStartDay(target) + dom;
    var r := day * DAY + t % DAY;
    assert r / DAY == day;
    MonthOfDayUnique(day, target);
    r
  }
}
