/** `debug_monthly_wip_aggregation`: every record expanded into one point per
    day it spans, then only the points of the last `months_lookback` months
    (counted back from the latest point's month) kept. */
module MonthlyAggregation {
  import opened Wrappers
  import opened Time
  import opened Calendar
  import opened WipRanges
  import opened DailyCensus

  /** Points a record expands to: one per day from its start, while not past
      its end; a record ending before it starts gives none. */
  function PointCount(r: WipRecord): nat {
    if r.start <= r.end then FloorDays(r.end - r.start) + 1 else 0
  }

  function TotalPoints(records: seq<WipRecord>): nat {
    if |records| == 0 then 0
    else TotalPoints(records[..|records| - 1]) + PointCount(records[|records| - 1])
  }

  /** The `all_days` list: the day points of every record, record by record. */
  function Expand(records: seq<WipRecord>): (pts: seq<int>)
    ensures |pts| == TotalPoints(records)
    ensures forall i :: 0 <= i < |pts| ==> exists r :: r in records && Covers(r, pts[i])
  {
    if |records| == 0 then []
    else
      var init, last := records[..|records| - 1], records[|records| - 1];
      var prev := Expand(init);
      var own := DayRange(last.start, last.end);
      var pts := prev + own;
      assert forall i :: 0 <= i < |prev| ==> pts[i] == prev[i];
      assert forall i :: |prev| <= i < |pts| ==> pts[i] == own[i - |prev|] && Covers(last, pts[i]);
      assert forall r :: r in init ==> r in records;
      pts
  }

  /** One more record appends exactly its own day points, `start + k * DAY`
      for every `k` that does not pass its end. */
  lemma ExpandAppend(records: seq<WipRecord>, r: WipRecord)
    ensures Expand(records + [r]) == Expand(records) + DayRange(r.start, r.end)
    ensures |Expand(records + [r])| == |Expand(records)| + PointCount(r)
  {
    assert (records + [r])[..|records|] == records;
  }

  /** The month of every point (`wip_df["month"]`). */
  function Months(pts: seq<int>): (ms: seq<int>)
    ensures |ms| == |pts| && forall i :: 0 <= i < |pts| ==> ms[i] == MonthOfInstant(pts[i])
  {
    seq(|pts|, i requires 0 <= i < |pts| => MonthOfInstant(pts[i]))
  }

  /** The latest month among the points (`wip_df["month"].max()`), absent when
      there are no points. */
  function MaxMonth(pts: seq<int>): (m: Option<int>)
    ensures m.None? <==> |pts| == 0
    ensures m.Some? ==> forall i :: 0 <= i < |pts| ==> MonthOfInstant(pts[i]) <= m.value
    ensures m.Some? ==> exists i :: 0 <= i < |pts| && MonthOfInstant(pts[i]) == m.value
  {
    if |pts| == 0 then None else Some(MaxOf(Months(pts)))
  }

  /** The points whose month is `minMonth` or later, in order. */
  function KeepFrom(pts: seq<int>, minMonth: int): (kept: seq<int>)
    ensures forall t :: multiset(kept)[t] == if MonthOfInstant(t) >= minMonth then multiset(pts)[t] else 0
    ensures |kept| <= |pts|
    ensures forall t :: t in kept ==> t in pts
  {
    if |pts| == 0 then []
    else
      var init, last := pts[..|pts| - 1], pts[|pts| - 1];
      assert pts == init + [last];
      KeepFrom(init, minMonth) + (if MonthOfInstant(last) >= minMonth then [last] else [])
  }

  /** `wip_df[wip_df["month"] >= max_month - months_lookback + 1]`. */
  function MonthFilter(pts: seq<int>, monthsLookback: int): (kept: seq<int>)
    ensures |pts| == 0 ==> kept == []
    ensures |kept| <= |pts| && forall t :: t in kept ==> t in pts
    ensures |pts| > 0 ==>
              forall t :: multiset(kept)[t]
                          == if MonthOfInstant(t) >= MaxMonth(pts).value - monthsLookback + 1
                             then multiset(pts)[t] else 0
  {
    var max := MaxMonth(pts);
    if max.None? then [] else KeepFrom(pts, max.value - monthsLookback + 1)
  }

  /** The points `debug_monthly_wip_aggregation` goes on to count per day and
      per month. With no points at all the `.dt` accessor fails on the empty
      column, which is `None` here. Otherwise every point of the expansion
      whose month is within `monthsLookback` of the latest point's month is
      kept, as often as the expansion holds it, and no other. */
  function DebugMonthlyPoints(records: seq<WipRecord>, monthsLookback: int): (kept: Option<seq<int>>)
    ensures kept.None? <==> TotalPoints(records) == 0
    ensures kept.Some? ==>
              forall t :: multiset(kept.value)[t]
                          == if MonthOfInstant(t) >= MaxMonth(Expand(records)).value - monthsLookback + 1
                             then multiset(Expand(records))[t] else 0
    ensures kept.Some? ==> |kept.value| <= TotalPoints(records)
    ensures kept.Some? ==> forall t :: t in kept.value ==> (exists r :: r in records && Covers(r, t))
  {
    var all := Expand(records);
    if |all| == 0 then None
    else
      var kept := MonthFilter(all, monthsLookback);
      assert forall t :: t in kept ==> t in all && exists i :: 0 <= i < |all| && all[i] == t;
      Some(kept)
  }

  /** With a lookback of at least one month, the latest month is always kept
      in full. */
  lemma LatestMonthKept(pts: seq<int>, monthsLookback: int, i: int)
    requires monthsLookback >= 1 && 0 <= i < |pts|
    requires MonthOfInstant(pts[i]) == MaxMonth(pts).value
    ensures pts[i] in MonthFilter(pts, monthsLookback)
  {
    assert multiset(pts)[pts[i]] > 0;
  }
}
