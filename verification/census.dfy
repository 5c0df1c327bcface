/** The daily WIP census of the charts and tables: for each sample instant,
    how many WIP records contain it. */
module DailyCensus {
  import opened Wrappers
  import opened Time
  import opened Calendar
  import opened WipRanges

  /** `pd.date_range(start, end, freq="D")`: the instants `start + k * DAY`
      that do not pass `end`. */
  function DayRange(start: int, end: int): (pts: seq<int>)
    ensures |pts| == if start <= end then FloorDays(end - start) + 1 else 0
    ensures forall k :: 0 <= k < |pts| ==> pts[k] == start + k * DAY
    ensures |pts| > 0 ==> pts[0] == start
    ensures forall k :: 0 <= k < |pts| ==> start <= pts[k] <= end
    ensures end < start + |pts| * DAY
  {
    if start > end then []
    else seq(FloorDays(end - start) + 1, k => start + k * DAY)
  }

  /** Sample instants of the daily views: the end of today and the same time
      on each of the `days` preceding days. */
  function DailySamples(now: int, days: int): (pts: seq<int>)
    ensures days >= 0 ==> |pts| == days + 1 && pts[days] == EndOfDay(now)
    ensures days < 0 ==> pts == []
    ensures forall k :: 0 <= k < |pts| ==> pts[k] == EndOfDay(now) - days * DAY + k * DAY
    ensures forall k :: 0 <= k < |pts| ==> pts[k] % DAY == DAY - 1
  {
    var end := EndOfDay(now);
    WholeDayCount(days);
    var pts := DayRange(end - days * DAY, end);
    SameTimeOfDay(end, pts, days);
    pts
  }

  lemma WholeDayCount(days: int)
    ensures days >= 0 ==> FloorDays(days * DAY) == days
  {
    if days >= 0 {
      FloorDaysUnique(days * DAY, days);
    }
  }

  lemma SameTimeOfDay(end: int, pts: seq<int>, days: int)
    requires end % DAY == DAY - 1
    requires forall k :: 0 <= k < |pts| ==> pts[k] == end - days * DAY + k * DAY
    ensures forall k :: 0 <= k < |pts| ==> pts[k] % DAY == DAY - 1
  {
    forall k | 0 <= k < |pts|
      ensures pts[k] % DAY == DAY - 1
    {
      ShiftByDays(end, k - days);
    }
  }

  lemma ShiftByDays(t: int, n: int)
    ensures (t + n * DAY) % DAY == t % DAY
  {
  }

  /** The first monthly sample: the end of today, `months` calendar months
      back. */
  function MonthlyStart(now: int, months: int): (s: int)
    ensures s % DAY == DAY - 1
    ensures MonthOfInstant(s) == MonthOfInstant(EndOfDay(now)) - months
    ensures months >= 0 ==> s <= EndOfDay(now)
    ensures months < 0 ==> s > EndOfDay(now)
  {
    var end := EndOfDay(now);
    EarlierMonthEarlier(end, months);
    SubtractMonths(end, months)
  }

  /** Sample instants of the monthly view: from `months` calendar months
      before the end of today, one per day, up to the end of today. */
  function MonthlySamples(now: int, months: int): (pts: seq<int>)
    ensures months < 0 ==> pts == []
    ensures months >= 0 ==> |pts| == (EndOfDay(now) - MonthlyStart(now, months)) / DAY + 1
    ensures forall k :: 0 <= k < |pts| ==> pts[k] == MonthlyStart(now, months) + k * DAY
    ensures forall k :: 0 <= k < |pts| ==> pts[k] % DAY == DAY - 1
    ensures |pts| > 0 ==> MonthOfInstant(pts[0]) == MonthOfInstant(EndOfDay(now)) - months
    ensures months >= 0 ==> |pts| > 0 && pts[|pts| - 1] == EndOfDay(now)
  {
    var end := EndOfDay(now);
    var start := MonthlyStart(now, months);
    AlignedRange(start, end);
    DayRange(start, end)
  }

  /** Between two instants at the same time of day, the daily points are all
      at that time of day and reach the later one exactly. */
  lemma AlignedRange(start: int, end: int)
    requires start % DAY == end % DAY
    ensures var pts := DayRange(start, end);
            && (forall k :: 0 <= k < |pts| ==> pts[k] % DAY == end % DAY)
            && (start <= end ==> |pts| > 0 && pts[|pts| - 1] == end)
  {
    var pts := DayRange(start, end);
    DaysApart(start, end);
    forall k | 0 <= k < |pts|
      ensures pts[k] % DAY == end % DAY
    {
      ShiftByDays(start, k);
    }
  }

  /** Going back a non-negative number of months never moves forward, and
      going back a negative number moves into a later month. */
  lemma EarlierMonthEarlier(t: int, months: int)
    ensures months >= 0 ==> SubtractMonths(t, months) <= t
    ensures months < 0 ==> SubtractMonths(t, months) > t
  {
    if months > 0 {
      MonthOrder(SubtractMonths(t, months), t);
    } else if months < 0 {
      MonthOrder(t, SubtractMonths(t, months));
    }
  }

  lemma DaysApart(start: int, end: int)
    requires start % DAY == end % DAY
    ensures end - start == FloorDays(end - start) * DAY
    ensures start == end - ((end - start) / DAY) * DAY
  {
  }

  /** A record is counted at instant `t` when `start <= t <= end`. */
  predicate Covers(r: WipRecord, t: int) {
    r.start <= t <= r.end
  }

  /** Number of records containing `t`. */
  function CountAt(records: seq<WipRecord>, t: int): (n: nat)
    ensures n <= |records|
  {
    if |records| == 0 then 0
    else CountAt(records[..|records| - 1], t) + (if Covers(records[|records| - 1], t) then 1 else 0)
  }

  /** The count at every sample. */
  function Census(records: seq<WipRecord>, samples: seq<int>): (counts: seq<nat>)
    ensures |counts| == |samples|
    ensures forall i :: 0 <= i < |samples| ==> counts[i] <= |records|
  {
    seq(|samples|, i requires 0 <= i < |samples| => CountAt(records, samples[i]))
  }

  /** The counting loop shared by the WIP charts and tables: records outer,
      samples inner, one increment per covered sample. */
  method CountLoop(records: seq<WipRecord>, samples: seq<int>) returns (counts: seq<int>)
    ensures counts == Census(records, samples)
  {
    counts := seq(|samples|, _ => 0);
    for j := 0 to |records|
      invariant |counts| == |samples|
      invariant forall i :: 0 <= i < |samples| ==> counts[i] == CountAt(records[..j], samples[i])
    {
      var r := records[j];
      assert records[..j + 1][..j] == records[..j] && records[..j + 1][j] == r;
      for i := 0 to |samples|
        invariant |counts| == |samples|
        invariant forall k :: 0 <= k < i ==> counts[k] == CountAt(records[..j + 1], samples[k])
        invariant forall k :: i <= k < |samples| ==> counts[k] == CountAt(records[..j], samples[k])
      {
        if r.start <= samples[i] <= r.end {
          counts := counts[i := counts[i] + 1];
        }
      }
    }
    assert records[..|records|] == records;
  }

  lemma CountSnoc(records: seq<WipRecord>, r: WipRecord, t: int)
    ensures CountAt(records + [r], t) == CountAt(records, t) + (if Covers(r, t) then 1 else 0)
  {
    assert (records + [r])[..|records|] == records;
  }

  /** Adding one record raises the count by one at the samples it covers and
      leaves every other sample unchanged. */
  lemma AppendRecord(records: seq<WipRecord>, r: WipRecord, samples: seq<int>, i: int)
    requires 0 <= i < |samples|
    ensures Census(records + [r], samples)[i]
            == Census(records, samples)[i] + (if Covers(r, samples[i]) then 1 else 0)
  {
    CountSnoc(records, r, samples[i]);
  }

  lemma {:induction false} CountConcat(a: seq<WipRecord>, b: seq<WipRecord>, t: int)
    ensures CountAt(a + b, t) == CountAt(a, t) + CountAt(b, t)
    decreases |b|
  {
    if |b| == 0 {
      assert a + b == a;
    } else {
      var bInit := b[..|b| - 1];
      assert a + b == (a + bInit) + [b[|b| - 1]];
      CountSnoc(a + bInit, b[|b| - 1], t);
      CountConcat(a, bInit, t);
    }
  }

  /** Counts do not depend on the order of the records. */
  lemma {:induction false} CountPermutationInvariant(a: seq<WipRecord>, b: seq<WipRecord>, t: int)
    requires multiset(a) == multiset(b)
    ensures CountAt(a, t) == CountAt(b, t)
    decreases |a|
  {
    if |a| == 0 {
      assert |b| == |multiset(b)| == 0;
    } else {
      var x := a[|a| - 1];
      var aInit := a[..|a| - 1];
      assert a == aInit + [x];
      assert x in multiset(b);
      var i :| 0 <= i < |b| && b[i] == x;
      var rest := RemoveAt(b, i, t);
      assert multiset(aInit) == multiset(a) - multiset{x};
      CountPermutationInvariant(aInit, rest, t);
      CountSnoc(aInit, x, t);
    }
  }

  /** Taking out the record at `i`: the rest keeps the other records, and
      the count drops by that record's share. */
  lemma RemoveAt(b: seq<WipRecord>, i: int, t: int) returns (rest: seq<WipRecord>)
    requires 0 <= i < |b|
    ensures multiset(rest) == multiset(b) - multiset{b[i]}
    ensures CountAt(b, t) == CountAt(rest, t) + (if Covers(b[i], t) then 1 else 0)
  {
    rest := b[..i] + b[i + 1..];
    assert b == b[..i] + [b[i]] + b[i + 1..];
    assert multiset(b) == multiset(b[..i]) + multiset{b[i]} + multiset(b[i + 1..]);
    CountConcat(b[..i] + [b[i]], b[i + 1..], t);
    CountConcat(b[..i], [b[i]], t);
    CountConcat(b[..i], b[i + 1..], t);
    assert [b[i]] == [] + [b[i]];
    CountSnoc([], b[i], t);
  }

  /** Sum of the counts over the samples. */
  function CountSum(records: seq<WipRecord>, samples: seq<int>): int {
    if |samples| == 0 then 0
    else CountSum(records, samples[..|samples| - 1]) + CountAt(records, samples[|samples| - 1])
  }

  /** Number of samples one record covers. */
  function Coverage(r: WipRecord, samples: seq<int>): (n: nat)
    ensures n <= |samples|
  {
    if |samples| == 0 then 0
    else Coverage(r, samples[..|samples| - 1]) + (if Covers(r, samples[|samples| - 1]) then 1 else 0)
  }

  /** Sum over the records of the samples each covers. */
  function TotalCoverage(records: seq<WipRecord>, samples: seq<int>): int {
    if |records| == 0 then 0
    else TotalCoverage(records[..|records| - 1], samples) + Coverage(records[|records| - 1], samples)
  }

  lemma {:induction false} TotalCoverageSnocSample(records: seq<WipRecord>, samples: seq<int>, s: int)
    ensures TotalCoverage(records, samples + [s]) == TotalCoverage(records, samples) + CountAt(records, s)
  {
    assert (samples + [s])[..|samples|] == samples;
    if |records| > 0 {
      TotalCoverageSnocSample(records[..|records| - 1], samples, s);
    }
  }

  lemma {:induction false} NoSamplesNoCoverage(records: seq<WipRecord>, samples: seq<int>)
    requires |samples| == 0
    ensures TotalCoverage(records, samples) == 0
  {
    if |records| > 0 {
      NoSamplesNoCoverage(records[..|records| - 1], samples);
    }
  }

  /** Counting per sample or per record gives the same total: the counts sum
      to the number of (record, sample) pairs with the sample inside the
      record. */
  lemma {:induction false} CountSumIsTotalCoverage(records: seq<WipRecord>, samples: seq<int>)
    ensures CountSum(records, samples) == TotalCoverage(records, samples)
  {
    if |samples| > 0 {
      var init := samples[..|samples| - 1];
      var last := samples[|samples| - 1];
      CountSumIsTotalCoverage(records, init);
      assert samples == init + [last];
      TotalCoverageSnocSample(records, init, last);
      assert CountSum(records, samples) == CountSum(records, init) + CountAt(records, last);
    } else {
      NoSamplesNoCoverage(records, samples);
    }
  }

  /** A record that starts and ends within one day, before its last
      microsecond, contains no sample of the daily views. */
  lemma SameDayRecordUncounted(r: WipRecord, s: int)
    requires r.start / DAY == r.end / DAY && r.end % DAY < DAY - 1
    requires s % DAY == DAY - 1
    ensures !Covers(r, s)
  {
  }

  /** The figures printed under the daily chart. */
  datatype WipSummary = WipSummary(latest: int, max: int, min: int)

  function MaxOf(xs: seq<int>): (m: int)
    requires |xs| > 0
    ensures forall i :: 0 <= i < |xs| ==> xs[i] <= m
    ensures exists i :: 0 <= i < |xs| && xs[i] == m
  {
    if |xs| == 1 then xs[0]
    else
      var m := MaxOf(xs[..|xs| - 1]);
      assert xs[..|xs| - 1][0] == xs[0];
      if xs[|xs| - 1] > m then xs[|xs| - 1] else m
  }

  function MinOf(xs: seq<int>): (m: int)
    requires |xs| > 0
    ensures forall i :: 0 <= i < |xs| ==> m <= xs[i]
    ensures exists i :: 0 <= i < |xs| && xs[i] == m
  {
    if |xs| == 1 then xs[0]
    else
      var m := MinOf(xs[..|xs| - 1]);
      assert xs[..|xs| - 1][0] == xs[0];
      if xs[|xs| - 1] < m then xs[|xs| - 1] else m
  }

  /** Latest, maximum and minimum of the series; `iloc[-1]` fails on an
      empty series. */
  function Summarize(counts: seq<int>): (s: Option<WipSummary>)
    ensures s.None? <==> |counts| == 0
    ensures s.Some? ==> s.value.latest == counts[|counts| - 1]
    ensures s.Some? ==> s.value.min <= s.value.latest <= s.value.max
    ensures s.Some? ==> forall i :: 0 <= i < |counts| ==> s.value.min <= counts[i] <= s.value.max
    ensures s.Some? ==> exists i :: 0 <= i < |counts| && counts[i] == s.value.max
    ensures s.Some? ==> exists i :: 0 <= i < |counts| && counts[i] == s.value.min
  {
    if |counts| == 0 then None
    else Some(WipSummary(counts[|counts| - 1], MaxOf(counts), MinOf(counts)))
  }

  /** `plot_daily_wip_time_series`: the daily counts and the printed summary. */
  method PlotDailyWipTimeSeries(records: seq<WipRecord>, daysLookback: int, now: int)
    returns (samples: seq<int>, counts: seq<int>, summary: Option<WipSummary>)
    ensures samples == DailySamples(now, daysLookback)
    ensures |counts| == |samples|
    ensures forall i :: 0 <= i < |samples| ==> counts[i] == CountAt(records, samples[i])
    ensures summary == Summarize(counts)
    ensures daysLookback >= 0 ==> summary.Some? && summary.value.latest == CountAt(records, EndOfDay(now))
  {
    samples := DailySamples(now, daysLookback);
    counts := CountLoop(records, samples);
    summary := Summarize(counts);
  }

  /** The (date, count) rows of the daily tables. */
  function Rows(samples: seq<int>, counts: seq<int>): seq<(int, int)>
    requires |samples| == |counts|
  {
    seq(|samples|, i requires 0 <= i < |samples| => (samples[i], counts[i]))
  }

  /** `show_daily_wip_table`: the same series as the chart, as rows. */
  method ShowDailyWipTable(records: seq<WipRecord>, daysLookback: int, now: int)
    returns (table: seq<(int, int)>)
    ensures |table| == |DailySamples(now, daysLookback)|
    ensures forall i :: 0 <= i < |table| ==>
              table[i] == (DailySamples(now, daysLookback)[i], CountAt(records, DailySamples(now, daysLookback)[i]))
  {
    var samples := DailySamples(now, daysLookback);
    var counts := CountLoop(records, samples);
    table := Rows(samples, counts);
  }

  /** `debug_daily_wip_table`: the same rows as `show_daily_wip_table`, which
      it repeats line for line apart from the printed heading. */
  method DebugDailyWipTable(records: seq<WipRecord>, daysLookback: int, now: int)
    returns (table: seq<(int, int)>)
    ensures |table| == |DailySamples(now, daysLookback)|
    ensures forall i :: 0 <= i < |table| ==>
              table[i] == (DailySamples(now, daysLookback)[i], CountAt(records, DailySamples(now, daysLookback)[i]))
  {
    table := ShowDailyWipTable(records, daysLookback, now);
  }

  /** The daily series `plot_monthly_average_wip` averages per month. */
  method MonthlyWipSeries(records: seq<WipRecord>, monthsLookback: int, now: int)
    returns (table: seq<(int, int)>)
    ensures |table| == |MonthlySamples(now, monthsLookback)|
    ensures forall i :: 0 <= i < |table| ==>
              table[i] == (MonthlySamples(now, monthsLookback)[i], CountAt(records, MonthlySamples(now, monthsLookback)[i]))
  {
    var samples := MonthlySamples(now, monthsLookback);
    var counts := CountLoop(records, samples);
    table := Rows(samples, counts);
  }
}
