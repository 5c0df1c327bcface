/** `get_issues_in_progress_in_month`: the WIP records active at some instant
    of a calendar month, with their whole-day durations, ordered by start. */
module MonthQuery {
  import opened Wrappers
  import opened Time
  import opened Calendar
  import opened WipRanges
  import Seqs

  /** One row of the result table. */
  datatype MonthRow = MonthRow(
    key: string,
    summary: string,
    assignee: Option<string>,
    start: int,
    end: int,
    daysInProgress: int)

  /** `pd.Period` rejects a month outside 1..12; sorting the frame built from
      no matches fails because it has no `in_progress_start` column. */
  datatype QueryError = InvalidMonth | NoMatches

  /** Closed-interval overlap: touching the window at one instant counts. */
  predicate Overlaps(r: WipRecord, lo: int, hi: int) {
    r.start <= hi && r.end >= lo
  }

  function ToRow(r: WipRecord): (row: MonthRow)
    ensures row.daysInProgress * DAY <= r.end - r.start < row.daysInProgress * DAY + DAY
  {
    MonthRow(r.key, r.summary, r.assignee, r.start, r.end, FloorDays(r.end - r.start))
  }

  /** The row of a record that overlaps the window, and none otherwise. */
  function MatchOf(lo: int, hi: int): WipRecord -> Option<MonthRow> {
    r => if Overlaps(r, lo, hi) then Some(ToRow(r)) else None
  }

  /** The rows of the overlapping records, in record order. */
  function Matches(records: seq<WipRecord>, lo: int, hi: int): (rows: seq<MonthRow>)
    ensures forall r :: r in records && Overlaps(r, lo, hi) ==> ToRow(r) in rows
    ensures forall row :: row in rows ==> exists r :: r in records && Overlaps(r, lo, hi) && row == ToRow(r)
    ensures |rows| <= |records|
    ensures |records| == 1 ==> rows == if Overlaps(records[0], lo, hi) then [ToRow(records[0])] else []
  {
    var f := MatchOf(lo, hi);
    assert forall i :: 0 <= i < |records| ==>
             f(records[i]) == if Overlaps(records[i], lo, hi) then Some(ToRow(records[i])) else None;
    Seqs.FilterMap(records, f)
  }

  /** Matching keeps record order and repeats: the rows of a concatenation
      are the rows of each part, one after the other. */
  lemma MatchesAppend(a: seq<WipRecord>, b: seq<WipRecord>, lo: int, hi: int)
    ensures Matches(a + b, lo, hi) == Matches(a, lo, hi) + Matches(b, lo, hi)
  {
    Seqs.FilterMapAppend(a, b, MatchOf(lo, hi));
  }

  function RowStart(row: MonthRow): int {
    row.start
  }

  /** `get_issues_in_progress_in_month(wip_records, "YYYY-MM")`. */
  function IssuesInProgressInMonth(records: seq<WipRecord>, year: int, month: int): (res: Result<seq<MonthRow>, QueryError>)
    ensures !(1 <= month <= 12) ==> res == Err(InvalidMonth)
    ensures 1 <= month <= 12 ==>
              (res == Err(NoMatches) <==>
                 forall r :: r in records ==> !Overlaps(r, MonthWindow(year, month).0, MonthWindow(year, month).1))
    ensures res.Ok? ==>
              && |res.value| > 0
              && Seqs.SortedBy(res.value, RowStart)
              && multiset(res.value)
                 == multiset(Matches(records, MonthWindow(year, month).0, MonthWindow(year, month).1))
  {
    if !(1 <= month <= 12) then Err(InvalidMonth)
    else
      var window := MonthWindow(year, month);
      var matched := Matches(records, window.0, window.1);
      if |matched| == 0 then
        Err(NoMatches)
      else
        assert matched[0] in matched;
        var sorted := Seqs.SortBy(matched, RowStart);
        Ok(sorted)
  }

  /** A record of the input appears in the result exactly when it overlaps
      the month window. */
  lemma SelectedIffOverlaps(records: seq<WipRecord>, year: int, month: int, r: WipRecord)
    requires r in records
    requires IssuesInProgressInMonth(records, year, month).Ok?
    ensures 1 <= month <= 12
    ensures ToRow(r) in IssuesInProgressInMonth(records, year, month).value
            <==> Overlaps(r, MonthWindow(year, month).0, MonthWindow(year, month).1)
  {
    var w := MonthWindow(year, month);
    var rows := IssuesInProgressInMonth(records, year, month).value;
    assert ToRow(r) in rows <==> ToRow(r) in multiset(rows);
    assert ToRow(r) in Matches(records, w.0, w.1) <==> ToRow(r) in multiset(Matches(records, w.0, w.1));
  }

  /** For a proper record, overlapping the window is the same as being in
      progress at some instant whose month is `YYYY-MM`. */
  lemma OverlapIsActiveInMonth(r: WipRecord, year: int, month: int)
    requires 1 <= month <= 12
    requires r.start <= r.end
    ensures Overlaps(r, MonthWindow(year, month).0, MonthWindow(year, month).1)
            <==> exists t :: r.start <= t <= r.end && MonthOfInstant(t) == MonthIndex(year, month)
  {
    var w := MonthWindow(year, month);
    if Overlaps(r, w.0, w.1) {
      var t := if r.start < w.0 then w.0 else r.start;
      MonthWindowExact(year, month, t);
      assert r.start <= t <= r.end && MonthOfInstant(t) == MonthIndex(year, month);
    }
    forall t | r.start <= t <= r.end && MonthOfInstant(t) == MonthIndex(year, month)
      ensures Overlaps(r, w.0, w.1)
    {
      MonthWindowExact(year, month, t);
    }
  }
}
