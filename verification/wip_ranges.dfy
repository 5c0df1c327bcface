/** `parse_wip_ranges`: the "In Progress" records of a batch of issues, with
    the issues whose record had to be inferred. */
module WipRanges {
  import opened Wrappers
  import opened Time
  import opened Changelog

  /** How far back an inferred start may reach before the window end. */
  const FALLBACK_LOOKBACK: int := 30 * DAY

  /** A WIP record: an issue and one span of time it spent in progress. */
  datatype WipRecord = WipRecord(key: string, summary: string, assignee: Option<string>, start: int, end: int)

  predicate InProgressNow(issue: Issue) {
    issue.status == Some(IN_PROGRESS)
  }

  function RecordOf(issue: Issue, start: int, end: int): WipRecord {
    WipRecord(issue.key, issue.summary, issue.assignee, start, end)
  }

  /** One record per closed stay, in the order the stays closed: each carries
      the issue's key, summary and assignee, starts no later than it ends, and
      ends no later than the next one starts. */
  function ClosedRecords(issue: Issue): (rs: seq<WipRecord>)
    ensures |rs| == |WalkChangelog(issue.changelog).closed|
    ensures forall i :: 0 <= i < |rs| ==>
              rs[i] == RecordOf(issue, WalkChangelog(issue.changelog).closed[i].start,
                                WalkChangelog(issue.changelog).closed[i].end)
    ensures forall i :: 0 <= i < |rs| ==>
              rs[i].key == issue.key && rs[i].summary == issue.summary && rs[i].assignee == issue.assignee
    ensures forall i :: 0 <= i < |rs| ==> rs[i].start <= rs[i].end
    ensures forall i, j :: 0 <= i < j < |rs| ==> rs[i].end <= rs[j].start
  {
    var spans := WalkChangelog(issue.changelog).closed;
    seq(|spans|, i requires 0 <= i < |spans| => RecordOf(issue, spans[i].start, spans[i].end))
  }

  /** Start of the record for a stay still open at the window end: reported
      only for an issue in progress now whose walk left a pending start and
      closed no stay before it. */
  function OpenStart(issue: Issue): (s: Option<int>)
    ensures s.Some? <==>
              InProgressNow(issue)
              && WalkChangelog(issue.changelog).pending.Some?
              && |WalkChangelog(issue.changelog).closed| == 0
    ensures s.Some? ==> s == WalkChangelog(issue.changelog).pending
  {
    var w := WalkChangelog(issue.changelog);
    if w.pending.Some? && w.lastEnd.None? && InProgressNow(issue) then w.pending else None
  }

  /** `max(created, end_date - 30 days)`. */
  function FallbackStart(created: int, endDate: int): (s: int)
    ensures created <= s && endDate - FALLBACK_LOOKBACK <= s
    ensures s == created || s == endDate - FALLBACK_LOOKBACK
  {
    if endDate - FALLBACK_LOOKBACK > created then endDate - FALLBACK_LOOKBACK else created
  }

  /** An inferred record is a proper span exactly when the issue was created
      no later than the window end; its start never reaches back more than the
      lookback. */
  lemma FallbackSpan(created: int, endDate: int)
    ensures FallbackStart(created, endDate) <= endDate <==> created <= endDate
    ensures endDate - FallbackStart(created, endDate) <= FALLBACK_LOOKBACK
  {
  }

  /** What one issue adds to the batch, and the seen keys afterwards. */
  datatype Extraction = Extraction(
    closed: seq<WipRecord>,
    open: Option<WipRecord>,
    fallback: Option<WipRecord>,
    seen: set<string>)

  /** The body of the loop over issues in `parse_wip_ranges`. */
  function Extract(issue: Issue, endDate: int, seen: set<string>): (x: Extraction)
    ensures x.closed == ClosedRecords(issue)
    ensures x.open.Some? <==> OpenStart(issue).Some?
    ensures x.open.Some? ==> x.open.value == RecordOf(issue, OpenStart(issue).value, endDate)
    ensures x.fallback.Some? <==> InProgressNow(issue) && OpenStart(issue).None? && issue.key !in seen
    ensures x.fallback.Some? ==>
              x.fallback.value == RecordOf(issue, FallbackStart(issue.created, endDate), endDate)
    ensures x.seen == if InProgressNow(issue) then seen + {issue.key} else seen
  {
    var start := OpenStart(issue);
    var open := if start.Some? then Some(RecordOf(issue, start.value, endDate)) else None;
    var seenAfterOpen := if open.Some? then seen + {issue.key} else seen;
    var fallback :=
      if InProgressNow(issue) && issue.key !in seenAfterOpen
      then Some(RecordOf(issue, FallbackStart(issue.created, endDate), endDate))
      else None;
    var seenAfter := if fallback.Some? then seenAfterOpen + {issue.key} else seenAfterOpen;
    Extraction(ClosedRecords(issue), open, fallback, seenAfter)
  }

  function OptionSeq<T>(o: Option<T>): seq<T> {
    if o.Some? then [o.value] else []
  }

  /** The records of one issue in the order they are appended. */
  function Contribution(x: Extraction): seq<WipRecord> {
    x.closed + OptionSeq(x.open) + OptionSeq(x.fallback)
  }

  /** Records so far, the keys that already have an open or inferred record,
      and the (key, summary) of every issue whose record was inferred. */
  datatype Batch = Batch(records: seq<WipRecord>, seen: set<string>, missing: seq<(string, string)>)

  /** One pass of the loop: the issue's records go after the earlier ones,
      all carrying its key; at most one of them is not a closed stay; the
      issue's key joins the seen keys when it is in progress now; and one
      (key, summary) pair is noted for each inferred record. */
  function AddIssue(b: Batch, issue: Issue, endDate: int): (r: Batch)
    ensures r.records == b.records + Contribution(Extract(issue, endDate, b.seen))
    ensures b.records <= r.records && b.missing <= r.missing
    ensures forall i :: |b.records| <= i < |r.records| ==> r.records[i].key == issue.key
    ensures |ClosedRecords(issue)| <= |r.records| - |b.records| <= |ClosedRecords(issue)| + 1
    ensures r.seen == b.seen + (if InProgressNow(issue) then {issue.key} else {})
    ensures |r.missing| - |b.missing|
            == |r.records| - |b.records| - |ClosedRecords(issue)| - (if OpenStart(issue).Some? then 1 else 0)
    ensures forall i :: |b.missing| <= i < |r.missing| ==> r.missing[i] == (issue.key, issue.summary)
  {
    var x := Extract(issue, endDate, b.seen);
    var added := Contribution(x);
    assert |added| == |x.closed| + |OptionSeq(x.open)| + |OptionSeq(x.fallback)|;
    assert forall j :: 0 <= j < |added| ==> added[j].key == issue.key;
    Batch(
      b.records + added,
      x.seen,
      b.missing + (if x.fallback.Some? then [(issue.key, issue.summary)] else []))
  }

  /** Keys of the issues whose current status is "In Progress". */
  function InProgressKeys(issues: seq<Issue>): set<string> {
    set i | 0 <= i < |issues| && InProgressNow(issues[i]) :: issues[i].key
  }

  lemma InProgressKeysSnoc(issues: seq<Issue>, issue: Issue)
    ensures InProgressKeys(issues + [issue])
            == InProgressKeys(issues) + (if InProgressNow(issue) then {issue.key} else {})
  {
    var all := issues + [issue];
    forall k | k in InProgressKeys(all)
      ensures k in InProgressKeys(issues) + (if InProgressNow(issue) then {issue.key} else {})
    {
      var i :| 0 <= i < |all| && InProgressNow(all[i]) && all[i].key == k;
      if i < |issues| {
        assert all[i] == issues[i];
      }
    }
    forall k | k in InProgressKeys(issues)
      ensures k in InProgressKeys(all)
    {
      var i :| 0 <= i < |issues| && InProgressNow(issues[i]) && issues[i].key == k;
      assert all[i] == issues[i];
    }
    if InProgressNow(issue) {
      assert all[|issues|] == issue;
    }
  }

  /** `parse_wip_ranges(issues, end_date)`. The seen keys are exactly the keys
      of in-progress issues; no key is reported as inferred twice; every
      inferred key belongs to an in-progress issue. */
  function ParseWipRanges(issues: seq<Issue>, endDate: int): (b: Batch)
    ensures |issues| == 0 ==> b.records == [] && b.missing == []
    ensures b.seen == InProgressKeys(issues)
    ensures forall i :: 0 <= i < |b.missing| ==> b.missing[i].0 in b.seen
    ensures forall i, j :: 0 <= i < j < |b.missing| ==> b.missing[i].0 != b.missing[j].0
    ensures |b.missing| <= |issues|
  {
    if |issues| == 0 then Batch([], {}, [])
    else
      var init, last := issues[..|issues| - 1], issues[|issues| - 1];
      assert issues == init + [last];
      InProgressKeysSnoc(init, last);
      var prev := ParseWipRanges(init, endDate);
      AddIssueStep(prev, last, endDate);
      AddIssue(prev, last, endDate)
  }

  /** Adding one issue keeps the inferred keys seen and distinct, and adds
      its key to the seen keys exactly when it is in progress now. */
  lemma AddIssueStep(b: Batch, issue: Issue, endDate: int)
    requires forall i :: 0 <= i < |b.missing| ==> b.missing[i].0 in b.seen
    requires forall i, j :: 0 <= i < j < |b.missing| ==> b.missing[i].0 != b.missing[j].0
    ensures var b' := AddIssue(b, issue, endDate);
            && b'.seen == b.seen + (if InProgressNow(issue) then {issue.key} else {})
            && (forall i :: 0 <= i < |b'.missing| ==> b'.missing[i].0 in b'.seen)
            && (forall i, j :: 0 <= i < j < |b'.missing| ==> b'.missing[i].0 != b'.missing[j].0)
            && |b'.missing| <= |b.missing| + 1
  {
    var x := Extract(issue, endDate, b.seen);
    var b' := AddIssue(b, issue, endDate);
    if x.fallback.Some? {
      assert b'.missing == b.missing + [(issue.key, issue.summary)];
      assert issue.key !in b.seen;
    } else {
      assert b'.missing == b.missing;
    }
  }

  /** The issue at `i` gets an inferred record exactly when it is in progress
      now, its walk gives no open record, and no earlier issue in progress
      shares its key. Closed stays never prevent the inferred record. */
  predicate FallbackDue(issues: seq<Issue>, i: int)
    requires 0 <= i < |issues|
  {
    InProgressNow(issues[i]) && OpenStart(issues[i]).None? && issues[i].key !in InProgressKeys(issues[..i])
  }

  /** The extraction the batch performs for the issue at `i`. */
  function ExtractionAt(issues: seq<Issue>, endDate: int, i: int): Extraction
    requires 0 <= i < |issues|
  {
    Extract(issues[i], endDate, ParseWipRanges(issues[..i], endDate).seen)
  }

  lemma FallbackAt(issues: seq<Issue>, endDate: int, i: int)
    requires 0 <= i < |issues|
    ensures ExtractionAt(issues, endDate, i).fallback.Some? <==> FallbackDue(issues, i)
  {
  }

  /** The batch after the first `i` issues extended by the issue at `i`. */
  lemma BatchStep(issues: seq<Issue>, endDate: int, i: int)
    requires 0 <= i < |issues|
    ensures ParseWipRanges(issues[..i + 1], endDate)
            == AddIssue(ParseWipRanges(issues[..i], endDate), issues[i], endDate)
  {
    assert issues[..i + 1][..i] == issues[..i];
  }

  /** The inferred-issue list, defined without the seen set: one entry per
      issue for which `FallbackDue` holds, in input order. */
  function MissingSpec(issues: seq<Issue>): seq<(string, string)> {
    if |issues| == 0 then []
    else
      var n := |issues| - 1;
      MissingSpec(issues[..n]) + (if FallbackDue(issues, n) then [(issues[n].key, issues[n].summary)] else [])
  }

  /** The record list, defined without threading a batch through the loop:
      the records each issue contributes when the keys seen before it are
      those of the earlier issues in progress, issue after issue. */
  function RecordsSpec(issues: seq<Issue>, endDate: int): seq<WipRecord> {
    if |issues| == 0 then []
    else
      var n := |issues| - 1;
      RecordsSpec(issues[..n], endDate) + Contribution(Extract(issues[n], endDate, InProgressKeys(issues[..n])))
  }

  /** `wip_records` holds exactly the contributions of the issues, in input
      order, and nothing else. */
  lemma {:induction false} RecordsAreContributions(issues: seq<Issue>, endDate: int)
    ensures ParseWipRanges(issues, endDate).records == RecordsSpec(issues, endDate)
  {
    if |issues| > 0 {
      var n := |issues| - 1;
      RecordsAreContributions(issues[..n], endDate);
      assert issues[..n + 1] == issues;
      BatchStep(issues, endDate, n);
    }
  }

  /** `missing_details` lists exactly the issues due an inferred record. */
  lemma {:induction false} MissingIsFallbacks(issues: seq<Issue>, endDate: int)
    ensures ParseWipRanges(issues, endDate).missing == MissingSpec(issues)
  {
    if |issues| > 0 {
      var n := |issues| - 1;
      MissingIsFallbacks(issues[..n], endDate);
      assert issues[..n + 1] == issues;
      BatchStep(issues, endDate, n);
      FallbackAt(issues, endDate, n);
    }
  }

  /** Once an issue received an open record, no later issue with the same key
      gets an inferred one. */
  lemma NoFallbackAfterOpen(issues: seq<Issue>, i: int, j: int)
    requires 0 <= i < j < |issues|
    requires OpenStart(issues[i]).Some? && issues[j].key == issues[i].key
    ensures !FallbackDue(issues, j)
  {
    assert issues[..j][i] == issues[i];
  }

  /** An issue not in progress now adds only its closed stays: no open or
      inferred record, no diagnostic, no seen key; a pending start is dropped. */
  lemma NotInProgressAddsClosedOnly(b: Batch, issue: Issue, endDate: int)
    requires !InProgressNow(issue)
    ensures AddIssue(b, issue, endDate) == Batch(b.records + ClosedRecords(issue), b.seen, b.missing)
  {
  }

  /** The records of the first `i` issues come first, so records are grouped
      by issue in input order. */
  lemma {:induction false} RecordsGroupedInOrder(issues: seq<Issue>, endDate: int, i: int)
    requires 0 <= i <= |issues|
    ensures ParseWipRanges(issues[..i], endDate).records <= ParseWipRanges(issues, endDate).records
    decreases |issues| - i
  {
    if i < |issues| {
      RecordsGroupedInOrder(issues, endDate, i + 1);
      BatchStep(issues, endDate, i);
    } else {
      assert issues[..i] == issues;
    }
  }

  /** Every timestamp of the issue is at most the window end. */
  predicate ObservedBy(issue: Issue, endDate: int) {
    && issue.created <= endDate
    && forall k :: 0 <= k < |issue.changelog| ==> issue.changelog[k].created <= endDate
  }

  /** The walk of an issue within the window records nothing after the
      window end. */
  lemma WalkWithinWindow(issue: Issue, endDate: int)
    requires ObservedBy(issue, endDate)
    ensures Settled(WalkChangelog(issue.changelog), endDate)
  {
    if |issue.changelog| > 0 {
      SettledLater(WalkChangelog(issue.changelog), LatestCreated(issue.changelog), endDate);
    }
  }

  /** Within the window, every record of one issue starts no later than it
      ends, and its closed records are chronological and non-overlapping. */
  lemma ExtractionProper(issue: Issue, endDate: int, seen: set<string>)
    requires ObservedBy(issue, endDate)
    ensures forall r :: r in Contribution(Extract(issue, endDate, seen)) ==> r.start <= r.end
    ensures forall i, j :: 0 <= i < j < |ClosedRecords(issue)| ==>
              ClosedRecords(issue)[i].end <= ClosedRecords(issue)[j].start
  {
    WalkWithinWindow(issue, endDate);
    FallbackSpan(issue.created, endDate);
    var x := Extract(issue, endDate, seen);
    assert forall r :: r in x.closed ==> r.start <= r.end;
  }

  /** Every record of the batch is a proper span when all issues lie within
      the window. */
  lemma {:induction false} BatchProper(issues: seq<Issue>, endDate: int)
    requires forall i :: 0 <= i < |issues| ==> ObservedBy(issues[i], endDate)
    ensures forall r :: r in ParseWipRanges(issues, endDate).records ==> r.start <= r.end
  {
    if |issues| > 0 {
      var n := |issues| - 1;
      BatchProper(issues[..n], endDate);
      BatchStep(issues, endDate, n);
      assert issues[..n + 1] == issues;
      ExtractionProper(issues[n], endDate, ParseWipRanges(issues[..n], endDate).seen);
    }
  }
}
