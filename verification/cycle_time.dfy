/** Cycle time (first move to "In Progress" until resolution) and lead time
    (creation until resolution), per issue, in whole days. */
module CycleTime {
  import opened Wrappers
  import opened Time
  import opened Seqs
  import opened Changelog

  /** Some status item of the entry moves the issue to "In Progress". */
  predicate MovesToInProgress(e: Entry) {
    exists j :: 0 <= j < |e.items| && EntersInProgress(e.items[j])
  }

  /** Entry `i` is the first in list order that moves to "In Progress". */
  predicate FirstMove(changelog: seq<Entry>, i: int) {
    && 0 <= i < |changelog|
    && MovesToInProgress(changelog[i])
    && forall k :: 0 <= k < i ==> !MovesToInProgress(changelog[k])
  }

  /** One status item: the first move to "In Progress" is kept once found. */
  function NoteItem(found: Option<int>, at: int, item: StatusItem): Option<int> {
    if IsStatusChange(item) && item.toStatus == Some(IN_PROGRESS) && found.None? then Some(at) else found
  }

  /** The inner loop over the items of one entry recorded at `at`. */
  function ScanItems(found: Option<int>, at: int, items: seq<StatusItem>): (r: Option<int>)
    ensures found.Some? ==> r == found
    ensures found.None? ==> (r.Some? <==> exists j :: 0 <= j < |items| && EntersInProgress(items[j]))
    ensures found.None? && r.Some? ==> r == Some(at)
  {
    if |items| == 0 then found
    else
      var init := items[..|items| - 1];
      assert forall j :: 0 <= j < |init| ==> init[j] == items[j];
      NoteItem(ScanItems(found, at, init), at, items[|items| - 1])
  }

  /** The outer loop over the changelog, in the order the changelog lists
      its entries (no sorting). */
  function FirstInProgress(changelog: seq<Entry>): (r: Option<int>)
    ensures r.None? <==> forall i :: 0 <= i < |changelog| ==> !MovesToInProgress(changelog[i])
    ensures r.Some? ==> exists i :: FirstMove(changelog, i) && r.value == changelog[i].created
  {
    if |changelog| == 0 then None
    else
      var init, last := changelog[..|changelog| - 1], changelog[|changelog| - 1];
      var prev := FirstInProgress(init);
      assert forall i :: 0 <= i < |init| ==> init[i] == changelog[i];
      if prev.Some? then
        var i :| FirstMove(init, i) && prev.value == init[i].created;
        assert FirstMove(changelog, i);
        ScanItems(prev, last.created, last.items)
      else
        var r := ScanItems(prev, last.created, last.items);
        assert r.Some? ==> FirstMove(changelog, |changelog| - 1);
        r
  }

  /** The first move decides: whatever later entries say, and whether or not
      they are earlier in time. */
  lemma FirstInProgressIsFirst(changelog: seq<Entry>, i: int)
    requires FirstMove(changelog, i)
    ensures FirstInProgress(changelog) == Some(changelog[i].created)
  {
    var r := FirstInProgress(changelog);
    var k :| FirstMove(changelog, k) && r.value == changelog[k].created;
    assert k == i;
  }

  /** List order, not time order: when a later-listed entry was recorded
      earlier, the earlier-listed entry still gives the start. */
  lemma ListOrderNotTimeOrder(early: int, late: int)
    requires early < late
    ensures var move := StatusItem(Some(STATUS_FIELD), None, Some(IN_PROGRESS));
            FirstInProgress([Entry(late, [move]), Entry(early, [move])]) == Some(late)
  {
    var move := StatusItem(Some(STATUS_FIELD), None, Some(IN_PROGRESS));
    var log := [Entry(late, [move]), Entry(early, [move])];
    assert EntersInProgress(log[0].items[0]);
    FirstInProgressIsFirst(log, 0);
  }

  /** A row of `parse_cycle_time_issues`. */
  datatype CycleRecord = CycleRecord(
    key: string,
    summary: string,
    assignee: Option<string>,
    inProgress: int,
    resolved: int,
    cycleTimeDays: int)

  /** The row of one issue: only when it was resolved and once moved to
      "In Progress"; the cycle time is the whole days between the two, which
      is negative when the resolution is recorded before the move. */
  function CycleRecordOf(issue: Issue): (r: Option<CycleRecord>)
    ensures r.Some? <==>
              issue.resolved.Some? && exists i :: 0 <= i < |issue.changelog| && MovesToInProgress(issue.changelog[i])
    ensures r.Some? ==>
              && r.value.key == issue.key
              && r.value.summary == issue.summary
              && r.value.assignee == issue.assignee
              && r.value.resolved == issue.resolved.value
              && (exists i :: FirstMove(issue.changelog, i) && r.value.inProgress == issue.changelog[i].created)
              && r.value.cycleTimeDays * DAY <= r.value.resolved - r.value.inProgress
              && r.value.resolved - r.value.inProgress < r.value.cycleTimeDays * DAY + DAY
  {
    var started := FirstInProgress(issue.changelog);
    if started.Some? && issue.resolved.Some? then
      var days := FloorDays(issue.resolved.value - started.value);
      Some(CycleRecord(issue.key, issue.summary, issue.assignee, started.value, issue.resolved.value, days))
    else None
  }

  /** `parse_cycle_time_issues`: one row per qualifying issue, in input order. */
  function ParseCycleTimeIssues(issues: seq<Issue>): (rows: seq<CycleRecord>)
    ensures |rows| <= |issues|
    ensures forall i :: 0 <= i < |issues| && CycleRecordOf(issues[i]).Some? ==> CycleRecordOf(issues[i]).value in rows
    ensures forall row :: row in rows ==> exists i :: 0 <= i < |issues| && CycleRecordOf(issues[i]) == Some(row)
  {
    FilterMap(issues, CycleRecordOf)
  }

  /** Rows keep the input order and repeats: the rows of a concatenation are
      the rows of each part, one after the other. */
  lemma ParseCycleTimeIssuesAppend(a: seq<Issue>, b: seq<Issue>)
    ensures ParseCycleTimeIssues(a + b) == ParseCycleTimeIssues(a) + ParseCycleTimeIssues(b)
  {
    FilterMapAppend(a, b, CycleRecordOf);
  }

  /** The wall-clock reading an instant's own timestamp text shows: the
      instant moved by the text's UTC offset. */
  function LocalReading(utc: int, offset: int): int {
    utc + offset
  }

  /** The lead time in whole days, when both dates are present. The stamps
      are wall-clock readings (the first 19 characters of the text carry no
      offset), cut to whole seconds before they are subtracted. */
  function LeadTimeDays(created: Option<int>, resolved: Option<int>): (d: Option<int>)
    ensures d.Some? <==> created.Some? && resolved.Some?
    ensures d.Some? ==>
              var span := TruncateToSecond(resolved.value) - TruncateToSecond(created.value);
              d.value * DAY <= span < d.value * DAY + DAY
  {
    if created.Some? && resolved.Some? then
      Some(FloorDays(TruncateToSecond(resolved.value) - TruncateToSecond(created.value)))
    else None
  }

  /** Fractions of a second never change the lead time. */
  lemma LeadTimeIgnoresFractions(created: int, resolved: int, dc: int, dr: int)
    requires 0 <= dc < SECOND && 0 <= dr < SECOND
    ensures LeadTimeDays(Some(TruncateToSecond(created) + dc), Some(TruncateToSecond(resolved) + dr))
            == LeadTimeDays(Some(created), Some(resolved))
  {
    var c, r := TruncateToSecond(created), TruncateToSecond(resolved);
    assert TruncateToSecond(c + dc) == c;
    assert TruncateToSecond(r + dr) == r;
  }

  /** A row of `parse_issues_to_dataframe`. */
  datatype LeadRecord = LeadRecord(
    key: string,
    summary: string,
    created: int,
    resolved: int,
    leadTimeDays: int,
    assignee: Option<string>)

  /** The row of one issue: only a resolved issue has one. Its dates are the
      wall-clock readings of the two stamps, whole seconds only, and the lead
      time is taken between those readings, not between the UTC instants. */
  function LeadRecordOf(issue: Issue): (r: Option<LeadRecord>)
    ensures r.Some? <==> issue.resolved.Some?
    ensures r.Some? ==>
              && r.value.key == issue.key
              && r.value.summary == issue.summary
              && r.value.assignee == issue.assignee
              && r.value.created == TruncateToSecond(LocalReading(issue.created, issue.createdOffset))
              && r.value.resolved == TruncateToSecond(LocalReading(issue.resolved.value, issue.resolvedOffset))
              && r.value.leadTimeDays * DAY <= r.value.resolved - r.value.created < r.value.leadTimeDays * DAY + DAY
  {
    var created := LocalReading(issue.created, issue.createdOffset);
    var resolved := if issue.resolved.Some? then Some(LocalReading(issue.resolved.value, issue.resolvedOffset)) else None;
    var lead := LeadTimeDays(Some(created), resolved);
    if lead.Some? then
      Some(LeadRecord(issue.key, issue.summary, TruncateToSecond(created),
                      TruncateToSecond(resolved.value), lead.value, issue.assignee))
    else None
  }

  const HOUR: int := 3600 * SECOND

  /** Created at UTC-5 and resolved 23h15m later at UTC-4 (a daylight-saving
      change in between): the readings lie 24h15m apart, so the lead time is
      one day although less than a day passed. */
  lemma LeadTimeReadsWallClock(issue: Issue)
    requires issue.createdOffset == -5 * HOUR && issue.resolvedOffset == -4 * HOUR
    requires issue.resolved == Some(issue.created + 23 * HOUR + 15 * 60 * SECOND)
    ensures LeadRecordOf(issue).value.leadTimeDays == 1
    ensures FloorDays(issue.resolved.value - issue.created) == 0
  {
  }

  /** `parse_issues_to_dataframe`: one row per resolved issue, in input order. */
  function ParseIssuesToDataframe(issues: seq<Issue>): (rows: seq<LeadRecord>)
    ensures |rows| <= |issues|
    ensures forall i :: 0 <= i < |issues| && issues[i].resolved.Some? ==> LeadRecordOf(issues[i]).value in rows
    ensures forall row :: row in rows ==> exists i :: 0 <= i < |issues| && LeadRecordOf(issues[i]) == Some(row)
  {
    FilterMap(issues, LeadRecordOf)
  }

  /** Rows keep the input order and repeats: the rows of a concatenation are
      the rows of each part, one after the other. */
  lemma ParseIssuesToDataframeAppend(a: seq<Issue>, b: seq<Issue>)
    ensures ParseIssuesToDataframe(a + b) == ParseIssuesToDataframe(a) + ParseIssuesToDataframe(b)
  {
    FilterMapAppend(a, b, LeadRecordOf);
  }
}
