/** Concrete changelog shapes whose outcome under `parse_wip_ranges` pins down
    its quirks. */
module WipScenarios {
  import opened Wrappers
  import opened Changelog
  import opened WipRanges
  import Seqs

  function Move(from: string, to: string): StatusItem {
    StatusItem(Some(STATUS_FIELD), Some(from), Some(to))
  }

  lemma WalkOneItemEach(st: WalkState, at: int, item: StatusItem)
    requires Consistent(st)
    ensures WalkItems(st, at, [item]) == StepItem(st, at, item)
  {
    assert [item][..0] == [];
  }

  /** Enter at t1, leave at t2, enter again at t3. */
  function ReentryLog(t1: int, t2: int, t3: int): seq<Entry> {
    [Entry(t1, [Move("To Do", IN_PROGRESS)]),
     Entry(t2, [Move(IN_PROGRESS, "Done")]),
     Entry(t3, [Move("Done", IN_PROGRESS)])]
  }

  lemma ReentryFirstTwo(t1: int, t2: int, t3: int)
    ensures WalkEntries(ReentryLog(t1, t2, t3)[..2]) == WalkState(None, Some(t2), [Span(t1, t2)])
  {
    var log := ReentryLog(t1, t2, t3);
    assert log[..1][..0] == [] && log[..1][0] == log[0];
    assert WalkEntries(log[..1]) == WalkItems(WalkEntries([]), t1, [Move("To Do", IN_PROGRESS)]);
    WalkOneItemEach(START, t1, Move("To Do", IN_PROGRESS));
    var s1 := WalkState(Some(t1), None, []);
    assert log[..2][..1] == log[..1] && log[..2][1] == log[1];
    WalkOneItemEach(s1, t2, Move(IN_PROGRESS, "Done"));
  }

  lemma ReentryLogSorted(t1: int, t2: int, t3: int)
    requires t1 <= t2 <= t3
    ensures SortedChangelog(ReentryLog(t1, t2, t3)) == ReentryLog(t1, t2, t3)
  {
    assert Seqs.SortedBy(ReentryLog(t1, t2, t3), EntryCreated);
    Seqs.SortSortedIsIdentity(ReentryLog(t1, t2, t3), EntryCreated);
  }

  lemma ReentryWalk(t1: int, t2: int, t3: int)
    ensures WalkEntries(ReentryLog(t1, t2, t3)) == WalkState(Some(t3), Some(t2), [Span(t1, t2)])
  {
    var log := ReentryLog(t1, t2, t3);
    ReentryFirstTwo(t1, t2, t3);
    assert log[..2] == log[..|log| - 1];
    var s2 := WalkState(None, Some(t2), [Span(t1, t2)]);
    WalkOneItemEach(s2, t3, Move("Done", IN_PROGRESS));
  }

  /** Enter at t1, leave at t2, enter again at t3, and still in progress: the
      walk closes [t1, t2] and keeps t3 pending, but because a stay already
      closed no open record [t3, end] is produced; the issue gets an inferred
      record instead (when its key is unseen). */
  lemma ReentryGetsFallbackNotOpen(issue: Issue, t1: int, t2: int, t3: int, endDate: int, seen: set<string>)
    requires t1 <= t2 <= t3
    requires issue.changelog == ReentryLog(t1, t2, t3)
    requires InProgressNow(issue) && issue.key !in seen
    ensures Extract(issue, endDate, seen).closed == [RecordOf(issue, t1, t2)]
    ensures Extract(issue, endDate, seen).open == None
    ensures Extract(issue, endDate, seen).fallback
            == Some(RecordOf(issue, FallbackStart(issue.created, endDate), endDate))
  {
    ReentryLogSorted(t1, t2, t3);
    ReentryWalk(t1, t2, t3);
  }

  /** Enter once and never leave, still in progress: one open record from the
      entry to the window end, and no inferred record. */
  lemma {:induction false} SingleEntryGetsOpen(issue: Issue, t1: int, endDate: int, seen: set<string>)
    requires issue.changelog == [Entry(t1, [Move("To Do", IN_PROGRESS)])]
    requires InProgressNow(issue)
    ensures Extract(issue, endDate, seen).closed == []
    ensures Extract(issue, endDate, seen).open == Some(RecordOf(issue, t1, endDate))
    ensures Extract(issue, endDate, seen).fallback == None
    ensures Extract(issue, endDate, seen).seen == seen + {issue.key}
  {
    var log := issue.changelog;
    Seqs.SortSortedIsIdentity(log, EntryCreated);
    assert log[..0] == [];
    assert WalkChangelog(log) == WalkItems(WalkEntries([]), t1, [Move("To Do", IN_PROGRESS)]);
    WalkOneItemEach(START, t1, Move("To Do", IN_PROGRESS));
    assert WalkChangelog(log) == WalkState(Some(t1), None, []);
  }

  /** No changelog at all: an issue in progress now with an unseen key gets
      exactly the inferred record; any other issue gets nothing. */
  lemma EmptyChangelog(issue: Issue, endDate: int, seen: set<string>)
    requires issue.changelog == []
    ensures Extract(issue, endDate, seen).closed == []
    ensures Extract(issue, endDate, seen).open == None
    ensures Extract(issue, endDate, seen).fallback.Some? <==> InProgressNow(issue) && issue.key !in seen
  {
  }

  /** Entering twice without leaving keeps the first start, and leaving later
      closes the span from the first entry. */
  lemma {:induction false} SecondEntryKeepsFirstStart(t1: int, t2: int, t3: int)
    ensures
      var s := StepItem(StepItem(START, t1, Move("To Do", IN_PROGRESS)), t2, Move("Blocked", IN_PROGRESS));
      s.pending == Some(t1) && StepItem(s, t3, Move(IN_PROGRESS, "Done")).closed == [Span(t1, t3)]
  {
  }
}
