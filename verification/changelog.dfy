/** Issues, their changelogs, and the walk over status changes that finds the
    spans an issue spent in "In Progress" (the loop of `parse_wip_ranges`). */
module Changelog {
  import opened Wrappers
  import Seqs

  const IN_PROGRESS: string := "In Progress"
  const STATUS_FIELD: string := "status"

  /** One changed field of a changelog entry; only status changes matter. */
  datatype StatusItem = StatusItem(field: Option<string>, fromStatus: Option<string>, toStatus: Option<string>)

  /** One changelog history: when it was recorded and what it changed. */
  datatype Entry = Entry(created: int, items: seq<StatusItem>)

  /** The fields of an issue that the metrics read. `status` is the name of
      the current status and `resolved` the resolution date, when present.
      `created` and `resolved` are UTC instants; `createdOffset` and
      `resolvedOffset` are the UTC offsets their timestamp texts carry. */
  datatype Issue = Issue(
    key: string,
    summary: string,
    assignee: Option<string>,
    status: Option<string>,
    created: int,
    createdOffset: int,
    resolved: Option<int>,
    resolvedOffset: int,
    changelog: seq<Entry>)

  function EntryCreated(e: Entry): int {
    e.created
  }

  /** `sorted(changelog, key=lambda x: x["created"])`. */
  function SortedChangelog(changelog: seq<Entry>): (r: seq<Entry>)
    ensures Seqs.SortedBy(r, EntryCreated)
    ensures multiset(r) == multiset(changelog)
  {
    Seqs.SortBy(changelog, EntryCreated)
  }

  predicate IsStatusChange(item: StatusItem) {
    item.field == Some(STATUS_FIELD)
  }

  predicate EntersInProgress(item: StatusItem) {
    IsStatusChange(item) && item.toStatus == Some(IN_PROGRESS)
  }

  predicate LeavesInProgress(item: StatusItem) {
    IsStatusChange(item) && item.fromStatus == Some(IN_PROGRESS)
  }

  /** A closed stay in "In Progress", from entering to leaving. */
  datatype Span = Span(start: int, end: int)

  /** State of the walk over one issue: the start of a stay not yet closed,
      the end of the last closed stay (set once a stay closes, never cleared),
      and the closed stays in the order they closed. */
  datatype WalkState = WalkState(pending: Option<int>, lastEnd: Option<int>, closed: seq<Span>)

  const START: WalkState := WalkState(None, None, [])

  /** `lastEnd` is set exactly when some stay has closed, and then it is the
      end of the last one. */
  predicate Consistent(st: WalkState) {
    && (st.lastEnd.None? <==> |st.closed| == 0)
    && (st.lastEnd.Some? ==> st.lastEnd.value == st.closed[|st.closed| - 1].end)
  }

  /** One status item of an entry recorded at `at`. */
  function StepItem(st: WalkState, at: int, item: StatusItem): (r: WalkState)
    requires Consistent(st)
    ensures Consistent(r)
    ensures st.closed <= r.closed && |r.closed| <= |st.closed| + 1
    ensures |r.closed| == |st.closed| + 1 <==> st.pending.Some? && LeavesInProgress(item)
    ensures |r.closed| == |st.closed| + 1 ==>
              r.closed[|st.closed|] == Span(st.pending.value, at) && r.pending.None?
    ensures st.pending.Some? && !LeavesInProgress(item) ==> r == st
    ensures st.pending.None? ==> r.closed == st.closed && r.lastEnd == st.lastEnd
    ensures st.pending.None? ==> (r.pending.Some? <==> EntersInProgress(item))
    ensures r.pending.Some? ==> r.pending == st.pending || r.pending == Some(at)
  {
    if !IsStatusChange(item) then st
    else if item.toStatus == Some(IN_PROGRESS) && st.pending.None? then
      st.(pending := Some(at))
    else if item.fromStatus == Some(IN_PROGRESS) && st.pending.Some? then
      WalkState(None, Some(at), st.closed + [Span(st.pending.value, at)])
    else st
  }

  /** All status items of one entry, in their order. */
  function WalkItems(st: WalkState, at: int, items: seq<StatusItem>): (r: WalkState)
    requires Consistent(st)
    ensures Consistent(r)
    ensures st.closed <= r.closed
  {
    if |items| == 0 then st
    else StepItem(WalkItems(st, at, items[..|items| - 1]), at, items[|items| - 1])
  }

  /** All entries, in the given order. */
  function WalkEntries(entries: seq<Entry>): (r: WalkState)
    ensures Consistent(r)
  {
    if |entries| == 0 then START
    else
      var e := entries[|entries| - 1];
      WalkItems(WalkEntries(entries[..|entries| - 1]), e.created, e.items)
  }


  /** Closed stays are proper spans in chronological order: each ends no later
      than the next starts. */
  predicate Chronological(spans: seq<Span>) {
    && (forall i :: 0 <= i < |spans| ==> spans[i].start <= spans[i].end)
    && (forall i, j :: 0 <= i < j < |spans| ==> spans[i].end <= spans[j].start)
  }

  /** Everything the walk has recorded happened no later than `bound`, and an
      open stay started no earlier than the last closed one ended. */
  predicate Settled(st: WalkState, bound: int) {
    && Chronological(st.closed)
    && (forall i :: 0 <= i < |st.closed| ==> st.closed[i].end <= bound)
    && (st.pending.Some? ==> st.pending.value <= bound)
    && (st.pending.Some? && |st.closed| > 0 ==> st.closed[|st.closed| - 1].end <= st.pending.value)
  }

  lemma SettledLater(st: WalkState, b: int, b': int)
    requires Settled(st, b) && b <= b'
    ensures Settled(st, b')
  {
  }

  lemma StepSettled(st: WalkState, at: int, item: StatusItem)
    requires Consistent(st) && Settled(st, at)
    ensures Settled(StepItem(st, at, item), at)
  {
    var r := StepItem(st, at, item);
    if |r.closed| == |st.closed| + 1 {
      assert r.closed == st.closed + [Span(st.pending.value, at)];
    }
  }

  lemma {:induction false} WalkItemsSettled(st: WalkState, at: int, items: seq<StatusItem>)
    requires Consistent(st) && Settled(st, at)
    ensures Settled(WalkItems(st, at, items), at)
  {
    if |items| > 0 {
      WalkItemsSettled(st, at, items[..|items| - 1]);
      StepSettled(WalkItems(st, at, items[..|items| - 1]), at, items[|items| - 1]);
    }
  }

  /** Walking entries in creation order leaves chronological, non-overlapping
      closed stays, all ending by the last entry's time. */
  lemma {:induction false} WalkEntriesSettled(entries: seq<Entry>)
    requires Seqs.SortedBy(entries, EntryCreated) && |entries| > 0
    ensures Settled(WalkEntries(entries), entries[|entries| - 1].created)
  {
    var n := |entries|;
    var init := entries[..n - 1];
    var at := entries[n - 1].created;
    if n > 1 {
      assert Seqs.SortedBy(init, EntryCreated);
      WalkEntriesSettled(init);
      assert EntryCreated(init[n - 2]) <= EntryCreated(entries[n - 1]);
      SettledLater(WalkEntries(init), init[n - 2].created, at);
    }
    WalkItemsSettled(WalkEntries(init), at, entries[n - 1].items);
  }

  /** The latest creation time in a non-empty changelog. */
  function LatestCreated(changelog: seq<Entry>): (t: int)
    requires |changelog| > 0
    ensures forall i :: 0 <= i < |changelog| ==> changelog[i].created <= t
    ensures exists i :: 0 <= i < |changelog| && changelog[i].created == t
  {
    if |changelog| == 1 then changelog[0].created
    else
      var t := LatestCreated(changelog[..|changelog| - 1]);
      assert changelog[..|changelog| - 1][0] == changelog[0];
      if changelog[|changelog| - 1].created > t then changelog[|changelog| - 1].created else t
  }

  /** The walk of `parse_wip_ranges`: entries by creation time, items in
      order. With no changelog it records nothing; otherwise the closed stays
      are proper, chronological and non-overlapping, and neither they nor a
      pending start lie after the latest entry. */
  function WalkChangelog(changelog: seq<Entry>): (r: WalkState)
    ensures Consistent(r)
    ensures |changelog| == 0 ==> r == START
    ensures |changelog| > 0 ==> Settled(r, LatestCreated(changelog))
  {
    var sorted := SortedChangelog(changelog);
    if |changelog| == 0 then
      assert sorted == [] by { assert |multiset(sorted)| == 0; }
      WalkEntries(sorted)
    else
      assert |sorted| > 0 by { assert |multiset(sorted)| > 0; }
      var last := sorted[|sorted| - 1];
      WalkEntriesSettled(sorted);
      assert last in multiset(changelog);
      SettledLater(WalkEntries(sorted), last.created, LatestCreated(changelog));
      WalkEntries(sorted)
  }
}
