# Jira Kanban metrics: the WIP interval pipeline in Dafny

This project models the computational core of a Jira Kanban metrics toolkit.
It takes issues from Jira's enhanced JQL search, with their status
changelogs, and turns them into metrics.

- **Work-in-progress (WIP) extraction.** `parse_wip_ranges` walks each issue's
  changelog in creation order. It records every closed stay in "In Progress"
  as a WIP record. An issue that is in progress now either gets an open record
  up to the end of the observation window, or an inferred ("fallback") record
  reaching back at most 30 days. The fallback issues are also listed as
  missing details. A key set shared by the whole batch stops a key from being
  inferred twice.
- **Month query.** `get_issues_in_progress_in_month` selects the records whose
  closed interval touches a calendar month. It reports each record's whole
  days in progress and orders the rows by start.
- **Daily census.** The count loop repeated in the WIP charts and tables
  counts, at each daily sample instant (23:59:59.999999 of each day), how many
  records contain it. The monthly debug view expands every record into one
  point per day and keeps the points of the last N months.
- **Cycle and lead time.** Cycle time runs from the first move to
  "In Progress" (first in changelog list order) until resolution. Lead time
  runs from creation until resolution. Both are in whole days, rounded toward
  minus infinity.
- **Helpers.** These are `clamp`, `safe_divide`, the outlier selection, the
  KTLO flag classifier, and the search layer. The search layer covers payload
  normalisation of `fields` and `expand`, cursor pagination as a fold over
  supplied pages, and the months-back arithmetic of the JQL queries.

Instants are integer microseconds since 1970-01-01T00:00:00 UTC, and
`DAY = 86_400_000_000`. Month indices count months since 1970-01, and the
calendar is proleptic Gregorian. The current time is a parameter (`now`,
`endDate`, or the current year and month). Page responses are a supplied
sequence.

Modules, in dependency order:

- `Wrappers`: `Option` and `Result`.
- `Time`: floor days, end of day, truncation to seconds.
- `Calendar`: month lengths, month starts, month of an instant, month windows,
  subtracting months.
- `Seqs`: a stable sort by key, and filter-map.
- `Text`: split, join and strip.
- `Changelog`: issues, entries, and the per-issue changelog walk.
- `WipRanges`: the batch of `parse_wip_ranges`.
- `WipScenarios`: concrete changelogs that pin down the walk's quirks.
- `MonthQuery`: the month query.
- `DailyCensus`: sample instants, counts, and the chart and table operations.
- `MonthlyAggregation`: daily expansion and the month filter.
- `CycleTime`: cycle and lead time.
- `Utils`: the small helpers.
- `JiraSearch`: payload, pagination and lookback.

### Re-entering "In Progress"

`parse_wip_ranges` never resets `in_progress_end`
(modules/metrics_calculations.py:290-313). Take a changelog that enters
"In Progress" at t1, leaves at t2 and enters again at t3, for an issue
still in progress. The first stay becomes `[t1, t2]`. The second stay gets
no open record from t3, because `in_progress_end` is already set. Instead,
when its key has not been seen yet in the batch, the issue gets a fallback
record from `max(created, end_date - 30 days)`.
`WipScenarios.ReentryGetsFallbackNotOpen` proves this outcome.

## Model

| member | source | states |
|---|---|---|
| Time.FloorDays | modules/metrics_calculations.py:367 | whole days of a duration as `timedelta.days` reports them: the largest `n` with `n * DAY` not above the duration, so negative durations round toward minus infinity |
| Time.FloorDaysUnique | modules/metrics_calculations.py:367 | any `n` bracketing the duration between `n` and `n + 1` days is the day count |
| Time.EndOfDay | modules/visualizations.py:411 | the result is the last microsecond of the day containing `now`, not before `now` |
| Time.TruncateToSecond | modules/metrics_calculations.py:44-45 | cuts a reading to the whole second at or below it, as parsing only the first 19 characters drops the fractional digits (the same slice also drops the UTC offset, which `CycleTime.LeadRecordOf` accounts for) |
| Calendar.DaysInMonth | modules/metrics_calculations.py:354-356 | a month has 28 to 31 days, and February has 29 exactly in Gregorian leap years |
| Calendar.MonthIndexRoundTrip | modules/metrics_calculations.py:354 | a month index and its (year, month) determine each other |
| Calendar.NextMonth | modules/metrics_calculations.py:354-356 | the month after December is January of the next year, otherwise the next month of the same year |
| Calendar.MonthStartDay | modules/metrics_calculations.py:354-356 | consecutive month starts lie 28 to 31 days apart, so month `mi` starts between `28 * mi` and `31 * mi` days from 1970-01-01 |
| Calendar.MonthStartMonotone | modules/metrics_calculations.py:354-356 | later months start strictly later |
| Calendar.MonthOfDay | modules/visualizations.py:558 | the month whose days contain day `d` |
| Calendar.MonthOfDayUnique | modules/visualizations.py:558 | no other month contains that day |
| Calendar.MonthOfInstant | modules/visualizations.py:558 | `to_period("M")`: the instant lies between the start of its month and the start of the next |
| Calendar.MonthOrder | modules/visualizations.py:558-562 | an instant in an earlier month is earlier |
| Calendar.MonthWindow | modules/metrics_calculations.py:354-356 | the window of `YYYY-MM` starts at midnight and spans exactly that month's number of days |
| Calendar.MonthWindowExact | modules/metrics_calculations.py:354-356 | an instant lies in the window of `YYYY-MM` exactly when its month is `YYYY-MM` |
| Calendar.DayOfMonth | modules/visualizations.py:509 | days since the first of the month, below the month's length |
| Calendar.SubtractMonths | modules/visualizations.py:509 | `- pd.DateOffset(months=n)`: the month is `n` earlier, the time of day is unchanged, and the day of the month is kept or clamped to the last day of a shorter month |
| Seqs.InsertBy | modules/metrics_calculations.py:292 | inserting into a sorted sequence keeps it sorted and adds exactly the one element |
| Seqs.SortBy | modules/metrics_calculations.py:292 | `sorted(..., key=...)` yields a sorted permutation of its input |
| Seqs.SortSortedIsIdentity | modules/metrics_calculations.py:292 | an input already in key order is returned unchanged |
| Seqs.KeyRunInsert | modules/metrics_calculations.py:292 | inserting appends the new element to the run of its key and leaves every other key's run alone |
| Seqs.SortIsStable | modules/metrics_calculations.py:292 | stability: elements with equal keys keep their input order |
| Seqs.FilterMap | modules/metrics_calculations.py:205-249 | one row per element that yields one, and every row comes from some element |
| Seqs.FilterMapAppend | modules/metrics_calculations.py:28-60 | rows follow input order: the rows of a concatenation are the rows of each part in turn |
| Changelog.SortedChangelog | modules/metrics_calculations.py:292 | entries come out ordered by creation time, as a permutation of the changelog |
| Changelog.StepItem | modules/metrics_calculations.py:294-310 | entering sets a pending start only when none is pending; a second entry never moves it; leaving closes `[pending, at]` exactly when a start is pending and the item's from-status is "In Progress", then clears it |
| Changelog.WalkItems | modules/metrics_calculations.py:293-310 | walking an entry's items only extends the closed stays and keeps `in_progress_end` equal to the last closed end |
| Changelog.WalkEntries | modules/metrics_calculations.py:292-310 | after any prefix of entries, `in_progress_end` is set exactly when some stay has closed |
| Changelog.WalkItemsSettled | modules/metrics_calculations.py:293-310 | the items of one entry keep the closed stays chronological and bounded by the entry's time |
| Changelog.WalkEntriesSettled | modules/metrics_calculations.py:292-310 | entries in creation order give closed stays that are proper, non-overlapping and chronological, ending by the last entry |
| Changelog.WalkChangelog | modules/metrics_calculations.py:282-310 | the walk over entries sorted by creation time keeps `in_progress_end` equal to the last closed end; with no histories it records nothing; otherwise its closed stays are proper, chronological and non-overlapping, and neither they nor a pending start lie after the latest entry |
| WipRanges.OpenStart | modules/metrics_calculations.py:313-321 | an open record exists exactly when the issue is in progress now, a start is pending, and no earlier stay closed |
| WipRanges.FallbackStart | modules/metrics_calculations.py:325 | `max(created, end_date - 30 days)`: one of the two, and at least both |
| WipRanges.FallbackSpan | modules/metrics_calculations.py:325 | the inferred start is at most the window end exactly when the issue was created by then, and it never reaches back more than 30 days |
| WipRanges.Extract | modules/metrics_calculations.py:280-334 | one issue adds its closed records, the open record when due, and a fallback exactly when it is in progress now, got no open record, and its key is unseen; its key becomes seen exactly when it is in progress now |
| WipRanges.AddIssue | modules/metrics_calculations.py:280-334 | one loop pass appends exactly the issue's extraction (closed records, then the open record, then the fallback) after the earlier records; at most one of them is not a closed stay; its key joins the seen keys exactly when it is in progress now; one (key, summary) entry is added per inferred record |
| WipRanges.ParseWipRanges | modules/metrics_calculations.py:260-336 | no issues give no records and no missing details; the seen keys are exactly the keys of the issues in progress now; every missing-details key is seen; no key is listed twice; at most one entry per issue |
| WipRanges.AddIssueStep | modules/metrics_calculations.py:321-334 | adding one issue keeps missing-details keys seen and distinct, and adds the issue's key to the seen set exactly when it is in progress now |
| WipRanges.InProgressKeysSnoc | modules/metrics_calculations.py:276 | the shared key set grows by one issue's key exactly when that issue is in progress |
| WipRanges.FallbackAt | modules/metrics_calculations.py:324 | the issue at position `i` gets a fallback exactly when it is in progress now, has no open record, and no earlier issue in progress has its key; closed records never suppress it |
| WipRanges.BatchStep | modules/metrics_calculations.py:279 | the batch after `i + 1` issues is the batch after `i` extended by issue `i` |
| WipRanges.RecordsAreContributions | modules/metrics_calculations.py:275-336 | `wip_records` is, in input order, the concatenation of each issue's closed, open and fallback records, each computed with the keys of the earlier in-progress issues as `seen`; nothing else is recorded |
| WipRanges.MissingIsFallbacks | modules/metrics_calculations.py:324-334 | `missing_details` lists, in input order, exactly the issues due a fallback, one entry per fallback record |
| WipRanges.NoFallbackAfterOpen | modules/metrics_calculations.py:321-324 | once a key received an open record, no later issue with that key gets a fallback |
| WipRanges.NotInProgressAddsClosedOnly | modules/metrics_calculations.py:313-324 | an issue not in progress now adds only its closed records: a dangling pending start is dropped, and no key or diagnostic is added |
| WipRanges.RecordsGroupedInOrder | modules/metrics_calculations.py:279-333 | the records of the first `i` issues are a prefix of the result, so records are grouped by issue in input order |
| WipRanges.WalkWithinWindow | modules/metrics_calculations.py:292-310 | when all of an issue's timestamps lie within the window, its walk records nothing after the window end |
| WipRanges.ClosedRecords | modules/metrics_calculations.py:299-310 | one record per closed stay, position by position: the issue's key, summary and assignee with that stay's start and end; each starts no later than it ends and ends no later than the next one starts |
| WipRanges.ExtractionProper | modules/metrics_calculations.py:299-332 | within the window, every record an issue adds starts no later than it ends |
| WipRanges.BatchProper | modules/metrics_calculations.py:260-336 | when every issue lies within the window, every record of the batch is a proper interval |
| WipScenarios.ReentryGetsFallbackNotOpen | modules/metrics_calculations.py:289-334 | enter at t1, leave at t2, enter at t3, still in progress: `[t1, t2]`, no open record, and a fallback record |
| WipScenarios.SingleEntryGetsOpen | modules/metrics_calculations.py:299-321 | a single entry into "In Progress", still in progress: one open record from the entry to the window end, no fallback, and the key becomes seen |
| WipScenarios.EmptyChangelog | modules/metrics_calculations.py:282-334 | without histories, only the fallback can appear, and it appears exactly for an unseen key in progress now |
| WipScenarios.SecondEntryKeepsFirstStart | modules/metrics_calculations.py:299-302 | entering again while pending keeps the first start, and the later exit closes from the first entry |
| MonthQuery.ToRow | modules/metrics_calculations.py:367 | `days_in_progress` is the floor of the whole days between start and end |
| MonthQuery.Matches | modules/metrics_calculations.py:358-368 | a row for every overlapping record, and every row comes from an overlapping record; one record gives its row exactly when it overlaps |
| MonthQuery.MatchesAppend | modules/metrics_calculations.py:358-368 | matching keeps record order and repeats: the rows of a concatenation are the rows of each part in turn |
| MonthQuery.IssuesInProgressInMonth | modules/metrics_calculations.py:340-372 | an invalid month is an error; zero overlaps is an error (sorting a column-less frame raises); otherwise the rows are sorted by start and are a permutation of the matches |
| MonthQuery.SelectedIffOverlaps | modules/metrics_calculations.py:360 | a record is reported exactly when it touches the month window, boundary instants included |
| MonthQuery.OverlapIsActiveInMonth | modules/metrics_calculations.py:354-360 | for a proper record, overlapping the window means being in progress at some instant of that calendar month |
| DailyCensus.DayRange | modules/visualizations.py:413 | `pd.date_range(freq="D")`: `start + k * DAY` for every `k` not passing `end`, and the next point would pass it |
| DailyCensus.DailySamples | modules/visualizations.py:411-413 | `N + 1` samples one day apart, all at 23:59:59.999999, the last being the end of today |
| DailyCensus.MonthlyStart | modules/visualizations.py:508-509 | the first monthly sample lies `months` calendar months back, at the end of its day; not after the end of today for a non-negative count, and after it for a negative one |
| DailyCensus.MonthlySamples | modules/visualizations.py:508-510 | one sample per day from the first monthly sample, `start + k * DAY`, up to and including the end of today, all at 23:59:59.999999; `(end - start) / DAY + 1` samples, none for a negative count |
| DailyCensus.EarlierMonthEarlier | modules/visualizations.py:509 | going back a non-negative number of months never moves forward, and a negative number moves later |
| DailyCensus.CountAt | modules/visualizations.py:417-422 | a count never exceeds the number of records |
| DailyCensus.Census | modules/visualizations.py:416-422 | one count per sample, each between zero and the number of records |
| DailyCensus.CountLoop | modules/visualizations.py:416-422 | the records-outer, samples-inner loop computes, at every sample, the number of records containing it |
| DailyCensus.AppendRecord | modules/visualizations.py:417-422 | one more record raises the count by one exactly at the samples inside it and leaves the others unchanged |
| DailyCensus.CountConcat | modules/visualizations.py:417-422 | counts over two batches of records add up |
| DailyCensus.CountPermutationInvariant | modules/visualizations.py:417-422 | counts do not depend on the order of the records |
| DailyCensus.CountSumIsTotalCoverage | modules/visualizations.py:416-422 | the counts sum to the samples each record covers, summed over the records |
| DailyCensus.SameDayRecordUncounted | modules/visualizations.py:411-421 | a record that starts and ends within one day before 23:59:59.999999 is counted on no day |
| DailyCensus.MaxOf | modules/visualizations.py:442 | the maximum is an element and bounds every element |
| DailyCensus.MinOf | modules/visualizations.py:443 | the minimum is an element and is below every element |
| DailyCensus.Summarize | modules/visualizations.py:440-443 | the latest value is the last count, and max and min are the largest and smallest counts: each bounds every count and is attained by one; an empty series has no summary |
| DailyCensus.PlotDailyWipTimeSeries | modules/visualizations.py:405-443 | the chart's counts are the census over the daily samples; the summary is latest, max and min of exactly those counts, the latest being the count at the end of today |
| DailyCensus.ShowDailyWipTable | modules/visualizations.py:450-472 | the table rows pair each daily sample with the same count the chart computes |
| DailyCensus.DebugDailyWipTable | modules/visualizations.py:475-497 | the debug rows pair each daily sample with the same count the chart computes |
| DailyCensus.MonthlyWipSeries | modules/visualizations.py:503-523 | the monthly view's daily series pairs each sample of the months-long range with the same count |
| MonthlyAggregation.Expand | modules/visualizations.py:552-554 | every record contributes its number of day points, and every point lies inside some record |
| MonthlyAggregation.ExpandAppend | modules/visualizations.py:553-554 | a record appends exactly `start + k * DAY` for each `k` not passing its end, `floor((end - start) / DAY) + 1` points, none when it ends before it starts |
| MonthlyAggregation.Months | modules/visualizations.py:558 | each point's month, position by position |
| MonthlyAggregation.MaxMonth | modules/visualizations.py:560 | the latest month among the points, absent when there are none |
| MonthlyAggregation.KeepFrom | modules/visualizations.py:562 | each point is kept with its full multiplicity when its month is late enough, and dropped otherwise |
| MonthlyAggregation.MonthFilter | modules/visualizations.py:560-562 | keeps exactly the points whose month is at least `max_month - months_lookback + 1` |
| MonthlyAggregation.DebugMonthlyPoints | modules/visualizations.py:552-562 | no points at all is an error (the `.dt` accessor fails on the empty column); otherwise each expanded point is kept with its full multiplicity exactly when its month is at least the latest point's month minus `months_lookback` plus one, and every kept point lies inside some record |
| MonthlyAggregation.LatestMonthKept | modules/visualizations.py:560-562 | with a lookback of at least one month, every point of the latest month is kept |
| CycleTime.ScanItems | modules/metrics_calculations.py:229-233 | within one entry, a start already found is kept, and otherwise one is found exactly when some item moves to "In Progress" |
| CycleTime.FirstInProgress | modules/metrics_calculations.py:226-233 | absent exactly when no entry moves to "In Progress"; otherwise the time of the first such entry in list order |
| CycleTime.FirstInProgressIsFirst | modules/metrics_calculations.py:228-233 | the first moving entry in list order decides, whatever later entries say |
| CycleTime.ListOrderNotTimeOrder | modules/metrics_calculations.py:228 | a later-listed but earlier-recorded move does not win: the changelog is not sorted |
| CycleTime.CycleRecordOf | modules/metrics_calculations.py:207-247 | a row exists exactly when the issue is resolved and some entry moves to "In Progress"; the row carries the issue's key, summary and assignee and its resolution stamp; cycle days are the floor of resolved minus first move, possibly negative |
| CycleTime.ParseCycleTimeIssues | modules/metrics_calculations.py:194-249 | every qualifying issue gives its row, and every row is the row some input issue gives |
| CycleTime.ParseCycleTimeIssuesAppend | modules/metrics_calculations.py:207-249 | rows follow input order with repeats kept: the rows of `a + b` are the rows of `a` then those of `b` |
| CycleTime.LeadTimeDays | modules/metrics_calculations.py:43-46 | a lead time exists exactly when both dates are present, and it is the floor of the days between the two wall-clock readings cut to whole seconds |
| CycleTime.LeadTimeIgnoresFractions | modules/metrics_calculations.py:44-46 | fractions of a second in either stamp never change the lead time |
| CycleTime.LeadRecordOf | modules/metrics_calculations.py:29-58 | a resolved issue gets a row carrying its key, summary and assignee, whose dates are the wall-clock readings of its stamps (UTC instant plus the text's offset) cut to whole seconds, and whose lead time brackets their difference in whole days; an unresolved one gets none |
| CycleTime.LeadTimeReadsWallClock | modules/metrics_calculations.py:43-46 | created at UTC-5 and resolved 23h15m later at UTC-4, the lead time is one day although the UTC instants lie less than a day apart |
| CycleTime.ParseIssuesToDataframe | modules/metrics_calculations.py:16-60 | every resolved issue gives its row, and every row is the row some input issue gives |
| CycleTime.ParseIssuesToDataframeAppend | modules/metrics_calculations.py:29-60 | rows follow input order with repeats kept: the rows of `a + b` are the rows of `a` then those of `b` |
| Utils.Clamp | modules/utils.py:48-53 | within `[lo, hi]` when `lo <= hi`; unchanged inside the range; `lo` below it, `hi` above it, and `lo` whenever `lo > hi` |
| Utils.ClampIdempotent | modules/utils.py:53 | clamping twice is clamping once |
| Utils.SafeDivide | modules/utils.py:55-62 | the fallback on a zero denominator or a non-numeric operand; otherwise the exact quotient |
| Utils.Outliers | modules/utils.py:72 | exactly the elements below `lo` or above `hi`, each with its multiplicity |
| Utils.OutliersAppend | modules/utils.py:72 | selection keeps the series order: the outliers of a concatenation are those of each part in turn |
| Utils.OutlierIffClampChanges | modules/utils.py:53-72 | with `lo <= hi`, the outliers are exactly the values `clamp` would change |
| Utils.AnyDictHasValue | modules/utils.py:96 | true exactly when some element is a dict whose `value` is the match value |
| Utils.ClassifyByIssueflag | modules/utils.py:81-102 | always one of the two labels; the match label exactly for a list with a matching dict element, a matching dict, or an equal string |
| Utils.NonDictElementsIgnored | modules/utils.py:95-96 | non-dict elements of a list flag never change the classification |
| Utils.DefaultShapes | modules/utils.py:95-102 | an empty list, null, a boolean or a number gives the default label |
| Text.Split | modules/jira_api.py:61 | at least one piece, and no piece holds the separator |
| Text.Join | modules/jira_api.py:70 | the joined string begins with the first piece and has at least one separator per gap; `Text.SplitJoin` and `Text.JoinSplit` make it the inverse of `Split` |
| Text.JoinSplit | modules/jira_api.py:61-70 | joining the pieces of a split on the same separator restores the string |
| Text.SplitJoin | modules/jira_api.py:61-70 | splitting a join of separator-free pieces gives the pieces back |
| Text.Strip | modules/jira_api.py:61-72 | no whitespace at either end, and only characters of the input |
| Text.StripMiddle | modules/jira_api.py:61-72 | the result is a middle slice of the input, with only whitespace cut on each side |
| Text.StripStripped | modules/jira_api.py:61-72 | a string without whitespace at its ends is unchanged |
| Text.StripIdempotent | modules/jira_api.py:61-72 | stripping twice is stripping once |
| Text.StripEmptyIffBlank | modules/jira_api.py:61-72 | the result is empty exactly when the string is all whitespace |
| JiraSearch.LookbackStart | modules/jira_api.py:201-203 | the month is always in 1..12, and for 0 to 12 months back the (year, month) is exactly `months` earlier |
| JiraSearch.LookbackStartWrongPastAYear | modules/jira_api.py:244-246 | thirteen months back from January lands on December of the previous year, one year short |
| JiraSearch.LookbackStartCorrected | modules/jira_api.py:201-203 | the month is in 1..12 and the (year, month) is exactly `months` earlier, for every count |
| JiraSearch.LookbackAgreesUpToAYear | modules/jira_api.py:244-246 | for 0 to 12 months back the code and the corrected arithmetic agree |
| JiraSearch.StripAll | modules/jira_api.py:61 | each piece stripped, position by position |
| JiraSearch.NonEmpty | modules/jira_api.py:61 | the non-empty strings of the input and nothing else; a single string is kept exactly when it is not empty |
| JiraSearch.NonEmptyAppend | modules/jira_api.py:61 | dropping empties keeps order and repeats: the result for a concatenation is the results for each part in turn |
| JiraSearch.KeepNames | modules/jira_api.py:61 | the non-empty stripped pieces; a single piece gives its stripped text unless that is empty; empty exactly when every piece strips to nothing |
| JiraSearch.KeepNamesAppend | modules/jira_api.py:61 | the comprehension keeps piece order: the names of a concatenation are the names of each part in turn |
| JiraSearch.KeepNamesClean | modules/jira_api.py:61 | names taken from comma-free pieces are non-empty, stripped and comma-free |
| JiraSearch.KeepCleanNames | modules/jira_api.py:61 | names that are already clean are kept as they are, in order |
| JiraSearch.NormalizeFields | modules/jira_api.py:59-63 | a list is kept and `None` becomes empty; a string becomes the names of its comma-separated pieces, each stripped, empties dropped, in order, all clean and at most one per piece |
| JiraSearch.FieldsTextRoundTrip | modules/jira_api.py:60-61 | clean names written as one comma-separated string come back exactly |
| JiraSearch.NormalizeExpand | modules/jira_api.py:67-72 | absent exactly for a falsy `expand`; a non-empty string is sent stripped; a non-empty list is sent as its kept names joined by commas |
| JiraSearch.ExpandTextMiddle | modules/jira_api.py:71-72 | a non-empty string `expand` is sent as a middle slice of itself, with only whitespace cut from each end |
| JiraSearch.ExpandListRoundTrip | modules/jira_api.py:69-70 | a list `expand` is sent as its non-blank names, stripped and comma-joined, and splitting the sent string gives those names back |
| JiraSearch.JoinEmptyIffNone | modules/jira_api.py:70-79 | joined non-empty names are empty only when there are none |
| JiraSearch.BuildPayload | modules/jira_api.py:74-82 | the payload sends the normalised `expand` exactly when some non-whitespace text remains, and never empty; the cursor is sent exactly when a non-empty token is given |
| JiraSearch.ExpandPresence | modules/jira_api.py:67-80 | `expand` text survives normalisation exactly when the input holds a non-blank name |
| JiraSearch.FetchAll | modules/jira_api.py:109-124 | the issues of every page up to and including the first with `isLast` or no cursor, in order; the first request has no cursor and each later one carries the previous page's token |

## Left out

- HTTP requests, authentication and environment loading
  (modules/jira_api.py:14-34, 84-88) are I/O. `fetch_issues`,
  `get_wip_issues` and `get_cycle_time_issues` are modelled by
  `JiraSearch.FetchAll` over a supplied, finite sequence of responses.
  Supplying fewer pages than the loop would read shows up as
  `complete == false`. The JQL strings they build are not modelled.
- `get_last_n_months_issues` (modules/jira_api.py:184-220) is only its
  lookback arithmetic, `JiraSearch.LookbackStart`. Its single call to
  `fetch_issues` is `FetchAll`.
- Wall-clock reads (modules/visualizations.py:411, 454, 479, 508,
  modules/jira_api.py:150, 198, 241) are replaced by parameters.
- All rendering is left out: matplotlib figures, `print`, `display`, date
  formatting of table rows, `format_percent` and `period_index_to_str`.
- Floating-point statistics are left out: the average WIP of the daily
  chart, the monthly average WIP (modules/visualizations.py:527, 569), means,
  standard deviations and z-scores. `Utils` works on exact reals, so float
  rounding is not modelled.
- pandas groupby summaries (`calculate_throughput`,
  `calculate_average_throughput`, `generate_ktlo_summary`,
  `group_lead_time_by_assignee`, `identify_outliers`) and
  `debug_monthly_wip_aggregation`'s per-day and per-month group counts
  (modules/visualizations.py:564-569) are library-driven tabulation.
  `MonthlyAggregation.DebugMonthlyPoints` stops at the filtered points those
  counts are taken over.
- Timestamp parsing (`pd.to_datetime`, `strptime`) is left out.
  Timestamps are already-parsed UTC instants; only the lead time reads the
  UTC offset of its stamps (`Changelog.Issue` carries it), because
  `created[:19]` drops it. The string sort key
  of the changelog is taken to order like those instants. Instants outside
  the range pandas `Timestamp` can hold (about 1677-09-21 to 2262-04-11;
  beyond it pandas raises `OutOfBoundsDatetime`) are not excluded.
- WipRanges.FallbackStart: `created` is always an instant here. A missing
  `created` makes `pd.to_datetime` return `None`, and then
  `max(created_date, end_date - 30 days)` at
  modules/metrics_calculations.py:325 raises `TypeError`, which aborts the
  whole `parse_wip_ranges` call once such an issue reaches the fallback; an
  empty `created` string parses as `NaT` instead. Neither case is modelled.
- Parent keys, parent summaries and the KTLO field of the output rows are
  copied values and are not modelled.
- CycleTime.LeadRecordOf: the issue's `created` is always present here, so
  the `created`-missing branch of `parse_issues_to_dataframe` is stated only
  through `CycleTime.LeadTimeDays`, which takes both dates as optional.
- Text.IsSpace covers ASCII whitespace only, because `str.strip()` also
  removes Unicode spaces, which the model does not classify.
- The `seen` key set of an issue with a missing key (`issue.get("key")` is
  `None`) is not distinguished. Keys are strings.
- MonthQuery.IssuesInProgressInMonth: pandas' sort is not stable, so the
  contract promises sorted order and a permutation of the matches, not a
  tie order. The model itself uses the stable `Seqs.SortBy`.

## Findings

| source | as written | input that shows it | evidently intended | confidence | as-written member | corrected member |
|---|---|---|---|---|---|---|
| modules/jira_api.py:201-203 (repeated at 244-246) | `month = (m - months + 12) % 12 or 12`, and the previous year unless `m > months` | `months = 13` in January of year `y` gives December of `y - 1`, which is 1 month back, not 13 | the first day of the month `months` calendar months back, for any `months` | medium (not executed; the defaults use 6) | JiraSearch.LookbackStartWrongPastAYear | JiraSearch.LookbackStartCorrected |
