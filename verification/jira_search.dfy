/** The Jira search layer: the request payload of the JQL search endpoint,
    the cursor-paginated accumulation of result pages, and the month
    arithmetic that picks the first day of a months-long lookback. */
module JiraSearch {
  import opened Wrappers
  import opened Text
  import Seqs

  // ---------------------------------------------------------------------
  // Month lookback (`get_last_n_months_issues`, `get_cycle_time_issues`)
  // ---------------------------------------------------------------------

  /** The year and month `months` before (`year`, `month`), computed as the
      source does: `(month - months + 12) % 12 or 12`, and the previous year
      unless the current month is after `months`. Right for up to twelve
      months back only. */
  function LookbackStart(year: int, month: int, months: int): (ym: (int, int))
    requires 1 <= month <= 12
    ensures 1 <= ym.1 <= 12
    ensures 0 <= months <= 12 ==> ym.0 * 12 + ym.1 == year * 12 + month - months
  {
    var m := (month - months + 12) % 12;
    var y := if month > months then year else year - 1;
    (y, if m == 0 then 12 else m)
  }

  /** Thirteen months back from a January lands one year short. */
  lemma LookbackStartWrongPastAYear(year: int)
    ensures LookbackStart(year, 1, 13) == (year - 1, 12)
    ensures (year - 1) * 12 + 12 != year * 12 + 1 - 13
  {
  }

  /** The lookback by counting months from year zero: right for every
      count. */
  function LookbackStartCorrected(year: int, month: int, months: int): (ym: (int, int))
    requires 1 <= month <= 12
    ensures 1 <= ym.1 <= 12
    ensures ym.0 * 12 + ym.1 == year * 12 + month - months
  {
    var t := year * 12 + (month - 1) - months;
    (t / 12, t % 12 + 1)
  }

  /** Within the range the source handles, both agree. */
  lemma LookbackAgreesUpToAYear(year: int, month: int, months: int)
    requires 1 <= month <= 12 && 0 <= months <= 12
    ensures LookbackStart(year, month, months) == LookbackStartCorrected(year, month, months)
  {
    var a, b := LookbackStart(year, month, months), LookbackStartCorrected(year, month, months);
    assert a.0 * 12 + a.1 == b.0 * 12 + b.1;
  }

  // ---------------------------------------------------------------------
  // Request payload (`_search_jql`)
  // ---------------------------------------------------------------------

  /** The `fields` argument: one comma-separated string, a list of names, or
      nothing. */
  datatype FieldsArg = FieldsText(text: string) | FieldsList(names: seq<string>) | FieldsMissing

  /** The `expand` argument: one string, a list of names, or nothing. */
  datatype ExpandArg = ExpandText(text: string) | ExpandList(names: seq<string>) | ExpandMissing

  /** A usable name: not empty, no whitespace at its ends, no comma. */
  predicate CleanName(x: string) {
    x != "" && Stripped(x) && ',' !in x
  }

  /** Every piece stripped. */
  function StripAll(parts: seq<string>): (r: seq<string>)
    ensures |r| == |parts| && forall i :: 0 <= i < |parts| ==> r[i] == Strip(parts[i])
  {
    Seqs.Map(parts, Strip)
  }

  /** The non-empty strings, in order. */
  function NonEmpty(xs: seq<string>): (r: seq<string>)
    ensures |r| <= |xs|
    ensures forall x :: x in r <==> x in xs && x != ""
    ensures forall k :: 0 <= k < |r| ==> r[k] != ""
    ensures |r| == 0 <==> forall k :: 0 <= k < |xs| ==> xs[k] == ""
    ensures |xs| == 1 ==> r == if xs[0] == "" then [] else xs
  {
    if |xs| == 0 then []
    else
      var prev := NonEmpty(xs[..|xs| - 1]);
      var last := xs[|xs| - 1];
      assert xs == xs[..|xs| - 1] + [last];
      if last != "" then prev + [last] else prev
  }

  /** Dropping empty strings works piece by piece: the kept strings of a
      concatenation are those of each part, in order and with repeats. */
  lemma {:induction false} NonEmptyAppend(xs: seq<string>, ys: seq<string>)
    ensures NonEmpty(xs + ys) == NonEmpty(xs) + NonEmpty(ys)
    decreases |ys|
  {
    if |ys| == 0 {
      assert xs + ys == xs;
    } else {
      var init := ys[..|ys| - 1];
      assert (xs + ys)[..|xs + ys| - 1] == xs + init;
      assert (xs + ys)[|xs + ys| - 1] == ys[|ys| - 1];
      NonEmptyAppend(xs, init);
    }
  }

  /** `[p.strip() for p in parts if p.strip()]`. */
  function KeepNames(parts: seq<string>): (names: seq<string>)
    ensures |parts| == 1 ==> names == if Strip(parts[0]) == "" then [] else [Strip(parts[0])]
    ensures |names| <= |parts|
    ensures forall k :: 0 <= k < |names| ==> names[k] != ""
    ensures |names| == 0 <==> forall i :: 0 <= i < |parts| ==> Strip(parts[i]) == ""
    ensures forall x :: x in names <==> x != "" && exists i :: 0 <= i < |parts| && Strip(parts[i]) == x
  {
    NonEmpty(StripAll(parts))
  }

  /** The comprehension keeps the order of the pieces: the names of a
      concatenation are the names of each part, one after the other. */
  lemma KeepNamesAppend(a: seq<string>, b: seq<string>)
    ensures KeepNames(a + b) == KeepNames(a) + KeepNames(b)
  {
    StripAllAppend(a, b);
    NonEmptyAppend(StripAll(a), StripAll(b));
  }

  lemma StripAllAppend(a: seq<string>, b: seq<string>)
    ensures StripAll(a + b) == StripAll(a) + StripAll(b)
  {
    Seqs.MapAppend(a, b, Strip);
  }

  /** Pieces without commas give clean names. */
  lemma KeepNamesClean(parts: seq<string>)
    requires forall i :: 0 <= i < |parts| ==> ',' !in parts[i]
    ensures forall k :: 0 <= k < |KeepNames(parts)| ==> CleanName(KeepNames(parts)[k])
  {
    var names := KeepNames(parts);
    forall k | 0 <= k < |names|
      ensures CleanName(names[k])
    {
      assert names[k] in names;
      var i :| 0 <= i < |parts| && Strip(parts[i]) == names[k];
    }
  }

  /** Names already clean are kept as they are. */
  lemma KeepCleanNames(xs: seq<string>)
    requires forall i :: 0 <= i < |xs| ==> CleanName(xs[i])
    ensures KeepNames(xs) == xs
  {
    forall i | 0 <= i < |xs|
      ensures Strip(xs[i]) == xs[i]
    {
      StripStripped(xs[i]);
    }
    assert StripAll(xs) == xs;
    NonEmptyKeepsAll(xs);
  }

  lemma {:induction false} NonEmptyKeepsAll(xs: seq<string>)
    requires forall i :: 0 <= i < |xs| ==> xs[i] != ""
    ensures NonEmpty(xs) == xs
  {
    if |xs| > 0 {
      NonEmptyKeepsAll(xs[..|xs| - 1]);
      assert xs[..|xs| - 1] + [xs[|xs| - 1]] == xs;
    }
  }

  /** The `fields_list` of the payload. */
  function NormalizeFields(fields: FieldsArg): (names: seq<string>)
    ensures fields.FieldsList? ==> names == fields.names
    ensures fields.FieldsMissing? ==> names == []
    ensures fields.FieldsText? ==> names == KeepNames(Split(fields.text, ','))
    ensures fields.FieldsText? ==> forall i :: 0 <= i < |names| ==> CleanName(names[i])
    ensures fields.FieldsText? ==> |names| <= |Split(fields.text, ',')|
  {
    match fields
    case FieldsText(text) =>
      KeepNamesClean(Split(text, ','));
      KeepNames(Split(text, ','))
    case FieldsList(names) => names
    case FieldsMissing => []
  }

  /** Writing clean names as one comma-separated string loses nothing. */
  lemma FieldsTextRoundTrip(xs: seq<string>)
    requires forall i :: 0 <= i < |xs| ==> CleanName(xs[i])
    ensures NormalizeFields(FieldsText(Join(xs, ','))) == xs
  {
    if |xs| == 0 {
      assert Split("", ',') == [""];
    } else {
      SplitJoin(xs, ',');
      KeepCleanNames(xs);
    }
  }

  /** The `expand_str` of `_search_jql`: absent when `expand` is falsy. */
  function NormalizeExpand(expand: ExpandArg): (r: Option<string>)
    ensures r.None? <==> expand.ExpandMissing? || expand == ExpandText("") || expand == ExpandList([])
    ensures expand.ExpandText? && expand.text != "" ==> r == Some(Strip(expand.text))
    ensures expand.ExpandList? && expand.names != [] ==> r == Some(Join(KeepNames(expand.names), ','))
  {
    match expand
    case ExpandMissing => None
    case ExpandText(text) => if text == "" then None else Some(Strip(text))
    case ExpandList(names) => if |names| == 0 then None else Some(Join(KeepNames(names), ','))
  }

  /** A non-empty string `expand` is sent as its middle: only whitespace is
      cut, and only at its two ends. */
  lemma ExpandTextMiddle(text: string) returns (i: int, j: int)
    requires text != ""
    ensures 0 <= i <= j <= |text| && NormalizeExpand(ExpandText(text)) == Some(text[i..j])
    ensures forall k :: 0 <= k < i ==> IsSpace(text[k])
    ensures forall k :: j <= k < |text| ==> IsSpace(text[k])
    ensures Stripped(text[i..j])
  {
    i, j := StripMiddle(text);
  }

  /** A list `expand` is sent as its non-blank names, stripped, joined by
      commas: splitting the sent string gives exactly those names back. */
  lemma ExpandListRoundTrip(names: seq<string>)
    requires forall i :: 0 <= i < |names| ==> ',' !in names[i]
    requires KeepNames(names) != []
    ensures NormalizeExpand(ExpandList(names)) == Some(Join(KeepNames(names), ','))
    ensures Split(NormalizeExpand(ExpandList(names)).value, ',') == KeepNames(names)
  {
    KeepNamesClean(names);
    SplitJoin(KeepNames(names), ',');
  }

  /** The body of the search request. */
  datatype Payload = Payload(
    jql: string,
    maxResults: int,
    fields: seq<string>,
    expand: Option<string>,
    nextPageToken: Option<string>)

  /** Joined clean names are empty only when there are none. */
  lemma JoinEmptyIffNone(xs: seq<string>)
    requires forall i :: 0 <= i < |xs| ==> xs[i] != ""
    ensures Join(xs, ',') == "" <==> |xs| == 0
  {
    if |xs| > 1 {
      assert |Join(xs, ',')| >= |xs[0]|;
    }
  }

  /** The payload keeps `expand` only when its text is not empty, and the
      cursor only when one is given. */
  function BuildPayload(jql: string, maxResults: int, token: Option<string>, fields: FieldsArg, expand: ExpandArg): (p: Payload)
    ensures p.jql == jql && p.maxResults == maxResults && p.fields == NormalizeFields(fields)
    ensures p.expand.Some? ==> p.expand.value != "" && p.expand == NormalizeExpand(expand)
    ensures expand.ExpandMissing? ==> p.expand.None?
    ensures expand.ExpandText? ==>
              (p.expand.Some? <==> exists k :: 0 <= k < |expand.text| && !IsSpace(expand.text[k]))
    ensures expand.ExpandList? ==>
              (p.expand.Some? <==> exists i :: 0 <= i < |expand.names| && Strip(expand.names[i]) != "")
    ensures p.nextPageToken.Some? <==> token.Some? && token.value != ""
    ensures p.nextPageToken.Some? ==> p.nextPageToken == token
  {
    var e := NormalizeExpand(expand);
    var kept := if e.Some? && e.value != "" then e else None;
    ExpandPresence(expand);
    Payload(jql, maxResults, NormalizeFields(fields), kept,
            if token.Some? && token.value != "" then token else None)
  }

  lemma ExpandPresence(expand: ExpandArg)
    ensures var e := NormalizeExpand(expand);
            && (expand.ExpandText? ==>
                  ((e.Some? && e.value != "") <==> exists k :: 0 <= k < |expand.text| && !IsSpace(expand.text[k])))
            && (expand.ExpandList? ==>
                  ((e.Some? && e.value != "") <==> exists i :: 0 <= i < |expand.names| && Strip(expand.names[i]) != ""))
  {
    match expand
    case ExpandMissing =>
    case ExpandText(text) =>
      StripEmptyIffBlank(text);
    case ExpandList(names) =>
      var kept := KeepNames(names);
      JoinEmptyIffNone(kept);

  }

  // ---------------------------------------------------------------------
  // Cursor pagination (`fetch_issues`, `get_wip_issues`,
  // `get_cycle_time_issues`)
  // ---------------------------------------------------------------------

  /** One response of the search endpoint. */
  datatype Page<T> = Page(issues: seq<T>, isLast: bool, nextPageToken: Option<string>)

  /** The loop stops after this page: it is the last, or gives no cursor. */
  predicate Stops<T>(p: Page<T>) {
    p.isLast || p.nextPageToken.None? || p.nextPageToken.value == ""
  }

  /** Page `k` is the first that stops the loop. */
  predicate FirstStop<T>(pages: seq<Page<T>>, k: int) {
    0 <= k < |pages| && Stops(pages[k]) && forall j :: 0 <= j < k ==> !Stops(pages[j])
  }

  /** The issues of the pages, in page order. */
  function Concat<T>(pages: seq<Page<T>>): seq<T> {
    if |pages| == 0 then [] else Concat(pages[..|pages| - 1]) + pages[|pages| - 1].issues
  }

  /** The accumulation loop, run over the responses `pages` in the order the
      server would send them. It returns the collected issues, the cursor
      sent with each request, and whether a page stopped the loop (when none
      does, the supplied responses ran out first). */
  method FetchAll<T>(pages: seq<Page<T>>) returns (issues: seq<T>, cursors: seq<Option<string>>, complete: bool)
    ensures complete <==> exists k :: 0 <= k < |pages| && Stops(pages[k])
    ensures complete ==> exists k :: FirstStop(pages, k) && issues == Concat(pages[..k + 1]) && |cursors| == k + 1
    ensures !complete ==> issues == Concat(pages) && |cursors| == |pages|
    ensures |cursors| > 0 ==> cursors[0] == None
    ensures forall j :: 0 < j < |cursors| ==>
              cursors[j] == pages[j - 1].nextPageToken && cursors[j].Some? && cursors[j].value != ""
  {
    issues, cursors, complete := [], [], false;
    var token: Option<string> := None;
    var i := 0;
    while i < |pages| && !complete
      invariant 0 <= i <= |pages|
      invariant |cursors| == i
      invariant issues == Concat(pages[..i])
      invariant complete ==> FirstStop(pages, i - 1)
      invariant !complete ==> forall j :: 0 <= j < i ==> !Stops(pages[j])
      invariant i > 0 ==> cursors[0] == None
      invariant forall j :: 0 < j < i ==>
                  cursors[j] == pages[j - 1].nextPageToken && cursors[j].Some? && cursors[j].value != ""
      invariant i == 0 ==> token == None
      invariant !complete && i > 0 ==> token == pages[i - 1].nextPageToken
    {
      cursors := cursors + [token];
      var result := pages[i];
      assert pages[..i + 1][..i] == pages[..i];
      issues := issues + result.issues;
      if Stops(result) {
        complete := true;
      } else {
        token := result.nextPageToken;
      }
      i := i + 1;
    }
    assert pages[..|pages|] == pages;
  }
}
