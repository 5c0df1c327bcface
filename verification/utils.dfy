/** The small helpers of the utilities file: clamping, safe division, the
    outlier selection and the KTLO flag classifier. Numbers are reals here
    (exact arithmetic; float rounding is not modelled). */
module Utils {
  import Seqs

  /** `clamp`: `max(lo, min(v, hi))`. */
  function Clamp(v: real, lo: real, hi: real): (r: real)
    ensures lo <= hi ==> lo <= r <= hi
    ensures lo <= v <= hi ==> r == v
    ensures lo > hi ==> r == lo
    ensures lo <= hi && v < lo ==> r == lo
    ensures lo <= hi && v > hi ==> r == hi
  {
    var m := if v <= hi then v else hi;
    if lo >= m then lo else m
  }

  /** Clamping twice is clamping once. */
  lemma ClampIdempotent(v: real, lo: real, hi: real)
    ensures Clamp(Clamp(v, lo, hi), lo, hi) == Clamp(v, lo, hi)
  {
  }

  /** An operand of `safe_divide`: a number, or any other Python value, for
      which the division raises `TypeError`. */
  datatype Operand = Number(value: real) | NotNumber

  /** `safe_divide`: the quotient, or `fallback` when the division raises
      (a zero denominator or a non-numeric operand). */
  function SafeDivide(numerator: Operand, denominator: Operand, fallback: real): (r: real)
    ensures (numerator.NotNumber? || denominator.NotNumber? || denominator.value == 0.0) ==> r == fallback
    ensures numerator.Number? && denominator.Number? && denominator.value != 0.0 ==>
              r * denominator.value == numerator.value
  {
    if numerator.Number? && denominator.Number? && denominator.value != 0.0 then
      numerator.value / denominator.value
    else fallback
  }

  /** The `report_outliers` selection predicate. */
  predicate IsOutlier(v: real, lo: real, hi: real) {
    v < lo || v > hi
  }

  /** `series[(series < lo) | (series > hi)]`: the outliers, in order. */
  function Outliers(series: seq<real>, lo: real, hi: real): (out: seq<real>)
    ensures |out| <= |series|
    ensures forall v :: v in out <==> v in series && IsOutlier(v, lo, hi)
    ensures forall v :: multiset(out)[v] == if IsOutlier(v, lo, hi) then multiset(series)[v] else 0
  {
    if |series| == 0 then []
    else
      var init, last := series[..|series| - 1], series[|series| - 1];
      assert series == init + [last];
      Outliers(init, lo, hi) + (if IsOutlier(last, lo, hi) then [last] else [])
  }
  /** The outliers keep the order and repeats of the series: those of a
      concatenation are those of each part, one after the other. */
  lemma {:induction false} OutliersAppend(a: seq<real>, b: seq<real>, lo: real, hi: real)
    ensures Outliers(a + b, lo, hi) == Outliers(a, lo, hi) + Outliers(b, lo, hi)
    decreases |b|
  {
    if |b| == 0 {
      assert a + b == a;
    } else {
      var init, last := b[..|b| - 1], b[|b| - 1];
      var tail := if IsOutlier(last, lo, hi) then [last] else [];
      assert (a + b)[..|a + b| - 1] == a + init;
      assert (a + b)[|a + b| - 1] == last;
      assert Outliers(a + b, lo, hi) == Outliers(a + init, lo, hi) + tail;
      assert Outliers(b, lo, hi) == Outliers(init, lo, hi) + tail;
      OutliersAppend(a, init, lo, hi);
      Seqs.AppendAssoc(Outliers(a, lo, hi), Outliers(init, lo, hi), tail);
    }
  }


  /** With a proper range, the outliers are exactly the values clamping
      would change. */
  lemma OutlierIffClampChanges(v: real, lo: real, hi: real)
    requires lo <= hi
    ensures IsOutlier(v, lo, hi) <==> Clamp(v, lo, hi) != v
  {
  }

  /** A Jira field value as JSON. */
  datatype Json =
    | JNull
    | JBool(b: bool)
    | JNum(n: real)
    | JStr(s: string)
    | JList(items: seq<Json>)
    | JDict(fields: map<string, Json>)

  /** `isinstance(f, dict) and f.get("value") == match_value`. */
  predicate DictHasValue(f: Json, matchValue: string) {
    f.JDict? && "value" in f.fields && f.fields["value"] == JStr(matchValue)
  }

  /** `any(... for f in flag)`, scanning the list. */
  function AnyDictHasValue(items: seq<Json>, matchValue: string): (found: bool)
    ensures found <==> exists i :: 0 <= i < |items| && DictHasValue(items[i], matchValue)
  {
    if |items| == 0 then false
    else DictHasValue(items[0], matchValue) || AnyDictHasValue(items[1..], matchValue)
  }

  /** When a flag means "matches" in each of the shapes Jira sends. */
  predicate FlagMatches(flag: Json, matchValue: string) {
    match flag
    case JList(items) => exists i :: 0 <= i < |items| && DictHasValue(items[i], matchValue)
    case JDict(_) => DictHasValue(flag, matchValue)
    case JStr(s) => s == matchValue
    case _ => false
  }

  /** `classify_by_issueflag`. */
  function ClassifyByIssueflag(flag: Json, matchValue: string, matchLabel: string, defaultLabel: string): (category: string)
    ensures category == matchLabel || category == defaultLabel
    ensures category == (if FlagMatches(flag, matchValue) then matchLabel else defaultLabel)
  {
    if flag.JList? then
      (if AnyDictHasValue(flag.items, matchValue) then matchLabel else defaultLabel)
    else if flag.JDict? then
      (if "value" in flag.fields && flag.fields["value"] == JStr(matchValue) then matchLabel else defaultLabel)
    else if flag.JStr? then
      (if flag.s == matchValue then matchLabel else defaultLabel)
    else defaultLabel
  }

  /** Elements of a list flag that are not dictionaries are ignored. */
  lemma NonDictElementsIgnored(items: seq<Json>, other: Json, matchValue: string, matchLabel: string, defaultLabel: string)
    requires !other.JDict?
    ensures ClassifyByIssueflag(JList(items + [other]), matchValue, matchLabel, defaultLabel)
            == ClassifyByIssueflag(JList(items), matchValue, matchLabel, defaultLabel)
  {
    var all := items + [other];
    assert forall i :: 0 <= i < |items| ==> all[i] == items[i];
    assert !DictHasValue(all[|items|], matchValue);
  }

  /** The shapes that never match: an empty list, null, booleans, numbers. */
  lemma DefaultShapes(matchValue: string, matchLabel: string, defaultLabel: string, b: bool, n: real)
    ensures ClassifyByIssueflag(JList([]), matchValue, matchLabel, defaultLabel) == defaultLabel
    ensures ClassifyByIssueflag(JNull, matchValue, matchLabel, defaultLabel) == defaultLabel
    ensures ClassifyByIssueflag(JBool(b), matchValue, matchLabel, defaultLabel) == defaultLabel
    ensures ClassifyByIssueflag(JNum(n), matchValue, matchLabel, defaultLabel) == defaultLabel
  {
  }
}
