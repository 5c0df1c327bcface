/** Sorting sequences by an integer key, as Python's `sorted(xs, key=...)`
    does: a stable insertion sort, with its order, permutation and stability
    properties; and keeping the present results of a partial map. */
module Seqs {
  import opened Wrappers

  predicate SortedBy<T>(s: seq<T>, key: T -> int) {
    forall i, j :: 0 <= i < j < |s| ==> key(s[i]) <= key(s[j])
  }

  /** Every element of `s` is bounded by `b` when the multiset of `s` is that of
      a sequence whose elements are all bounded by `b`, plus one more bounded
      element. */
  lemma BoundedByMultiset<T>(s: seq<T>, t: seq<T>, x: T, key: T -> int, b: int)
    requires multiset(s) == multiset(t) + multiset{x}
    requires forall i :: 0 <= i < |t| ==> key(t[i]) <= b
    requires key(x) <= b
    ensures forall i :: 0 <= i < |s| ==> key(s[i]) <= b
  {
    forall i | 0 <= i < |s|
      ensures key(s[i]) <= b
    {
      assert s[i] in multiset(s);
      if s[i] != x {
        assert s[i] in multiset(t);
        var j :| 0 <= j < |t| && t[j] == s[i];
      }
    }
  }

  /** Inserts `x` after the last element whose key is at most `key(x)`. */
  function InsertBy<T>(s: seq<T>, x: T, key: T -> int): (r: seq<T>)
    requires SortedBy(s, key)
    ensures SortedBy(r, key)
    ensures multiset(r) == multiset(s) + multiset{x}
    ensures |r| == |s| + 1
    decreases |s|
  {
    if |s| == 0 then [x]
    else if key(s[|s| - 1]) <= key(x) then s + [x]
    else
      var init, last := s[..|s| - 1], s[|s| - 1];
      assert s == init + [last];
      var rest := InsertBy(init, x, key);
      BoundedByMultiset(rest, init, x, key, key(last));
      rest + [last]
  }

  /** `sorted(s, key=key)`: insertion sort of the elements in their input
      order. */
  function SortBy<T>(s: seq<T>, key: T -> int): (r: seq<T>)
    ensures SortedBy(r, key)
    ensures multiset(r) == multiset(s)
    ensures |r| == |s|
  {
    if |s| == 0 then []
    else
      assert s == s[..|s| - 1] + [s[|s| - 1]];
      InsertBy(SortBy(s[..|s| - 1], key), s[|s| - 1], key)
  }

  /** An element whose key is not below the last one's goes at the end. */
  lemma InsertAfter<T>(s: seq<T>, x: T, key: T -> int)
    requires SortedBy(s, key) && (|s| == 0 || key(s[|s| - 1]) <= key(x))
    ensures InsertBy(s, x, key) == s + [x]
  {
  }

  /** An input that is already in order comes back unchanged. */
  lemma {:induction false} SortSortedIsIdentity<T>(s: seq<T>, key: T -> int)
    requires SortedBy(s, key)
    ensures SortBy(s, key) == s
  {
    if |s| > 0 {
      var init, last := s[..|s| - 1], s[|s| - 1];
      assert SortedBy(init, key);
      SortSortedIsIdentity(init, key);
      assert SortBy(s, key) == InsertBy(SortBy(init, key), last, key);
      assert |init| == 0 || key(init[|init| - 1]) <= key(last) by {
        if |init| > 0 {
          assert init[|init| - 1] == s[|s| - 2];
        }
      }
      InsertAfter(init, last, key);
      assert init + [last] == s;
    }
  }

  /** The elements of `s` whose key is `k`, in their order in `s`. */
  function KeyRun<T>(s: seq<T>, key: T -> int, k: int): (r: seq<T>)
    ensures |r| <= |s|
    ensures forall i :: 0 <= i < |r| ==> key(r[i]) == k
  {
    if |s| == 0 then []
    else KeyRun(s[..|s| - 1], key, k) + (if key(s[|s| - 1]) == k then [s[|s| - 1]] else [])
  }

  lemma {:induction false} KeyRunAppend<T>(s: seq<T>, t: seq<T>, key: T -> int, k: int)
    ensures KeyRun(s + t, key, k) == KeyRun(s, key, k) + KeyRun(t, key, k)
    decreases |t|
  {
    if |t| == 0 {
      assert s + t == s;
    } else {
      var tInit := t[..|t| - 1];
      assert (s + t)[..|s + t| - 1] == s + tInit;
      KeyRunAppend(s, tInit, key, k);
    }
  }

  lemma KeyRunSnoc<T>(s: seq<T>, x: T, key: T -> int, k: int)
    ensures KeyRun(s + [x], key, k) == KeyRun(s, key, k) + (if key(x) == k then [x] else [])
  {
    assert (s + [x])[..|s|] == s;
  }

  lemma {:induction false} KeyRunInsert<T>(s: seq<T>, x: T, key: T -> int, k: int)
    requires SortedBy(s, key)
    ensures KeyRun(InsertBy(s, x, key), key, k)
            == KeyRun(s, key, k) + (if key(x) == k then [x] else [])
    decreases |s|
  {
    if |s| == 0 {
      KeyRunSnoc([], x, key, k);
      assert [] + [x] == [x];
    } else if key(s[|s| - 1]) <= key(x) {
      KeyRunSnoc(s, x, key, k);
    } else {
      var init, last := s[..|s| - 1], s[|s| - 1];
      KeyRunInsert(init, x, key, k);
      InsertBefore(s, x, key);
      KeyRunInsertBefore(InsertBy(init, x, key), init, x, last, key, k);
      assert init + [last] == s;
    }
  }

  /** An element with a smaller key than the last goes before it. */
  lemma InsertBefore<T>(s: seq<T>, x: T, key: T -> int)
    requires SortedBy(s, key) && |s| > 0 && key(x) < key(s[|s| - 1])
    ensures SortedBy(s[..|s| - 1], key)
    ensures InsertBy(s, x, key) == InsertBy(s[..|s| - 1], x, key) + [s[|s| - 1]]
  {
  }

  /** The step of `KeyRunInsert` where `x` goes before the last element:
      `x` and `last` have different keys, so at most one of them joins the
      run of `k`, and their order does not matter to it. */
  lemma KeyRunInsertBefore<T>(inserted: seq<T>, init: seq<T>, x: T, last: T, key: T -> int, k: int)
    requires key(x) < key(last)
    requires KeyRun(inserted, key, k) == KeyRun(init, key, k) + (if key(x) == k then [x] else [])
    ensures KeyRun(inserted + [last], key, k)
            == KeyRun(init + [last], key, k) + (if key(x) == k then [x] else [])
  {
    var run, xs := KeyRun(init, key, k), if key(x) == k then [x] else [];
    var ls := if key(last) == k then [last] else [];
    assert KeyRun(inserted + [last], key, k) == run + xs + ls by {
      KeyRunSnoc(inserted, last, key, k);
    }
    assert KeyRun(init + [last], key, k) == run + ls by {
      KeyRunSnoc(init, last, key, k);
    }
    assert xs + ls == ls + xs;
    assert run + xs + ls == run + ls + xs;
  }

  /** Stability: for every key value, the elements carrying it keep their
      relative input order. */
  lemma {:induction false} SortIsStable<T>(s: seq<T>, key: T -> int, k: int)
    ensures KeyRun(SortBy(s, key), key, k) == KeyRun(s, key, k)
  {
    if |s| > 0 {
      var init := s[..|s| - 1];
      SortIsStable(init, key, k);
      KeyRunInsert(SortBy(init, key), s[|s| - 1], key, k);
    }
  }

  /** `f` applied to every element, position by position. */
  function Map<A, B>(s: seq<A>, f: A -> B): (r: seq<B>)
    ensures |r| == |s| && forall i :: 0 <= i < |s| ==> r[i] == f(s[i])
  {
    seq(|s|, i requires 0 <= i < |s| => f(s[i]))
  }

  /** Mapping works part by part. */
  lemma MapAppend<A, B>(s: seq<A>, t: seq<A>, f: A -> B)
    ensures Map(s + t, f) == Map(s, f) + Map(t, f)
  {
    assert forall i :: 0 <= i < |s| ==> (s + t)[i] == s[i];
    assert forall i :: |s| <= i < |s + t| ==> (s + t)[i] == t[i - |s|];
  }

  /** Concatenation regroups freely. */
  lemma AppendAssoc<T>(x: seq<T>, y: seq<T>, z: seq<T>)
    ensures (x + y) + z == x + (y + z)
  {
  }

  /** The present results of `f` over `s`, in order: a loop that appends a
      row only for the elements that yield one. */
  function FilterMap<A, B>(s: seq<A>, f: A -> Option<B>): (r: seq<B>)
    ensures |r| <= |s|
    ensures forall i :: 0 <= i < |s| && f(s[i]).Some? ==> f(s[i]).value in r
    ensures forall y :: y in r ==> exists i :: 0 <= i < |s| && f(s[i]) == Some(y)
  {
    if |s| == 0 then []
    else
      var init := s[..|s| - 1];
      var prev := FilterMap(init, f);
      var last := f(s[|s| - 1]);
      assert forall i :: 0 <= i < |init| ==> s[i] == init[i];
      if last.Some? then prev + [last.value] else prev
  }

  /** Rows keep the order of their elements: the rows of a concatenation are
      the rows of each part, one after the other. */
  lemma {:induction false} FilterMapAppend<A, B>(s: seq<A>, t: seq<A>, f: A -> Option<B>)
    ensures FilterMap(s + t, f) == FilterMap(s, f) + FilterMap(t, f)
    decreases |t|
  {
    if |t| == 0 {
      assert s + t == s;
    } else {
      var t0 := t[..|t| - 1];
      assert (s + t)[..|s + t| - 1] == s + t0;
      assert (s + t)[|s + t| - 1] == t[|t| - 1];
      FilterMapAppend(s, t0, f);
    }
  }
}
