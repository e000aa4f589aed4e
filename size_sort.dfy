/** Stable sorting of vertex sets by size, largest first: the order a stable
    sort with the set's size as key and the comparison reversed produces. */
module SizeSort {

  /** Sizes never increase from left to right. */
  predicate SortedBySize<T>(s: seq<set<T>>) {
    forall i, j :: 0 <= i < j < |s| ==> |s[i]| >= |s[j]|
  }

  /** Puts `x` into `t` behind every element at least as large as `x`,
      scanning from the back (one step of insertion sort). */
  function Insert<T>(t: seq<set<T>>, x: set<T>): (r: seq<set<T>>)
    ensures |r| == |t| + 1
    decreases |t|
  {
    if t == [] || |t[|t| - 1]| >= |x| then t + [x]
    else Insert(t[..|t| - 1], x) + [t[|t| - 1]]
  }

  /** Inserting into a sorted sequence adds exactly `x` and keeps it sorted. */
  lemma {:induction false} InsertSorted<T>(t: seq<set<T>>, x: set<T>)
    requires SortedBySize(t)
    ensures multiset(Insert(t, x)) == multiset(t) + multiset{x}
    ensures SortedBySize(Insert(t, x))
    decreases |t|
  {
    if t != [] && |t[|t| - 1]| < |x| {
      var init, last := t[..|t| - 1], t[|t| - 1];
      assert t == init + [last];
      assert SortedBySize(init);
      InsertSorted(init, x);
      AtLeastAll(init, x, last, Insert(init, x));
    }
  }

  /** Every element of `r` is at least as large as `last` when `r` holds the
      elements of `init` and `x`, all of which are. */
  lemma AtLeastAll<T>(init: seq<set<T>>, x: set<T>, last: set<T>, r: seq<set<T>>)
    requires SortedBySize(init + [last])
    requires |x| > |last|
    requires multiset(r) == multiset(init) + multiset{x}
    requires SortedBySize(r)
    ensures SortedBySize(r + [last])
  {
    forall i | 0 <= i < |r|
      ensures |r[i]| >= |last|
    {
      assert r[i] in multiset(r);
      if r[i] != x {
        assert r[i] in multiset(init);
        var j :| 0 <= j < |init| && init[j] == r[i];
        assert (init + [last])[j] == init[j];
        assert (init + [last])[|init|] == last;
      }
    }
  }

  /** The elements of `s`, reordered so that sizes do not increase; among sets
      of equal size the order of `s` is kept. */
  function SortBySize<T>(s: seq<set<T>>): (r: seq<set<T>>)
    ensures |r| == |s|
    decreases |s|
  {
    if s == [] then [] else Insert(SortBySize(s[..|s| - 1]), s[|s| - 1])
  }

  /** The sort is a permutation whose sizes do not increase. */
  lemma {:induction false} SortBySizeSorted<T>(s: seq<set<T>>)
    ensures multiset(SortBySize(s)) == multiset(s)
    ensures SortedBySize(SortBySize(s))
    decreases |s|
  {
    if s != [] {
      var init, last := s[..|s| - 1], s[|s| - 1];
      assert s == init + [last];
      SortBySizeSorted(init);
      InsertSorted(SortBySize(init), last);
    }
  }

  /** Entry `p` of `r` is an entry of `s` when both hold the same entries
      counted with multiplicity. */
  lemma EntryFrom<T>(s: seq<set<T>>, r: seq<set<T>>, p: nat)
    requires multiset(r) == multiset(s)
    requires p < |r|
    ensures r[p] in s
  {
    assert r[p] in multiset(r);
    assert r[p] in multiset(s);
  }

  /** Entry `i` of `s` is in `r` when both hold the same entries counted with
      multiplicity. */
  lemma EntryKept<T>(s: seq<set<T>>, r: seq<set<T>>, i: nat)
    requires multiset(r) == multiset(s)
    requires i < |s|
    ensures s[i] in r
  {
    assert s[i] in multiset(s);
    assert s[i] in multiset(r);
  }

  /** An input already sorted by size comes back unchanged: the sort is stable. */
  lemma {:induction false} SortedUnchanged<T>(s: seq<set<T>>)
    requires SortedBySize(s)
    ensures SortBySize(s) == s
    decreases |s|
  {
    if s != [] {
      var init, last := s[..|s| - 1], s[|s| - 1];
      assert s == init + [last];
      assert SortedBySize(init);
      SortedUnchanged(init);
      assert SortBySize(s) == Insert(init, last);
      assert init == [] || |init[|init| - 1]| >= |last|;
    }
  }
}
