/** The clique catalog: every non-empty subset of every maximal clique, without
    repetition, largest first; and the list of pairs inside one clique. */
module Catalog {
  import opened Graphs
  import opened Subsets
  import opened SizeSort

  /** The members of a set in some order, each once: the order in which a
      set is iterated is not determined, and neither is this one. */
  method ListOf<X(==)>(s: set<X>) returns (r: seq<X>)
    ensures Distinct(r)
    ensures Elems(r) == s
    ensures |r| == |s|
  {
    r := [];
    var rest := s;
    while rest != {}
      invariant Distinct(r)
      invariant Elems(r) !! rest
      invariant Elems(r) + rest == s
      invariant |r| + |rest| == |s|
      decreases rest
    {
      var x :| x in rest;
      assert Elems(r + [x]) == Elems(r) + {x};
      r := r + [x];
      rest := rest - {x};
    }
  }

  /** `c` is a non-empty subset of one of the first `n` maximal cliques. */
  ghost predicate InSome<T>(maximal: seq<seq<T>>, n: nat, c: set<T>)
    requires n <= |maximal|
  {
    c != {} && exists j :: 0 <= j < n && c <= Elems(maximal[j])
  }

  /** The catalog built from the maximal cliques of `g`, each given as a
      sequence of distinct vertices: every non-empty subset of one of them,
      each once, sorted by size with the largest first. */
  method FindAllCliques<T(==)>(g: Graph<T>, maximal: seq<seq<T>>) returns (cat: seq<set<T>>)
    requires forall i :: 0 <= i < |maximal| ==> Distinct(maximal[i]) && IsClique(g, Elems(maximal[i]))
    ensures Distinct(cat)
    ensures SortedBySize(cat)
    ensures forall c :: c in cat <==> c != {} && exists i :: 0 <= i < |maximal| && c <= Elems(maximal[i])
    ensures forall c :: c in cat ==> IsClique(g, c)
  {
    var res: set<set<T>> := {};
    for i := 0 to |maximal|
      invariant forall c :: c in res <==> InSome(maximal, i, c)
    {
      var subsets := FindAllSubsets(maximal[i], false);
      AddSubsets(maximal, i, res, subsets);
      res := res + Elems(subsets);
    }
    var order := ListOf(res);
    cat := SortBySize(order);
    SortBySizeSorted(order);
    forall c
      ensures c in cat <==> InSome(maximal, |maximal|, c)
    {
      assert c in cat <==> c in multiset(cat);
      assert c in order <==> c in multiset(order);
      assert c in order <==> c in Elems(order);
      assert c in res <==> InSome(maximal, |maximal|, c);
    }
    DistinctMultiset(order, cat);
    forall c | c in cat
      ensures IsClique(g, c)
    {
      assert InSome(maximal, |maximal|, c);
      var j :| 0 <= j < |maximal| && c <= Elems(maximal[j]);
    }
  }

  /** Adding the non-empty subsets of maximal clique `i` extends the catalog
      of the first `i` maximal cliques to the first `i + 1`. */
  lemma AddSubsets<T>(maximal: seq<seq<T>>, i: nat, res: set<set<T>>, subsets: seq<set<T>>)
    requires i < |maximal|
    requires forall c :: c in res <==> InSome(maximal, i, c)
    requires forall x :: x in subsets ==> x <= Elems(maximal[i])
    requires forall x :: x <= Elems(maximal[i]) ==> (x in subsets <==> x != {})
    ensures forall c :: c in res + Elems(subsets) <==> InSome(maximal, i + 1, c)
  {
    forall c
      ensures c in res + Elems(subsets) <==> InSome(maximal, i + 1, c)
    {
      if InSome(maximal, i + 1, c) {
        var j :| 0 <= j < i + 1 && c <= Elems(maximal[j]);
        if j < i {
          assert InSome(maximal, i, c);
        } else {
          assert c in subsets;
        }
      }
      if c in Elems(subsets) {
        assert c in subsets;
        assert c <= Elems(maximal[i]);
      }
      if c in res {
        var j :| 0 <= j < i && c <= Elems(maximal[j]);
        assert InSome(maximal, i + 1, c);
      }
    }
  }

  /** Two sequences with the same elements counted with multiplicity are
      either both free of repetition or neither is. */
  lemma DistinctMultiset<X>(a: seq<X>, b: seq<X>)
    requires multiset(a) == multiset(b)
    requires Distinct(a)
    ensures Distinct(b)
  {
    forall x | x in multiset(a)
      ensures multiset(a)[x] == 1
    {
      DistinctCount(a, x);
    }
    forall i, j | 0 <= i < j < |b|
      ensures b[i] != b[j]
    {
      TwiceCounted(b, i, j);
    }
  }

  lemma {:induction false} DistinctCount<X>(a: seq<X>, x: X)
    requires Distinct(a)
    requires x in a
    ensures multiset(a)[x] == 1
    decreases |a|
  {
    var init := a[..|a| - 1];
    assert a == init + [a[|a| - 1]];
    assert Distinct(init);
    if x == a[|a| - 1] {
      assert x !in init;
    } else {
      DistinctCount(init, x);
    }
  }

  lemma {:induction false} TwiceCounted<X>(b: seq<X>, i: nat, j: nat)
    requires i < j < |b|
    ensures multiset(b)[b[i]] >= if b[i] == b[j] then 2 else 1
    decreases |b|
  {
    var init := b[..|b| - 1];
    assert b == init + [b[|b| - 1]];
    if j < |b| - 1 {
      TwiceCounted(init, i, j);
    } else {
      assert b[i] == init[i];
      assert b[i] in init;
    }
  }

  /** How many pairs `p < q` there are below `n`. */
  function Pairs(n: nat): (r: nat) {
    if n == 0 then 0 else Pairs(n - 1) + (n - 1)
  }

  lemma {:induction false} PairsCount(n: nat)
    ensures 2 * Pairs(n) == n * (n - 1)
  {
    if n > 0 {
      PairsCount(n - 1);
      assert (n - 1) * (n - 2) + 2 * (n - 1) == n * (n - 1);
    }
  }

  /** Pairs taken at different index pairs of a repetition-free sequence differ. */
  lemma PairsDiffer<T>(cs: seq<T>, p: nat, q: nat, i: nat, k: nat)
    requires Distinct(cs)
    requires p < q < |cs| && i < k < |cs|
    requires p != i || q != k
    ensures {cs[p], cs[q]} != {cs[i], cs[k]}
  {
    if p != i && p != k {
      assert cs[p] !in {cs[i], cs[k]};
    } else if p == i {
      assert cs[q] !in {cs[i], cs[k]};
    } else {
      assert cs[q] !in {cs[i], cs[k]};
    }
  }

  /** Every unordered pair of members of the clique `c`, each once:
      `|c| * (|c| - 1) / 2` pairs. */
  method CliqueEdges<T(==)>(c: set<T>) returns (res: seq<set<T>>)
    ensures Elems(res) == Edges(c)
    ensures Distinct(res)
    ensures |res| == |c| * (|c| - 1) / 2
  {
    var cs := ListOf(c);
    res := [];
    for i := 0 to |cs|
      invariant forall e :: e in res <==> exists p, q :: 0 <= p < i && p < q < |cs| && e == {cs[p], cs[q]}
      invariant Distinct(res)
      invariant |res| == Pairs(|cs|) - Pairs(|cs| - i)
    {
      for k := i + 1 to |cs|
        invariant forall e :: e in res <==> exists p, q ::
          ((0 <= p < i && p < q < |cs|) || (p == i && i < q < k)) && e == {cs[p], cs[q]}
        invariant Distinct(res)
        invariant |res| == Pairs(|cs|) - Pairs(|cs| - i) + (k - i - 1)
      {
        forall p, q | (0 <= p < i && p < q < |cs|) || (p == i && i < q < k)
          ensures {cs[p], cs[q]} != {cs[i], cs[k]}
        {
          PairsDiffer(cs, p, q, i, k);
        }
        assert {cs[i], cs[k]} !in res;
        res := res + [{cs[i], cs[k]}];
      }
    }
    PairsCount(|cs|);
    forall e
      ensures e in res <==> e in Edges(c)
    {
      EdgesMembership(c, e);
      if e in Edges(c) {
        var a, b :| a in c && b in c && a != b && e == {a, b};
        var x :| 0 <= x < |cs| && cs[x] == a;
        var y :| 0 <= y < |cs| && cs[y] == b;
        if x < y {
          assert e == {cs[x], cs[y]};
        } else {
          assert e == {cs[y], cs[x]};
        }
      }
    }
  }
}
