/** A worked instance: the path 1 - 2 - 3, whose catalog is its two edges and
    its three single vertices. The first round takes the edge {1, 2} and then,
    with no disjoint clique left that covers the missing edge, falls back on
    {3}; the second round takes the edge {2, 3} and falls back on {1}. The
    catalog builder may also list {2, 3} ahead of {1, 2}; the same steps then
    give the same two rounds in the opposite order. */
module Path {
  import opened Graphs
  import opened SizeSort
  import opened Covering

  function PathGraph(): (r: Graph<int>) {
    Graph({1, 2, 3}, {{1, 2}, {2, 3}})
  }

  /** The catalog sorted by size, largest first. */
  function PathCatalog(): (r: seq<set<int>>) {
    [{1, 2}, {2, 3}, {1}, {2}, {3}]
  }

  /** The pairs inside each catalog entry. */
  function PathPairs(): (r: seq<seq<set<int>>>) {
    [[{1, 2}], [{2, 3}], [], [], []]
  }

  /** The cliques a round holds before its second pick: just its first one. */
  lemma FirstOfTwo<T>(c1: set<T>, c2: set<T>)
    ensures [c1, c2][..1] == [c1]
    ensures UnionOf([c1]) == c1 && EdgesOf([c1]) == Edges(c1) && Elems([c1]) == {c1}
  {
    assert [c1] == [] + [c1];
    UnionOfAppend([], c1);
    EdgesOfSingle(c1);
  }

  /** The first clique of a round is the first pick from the covered edges `start`. */
  lemma FirstPicked<T>(g: Graph<T>, cat: seq<set<T>>, ce: seq<seq<set<T>>>, start: set<set<T>>, c1: set<T>, c2: set<T>)
    requires |cat| == |ce| && |g.V| != 0
    requires Pick(cat, ce, g.E - start, {}, {}) == Some(c1)
    ensures PickedAt(g, cat, ce, start, [c1, c2], 0)
  {
    var b0 := [c1, c2][..0];
    assert b0 == [];
    var m0, v0, u0 := g.E - (start + EdgesOf(b0)), UnionOf(b0), Elems(b0);
    assert m0 == g.E - start && v0 == {} && u0 == {};
    assert Pick(cat, ce, m0, v0, u0) == Some(c1);
  }

  /** The second clique of a round is the pick after the first one. */
  lemma SecondPicked<T>(g: Graph<T>, cat: seq<set<T>>, ce: seq<seq<set<T>>>, start: set<set<T>>, c1: set<T>, c2: set<T>)
    requires |cat| == |ce| && |c1| != |g.V|
    requires Pick(cat, ce, g.E - (start + Edges(c1)), c1, {c1}) == Some(c2)
    ensures PickedAt(g, cat, ce, start, [c1, c2], 1)
  {
    FirstOfTwo(c1, c2);
    var b1 := [c1, c2][..1];
    var m1, v1, u1 := g.E - (start + EdgesOf(b1)), UnionOf(b1), Elems(b1);
    assert m1 == g.E - (start + Edges(c1)) && v1 == c1 && u1 == {c1};
    assert Pick(cat, ce, m1, v1, u1) == Some(c2);
  }

  /** A round `[c1, c2]`: `c1` is the first pick from the covered edges
      `start`, `c2` the pick after it, and together they hold every vertex. */
  lemma TwoPickRound<T>(g: Graph<T>, cat: seq<set<T>>, ce: seq<seq<set<T>>>, start: set<set<T>>, c1: set<T>, c2: set<T>)
    requires |cat| == |ce|
    requires |g.V| != 0 && |c1| != |g.V| && |c1 + c2| == |g.V|
    requires Pick(cat, ce, g.E - start, {}, {}) == Some(c1)
    requires Pick(cat, ce, g.E - (start + Edges(c1)), c1, {c1}) == Some(c2)
    ensures GreedyRound(g, cat, ce, start, [c1, c2])
  {
    FirstPicked(g, cat, ce, start, c1, c2);
    SecondPicked(g, cat, ce, start, c1, c2);
    FirstOfTwo(c1, c2);
    assert [c1, c2] == [c1] + [c2];
    UnionOfAppend([c1], c2);
  }

  /** A covering of two rounds: the second starts from the edges of the first,
      which leaves one missing, and both together hold every edge. */
  lemma TwoRoundCovering<T>(g: Graph<T>, cat: seq<set<T>>, ce: seq<seq<set<T>>>, r1: seq<set<T>>, r2: seq<set<T>>)
    requires |cat| == |ce|
    requires |g.E| != 0 && |EdgesOf(r1)| != |g.E| && EdgesOf(r1 + r2) == g.E
    requires GreedyRound(g, cat, ce, {}, r1)
    requires GreedyRound(g, cat, ce, EdgesOf(r1), r2)
    ensures GreedyCovering(g, cat, ce, [r1, r2])
  {
    var rounds := [r1, r2];
    assert rounds[..0] == [];
    assert EdgesOf(Flatten(rounds[..0])) == {};
    assert RoundAt(g, cat, ce, rounds, 0);
    assert rounds[..1] == [] + [r1];
    FlattenAppend([], r1);
    assert Flatten(rounds[..1]) == r1;
    assert RoundAt(g, cat, ce, rounds, 1);
    assert rounds == rounds[..1] + [r2];
    FlattenAppend(rounds[..1], r2);
  }

  /** The edge sets the rounds run into. */
  lemma PathEdges()
    ensures Edges({1, 2}) == {{1, 2}} && Edges({2, 3}) == {{2, 3}}
    ensures Edges({1}) == {} && Edges({3}) == {}
    ensures {1, 2} != {2, 3}
    ensures |PathGraph().V| == 3 && |PathGraph().E| == 2
  {
    PairEdges(1, 2);
    PairEdges(2, 3);
    SingletonEdges(1);
    SingletonEdges(3);
    assert 1 !in {2, 3};
  }

  lemma PathSorted()
    ensures SortedBySize(PathCatalog())
  {
    var cat := PathCatalog();
    assert |cat[0]| == 2 && |cat[1]| == 2;
    assert |cat[2]| == 1 && |cat[3]| == 1 && |cat[4]| == 1;
  }

  /** First round, first pick: the edge {1, 2}, the first entry covering a
      missing edge. */
  lemma FirstRoundFirstPick(g: Graph<int>, cat: seq<set<int>>, ce: seq<seq<set<int>>>)
    requires g == PathGraph() && cat == PathCatalog() && ce == PathPairs()
    ensures Pick(cat, ce, g.E - {}, {}, {}) == Some({1, 2})
  {
    PathSorted();
    var missing := g.E - {};
    assert missing == g.E;
    assert IsPriority(cat, ce, missing, {}, 0) by {
      assert {1, 2} in ce[0] && {1, 2} in missing;
    }
    PickPriority(cat, ce, missing, {}, {}, 0);
  }

  /** First round, second pick: no clique disjoint from {1, 2} covers the
      missing edge {2, 3}, so the pick falls back on {3}. */
  lemma FirstRoundSecondPick(g: Graph<int>, cat: seq<set<int>>, ce: seq<seq<set<int>>>)
    requires g == PathGraph() && cat == PathCatalog() && ce == PathPairs()
    ensures Pick(cat, ce, g.E - ({} + Edges({1, 2})), {1, 2}, {{1, 2}}) == Some({3})
  {
    PathSorted();
    PathEdges();
    var missing := g.E - ({} + Edges({1, 2}));
    assert missing == {{2, 3}};
    forall i
      ensures !IsPriority(cat, ce, missing, {1, 2}, i)
    {
      if i == 0 {
        assert !CoversMissing(ce[0], missing) by {
          assert {1, 2} !in missing;
        }
      } else if i == 1 {
        assert 2 in cat[1] * {1, 2};
      }
    }
    assert !(cat[1] !! {1, 2}) by { assert 2 in cat[1]; }
    assert !(cat[2] !! {1, 2}) by { assert 1 in cat[2]; }
    assert !(cat[3] !! {1, 2}) by { assert 2 in cat[3]; }
    assert IsFallback(cat, {{1, 2}}, {1, 2}, 4) by {
      assert {3} != {1, 2} by { assert 3 !in {1, 2}; }
    }
    PickFallback(cat, ce, missing, {1, 2}, {{1, 2}}, 4);
  }

  /** Second round, first pick: the edge {2, 3}, the only entry covering the
      edge still missing. */
  lemma SecondRoundFirstPick(g: Graph<int>, cat: seq<set<int>>, ce: seq<seq<set<int>>>)
    requires g == PathGraph() && cat == PathCatalog() && ce == PathPairs()
    ensures Pick(cat, ce, g.E - {{1, 2}}, {}, {}) == Some({2, 3})
  {
    PathSorted();
    PathEdges();
    var missing := g.E - {{1, 2}};
    assert missing == {{2, 3}};
    assert !IsPriority(cat, ce, missing, {}, 0) by {
      assert {1, 2} !in missing;
    }
    assert IsPriority(cat, ce, missing, {}, 1) by {
      assert {2, 3} in ce[1] && {2, 3} in missing;
    }
    PickPriority(cat, ce, missing, {}, {}, 1);
  }

  /** Second round, second pick: every edge is covered, so the pick falls back
      on {1}, the first unused entry disjoint from {2, 3}. */
  lemma SecondRoundSecondPick(g: Graph<int>, cat: seq<set<int>>, ce: seq<seq<set<int>>>)
    requires g == PathGraph() && cat == PathCatalog() && ce == PathPairs()
    ensures Pick(cat, ce, g.E - ({{1, 2}} + Edges({2, 3})), {2, 3}, {{2, 3}}) == Some({1})
  {
    PathSorted();
    PathEdges();
    var missing := g.E - ({{1, 2}} + Edges({2, 3}));
    assert missing == {};
    assert !(cat[0] !! {2, 3}) by { assert 2 in cat[0]; }
    assert IsFallback(cat, {{2, 3}}, {2, 3}, 2) by {
      assert {1} != {2, 3} by { assert 1 !in {2, 3}; }
    }
    PickFallback(cat, ce, missing, {2, 3}, {{2, 3}}, 2);
  }

  /** The sizes the round lemmas need: each round's cliques together hold the
      three vertices, and its first clique alone does not. */
  lemma PathSizes(g: Graph<int>)
    requires g == PathGraph()
    ensures |g.V| == 3 && |g.E| == 2
    ensures |{1, 2}| == 2 && |{1, 2} + {3}| == 3
    ensures |{2, 3}| == 2 && |{2, 3} + {1}| == 3
  {
    assert {1, 2} + {3} == g.V;
    assert {2, 3} + {1} == g.V;
  }

  /** The first round: {1, 2}, then {3}. */
  lemma PathFirstRound(g: Graph<int>, cat: seq<set<int>>, ce: seq<seq<set<int>>>)
    requires g == PathGraph() && cat == PathCatalog() && ce == PathPairs()
    ensures GreedyRound(g, cat, ce, {}, [{1, 2}, {3}])
  {
    PathSizes(g);
    FirstRoundFirstPick(g, cat, ce);
    FirstRoundSecondPick(g, cat, ce);
    TwoPickRound(g, cat, ce, {}, {1, 2}, {3});
  }

  /** The second round: {2, 3}, then {1}. */
  lemma PathSecondRound(g: Graph<int>, cat: seq<set<int>>, ce: seq<seq<set<int>>>)
    requires g == PathGraph() && cat == PathCatalog() && ce == PathPairs()
    ensures GreedyRound(g, cat, ce, {{1, 2}}, [{2, 3}, {1}])
  {
    PathSizes(g);
    SecondRoundFirstPick(g, cat, ce);
    SecondRoundSecondPick(g, cat, ce);
    TwoPickRound(g, cat, ce, {{1, 2}}, {2, 3}, {1});
  }

  /** Two rounds of two cliques each whose second cliques have no pairs: the
      first round covers the pairs of its first clique, both rounds together
      the pairs of both first cliques. */
  lemma TwoRoundEdges<T>(a: set<T>, b: set<T>, c: set<T>, d: set<T>)
    requires Edges(b) == {} && Edges(d) == {}
    ensures EdgesOf([a, b]) == Edges(a)
    ensures EdgesOf([a, b] + [c, d]) == Edges(a) + Edges(c)
  {
    EdgesOfAppend([a], b);
    EdgesOfSingle(a);
    assert [a, b] == [a] + [b];
    EdgesOfConcat([a, b], [c, d]);
    EdgesOfAppend([c], d);
    EdgesOfSingle(c);
    assert [c, d] == [c] + [d];
  }

  /** The first round covers {1, 2}; both rounds together cover both edges. */
  lemma PathRoundEdges(r1: seq<set<int>>, r2: seq<set<int>>)
    requires r1 == [{1, 2}, {3}] && r2 == [{2, 3}, {1}]
    ensures EdgesOf(r1) == {{1, 2}}
    ensures EdgesOf(r1 + r2) == PathGraph().E
  {
    PathEdges();
    TwoRoundEdges({1, 2}, {3}, {2, 3}, {1});
  }

  /** The greedy covering of the path is two rounds, [{1, 2}, {3}] and then
      [{2, 3}, {1}], and it is the only greedy covering. */
  lemma PathCovering()
    ensures GreedyCovering(PathGraph(), PathCatalog(), PathPairs(), [[{1, 2}, {3}], [{2, 3}, {1}]])
    ensures forall rounds :: GreedyCovering(PathGraph(), PathCatalog(), PathPairs(), rounds) ==>
      rounds == [[{1, 2}, {3}], [{2, 3}, {1}]]
  {
    var g, cat, ce := PathGraph(), PathCatalog(), PathPairs();
    var r1, r2: seq<set<int>> := [{1, 2}, {3}], [{2, 3}, {1}];
    PathSizes(g);
    PathFirstRound(g, cat, ce);
    PathSecondRound(g, cat, ce);
    PathRoundEdges(r1, r2);
    TwoRoundCovering(g, cat, ce, r1, r2);
    forall other | GreedyCovering(g, cat, ce, other)
      ensures other == [r1, r2]
    {
      GreedyCoveringUnique(g, cat, ce, other, [r1, r2]);
    }
  }

  /** A subset of a two-element set is one of its four subsets. */
  lemma TwoSubsets<T>(a: T, b: T, x: set<T>)
    requires x <= {a, b}
    ensures x == {} || x == {a} || x == {b} || x == {a, b}
  {
    if a in x {
      if b in x { assert x == {a, b}; } else { assert x == {a}; }
    } else {
      if b in x { assert x == {b}; } else { assert x == {}; }
    }
  }

  /** A path `a - b - c` on distinct vertices is a well-formed graph, and its
      maximal cliques `[a, b]` and `[b, c]` meet what the catalog builder
      demands. */
  lemma ChainInputs<T>(a: T, b: T, c: T, g: Graph<T>, maximal: seq<seq<T>>)
    requires a != b && a != c && b != c
    requires g.V == {a, b, c} && g.E == {{a, b}, {b, c}} && maximal == [[a, b], [b, c]]
    ensures Elems(maximal[0]) == {a, b} && Elems(maximal[1]) == {b, c}
    ensures WellFormed(g)
    ensures forall i :: 0 <= i < |maximal| ==> Distinct(maximal[i]) && IsClique(g, Elems(maximal[i]))
    ensures forall e :: e in g.E ==> exists i :: 0 <= i < |maximal| && e <= Elems(maximal[i])
  {
    var m0, m1 := maximal[0], maximal[1];
    assert Elems(m0) == {a, b} && Elems(m1) == {b, c};
    assert |{a, b}| == 2 && |{b, c}| == 2;
    assert {b, a} == {a, b} && {c, b} == {b, c};
    assert Distinct(m0) && Distinct(m1);
    assert IsClique(g, Elems(m0)) && IsClique(g, Elems(m1));
    forall e | e in g.E
      ensures exists i :: 0 <= i < |maximal| && e <= Elems(maximal[i])
    {
      if e == {a, b} { assert e <= Elems(maximal[0]); } else { assert e <= Elems(maximal[1]); }
    }
  }

  /** The path catalog is what the catalog builder yields for the maximal
      cliques `[a, b]` and `[b, c]`, up to the order among cliques of equal
      size: no repetition, sorted by size, exactly the non-empty subsets of a
      maximal clique, each a clique. */
  lemma ChainCatalogBuilt<T>(a: T, b: T, c: T, g: Graph<T>, cat: seq<set<T>>, maximal: seq<seq<T>>)
    requires a != b && a != c && b != c
    requires g.V == {a, b, c} && g.E == {{a, b}, {b, c}} && maximal == [[a, b], [b, c]]
    requires cat == [{a, b}, {b, c}, {a}, {b}, {c}]
    ensures Distinct(cat) && SortedBySize(cat)
    ensures forall x :: x in cat <==> x != {} && exists i :: 0 <= i < |maximal| && x <= Elems(maximal[i])
    ensures forall x :: x in cat ==> IsClique(g, x)
  {
    ChainInputs(a, b, c, g, maximal);
    assert |cat[0]| == 2 && |cat[1]| == 2;
    assert |cat[2]| == 1 && |cat[3]| == 1 && |cat[4]| == 1;
    assert a !in cat[1] && b !in cat[2] && c !in cat[3] && a !in cat[4];
    ChainMembers(a, b, c, cat, maximal);
  }

  /** The path catalog holds exactly the non-empty subsets of `[a, b]` and
      of `[b, c]`. */
  lemma ChainMembers<T>(a: T, b: T, c: T, cat: seq<set<T>>, maximal: seq<seq<T>>)
    requires maximal == [[a, b], [b, c]] && cat == [{a, b}, {b, c}, {a}, {b}, {c}]
    ensures forall x :: x in cat <==> x != {} && exists i :: 0 <= i < |maximal| && x <= Elems(maximal[i])
  {
    assert Elems(maximal[0]) == {a, b} && Elems(maximal[1]) == {b, c};
    forall x
      ensures x in cat <==> x != {} && exists i :: 0 <= i < |maximal| && x <= Elems(maximal[i])
    {
      if x in cat {
        if x == cat[1] || x == cat[4] {
          assert x <= Elems(maximal[1]);
        } else {
          assert x <= Elems(maximal[0]);
        }
      }
      if x != {} && exists i :: 0 <= i < |maximal| && x <= Elems(maximal[i]) {
        var i :| 0 <= i < |maximal| && x <= Elems(maximal[i]);
        if i == 0 { TwoSubsets(a, b, x); } else { TwoSubsets(b, c, x); }
      }
    }
  }

  /** The pair lists of the path catalog's entries. */
  lemma ChainPairLists<T>(a: T, b: T, c: T, cat: seq<set<T>>, ce: seq<seq<set<T>>>)
    requires a != b && a != c && b != c
    requires cat == [{a, b}, {b, c}, {a}, {b}, {c}] && ce == [[{a, b}], [{b, c}], [], [], []]
    ensures PairLists(cat, ce)
  {
    PairEdges(a, b);
    PairEdges(b, c);
    SingletonEdges(a);
    SingletonEdges(b);
    SingletonEdges(c);
    assert Elems(ce[0]) == {{a, b}} && Elems(ce[1]) == {{b, c}};
    assert Elems(ce[2]) == {} && Elems(ce[3]) == {} && Elems(ce[4]) == {};
  }

  /** The path literals are what the catalog builder yields for the maximal
      cliques `[1, 2]` and `[2, 3]`, with `{1, 2}` ahead of `{2, 3}`, and
      the pair lists of their entries. */
  lemma PathCatalogBuilt(g: Graph<int>, cat: seq<set<int>>, ce: seq<seq<set<int>>>, maximal: seq<seq<int>>)
    requires g == PathGraph() && cat == PathCatalog() && ce == PathPairs() && maximal == [[1, 2], [2, 3]]
    ensures WellFormed(g)
    ensures forall i :: 0 <= i < |maximal| ==> Distinct(maximal[i]) && IsClique(g, Elems(maximal[i]))
    ensures forall e :: e in g.E ==> exists i :: 0 <= i < |maximal| && e <= Elems(maximal[i])
    ensures Distinct(cat) && SortedBySize(cat)
    ensures forall x :: x in cat <==> x != {} && exists i :: 0 <= i < |maximal| && x <= Elems(maximal[i])
    ensures forall x :: x in cat ==> IsClique(g, x)
    ensures PairLists(cat, ce)
  {
    ChainInputs(1, 2, 3, g, maximal);
    ChainCatalogBuilt(1, 2, 3, g, cat, maximal);
    ChainPairLists(1, 2, 3, cat, ce);
  }
}
