/** A worked instance: the triangle on the vertices 1, 2, 3, whose catalog is
    the whole triangle, its three pairs and its three single vertices. The
    greedy rule takes the whole triangle in the first round, which then covers
    every edge, so the covering is that one round and no other. */
module Triangle {
  import opened Graphs
  import opened SizeSort
  import opened Covering

  function TriangleGraph(): (r: Graph<int>) {
    Graph({1, 2, 3}, {{1, 2}, {1, 3}, {2, 3}})
  }

  /** The catalog sorted by size, largest first. */
  function TriangleCatalog(): (r: seq<set<int>>) {
    [{1, 2, 3}, {1, 2}, {1, 3}, {2, 3}, {1}, {2}, {3}]
  }

  /** The pairs inside each catalog entry. */
  function TrianglePairs(): (r: seq<seq<set<int>>>) {
    [[{1, 2}, {1, 3}, {2, 3}], [{1, 2}], [{1, 3}], [{2, 3}], [], [], []]
  }

  /** The whole triangle has exactly the graph's three edges as its pairs. */
  lemma TriangleEdges()
    ensures Edges({1, 2, 3}) == TriangleGraph().E
    ensures |TriangleGraph().E| == 3
    ensures |TriangleGraph().V| == 3
  {
    var c: set<int> := {1, 2, 3};
    var E := TriangleGraph().E;
    forall e: set<int>
      ensures e in Edges(c) <==> e in E
    {
      EdgesMembership(c, e);
      if e <= c && |e| == 2 {
        PairShape(e);
        var a, b :| a != b && e == {a, b};
        assert a in c && b in c;
        if a == 1 {
          if b == 2 { assert e == {1, 2}; } else { assert e == {1, 3}; }
        } else if a == 2 {
          if b == 1 { assert e == {1, 2}; } else { assert e == {2, 3}; }
        } else {
          if b == 1 { assert e == {1, 3}; } else { assert e == {2, 3}; }
        }
      }
    }
    assert {1, 2} != {1, 3} && {1, 2} != {2, 3} && {1, 3} != {2, 3} by {
      assert 2 !in {1, 3} && 1 !in {2, 3};
    }
  }

  lemma TriangleSorted()
    ensures SortedBySize(TriangleCatalog())
  {
    var cat := TriangleCatalog();
    assert |cat[0]| == 3;
    assert |cat[1]| == 2 && |cat[2]| == 2 && |cat[3]| == 2;
    assert |cat[4]| == 1 && |cat[5]| == 1 && |cat[6]| == 1;
  }

  /** The first pick of the first round is the whole triangle. */
  lemma TriangleFirstPick()
    ensures Pick(TriangleCatalog(), TrianglePairs(), TriangleGraph().E, {}, {}) == Some({1, 2, 3})
  {
    var g, cat, ce := TriangleGraph(), TriangleCatalog(), TrianglePairs();
    TriangleSorted();
    assert IsPriority(cat, ce, g.E, {}, 0) by {
      assert {1, 2} in ce[0] && {1, 2} in g.E;
    }
    PickPriority(cat, ce, g.E, {}, {}, 0);
  }

  /** A round made of one clique holding every vertex, picked first. */
  lemma SingleRound<T>(g: Graph<T>, cat: seq<set<T>>, ce: seq<seq<set<T>>>, start: set<set<T>>, c: set<T>)
    requires |cat| == |ce|
    requires |g.V| != 0 && |c| == |g.V|
    requires Pick(cat, ce, g.E - start, {}, {}) == Some(c)
    ensures GreedyRound(g, cat, ce, start, [c])
  {
    var before: seq<set<T>> := [c][..0];
    assert before == [];
    var missing, vertices, used := g.E - (start + EdgesOf(before)), UnionOf(before), Elems(before);
    assert missing == g.E - start && vertices == {} && used == {};
    assert Pick(cat, ce, missing, vertices, used) == Some(c);
    assert UnionOf([c]) == c by {
      assert [c] == before + [c];
    }
    assert PickedAt(g, cat, ce, start, [c], 0);
  }

  /** A covering made of that one round, when its clique holds every edge. */
  lemma SingleRoundCovering<T>(g: Graph<T>, cat: seq<set<T>>, ce: seq<seq<set<T>>>, c: set<T>)
    requires |cat| == |ce|
    requires |g.E| != 0 && Edges(c) == g.E
    requires GreedyRound(g, cat, ce, {}, [c])
    ensures GreedyCovering(g, cat, ce, [[c]])
  {
    var rounds := [[c]];
    assert rounds[..0] == [];
    assert EdgesOf(Flatten(rounds[..0])) == {};
    assert RoundAt(g, cat, ce, rounds, 0);
    assert Flatten(rounds) == [c] by {
      assert rounds == rounds[..0] + [[c]];
    }
    EdgesOfSingle(c);
  }

  /** The greedy covering of the triangle is the single round made of the
      whole triangle, and it is the only greedy covering. */
  lemma TriangleCovering()
    ensures GreedyCovering(TriangleGraph(), TriangleCatalog(), TrianglePairs(), [[{1, 2, 3}]])
    ensures forall rounds :: GreedyCovering(TriangleGraph(), TriangleCatalog(), TrianglePairs(), rounds) ==> rounds == [[{1, 2, 3}]]
  {
    var g, cat, ce := TriangleGraph(), TriangleCatalog(), TrianglePairs();
    var c: set<int> := {1, 2, 3};
    TriangleEdges();
    TriangleFirstPick();
    assert g.E - {} == g.E;
    SingleRound(g, cat, ce, {}, c);
    SingleRoundCovering(g, cat, ce, c);
    forall other | GreedyCovering(g, cat, ce, other)
      ensures other == [[c]]
    {
      GreedyCoveringUnique(g, cat, ce, other, [[c]]);
    }
  }

  /** A subset of a three-element set is one of its eight subsets. */
  lemma ThreeSubsets<T>(a: T, b: T, c: T, x: set<T>)
    requires x <= {a, b, c}
    ensures x == {} || x == {a} || x == {b} || x == {c} || x == {a, b} || x == {a, c} || x == {b, c} || x == {a, b, c}
  {
    if a in x {
      if b in x {
        if c in x { assert x == {a, b, c}; } else { assert x == {a, b}; }
      } else {
        if c in x { assert x == {a, c}; } else { assert x == {a}; }
      }
    } else {
      if b in x {
        if c in x { assert x == {b, c}; } else { assert x == {b}; }
      } else {
        if c in x { assert x == {c}; } else { assert x == {}; }
      }
    }
  }

  /** Three distinct vertices have three pairs. */
  lemma ThreeEdges<T>(a: T, b: T, c: T)
    requires a != b && a != c && b != c
    ensures Edges({a, b, c}) == {{a, b}, {a, c}, {b, c}}
  {
    PairEdges(a, b);
    EdgesAdd(c, {a, b});
    assert {a, b} + {c} == {a, b, c};
    assert Star(c, {a, b}) == {{c, a}, {c, b}};
    assert {c, a} == {a, c} && {c, b} == {b, c};
  }

  /** A triangle on three distinct vertices is a well-formed graph, and its
      one maximal clique meets what the catalog builder demands and holds
      every vertex and every edge. */
  lemma ThreeInputs<T>(a: T, b: T, c: T, g: Graph<T>, maximal: seq<seq<T>>)
    requires a != b && a != c && b != c
    requires g.V == {a, b, c} && g.E == {{a, b}, {a, c}, {b, c}} && maximal == [[a, b, c]]
    ensures Elems(maximal[0]) == g.V
    ensures WellFormed(g)
    ensures forall i :: 0 <= i < |maximal| ==> Distinct(maximal[i]) && IsClique(g, Elems(maximal[i]))
    ensures forall e :: e in g.E ==> exists i :: 0 <= i < |maximal| && e <= Elems(maximal[i])
    ensures forall v :: v in g.V ==> exists i :: 0 <= i < |maximal| && v in maximal[i]
  {
    var m := maximal[0];
    assert Elems(m) == {a, b, c};
    assert |{a, b}| == 2 && |{a, c}| == 2 && |{b, c}| == 2;
    assert Distinct(m) by {
      assert m[0] == a && m[1] == b && m[2] == c;
    }
    forall x, y | x in g.V && y in g.V && x != y
      ensures {x, y} in g.E
    {
      assert {b, a} == {a, b} && {c, a} == {a, c} && {c, b} == {b, c};
    }
    assert IsClique(g, Elems(m));
    forall e | e in g.E
      ensures exists i :: 0 <= i < |maximal| && e <= Elems(maximal[i])
    {
      assert e <= Elems(maximal[0]);
    }
    forall v | v in g.V
      ensures exists i :: 0 <= i < |maximal| && v in maximal[i]
    {
      assert v in maximal[0];
    }
  }

  /** The three-vertex catalog and its pair lists, as the triangle literals
      spell them. */
  lemma ThreePairLists<T>(a: T, b: T, c: T, cat: seq<set<T>>, ce: seq<seq<set<T>>>)
    requires a != b && a != c && b != c
    requires cat == [{a, b, c}, {a, b}, {a, c}, {b, c}, {a}, {b}, {c}]
    requires ce == [[{a, b}, {a, c}, {b, c}], [{a, b}], [{a, c}], [{b, c}], [], [], []]
    ensures PairLists(cat, ce)
  {
    ThreeEdges(a, b, c);
    PairEdges(a, b);
    PairEdges(a, c);
    PairEdges(b, c);
    SingletonEdges(a);
    SingletonEdges(b);
    SingletonEdges(c);
    assert Elems(ce[0]) == {{a, b}, {a, c}, {b, c}};
    assert Elems(ce[1]) == {{a, b}} && Elems(ce[2]) == {{a, c}} && Elems(ce[3]) == {{b, c}};
    assert Elems(ce[4]) == {} && Elems(ce[5]) == {} && Elems(ce[6]) == {};
  }

  /** The three-vertex catalog is what the catalog builder yields for the
      maximal clique `[a, b, c]`, up to the order among cliques of equal
      size: no repetition, sorted by size, exactly the non-empty subsets of
      the triangle, each a clique. */
  lemma ThreeCatalogBuilt<T>(a: T, b: T, c: T, g: Graph<T>, cat: seq<set<T>>, maximal: seq<seq<T>>)
    requires a != b && a != c && b != c
    requires g.V == {a, b, c} && g.E == {{a, b}, {a, c}, {b, c}} && maximal == [[a, b, c]]
    requires cat == [{a, b, c}, {a, b}, {a, c}, {b, c}, {a}, {b}, {c}]
    ensures Distinct(cat) && SortedBySize(cat)
    ensures forall x :: x in cat <==> x != {} && exists i :: 0 <= i < |maximal| && x <= Elems(maximal[i])
    ensures forall x :: x in cat ==> IsClique(g, x)
  {
    ThreeInputs(a, b, c, g, maximal);
    assert |cat[0]| == 3 && |cat[1]| == 2 && |cat[2]| == 2 && |cat[3]| == 2;
    assert |cat[4]| == 1 && |cat[5]| == 1 && |cat[6]| == 1;
    assert c !in cat[1] && b !in cat[2] && a !in cat[3];
    assert b !in cat[4] && c !in cat[5] && a !in cat[6];
    ThreeMembers(a, b, c, cat, maximal);
  }

  /** The three-vertex catalog holds exactly the non-empty subsets of
      `[a, b, c]`. */
  lemma ThreeMembers<T>(a: T, b: T, c: T, cat: seq<set<T>>, maximal: seq<seq<T>>)
    requires maximal == [[a, b, c]] && cat == [{a, b, c}, {a, b}, {a, c}, {b, c}, {a}, {b}, {c}]
    ensures forall x :: x in cat <==> x != {} && exists i :: 0 <= i < |maximal| && x <= Elems(maximal[i])
  {
    assert Elems(maximal[0]) == {a, b, c};
    forall x
      ensures x in cat <==> x != {} && exists i :: 0 <= i < |maximal| && x <= Elems(maximal[i])
    {
      if x in cat {
        assert x <= Elems(maximal[0]);
      }
      if x != {} && exists i :: 0 <= i < |maximal| && x <= Elems(maximal[i]) {
        var i :| 0 <= i < |maximal| && x <= Elems(maximal[i]);
        assert i == 0;
        ThreeSubsets(a, b, c, x);
      }
    }
  }

  /** The triangle literals are what the catalog builder yields for the
      maximal clique `[1, 2, 3]`, with the pair lists of their entries. */
  lemma TriangleCatalogBuilt(g: Graph<int>, cat: seq<set<int>>, ce: seq<seq<set<int>>>, maximal: seq<seq<int>>)
    requires g == TriangleGraph() && cat == TriangleCatalog() && ce == TrianglePairs() && maximal == [[1, 2, 3]]
    ensures Distinct(cat) && SortedBySize(cat)
    ensures forall x :: x in cat <==> x != {} && exists i :: 0 <= i < |maximal| && x <= Elems(maximal[i])
    ensures forall x :: x in cat ==> IsClique(g, x)
    ensures PairLists(cat, ce)
  {
    ThreeCatalogBuilt(1, 2, 3, g, cat, maximal);
    ThreePairLists(1, 2, 3, cat, ce);
  }

  /** Whatever order the catalog builder gives cliques of equal size, the
      only greedy covering of a triangle over its catalog is the single round
      of the whole triangle: it is the one largest entry, so it comes first
      and is the first pick. */
  lemma ThreeAnyCatalog<T>(a: T, b: T, c: T, g: Graph<T>, maximal: seq<seq<T>>, cat: seq<set<T>>, ce: seq<seq<set<T>>>)
    requires a != b && a != c && b != c
    requires g.V == {a, b, c} && g.E == {{a, b}, {a, c}, {b, c}} && maximal == [[a, b, c]]
    requires SortedBySize(cat)
    requires forall x :: x in cat <==> x != {} && exists i :: 0 <= i < |maximal| && x <= Elems(maximal[i])
    requires PairLists(cat, ce)
    ensures forall rounds :: GreedyCovering(g, cat, ce, rounds) ==> rounds == [[{a, b, c}]]
  {
    var whole := {a, b, c};
    ThreeInputs(a, b, c, g, maximal);
    ThreeEdges(a, b, c);
    WholeFirst(whole, cat, maximal);
    assert IsPriority(cat, ce, g.E - {}, {}, 0) by {
      assert {a, b} in Elems(ce[0]);
    }
    PickPriority(cat, ce, g.E - {}, {}, {}, 0);
    SingleRound(g, cat, ce, {}, whole);
    SingleRoundCovering(g, cat, ce, whole);
    forall other | GreedyCovering(g, cat, ce, other)
      ensures other == [[whole]]
    {
      GreedyCoveringUnique(g, cat, ce, other, [[whole]]);
    }
  }

  /** In a catalog sorted by size holding exactly the non-empty subsets of
      one maximal clique, that clique comes first. */
  lemma WholeFirst<T>(whole: set<T>, cat: seq<set<T>>, maximal: seq<seq<T>>)
    requires |maximal| == 1 && Elems(maximal[0]) == whole && whole != {}
    requires SortedBySize(cat)
    requires forall x :: x in cat <==> x != {} && exists i :: 0 <= i < |maximal| && x <= Elems(maximal[i])
    ensures |cat| > 0 && cat[0] == whole
  {
    assert whole in cat by {
      assert whole <= Elems(maximal[0]);
    }
    var i :| 0 <= i < |cat| && cat[i] == whole;
    assert cat[0] in cat;
    var j :| 0 <= j < |maximal| && cat[0] <= Elems(maximal[j]);
    assert j == 0;
    SubsetSize(cat[0], whole);
    assert i == 0 || |cat[0]| >= |cat[i]|;
  }

  /** The whole function on the triangle, with its one maximal clique: one
      round holding the whole triangle. */
  method TriangleFound() returns (result: CoverResult<int>)
    ensures result == Covering([[{1, 2, 3}]])
  {
    var g := TriangleGraph();
    var maximal: seq<seq<int>> := [[1, 2, 3]];
    ThreeInputs(1, 2, 3, g, maximal);
    ghost var cat: seq<set<int>>;
    ghost var ce: seq<seq<set<int>>>;
    result, cat, ce := FindEquivalenceCovering(g, maximal);
    ThreeAnyCatalog(1, 2, 3, g, maximal, cat, ce);
  }
}
