/** Checking a covering against a graph: every group must induce a subgraph
    with a single vertex or of density 1, and the edges the groups induce
    together must be as many as the edges of the graph. Nothing here checks
    that a round is a partition. */
module Verification {
  import opened Graphs

  /** The edges of the subgraph of `g` induced by the vertices of `c` that
      belong to `g`. */
  function Induced<T(==)>(g: Graph<T>, c: set<T>): (r: set<set<T>>) {
    set e | e in g.E && e <= c * g.V
  }

  /** The subgraph of `g` induced by `c` has exactly one vertex, or it has
      density 1: at least two vertices `n` and `n(n-1)/2` edges, each edge
      (a self-loop included) counted once. */
  predicate GroupValid<T(==)>(g: Graph<T>, c: set<T>) {
    var vs := c * g.V;
    |vs| == 1 || (|vs| >= 2 && 2 * |Induced(g, c)| == |vs| * (|vs| - 1))
  }

  /** In a graph without self-loops, the induced edges are pairs of the
      induced vertices, and they are all of those pairs exactly when the
      induced vertices are pairwise adjacent. */
  lemma InducedComplete<T>(g: Graph<T>, c: set<T>)
    requires WellFormed(g)
    ensures Induced(g, c) <= Edges(c * g.V)
    ensures Induced(g, c) == Edges(c * g.V) <==> Complete(g, c * g.V)
  {
    var vs := c * g.V;
    forall e | e in Induced(g, c)
      ensures e in Edges(vs)
    {
      EdgesMembership(vs, e);
    }
    if Complete(g, vs) {
      forall e | e in Edges(vs)
        ensures e in Induced(g, c)
      {
        var a, b :| a in vs && b in vs && a != b && e == {a, b};
      }
    }
    if Induced(g, c) == Edges(vs) {
      forall a, b | a in vs && b in vs && a != b
        ensures {a, b} in g.E
      {
        assert {a, b} in Edges(vs);
      }
    }
  }

  /** In a graph without self-loops, density 1 means that every two induced
      vertices are adjacent: the group test accepts a single vertex or a
      complete subgraph of at least two vertices. */
  lemma GroupValidComplete<T>(g: Graph<T>, c: set<T>)
    requires WellFormed(g)
    ensures GroupValid(g, c) <==> |c * g.V| == 1 || (|c * g.V| >= 2 && Complete(g, c * g.V))
  {
    var vs := c * g.V;
    InducedComplete(g, c);
    EdgesCount(vs);
    SubsetSize(Induced(g, c), Edges(vs));
  }

  /** The union of the induced edges of a sequence of groups. */
  function InducedUnion<T(==)>(g: Graph<T>, groups: seq<set<T>>): (r: set<set<T>>) {
    if groups == [] then {} else InducedUnion(g, groups[..|groups| - 1]) + Induced(g, groups[|groups| - 1])
  }

  /** What the verifier accepts: every group passes the group test, and the
      induced edges of all groups together equal the edges of `g`. */
  ghost predicate Verified<T>(g: Graph<T>, cover: seq<seq<set<T>>>) {
    && (forall c :: c in Flatten(cover) ==> GroupValid(g, c))
    && InducedUnion(g, Flatten(cover)) == g.E
  }

  lemma {:induction false} InducedUnionWithin<T>(g: Graph<T>, groups: seq<set<T>>)
    ensures InducedUnion(g, groups) <= g.E
    decreases |groups|
  {
    if groups != [] {
      InducedUnionWithin(g, groups[..|groups| - 1]);
    }
  }

  lemma InducedUnionAppend<T>(g: Graph<T>, groups: seq<set<T>>, c: set<T>)
    ensures InducedUnion(g, groups + [c]) == InducedUnion(g, groups) + Induced(g, c)
  {
    assert (groups + [c])[..|groups|] == groups;
  }

  /** True exactly when every group induces a subgraph of `g` with a single
      vertex or of density 1, and the groups' induced edges together are all
      edges of `g`; the first invalid group ends the check with false. */
  method VerifyEquivalenceCovering<T(==)>(cover: seq<seq<set<T>>>, g: Graph<T>) returns (ok: bool)
    ensures ok <==> Verified(g, cover)
  {
    var edgesInCover: set<set<T>> := {};
    for r := 0 to |cover|
      invariant edgesInCover == InducedUnion(g, Flatten(cover[..r]))
      invariant forall c :: c in Flatten(cover[..r]) ==> GroupValid(g, c)
    {
      assert cover[..r + 1] == cover[..r] + [cover[r]];
      FlattenAppend(cover[..r], cover[r]);
      assert Flatten(cover[..r]) + cover[r][..0] == Flatten(cover[..r]);
      for q := 0 to |cover[r]|
        invariant edgesInCover == InducedUnion(g, Flatten(cover[..r]) + cover[r][..q])
        invariant forall c :: c in Flatten(cover[..r]) + cover[r][..q] ==> GroupValid(g, c)
      {
        var group := cover[r][q];
        if !GroupValid(g, group) {
          FlattenMember(cover, r, q);
          return false;
        }
        assert Flatten(cover[..r]) + cover[r][..q + 1] == (Flatten(cover[..r]) + cover[r][..q]) + [group];
        InducedUnionAppend(g, Flatten(cover[..r]) + cover[r][..q], group);
        edgesInCover := edgesInCover + Induced(g, group);
      }
      assert cover[r][..|cover[r]|] == cover[r];
    }
    assert cover[..|cover|] == cover;
    InducedUnionWithin(g, Flatten(cover));
    SubsetSize(edgesInCover, g.E);
    ok := |edgesInCover| == |g.E|;
  }

  /** In a well-formed graph, a non-empty clique passes the group test and
      induces exactly its own pairs. */
  lemma CliqueInduces<T>(g: Graph<T>, c: set<T>)
    requires WellFormed(g)
    requires c != {} && IsClique(g, c)
    ensures GroupValid(g, c)
    ensures Induced(g, c) == Edges(c)
  {
    assert c * g.V == c;
    InducedComplete(g, c);
    GroupValidComplete(g, c);
  }

  /** A covering whose groups are all non-empty cliques of a well-formed `g` and
      whose groups' pairs together are exactly the edges of `g` passes the
      verifier. */
  lemma {:induction false} CliqueCoveringVerified<T>(g: Graph<T>, cover: seq<seq<set<T>>>)
    requires WellFormed(g)
    requires forall c :: c in Flatten(cover) ==> c != {} && IsClique(g, c)
    requires EdgesOf(Flatten(cover)) == g.E
    ensures Verified(g, cover)
  {
    var groups := Flatten(cover);
    forall c | c in groups
      ensures GroupValid(g, c)
    {
      CliqueInduces(g, c);
    }
    InducedIsEdges(g, groups);
  }

  lemma {:induction false} InducedIsEdges<T>(g: Graph<T>, groups: seq<set<T>>)
    requires WellFormed(g)
    requires forall c :: c in groups ==> c != {} && IsClique(g, c)
    ensures InducedUnion(g, groups) == EdgesOf(groups)
    decreases |groups|
  {
    if groups != [] {
      var init := groups[..|groups| - 1];
      assert forall c :: c in init ==> c in groups;
      InducedIsEdges(g, init);
      assert groups[|groups| - 1] in groups;
      CliqueInduces(g, groups[|groups| - 1]);
    }
  }

  /** The verifier does not check partitions: one round that leaves out a vertex
      of an edgeless graph still passes. */
  lemma PartitionNotChecked()
    ensures Verified(Graph({1, 2}, {}), [[{1}]])
    ensures !IsPartition({1, 2}, [{1}])
  {
    var g: Graph<int> := Graph({1, 2}, {});
    var one: set<int> := {1};
    assert [one][..0] == [];
    assert [[one]][..0] == [];
    assert Flatten([[one]]) == [one];
    assert one * g.V == one;
    assert |one| == 1;
    assert GroupValid(g, one);
    assert InducedUnion(g, [one]) == {};
    assert UnionOf([one]) == one;
    assert 2 !in one;
  }

  /** On a graph with a self-loop the density test counts the loop: the group
      {1, 2} of a graph whose only edge is a loop at 1 passes, and the
      verifier accepts it, although 1 and 2 are not adjacent. */
  lemma SelfLoopAccepted()
    ensures Verified(Graph({1, 2}, {{1}}), [[{1, 2}]])
    ensures !Complete(Graph({1, 2}, {{1}}), {1, 2})
  {
    var g: Graph<int> := Graph({1, 2}, {{1}});
    var both: set<int> := {1, 2};
    var loop: set<int> := {1};
    assert [both][..0] == [];
    assert [[both]][..0] == [];
    assert Flatten([[both]]) == [both];
    assert both * g.V == both;
    assert Induced(g, both) == {loop};
    assert GroupValid(g, both);
    assert InducedUnion(g, [both]) == {loop};
    assert both != loop by { assert 2 !in loop; }
  }
}
