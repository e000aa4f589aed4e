/** A graph outside the builder's precondition: one vertex `v` with a loop on
    it. The edge count includes the loop, but no clique has a pair that is a
    loop, and the only maximal clique is `[v]`, so the catalog is just `{v}`.
    Every round is then `[{v}]` and covers no edge: the round builder neither
    reaches the edge count nor runs out of picks, so its outer loop never
    ends. */
module SelfLoop {
  import opened Graphs
  import opened Covering

  /** Every clique a round picks from the one-entry catalog is that entry. */
  lemma PicksAreVertex<T>(g: Graph<T>, cat: seq<set<T>>, ce: seq<seq<set<T>>>, start: set<set<T>>, round: seq<set<T>>, v: T)
    requires cat == [{v}] && ce == [[]]
    requires forall k :: 0 <= k < |round| ==> PickedAt(g, cat, ce, start, round, k)
    ensures forall k :: 0 <= k < |round| ==> round[k] == {v}
  {
    forall k | 0 <= k < |round|
      ensures round[k] == {v}
    {
      var before := round[..k];
      var missing, vertices, used := g.E - (start + EdgesOf(before)), UnionOf(before), Elems(before);
      assert PickedAt(g, cat, ce, start, round, k);
      assert Pick(cat, ce, missing, vertices, used) == Some(round[k]);
      PickSound(cat, ce, missing, vertices, used, round[k]);
      var i :| 0 <= i < |cat| && cat[i] == round[k];
      assert i == 0;
    }
  }

  /** A sequence of copies of `{v}` has no pairs, and covers exactly `v`
      unless it is empty. */
  lemma {:induction false} CopiesOfVertex<T>(s: seq<set<T>>, v: T)
    requires forall k :: 0 <= k < |s| ==> s[k] == {v}
    ensures EdgesOf(s) == {}
    ensures s != [] ==> UnionOf(s) == {v}
    decreases |s|
  {
    if s != [] {
      var n := |s| - 1;
      CopiesOfVertex(s[..n], v);
      SingletonEdges(v);
    }
  }

  /** A round with nothing in it yet can always take `{v}`. */
  lemma FirstPickExists<T>(v: T, missing: set<set<T>>)
    ensures Pick([{v}], [[]], missing, {}, {}).Some?
  {
    var cat: seq<set<T>>, ce: seq<seq<set<T>>> := [{v}], [[]];
    assert IsFallback(cat, {}, {}, 0);
    PickNone(cat, ce, missing, {}, {});
  }

  /** Every clique of greedy rounds over the one-entry catalog is `{v}`. */
  lemma RoundsAreVertex<T>(g: Graph<T>, cat: seq<set<T>>, ce: seq<seq<set<T>>>, rounds: seq<seq<set<T>>>, v: T)
    requires cat == [{v}] && ce == [[]]
    requires forall r :: 0 <= r < |rounds| ==> RoundAt(g, cat, ce, rounds, r)
    ensures forall k :: 0 <= k < |Flatten(rounds)| ==> Flatten(rounds)[k] == {v}
  {
    forall k | 0 <= k < |Flatten(rounds)|
      ensures Flatten(rounds)[k] == {v}
    {
      var x := Flatten(rounds)[k];
      FlattenSource(rounds, x);
      var r, q :| 0 <= r < |rounds| && 0 <= q < |rounds[r]| && rounds[r][q] == x;
      assert RoundAt(g, cat, ce, rounds, r);
      PicksAreVertex(g, cat, ce, EdgesOf(Flatten(rounds[..r])), rounds[r], v);
    }
  }

  /** On the one-vertex graph with a loop, no sequence of greedy rounds
      reaches the edge count: the builder never returns a covering. */
  lemma NeverCovered<T>(v: T)
    ensures forall rounds :: !GreedyCovering(Graph({v}, {{v}}), [{v}], [[]], rounds)
  {
    var g: Graph<T>, cat: seq<set<T>>, ce: seq<seq<set<T>>> := Graph({v}, {{v}}), [{v}], [[]];
    forall rounds | forall r :: 0 <= r < |rounds| ==> RoundAt(g, cat, ce, rounds, r)
      ensures !GreedyCovering(g, cat, ce, rounds)
    {
      RoundsAreVertex(g, cat, ce, rounds, v);
      CopiesOfVertex(Flatten(rounds), v);
      assert |g.E| == 1;
    }
  }

  /** On the one-vertex graph with a loop, the builder never runs out of
      picks either: a partial round without `v` can still take `{v}`, and a
      partial round with it already holds every vertex. */
  lemma NeverStuck<T>(v: T)
    ensures forall rounds, current :: !GreedyStuck(Graph({v}, {{v}}), [{v}], [[]], rounds, current)
  {
    var g: Graph<T>, cat: seq<set<T>>, ce: seq<seq<set<T>>> := Graph({v}, {{v}}), [{v}], [[]];
    forall rounds, current | GreedyStuck(g, cat, ce, rounds, current)
      ensures false
    {
      var start := EdgesOf(Flatten(rounds));
      PicksAreVertex(g, cat, ce, start, current, v);
      CopiesOfVertex(current, v);
      if current == [] {
        assert UnionOf(current) == {} && Elems(current) == {};
        FirstPickExists(v, g.E - (start + EdgesOf(current)));
      }
    }
  }
}
