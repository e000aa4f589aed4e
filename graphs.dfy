/** Finite simple undirected graphs over an arbitrary vertex type, with each
    edge represented as the set of its two endpoints, and the vocabulary
    shared by the clique catalog, the round builder and the verifier. */
module Graphs {

  /** A graph: its vertices and its edges; an edge is an unordered pair. */
  datatype Graph<T(==)> = Graph(V: set<T>, E: set<set<T>>)

  /** Every edge joins two distinct vertices of the graph: no self-loops and no
      edge that names a vertex outside `V`. */
  ghost predicate WellFormed<T>(g: Graph<T>) {
    forall e :: e in g.E ==> e <= g.V && |e| == 2
  }

  /** The elements of a sequence, as a set. */
  function Elems<X(==)>(s: seq<X>): (r: set<X>) {
    set x | x in s
  }

  /** The first index at which `x` occurs in `s`. */
  ghost function IndexOf<X>(s: seq<X>, x: X): (i: nat)
    requires x in s
    ensures i < |s| && s[i] == x
    decreases |s|
  {
    if s[0] == x then 0 else assert x in s[1..]; 1 + IndexOf(s[1..], x)
  }

  /** No element occurs twice. */
  predicate Distinct<X(==)>(s: seq<X>) {
    forall i, j :: 0 <= i < j < |s| ==> s[i] != s[j]
  }

  /** Every two distinct members of `vs` are joined by an edge of `g`. */
  predicate Complete<T(==)>(g: Graph<T>, vs: set<T>) {
    forall a, b :: a in vs && b in vs && a != b ==> {a, b} in g.E
  }

  /** A set of vertices of `g` that are pairwise adjacent (a singleton is one). */
  ghost predicate IsClique<T>(g: Graph<T>, c: set<T>) {
    c <= g.V && Complete(g, c)
  }

  /** All unordered pairs of distinct members of `c`: the edges a clique on `c` has. */
  ghost function Edges<T>(c: set<T>): (r: set<set<T>>) {
    set a, b | a in c && b in c && a != b :: {a, b}
  }

  /** The union of a sequence of vertex sets. */
  function UnionOf<T(==)>(s: seq<set<T>>): (r: set<T>) {
    if s == [] then {} else UnionOf(s[..|s| - 1]) + s[|s| - 1]
  }

  /** The union of the pairs of every set in a sequence. */
  ghost function EdgesOf<T>(s: seq<set<T>>): (r: set<set<T>>) {
    if s == [] then {} else EdgesOf(s[..|s| - 1]) + Edges(s[|s| - 1])
  }

  /** Concatenation of a sequence of sequences, in order. */
  function Flatten<X>(rounds: seq<seq<X>>): (r: seq<X>) {
    if rounds == [] then [] else Flatten(rounds[..|rounds| - 1]) + rounds[|rounds| - 1]
  }

  /** `round` splits `V` into pairwise disjoint parts. */
  ghost predicate IsPartition<T>(V: set<T>, round: seq<set<T>>) {
    && (forall p, q :: 0 <= p < q < |round| ==> round[p] !! round[q])
    && UnionOf(round) == V
  }

  /** A set of two elements is the pair of two distinct values. */
  lemma PairShape<T>(e: set<T>)
    requires |e| == 2
    ensures exists a, b :: a != b && e == {a, b}
  {
    var a :| a in e;
    var rest := e - {a};
    assert |rest| == 1;
    var b :| b in rest;
    assert rest - {b} == {} by {
      assert |rest - {b}| == 0;
    }
    assert e == {a, b};
  }

  /** The pairs of `c` are exactly its two-element subsets. */
  lemma EdgesMembership<T>(c: set<T>, e: set<T>)
    ensures e in Edges(c) <==> e <= c && |e| == 2
  {
    if e in Edges(c) {
      var a, b :| a in c && b in c && a != b && e == {a, b};
      assert {a, b} == {a} + {b};
    }
    if e <= c && |e| == 2 {
      PairShape(e);
      var a, b :| a != b && e == {a, b};
      assert a in c && b in c;
    }
  }

  /** The pairs of a one-set sequence are the pairs of that set. */
  lemma EdgesOfSingle<T>(c: set<T>)
    ensures EdgesOf([c]) == Edges(c)
  {
    assert [c][..0] == [];
  }

  lemma UnionOfAppend<T>(s: seq<set<T>>, c: set<T>)
    ensures UnionOf(s + [c]) == UnionOf(s) + c
  {
    assert (s + [c])[..|s|] == s;
  }

  lemma EdgesOfAppend<T>(s: seq<set<T>>, c: set<T>)
    ensures EdgesOf(s + [c]) == EdgesOf(s) + Edges(c)
  {
    assert (s + [c])[..|s|] == s;
  }

  lemma {:induction false} EdgesOfConcat<T>(s: seq<set<T>>, t: seq<set<T>>)
    ensures EdgesOf(s + t) == EdgesOf(s) + EdgesOf(t)
    decreases |t|
  {
    if t == [] {
      assert s + t == s;
    } else {
      var init := t[..|t| - 1];
      assert s + t == (s + init) + [t[|t| - 1]];
      EdgesOfAppend(s + init, t[|t| - 1]);
      EdgesOfConcat(s, init);
    }
  }

  /** Every pair of the union comes from some set of the sequence. */
  lemma {:induction false} EdgesOfSource<T>(s: seq<set<T>>, e: set<T>)
    requires e in EdgesOf(s)
    ensures exists i :: 0 <= i < |s| && e in Edges(s[i])
    decreases |s|
  {
    var n := |s| - 1;
    if e !in Edges(s[n]) {
      EdgesOfSource(s[..n], e);
      var i :| 0 <= i < n && e in Edges(s[..n][i]);
      assert s[..n][i] == s[i];
    }
  }

  /** The pairs of each set of the sequence belong to the union. */
  lemma {:induction false} EdgesOfContains<T>(s: seq<set<T>>, i: nat)
    requires i < |s|
    ensures Edges(s[i]) <= EdgesOf(s)
    decreases |s|
  {
    var n := |s| - 1;
    if i < n {
      EdgesOfContains(s[..n], i);
      assert s[..n][i] == s[i];
    }
  }

  lemma FlattenAppend<X>(rounds: seq<seq<X>>, round: seq<X>)
    ensures Flatten(rounds + [round]) == Flatten(rounds) + round
  {
    assert (rounds + [round])[..|rounds|] == rounds;
  }

  /** Every member of every inner sequence occurs in the flattening. */
  lemma {:induction false} FlattenMember<X>(rounds: seq<seq<X>>, r: nat, q: nat)
    requires r < |rounds| && q < |rounds[r]|
    ensures rounds[r][q] in Flatten(rounds)
    decreases |rounds|
  {
    var n := |rounds| - 1;
    if r < n {
      FlattenMember(rounds[..n], r, q);
    } else {
      assert Flatten(rounds) == Flatten(rounds[..n]) + rounds[n];
      assert rounds[r][q] == Flatten(rounds)[|Flatten(rounds[..n])| + q];
    }
  }

  /** Every member of the flattening comes from some inner sequence. */
  lemma {:induction false} FlattenSource<X>(rounds: seq<seq<X>>, x: X)
    requires x in Flatten(rounds)
    ensures exists r, q :: 0 <= r < |rounds| && 0 <= q < |rounds[r]| && rounds[r][q] == x
    decreases |rounds|
  {
    var n := |rounds| - 1;
    var init := rounds[..n];
    assert Flatten(rounds) == Flatten(init) + rounds[n];
    if x in Flatten(init) {
      FlattenSource(init, x);
      var r, q :| 0 <= r < |init| && 0 <= q < |init[r]| && init[r][q] == x;
      assert rounds[r] == init[r];
    } else {
      var q :| 0 <= q < |rounds[n]| && rounds[n][q] == x;
    }
  }

  /** A two-element set has itself as its only pair. */
  lemma PairEdges<T>(a: T, b: T)
    requires a != b
    ensures Edges({a, b}) == {{a, b}}
  {
    var c := {a, b};
    forall e: set<T>
      ensures e in Edges(c) <==> e == c
    {
      EdgesMembership(c, e);
      if e <= c && |e| == 2 {
        PairShape(e);
        var x, y :| x != y && e == {x, y};
        assert x in c && y in c;
        if x == a { assert y == b; } else { assert x == b && y == a; }
      }
      if e == c {
        assert |c| == 2;
      }
    }
  }

  /** A one-element set has no pairs. */
  lemma SingletonEdges<T>(a: T)
    ensures Edges({a}) == {}
  {
    forall e: set<T>
      ensures e !in Edges({a})
    {
      EdgesMembership({a}, e);
      if e <= {a} {
        SubsetSize(e, {a});
      }
    }
  }

  /** The pairs that join `x` to a member of `s`. */
  ghost function Star<T>(x: T, s: set<T>): (r: set<set<T>>) {
    set y | y in s :: {x, y}
  }

  /** Joining `x` to each member of a set that does not hold it gives one
      distinct pair per member. */
  lemma {:induction false} StarSize<T>(x: T, s: set<T>)
    requires x !in s
    ensures |Star(x, s)| == |s|
    decreases |s|
  {
    if s != {} {
      var y :| y in s;
      var rest := s - {y};
      StarSize(x, rest);
      assert Star(x, s) == Star(x, rest) + {{x, y}};
      forall z | z in rest
        ensures {x, z} != {x, y}
      {
        assert y !in {x, z};
      }
    }
  }

  /** The pairs of `rest` plus `x` are those of `rest` and, apart from them,
      the pairs joining `x` to `rest`. */
  lemma EdgesAdd<T>(x: T, rest: set<T>)
    requires x !in rest
    ensures Edges(rest + {x}) == Edges(rest) + Star(x, rest)
    ensures Edges(rest) !! Star(x, rest)
  {
    var c := rest + {x};
    forall e
      ensures e in Edges(c) <==> e in Edges(rest) + Star(x, rest)
    {
      if e in Edges(c) {
        var a, b :| a in c && b in c && a != b && e == {a, b};
        if b == x {
          assert e == {x, a};
        }
      }
    }
    forall e | e in Star(x, rest)
      ensures e !in Edges(rest)
    {
      EdgesMembership(rest, e);
    }
  }

  /** A set of `n` elements has `n(n-1)/2` pairs. */
  lemma {:induction false} EdgesCount<T>(c: set<T>)
    ensures 2 * |Edges(c)| == |c| * (|c| - 1)
    decreases |c|
  {
    if c == {} {
      assert Edges(c) == {};
    } else {
      var x :| x in c;
      var rest := c - {x};
      assert c == rest + {x};
      EdgesCount(rest);
      StarSize(x, rest);
      EdgesAdd(x, rest);
      PairCountStep(|rest|, |Edges(rest)|, |c|, |Edges(c)|);
    }
  }

  /** Adding one element to a set of `n` adds `n` pairs to its `n(n-1)/2`. */
  lemma PairCountStep(n: int, m: int, k: int, p: int)
    requires 2 * m == n * (n - 1)
    requires k == n + 1 && p == m + n
    ensures 2 * p == k * (k - 1)
  {
    assert n * (n - 1) + 2 * n == (n + 1) * n;
  }

  /** For a subset, equal size means equal set. */
  lemma SubsetSize<X>(a: set<X>, b: set<X>)
    requires a <= b
    ensures |a| <= |b|
    ensures |a| == |b| <==> a == b
    ensures a != b ==> b - a != {}
  {
    assert b == a + (b - a);
    assert a !! (b - a);
    if a != b {
      var x :| x in b - a;
    }
  }
}
