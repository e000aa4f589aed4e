/** The greedy round builder. Rounds are built until every edge of the graph
    lies inside some chosen clique; each round adds catalog cliques that are
    disjoint from the round so far until the round holds every vertex,
    preferring the largest clique that still covers a missing edge and
    otherwise the largest one not yet used in the round. */
module Covering {
  import opened Graphs
  import opened SizeSort
  import opened Catalog
  import opened Verification

  datatype Option<X> = None | Some(value: X)

  /** The rounds built, or the failure raised when no catalog clique fits into
      the round being built. */
  datatype CoverResult<T> = Covering(rounds: seq<seq<set<T>>>) | NoSuitableClique

  /** Some pair in the list `ce` is still missing from the cover. */
  predicate CoversMissing<T(==)>(ce: seq<set<T>>, missing: set<set<T>>) {
    exists e :: e in ce && e in missing
  }

  /** Catalog entry `i` covers a missing edge and shares no vertex with the round so far. */
  predicate IsPriority<T(==)>(cat: seq<set<T>>, ce: seq<seq<set<T>>>, missing: set<set<T>>, vertices: set<T>, i: int)
    requires |cat| == |ce|
  {
    0 <= i < |cat| && CoversMissing(ce[i], missing) && cat[i] !! vertices
  }

  /** Catalog entry `i` is not yet used in this round and shares no vertex with it. */
  predicate IsFallback<T(==)>(cat: seq<set<T>>, used: set<set<T>>, vertices: set<T>, i: int) {
    0 <= i < |cat| && cat[i] !in used && cat[i] !! vertices
  }

  /** `x` is a priority entry of the catalog. */
  ghost predicate PriorityEntry<T>(cat: seq<set<T>>, ce: seq<seq<set<T>>>, missing: set<set<T>>, vertices: set<T>, x: set<T>)
    requires |cat| == |ce|
  {
    exists i :: IsPriority(cat, ce, missing, vertices, i) && cat[i] == x
  }

  /** `x` is a fallback entry of the catalog. */
  ghost predicate FallbackEntry<T>(cat: seq<set<T>>, used: set<set<T>>, vertices: set<T>, x: set<T>) {
    exists i :: IsFallback(cat, used, vertices, i) && cat[i] == x
  }

  /** The elements of `s` whose flag in `keep` is set, in order. */
  function Select<X>(s: seq<X>, keep: seq<bool>): (r: seq<X>)
    requires |keep| == |s|
    decreases |s|
  {
    if s == [] then [] else (if keep[0] then [s[0]] else []) + Select(s[1..], keep[1..])
  }

  /** The kept index whose element is the `p`-th selected one. */
  ghost function SourceIndex<X>(s: seq<X>, keep: seq<bool>, p: nat): (i: nat)
    requires |keep| == |s| && p < |Select(s, keep)|
    ensures i < |s| && keep[i] && s[i] == Select(s, keep)[p]
    decreases |s|
  {
    var head := if keep[0] then [s[0]] else [];
    assert Select(s, keep) == head + Select(s[1..], keep[1..]);
    if p < |head| then 0 else 1 + SourceIndex(s[1..], keep[1..], p - |head|)
  }

  /** The position in the selection of the element at the kept index `i`. */
  ghost function SelectedIndex<X>(s: seq<X>, keep: seq<bool>, i: nat): (p: nat)
    requires |keep| == |s| && i < |s| && keep[i]
    ensures p < |Select(s, keep)| && Select(s, keep)[p] == s[i]
    decreases |s|
  {
    var head := if keep[0] then [s[0]] else [];
    assert Select(s, keep) == head + Select(s[1..], keep[1..]);
    if i == 0 then 0 else |head| + SelectedIndex(s[1..], keep[1..], i - 1)
  }

  /** The first selected element is the one at the first set flag. */
  lemma {:induction false} SelectFirst<X>(s: seq<X>, keep: seq<bool>, j: nat)
    requires |keep| == |s|
    requires j < |s| && keep[j]
    requires forall i :: 0 <= i < j ==> !keep[i]
    ensures Select(s, keep) != [] && Select(s, keep)[0] == s[j]
    decreases |s|
  {
    if j > 0 {
      SelectFirst(s[1..], keep[1..], j - 1);
    }
  }

  /** Selecting from a sequence sorted by size keeps it sorted. */
  lemma {:induction false} SelectSorted<T>(s: seq<set<T>>, keep: seq<bool>)
    requires |keep| == |s|
    requires SortedBySize(s)
    ensures SortedBySize(Select(s, keep))
    decreases |s|
  {
    if s != [] {
      var tail := Select(s[1..], keep[1..]);
      SelectSorted(s[1..], keep[1..]);
      forall p | 0 <= p < |tail|
        ensures |tail[p]| <= |s[0]|
      {
        var i := SourceIndex(s[1..], keep[1..], p);
        assert s[i + 1] == tail[p];
      }
    }
  }

  function PriorityMask<T(==)>(cat: seq<set<T>>, ce: seq<seq<set<T>>>, missing: set<set<T>>, vertices: set<T>): (r: seq<bool>)
    requires |cat| == |ce|
  {
    seq(|cat|, i requires 0 <= i < |cat| => IsPriority(cat, ce, missing, vertices, i))
  }

  function FallbackMask<T(==)>(cat: seq<set<T>>, used: set<set<T>>, vertices: set<T>): (r: seq<bool>) {
    seq(|cat|, i requires 0 <= i < |cat| => IsFallback(cat, used, vertices, i))
  }

  /** `x` is the element at some kept index of `s`. */
  ghost predicate KeptEntry<X>(s: seq<X>, keep: seq<bool>, x: X)
    requires |keep| == |s|
  {
    exists i :: 0 <= i < |s| && keep[i] && s[i] == x
  }

  /** The kept index whose element is the `p`-th of the sorted selection. */
  ghost function SortedSource<T>(s: seq<set<T>>, keep: seq<bool>, p: nat): (i: nat)
    requires |keep| == |s| && p < |SortBySize(Select(s, keep))|
    ensures i < |s| && keep[i] && s[i] == SortBySize(Select(s, keep))[p]
  {
    var chosen := Select(s, keep);
    var r := SortBySize(chosen);
    SortBySizeSorted(chosen);
    EntryFrom(chosen, r, p);
    SourceIndex(s, keep, IndexOf(chosen, r[p]))
  }

  /** Sorting the selected elements neither adds nor drops one: every entry of
      the sorted selection sits at a kept index, and every kept element is in it. */
  lemma SortedSelection<T>(s: seq<set<T>>, keep: seq<bool>)
    requires |keep| == |s|
    ensures forall p :: 0 <= p < |SortBySize(Select(s, keep))| ==> KeptEntry(s, keep, SortBySize(Select(s, keep))[p])
    ensures forall i :: 0 <= i < |s| && keep[i] ==> s[i] in SortBySize(Select(s, keep))
  {
    var chosen := Select(s, keep);
    var r := SortBySize(chosen);
    forall p | 0 <= p < |r|
      ensures KeptEntry(s, keep, r[p])
    {
      var i := SortedSource(s, keep, p);
    }
    forall i | 0 <= i < |s| && keep[i]
      ensures s[i] in r
    {
      SortBySizeSorted(chosen);
      EntryKept(chosen, r, SelectedIndex(s, keep, i));
    }
  }

  /** The catalog entries that cover a missing edge and are disjoint from the
      round so far, largest first. */
  function PriorityCandidates<T(==)>(cat: seq<set<T>>, ce: seq<seq<set<T>>>, missing: set<set<T>>, vertices: set<T>): (r: seq<set<T>>)
    requires |cat| == |ce|
  {
    SortBySize(Select(cat, PriorityMask(cat, ce, missing, vertices)))
  }

  /** The priority candidates are exactly the priority entries of the catalog. */
  lemma PriorityCandidatesExact<T>(cat: seq<set<T>>, ce: seq<seq<set<T>>>, missing: set<set<T>>, vertices: set<T>)
    requires |cat| == |ce|
    ensures forall p :: 0 <= p < |PriorityCandidates(cat, ce, missing, vertices)| ==>
      PriorityEntry(cat, ce, missing, vertices, PriorityCandidates(cat, ce, missing, vertices)[p])
    ensures |PriorityCandidates(cat, ce, missing, vertices)| > 0 ==>
      PriorityEntry(cat, ce, missing, vertices, PriorityCandidates(cat, ce, missing, vertices)[0])
    ensures forall i :: IsPriority(cat, ce, missing, vertices, i) ==> cat[i] in PriorityCandidates(cat, ce, missing, vertices)
    ensures SortedBySize(PriorityCandidates(cat, ce, missing, vertices))
  {
    var mask := PriorityMask(cat, ce, missing, vertices);
    SortedSelection(cat, mask);
    SortBySizeSorted(Select(cat, mask));
    assert PriorityCandidates(cat, ce, missing, vertices) == SortBySize(Select(cat, mask));
  }

  /** The catalog entries not yet used in this round and disjoint from it,
      largest first. */
  function FallbackCandidates<T(==)>(cat: seq<set<T>>, used: set<set<T>>, vertices: set<T>): (r: seq<set<T>>)
  {
    SortBySize(Select(cat, FallbackMask(cat, used, vertices)))
  }

  /** The fallback candidates are exactly the fallback entries of the catalog. */
  lemma FallbackCandidatesExact<T>(cat: seq<set<T>>, used: set<set<T>>, vertices: set<T>)
    ensures forall p :: 0 <= p < |FallbackCandidates(cat, used, vertices)| ==>
      FallbackEntry(cat, used, vertices, FallbackCandidates(cat, used, vertices)[p])
    ensures |FallbackCandidates(cat, used, vertices)| > 0 ==>
      FallbackEntry(cat, used, vertices, FallbackCandidates(cat, used, vertices)[0])
    ensures forall i :: IsFallback(cat, used, vertices, i) ==> cat[i] in FallbackCandidates(cat, used, vertices)
    ensures SortedBySize(FallbackCandidates(cat, used, vertices))
  {
    var mask := FallbackMask(cat, used, vertices);
    SortedSelection(cat, mask);
    SortBySizeSorted(Select(cat, mask));
    assert FallbackCandidates(cat, used, vertices) == SortBySize(Select(cat, mask));
  }

  /** The clique the round builder adds next, given the missing edges, the
      vertices already in the round and the cliques already used in it; None
      when no catalog clique fits. */
  function Pick<T(==)>(cat: seq<set<T>>, ce: seq<seq<set<T>>>, missing: set<set<T>>, vertices: set<T>, used: set<set<T>>): (r: Option<set<T>>)
    requires |cat| == |ce|
  {
    var priority := PriorityCandidates(cat, ce, missing, vertices);
    if |priority| > 0 then Some(priority[0])
    else
      var fallback := FallbackCandidates(cat, used, vertices);
      if |fallback| > 0 then Some(fallback[0]) else None
  }

  /** The selection rule when some clique disjoint from the round covers a
      missing edge: over a catalog sorted by size, the first such entry is the
      pick, and none of them is larger. */
  lemma PickPriority<T>(cat: seq<set<T>>, ce: seq<seq<set<T>>>, missing: set<set<T>>, vertices: set<T>, used: set<set<T>>, j: nat)
    requires |cat| == |ce|
    requires SortedBySize(cat)
    requires IsPriority(cat, ce, missing, vertices, j)
    requires forall i :: 0 <= i < j ==> !IsPriority(cat, ce, missing, vertices, i)
    ensures Pick(cat, ce, missing, vertices, used) == Some(cat[j])
    ensures forall i :: IsPriority(cat, ce, missing, vertices, i) ==> |cat[i]| <= |cat[j]|
  {
    var mask := PriorityMask(cat, ce, missing, vertices);
    SelectSorted(cat, mask);
    SortedUnchanged(Select(cat, mask));
    SelectFirst(cat, mask, j);
  }

  /** The selection rule when no disjoint clique covers a missing edge: over a
      catalog sorted by size, the first disjoint entry not yet used in the
      round is the pick, and none of those is larger. */
  lemma PickFallback<T>(cat: seq<set<T>>, ce: seq<seq<set<T>>>, missing: set<set<T>>, vertices: set<T>, used: set<set<T>>, j: nat)
    requires |cat| == |ce|
    requires SortedBySize(cat)
    requires forall i :: !IsPriority(cat, ce, missing, vertices, i)
    requires IsFallback(cat, used, vertices, j)
    requires forall i :: 0 <= i < j ==> !IsFallback(cat, used, vertices, i)
    ensures Pick(cat, ce, missing, vertices, used) == Some(cat[j])
    ensures forall i :: IsFallback(cat, used, vertices, i) ==> |cat[i]| <= |cat[j]|
  {
    PriorityCandidatesExact(cat, ce, missing, vertices);
    assert |PriorityCandidates(cat, ce, missing, vertices)| == 0;
    var mask := FallbackMask(cat, used, vertices);
    SelectSorted(cat, mask);
    SortedUnchanged(Select(cat, mask));
    SelectFirst(cat, mask, j);
  }

  /** There is no pick exactly when no catalog entry is a priority or a
      fallback candidate. */
  lemma PickNone<T>(cat: seq<set<T>>, ce: seq<seq<set<T>>>, missing: set<set<T>>, vertices: set<T>, used: set<set<T>>)
    requires |cat| == |ce|
    ensures Pick(cat, ce, missing, vertices, used).None? <==>
      forall i :: !IsPriority(cat, ce, missing, vertices, i) && !IsFallback(cat, used, vertices, i)
  {
    var priority := PriorityCandidates(cat, ce, missing, vertices);
    var fallback := FallbackCandidates(cat, used, vertices);
    PriorityCandidatesExact(cat, ce, missing, vertices);
    FallbackCandidatesExact(cat, used, vertices);
    if |priority| > 0 {
      assert priority[0] in priority;
      var i :| IsPriority(cat, ce, missing, vertices, i) && cat[i] == priority[0];
    } else if |fallback| > 0 {
      var i :| IsFallback(cat, used, vertices, i) && cat[i] == fallback[0];
    }
  }

  /** What a pick is: a catalog entry disjoint from the round so far, and a
      priority entry whenever there is one. */
  lemma PickSound<T>(cat: seq<set<T>>, ce: seq<seq<set<T>>>, missing: set<set<T>>, vertices: set<T>, used: set<set<T>>, c: set<T>)
    requires |cat| == |ce|
    requires Pick(cat, ce, missing, vertices, used) == Some(c)
    ensures exists i :: 0 <= i < |cat| && cat[i] == c
    ensures c !! vertices
    ensures |PriorityCandidates(cat, ce, missing, vertices)| > 0 ==>
      exists i :: IsPriority(cat, ce, missing, vertices, i) && cat[i] == c
  {
    var priority := PriorityCandidates(cat, ce, missing, vertices);
    PriorityCandidatesExact(cat, ce, missing, vertices);
    FallbackCandidatesExact(cat, used, vertices);
    if |priority| > 0 {
      var i :| IsPriority(cat, ce, missing, vertices, i) && cat[i] == priority[0];
    } else {
      var fallback := FallbackCandidates(cat, used, vertices);
      var i :| IsFallback(cat, used, vertices, i) && cat[i] == fallback[0];
    }
  }

  /** The `k`-th clique of `round` is the one `Pick` chooses after the cliques
      before it, starting from the covered edges `start`, while the round does
      not yet hold as many vertices as the graph. */
  ghost predicate PickedAt<T>(g: Graph<T>, cat: seq<set<T>>, ce: seq<seq<set<T>>>, start: set<set<T>>, round: seq<set<T>>, k: nat)
    requires |cat| == |ce| && k < |round|
  {
    var before := round[..k];
    && |UnionOf(before)| != |g.V|
    && Pick(cat, ce, g.E - (start + EdgesOf(before)), UnionOf(before), Elems(before)) == Some(round[k])
  }

  /** `round` is exactly what the inner loop builds from the covered edges `start`. */
  ghost predicate GreedyRound<T>(g: Graph<T>, cat: seq<set<T>>, ce: seq<seq<set<T>>>, start: set<set<T>>, round: seq<set<T>>)
    requires |cat| == |ce|
  {
    && (forall k :: 0 <= k < |round| ==> PickedAt(g, cat, ce, start, round, k))
    && |UnionOf(round)| == |g.V|
  }

  /** Round `r` of `rounds` was started with some edge missing and is what the
      inner loop builds from the edges the earlier rounds cover. */
  ghost predicate RoundAt<T>(g: Graph<T>, cat: seq<set<T>>, ce: seq<seq<set<T>>>, rounds: seq<seq<set<T>>>, r: nat)
    requires |cat| == |ce| && r < |rounds|
  {
    var start := EdgesOf(Flatten(rounds[..r]));
    |start| != |g.E| && GreedyRound(g, cat, ce, start, rounds[r])
  }

  /** `rounds` is exactly what the outer loop builds: every round is the greedy
      round from the edges covered before it, and it stops once the covered
      edges are as many as the graph's. */
  ghost predicate GreedyCovering<T>(g: Graph<T>, cat: seq<set<T>>, ce: seq<seq<set<T>>>, rounds: seq<seq<set<T>>>)
    requires |cat| == |ce|
  {
    && (forall r :: 0 <= r < |rounds| ==> RoundAt(g, cat, ce, rounds, r))
    && |EdgesOf(Flatten(rounds))| == |g.E|
  }

  /** Where the builder fails: after the greedy rounds `rounds`, with some edge
      still missing, the greedy partial round `current` does not yet hold as
      many vertices as the graph and there is no pick. */
  ghost predicate GreedyStuck<T>(g: Graph<T>, cat: seq<set<T>>, ce: seq<seq<set<T>>>, rounds: seq<seq<set<T>>>, current: seq<set<T>>)
    requires |cat| == |ce|
  {
    var start := EdgesOf(Flatten(rounds));
    && (forall r :: 0 <= r < |rounds| ==> RoundAt(g, cat, ce, rounds, r))
    && |start| != |g.E|
    && (forall k :: 0 <= k < |current| ==> PickedAt(g, cat, ce, start, current, k))
    && |UnionOf(current)| != |g.V|
    && Pick(cat, ce, g.E - (start + EdgesOf(current)), UnionOf(current), Elems(current)) == None
  }

  /** One pair list per catalog entry, holding exactly the entry's pairs. */
  ghost predicate PairLists<T>(cat: seq<set<T>>, ce: seq<seq<set<T>>>) {
    |cat| == |ce| && forall i :: 0 <= i < |cat| ==> Elems(ce[i]) == Edges(cat[i])
  }

  /** Every catalog entry is a non-empty clique of `g`. */
  ghost predicate CliqueEntries<T>(g: Graph<T>, cat: seq<set<T>>) {
    forall i :: 0 <= i < |cat| ==> cat[i] != {} && IsClique(g, cat[i])
  }

  /** Every edge of `g` lies inside some catalog entry. */
  ghost predicate EdgesInside<T>(g: Graph<T>, cat: seq<set<T>>) {
    g.E <= EdgesOf(cat)
  }

  /** Every catalog entry is a non-empty set of vertices whose pairs are edges. */
  ghost predicate EntriesInside<T>(g: Graph<T>, cat: seq<set<T>>) {
    forall i :: 0 <= i < |cat| ==> cat[i] != {} && cat[i] <= g.V && Edges(cat[i]) <= g.E
  }

  /** Two greedy partial rounds from the same covered edges agree on their
      first `k` cliques. */
  lemma {:induction false} PicksAgree<T>(g: Graph<T>, cat: seq<set<T>>, ce: seq<seq<set<T>>>, start: set<set<T>>,
                                        r1: seq<set<T>>, r2: seq<set<T>>, k: nat)
    requires |cat| == |ce|
    requires forall j :: 0 <= j < |r1| ==> PickedAt(g, cat, ce, start, r1, j)
    requires forall j :: 0 <= j < |r2| ==> PickedAt(g, cat, ce, start, r2, j)
    requires k <= |r1| && k <= |r2|
    ensures r1[..k] == r2[..k]
    decreases k
  {
    if k > 0 {
      PicksAgree(g, cat, ce, start, r1, r2, k - 1);
      NextPickAgrees(g, cat, ce, start, r1, r2, k - 1);
    }
  }

  /** Greedy partial rounds that agree on their first `k` cliques agree on
      the next one too. */
  lemma NextPickAgrees<T>(g: Graph<T>, cat: seq<set<T>>, ce: seq<seq<set<T>>>, start: set<set<T>>,
                          r1: seq<set<T>>, r2: seq<set<T>>, k: nat)
    requires |cat| == |ce| && k < |r1| && k < |r2|
    requires r1[..k] == r2[..k]
    requires PickedAt(g, cat, ce, start, r1, k) && PickedAt(g, cat, ce, start, r2, k)
    ensures r1[..k + 1] == r2[..k + 1]
  {
    var before := r1[..k];
    var next := Pick(cat, ce, g.E - (start + EdgesOf(before)), UnionOf(before), Elems(before));
    assert next == Some(r1[k]) && next == Some(r2[k]);
    PrefixStep(r1, r2, k);
  }

  /** Sequences that agree on their first `k` elements and on the next one
      agree on their first `k + 1`. */
  lemma PrefixStep<X>(r1: seq<X>, r2: seq<X>, k: nat)
    requires k < |r1| && k < |r2|
    requires r1[..k] == r2[..k] && r1[k] == r2[k]
    ensures r1[..k + 1] == r2[..k + 1]
  {
    assert r1[..k + 1] == r1[..k] + [r1[k]];
    assert r2[..k + 1] == r2[..k] + [r2[k]];
  }

  /** A greedy partial round goes on only while its vertices are fewer than
      the graph's. */
  lemma PicksContinue<T>(g: Graph<T>, cat: seq<set<T>>, ce: seq<seq<set<T>>>, start: set<set<T>>, r: seq<set<T>>, m: nat)
    requires |cat| == |ce|
    requires forall k :: 0 <= k < |r| ==> PickedAt(g, cat, ce, start, r, k)
    ensures m < |r| ==> |UnionOf(r[..m])| != |g.V|
  {
    if m < |r| {
      assert PickedAt(g, cat, ce, start, r, m);
    }
  }

  /** The greedy round from given covered edges is unique. */
  lemma GreedyRoundUnique<T>(g: Graph<T>, cat: seq<set<T>>, ce: seq<seq<set<T>>>, start: set<set<T>>, r1: seq<set<T>>, r2: seq<set<T>>)
    requires |cat| == |ce|
    requires GreedyRound(g, cat, ce, start, r1) && GreedyRound(g, cat, ce, start, r2)
    ensures r1 == r2
  {
    var m := if |r1| < |r2| then |r1| else |r2|;
    PicksAgree(g, cat, ce, start, r1, r2, m);
    PicksContinue(g, cat, ce, start, r1, m);
    PicksContinue(g, cat, ce, start, r2, m);
    assert r1[..|r1|] == r1 && r2[..|r2|] == r2;
    assert |r1| == |r2|;
  }

  /** Two greedy sequences of rounds agree on their first `k` rounds. */
  lemma {:induction false} RoundsAgree<T>(g: Graph<T>, cat: seq<set<T>>, ce: seq<seq<set<T>>>,
                                         rs1: seq<seq<set<T>>>, rs2: seq<seq<set<T>>>, k: nat)
    requires |cat| == |ce|
    requires forall r :: 0 <= r < |rs1| ==> RoundAt(g, cat, ce, rs1, r)
    requires forall r :: 0 <= r < |rs2| ==> RoundAt(g, cat, ce, rs2, r)
    requires k <= |rs1| && k <= |rs2|
    ensures rs1[..k] == rs2[..k]
    decreases k
  {
    if k > 0 {
      RoundsAgree(g, cat, ce, rs1, rs2, k - 1);
      assert RoundAt(g, cat, ce, rs1, k - 1);
      assert RoundAt(g, cat, ce, rs2, k - 1);
      GreedyRoundUnique(g, cat, ce, EdgesOf(Flatten(rs1[..k - 1])), rs1[k - 1], rs2[k - 1]);
      PrefixStep(rs1, rs2, k - 1);
    }
  }

  /** The outer loop goes on only while the covered edges are fewer than the
      graph's. */
  lemma RoundsContinue<T>(g: Graph<T>, cat: seq<set<T>>, ce: seq<seq<set<T>>>, rounds: seq<seq<set<T>>>, m: nat)
    requires |cat| == |ce|
    requires forall r :: 0 <= r < |rounds| ==> RoundAt(g, cat, ce, rounds, r)
    ensures m < |rounds| ==> |EdgesOf(Flatten(rounds[..m]))| != |g.E|
  {
    if m < |rounds| {
      assert RoundAt(g, cat, ce, rounds, m);
    }
  }

  /** The greedy covering is unique: the builder's rounds are determined by
      the graph and the catalog. */
  lemma GreedyCoveringUnique<T>(g: Graph<T>, cat: seq<set<T>>, ce: seq<seq<set<T>>>, rs1: seq<seq<set<T>>>, rs2: seq<seq<set<T>>>)
    requires |cat| == |ce|
    requires GreedyCovering(g, cat, ce, rs1) && GreedyCovering(g, cat, ce, rs2)
    ensures rs1 == rs2
  {
    var m := if |rs1| < |rs2| then |rs1| else |rs2|;
    RoundsAgree(g, cat, ce, rs1, rs2, m);
    RoundsContinue(g, cat, ce, rs1, m);
    RoundsContinue(g, cat, ce, rs2, m);
    assert rs1[..|rs1|] == rs1 && rs2[..|rs2|] == rs2;
    assert |rs1| == |rs2|;
  }

  /** What the round builder needs of its catalog: one pair list per entry
      holding exactly the entry's pairs, every entry a non-empty set of vertices
      whose pairs are edges (a non-empty clique), and every edge inside some
      entry. */
  ghost predicate CatalogFits<T>(g: Graph<T>, cat: seq<set<T>>, ce: seq<seq<set<T>>>) {
    PairLists(cat, ce) && EntriesInside(g, cat) && EdgesInside(g, cat)
  }

  lemma CliqueEntriesInside<T>(g: Graph<T>, cat: seq<set<T>>)
    requires CliqueEntries(g, cat)
    ensures EntriesInside(g, cat)
  {
    forall i | 0 <= i < |cat|
      ensures cat[i] != {} && cat[i] <= g.V && Edges(cat[i]) <= g.E
    {
      CliquePairsAreEdges(g, cat[i]);
    }
  }

  /** The bookkeeping of the inner loop: `current` is a sequence of pairwise
      disjoint catalog cliques, and the other variables are its vertices, its
      cliques and the covered edges (those covered before the round, `start`,
      and the pairs of `current`); after the first pick some new edge is
      covered. */
  ghost predicate PartialRound<T>(g: Graph<T>, cat: seq<set<T>>, start: set<set<T>>,
                                  current: seq<set<T>>, edgesInCover: set<set<T>>, currentVertices: set<T>, cliquesUsed: set<set<T>>)
  {
    && currentVertices == UnionOf(current) && currentVertices <= g.V
    && cliquesUsed == Elems(current)
    && edgesInCover == start + EdgesOf(current) && edgesInCover <= g.E
    && (forall p, q :: 0 <= p < q < |current| ==> current[p] !! current[q])
    && (forall c :: c in current ==> c in cat)
    && (current != [] ==> start < edgesInCover)
  }

  /** The state of the inner loop: its bookkeeping, and every clique of
      `current` the greedy pick after the ones before it. */
  ghost predicate RoundState<T>(g: Graph<T>, cat: seq<set<T>>, ce: seq<seq<set<T>>>, start: set<set<T>>,
                                current: seq<set<T>>, edgesInCover: set<set<T>>, currentVertices: set<T>, cliquesUsed: set<set<T>>)
    requires |cat| == |ce|
  {
    && PartialRound(g, cat, start, current, edgesInCover, currentVertices, cliquesUsed)
    && (forall k :: 0 <= k < |current| ==> PickedAt(g, cat, ce, start, current, k))
  }

  /** The state of the outer loop: `res` is a sequence of greedy rounds, each
      a partition of the vertices into catalog cliques, that together cover
      the edges `edgesInCover`. */
  ghost predicate CoverState<T>(g: Graph<T>, cat: seq<set<T>>, ce: seq<seq<set<T>>>, res: seq<seq<set<T>>>, edgesInCover: set<set<T>>)
    requires |cat| == |ce|
  {
    && edgesInCover <= g.E
    && edgesInCover == EdgesOf(Flatten(res))
    && (forall round :: round in res ==> IsPartition(g.V, round) && forall c :: c in round ==> c in cat)
    && (forall r :: 0 <= r < |res| ==> RoundAt(g, cat, ce, res, r))
    && (g.E == {} ==> res == [])
  }

  lemma {:induction false} UnionOfContains<T>(s: seq<set<T>>, p: nat)
    requires p < |s|
    ensures s[p] <= UnionOf(s)
    decreases |s|
  {
    if p < |s| - 1 {
      UnionOfContains(s[..|s| - 1], p);
    }
  }

  /** The pairs of a clique are edges of the graph. */
  lemma CliquePairsAreEdges<T>(g: Graph<T>, c: set<T>)
    requires IsClique(g, c)
    ensures Edges(c) <= g.E
  {
    forall e | e in Edges(c)
      ensures e in g.E
    {
      var a, b :| a in c && b in c && a != b && e == {a, b};
    }
  }

  /** Appending the pick keeps every earlier step of the round a greedy pick
      and makes the new last step one. */
  lemma ExtendRound<T>(g: Graph<T>, cat: seq<set<T>>, ce: seq<seq<set<T>>>, start: set<set<T>>, current: seq<set<T>>, c: set<T>)
    requires |cat| == |ce|
    requires forall k :: 0 <= k < |current| ==> PickedAt(g, cat, ce, start, current, k)
    requires |UnionOf(current)| != |g.V|
    requires Pick(cat, ce, g.E - (start + EdgesOf(current)), UnionOf(current), Elems(current)) == Some(c)
    ensures forall k :: 0 <= k < |current| + 1 ==> PickedAt(g, cat, ce, start, current + [c], k)
  {
    var next := current + [c];
    forall k | 0 <= k < |next|
      ensures PickedAt(g, cat, ce, start, next, k)
    {
      if k < |current| {
        assert next[..k] == current[..k];
        assert PickedAt(g, cat, ce, start, current, k);
      } else {
        assert next[..k] == current;
      }
    }
  }

  /** Appending a finished greedy round keeps every earlier round greedy. */
  lemma ExtendCovering<T>(g: Graph<T>, cat: seq<set<T>>, ce: seq<seq<set<T>>>, res: seq<seq<set<T>>>, current: seq<set<T>>)
    requires |cat| == |ce|
    requires forall r :: 0 <= r < |res| ==> RoundAt(g, cat, ce, res, r)
    requires |EdgesOf(Flatten(res))| != |g.E|
    requires GreedyRound(g, cat, ce, EdgesOf(Flatten(res)), current)
    ensures forall r :: 0 <= r < |res| + 1 ==> RoundAt(g, cat, ce, res + [current], r)
  {
    var next := res + [current];
    forall r | 0 <= r < |next|
      ensures RoundAt(g, cat, ce, next, r)
    {
      if r < |res| {
        assert next[..r] == res[..r];
        assert RoundAt(g, cat, ce, res, r);
      } else {
        assert next[..r] == res;
      }
    }
  }

  /** With an edge still missing, the first pick of a round comes from the
      priority list, provided every edge lies inside some catalog clique. */
  lemma PriorityExists<T>(g: Graph<T>, cat: seq<set<T>>, ce: seq<seq<set<T>>>, missing: set<set<T>>)
    requires PairLists(cat, ce) && EdgesInside(g, cat)
    requires missing <= g.E && missing != {}
    ensures |PriorityCandidates(cat, ce, missing, {})| > 0
  {
    var e :| e in missing;
    EdgesOfSource(cat, e);
    var i :| 0 <= i < |cat| && e in Edges(cat[i]);
    assert e in Elems(ce[i]);
    assert IsPriority(cat, ce, missing, {}, i);
    PriorityCandidatesExact(cat, ce, missing, {});
  }

  /** When the catalog holds every singleton of the graph, an unfinished round
      always has an unused disjoint clique to fall back on. */
  lemma FallbackExists<T>(g: Graph<T>, cat: seq<set<T>>, current: seq<set<T>>)
    requires UnionOf(current) <= g.V
    requires |UnionOf(current)| != |g.V|
    ensures (forall v :: v in g.V ==> {v} in cat) ==> |FallbackCandidates(cat, Elems(current), UnionOf(current))| > 0
  {
    if forall v :: v in g.V ==> {v} in cat {
      SubsetSize(UnionOf(current), g.V);
      var v :| v in g.V - UnionOf(current);
      var i :| 0 <= i < |cat| && cat[i] == {v};
      forall c | c in current
        ensures c != {v}
      {
        var p :| 0 <= p < |current| && current[p] == c;
        UnionOfContains(current, p);
      }
      assert IsFallback(cat, Elems(current), UnionOf(current), i);
      FallbackCandidatesExact(cat, Elems(current), UnionOf(current));
    }
  }

  /** Appending a clique disjoint from the union keeps the parts pairwise disjoint. */
  lemma ExtendDisjoint<T>(current: seq<set<T>>, c: set<T>)
    requires forall p, q :: 0 <= p < q < |current| ==> current[p] !! current[q]
    requires c !! UnionOf(current)
    ensures forall p, q :: 0 <= p < q < |current| + 1 ==> (current + [c])[p] !! (current + [c])[q]
  {
    forall p | 0 <= p < |current|
      ensures current[p] !! c
    {
      UnionOfContains(current, p);
    }
  }

  /** The first pick of a round, made while some entry covers a missing
      edge, covers a missing edge. */
  lemma FirstPickCoversNew<T>(g: Graph<T>, cat: seq<set<T>>, ce: seq<seq<set<T>>>, start: set<set<T>>, c: set<T>)
    requires PairLists(cat, ce)
    requires |PriorityCandidates(cat, ce, g.E - start, {})| > 0
    requires Pick(cat, ce, g.E - start, {}, {}) == Some(c)
    ensures Edges(c) - start != {}
  {
    var missing := g.E - start;
    PickSound(cat, ce, missing, {}, {}, c);
    var i :| IsPriority(cat, ce, missing, {}, i) && cat[i] == c;
    var e :| e in ce[i] && e in missing;
    assert e in Elems(ce[i]);
    assert e in Edges(c) - start;
  }

  /** Adding a non-empty set of vertices disjoint from `vs` shrinks what is
      left of `V`. */
  lemma AddShrinks<T>(V: set<T>, vs: set<T>, c: set<T>)
    requires vs <= V && c <= V
    requires c != {} && c !! vs
    ensures V - (vs + c) < V - vs
  {
    var w :| w in c;
    assert w in (V - vs) - (V - (vs + c));
  }

  /** Adding a clique of the catalog that is disjoint from the round and whose
      pairs are edges keeps the bookkeeping of the inner loop. */
  lemma StepBookkeeping<T>(g: Graph<T>, cat: seq<set<T>>, start: set<set<T>>,
                           current: seq<set<T>>, edgesInCover: set<set<T>>, currentVertices: set<T>, cliquesUsed: set<set<T>>,
                           c: set<T>, newEdges: seq<set<T>>)
    requires PartialRound(g, cat, start, current, edgesInCover, currentVertices, cliquesUsed)
    requires c in cat && c <= g.V && Edges(c) <= g.E && c !! currentVertices
    requires Elems(newEdges) == Edges(c)
    requires current == [] ==> Edges(c) - start != {}
    ensures PartialRound(g, cat, start, current + [c], edgesInCover + Elems(newEdges), currentVertices + c, cliquesUsed + {c})
  {
    ExtendDisjoint(current, c);
    UnionOfAppend(current, c);
    EdgesOfAppend(current, c);
    assert Elems(current + [c]) == Elems(current) + {c};
  }

  /** One step of the inner loop: adding the pick and its pairs keeps the
      round's state and adds at least one vertex. */
  lemma RoundStep<T>(g: Graph<T>, cat: seq<set<T>>, ce: seq<seq<set<T>>>, start: set<set<T>>,
                     current: seq<set<T>>, edgesInCover: set<set<T>>, currentVertices: set<T>, cliquesUsed: set<set<T>>,
                     c: set<T>, newEdges: seq<set<T>>)
    requires PairLists(cat, ce) && EntriesInside(g, cat)
    requires |PriorityCandidates(cat, ce, g.E - start, {})| > 0
    requires RoundState(g, cat, ce, start, current, edgesInCover, currentVertices, cliquesUsed)
    requires |currentVertices| != |g.V|
    requires Pick(cat, ce, g.E - edgesInCover, currentVertices, cliquesUsed) == Some(c)
    requires Elems(newEdges) == Edges(c)
    ensures RoundState(g, cat, ce, start, current + [c], edgesInCover + Elems(newEdges), currentVertices + c, cliquesUsed + {c})
    ensures g.V - (currentVertices + c) < g.V - currentVertices
  {
    PickSound(cat, ce, g.E - edgesInCover, currentVertices, cliquesUsed, c);
    var i :| 0 <= i < |cat| && cat[i] == c;
    assert c in cat && c != {} && c <= g.V && Edges(c) <= g.E;
    if current == [] {
      FirstPickCoversNew(g, cat, ce, start, c);
    }
    StepBookkeeping(g, cat, start, current, edgesInCover, currentVertices, cliquesUsed, c, newEdges);
    ExtendRound(g, cat, ce, start, current, c);
    AddShrinks(g.V, currentVertices, c);
  }

  /** A round that finds neither a priority nor a fallback candidate is where
      the greedy builder gets stuck, and then the catalog misses the singleton
      of some vertex. */
  lemma RoundStuck<T>(g: Graph<T>, cat: seq<set<T>>, ce: seq<seq<set<T>>>, res: seq<seq<set<T>>>, start: set<set<T>>,
                      current: seq<set<T>>, edgesInCover: set<set<T>>, currentVertices: set<T>, cliquesUsed: set<set<T>>)
    requires |cat| == |ce|
    requires CoverState(g, cat, ce, res, start) && |start| != |g.E|
    requires RoundState(g, cat, ce, start, current, edgesInCover, currentVertices, cliquesUsed)
    requires |currentVertices| != |g.V|
    requires |PriorityCandidates(cat, ce, g.E - edgesInCover, currentVertices)| == 0
    requires |FallbackCandidates(cat, cliquesUsed, currentVertices)| == 0
    ensures GreedyStuck(g, cat, ce, res, current)
    ensures !forall v :: v in g.V ==> {v} in cat
  {
    FallbackExists(g, cat, current);
  }

  /** The end of a round: the finished round is a partition and a greedy
      round, and the covered edges have grown. */
  lemma FinishRound<T>(g: Graph<T>, cat: seq<set<T>>, ce: seq<seq<set<T>>>, res: seq<seq<set<T>>>, start: set<set<T>>,
                       current: seq<set<T>>, edgesInCover: set<set<T>>, currentVertices: set<T>, cliquesUsed: set<set<T>>)
    requires WellFormed(g)
    requires |cat| == |ce|
    requires CoverState(g, cat, ce, res, start) && |start| != |g.E|
    requires RoundState(g, cat, ce, start, current, edgesInCover, currentVertices, cliquesUsed)
    requires |currentVertices| == |g.V|
    ensures CoverState(g, cat, ce, res + [current], edgesInCover)
    ensures g.E - edgesInCover < g.E - start
  {
    SubsetSize(currentVertices, g.V);
    SubsetSize(start, g.E);
    var e :| e in g.E - start;
    assert |e| == 2;
    var v :| v in e;
    assert v in currentVertices;
    assert current != [];
    assert IsPartition(g.V, current);
    ExtendCovering(g, cat, ce, res, current);
    FlattenAppend(res, current);
    EdgesOfConcat(Flatten(res), current);
    var next := res + [current];
    forall round | round in next
      ensures IsPartition(g.V, round) && forall c :: c in round ==> c in cat
    {
      if round != current {
        assert round in res;
      }
    }
  }

  /** The start of a round, with some edge missing: the empty round is in
      the inner loop's state, and some catalog entry covers a missing edge. */
  lemma StartRound<T>(g: Graph<T>, cat: seq<set<T>>, ce: seq<seq<set<T>>>, res: seq<seq<set<T>>>, start: set<set<T>>)
    requires CatalogFits(g, cat, ce)
    requires CoverState(g, cat, ce, res, start) && |start| != |g.E|
    ensures RoundState(g, cat, ce, start, [], start, {}, {})
    ensures |PriorityCandidates(cat, ce, g.E - start, {})| > 0
  {
    SubsetSize(start, g.E);
    PriorityExists(g, cat, ce, g.E - start);
    assert Elems<set<T>>([]) == {};
  }

  /** When the outer loop stops, the rounds are the greedy covering and cover
      exactly the edges. */
  lemma CoverDone<T>(g: Graph<T>, cat: seq<set<T>>, ce: seq<seq<set<T>>>, res: seq<seq<set<T>>>, edgesInCover: set<set<T>>)
    requires |cat| == |ce|
    requires CoverState(g, cat, ce, res, edgesInCover) && |edgesInCover| == |g.E|
    ensures GreedyCovering(g, cat, ce, res)
    ensures EdgesOf(Flatten(res)) == g.E
  {
    SubsetSize(edgesInCover, g.E);
  }

  /** The two loops of `find_equivalence_covering`, over a given catalog `cat`
      with the pair lists `ce` of its entries: the rounds are exactly the
      greedy ones, each a partition of the vertices into catalog cliques, and
      together they cover exactly the edges of `g`; with every singleton in
      the catalog no failure occurs. */
  method BuildCovering<T(==)>(g: Graph<T>, cat: seq<set<T>>, ce: seq<seq<set<T>>>) returns (result: CoverResult<T>)
    requires WellFormed(g)
    requires CatalogFits(g, cat, ce)
    ensures (forall v :: v in g.V ==> {v} in cat) ==> result.Covering?
    ensures result.Covering? ==> GreedyCovering(g, cat, ce, result.rounds)
    ensures result.Covering? ==>
      forall round :: round in result.rounds ==> IsPartition(g.V, round) && forall c :: c in round ==> c in cat
    ensures result.Covering? ==> EdgesOf(Flatten(result.rounds)) == g.E
    ensures result.Covering? && g.E == {} ==> result.rounds == []
    ensures result.NoSuitableClique? ==> exists rounds, current :: GreedyStuck(g, cat, ce, rounds, current)
  {
    var allEdges := g.E;
    var edgesInCover: set<set<T>> := {};
    var res: seq<seq<set<T>>> := [];
    while |edgesInCover| != |g.E|
      invariant CoverState(g, cat, ce, res, edgesInCover)
      decreases g.E - edgesInCover
    {
      ghost var start := edgesInCover;
      StartRound(g, cat, ce, res, start);
      var currentVertices: set<T> := {};
      var cliquesUsed: set<set<T>> := {};
      var current: seq<set<T>> := [];
      while |currentVertices| != |g.V|
        invariant RoundState(g, cat, ce, start, current, edgesInCover, currentVertices, cliquesUsed)
        decreases g.V - currentVertices
      {
        var missingEdges := allEdges - edgesInCover;
        var priority := PriorityCandidates(cat, ce, missingEdges, currentVertices);
        var c: set<T>;
        if |priority| > 0 {
          c := priority[0];
        } else {
          var fallback := FallbackCandidates(cat, cliquesUsed, currentVertices);
          if |fallback| > 0 {
            c := fallback[0];
          } else {
            RoundStuck(g, cat, ce, res, start, current, edgesInCover, currentVertices, cliquesUsed);
            return NoSuitableClique;
          }
        }
        var newEdges := CliqueEdges(c);
        RoundStep(g, cat, ce, start, current, edgesInCover, currentVertices, cliquesUsed, c, newEdges);
        cliquesUsed := cliquesUsed + {c};
        currentVertices := currentVertices + c;
        edgesInCover := edgesInCover + Elems(newEdges);
        current := current + [c];
      }
      FinishRound(g, cat, ce, res, start, current, edgesInCover, currentVertices, cliquesUsed);
      res := res + [current];
    }
    CoverDone(g, cat, ce, res, edgesInCover);
    result := Covering(res);
  }

  /** The catalog built from maximal cliques that hold every edge fits the
      round builder, and holds every singleton when every vertex lies in some
      maximal clique. */
  lemma CatalogFromMaximal<T>(g: Graph<T>, maximal: seq<seq<T>>, cat: seq<set<T>>, ce: seq<seq<set<T>>>)
    requires WellFormed(g)
    requires forall e :: e in g.E ==> exists i :: 0 <= i < |maximal| && e <= Elems(maximal[i])
    requires forall c :: c in cat <==> c != {} && exists i :: 0 <= i < |maximal| && c <= Elems(maximal[i])
    requires forall c :: c in cat ==> IsClique(g, c)
    requires |ce| == |cat|
    requires forall j :: 0 <= j < |cat| ==> Elems(ce[j]) == Edges(cat[j])
    ensures CatalogFits(g, cat, ce)
    ensures (forall v :: v in g.V ==> exists i :: 0 <= i < |maximal| && v in maximal[i]) ==>
      forall v :: v in g.V ==> {v} in cat
  {
    forall i | 0 <= i < |cat|
      ensures cat[i] != {} && IsClique(g, cat[i])
    {
      assert cat[i] in cat;
    }
    CliqueEntriesInside(g, cat);
    forall e | e in g.E
      ensures e in EdgesOf(cat)
    {
      var j :| 0 <= j < |maximal| && e <= Elems(maximal[j]);
      assert e != {} by {
        assert |e| == 2;
      }
      assert e in cat;
      var i :| 0 <= i < |cat| && cat[i] == e;
      EdgesMembership(e, e);
      EdgesOfContains(cat, i);
    }
    if forall v :: v in g.V ==> exists i :: 0 <= i < |maximal| && v in maximal[i] {
      forall v | v in g.V
        ensures {v} in cat
      {
        var i :| 0 <= i < |maximal| && v in maximal[i];
        assert {v} <= Elems(maximal[i]);
      }
    }
  }

  /** Rounds of non-empty cliques from the catalog that cover exactly the
      edges pass the verifier. */
  lemma CatalogRoundsVerified<T>(g: Graph<T>, cat: seq<set<T>>, rounds: seq<seq<set<T>>>)
    requires WellFormed(g)
    requires forall c :: c in cat ==> c != {} && IsClique(g, c)
    requires forall round :: round in rounds ==> forall c :: c in round ==> c in cat
    requires EdgesOf(Flatten(rounds)) == g.E
    ensures Verified(g, rounds)
  {
    forall c | c in Flatten(rounds)
      ensures c != {} && IsClique(g, c)
    {
      FlattenSource(rounds, c);
      var r, q :| 0 <= r < |rounds| && 0 <= q < |rounds[r]| && rounds[r][q] == c;
      assert rounds[r] in rounds;
      assert c in rounds[r];
    }
    CliqueCoveringVerified(g, rounds);
  }

  /** `find_equivalence_covering` as a whole: builds the catalog from the
      maximal cliques, the pair list of every catalog entry, and the rounds.
      The catalog `cat` and its pair lists `ce` come out as ghost results; the
      rounds are the greedy covering over them, cover every edge, each
      partition the vertices into non-empty cliques, and pass the verifier.
      A failure happens only where the greedy rounds get stuck, and not at all
      when every vertex lies in some maximal clique. */
  method FindEquivalenceCovering<T(==)>(g: Graph<T>, maximal: seq<seq<T>>)
    returns (result: CoverResult<T>, ghost cat: seq<set<T>>, ghost ce: seq<seq<set<T>>>)
    requires WellFormed(g)
    requires forall i :: 0 <= i < |maximal| ==> Distinct(maximal[i]) && IsClique(g, Elems(maximal[i]))
    requires forall e :: e in g.E ==> exists i :: 0 <= i < |maximal| && e <= Elems(maximal[i])
    ensures Distinct(cat) && SortedBySize(cat)
    ensures forall c :: c in cat <==> c != {} && exists i :: 0 <= i < |maximal| && c <= Elems(maximal[i])
    ensures forall c :: c in cat ==> IsClique(g, c)
    ensures PairLists(cat, ce)
    ensures result.Covering? ==> GreedyCovering(g, cat, ce, result.rounds)
    ensures result.NoSuitableClique? ==> exists rounds, current :: GreedyStuck(g, cat, ce, rounds, current)
    ensures (forall v :: v in g.V ==> exists i :: 0 <= i < |maximal| && v in maximal[i]) ==> result.Covering?
    ensures result.Covering? ==>
      forall round :: round in result.rounds ==> IsPartition(g.V, round) && forall c :: c in round ==> c != {} && IsClique(g, c)
    ensures result.Covering? ==> EdgesOf(Flatten(result.rounds)) == g.E
    ensures result.Covering? ==> Verified(g, result.rounds)
    ensures result.Covering? && g.E == {} ==> result.rounds == []
  {
    var allCliques := FindAllCliques(g, maximal);
    var allCliqueEdges: seq<seq<set<T>>> := [];
    for i := 0 to |allCliques|
      invariant |allCliqueEdges| == i
      invariant forall j :: 0 <= j < i ==> Elems(allCliqueEdges[j]) == Edges(allCliques[j])
    {
      var edges := CliqueEdges(allCliques[i]);
      allCliqueEdges := allCliqueEdges + [edges];
    }
    CatalogFromMaximal(g, maximal, allCliques, allCliqueEdges);
    cat, ce := allCliques, allCliqueEdges;
    result := BuildCovering(g, allCliques, allCliqueEdges);
    if result.Covering? {
      CatalogRoundsVerified(g, allCliques, result.rounds);
    }
  }
}
