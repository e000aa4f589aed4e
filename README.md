# Equivalence covering of a graph

A model of `equivalence_covering.py`. Given a finite simple undirected graph,
it builds a sequence of rounds. Each round partitions the vertices into
pairwise disjoint cliques (singletons included), and together the rounds put
every edge of the graph inside some chosen clique. The module has four parts,
and the model follows them file by file:

- `subsets.dfy` (module `Subsets`): the bit-mask enumeration of every subset
  of a set (`find_all_subsets`).
- `catalog.dfy` (module `Catalog`): the clique catalog, meaning every
  non-empty subset of every maximal clique, once each, largest first
  (`find_all_cliques`). It also holds the list of the pairs inside one clique
  (`clique_edges`) and the arbitrary order in which a set is iterated
  (`ListOf`).
- `size_sort.dfy` (module `SizeSort`): the sort by size, largest first, that
  the catalog and both candidate lists use. It is stable, as Python's
  `sorted(..., key=len, reverse=True)` is.
- `covering.dfy` (module `Covering`): the greedy round builder
  (`find_equivalence_covering`).
  - The candidate lists and the pick are functions.
  - The two nested loops are methods proved against a ghost specification.
    `GreedyRound` and `GreedyCovering` say which pick comes next and when
    each loop stops.
  - Lemmas prove the properties of that specification: which clique the
    pick is, that the greedy covering is unique, and that no failure occurs
    when every vertex lies in some maximal clique.
- `verifier.dfy` (module `Verification`): the covering checker
  (`verify_equivalence_covering`).
- `graphs.dfy` (module `Graphs`): the shared vocabulary: graphs, cliques, the
  pairs of a set, unions and partitions.
- `triangle.dfy` and `path.dfy`: two worked instances whose greedy covering is
  computed in full and shown to be the only one. Both also show that their
  literal catalogs are what the catalog builder yields for the instance's
  maximal cliques.
  - The triangle is covered by one round, `[{1, 2, 3}]`. This holds for every
    order the builder may give cliques of equal size, so the whole function
    is shown to return exactly that covering (`TriangleFound`).
  - The path 1 - 2 - 3 takes two rounds, `[{1, 2}, {3}]` and then
    `[{2, 3}, {1}]`. In both rounds the second pick comes from the fallback
    branch. The catalog order among the two edges is a set's iteration
    order. The proof covers the order with `{1, 2}` first. With `{2, 3}`
    first, the same steps give the same two rounds in the opposite order.
- `self_loop.dfy` (module `SelfLoop`): a graph with a self-loop, on which the
  round builder never stops.

In the model a vertex is a value of any type with equality. "## Left out"
lists the vertex labels that the source's numpy conversion does not handle.
An edge is the set of its endpoints. `WellFormed` says that every edge is a
two-element subset of the vertices. The covering checker does not require
it: like the source, it counts every edge of the induced subgraph, a
self-loop included. The round builder and `FindEquivalenceCovering` do
require it. On a graph with a self-loop, the source's outer loop (line 49)
never ends, as `SelfLoop` shows: the loop counts toward `len(g.edges)`, but no
clique's pair list holds it.

The maximal cliques are an input, a sequence of repetition-free vertex
sequences. The round builder itself survives as the `BuildCovering` method,
which works over any catalog that fits it. `FindEquivalenceCovering` composes
the catalog, the pair lists and `BuildCovering`, as the source does.

The `ValueError` raised when no clique fits becomes the result
`NoSuitableClique`. `BuildCovering` proves that this happens only where the
greedy specification gets stuck (`GreedyStuck`), and never when the catalog
holds every singleton.

Where the code and its design description disagree, the model follows the
code:
- Both loops of the round builder and the final test of the verifier
  compare cardinalities (`len(edges_in_cover) != len(g.edges)`,
  `len(current_vertices) != len(g)`), not sets. The model does the same and
  proves that the two agree, because the accumulators always stay inside
  the graph's edges and vertices.
- Ties in the catalog order are not fixed by the code: they follow the
  iteration order of a Python set. The model leaves that order arbitrary.
  Every statement about the rounds is relative to the catalog order.

## Model

| member | source | states |
|---|---|---|
| Subsets.FindAllSubsets | equivalence_covering.py:13-21 | The result has 2^n subsets with the empty set allowed and 2^n - 1 without it. No subset occurs twice, and each is a subset of the input. A subset of the input is in the result exactly when it is non-empty or the empty set is allowed. |
| Subsets.MaskSetInjective | equivalence_covering.py:16-20 | Over distinct elements, two masks below 2^n select the same subset only if they are equal. |
| Subsets.MaskOfSelects | equivalence_covering.py:16-20 | Every subset of the input is selected by some mask below 2^n. |
| Catalog.ListOf | equivalence_covering.py:34 | The list of a set holds each of its members exactly once, in an order left open. |
| Catalog.FindAllCliques | equivalence_covering.py:24-30 | The catalog has no repeated entry and is sorted by non-increasing size. Its entries are exactly the non-empty subsets of some maximal clique, and each entry is a clique of the graph. |
| Catalog.AddSubsets | equivalence_covering.py:26-28 | Adding the non-empty subsets of one more maximal clique turns the catalog of the first `i` maximal cliques into that of the first `i + 1`. |
| Catalog.DistinctMultiset | equivalence_covering.py:29 | Reordering a repetition-free list, which is what the sort does, leaves no repetition. |
| Catalog.CliqueEdges | equivalence_covering.py:33-39 | The pair list holds exactly the unordered pairs of distinct members of the clique, none twice, `n(n-1)/2` of them. |
| Catalog.PairsCount | equivalence_covering.py:36-37 | The index pairs `i < k` below `n` number `n(n-1)/2`. |
| SizeSort.SortBySizeSorted | equivalence_covering.py:29 | The sort is a permutation of its input, and sizes do not increase along the result. |
| SizeSort.InsertSorted | equivalence_covering.py:58 | One insertion step adds exactly the new element and keeps the order by size. |
| SizeSort.SortedUnchanged | equivalence_covering.py:58 | A list already sorted by size comes back unchanged. This is the stability that lets a filtered catalog keep catalog order among equal sizes. |
| Covering.SelectFirst | equivalence_covering.py:56-57 | The first element kept by a filter is the one at the first index the filter accepts. |
| Covering.SelectSorted | equivalence_covering.py:56-58 | Filtering a list sorted by size keeps it sorted by size. |
| Covering.SortedSelection | equivalence_covering.py:56-58 | The sorted filtered list holds only elements at accepted indices, and it holds every element at an accepted index. |
| Covering.PriorityCandidatesExact | equivalence_covering.py:56-58 | The priority list holds exactly the catalog cliques that cover a missing edge and share no vertex with the round, and it is sorted by size. |
| Covering.FallbackCandidatesExact | equivalence_covering.py:63-65 | The fallback list holds exactly the catalog cliques not used in the round and disjoint from it, and it is sorted by size. |
| Covering.PickPriority | equivalence_covering.py:56-61 | When some disjoint clique covers a missing edge, the pick is the first such catalog entry, and no other such entry is larger. Ties go to catalog order. |
| Covering.PickFallback | equivalence_covering.py:62-67 | When no disjoint clique covers a missing edge, the pick is the first unused disjoint catalog entry, and no other such entry is larger. |
| Covering.PickNone | equivalence_covering.py:66-69 | No clique is picked (the error case) exactly when the catalog has neither a priority nor a fallback candidate. |
| Covering.PickSound | equivalence_covering.py:56-67 | A pick is a catalog entry disjoint from the round. It is a priority entry whenever the priority list is non-empty. |
| Covering.PriorityExists | equivalence_covering.py:55-61 | With an edge still missing and every edge inside some catalog clique, a round's first pick has a non-empty priority list. |
| Covering.FirstPickCoversNew | equivalence_covering.py:55-61 | The first pick of a round covers an edge not covered before the round. |
| Covering.FallbackExists | equivalence_covering.py:54-69 | When the catalog holds every singleton, an unfinished round always has a fallback candidate, so the error is unreachable. |
| Covering.ExtendDisjoint | equivalence_covering.py:57-74 | Adding a clique disjoint from the round's vertices keeps the round's cliques pairwise disjoint. |
| Covering.StepBookkeeping | equivalence_covering.py:71-74 | One pick updates the covered edges, the vertices and the used cliques to exactly those of the longer round. The covered edges stay inside the graph's edges. |
| Covering.RoundStep | equivalence_covering.py:55-74 | One inner-loop step keeps the round's state, which is a greedy partial round of disjoint catalog cliques, and adds at least one new vertex. |
| Covering.RoundStuck | equivalence_covering.py:68-69 | Reaching the error branch is the greedy specification getting stuck, and then some singleton is missing from the catalog. |
| Covering.FinishRound | equivalence_covering.py:54-75 | A round that ends holds every vertex, so it is a partition. The covered edges have strictly grown, which is why the outer loop terminates. |
| Covering.StartRound | equivalence_covering.py:49-52 | A new round starts in the inner loop's state with a non-empty priority list. |
| Covering.CoverDone | equivalence_covering.py:49-76 | When the outer loop stops, the rounds are the greedy covering and cover exactly the graph's edges (the cardinality test agrees with set equality). |
| Covering.GreedyRoundUnique | equivalence_covering.py:53-75 | From given covered edges, the greedy round is unique. |
| Covering.GreedyCoveringUnique | equivalence_covering.py:49-76 | The greedy covering of a graph over a catalog is unique. |
| Covering.BuildCovering | equivalence_covering.py:46-76 | The builder returns exactly the greedy covering. Every round is a partition of the vertices into catalog cliques, and the rounds cover exactly the edges. An edgeless graph gives no rounds. With every singleton in the catalog it never fails, and a failure happens only where the greedy specification is stuck. |
| Covering.CatalogFromMaximal | equivalence_covering.py:24-44 | The catalog built from maximal cliques that hold every edge fits the builder. It holds every singleton when every vertex lies in some maximal clique. |
| Covering.CatalogRoundsVerified | equivalence_covering.py:79-90 | Rounds of non-empty catalog cliques that cover exactly the edges are accepted by the verifier. |
| Covering.FindEquivalenceCovering | equivalence_covering.py:42-76 | The whole function, given maximal cliques that hold every edge. It also returns, as ghost outputs, the catalog it built and the pair lists. That catalog has no repetition, is sorted by size, and holds exactly the non-empty subsets of the maximal cliques, each a clique. Each pair list holds exactly its clique's pairs. A returned covering is the greedy covering over that catalog. A failure is a stuck state of the greedy specification over it. The rounds partition the vertices into non-empty cliques and cover exactly the edges, and the verifier accepts them. An edgeless graph gives no rounds. When every vertex lies in a maximal clique, the function does not fail. |
| Verification.VerifyEquivalenceCovering | equivalence_covering.py:79-90 | Needs no precondition on the graph. Returns true exactly when two things hold. First, every group induces a subgraph with one vertex, or with `n >= 2` vertices and `n(n-1)/2` edges (density 1, self-loops counted). Second, the group-induced edges together are as many as the graph's edges. |
| Verification.InducedComplete | equivalence_covering.py:83-85 | In a well-formed graph, a group induces only pairs of its vertices. It induces all of them exactly when those vertices are pairwise adjacent. |
| Verification.GroupValidComplete | equivalence_covering.py:85 | In a well-formed graph, the density test passes exactly when the group has one vertex in the graph, or at least two that are pairwise adjacent. |
| Verification.SelfLoopAccepted | equivalence_covering.py:79-90 | On vertices {1, 2} with only a loop at 1, the group {1, 2} is accepted though 1 and 2 are not adjacent, because the loop makes the edge count right. |
| Graphs.EdgesCount | equivalence_covering.py:85 | A set of `n` vertices has `n(n-1)/2` pairs, the edge count of density 1. |
| Verification.CliqueInduces | equivalence_covering.py:83-87 | A non-empty clique passes the group test and induces exactly its own pairs. |
| Verification.CliqueCoveringVerified | equivalence_covering.py:79-90 | A covering by non-empty cliques whose pairs are exactly the edges is accepted. |
| Verification.PartitionNotChecked | equivalence_covering.py:79-90 | The verifier does not check partitions: one round that leaves a vertex out of an edgeless graph is accepted. |
| Graphs.EdgesMembership | equivalence_covering.py:38 | A set is a pair of a clique's vertices exactly when it is a two-element subset of them. |
| Graphs.SubsetSize | equivalence_covering.py:88 | A subset has at most the size of its superset, and equal size only when the two are equal. This is what makes the source's cardinality tests exact. |
| Triangle.TriangleFirstPick | equivalence_covering.py:56-61 | On the triangle, the first pick is the whole triangle. |
| Triangle.TriangleCovering | equivalence_covering.py:42-76 | The greedy covering of the triangle is the single round `[{1, 2, 3}]`, and it is the only one. |
| Triangle.TriangleCatalogBuilt | equivalence_covering.py:24-39 | The literal triangle catalog and pair lists meet everything the catalog builder promises for the maximal clique `[1, 2, 3]`. |
| Triangle.ThreeAnyCatalog | equivalence_covering.py:42-76 | For any catalog with the builder's properties on a triangle, whatever its order among equal sizes, the only greedy covering is the single round of the whole triangle. |
| Triangle.TriangleFound | equivalence_covering.py:42-76 | The whole function on the triangle with maximal clique `[1, 2, 3]` returns `[[{1, 2, 3}]]`. |
| Path.FirstRoundSecondPick | equivalence_covering.py:62-67 | On the path 1 - 2 - 3, after `{1, 2}` no disjoint clique covers the missing edge, and the fallback pick is `{3}`. |
| Path.PathCovering | equivalence_covering.py:42-76 | The greedy covering of the path 1 - 2 - 3 is `[{1, 2}, {3}]` followed by `[{2, 3}, {1}]`, and it is the only one. |
| Path.PathCatalogBuilt | equivalence_covering.py:24-39 | The path is well formed, its maximal cliques `[1, 2]` and `[2, 3]` meet the builder's demands, and the literal catalog and pair lists meet everything the catalog builder promises for them. |
| SelfLoop.PicksAreVertex | equivalence_covering.py:54-74 | On a catalog holding only `{v}`, every clique a round picks is `{v}`. |
| SelfLoop.NeverCovered | equivalence_covering.py:49-76 | On one vertex with a loop, no greedy rounds reach the edge count, so the function never returns. |
| SelfLoop.NeverStuck | equivalence_covering.py:54-69 | On one vertex with a loop, the round builder never reaches the error either. It never stops. |

## Left out

- Maximal-clique enumeration (`nx.find_cliques`, line 26) is a library call. The maximal cliques are an input. The input is required to consist of repetition-free cliques and to hold every edge inside some maximal clique. "Every vertex lies in some maximal clique", which `nx.find_cliques` also guarantees, is a hypothesis of the no-failure guarantee.
- The numpy arrays and boolean-mask indexing of `find_all_subsets` (lines 14, 17, 20) are modelled as a sequence of distinct elements and a loop over the bits of the mask. This drops what `np.array(list(s))` at line 14 does to vertex labels. This reading of numpy's behaviour was not executed:
  - Tuple labels (as in `nx.grid_2d_graph`) become the rows of a 2-D array. The mask then selects rows, and `frozenset(s[mask])` raises `TypeError`, because arrays are unhashable.
  - Labels of mixed types are coerced to one type (`1` and `'a'` become `'1'` and `'a'`). The catalog's cliques then no longer hold the graph's vertices.
  - `find_all_subsets(set(), include_empty=True)` indexes with an empty float mask and raises `IndexError`. `FindAllSubsets([], true)` returns `[{}]` instead. The source itself only calls the function with `include_empty` false (line 27).
- The density test `nx.density(g_1) == 1` (line 85) is a floating-point comparison. It is modelled as the exact count: `2m == n(n-1)` with `n >= 2`, where `m` counts the subgraph's edges, self-loops included. networkx computes `m / (n(n-1))` and doubles it. While `n(n-1)` stays below 2^53, that float is 1 exactly when `2m == n(n-1)`. Groups of zero vertices have density 0 and fail the test in both.
- networkx stores an edge as an ordered tuple (line 87). The model keeps edges as unordered two-element sets throughout.
- The commented-out debug print at line 84.
- The iteration order of Python sets (lines 29 and 34) is left nondeterministic: `ListOf` may return any order. Catalog ties between cliques of equal size therefore follow an unspecified order, as they do in the source.
- The round builder and `FindEquivalenceCovering` require `WellFormed`, so they exclude graphs with self-loops or edges naming unknown vertices. On a self-loop the source does not terminate (`SelfLoop.NeverCovered`, `SelfLoop.NeverStuck`), so the model cannot have it return a result. The covering checker has no such requirement.
- Running time, the exponential size of the catalog, and any claim that the number of rounds is minimal. The algorithm is a heuristic and promises none of these.

