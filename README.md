# VF2 graph matching, modelled in Dafny

This project models the VF2 engine of `VF2.cpp` (Cordella et al.'s algorithm)
for labelled directed multigraphs. It covers isomorphism and subgraph
isomorphism, and proves properties of the model. It has four modules:

- `SetFacts` (`sets.dfy`): cardinality facts about finite sets of vertex
  indices.
- `Graphs` (`graph.dfy`): the `Graph` builder, a class with sequence fields.
  - Edges are appended to an array and threaded onto two intrusive lists: by
    source (`headEdge`/`next`) and by destination (`revHeadEdge`/`prev`).
  - It also keeps `pred`/`succ` neighbour sets.
  - `Graph.Valid` is the invariant: `headEdge[x]` is the newest edge leaving
    `x`, and `next` is the newest older edge with the same source (`prev`
    mirrors this for destinations). The neighbour sets hold exactly the arcs
    of the edge array.
- `Matching` (`state.dfy`): the search `State` class and its operations.
  - The class holds `core1`/`core2`, `m1`/`m2` and the four frontier sets.
  - The operations are the candidate-pair rule, `AddNewPair` and the
    feasibility rules.
  - Each rule is a method (list walks, loops over sets) proved equal to a
    set-theoretic predicate (`PredRule`, `SuccRule`, `InRule`, `OutRule`,
    `NewRule`).
- `Search` (`search.dfy`): the backtracking `Solve` and the two entry points.
  - The first match is returned.
  - It is proved to be a total, injective mapping. The mapping preserves
    vertex labels and the edges between distinct vertices with their labels,
    and reflects the target's adjacency (an induced subgraph).
  - A successful search took a pair of the candidate list that passed the
    semantic rule and all five syntactic rules, and the returned mapping maps
    that pair.
  - The four frontier sets are proved to hold exactly the unmapped neighbours
    of the mapped vertices (`FrontiersExact`), from the fresh state on through
    every `AddNewPair` of the search.
  - The search terminates on `vertexCount - |m1|`.

Quirks of the source are reproduced and flagged in comments, not fixed:

- `checkPredRule` walks the *outgoing* edges of `n` and `checkSuccRule` the
  *incoming* ones. The names are swapped relative to the direction they check
  (`PredRule`, `SuccRule`).
- In `checkInRule` the predecessor count is compared only in subgraph mode,
  and for equality. Its following `>` test cannot fire (`InRule`,
  `CheckInRule`).
- The back-checks over `m2` run in both modes. Subgraph matching is therefore
  induced-subgraph matching (`AdjacencyReflected`,
  `MatchingPreservesAdjacency`).
- The source sizes `core_2` to the pattern's vertex count. The model sizes
  `core2` to the target's count instead. This is one of two deviations, both
  described under "Left out". The other is that `Solve` returns the mapping
  it found beside the verdict.
- Subgraph search is incomplete as written (`SubgraphMissesEmbedding`).
- The labels of self-loops are never compared: the edge walks of the pred and
  succ rules skip a loop `n -> n`, because `n` is still unmapped when they run.
  Loops still enter the look-ahead counts through the `pred`/`succ` sets.
  `SelfLoopLabelIgnored` shows that the matching notion the search is proved
  sound for accepts loops with different labels.

## Model

| member | source | states |
|---|---|---|
| Graphs.Graph.constructor | VF2.cpp:73-81 | a new graph is empty, as `initial` leaves it, and satisfies the graph invariant |
| Graphs.Graph.Initial | VF2.cpp:73-81 | resets both counts and every vector to empty; the invariant holds afterwards |
| Graphs.Graph.AddVertex | VF2.cpp:56-63 | appends the label, a null head on both lists and empty `pred`/`succ` sets; the vertex count grows by one and the invariant is kept |
| Graphs.Graph.AddEdge | VF2.cpp:65-71 | appends `Edge(u, v, label, old head[u], old revHead[v])`; both heads point to the new index; `v` joins `succ[u]` and `u` joins `pred[v]`; nothing else changes and the invariant is kept |
| Graphs.PushKeepsHeads | VF2.cpp:65-71 | the pushed edge links to the old heads of its source and destination lists, and with the heads moved to it every head is again the newest edge of its vertex |
| Graphs.PushKeepsNeighbours | VF2.cpp:69-70 | after appending `u -> v`, `succ[u] + {v}` and `pred[v] + {u}` make the neighbour sets exactly the arcs of the longer edge array |
| Graphs.Graph.OutListIsSource | VF2.cpp:235 | every link points strictly backwards; walking `next` from `headEdge[x]` visits exactly the edges whose source is `x`, in strictly decreasing order (so the walk ends) |
| Graphs.Graph.InListIsDestination | VF2.cpp:262 | walking `prev` from `revHeadEdge[y]` visits exactly the edges whose destination is `y`, strictly decreasing |
| Graphs.Graph.SuccPredDual | VF2.cpp:69-70 | `y in succ[x]` exactly when `x in pred[y]` |
| Graphs.Graph.NeighboursInRange | VF2.cpp:69-70 | every neighbour-set member is a vertex of the graph |
| Graphs.Graph.NoVerticesNoEdges | VF2.cpp:65-71 | a graph with no vertices has no edges |
| Matching.State.constructor | VF2.cpp:173-183 | every core entry is -1, every set is empty, the state invariant holds |
| Matching.State.Copy | VF2.cpp:380 | the copy has every field equal to the original's |
| Matching.State.GenCandiPairSet | VF2.cpp:185-216 | if both out-sets are non-empty: every `x` of `out1` in ascending order, paired with `max out2`; else the same for the in-sets; else every unmapped pattern vertex, ascending, paired with the largest unmapped `core2` index below the pattern count; every pair is unmapped on both sides |
| Matching.State.MaxVertex | VF2.cpp:188-189 | returns the largest element of the set, or -1 |
| Matching.State.PairEach | VF2.cpp:190-192 | its first components are exactly the set's elements, ascending, each paired with the given vertex |
| Matching.PairingStep | VF2.cpp:190-192 | taking the least remaining element and appending it keeps the list ascending and made of exactly the elements taken so far |
| Matching.State.LargestFreeIndex | VF2.cpp:201-202 | returns the largest index below the count with an unmapped entry, or -1 |
| Matching.State.UnmappedPairs | VF2.cpp:203-207 | its first components are exactly the unmapped indices, ascending |
| Matching.UnmappedStep | VF2.cpp:203-207 | looking at one more index keeps the list ascending and made of exactly the unmapped indices seen so far |
| Matching.FreeTargetExists | VF2.cpp:199-208 | while a pattern vertex is unmapped, some target index below the pattern count is unmapped too, so the third branch never pairs with -1 |
| Matching.State.AddNewPair | VF2.cpp:218-232 | `core1[n] := m`, `core2[m] := n`; `m1`/`m2` grow by exactly `n`/`m`; each frontier gains the unmapped neighbours of the given set and loses `n` (`m`); the bijection, `|m1| = |m2|` and "no frontier holds a mapped vertex" are preserved |
| Matching.State.MapPair | VF2.cpp:220-223 | `n` joins `m1`, `m` joins `m2`, the cores map them to each other; the bijection, both mapped sets and `|m1| = |m2|` hold afterwards; the frontiers are untouched |
| Matching.State.GrowFrontiers | VF2.cpp:224-231 | each frontier gains exactly the unmapped members of its neighbour set and loses `n` (`m`); cores and mapped sets are untouched |
| Matching.State.AddUnmapped | VF2.cpp:224-227 | the frontier plus exactly the unmapped members of the source set |
| Matching.ExtendBijection | VF2.cpp:222-223 | mapping an unmapped pair keeps `core1[a] = b <==> core2[b] = a` |
| Matching.ExtendMapped | VF2.cpp:218-221 | mapping an unmapped index adds exactly that index to the mapped set, which grows by one |
| Matching.State.CheckPredRule | VF2.cpp:234-259 | true exactly when (1) every G1 edge `n -> v` with `v` mapped has a G2 edge `m -> core1[v]` with the same label, and (2) every mapped G2 predecessor of `m` maps back to a G1 predecessor of `n` |
| Matching.State.CheckSuccRule | VF2.cpp:261-286 | the mirror of CheckPredRule over incoming edges and `succ` |
| Matching.State.SetIntersectionSize | VF2.cpp:288-290 | returns `|a * b|` |
| Matching.State.CheckInRule | VF2.cpp:292-302 | true exactly when the successor counts on the in-frontiers are equal (exact mode) or at most (subgraph mode), and in subgraph mode only, the predecessor counts are equal |
| Matching.State.CheckOutRule | VF2.cpp:304-314 | true exactly when both the successor and the predecessor counts on the out-frontiers are equal (exact) or at most (subgraph) |
| Matching.State.GenComplementary | VF2.cpp:316-325 | exactly the vertices below `count` that are unmapped and in neither frontier |
| Matching.State.CheckNewRule | VF2.cpp:327-339 | true exactly when the predecessor and successor counts on the complements are equal (exact) or at most (subgraph) |
| Matching.State.CheckSynRules | VF2.cpp:341-345 | true exactly when all five rules hold |
| Matching.State.CheckSemRules | VF2.cpp:347-353 | true exactly when the two vertex labels are equal |
| Matching.ExactFrontierStep | VF2.cpp:224-231 | if a frontier is exactly the unmapped neighbours (through `pred` or `succ`) of the mapped vertices, then after mapping `n`, adding the unmapped neighbours of `n` and removing `n` it is again exactly that set for the extended mapping |
| Search.ExtendKeepsLabels | VF2.cpp:347-353 | when `vertex[n] = vertex[m]` (the semantic rule), adding `(n, m)` keeps every mapped vertex's label equal to its image's |
| Search.ExtendConsistent | VF2.cpp:234-286 | when the semantic, pred and succ rules hold, adding `(n, m)` keeps the mapping consistent: labels, every edge between distinct mapped vertices with its label, and reflected adjacency |
| Search.EmptyConsistent | VF2.cpp:173-183 | the all-unmapped mapping of a fresh state is consistent |
| Search.FreshFrontiersExact | VF2.cpp:142-145 | empty frontiers over an all-unmapped state are exactly the sets `in_1`, `out_1`, `in_2`, `out_2` are documented to be |
| Search.FeasibleWitness | VF2.cpp:376-383 | a candidate pair with equal labels that passes all five syntactic rules, and a mapping extending the state's mapping by that pair, witness that the search took a feasible pair |
| Search.Extended | VF2.cpp:380-381 | a fresh copy of the state extended by `(n, m)`: the cores map `n` and `m` to each other, `m1`/`m2` grow by them, the invariant holds and the frontiers stay exact |
| Search.PairKeepsFrontiers | VF2.cpp:224-231 | when a state's frontiers are exact, the frontiers `addNewPair` computes for `(n, m)` are exact for the extended cores |
| Search.CompleteIsMatching | VF2.cpp:366-369 | a consistent state whose `m1` covers every pattern vertex gives a total, injective, consistent mapping |
| Search.Solve | VF2.cpp:364-386 | from a consistent state with exact frontiers: returns true at once when `|m1|` equals the vertex count, with the state's own mapping; it succeeds from an incomplete state only through a pair `(n, m)` of P(s) with equal vertex labels that passes all five syntactic rules, and the returned mapping maps `n` to `m`; on success the returned mapping is a matching (total, injective, label-, edge- and non-edge-preserving) that extends the state's mapping; terminates on `vertexCount - |m1|`; the caller's state is not modified |
| Search.Descend | VF2.cpp:378-383 | searching a copy extended by a feasible pair yields, on success, a matching that extends the state's mapping with `n` mapped to `m` |
| Search.MatchingNeedsRoom | VF2.cpp:395-400 | a matching exists only into a target with at least as many vertices |
| Search.MatchingOntoWhenSameSize | VF2.cpp:388-393 | between equal-size graphs a matching hits every target vertex |
| Search.MatchingPreservesAdjacency | VF2.cpp:250-257 | for distinct `a`, `b`: `a -> b` in G1 exactly when `f[a] -> f[b]` in G2 (induced matching) |
| Search.Isomorphism | VF2.cpp:388-393 | false whenever the vertex or edge counts differ; true means a matching exists that is onto the target; two empty graphs are isomorphic |
| Search.Subisomorphism | VF2.cpp:395-400 | false whenever the pattern has more vertices or edges than the target; true means an (induced) matching exists; an empty pattern always matches |
| Search.SubgraphMissesEmbedding | VF2.cpp:199-208 | for pattern labels [0] and target labels [1, 0], both without edges, the search from the empty subgraph-mode state fails, although `0 -> 1` is a matching |
| Search.SelfLoopLabelIgnored | VF2.cpp:235-243 | a one-vertex loop labelled 0 and a one-vertex loop labelled 1 form a matching, although the target has no edge labelled 0 |

## Left out

- `readGraph`, `main`, `printGraphInfo`, `printMapping` and the driver globals `database`/`query` are I/O, timing and output, and are not part of this model.
- The runtime `assert` in the back-check loops is a proof obligation in `CheckPredRule`/`CheckSuccRule` (a mapped `v2` has `core2[v2] != -1`), not a runtime check.
- Matching.State.constructor: the source sizes `core_2` to the pattern's vertex count and then indexes it with target vertex ids. With a larger target in subgraph mode, that overruns the vector. The model takes the target count too and sizes `core2` to it. When the counts are equal (always, for whole-graph isomorphism) this is the source's behaviour.
- Matching.State.GenCandiPairSet: its third branch, as written, looks for a free target index only below the *pattern* count. Target vertices at or above it are then never tried from that branch. The model reproduces this.
- Search.Solve: completeness is not stated. It does not hold as written in subgraph mode. Every ordering branch fixes a single target vertex: `max out2`, `max in2`, or the largest free index below the pattern count. A pattern vertex is therefore never tried against the other targets, and embeddings are missed (`SubgraphMissesEmbedding`).
- Search.Isomorphism: completeness, e.g. that a graph is found isomorphic to itself, is not stated. The mapping the search returns is proved sound (total, injective, onto, consistent) but not that one is found whenever one exists. Because the labels of self-loops are never compared, the matching notion it is proved sound for accepts loops with different labels (`SelfLoopLabelIgnored`); it is not proved that `Isomorphism` itself returns true on such graphs. On multigraphs, exact mode compares edge counts and neighbour sets, not edge multisets: for G1 with two edges `0 -> 1` labelled A and G2 with `0 -> 1` labelled A and `0 -> 1` labelled B, every G1 edge finds a G2 edge with its label and the counts agree, so the source reports them isomorphic although they are not isomorphic as labelled multigraphs.
- Search.Subisomorphism: incomplete as written. For a one-vertex pattern labelled 0 and a target labelled [1, 0] without edges, it returns false although `0 -> 1` embeds. The only candidate from the empty state is (0, 0), because the third ordering branch scans only below the pattern count (`SubgraphMissesEmbedding`).
- Search.Solve: the source returns only the boolean and leaves the mapping in the final state. The model returns the mapping beside the verdict so its properties can be stated.
- Search.ExtendConsistent: the labels of self-loops are never compared. When `(n, m)` is checked, `n` itself is still unmapped, so an edge `n -> n` is skipped by the walks. The consistency property therefore speaks only of edges between distinct vertices.
- Search.Solve: on a multigraph, edges with equal endpoints are matched by existence, not one for one. A G1 edge needs *some* G2 edge with the same label, so the edge correspondence need not be injective.
- Ordered iteration over `std::set` is reproduced where the order is visible, in the candidate list (`PairEach` takes the least remaining element each time). Elsewhere the result does not depend on the order: the maximum, the frontier updates, the back-checks and the intersection count. There the loops take any remaining element. Container performance and the cost of copying states are not modelled.
