/** The VF2 depth-first search and its two entry points, with what a mapping
    the search reports is proved to satisfy. */
module Search {
  import opened SetFacts
  import opened Graphs
  import opened Matching

  /** Every entry of c is unmapped or a vertex of a graph with k vertices. */
  ghost predicate MapsInto(c: seq<int>, k: int) {
    forall a :: 0 <= a < |c| ==> c[a] == NullVertex || 0 <= c[a] < k
  }

  /** Mapped vertices carry the same vertex label. */
  ghost predicate LabelsKept(g1: Graph, g2: Graph, c: seq<int>)
    reads g1, g2
    requires g1.Valid() && g2.Valid() && |c| == g1.vertexCount && MapsInto(c, g2.vertexCount)
  {
    forall a :: 0 <= a < |c| && c[a] != NullVertex ==> g1.vertex[a] == g2.vertex[c[a]]
  }

  /** Every G1 edge between two distinct mapped vertices has a G2 edge with
      the same label between their images. */
  ghost predicate EdgesKept(g1: Graph, g2: Graph, c: seq<int>)
    reads g1, g2
    requires g1.Valid() && g2.Valid() && |c| == g1.vertexCount && MapsInto(c, g2.vertexCount)
  {
    forall e :: 0 <= e < |g1.edge| && g1.edge[e].u != g1.edge[e].v
                && c[g1.edge[e].u] != NullVertex && c[g1.edge[e].v] != NullVertex ==>
      g2.HasEdge(c[g1.edge[e].u], c[g1.edge[e].v], g1.edge[e].edgeLabel)
  }

  /** Every G2 arc between the images of two distinct mapped vertices comes
      from a G1 arc between them (the mapping is induced). */
  ghost predicate AdjacencyReflected(g1: Graph, g2: Graph, c: seq<int>)
    reads g1, g2
    requires g1.Valid() && g2.Valid() && |c| == g1.vertexCount && MapsInto(c, g2.vertexCount)
  {
    forall a, b ::
      (0 <= a < |c| && 0 <= b < |c| && a != b && c[a] != NullVertex && c[b] != NullVertex &&
       c[a] in g2.pred[c[b]]) ==> a in g1.pred[b]
  }

  /** The partial mapping c respects labels, edges and non-edges. */
  ghost predicate Consistent(g1: Graph, g2: Graph, c: seq<int>)
    reads g1, g2
    requires g1.Valid() && g2.Valid() && |c| == g1.vertexCount
  {
    && MapsInto(c, g2.vertexCount)
    && LabelsKept(g1, g2, c)
    && EdgesKept(g1, g2, c)
    && AdjacencyReflected(g1, g2, c)
  }

  /** f is injective. */
  ghost predicate Injective(f: seq<int>) {
    forall a, b :: 0 <= a < |f| && 0 <= b < |f| && a != b ==> f[a] != f[b]
  }

  /** f maps every vertex of G1 to a distinct vertex of G2, consistently. */
  ghost predicate IsMatching(g1: Graph, g2: Graph, f: seq<int>)
    reads g1, g2
    requires g1.Valid() && g2.Valid()
  {
    && |f| == g1.vertexCount
    && (forall a :: 0 <= a < |f| ==> 0 <= f[a] < g2.vertexCount)
    && Injective(f)
    && Consistent(g1, g2, f)
  }

  /** w agrees with c wherever c is mapped. */
  ghost predicate Extends(w: seq<int>, c: seq<int>) {
    |w| == |c| && forall a :: 0 <= a < |c| && c[a] != NullVertex ==> w[a] == c[a]
  }

  /** The set of values of f. */
  ghost function Image(f: seq<int>): set<int>
    decreases |f|
  {
    if f == [] then {} else Image(f[..|f| - 1]) + {f[|f| - 1]}
  }

  lemma {:induction false} ImageSize(f: seq<int>)
    requires Injective(f)
    ensures |Image(f)| == |f|
    ensures forall y :: y in Image(f) <==> exists a :: 0 <= a < |f| && f[a] == y
    decreases |f|
  {
    if f != [] {
      var g := f[..|f| - 1];
      assert Injective(g) by {
        forall a, b | 0 <= a < |g| && 0 <= b < |g| && a != b
          ensures g[a] != g[b]
        {
          assert g[a] == f[a] && g[b] == f[b];
        }
      }
      ImageSize(g);
      var last := f[|f| - 1];
      forall a | 0 <= a < |g|
        ensures g[a] != last
      {
        assert g[a] == f[a];
      }
      assert last !in Image(g);
      forall y
        ensures y in Image(f) <==> exists a :: 0 <= a < |f| && f[a] == y
      {
        if y in Image(g) {
          var a :| 0 <= a < |g| && g[a] == y;
          assert f[a] == y;
        }
        if exists a :: 0 <= a < |f| && f[a] == y {
          var a :| 0 <= a < |f| && f[a] == y;
          if a < |g| {
            assert g[a] == y;
          }
        }
      }
    }
  }

  /** An injective sequence of values below k has at most k entries. */
  lemma InjectiveRoom(f: seq<int>, k: nat)
    requires Injective(f) && forall a :: 0 <= a < |f| ==> 0 <= f[a] < k
    ensures |f| <= k
  {
    ImageSize(f);
    forall y | y in Image(f)
      ensures 0 <= y < k
    {
      var a :| 0 <= a < |f| && f[a] == y;
    }
    BoundedSize(Image(f), k);
  }

  /** An injective sequence of k values below k takes every value below k. */
  lemma InjectiveOnto(f: seq<int>, k: nat)
    requires Injective(f) && |f| == k && forall a :: 0 <= a < |f| ==> 0 <= f[a] < k
    ensures forall y :: 0 <= y < k ==> y in f
  {
    ImageSize(f);
    forall y | y in Image(f)
      ensures 0 <= y < k
    {
      var a :| 0 <= a < |f| && f[a] == y;
    }
    FullIsRange(Image(f), k);
    forall y | 0 <= y < k
      ensures y in f
    {
      assert y in Image(f);
      var a :| 0 <= a < |f| && f[a] == y;
    }
  }

  /** A matching of G1 into G2 needs G2 to have at least as many vertices. */
  lemma MatchingNeedsRoom(g1: Graph, g2: Graph, f: seq<int>)
    requires g1.Valid() && g2.Valid()
    requires IsMatching(g1, g2, f)
    ensures g1.vertexCount <= g2.vertexCount
  {
    InjectiveRoom(f, g2.vertexCount);
  }

  /** Between graphs of the same size a matching is onto: every vertex of
      G2 is the image of a vertex of G1. */
  lemma MatchingOntoWhenSameSize(g1: Graph, g2: Graph, f: seq<int>)
    requires g1.Valid() && g2.Valid()
    requires IsMatching(g1, g2, f) && g1.vertexCount == g2.vertexCount
    ensures forall y :: 0 <= y < g2.vertexCount ==> y in f
  {
    InjectiveOnto(f, g2.vertexCount);
  }

  /** A matching preserves and reflects adjacency between distinct
      vertices: a -> b in G1 exactly when f[a] -> f[b] in G2. */
  lemma MatchingPreservesAdjacency(g1: Graph, g2: Graph, f: seq<int>, a: int, b: int)
    requires g1.Valid() && g2.Valid()
    requires IsMatching(g1, g2, f)
    requires 0 <= a < |f| && 0 <= b < |f| && a != b
    ensures a in g1.pred[b] <==> f[a] in g2.pred[f[b]]
  {
    if a in g1.pred[b] {
      assert IsArc(g1.edge, a, b);
      var j :| 0 <= j < |g1.edge| && g1.edge[j].u == a && g1.edge[j].v == b;
      assert g2.HasEdge(f[a], f[b], g1.edge[j].edgeLabel);
      var k :| 0 <= k < |g2.edge| && g2.edge[k].u == f[a] && g2.edge[k].v == f[b] && g2.edge[k].edgeLabel == g1.edge[j].edgeLabel;
      assert IsArc(g2.edge, f[a], f[b]);
    }
  }

  /** The empty mapping is consistent. */
  lemma EmptyConsistent(g1: Graph, g2: Graph, c: seq<int>)
    requires g1.Valid() && g2.Valid() && |c| == g1.vertexCount
    requires forall a :: 0 <= a < |c| ==> c[a] == NullVertex
    ensures Consistent(g1, g2, c)
  {
  }

  /** Adding a pair (n, m) that passes the semantic rule keeps the vertex
      labels of a label-preserving mapping. */
  lemma ExtendKeepsLabels(g1: Graph, g2: Graph, c1: seq<int>, n: int, m: int)
    requires g1.Valid() && g2.Valid() && |c1| == g1.vertexCount && MapsInto(c1, g2.vertexCount)
    requires 0 <= n < |c1| && 0 <= m < g2.vertexCount
    requires LabelsKept(g1, g2, c1) && g1.vertex[n] == g2.vertex[m]
    ensures MapsInto(c1[n := m], g2.vertexCount) && LabelsKept(g1, g2, c1[n := m])
  {
  }

  /** Adding a pair (n, m) that passes the semantic rule and the pred and
      succ rules keeps a consistent mapping consistent. */
  lemma ExtendConsistent(g1: Graph, g2: Graph, c1: seq<int>, c2: seq<int>, n: int, m: int)
    requires g1.Valid() && g2.Valid()
    requires |c1| == g1.vertexCount && |c2| == g2.vertexCount && Bijection(c1, c2)
    requires 0 <= n < |c1| && c1[n] == NullVertex && 0 <= m < |c2| && c2[m] == NullVertex
    requires Consistent(g1, g2, c1)
    requires g1.vertex[n] == g2.vertex[m]
    requires PredRule(g1, g2, c1, c2, n, m) && SuccRule(g1, g2, c1, c2, n, m)
    ensures Consistent(g1, g2, c1[n := m])
  {
    var d := c1[n := m];
    ExtendKeepsLabels(g1, g2, c1, n, m);
    forall e | 0 <= e < |g1.edge| && g1.edge[e].u != g1.edge[e].v
               && d[g1.edge[e].u] != NullVertex && d[g1.edge[e].v] != NullVertex
      ensures g2.HasEdge(d[g1.edge[e].u], d[g1.edge[e].v], g1.edge[e].edgeLabel)
    {
      var u, v := g1.edge[e].u, g1.edge[e].v;
      if u == n {
        assert d[v] == c1[v];
      } else if v == n {
        assert d[u] == c1[u];
      } else {
        assert d[u] == c1[u] && d[v] == c1[v];
      }
    }
    forall a, b | 0 <= a < |d| && 0 <= b < |d| && a != b && d[a] != NullVertex && d[b] != NullVertex &&
                  d[a] in g2.pred[d[b]]
      ensures a in g1.pred[b]
    {
      if a == n {
        // d[b] -> ... : m is a predecessor of c1[b], so c1[b] is a mapped successor of m
        g2.SuccPredDual(m, c1[b]);
        assert c2[c1[b]] == b;
        assert n in g1.pred[b] by {
          assert b in g1.succ[n];
          g1.SuccPredDual(n, b);
        }
      } else if b == n {
        assert c2[c1[a]] == a;
      } else {
        assert d[a] == c1[a] && d[b] == c1[b];
      }
    }
  }

  /** A consistent mapping that maps every pattern vertex is a matching. */
  lemma CompleteIsMatching(g1: Graph, g2: Graph, c1: seq<int>, c2: seq<int>, m1: set<int>)
    requires g1.Valid() && g2.Valid()
    requires |c1| == g1.vertexCount && |c2| == g2.vertexCount && Bijection(c1, c2)
    requires MappedSet(m1, c1) && |m1| == |c1|
    requires Consistent(g1, g2, c1)
    ensures IsMatching(g1, g2, c1)
  {
    FullIsRange(m1, |c1|);
    forall a, b | 0 <= a < |c1| && 0 <= b < |c1| && a != b
      ensures c1[a] != c1[b]
    {
      assert a in m1 && b in m1;
      assert c2[c1[a]] == a;
    }
  }

  /** The search left `state` through candidate (n, m): it is in P(s), its
      vertex labels agree, it passes all five syntactic rules, and the
      mapping found maps n to m. */
  ghost predicate TookFeasiblePair(g1: Graph, g2: Graph, state: State, mapping: seq<int>)
    reads g1, g2, state
    requires g1.Valid() && g2.Valid() && state.Valid()
    requires |state.core1| == g1.vertexCount && |state.core2| == g2.vertexCount
  {
    exists n, m :: state.IsCandidate(n, m) && 0 <= n < |state.core1| && 0 <= m < |state.core2| &&
                   g1.vertex[n] == g2.vertex[m] && state.SynRules(g1, g2, n, m) &&
                   n < |mapping| && mapping[n] == m
  }

  lemma FeasibleWitness(g1: Graph, g2: Graph, state: State, n: int, m: int, mapping: seq<int>)
    requires g1.Valid() && g2.Valid() && state.Valid()
    requires |state.core1| == g1.vertexCount && |state.core2| == g2.vertexCount
    requires 0 <= n < |state.core1| && 0 <= m < |state.core2| && state.IsCandidate(n, m)
    requires g1.vertex[n] == g2.vertex[m] && state.SynRules(g1, g2, n, m)
    requires Extends(mapping, state.core1[n := m])
    ensures TookFeasiblePair(g1, g2, state, mapping)
  {
    assert mapping[n] == m;
    assert state.IsCandidate(n, m) && 0 <= n < |state.core1| && 0 <= m < |state.core2| &&
           g1.vertex[n] == g2.vertex[m] && state.SynRules(g1, g2, n, m) &&
           n < |mapping| && mapping[n] == m;
  }

  /** The empty state's frontiers are exact: nothing is mapped, so every
      frontier is empty. */
  lemma FreshFrontiersExact(g1: Graph, g2: Graph, state: State)
    requires g1.Valid() && g2.Valid() && state.Valid()
    requires |state.core1| == g1.vertexCount && |state.core2| == g2.vertexCount
    requires state.in1 == {} && state.in2 == {} && state.out1 == {} && state.out2 == {}
    requires forall a :: 0 <= a < |state.core1| ==> state.core1[a] == NullVertex
    requires forall b :: 0 <= b < |state.core2| ==> state.core2[b] == NullVertex
    ensures state.FrontiersExact(g1, g2)
  {
  }

  /** The recursive search.  A state whose mapping covers every pattern
      vertex is a match; otherwise each candidate pair that passes the
      semantic and syntactic rules is added to a copy of the state and the
      search recurses.  The full mapping of the first match found is
      returned beside the verdict. */
  method Solve(g1: Graph, g2: Graph, state: State) returns (found: bool, mapping: seq<int>)
    requires g1.Valid() && g2.Valid() && state.Valid()
    requires |state.core1| == g1.vertexCount && |state.core2| == g2.vertexCount
    requires Consistent(g1, g2, state.core1) && state.FrontiersExact(g1, g2)
    ensures |state.m1| == state.vertexCount ==> found && mapping == state.core1
    ensures found ==> IsMatching(g1, g2, mapping) && Extends(mapping, state.core1)
    ensures found && |state.m1| < state.vertexCount ==> TookFeasiblePair(g1, g2, state, mapping)
    decreases state.vertexCount - |state.m1|, 1
  {
    BoundedSize(state.m1, state.vertexCount);
    if |state.m1| == state.vertexCount {
      CompleteIsMatching(g1, g2, state.core1, state.core2, state.m1);
      return true, state.core1;
    }
    var P := state.GenCandiPairSet();
    var i := 0;
    // The state is never modified here (each branch works on a copy), so
    // the loop needs no invariant beyond the index bound.
    while i < |P|
      invariant 0 <= i <= |P|
    {
      var n, m := P[i].0, P[i].1;
      if state.CheckSemRules(g1, g2, n, m) {
        var syn := state.CheckSynRules(g1, g2, n, m);
        if syn {
          ExtendConsistent(g1, g2, state.core1, state.core2, n, m);
          var f, w := Descend(g1, g2, state, n, m);
          if f {
            FeasibleWitness(g1, g2, state, n, m, w);
            return true, w;
          }
        }
      }
      i := i + 1;
    }
    return false, [];
  }

  /** A mapping that extends `c[n := m]`, with `n` unmapped in `c`, extends `c`. */
  lemma ExtendsDropsPair(w: seq<int>, c: seq<int>, n: int, m: int)
    requires 0 <= n < |c| && c[n] == NullVertex && Extends(w, c[n := m])
    ensures Extends(w, c) && (m != NullVertex ==> w[n] == m)
  {
    assert forall a :: 0 <= a < |c| && c[a] != NullVertex ==> c[n := m][a] == c[a];
  }

  /** `AddNewPair` keeps every frontier exactly the set of unmapped
      neighbours of the mapped vertices. */
  lemma PairKeepsFrontiers(g1: Graph, g2: Graph, state: State, next: State, n: int, m: int)
    requires g1.Valid() && g2.Valid() && state.Valid() && next.Valid()
    requires |state.core1| == g1.vertexCount && |state.core2| == g2.vertexCount
    requires 0 <= n < |state.core1| && state.core1[n] == NullVertex
    requires 0 <= m < |state.core2| && state.core2[m] == NullVertex
    requires next.core1 == state.core1[n := m] && next.core2 == state.core2[m := n]
    requires forall x :: x in next.in1 <==> x != n && (x in state.in1 || (x in g1.pred[n] && next.core1[x] == NullVertex))
    requires forall x :: x in next.out1 <==> x != n && (x in state.out1 || (x in g1.succ[n] && next.core1[x] == NullVertex))
    requires forall x :: x in next.in2 <==> x != m && (x in state.in2 || (x in g2.pred[m] && next.core2[x] == NullVertex))
    requires forall x :: x in next.out2 <==> x != m && (x in state.out2 || (x in g2.succ[m] && next.core2[x] == NullVertex))
    requires state.FrontiersExact(g1, g2)
    ensures next.FrontiersExact(g1, g2)
  {
    g1.NeighboursInRange(n);
    g2.NeighboursInRange(m);
    ExactFrontierStep(state.in1, next.in1, state.core1, g1.pred, n, m);
    ExactFrontierStep(state.out1, next.out1, state.core1, g1.succ, n, m);
    ExactFrontierStep(state.in2, next.in2, state.core2, g2.pred, m, n);
    ExactFrontierStep(state.out2, next.out2, state.core2, g2.succ, m, n);
  }

  /** The copy of the state extended by the pair (n, m), as the search
      builds it before descending. */
  method Extended(g1: Graph, g2: Graph, state: State, n: int, m: int) returns (next: State)
    requires g1.Valid() && g2.Valid() && state.Valid()
    requires |state.core1| == g1.vertexCount && |state.core2| == g2.vertexCount
    requires 0 <= n < |state.core1| && state.core1[n] == NullVertex
    requires 0 <= m < |state.core2| && state.core2[m] == NullVertex
    requires state.FrontiersExact(g1, g2)
    ensures fresh(next) && next.Valid()
    ensures next.vertexCount == state.vertexCount && next.subisomorphism == state.subisomorphism
    ensures next.core1 == state.core1[n := m] && next.core2 == state.core2[m := n]
    ensures next.m1 == state.m1 + {n} && next.m2 == state.m2 + {m}
    ensures next.FrontiersExact(g1, g2)
  {
    g1.NeighboursInRange(n);
    g2.NeighboursInRange(m);
    next := new State.Copy(state);
    next.AddNewPair(n, m, g1.pred[n], g2.pred[m], g1.succ[n], g2.succ[m]);
    PairKeepsFrontiers(g1, g2, state, next, n, m);
  }

  /** One step down the search tree: a copy of the state extended by the
      feasible pair (n, m), searched recursively. */
  method Descend(g1: Graph, g2: Graph, state: State, n: int, m: int) returns (found: bool, mapping: seq<int>)
    requires g1.Valid() && g2.Valid() && state.Valid()
    requires |state.core1| == g1.vertexCount && |state.core2| == g2.vertexCount
    requires 0 <= n < |state.core1| && state.core1[n] == NullVertex
    requires 0 <= m < |state.core2| && state.core2[m] == NullVertex
    requires Consistent(g1, g2, state.core1[n := m]) && state.FrontiersExact(g1, g2)
    ensures found ==> IsMatching(g1, g2, mapping) && Extends(mapping, state.core1[n := m])
    ensures found ==> Extends(mapping, state.core1)
    decreases state.vertexCount - |state.m1|, 0
  {
    assert forall x :: x in state.m1 ==> 0 <= x < state.vertexCount && x != n;
    BoundedSizeMissing(state.m1, state.vertexCount, n);
    var next := Extended(g1, g2, state, n, m);
    found, mapping := Solve(g1, g2, next);
    if found {
      ExtendsDropsPair(mapping, state.core1, n, m);
    }
  }

  /** Whole-graph isomorphism: graphs of different vertex or edge counts are
      rejected outright; otherwise the search starts from the empty state. */
  method Isomorphism(g1: Graph, g2: Graph) returns (matched: bool)
    requires g1.Valid() && g2.Valid()
    ensures g1.vertexCount != g2.vertexCount || g1.edgeCount != g2.edgeCount ==> !matched
    ensures matched ==> exists f :: IsMatching(g1, g2, f) && forall y :: 0 <= y < g2.vertexCount ==> y in f
    ensures g1.vertexCount == 0 && g2.vertexCount == 0 ==> matched
  {
    g1.NoVerticesNoEdges();
    g2.NoVerticesNoEdges();
    if g1.vertexCount != g2.vertexCount {
      return false;
    }
    if g1.edgeCount != g2.edgeCount {
      return false;
    }
    var state := new State(g1.vertexCount, g2.vertexCount, false);
    EmptyConsistent(g1, g2, state.core1);
    FreshFrontiersExact(g1, g2, state);
    var w;
    matched, w := Solve(g1, g2, state);
    if matched {
      MatchingOntoWhenSameSize(g1, g2, w);
    }
  }

  /** Subgraph isomorphism: a pattern with more vertices or edges than the
      target is rejected outright; otherwise the search starts from the
      empty state in subgraph mode. */
  method Subisomorphism(g1: Graph, g2: Graph) returns (matched: bool)
    requires g1.Valid() && g2.Valid()
    ensures g1.vertexCount > g2.vertexCount || g1.edgeCount > g2.edgeCount ==> !matched
    ensures matched ==> exists f :: IsMatching(g1, g2, f)
    ensures g1.vertexCount == 0 ==> matched
  {
    g1.NoVerticesNoEdges();
    if g1.vertexCount > g2.vertexCount {
      return false;
    }
    if g1.edgeCount > g2.edgeCount {
      return false;
    }
    var state := new State(g1.vertexCount, g2.vertexCount, true);
    EmptyConsistent(g1, g2, state.core1);
    FreshFrontiersExact(g1, g2, state);
    var w;
    matched, w := Solve(g1, g2, state);
  }

  /** Subgraph search is incomplete as written.  A pattern with one vertex
      labelled 0 embeds (0 -> 1) in a target whose vertices are labelled
      [1, 0], yet the only candidate pair from the empty state is (0, 0):
      the third ordering branch looks below the pattern count only.  Its
      labels differ, so the search from the empty state fails. */
  method SubgraphMissesEmbedding(g1: Graph, g2: Graph) returns (found: bool)
    requires g1.Valid() && g2.Valid()
    requires g1.vertex == [0] && g1.edge == [] && g2.vertex == [1, 0] && g2.edge == []
    ensures !found
    ensures IsMatching(g1, g2, [1])
  {
    var state := new State(g1.vertexCount, g2.vertexCount, true);
    EmptyConsistent(g1, g2, state.core1);
    FreshFrontiersExact(g1, g2, state);
    forall n, m | state.IsCandidate(n, m) && 0 <= n < g1.vertexCount && 0 <= m < g2.vertexCount
      ensures g1.vertex[n] != g2.vertex[m]
    {
      assert state.core2[0] == NullVertex;
    }
    var w;
    found, w := Solve(g1, g2, state);
    assert !IsArc(g1.edge, 0, 0);
  }

  /** The matching notion the search guarantees ignores self-loops, as the
      source's rules do: a vertex with a loop labelled 0 matches a vertex with
      a loop labelled 1, although no edge of the target carries label 0. */
  lemma SelfLoopLabelIgnored(g1: Graph, g2: Graph)
    requires g1.Valid() && g2.Valid()
    requires g1.vertex == [0] && g1.edge == [Edge(0, 0, 0, -1, -1)]
    requires g2.vertex == [0] && g2.edge == [Edge(0, 0, 1, -1, -1)]
    ensures IsMatching(g1, g2, [0])
    ensures !g2.HasEdge(0, 0, 0)
  {
  }
}
