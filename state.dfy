/** The VF2 search state: a partial mapping between the pattern graph G1 and
    the target graph G2, the sets of mapped vertices, and the four frontier
    sets (unmapped vertices adjacent to the mapped part), together with the
    candidate-pair rule and the feasibility rules that read it. */
module Matching {
  import opened Graphs
  import opened SetFacts

  /** The "unmapped" entry of core1 and core2. */
  const NullVertex := -1

  /** m holds exactly the indices of c whose entry is mapped. */
  ghost predicate MappedSet(m: set<int>, c: seq<int>) {
    forall i :: i in m <==> 0 <= i < |c| && c[i] != NullVertex
  }

  /** The indices of c whose entry is unmapped. */
  function Unmapped(c: seq<int>): set<int> {
    set i | 0 <= i < |c| && c[i] == NullVertex
  }

  /** c1 and c2 are mutually inverse on their mapped entries:
      c1[a] = b exactly when c2[b] = a. */
  ghost predicate Bijection(c1: seq<int>, c2: seq<int>) {
    && (forall a :: 0 <= a < |c1| && c1[a] != NullVertex ==> 0 <= c1[a] < |c2| && c2[c1[a]] == a)
    && (forall b :: 0 <= b < |c2| && c2[b] != NullVertex ==> 0 <= c2[b] < |c1| && c1[c2[b]] == b)
  }

  /** A frontier set holds only unmapped indices of c. */
  ghost predicate Frontier(s: set<int>, c: seq<int>) {
    forall x :: x in s ==> 0 <= x < |c| && c[x] == NullVertex
  }

  /** F holds exactly the unmapped indices x of c that are a neighbour
      (adj[v]) of some mapped v. */
  ghost predicate ExactFrontier(F: set<int>, c: seq<int>, adj: seq<set<int>>)
    requires |adj| == |c|
  {
    forall x :: x in F <==>
      (0 <= x < |c| && c[x] == NullVertex && exists v :: 0 <= v < |c| && c[v] != NullVertex && x in adj[v])
  }

  /** Mapping n, then adding the unmapped members of adj[n] and removing n,
      as addNewPair does, keeps a frontier exact. */
  lemma ExactFrontierStep(F: set<int>, F': set<int>, c: seq<int>, adj: seq<set<int>>, n: int, m: int)
    requires |adj| == |c| && 0 <= n < |c| && c[n] == NullVertex && m != NullVertex
    requires forall x :: x in adj[n] ==> 0 <= x < |c|
    requires ExactFrontier(F, c, adj)
    requires forall x :: x in F' <==> x != n && (x in F || (x in adj[n] && c[n := m][x] == NullVertex))
    ensures ExactFrontier(F', c[n := m], adj)
  {
    var d := c[n := m];
    forall x
      ensures x in F' <==>
        (0 <= x < |d| && d[x] == NullVertex && exists v :: 0 <= v < |d| && d[v] != NullVertex && x in adj[v])
    {
      if 0 <= x < |d| && d[x] == NullVertex && exists v :: 0 <= v < |d| && d[v] != NullVertex && x in adj[v] {
        var v :| 0 <= v < |d| && d[v] != NullVertex && x in adj[v];
        if v != n {
          assert c[v] != NullVertex && c[x] == NullVertex;
        }
      }
      if x in F && x != n {
        var v :| 0 <= v < |c| && c[v] != NullVertex && x in adj[v];
        assert d[v] != NullVertex;
      }
    }
  }

  /** The first components of P strictly increase. */
  ghost predicate Ascending(P: seq<(int, int)>) {
    forall k, k' :: 0 <= k < k' < |P| ==> P[k].0 < P[k'].0
  }

  /** The first components of P are exactly the elements of s, in
      ascending order (so each appears once). */
  ghost predicate FirstsAre(P: seq<(int, int)>, s: set<int>) {
    && Ascending(P)
    && (forall k :: 0 <= k < |P| ==> P[k].0 in s)
    && (forall x :: x in s ==> exists k :: 0 <= k < |P| && P[k].0 == x)
  }

  /** The loop state of PairEach: P pairs, in ascending order, with t
      exactly the elements of s already taken out of rest, and each of them
      is below everything still in rest. */
  ghost predicate PairingSoFar(P: seq<(int, int)>, s: set<int>, rest: set<int>, t: int) {
    && Ascending(P)
    && (forall k :: 0 <= k < |P| ==> P[k].1 == t && P[k].0 in s && P[k].0 !in rest)
    && (forall k, y :: 0 <= k < |P| && y in rest ==> P[k].0 < y)
    && (forall x :: x in s - rest ==> exists k :: 0 <= k < |P| && P[k].0 == x)
  }

  /** Taking the least element x out of rest and appending (x, t) keeps
      PairingSoFar. */
  lemma PairingStep(P: seq<(int, int)>, s: set<int>, rest: set<int>, x: int, t: int)
    requires rest <= s && PairingSoFar(P, s, rest, t)
    requires x in rest && forall y :: y in rest ==> x <= y
    ensures PairingSoFar(P + [(x, t)], s, rest - {x}, t)
  {
    var P' := P + [(x, t)];
    assert s - (rest - {x}) == (s - rest) + {x};
    forall z | z in s - (rest - {x})
      ensures exists k :: 0 <= k < |P'| && P'[k].0 == z
    {
      if z == x {
        assert P'[|P|].0 == z;
      } else {
        var k :| 0 <= k < |P| && P[k].0 == z;
        assert P'[k].0 == z;
      }
    }
  }

  /** The loop state of UnmappedPairs: P pairs, in ascending order, with t
      exactly the unmapped indices of c below vid. */
  ghost predicate UnmappedSoFar(P: seq<(int, int)>, c: seq<int>, vid: int, t: int)
    requires 0 <= vid <= |c|
  {
    && Ascending(P)
    && (forall k :: 0 <= k < |P| ==> P[k].1 == t && 0 <= P[k].0 < vid && c[P[k].0] == NullVertex)
    && (forall x :: 0 <= x < vid && c[x] == NullVertex ==> exists k :: 0 <= k < |P| && P[k].0 == x)
  }

  /** Looking at index vid, and appending (vid, t) when it is unmapped,
      keeps UnmappedSoFar. */
  lemma UnmappedStep(P: seq<(int, int)>, c: seq<int>, vid: int, t: int)
    requires 0 <= vid < |c| && UnmappedSoFar(P, c, vid, t)
    ensures UnmappedSoFar(if c[vid] == NullVertex then P + [(vid, t)] else P, c, vid + 1, t)
  {
    var P' := if c[vid] == NullVertex then P + [(vid, t)] else P;
    forall z | 0 <= z <= vid && c[z] == NullVertex
      ensures exists k :: 0 <= k < |P'| && P'[k].0 == z
    {
      if z == vid {
        assert P'[|P|].0 == z;
      } else {
        var k :| 0 <= k < |P| && P[k].0 == z;
        assert P'[k].0 == z;
      }
    }
  }

  /** t is the largest element of s. */
  ghost predicate IsMax(t: int, s: set<int>) {
    t in s && forall y :: y in s ==> y <= t
  }

  /** t is the largest index below count whose c2 entry is unmapped, or -1
      when there is none. */
  ghost predicate LargestFree(c2: seq<int>, count: int, t: int)
    requires count <= |c2|
  {
    && -1 <= t < count
    && (t >= 0 ==> c2[t] == NullVertex)
    && forall j :: t < j < count ==> c2[j] != NullVertex
  }

  /** The comparison every look-ahead rule applies: equality when matching
      whole graphs, "at most" when matching a subgraph. */
  predicate Within(sub: bool, a: int, b: int) {
    if sub then a <= b else a == b
  }

  /** The rule checkPredRule decides.  Despite its name it looks at the
      edges LEAVING n: every edge n -> v of G1 whose end v is mapped needs an
      edge m -> core1[v] of G2 with the same label; and every mapped
      predecessor v2 of m in G2 must map back to a predecessor of n. */
  ghost predicate PredRule(g1: Graph, g2: Graph, c1: seq<int>, c2: seq<int>, n: int, m: int)
    reads g1, g2
    requires g1.Valid() && g2.Valid() && |c1| == g1.vertexCount && |c2| == g2.vertexCount
    requires 0 <= n < |c1| && 0 <= m < |c2|
  {
    && (forall e :: 0 <= e < |g1.edge| && g1.edge[e].u == n && c1[g1.edge[e].v] != NullVertex ==>
          g2.HasEdge(m, c1[g1.edge[e].v], g1.edge[e].edgeLabel))
    && (forall v2 :: 0 <= v2 < |c2| && v2 in g2.pred[m] && c2[v2] != NullVertex ==> c2[v2] in g1.pred[n])
  }

  /** The rule checkSuccRule decides: the mirror of PredRule over the edges
      ENTERING n, and over the mapped successors of m. */
  ghost predicate SuccRule(g1: Graph, g2: Graph, c1: seq<int>, c2: seq<int>, n: int, m: int)
    reads g1, g2
    requires g1.Valid() && g2.Valid() && |c1| == g1.vertexCount && |c2| == g2.vertexCount
    requires 0 <= n < |c1| && 0 <= m < |c2|
  {
    && (forall e :: 0 <= e < |g1.edge| && g1.edge[e].v == n && c1[g1.edge[e].u] != NullVertex ==>
          g2.HasEdge(c1[g1.edge[e].u], m, g1.edge[e].edgeLabel))
    && (forall v2 :: 0 <= v2 < |c2| && v2 in g2.succ[m] && c2[v2] != NullVertex ==> c2[v2] in g1.succ[n])
  }

  /** The rule checkInRule decides, over the in-frontiers t1, t2.  The
      successor counts are compared in both modes; the predecessor counts
      only when matching a subgraph, and then for equality. */
  ghost predicate InRule(sub: bool, t1: set<int>, t2: set<int>,
                         succ1: set<int>, succ2: set<int>, pred1: set<int>, pred2: set<int>)
  {
    && Within(sub, |t1 * succ1|, |t2 * succ2|)
    && (sub ==> |t1 * pred1| == |t2 * pred2|)
  }

  /** The rule checkOutRule decides, over the out-frontiers t1, t2: both the
      successor and the predecessor counts are compared. */
  ghost predicate OutRule(sub: bool, t1: set<int>, t2: set<int>,
                          succ1: set<int>, succ2: set<int>, pred1: set<int>, pred2: set<int>)
  {
    && Within(sub, |t1 * succ1|, |t2 * succ2|)
    && Within(sub, |t1 * pred1|, |t2 * pred2|)
  }

  /** The vertices below count that are neither mapped nor on a frontier. */
  ghost function Complement(count: int, c: seq<int>, inSet: set<int>, outSet: set<int>): set<int>
    requires count <= |c|
  {
    set v | 0 <= v < count && c[v] == NullVertex && v !in inSet && v !in outSet
  }

  /** The rule checkNewRule decides over the complements n1, n2. */
  ghost predicate NewRule(sub: bool, n1: set<int>, n2: set<int>,
                          pred1: set<int>, pred2: set<int>, succ1: set<int>, succ2: set<int>)
  {
    && Within(sub, |pred1 * n1|, |pred2 * n2|)
    && Within(sub, |succ1 * n1|, |succ2 * n2|)
  }

  /** When some pattern vertex is still unmapped, some target index below
      the pattern's vertex count is unmapped too: |M2| = |M1| < |core1|. */
  lemma FreeTargetExists(c1: seq<int>, c2: seq<int>, m1: set<int>, m2: set<int>, a: int)
    requires |c1| <= |c2|
    requires MappedSet(m1, c1) && MappedSet(m2, c2) && |m1| == |m2|
    requires 0 <= a < |c1| && c1[a] == NullVertex
    ensures exists j :: 0 <= j < |c1| && c2[j] == NullVertex
  {
    BoundedSizeMissing(m1, |c1|, a);
    CoverSize(m2, |c1|);
    var j :| 0 <= j < |c1| && j !in m2;
    assert c2[j] == NullVertex;
  }

  /** Mapping an unmapped n to an unmapped m keeps the cores inverse. */
  lemma ExtendBijection(c1: seq<int>, c2: seq<int>, n: int, m: int)
    requires Bijection(c1, c2)
    requires 0 <= n < |c1| && c1[n] == NullVertex
    requires 0 <= m < |c2| && c2[m] == NullVertex
    ensures Bijection(c1[n := m], c2[m := n])
  {
    var d1, d2 := c1[n := m], c2[m := n];
    forall a | 0 <= a < |d1| && d1[a] != NullVertex
      ensures 0 <= d1[a] < |d2| && d2[d1[a]] == a
    {
      if a != n {
        assert c2[c1[a]] == a;
      }
    }
    forall b | 0 <= b < |d2| && d2[b] != NullVertex
      ensures 0 <= d2[b] < |d1| && d1[d2[b]] == b
    {
      if b != m {
        assert c1[c2[b]] == b;
      }
    }
  }

  /** Mapping an unmapped index adds exactly that index to the mapped set. */
  lemma ExtendMapped(ms: set<int>, c: seq<int>, n: int, v: int)
    requires MappedSet(ms, c)
    requires 0 <= n < |c| && c[n] == NullVertex && v != NullVertex
    ensures MappedSet(ms + {n}, c[n := v])
    ensures |ms + {n}| == |ms| + 1
  {
    assert n !in ms;
  }

  class State {
    var vertexCount: int
    var subisomorphism: bool
    var in1: set<int>
    var in2: set<int>
    var out1: set<int>
    var out2: set<int>
    var m1: set<int>
    var m2: set<int>
    var core1: seq<int>
    var core2: seq<int>

    /** The state invariant: core1 and core2 are inverse, M1/M2 are their
        mapped sets and have the same size, and no frontier holds a mapped
        vertex. */
    ghost predicate Valid()
      reads this
    {
      && |core1| == vertexCount <= |core2|
      && Bijection(core1, core2)
      && MappedSet(m1, core1) && MappedSet(m2, core2) && |m1| == |m2|
      && Frontier(in1, core1) && Frontier(out1, core1)
      && Frontier(in2, core2) && Frontier(out2, core2)
    }

    /** The empty state for a pattern of `count` vertices.  core2 is sized
        to the target's vertex count (see README). */
    constructor (count: int, targetCount: int, sub: bool)
      requires 0 <= count <= targetCount
      ensures Valid()
      ensures vertexCount == count && subisomorphism == sub
      ensures core1 == seq(count, _ => NullVertex) && core2 == seq(targetCount, _ => NullVertex)
      ensures in1 == {} && in2 == {} && out1 == {} && out2 == {} && m1 == {} && m2 == {}
    {
      vertexCount := count;
      subisomorphism := sub;
      core1 := seq(count, _ => NullVertex);
      core2 := seq(targetCount, _ => NullVertex);
      in1, in2, out1, out2 := {}, {}, {}, {};
      m1, m2 := {}, {};
    }

    /** A copy of s, as `State new_state = state` makes before extending. */
    constructor Copy(s: State)
      ensures vertexCount == s.vertexCount && subisomorphism == s.subisomorphism
      ensures in1 == s.in1 && in2 == s.in2 && out1 == s.out1 && out2 == s.out2
      ensures m1 == s.m1 && m2 == s.m2 && core1 == s.core1 && core2 == s.core2
    {
      vertexCount, subisomorphism := s.vertexCount, s.subisomorphism;
      in1, in2, out1, out2 := s.in1, s.in2, s.out1, s.out2;
      m1, m2 := s.m1, s.m2;
      core1, core2 := s.core1, s.core2;
    }

    /** The largest element of s, or -1 when s has no element above -1. */
    static method MaxVertex(s: set<int>) returns (mx: int)
      ensures mx >= -1 && (forall y :: y in s ==> y <= mx) && (mx == -1 || mx in s)
    {
      mx := -1;
      var rest := s;
      while rest != {}
        invariant rest <= s
        invariant mx >= -1 && (forall y :: y in s && y !in rest ==> y <= mx) && (mx == -1 || mx in s)
        decreases |rest|
      {
        NonEmptyHasElement(rest);
        var y :| y in rest;
        mx := if mx < y then y else mx;
        rest := rest - {y};
      }
    }

    /** The pairs (x, t) for every x of s, in ascending x, as iterating an
        ordered set yields them. */
    static method PairEach(s: set<int>, t: int) returns (P: seq<(int, int)>)
      ensures FirstsAre(P, s) && forall k :: 0 <= k < |P| ==> P[k].1 == t
    {
      P := [];
      var rest := s;
      while rest != {}
        invariant rest <= s && PairingSoFar(P, s, rest, t)
        decreases |rest|
      {
        MinExists(rest);
        var x :| x in rest && forall y :: y in rest ==> x <= y;
        PairingStep(P, s, rest, x, t);
        P := P + [(x, t)];
        rest := rest - {x};
      }
      assert s - rest == s;
    }

    /** (n, m) belongs to P(s) under the three-way ordering rule. */
    ghost predicate IsCandidate(n: int, m: int)
      reads this
      requires Valid()
    {
      if out1 != {} && out2 != {} then n in out1 && IsMax(m, out2)
      else if in1 != {} && in2 != {} then n in in1 && IsMax(m, in2)
      else 0 <= n < |core1| && core1[n] == NullVertex && LargestFree(core2, vertexCount, m)
    }

    /** The candidate pairs P(s), by the three-way VF2 ordering rule. */
    method GenCandiPairSet() returns (P: seq<(int, int)>)
      requires Valid()
      ensures out1 != {} && out2 != {} ==>
                FirstsAre(P, out1) && forall k :: 0 <= k < |P| ==> IsMax(P[k].1, out2)
      ensures !(out1 != {} && out2 != {}) && in1 != {} && in2 != {} ==>
                FirstsAre(P, in1) && forall k :: 0 <= k < |P| ==> IsMax(P[k].1, in2)
      ensures !(out1 != {} && out2 != {}) && !(in1 != {} && in2 != {}) ==>
                FirstsAre(P, Unmapped(core1)) && forall k :: 0 <= k < |P| ==> LargestFree(core2, vertexCount, P[k].1)
      ensures forall k :: 0 <= k < |P| ==>
                0 <= P[k].0 < |core1| && core1[P[k].0] == NullVertex &&
                0 <= P[k].1 < |core2| && core2[P[k].1] == NullVertex
      ensures forall k :: 0 <= k < |P| ==> IsCandidate(P[k].0, P[k].1)
    {
      if out1 != {} && out2 != {} {
        var t := MaxVertex(out2);
        NonEmptyHasElement(out2);
        P := PairEach(out1, t);
      } else if in1 != {} && in2 != {} {
        var t := MaxVertex(in2);
        NonEmptyHasElement(in2);
        P := PairEach(in1, t);
      } else {
        var t := LargestFreeIndex(core2, vertexCount);
        P := UnmappedPairs(core1, t);
        if |P| > 0 {
          FreeTargetExists(core1, core2, m1, m2, P[0].0);
        }
      }
    }

    /** The largest index below count whose core entry is unmapped, or -1. */
    static method LargestFreeIndex(c2: seq<int>, count: int) returns (t: int)
      requires 0 <= count <= |c2|
      ensures LargestFree(c2, count, t)
    {
      t := count - 1;
      while t >= 0 && c2[t] != NullVertex
        invariant -1 <= t < count
        invariant forall j :: t < j < count ==> c2[j] != NullVertex
        decreases t
      {
        t := t - 1;
      }
    }

    /** The pairs (x, t) for every unmapped index x of c1, in ascending x. */
    static method UnmappedPairs(c1: seq<int>, t: int) returns (P: seq<(int, int)>)
      ensures FirstsAre(P, Unmapped(c1)) && forall k :: 0 <= k < |P| ==> P[k].1 == t
    {
      P := [];
      var vid := 0;
      while vid < |c1|
        invariant 0 <= vid <= |c1| && UnmappedSoFar(P, c1, vid, t)
      {
        UnmappedStep(P, c1, vid, t);
        if c1[vid] == NullVertex {
          P := P + [(vid, t)];
        }
        vid := vid + 1;
      }
    }

    /** Extends the mapping by n -> m and updates M1, M2 and the
        frontiers: the unmapped predecessors and successors of n (of m)
        join in1 and out1 (in2 and out2), and n (m) leaves them. */
    method AddNewPair(n: int, m: int, pred1: set<int>, pred2: set<int>, succ1: set<int>, succ2: set<int>)
      requires Valid()
      requires 0 <= n < |core1| && core1[n] == NullVertex
      requires 0 <= m < |core2| && core2[m] == NullVertex
      requires forall u :: u in pred1 || u in succ1 ==> 0 <= u < |core1|
      requires forall u :: u in pred2 || u in succ2 ==> 0 <= u < |core2|
      modifies this
      ensures Valid()
      ensures vertexCount == old(vertexCount) && subisomorphism == old(subisomorphism)
      ensures core1 == old(core1)[n := m] && core2 == old(core2)[m := n]
      ensures m1 == old(m1) + {n} && m2 == old(m2) + {m}
      ensures forall x :: x in in1 <==> x != n && (x in old(in1) || (x in pred1 && core1[x] == NullVertex))
      ensures forall x :: x in out1 <==> x != n && (x in old(out1) || (x in succ1 && core1[x] == NullVertex))
      ensures forall x :: x in in2 <==> x != m && (x in old(in2) || (x in pred2 && core2[x] == NullVertex))
      ensures forall x :: x in out2 <==> x != m && (x in old(out2) || (x in succ2 && core2[x] == NullVertex))
    {
      ghost var f1, g1, f2, g2 := in1, out1, in2, out2;
      MapPair(n, m);
      GrowFrontiers(n, m, pred1, pred2, succ1, succ2);
      assert Frontier(in1, core1) && Frontier(out1, core1) by {
        assert Frontier(f1, old(core1)) && Frontier(g1, old(core1));
      }
      assert Frontier(in2, core2) && Frontier(out2, core2) by {
        assert Frontier(f2, old(core2)) && Frontier(g2, old(core2));
      }
    }

    /** The first half of AddNewPair: n and m join M1 and M2, and the cores
        map them to each other. */
    method MapPair(n: int, m: int)
      requires Valid()
      requires 0 <= n < |core1| && core1[n] == NullVertex
      requires 0 <= m < |core2| && core2[m] == NullVertex
      modifies this
      ensures |core1| == vertexCount <= |core2| && Bijection(core1, core2)
      ensures MappedSet(m1, core1) && MappedSet(m2, core2) && |m1| == |m2|
      ensures vertexCount == old(vertexCount) && subisomorphism == old(subisomorphism)
      ensures core1 == old(core1)[n := m] && core2 == old(core2)[m := n]
      ensures m1 == old(m1) + {n} && m2 == old(m2) + {m}
      ensures in1 == old(in1) && out1 == old(out1) && in2 == old(in2) && out2 == old(out2)
    {
      ExtendBijection(core1, core2, n, m);
      ExtendMapped(m1, core1, n, m);
      ExtendMapped(m2, core2, m, n);
      m1 := m1 + {n};
      m2 := m2 + {m};
      core1 := core1[n := m];
      core2 := core2[m := n];
    }

    /** The second half of AddNewPair: the unmapped neighbours of n (of m)
        join the frontiers, then n (m) leaves them. */
    method GrowFrontiers(n: int, m: int, pred1: set<int>, pred2: set<int>, succ1: set<int>, succ2: set<int>)
      requires 0 <= n < |core1| && 0 <= m < |core2|
      requires forall u :: u in pred1 || u in succ1 ==> 0 <= u < |core1|
      requires forall u :: u in pred2 || u in succ2 ==> 0 <= u < |core2|
      modifies this
      ensures vertexCount == old(vertexCount) && subisomorphism == old(subisomorphism)
      ensures core1 == old(core1) && core2 == old(core2) && m1 == old(m1) && m2 == old(m2)
      ensures forall x :: x in in1 <==> x != n && (x in old(in1) || (x in pred1 && core1[x] == NullVertex))
      ensures forall x :: x in out1 <==> x != n && (x in old(out1) || (x in succ1 && core1[x] == NullVertex))
      ensures forall x :: x in in2 <==> x != m && (x in old(in2) || (x in pred2 && core2[x] == NullVertex))
      ensures forall x :: x in out2 <==> x != m && (x in old(out2) || (x in succ2 && core2[x] == NullVertex))
    {
      in1 := AddUnmapped(in1, pred1, core1);
      in2 := AddUnmapped(in2, pred2, core2);
      out1 := AddUnmapped(out1, succ1, core1);
      out2 := AddUnmapped(out2, succ2, core2);
      in1 := in1 - {n};
      in2 := in2 - {m};
      out1 := out1 - {n};
      out2 := out2 - {m};
    }

    /** frontier plus every element of src whose core entry is unmapped. */
    static method AddUnmapped(frontier: set<int>, src: set<int>, core: seq<int>) returns (r: set<int>)
      requires forall u :: u in src ==> 0 <= u < |core|
      ensures forall x :: x in r <==> x in frontier || (x in src && core[x] == NullVertex)
    {
      r := frontier;
      var rest := src;
      while rest != {}
        invariant rest <= src
        invariant forall x :: x in r <==> x in frontier || (x in src && x !in rest && core[x] == NullVertex)
        decreases |rest|
      {
        NonEmptyHasElement(rest);
        var u :| u in rest;
        if core[u] == NullVertex {
          r := r + {u};
        }
        rest := rest - {u};
      }
    }

    /** Decides PredRule for the candidate (n, m) by walking n's outgoing
        list in G1 and, for each mapped end, m's outgoing list in G2. */
    method CheckPredRule(g1: Graph, g2: Graph, n: int, m: int) returns (ok: bool)
      requires Valid() && g1.Valid() && g2.Valid()
      requires |core1| == g1.vertexCount && |core2| == g2.vertexCount
      requires 0 <= n < |core1| && 0 <= m < |core2|
      ensures ok == PredRule(g1, g2, core1, core2, n, m)
    {
      assert HeadLinked(g1.edge, g1.headEdge, n);
      var eid := g1.headEdge[n];
      while eid != NullEdge
        invariant -1 <= eid < |g1.edge| && (eid >= 0 ==> g1.edge[eid].u == n)
        invariant forall e :: eid < e < |g1.edge| && g1.edge[e].u == n && core1[g1.edge[e].v] != NullVertex ==>
                    g2.HasEdge(m, core1[g1.edge[e].v], g1.edge[e].edgeLabel)
        decreases eid
      {
        assert NextLinked(g1.edge, eid);
        var vid := g1.edge[eid].v;
        var mapVid := core1[vid];
        if mapVid != NullVertex {
          var lbl := g1.edge[eid].edgeLabel;
          var flag := false;
          assert HeadLinked(g2.edge, g2.headEdge, m);
          var eid2 := g2.headEdge[m];
          while eid2 != NullEdge
            invariant -1 <= eid2 < |g2.edge| && (eid2 >= 0 ==> g2.edge[eid2].u == m)
            invariant forall j :: eid2 < j < |g2.edge| && g2.edge[j].u == m ==>
                        !(g2.edge[j].v == mapVid && g2.edge[j].edgeLabel == lbl)
            decreases eid2
          {
            assert NextLinked(g2.edge, eid2);
            if g2.edge[eid2].v == mapVid && g2.edge[eid2].edgeLabel == lbl {
              flag := true;
              break;
            }
            eid2 := g2.edge[eid2].next;
          }
          if !flag {
            return false;
          }
        }
        eid := g1.edge[eid].next;
      }
      var newPred := m2 * g2.pred[m];
      var rest := newPred;
      while rest != {}
        invariant rest <= newPred
        invariant forall v2 :: v2 in newPred && v2 !in rest ==> core2[v2] in g1.pred[n]
        decreases |rest|
      {
        NonEmptyHasElement(rest);
        var v2 :| v2 in rest;
        var v1 := core2[v2];
        assert v1 != NullVertex;
        if v1 !in g1.pred[n] {
          return false;
        }
        rest := rest - {v2};
      }
      return true;
    }

    /** Decides SuccRule for the candidate (n, m) by walking n's incoming
        list in G1 and, for each mapped end, m's incoming list in G2. */
    method CheckSuccRule(g1: Graph, g2: Graph, n: int, m: int) returns (ok: bool)
      requires Valid() && g1.Valid() && g2.Valid()
      requires |core1| == g1.vertexCount && |core2| == g2.vertexCount
      requires 0 <= n < |core1| && 0 <= m < |core2|
      ensures ok == SuccRule(g1, g2, core1, core2, n, m)
    {
      assert RevHeadLinked(g1.edge, g1.revHeadEdge, n);
      var eid := g1.revHeadEdge[n];
      while eid != NullEdge
        invariant -1 <= eid < |g1.edge| && (eid >= 0 ==> g1.edge[eid].v == n)
        invariant forall e :: eid < e < |g1.edge| && g1.edge[e].v == n && core1[g1.edge[e].u] != NullVertex ==>
                    g2.HasEdge(core1[g1.edge[e].u], m, g1.edge[e].edgeLabel)
        decreases eid
      {
        assert PrevLinked(g1.edge, eid);
        var vid := g1.edge[eid].u;
        var mapVid := core1[vid];
        if mapVid != NullVertex {
          var lbl := g1.edge[eid].edgeLabel;
          var flag := false;
          assert RevHeadLinked(g2.edge, g2.revHeadEdge, m);
          var eid2 := g2.revHeadEdge[m];
          while eid2 != NullEdge
            invariant -1 <= eid2 < |g2.edge| && (eid2 >= 0 ==> g2.edge[eid2].v == m)
            invariant forall j :: eid2 < j < |g2.edge| && g2.edge[j].v == m ==>
                        !(g2.edge[j].u == mapVid && g2.edge[j].edgeLabel == lbl)
            decreases eid2
          {
            assert PrevLinked(g2.edge, eid2);
            if g2.edge[eid2].u == mapVid && g2.edge[eid2].edgeLabel == lbl {
              flag := true;
              break;
            }
            eid2 := g2.edge[eid2].prev;
          }
          if !flag {
            return false;
          }
        }
        eid := g1.edge[eid].prev;
      }
      var newSucc := m2 * g2.succ[m];
      var rest := newSucc;
      while rest != {}
        invariant rest <= newSucc
        invariant forall v2 :: v2 in newSucc && v2 !in rest ==> core2[v2] in g1.succ[n]
        decreases |rest|
      {
        NonEmptyHasElement(rest);
        var v2 :| v2 in rest;
        var v1 := core2[v2];
        assert v1 != NullVertex;
        if v1 !in g1.succ[n] {
          return false;
        }
        rest := rest - {v2};
      }
      return true;
    }

    /** The number of elements of a that are also in b. */
    static method SetIntersectionSize(a: set<int>, b: set<int>) returns (c: int)
      ensures c == |a * b|
    {
      c := 0;
      var rest := a;
      while rest != {}
        invariant rest <= a
        invariant c + |rest * b| == |a * b|
        decreases |rest|
      {
        NonEmptyHasElement(rest);
        var k :| k in rest;
        if k in b {
          c := c + 1;
          assert rest * b == (rest - {k}) * b + {k};
        } else {
          assert (forall x :: x in rest * b ==> x in (rest - {k}) * b) ==> rest * b <= (rest - {k}) * b;
          assert rest * b == (rest - {k}) * b;
        }
        rest := rest - {k};
      }
    }

    /** Decides InRule for the candidate (n, m). */
    method CheckInRule(g1: Graph, g2: Graph, n: int, m: int) returns (ok: bool)
      requires 0 <= n < |g1.succ| && n < |g1.pred| && 0 <= m < |g2.succ| && m < |g2.pred|
      ensures ok == InRule(subisomorphism, in1, in2, g1.succ[n], g2.succ[m], g1.pred[n], g2.pred[m])
    {
      var cardSucc1 := SetIntersectionSize(in1, g1.succ[n]);
      var cardSucc2 := SetIntersectionSize(in2, g2.succ[m]);
      if !subisomorphism && cardSucc1 != cardSucc2 {
        return false;
      }
      if subisomorphism && cardSucc1 > cardSucc2 {
        return false;
      }
      var cardPred1 := SetIntersectionSize(in1, g1.pred[n]);
      var cardPred2 := SetIntersectionSize(in2, g2.pred[m]);
      // As written, the predecessor counts are compared only in subgraph
      // mode, and for equality; the ">" test after it can never fire.
      if subisomorphism && cardPred1 != cardPred2 {
        return false;
      }
      if subisomorphism && cardPred1 > cardPred2 {
        return false;
      }
      return true;
    }

    /** Decides OutRule for the candidate (n, m). */
    method CheckOutRule(g1: Graph, g2: Graph, n: int, m: int) returns (ok: bool)
      requires 0 <= n < |g1.succ| && n < |g1.pred| && 0 <= m < |g2.succ| && m < |g2.pred|
      ensures ok == OutRule(subisomorphism, out1, out2, g1.succ[n], g2.succ[m], g1.pred[n], g2.pred[m])
    {
      var cardSucc1 := SetIntersectionSize(out1, g1.succ[n]);
      var cardSucc2 := SetIntersectionSize(out2, g2.succ[m]);
      if !subisomorphism && cardSucc1 != cardSucc2 {
        return false;
      }
      if subisomorphism && cardSucc1 > cardSucc2 {
        return false;
      }
      var cardPred1 := SetIntersectionSize(out1, g1.pred[n]);
      var cardPred2 := SetIntersectionSize(out2, g2.pred[m]);
      if !subisomorphism && cardPred1 != cardPred2 {
        return false;
      }
      if subisomorphism && cardPred1 > cardPred2 {
        return false;
      }
      return true;
    }

    /** The vertices below count that are unmapped in core and in neither
        frontier set. */
    static method GenComplementary(count: int, core: seq<int>, inSet: set<int>, outSet: set<int>)
      returns (res: set<int>)
      requires count <= |core|
      ensures res == Complement(count, core, inSet, outSet)
    {
      res := {};
      var vid := 0;
      while vid < count
        invariant 0 <= vid <= if count < 0 then 0 else count
        invariant forall v :: v in res <==> 0 <= v < vid && core[v] == NullVertex && v !in inSet && v !in outSet
      {
        if core[vid] == NullVertex && vid !in inSet && vid !in outSet {
          res := res + {vid};
        }
        vid := vid + 1;
      }
      ghost var spec := Complement(count, core, inSet, outSet);
      assert (forall v :: v in res <==> v in spec) ==> res == spec;
    }

    /** Decides NewRule for the candidate (n, m). */
    method CheckNewRule(g1: Graph, g2: Graph, n: int, m: int) returns (ok: bool)
      requires g1.vertexCount <= |core1| && g2.vertexCount <= |core2|
      requires 0 <= n < |g1.succ| && n < |g1.pred| && 0 <= m < |g2.succ| && m < |g2.pred|
      ensures ok == NewRule(subisomorphism,
                            Complement(g1.vertexCount, core1, in1, out1),
                            Complement(g2.vertexCount, core2, in2, out2),
                            g1.pred[n], g2.pred[m], g1.succ[n], g2.succ[m])
    {
      var n1 := GenComplementary(g1.vertexCount, core1, in1, out1);
      var n2 := GenComplementary(g2.vertexCount, core2, in2, out2);
      var cardPred1 := SetIntersectionSize(g1.pred[n], n1);
      var cardPred2 := SetIntersectionSize(g2.pred[m], n2);
      if !subisomorphism && cardPred1 != cardPred2 {
        return false;
      }
      if subisomorphism && cardPred1 > cardPred2 {
        return false;
      }
      var cardSucc1 := SetIntersectionSize(g1.succ[n], n1);
      var cardSucc2 := SetIntersectionSize(g2.succ[m], n2);
      if !subisomorphism && cardSucc1 != cardSucc2 {
        return false;
      }
      if subisomorphism && cardSucc1 > cardSucc2 {
        return false;
      }
      return true;
    }

    /** The five syntactic rules for the candidate (n, m). */
    ghost predicate SynRules(g1: Graph, g2: Graph, n: int, m: int)
      reads this, g1, g2
      requires Valid() && g1.Valid() && g2.Valid()
      requires |core1| == g1.vertexCount && |core2| == g2.vertexCount
      requires 0 <= n < |core1| && 0 <= m < |core2|
    {
      && PredRule(g1, g2, core1, core2, n, m)
      && SuccRule(g1, g2, core1, core2, n, m)
      && InRule(subisomorphism, in1, in2, g1.succ[n], g2.succ[m], g1.pred[n], g2.pred[m])
      && OutRule(subisomorphism, out1, out2, g1.succ[n], g2.succ[m], g1.pred[n], g2.pred[m])
      && NewRule(subisomorphism,
                 Complement(g1.vertexCount, core1, in1, out1),
                 Complement(g2.vertexCount, core2, in2, out2),
                 g1.pred[n], g2.pred[m], g1.succ[n], g2.succ[m])
    }

    /** The frontiers hold what the State comment at VF2.cpp:142-145 says
        they hold: in1 holds exactly the unmapped G1 vertices with an edge
        into a mapped vertex, out1 exactly the unmapped ends of edges leaving
        one, and in2, out2 the same in G2. */
    ghost predicate FrontiersExact(g1: Graph, g2: Graph)
      reads this, g1, g2
      requires Valid() && g1.Valid() && g2.Valid()
      requires |core1| == g1.vertexCount && |core2| == g2.vertexCount
    {
      && ExactFrontier(in1, core1, g1.pred) && ExactFrontier(out1, core1, g1.succ)
      && ExactFrontier(in2, core2, g2.pred) && ExactFrontier(out2, core2, g2.succ)
    }

    /** All five syntactic rules, in the order the source evaluates them. */
    method CheckSynRules(g1: Graph, g2: Graph, n: int, m: int) returns (ok: bool)
      requires Valid() && g1.Valid() && g2.Valid()
      requires |core1| == g1.vertexCount && |core2| == g2.vertexCount
      requires 0 <= n < |core1| && 0 <= m < |core2|
      ensures ok <==> PredRule(g1, g2, core1, core2, n, m) && SuccRule(g1, g2, core1, core2, n, m) &&
                      InRule(subisomorphism, in1, in2, g1.succ[n], g2.succ[m], g1.pred[n], g2.pred[m]) &&
                      OutRule(subisomorphism, out1, out2, g1.succ[n], g2.succ[m], g1.pred[n], g2.pred[m]) &&
                      NewRule(subisomorphism,
                              Complement(g1.vertexCount, core1, in1, out1),
                              Complement(g2.vertexCount, core2, in2, out2),
                              g1.pred[n], g2.pred[m], g1.succ[n], g2.succ[m])
    {
      ok := CheckPredRule(g1, g2, n, m);
      if !ok {
        return;
      }
      ok := CheckSuccRule(g1, g2, n, m);
      if !ok {
        return;
      }
      ok := CheckInRule(g1, g2, n, m);
      if !ok {
        return;
      }
      ok := CheckOutRule(g1, g2, n, m);
      if !ok {
        return;
      }
      ok := CheckNewRule(g1, g2, n, m);
    }

    /** The semantic rule: the two vertices carry the same label.  Edge
        labels are compared inside the pred and succ rules. */
    function CheckSemRules(g1: Graph, g2: Graph, n: int, m: int): (ok: bool)
      reads g1, g2
      requires g1.Valid() && g2.Valid()
      requires 0 <= n < g1.vertexCount && 0 <= m < g2.vertexCount
      ensures ok <==> g1.vertex[n] == g2.vertex[m]
    {
      g1.vertex[n] == g2.vertex[m]
    }
  }
}
