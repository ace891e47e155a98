/** The labelled directed multigraph the matcher works on.  Edges live in an
    append-only array; two intrusive singly linked lists are threaded
    through it, one per source vertex (`headEdge` / `next`) and one per
    destination vertex (`revHeadEdge` / `prev`).  Alongside, `succ` and
    `pred` keep each vertex's neighbours with parallel edges collapsed. */
module Graphs {

  /** The "no edge" value of heads and links. */
  const NullEdge := -1

  /** An edge u -> v with its label and its two links: `next` is the
      previous edge out of u, `prev` the previous edge into v. */
  datatype Edge = Edge(u: int, v: int, edgeLabel: int, next: int, prev: int)

  /** Edge i's `next` link points to the newest older edge with the same
      source, or is NullEdge when there is none. */
  ghost predicate NextLinked(edge: seq<Edge>, i: int)
    requires 0 <= i < |edge|
  {
    var e := edge[i];
    && -1 <= e.next < i
    && (e.next >= 0 ==> edge[e.next].u == e.u)
    && forall j :: e.next < j < i ==> edge[j].u != e.u
  }

  /** Edge i's `prev` link points to the newest older edge with the same
      destination, or is NullEdge when there is none. */
  ghost predicate PrevLinked(edge: seq<Edge>, i: int)
    requires 0 <= i < |edge|
  {
    var e := edge[i];
    && -1 <= e.prev < i
    && (e.prev >= 0 ==> edge[e.prev].v == e.v)
    && forall j :: e.prev < j < i ==> edge[j].v != e.v
  }

  /** head[x] is the newest edge leaving x, or NullEdge. */
  ghost predicate HeadLinked(edge: seq<Edge>, head: seq<int>, x: int)
    requires 0 <= x < |head|
  {
    && -1 <= head[x] < |edge|
    && (head[x] >= 0 ==> edge[head[x]].u == x)
    && forall j :: head[x] < j < |edge| ==> edge[j].u != x
  }

  /** revHead[y] is the newest edge entering y, or NullEdge. */
  ghost predicate RevHeadLinked(edge: seq<Edge>, revHead: seq<int>, y: int)
    requires 0 <= y < |revHead|
  {
    && -1 <= revHead[y] < |edge|
    && (revHead[y] >= 0 ==> edge[revHead[y]].v == y)
    && forall j :: revHead[y] < j < |edge| ==> edge[j].v != y
  }

  /** Some edge goes from x to y. */
  ghost predicate IsArc(edge: seq<Edge>, x: int, y: int) {
    exists j :: 0 <= j < |edge| && edge[j].u == x && edge[j].v == y
  }

  /** Every link of every edge points strictly backwards. */
  ghost predicate LinksBackward(edge: seq<Edge>) {
    forall i :: 0 <= i < |edge| ==> -1 <= edge[i].next < i && -1 <= edge[i].prev < i
  }

  /** The edges met when following `next` links from edge e. */
  ghost function OutWalk(edge: seq<Edge>, e: int): seq<int>
    requires LinksBackward(edge)
    requires -1 <= e < |edge|
    decreases e + 1
  {
    if e < 0 then [] else [e] + OutWalk(edge, edge[e].next)
  }

  /** The edges met when following `prev` links from edge e. */
  ghost function InWalk(edge: seq<Edge>, e: int): seq<int>
    requires LinksBackward(edge)
    requires -1 <= e < |edge|
    decreases e + 1
  {
    if e < 0 then [] else [e] + InWalk(edge, edge[e].prev)
  }

  ghost predicate StrictlyDecreasing(w: seq<int>) {
    forall a, b :: 0 <= a < b < |w| ==> w[a] > w[b]
  }

  /** From an edge leaving x (or from NullEdge), the `next` walk visits, in
      decreasing order and each once, exactly the edges up to e that leave x. */
  lemma {:induction false} OutWalkFrom(edge: seq<Edge>, x: int, e: int)
    requires forall i :: 0 <= i < |edge| ==> NextLinked(edge, i)
    requires LinksBackward(edge)
    requires -1 <= e < |edge| && (e >= 0 ==> edge[e].u == x)
    ensures forall j :: j in OutWalk(edge, e) <==> 0 <= j <= e && edge[j].u == x
    ensures StrictlyDecreasing(OutWalk(edge, e))
    decreases e + 1
  {
    if e >= 0 {
      assert NextLinked(edge, e);
      var nx := edge[e].next;
      OutWalkFrom(edge, x, nx);
      var w := OutWalk(edge, e);
      assert w == [e] + OutWalk(edge, nx);
      forall j
        ensures j in w <==> 0 <= j <= e && edge[j].u == x
      {
        if nx < j < e {
          assert edge[j].u != x;
        }
      }
      forall a, b | 0 <= a < b < |w|
        ensures w[a] > w[b]
      {
        var rest := OutWalk(edge, nx);
        assert w[b] == rest[b - 1] && rest[b - 1] in rest;
        if a > 0 {
          assert w[a] == rest[a - 1];
        }
      }
    }
  }

  /** The `prev` walk mirrors OutWalkFrom over destinations. */
  lemma {:induction false} InWalkFrom(edge: seq<Edge>, y: int, e: int)
    requires forall i :: 0 <= i < |edge| ==> PrevLinked(edge, i)
    requires LinksBackward(edge)
    requires -1 <= e < |edge| && (e >= 0 ==> edge[e].v == y)
    ensures forall j :: j in InWalk(edge, e) <==> 0 <= j <= e && edge[j].v == y
    ensures StrictlyDecreasing(InWalk(edge, e))
    decreases e + 1
  {
    if e >= 0 {
      assert PrevLinked(edge, e);
      var pv := edge[e].prev;
      InWalkFrom(edge, y, pv);
      var w := InWalk(edge, e);
      assert w == [e] + InWalk(edge, pv);
      forall j
        ensures j in w <==> 0 <= j <= e && edge[j].v == y
      {
        if pv < j < e {
          assert edge[j].v != y;
        }
      }
      forall a, b | 0 <= a < b < |w|
        ensures w[a] > w[b]
      {
        var rest := InWalk(edge, pv);
        assert w[b] == rest[b - 1] && rest[b - 1] in rest;
        if a > 0 {
          assert w[a] == rest[a - 1];
        }
      }
    }
  }

  class Graph {
    var edgeCount: int
    var vertexCount: int
    var vertex: seq<int>
    var headEdge: seq<int>
    var revHeadEdge: seq<int>
    var edge: seq<Edge>
    var pred: seq<set<int>>
    var succ: seq<set<int>>

    /** The graph invariant every builder operation keeps. */
    ghost predicate Valid()
      reads this
    {
      && 0 <= vertexCount
      && |vertex| == vertexCount && |headEdge| == vertexCount && |revHeadEdge| == vertexCount
      && |pred| == vertexCount && |succ| == vertexCount
      && edgeCount == |edge|
      && (forall i :: 0 <= i < |edge| ==> 0 <= edge[i].u < vertexCount && 0 <= edge[i].v < vertexCount)
      && (forall i :: 0 <= i < |edge| ==> NextLinked(edge, i) && PrevLinked(edge, i))
      && (forall x :: 0 <= x < vertexCount ==> HeadLinked(edge, headEdge, x) && RevHeadLinked(edge, revHeadEdge, x))
      && (forall x, y :: 0 <= x < vertexCount ==> (y in succ[x] <==> IsArc(edge, x, y)))
      && (forall x, y :: 0 <= x < vertexCount ==> (y in pred[x] <==> IsArc(edge, y, x)))
    }

    /** Some edge goes from x to y with label l. */
    ghost predicate HasEdge(x: int, y: int, l: int)
      reads this
    {
      exists j :: 0 <= j < |edge| && edge[j].u == x && edge[j].v == y && edge[j].edgeLabel == l
    }

    /** An empty graph, as `initial` leaves it. */
    constructor ()
      ensures Valid()
      ensures vertexCount == 0 && edgeCount == 0
      ensures vertex == [] && edge == [] && headEdge == [] && revHeadEdge == [] && pred == [] && succ == []
    {
      edgeCount, vertexCount := 0, 0;
      vertex, headEdge, revHeadEdge, edge, pred, succ := [], [], [], [], [], [];
    }

    /** Empties the graph. */
    method Initial()
      modifies this
      ensures Valid()
      ensures vertexCount == 0 && edgeCount == 0
      ensures vertex == [] && edge == [] && headEdge == [] && revHeadEdge == [] && pred == [] && succ == []
    {
      edgeCount, vertexCount := 0, 0;
      vertex, headEdge, revHeadEdge, edge, pred, succ := [], [], [], [], [], [];
    }

    /** Appends an isolated vertex with the given label. */
    method AddVertex(vertexLabel: int)
      requires Valid()
      modifies this
      ensures Valid()
      ensures vertexCount == old(vertexCount) + 1 && edgeCount == old(edgeCount)
      ensures vertex == old(vertex) + [vertexLabel] && edge == old(edge)
      ensures headEdge == old(headEdge) + [NullEdge] && revHeadEdge == old(revHeadEdge) + [NullEdge]
      ensures pred == old(pred) + [{}] && succ == old(succ) + [{}]
    {
      vertex := vertex + [vertexLabel];
      headEdge := headEdge + [NullEdge];
      revHeadEdge := revHeadEdge + [NullEdge];
      pred := pred + [{}];
      succ := succ + [{}];
      vertexCount := vertexCount + 1;
      forall x | 0 <= x < vertexCount
        ensures HeadLinked(edge, headEdge, x) && RevHeadLinked(edge, revHeadEdge, x)
      {
        if x < vertexCount - 1 {
          assert HeadLinked(edge, old(headEdge), x) && RevHeadLinked(edge, old(revHeadEdge), x);
        }
      }
      forall x, y | 0 <= x < vertexCount
        ensures y in succ[x] <==> IsArc(edge, x, y)
        ensures y in pred[x] <==> IsArc(edge, y, x)
      {
        if x == vertexCount - 1 {
          assert !IsArc(edge, x, y) && !IsArc(edge, y, x);
        }
      }
    }

    /** Appends the edge u -> v with the given label and pushes it on the
        front of u's outgoing list and of v's incoming list. */
    method AddEdge(u: int, v: int, edgeLabel: int)
      requires Valid()
      requires 0 <= u < vertexCount && 0 <= v < vertexCount
      modifies this
      ensures Valid()
      ensures edgeCount == old(edgeCount) + 1 && vertexCount == old(vertexCount) && vertex == old(vertex)
      ensures edge == old(edge) + [Edge(u, v, edgeLabel, old(headEdge[u]), old(revHeadEdge[v]))]
      ensures headEdge == old(headEdge)[u := old(edgeCount)]
      ensures revHeadEdge == old(revHeadEdge)[v := old(edgeCount)]
      ensures succ == old(succ)[u := old(succ[u]) + {v}]
      ensures pred == old(pred)[v := old(pred[v]) + {u}]
    {
      ghost var oldEdge := edge;
      edge := edge + [Edge(u, v, edgeLabel, headEdge[u], revHeadEdge[v])];
      headEdge := headEdge[u := edgeCount];
      revHeadEdge := revHeadEdge[v := edgeCount];
      edgeCount := edgeCount + 1;
      pred := pred[v := pred[v] + {u}];
      succ := succ[u := succ[u] + {v}];
      AppendKeepsLinks(oldEdge, edge);
      PushKeepsHeads(oldEdge, edge, old(headEdge), old(revHeadEdge), headEdge, revHeadEdge, u, v, edgeLabel);
      PushKeepsNeighbours(oldEdge, edge, old(pred), old(succ), pred, succ, u, v);
    }

    /** Walking u's outgoing list from headEdge[u] visits exactly the edges
        leaving u, newest first, each once; so the walk is finite. */
    lemma OutListIsSource(x: int)
      requires Valid()
      requires 0 <= x < vertexCount
      ensures LinksBackward(edge) && -1 <= headEdge[x] < |edge|
      ensures forall j :: j in OutWalk(edge, headEdge[x]) <==> 0 <= j < |edge| && edge[j].u == x
      ensures StrictlyDecreasing(OutWalk(edge, headEdge[x]))
    {
      assert HeadLinked(edge, headEdge, x);
      assert LinksBackward(edge) by {
        forall i | 0 <= i < |edge|
          ensures -1 <= edge[i].next < i && -1 <= edge[i].prev < i
        {
          assert NextLinked(edge, i) && PrevLinked(edge, i);
        }
      }
      OutWalkFrom(edge, x, headEdge[x]);
    }

    /** Walking y's incoming list from revHeadEdge[y] visits exactly the
        edges entering y, newest first, each once. */
    lemma InListIsDestination(y: int)
      requires Valid()
      requires 0 <= y < vertexCount
      ensures LinksBackward(edge) && -1 <= revHeadEdge[y] < |edge|
      ensures forall j :: j in InWalk(edge, revHeadEdge[y]) <==> 0 <= j < |edge| && edge[j].v == y
      ensures StrictlyDecreasing(InWalk(edge, revHeadEdge[y]))
    {
      assert RevHeadLinked(edge, revHeadEdge, y);
      assert LinksBackward(edge) by {
        forall i | 0 <= i < |edge|
          ensures -1 <= edge[i].next < i && -1 <= edge[i].prev < i
        {
          assert NextLinked(edge, i) && PrevLinked(edge, i);
        }
      }
      InWalkFrom(edge, y, revHeadEdge[y]);
    }

    /** `succ` and `pred` describe the same arcs from both ends. */
    lemma SuccPredDual(x: int, y: int)
      requires Valid()
      requires 0 <= x < vertexCount && 0 <= y < vertexCount
      ensures y in succ[x] <==> x in pred[y]
    {
    }

    /** Neighbour sets hold vertex indices only. */
    lemma NeighboursInRange(x: int)
      requires Valid()
      requires 0 <= x < vertexCount
      ensures forall y :: y in succ[x] ==> 0 <= y < vertexCount
      ensures forall y :: y in pred[x] ==> 0 <= y < vertexCount
    {
      forall y | y in succ[x]
        ensures 0 <= y < vertexCount
      {
        assert IsArc(edge, x, y);
      }
      forall y | y in pred[x]
        ensures 0 <= y < vertexCount
      {
        assert IsArc(edge, y, x);
      }
    }

    /** A graph without vertices has no edges. */
    lemma NoVerticesNoEdges()
      requires Valid()
      ensures vertexCount == 0 ==> edgeCount == 0
    {
      if edgeCount > 0 {
        assert 0 <= edge[0].u < vertexCount;
      }
    }
  }

  /** Appending an edge keeps the links of the older edges. */
  lemma AppendKeepsLinks(old_: seq<Edge>, new_: seq<Edge>)
    requires |new_| == |old_| + 1 && old_ == new_[..|old_|]
    requires forall i :: 0 <= i < |old_| ==> NextLinked(old_, i) && PrevLinked(old_, i)
    ensures forall i :: 0 <= i < |old_| ==> NextLinked(new_, i) && PrevLinked(new_, i)
  {
    forall i | 0 <= i < |old_|
      ensures NextLinked(new_, i) && PrevLinked(new_, i)
    {
      assert NextLinked(old_, i) && PrevLinked(old_, i);
    }
  }

  /** Pushing edge u -> v on the front of u's outgoing and v's incoming
      list links it correctly and keeps every head correct. */
  lemma PushKeepsHeads(edge: seq<Edge>, e: seq<Edge>, head: seq<int>, revHead: seq<int>,
                       head': seq<int>, revHead': seq<int>, u: int, v: int, l: int)
    requires |head| == |revHead| && 0 <= u < |head| && 0 <= v < |head|
    requires e == edge + [Edge(u, v, l, head[u], revHead[v])]
    requires head' == head[u := |edge|] && revHead' == revHead[v := |edge|]
    requires forall x :: 0 <= x < |head| ==> HeadLinked(edge, head, x) && RevHeadLinked(edge, revHead, x)
    ensures NextLinked(e, |edge|) && PrevLinked(e, |edge|)
    ensures forall x :: 0 <= x < |head| ==> HeadLinked(e, head', x) && RevHeadLinked(e, revHead', x)
  {
    assert HeadLinked(edge, head, u) && RevHeadLinked(edge, revHead, v);
    forall x | 0 <= x < |head|
      ensures HeadLinked(e, head', x) && RevHeadLinked(e, revHead', x)
    {
      assert HeadLinked(edge, head, x) && RevHeadLinked(edge, revHead, x);
    }
  }

  /** Appending u -> v adds exactly v to succ[u] and u to pred[v], and
      keeps the neighbour sets equal to the arcs of the edge array. */
  lemma PushKeepsNeighbours(edge: seq<Edge>, e: seq<Edge>, pred: seq<set<int>>, succ: seq<set<int>>,
                            pred': seq<set<int>>, succ': seq<set<int>>, u: int, v: int)
    requires |e| == |edge| + 1 && edge == e[..|edge|] && e[|edge|].u == u && e[|edge|].v == v
    requires |pred| == |succ| && 0 <= u < |succ| && 0 <= v < |succ|
    requires pred' == pred[v := pred[v] + {u}] && succ' == succ[u := succ[u] + {v}]
    requires forall x, y :: 0 <= x < |succ| ==> (y in succ[x] <==> IsArc(edge, x, y))
    requires forall x, y :: 0 <= x < |succ| ==> (y in pred[x] <==> IsArc(edge, y, x))
    ensures forall x, y :: 0 <= x < |succ| ==> (y in succ'[x] <==> IsArc(e, x, y))
    ensures forall x, y :: 0 <= x < |succ| ==> (y in pred'[x] <==> IsArc(e, y, x))
  {
    forall x, y | 0 <= x < |succ|
      ensures y in succ'[x] <==> IsArc(e, x, y)
      ensures y in pred'[x] <==> IsArc(e, y, x)
    {
      ArcAppend(edge, e, x, y);
      ArcAppend(edge, e, y, x);
    }
  }

  /** An arc of the extended edge array is an old arc or the new edge. */
  lemma ArcAppend(old_: seq<Edge>, new_: seq<Edge>, x: int, y: int)
    requires |new_| == |old_| + 1 && old_ == new_[..|old_|]
    ensures IsArc(new_, x, y) <==> IsArc(old_, x, y) || (new_[|old_|].u == x && new_[|old_|].v == y)
  {
    if IsArc(new_, x, y) {
      var j :| 0 <= j < |new_| && new_[j].u == x && new_[j].v == y;
      if j < |old_| {
        assert old_[j] == new_[j];
      }
    }
    if IsArc(old_, x, y) {
      var j :| 0 <= j < |old_| && old_[j].u == x && old_[j].v == y;
      assert new_[j] == old_[j];
    }
    if new_[|old_|].u == x && new_[|old_|].v == y {
      assert new_[|old_|].u == x;
    }
  }
}
