/** The invariant of `topsort` in Source_Code/Graph.h, Kahn's algorithm: every vertex's
    `indegree` field counts the edges into it that have not been taken away yet, a vertex is
    queued exactly when that count reaches zero, and the vertices taken from the queue are in
    topological order. */
module Kahn {
  import opened Seqs
  import opened Digraph
  import opened Paths
  import opened Search

  /** The edges of `counted` that end at w. */
  ghost function Into(edges: map<EdgeId, Edge>, counted: set<EdgeId>, w: VertexId): set<EdgeId> {
    set e | e in counted && e in edges && edges[e].dest == w
  }

  /** How many of the edges `counted` end at w. */
  ghost function InDeg(edges: map<EdgeId, Edge>, counted: set<EdgeId>, w: VertexId): nat {
    |Into(edges, counted, w)|
  }

  /** Counting one more edge raises the in-degree of its destination by one and no other. */
  lemma InDegAdd(edges: map<EdgeId, Edge>, counted: set<EdgeId>, e: EdgeId, w: VertexId)
    requires e in edges && e !in counted
    ensures InDeg(edges, counted + {e}, w) == InDeg(edges, counted, w) + (if edges[e].dest == w then 1 else 0)
  {
    var before := Into(edges, counted, w);
    if edges[e].dest == w {
      assert e !in before && Into(edges, counted + {e}, w) == before + {e};
    } else {
      assert Into(edges, counted + {e}, w) == before;
    }
  }

  /** Dropping a counted edge lowers the in-degree of its destination by one and no other; in
      particular the destination's count was positive. */
  lemma InDegRemove(edges: map<EdgeId, Edge>, counted: set<EdgeId>, e: EdgeId, w: VertexId)
    requires e in edges && e in counted
    ensures edges[e].dest == w ==> InDeg(edges, counted, w) >= 1
    ensures InDeg(edges, counted - {e}, w) == InDeg(edges, counted, w) - (if edges[e].dest == w then 1 else 0)
  {
    InDegAdd(edges, counted - {e}, e, w);
    assert counted - {e} + {e} == counted;
  }

  /** A vertex with a positive count has a counted edge coming in. */
  lemma InDegWitness(edges: map<EdgeId, Edge>, counted: set<EdgeId>, w: VertexId) returns (e: EdgeId)
    requires InDeg(edges, counted, w) > 0
    ensures e in counted && e in edges && edges[e].dest == w
  {
    e :| e in Into(edges, counted, w);
  }


  /** A vertex with a zero count has no counted edge coming in. */
  lemma InDegZero(edges: map<EdgeId, Edge>, counted: set<EdgeId>, w: VertexId)
    requires InDeg(edges, counted, w) == 0
    ensures forall e :: e in counted && e in edges ==> edges[e].dest != w
  {
    assert Into(edges, counted, w) == {};
    forall e | e in counted && e in edges ensures edges[e].dest != w {
      assert e !in Into(edges, counted, w);
    }
  }

  /** The edges whose origin is not in s: the edges not yet taken away once the vertices of s
      have been dequeued. */
  ghost function Outside(edges: map<EdgeId, Edge>, s: set<VertexId>): set<EdgeId> {
    set e | e in edges && edges[e].orig !in s
  }

  /** Taking v out of the counted vertices' complement takes away exactly v's edges. */
  lemma OutsideStep(edges: map<EdgeId, Edge>, s: set<VertexId>, v: VertexId)
    requires v !in s
    ensures Outside(edges, s) == Outside(edges, s + {v}) + EdgesFrom(edges, v)
  {
  }

  /** Every vertex's `indegree` is its count over `left`; its other fields are as in a0. */
  ghost predicate Counts<T>(g: Net<T>, a0: map<VertexId, Aux>, a: map<VertexId, Aux>, left: set<EdgeId>) {
    && a.Keys == g.vertices.Keys
    && (forall w :: w in a ==> w in a0 && a[w] == a0[w].(indegree := InDeg(g.edges, left, w)))
  }

  /** s lists distinct vertices, and exactly those whose count over `left` is zero. */
  ghost predicate Queued<T>(g: Net<T>, s: seq<VertexId>, left: set<EdgeId>) {
    && |Elems(s)| == |s| && (forall x :: x in s ==> x in g.vertices)
    && (forall w :: w in g.vertices ==> (w in s <==> InDeg(g.edges, left, w) == 0))
  }

  /** What `topsort`'s queue loop keeps, with `left` the edges still counted: the counts are
      over `left`; order, the dequeued vertices, followed by the queue, lists exactly the
      vertices whose count is zero; no edge out of a vertex not yet dequeued has been taken
      away; and every edge into a dequeued vertex comes from one dequeued before it. */
  ghost predicate KahnState<T>(g: Net<T>, a0: map<VertexId, Aux>, a: map<VertexId, Aux>,
                               order: seq<VertexId>, q: seq<VertexId>, left: set<EdgeId>) {
    && Counts(g, a0, a, left)
    && Queued(g, order + q, left)
    && Outside(g.edges, Elems(order)) <= left
    && EdgesForward(g.edges, order)
  }

  /** The state after counting and queueing: nothing dequeued, every edge counted, and the
      queue holding exactly the vertices of in-degree zero. */
  lemma KahnStart<T>(g: Net<T>, a0: map<VertexId, Aux>, a: map<VertexId, Aux>, q: seq<VertexId>)
    requires Counts(g, a0, a, g.edges.Keys)
    requires |Elems(q)| == |q|
    requires forall w :: w in q <==> w in g.vertices && InDeg(g.edges, g.edges.Keys, w) == 0
    ensures KahnState(g, a0, a, [], q, g.edges.Keys)
    ensures Outside(g.edges, Elems([])) == g.edges.Keys
  {
    assert [] + q == q;
    assert Elems<VertexId>([]) == {};
  }

  /** Dequeuing the front vertex v: v's count is zero, so every edge into v comes from a
      vertex dequeued before; the state holds with v dequeued, and the edges still counted
      are those leaving the vertices not dequeued and those leaving v. */
  lemma KahnPop<T>(g: Net<T>, a0: map<VertexId, Aux>, a: map<VertexId, Aux>,
                   order: seq<VertexId>, q: seq<VertexId>, left: set<EdgeId>)
    requires KahnState(g, a0, a, order, q, left) && q != []
    requires left == Outside(g.edges, Elems(order))
    ensures KahnState(g, a0, a, order + [q[0]], q[1..], left)
    ensures left == Outside(g.edges, Elems(order + [q[0]])) + EdgesFrom(g.edges, q[0])
  {
    var v := q[0];
    assert order + q == (order + [v]) + q[1..] by {
      assert q == [v] + q[1..];
    }
    var o := order + [v];
    assert Elems(o) == Elems(order) + {v};
    assert v !in order by {
      CardNoDup(order + q);
      NoDupMiddle(order, v, q[1..]);
    }
    OutsideStep(g.edges, Elems(order), v);
    InDegZero(g.edges, left, v);
    ForwardSnoc(g.edges, order, v);
  }

  /** A counted edge into w makes w's count positive: `topsort`'s unsigned decrement never
      wraps around. */
  lemma KahnPositive<T>(g: Net<T>, a0: map<VertexId, Aux>, a: map<VertexId, Aux>, left: set<EdgeId>, e: EdgeId)
    requires Counts(g, a0, a, left)
    requires e in left && e in g.edges && g.edges[e].dest in g.vertices
    ensures a[g.edges[e].dest].indegree >= 1
  {
    InDegRemove(g.edges, left, e, g.edges[e].dest);
  }

  /** Taking away a counted edge e out of a dequeued vertex and decrementing the count of its
      end w: the state holds with w queued when its count drops to zero, and as it was
      otherwise. */
  lemma KahnDrop<T>(g: Net<T>, a0: map<VertexId, Aux>, a: map<VertexId, Aux>, a': map<VertexId, Aux>,
                    order: seq<VertexId>, q: seq<VertexId>, q': seq<VertexId>, left: set<EdgeId>, e: EdgeId)
    requires KahnState(g, a0, a, order, q, left)
    requires e in left && e in g.edges && g.edges[e].orig in order && g.edges[e].dest in g.vertices
    requires a[g.edges[e].dest].indegree >= 1
    requires a' == a[g.edges[e].dest := a[g.edges[e].dest].(indegree := a[g.edges[e].dest].indegree - 1)]
    requires q' == if a'[g.edges[e].dest].indegree == 0 then q + [g.edges[e].dest] else q
    ensures KahnState(g, a0, a', order, q', left - {e})
  {
    CountsDrop(g, a0, a, a', left, e);
    assert order + q' == if q' == q then order + q else (order + q) + [g.edges[e].dest];
    QueuedDrop(g, order + q, order + q', left, e, a'[g.edges[e].dest].indegree == 0);
    assert Outside(g.edges, Elems(order)) <= left - {e} by {
      assert g.edges[e].orig in Elems(order);
    }
  }

  /** Decrementing the count of the end of a counted edge is counting without that edge. */
  lemma CountsDrop<T>(g: Net<T>, a0: map<VertexId, Aux>, a: map<VertexId, Aux>, a': map<VertexId, Aux>,
                      left: set<EdgeId>, e: EdgeId)
    requires Counts(g, a0, a, left) && e in left && e in g.edges && g.edges[e].dest in g.vertices
    requires a[g.edges[e].dest].indegree >= 1
    requires a' == a[g.edges[e].dest := a[g.edges[e].dest].(indegree := a[g.edges[e].dest].indegree - 1)]
    ensures Counts(g, a0, a', left - {e})
    ensures a'[g.edges[e].dest].indegree == InDeg(g.edges, left - {e}, g.edges[e].dest)
  {
    var w, l := g.edges[e].dest, left - {e};
    forall x | x in a' ensures x in a0 && a'[x] == a0[x].(indegree := InDeg(g.edges, l, x)) {
      InDegRemove(g.edges, left, e, x);
    }
  }

  /** Without a counted edge into w, the zero-count vertices are those before, plus w when
      its count has dropped to zero. */
  lemma QueuedDrop<T>(g: Net<T>, s: seq<VertexId>, s': seq<VertexId>, left: set<EdgeId>, e: EdgeId, zero: bool)
    requires Queued(g, s, left) && e in left && e in g.edges && g.edges[e].dest in g.vertices
    requires zero <==> InDeg(g.edges, left - {e}, g.edges[e].dest) == 0
    requires s' == if zero then s + [g.edges[e].dest] else s
    ensures Queued(g, s', left - {e})
  {
    var w, l := g.edges[e].dest, left - {e};
    InDegRemove(g.edges, left, e, w);
    assert w !in s;
    if zero {
      assert Elems(s') == Elems(s) + {w};
    }
    forall x | x in g.vertices ensures x in s' <==> InDeg(g.edges, l, x) == 0 {
      InDegRemove(g.edges, left, e, x);
      if x != w {
        assert x in s' <==> x in s;
      }
    }
  }

  /** With the queue empty and exactly the edges out of undequeued vertices counted: every
      vertex was dequeued exactly when the graph has no cycle. When some vertex was not, each
      such vertex has a counted edge coming in from another one, and following those edges
      backwards must repeat a vertex. */
  lemma KahnEnd<T>(g: Net<T>, a0: map<VertexId, Aux>, a: map<VertexId, Aux>,
                   order: seq<VertexId>, left: set<EdgeId>)
    requires Registry(g) && EdgesListed(g)
    requires KahnState(g, a0, a, order, [], left) && left == Outside(g.edges, Elems(order))
    ensures NoDup(order) && EdgesForward(g.edges, order)
    ensures |order| == |g.vertexSet| <==> !HasCycle(g.edges)
    ensures !HasCycle(g.edges) ==> Elems(order) == g.vertices.Keys
  {
    assert order + [] == order;
    CardNoDup(order);
    NoDupCard(g.vertexSet);
    SubsetCard(Elems(order), g.vertices.Keys);
    if Elems(order) == g.vertices.Keys {
      forall e | e in g.edges ensures g.edges[e].dest in order {
        assert EdgeListed(g, e);
      }
      ForwardOrderAcyclic(g.edges, order);
    } else {
      var u := g.vertices.Keys - Elems(order);
      assert u != {};
      forall w | w in u ensures HasPredIn(g.edges, u, w) {
        var e := InDegWitness(g.edges, left, w);
        assert EdgeListed(g, e);
      }
      PredecessorsInsideMeansCycle(g.edges, u);
    }
  }

  // ---------------------------------------------------------------- counting in-degrees

  /** The edges whose origin is in s: those counted once the vertices of s have been scanned. */
  ghost function Inside(edges: map<EdgeId, Edge>, s: set<VertexId>): set<EdgeId> {
    set e | e in edges && edges[e].orig in s
  }

  /** Scanning one more vertex v counts exactly v's edges, none of them counted before. */
  lemma InsideStep(edges: map<EdgeId, Edge>, s: set<VertexId>, v: VertexId)
    requires v !in s
    ensures Inside(edges, s + {v}) == Inside(edges, s) + EdgesFrom(edges, v)
    ensures Inside(edges, s) * EdgesFrom(edges, v) == {}
  {
  }

  /** Once every vertex is scanned, every edge is counted. */
  lemma InsideAll<T>(g: Net<T>)
    requires EdgesListed(g)
    ensures Inside(g.edges, g.vertices.Keys) == g.edges.Keys
  {
    forall e | e in g.edges ensures e in Inside(g.edges, g.vertices.Keys) {
      assert EdgeListed(g, e);
    }
  }

  /** Incrementing the count of the end of an edge not counted yet is counting it. */
  lemma CountsAdd<T>(g: Net<T>, a0: map<VertexId, Aux>, a: map<VertexId, Aux>, a': map<VertexId, Aux>,
                     counted: set<EdgeId>, e: EdgeId)
    requires Counts(g, a0, a, counted) && e !in counted && e in g.edges && g.edges[e].dest in g.vertices
    requires a' == a[g.edges[e].dest := a[g.edges[e].dest].(indegree := a[g.edges[e].dest].indegree + 1)]
    ensures Counts(g, a0, a', counted + {e})
  {
    forall x | x in a' ensures x in a0 && a'[x] == a0[x].(indegree := InDeg(g.edges, counted + {e}, x)) {
      InDegAdd(g.edges, counted, e, x);
    }
  }

  /** The adjacency list of a vertex lists each edge out of it once. */
  lemma AdjIsEdgesFrom<T>(g: Net<T>, v: VertexId)
    requires ListsSound(g) && EdgesListed(g) && v in g.vertices
    ensures NoDup(g.vertices[v].adj) && Elems(g.vertices[v].adj) == EdgesFrom(g.edges, v)
  {
    assert VertexSound(g, v);
    forall e | e in EdgesFrom(g.edges, v) ensures e in g.vertices[v].adj {
      assert EdgeListed(g, e);
    }
  }
}
