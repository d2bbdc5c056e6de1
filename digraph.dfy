/** The structure of the directed multigraph held by `Graph` (Source_Code/Graph.h): vertex and
    edge records living in arenas indexed by stable identities (the source's pointers), the
    well-formedness invariant that keeps every vertex's outgoing list `adj` and its `incoming`
    list in step with the edges that exist, and the effect of each structural operation stated
    as a function from the old structure to the new one. */
module Digraph {
  import opened Seqs
  import opened VertexTypes

  /** Identity of a vertex object (the source's `Vertex<T> *`). */
  type VertexId = nat
  /** Identity of an edge object (the source's `Edge<T> *`). */
  type EdgeId = nat

  datatype Option<T> = None | Some(value: T)

  /** The structural fields of a vertex: its key (`info`), its category, its outgoing edges in
      insertion order and its incoming edges (references to edges owned by other vertices). */
  datatype Vertex<T> = Vertex(info: T, vtype: VertexType, adj: seq<EdgeId>, incoming: seq<EdgeId>)

  /** An edge: origin, destination, capacity (`weight`), `flow`, the legacy `selected` flag and
      the link to its partner when it was created by `addBidirectionalEdge`. */
  datatype Edge = Edge(orig: VertexId, dest: VertexId, weight: real, flow: real, selected: bool,
                       reverse: Option<EdgeId>)

  /** The graph's structure: `vertexSet` in the vector's order, the vertex arena and the edge arena. */
  datatype Net<T> = Net(vertexSet: seq<VertexId>, vertices: map<VertexId, Vertex<T>>,
                        edges: map<EdgeId, Edge>)

  /** Keys present in the graph. */
  function Keys<T>(g: Net<T>): set<T> {
    set v | v in g.vertices :: g.vertices[v].info
  }

  function EdgesFrom(edges: map<EdgeId, Edge>, v: VertexId): set<EdgeId> {
    set e | e in edges && edges[e].orig == v
  }

  function KeyAt<T>(g: Net<T>, v: VertexId): T
    requires v in g.vertices
  {
    g.vertices[v].info
  }

  /** The vertex vector lists each live vertex once, and keys identify vertices. */
  ghost predicate Registry<T>(g: Net<T>) {
    && NoDup(g.vertexSet)
    && g.vertices.Keys == Elems(g.vertexSet)
    && (forall a, b {:trigger KeyAt(g, a), KeyAt(g, b)} :: a in g.vertices && b in g.vertices && KeyAt(g, a) == KeyAt(g, b) ==> a == b)
  }

  /** Every list entry names a live edge with the right endpoint and a live other endpoint, and
      no list repeats an edge. */
  ghost predicate ListsSound<T>(g: Net<T>) {
    forall v {:trigger VertexSound(g, v)} :: VertexSound(g, v)
  }

  ghost predicate VertexSound<T>(g: Net<T>, v: VertexId) {
    v in g.vertices ==>
      && NoDup(g.vertices[v].adj)
      && NoDup(g.vertices[v].incoming)
      && (forall e :: e in g.vertices[v].adj ==>
            e in g.edges && g.edges[e].orig == v && g.edges[e].dest in g.vertices)
      && (forall e :: e in g.vertices[v].incoming ==>
            e in g.edges && g.edges[e].dest == v && g.edges[e].orig in g.vertices)
  }

  /** Every live edge joins live vertices and is listed in its origin's `adj` and in its
      destination's `incoming`. */
  ghost predicate EdgesListed<T>(g: Net<T>) {
    forall e {:trigger EdgeListed(g, e)} :: EdgeListed(g, e)
  }

  ghost predicate EdgeListed<T>(g: Net<T>, e: EdgeId) {
    e in g.edges ==>
      && g.edges[e].orig in g.vertices
      && g.edges[e].dest in g.vertices
      && e in g.vertices[g.edges[e].orig].adj
      && e in g.vertices[g.edges[e].dest].incoming
  }

  /** The invariant every public operation of `Graph` keeps: unique keys, and `incoming`
      lists that mirror the `adj` lists exactly. */
  ghost predicate WellFormed<T>(g: Net<T>) {
    Registry(g) && ListsSound(g) && EdgesListed(g)
  }

  /** Keys identify vertices. */
  lemma KeyIdentifies<T>(g: Net<T>, a: VertexId, b: VertexId)
    requires Registry(g) && a in g.vertices && b in g.vertices && g.vertices[a].info == g.vertices[b].info
    ensures a == b
  {
    assert KeyAt(g, a) == KeyAt(g, b);
  }

  /** Under well-formedness, a vertex's incoming list holds exactly the edges, over all
      outgoing lists, whose destination is that vertex. */
  lemma IncomingMirrorsAdj<T>(g: Net<T>, v: VertexId, e: EdgeId)
    requires WellFormed(g) && v in g.vertices
    ensures e in g.vertices[v].incoming <==>
              exists u :: u in g.vertices && e in g.vertices[u].adj && e in g.edges && g.edges[e].dest == v
  {
    assert VertexSound(g, v);
    if e in g.vertices[v].incoming {
      assert EdgeListed(g, e);
      var u := g.edges[e].orig;
      assert u in g.vertices && e in g.vertices[u].adj;
    }
    if exists u :: u in g.vertices && e in g.vertices[u].adj && e in g.edges && g.edges[e].dest == v {
      assert EdgeListed(g, e);
    }
  }

  /** The vertex holding key `k`. */
  ghost function VertexOf<T>(g: Net<T>, k: T): (v: VertexId)
    requires k in Keys(g)
    ensures v in g.vertices && g.vertices[v].info == k
  {
    var v :| v in g.vertices && g.vertices[v].info == k; v
  }

  /** With unique keys there are exactly as many keys as vertices in the vector. */
  lemma KeysCount<T>(g: Net<T>)
    requires Registry(g)
    ensures |Keys(g)| == |g.vertexSet|
  {
    KeysOfCount(g, g.vertexSet);
    assert Keys(g) == set x | x in g.vertexSet :: g.vertices[x].info;
  }

  lemma {:induction false} KeysOfCount<T>(g: Net<T>, s: seq<VertexId>)
    requires Registry(g) && NoDup(s) && forall x :: x in s ==> x in g.vertices
    ensures |set x | x in s :: g.vertices[x].info| == |s|
    decreases |s|
  {
    if s != [] {
      var n := |s| - 1;
      KeysOfCount(g, s[..n]);
      var a := set x | x in s[..n] :: g.vertices[x].info;
      assert s == s[..n] + [s[n]];
      assert (set x | x in s :: g.vertices[x].info) == a + {g.vertices[s[n]].info};
      if g.vertices[s[n]].info in a {
        var x :| x in s[..n] && g.vertices[x].info == g.vertices[s[n]].info;
        KeyIdentifies(g, x, s[n]);
      }
    }
  }

  // ---------------------------------------------------------------- addVertex

  /** `addVertex` once the key is known to be new: append a fresh vertex with no edges. */
  function AddVertexNet<T>(g: Net<T>, id: VertexId, k: T, t: VertexType): Net<T> {
    Net(g.vertexSet + [id], g.vertices[id := Vertex(k, t, [], [])], g.edges)
  }

  lemma AddVertexKeeps<T>(g: Net<T>, id: VertexId, k: T, t: VertexType)
    requires WellFormed(g) && id !in g.vertices && k !in Keys(g)
    ensures WellFormed(AddVertexNet(g, id, k, t))
    ensures Keys(AddVertexNet(g, id, k, t)) == Keys(g) + {k}
  {
    var h := AddVertexNet(g, id, k, t);
    assert Keys(h) == Keys(g) + {k} by {
      forall x | x in Keys(h) ensures x in Keys(g) + {k} {
        var v :| v in h.vertices && h.vertices[v].info == x;
        if v != id { assert g.vertices[v].info == x; }
      }
      forall x | x in Keys(g) + {k} ensures x in Keys(h) {
        if x != k {
          var v :| v in g.vertices && g.vertices[v].info == x;
          assert h.vertices[v].info == x;
        } else {
          assert h.vertices[id].info == x;
        }
      }
    }
    forall a, b | a in h.vertices && b in h.vertices && KeyAt(h, a) == KeyAt(h, b) ensures a == b {
      if a != id && b != id {
        KeyIdentifies(g, a, b);
      }
    }
    forall v ensures VertexSound(h, v) {
      if v != id { assert VertexSound(g, v); }
    }
    forall x ensures EdgeListed(h, x) {
      assert EdgeListed(g, x);
    }
  }

  // ---------------------------------------------------------------- Vertex::addEdge

  /** `Vertex::addEdge`: a new edge o -> d with weight w, appended to o's `adj` and to d's
      `incoming`; its flow starts at 0 and it has no reverse. */
  function AddEdgeNet<T>(g: Net<T>, e: EdgeId, o: VertexId, d: VertexId, w: real): Net<T>
    requires o in g.vertices && d in g.vertices
  {
    var v1 := g.vertices[o := g.vertices[o].(adj := g.vertices[o].adj + [e])];
    Net(g.vertexSet, v1[d := v1[d].(incoming := v1[d].incoming + [e])],
        g.edges[e := Edge(o, d, w, 0.0, false, None)])
  }

  lemma AddEdgeKeeps<T>(g: Net<T>, e: EdgeId, o: VertexId, d: VertexId, w: real)
    requires WellFormed(g) && o in g.vertices && d in g.vertices && e !in g.edges
    ensures WellFormed(AddEdgeNet(g, e, o, d, w))
    ensures Keys(AddEdgeNet(g, e, o, d, w)) == Keys(g)
  {
    var h := AddEdgeNet(g, e, o, d, w);
    assert h.vertices.Keys == g.vertices.Keys;
    assert forall v :: v in g.vertices ==> h.vertices[v].info == g.vertices[v].info;
    SameRegistry(g, h);
    AddEdgeListsSound(g, e, o, d, w);
    AddEdgeListed(g, e, o, d, w);
  }

  lemma AddEdgeListsSound<T>(g: Net<T>, e: EdgeId, o: VertexId, d: VertexId, w: real)
    requires ListsSound(g) && o in g.vertices && d in g.vertices && e !in g.edges
    ensures ListsSound(AddEdgeNet(g, e, o, d, w))
  {
    var h0 := AddEdgeNet(g, e, o, d, w);
    forall v | v !in h0.vertices ensures VertexSound(h0, v) { }
    var h := AddEdgeNet(g, e, o, d, w);
    forall v | v in h.vertices ensures VertexSound(h, v) {
      assert VertexSound(g, v);
      assert e !in g.vertices[v].adj && e !in g.vertices[v].incoming;
      if v == o {
        assert h.vertices[v].adj == g.vertices[v].adj + [e];
      } else {
        assert h.vertices[v].adj == g.vertices[v].adj;
      }
      if v == d {
        assert h.vertices[v].incoming == g.vertices[v].incoming + [e];
      } else {
        assert h.vertices[v].incoming == g.vertices[v].incoming;
      }
    }
  }

  lemma AddEdgeListed<T>(g: Net<T>, e: EdgeId, o: VertexId, d: VertexId, w: real)
    requires EdgesListed(g) && o in g.vertices && d in g.vertices && e !in g.edges
    ensures EdgesListed(AddEdgeNet(g, e, o, d, w))
  {
    var h0 := AddEdgeNet(g, e, o, d, w);
    forall x | x !in h0.edges ensures EdgeListed(h0, x) { }
    var h := AddEdgeNet(g, e, o, d, w);
    forall x | x in h.edges ensures EdgeListed(h, x) {
      if x != e {
        assert EdgeListed(g, x);
        assert h.edges[x] == g.edges[x];
        var a, b := g.edges[x].orig, g.edges[x].dest;
        assert x in g.vertices[a].adj && x in g.vertices[b].incoming;
        if a == o {
          assert h.vertices[a].adj == g.vertices[a].adj + [e];
        } else {
          assert h.vertices[a].adj == g.vertices[a].adj;
        }
        if b == d {
          assert h.vertices[b].incoming == g.vertices[b].incoming + [e];
        } else {
          assert h.vertices[b].incoming == g.vertices[b].incoming;
        }
      } else {
        assert h.vertices[o].adj == g.vertices[o].adj + [e];
        assert h.vertices[d].incoming == g.vertices[d].incoming + [e];
      }
    }
  }

  /** Two structures over the same vertices with the same keys have the same key set. */
  lemma SameKeys<T>(g: Net<T>, h: Net<T>)
    requires h.vertices.Keys == g.vertices.Keys
    requires forall v :: v in g.vertices ==> h.vertices[v].info == g.vertices[v].info
    ensures Keys(h) == Keys(g)
  {
    forall x | x in Keys(h) ensures x in Keys(g) {
      var v :| v in h.vertices && h.vertices[v].info == x;
      assert g.vertices[v].info == x;
    }
    forall x | x in Keys(g) ensures x in Keys(h) {
      var v :| v in g.vertices && g.vertices[v].info == x;
      assert h.vertices[v].info == x;
    }
  }

  /** Changing only lists and edges keeps the vertex registry. */
  lemma SameRegistry<T>(g: Net<T>, h: Net<T>)
    requires Registry(g) && h.vertexSet == g.vertexSet && h.vertices.Keys == g.vertices.Keys
    requires forall v :: v in g.vertices ==> h.vertices[v].info == g.vertices[v].info
    ensures Registry(h) && Keys(h) == Keys(g)
  {
    SameKeys(g, h);
    forall a, b | a in h.vertices && b in h.vertices && KeyAt(h, a) == KeyAt(h, b) ensures a == b {
      KeyIdentifies(g, a, b);
    }
  }

  /** Rewriting an edge's data (weight, flow, selection, reverse) keeps its endpoints and so
      keeps the structure well-formed. */
  lemma EdgeDataKeeps<T>(g: Net<T>, e: EdgeId, x: Edge)
    requires WellFormed(g) && e in g.edges
    requires x.orig == g.edges[e].orig && x.dest == g.edges[e].dest
    ensures WellFormed(g.(edges := g.edges[e := x]))
  {
    var h := g.(edges := g.edges[e := x]);
    SameRegistry(g, h);
    forall v ensures VertexSound(h, v) {
      assert VertexSound(g, v);
    }
    forall y ensures EdgeListed(h, y) {
      assert EdgeListed(g, y);
    }
  }

  // ---------------------------------------------------------------- addBidirectionalEdge

  /** Edges e1 and e2, each recorded as the other's reverse. */
  function LinkReverse<T>(g: Net<T>, e1: EdgeId, e2: EdgeId): Net<T>
    requires e1 in g.edges && e2 in g.edges
  {
    var es := g.edges[e1 := g.edges[e1].(reverse := Some(e2))];
    g.(edges := es[e2 := es[e2].(reverse := Some(e1))])
  }

  lemma LinkReverseKeeps<T>(g: Net<T>, e1: EdgeId, e2: EdgeId)
    requires WellFormed(g) && e1 in g.edges && e2 in g.edges
    ensures WellFormed(LinkReverse(g, e1, e2))
  {
    var x1 := g.edges[e1].(reverse := Some(e2));
    EdgeDataKeeps(g, e1, x1);
    var g1 := g.(edges := g.edges[e1 := x1]);
    EdgeDataKeeps(g1, e2, g1.edges[e2].(reverse := Some(e1)));
  }

  /** `addBidirectionalEdge` once both endpoints are found: edge e from s to d and edge e + 1
      back, both of weight w, linked as each other's reverse. */
  function AddBidirectionalNet<T>(g: Net<T>, e: EdgeId, s: VertexId, d: VertexId, w: real): Net<T>
    requires s in g.vertices && d in g.vertices
  {
    LinkReverse(AddEdgeNet(AddEdgeNet(g, e, s, d, w), e + 1, d, s, w), e, e + 1)
  }

  lemma AddBidirectionalKeeps<T>(g: Net<T>, e: EdgeId, s: VertexId, d: VertexId, w: real)
    requires WellFormed(g) && s in g.vertices && d in g.vertices && e !in g.edges && e + 1 !in g.edges
    ensures WellFormed(AddBidirectionalNet(g, e, s, d, w))
    ensures Keys(AddBidirectionalNet(g, e, s, d, w)) == Keys(g)
  {
    var g1 := AddEdgeNet(g, e, s, d, w);
    AddEdgeKeeps(g, e, s, d, w);
    AddEdgeKeeps(g1, e + 1, d, s, w);
    var g2 := AddEdgeNet(g1, e + 1, d, s, w);
    LinkReverseKeeps(g2, e, e + 1);
    SameKeys(g2, LinkReverse(g2, e, e + 1));
  }

  // ---------------------------------------------------------------- Vertex::removeEdge

  /** The outgoing edges of u whose destination has key k. */
  function EdgesToKey<T(==)>(g: Net<T>, u: VertexId, k: T): set<EdgeId> {
    set e | e in g.edges && g.edges[e].orig == u && g.edges[e].dest in g.vertices
                         && g.vertices[g.edges[e].dest].info == k
  }

  /** `Vertex::removeEdge(k)` on u: every outgoing edge of u towards key k is erased from u's
      `adj` (the others keep their order), purged from the destination's `incoming`, and freed. */
  function RemoveEdgeNet<T(==)>(g: Net<T>, u: VertexId, k: T): Net<T> {
    var dropped := EdgesToKey(g, u, k);
    Net(g.vertexSet,
        map w | w in g.vertices ::
          g.vertices[w].(adj := if w == u then Without(g.vertices[w].adj, dropped) else g.vertices[w].adj,
                         incoming := Without(g.vertices[w].incoming, dropped)),
        g.edges - dropped)
  }

  lemma RemoveEdgeKeeps<T>(g: Net<T>, u: VertexId, k: T)
    requires WellFormed(g) && u in g.vertices
    ensures WellFormed(RemoveEdgeNet(g, u, k))
    ensures Keys(RemoveEdgeNet(g, u, k)) == Keys(g)
    ensures forall e :: e in RemoveEdgeNet(g, u, k).edges <==> e in g.edges && e !in EdgesToKey(g, u, k)
  {
    var h := RemoveEdgeNet(g, u, k);
    assert h.vertices.Keys == g.vertices.Keys;
    assert forall v :: v in g.vertices ==> h.vertices[v].info == g.vertices[v].info;
    SameRegistry(g, h);
    RemoveEdgeListsSound(g, u, k);
    RemoveEdgeListed(g, u, k);
  }

  lemma RemoveEdgeListsSound<T>(g: Net<T>, u: VertexId, k: T)
    requires ListsSound(g) && u in g.vertices
    ensures ListsSound(RemoveEdgeNet(g, u, k))
  {
    var h := RemoveEdgeNet(g, u, k);
    var dropped := EdgesToKey(g, u, k);
    forall v | v in h.vertices ensures VertexSound(h, v) {
      assert VertexSound(g, v);
      assert h.vertices[v].incoming == Without(g.vertices[v].incoming, dropped);
      if v == u {
        assert h.vertices[v].adj == Without(g.vertices[v].adj, dropped);
      } else {
        assert h.vertices[v].adj == g.vertices[v].adj;
        forall x | x in h.vertices[v].adj ensures x !in dropped {
          assert VertexSound(g, v);
        }
      }
    }
  }

  lemma RemoveEdgeListed<T>(g: Net<T>, u: VertexId, k: T)
    requires EdgesListed(g) && u in g.vertices
    ensures EdgesListed(RemoveEdgeNet(g, u, k))
  {
    var h := RemoveEdgeNet(g, u, k);
    var dropped := EdgesToKey(g, u, k);
    forall x | x in h.edges ensures EdgeListed(h, x) {
      assert EdgeListed(g, x);
      assert x in g.edges && x !in dropped && h.edges[x] == g.edges[x];
      var a, b := g.edges[x].orig, g.edges[x].dest;
      assert x in g.vertices[a].adj && x in g.vertices[b].incoming;
      assert h.vertices[b].incoming == Without(g.vertices[b].incoming, dropped);
      if a == u {
        assert h.vertices[a].adj == Without(g.vertices[a].adj, dropped);
      } else {
        assert h.vertices[a].adj == g.vertices[a].adj;
      }
    }
  }

  // ---------------------------------------------------------------- Vertex::removeOutgoingEdges

  /** `Vertex::removeOutgoingEdges` on v: v's `adj` becomes empty, every edge leaving v is purged
      from the `incoming` lists and freed. */
  function RemoveOutgoingNet<T>(g: Net<T>, v: VertexId): Net<T> {
    var out := EdgesFrom(g.edges, v);
    Net(g.vertexSet,
        map w | w in g.vertices ::
          g.vertices[w].(adj := if w == v then [] else g.vertices[w].adj,
                         incoming := Without(g.vertices[w].incoming, out)),
        g.edges - out)
  }

  lemma RemoveOutgoingKeeps<T>(g: Net<T>, v: VertexId)
    requires WellFormed(g) && v in g.vertices
    ensures WellFormed(RemoveOutgoingNet(g, v))
    ensures Keys(RemoveOutgoingNet(g, v)) == Keys(g)
    ensures forall e :: e in RemoveOutgoingNet(g, v).edges <==> e in g.edges && g.edges[e].orig != v
  {
    var h := RemoveOutgoingNet(g, v);
    assert h.vertices.Keys == g.vertices.Keys;
    assert forall w :: w in g.vertices ==> h.vertices[w].info == g.vertices[w].info;
    SameRegistry(g, h);
    RemoveOutgoingListsSound(g, v);
    RemoveOutgoingListed(g, v);
  }

  lemma RemoveOutgoingListsSound<T>(g: Net<T>, v: VertexId)
    requires ListsSound(g) && v in g.vertices
    ensures ListsSound(RemoveOutgoingNet(g, v))
  {
    var h := RemoveOutgoingNet(g, v);
    var out := EdgesFrom(g.edges, v);
    forall w | w in h.vertices ensures VertexSound(h, w) {
      assert VertexSound(g, w);
      assert h.vertices[w].incoming == Without(g.vertices[w].incoming, out);
      if w != v {
        assert h.vertices[w].adj == g.vertices[w].adj;
        forall x | x in h.vertices[w].adj ensures x !in out {
          assert VertexSound(g, w);
        }
      }
    }
  }

  lemma RemoveOutgoingListed<T>(g: Net<T>, v: VertexId)
    requires EdgesListed(g) && v in g.vertices
    ensures EdgesListed(RemoveOutgoingNet(g, v))
  {
    var h := RemoveOutgoingNet(g, v);
    var out := EdgesFrom(g.edges, v);
    forall x | x in h.edges ensures EdgeListed(h, x) {
      assert EdgeListed(g, x);
      assert x in g.edges && x !in out && h.edges[x] == g.edges[x];
      var a, b := g.edges[x].orig, g.edges[x].dest;
      assert a != v;
      assert x in g.vertices[a].adj && x in g.vertices[b].incoming;
      assert h.vertices[b].incoming == Without(g.vertices[b].incoming, out);
      assert h.vertices[a].adj == g.vertices[a].adj;
    }
  }

  // ---------------------------------------------------------------- removeVertex

  /** The edges that have v as an endpoint. */
  function EdgesTouching(edges: map<EdgeId, Edge>, v: VertexId): set<EdgeId> {
    set e | e in edges && (edges[e].orig == v || edges[e].dest == v)
  }

  /** `removeVertex` once v is found: every edge touching v is purged from every list and freed,
      and v is erased from the vertex vector, the others keeping their order. */
  function RemoveVertexNet<T>(g: Net<T>, v: VertexId): Net<T> {
    var gone := EdgesTouching(g.edges, v);
    Net(Without(g.vertexSet, {v}),
        map w | w in g.vertices && w != v ::
          g.vertices[w].(adj := Without(g.vertices[w].adj, gone),
                         incoming := Without(g.vertices[w].incoming, gone)),
        g.edges - gone)
  }

  lemma RemoveVertexKeeps<T>(g: Net<T>, v: VertexId)
    requires WellFormed(g) && v in g.vertices
    ensures WellFormed(RemoveVertexNet(g, v))
    ensures Keys(RemoveVertexNet(g, v)) == Keys(g) - {g.vertices[v].info}
    ensures forall e :: e in RemoveVertexNet(g, v).edges <==>
              e in g.edges && g.edges[e].orig != v && g.edges[e].dest != v
  {
    RemoveVertexRegistry(g, v);
    RemoveVertexListsSound(g, v);
    RemoveVertexListed(g, v);
  }

  lemma RemoveVertexRegistry<T>(g: Net<T>, v: VertexId)
    requires Registry(g) && v in g.vertices
    ensures Registry(RemoveVertexNet(g, v))
    ensures Keys(RemoveVertexNet(g, v)) == Keys(g) - {g.vertices[v].info}
  {
    var h := RemoveVertexNet(g, v);
    RemoveVertexKeys(g, v);
    assert h.vertexSet == Without(g.vertexSet, {v});
    assert NoDup(h.vertexSet);
    forall w ensures w in h.vertices.Keys <==> w in Elems(h.vertexSet) {
      assert w in h.vertexSet <==> w in g.vertexSet && w != v;
    }
    forall a, b | a in h.vertices && b in h.vertices && KeyAt(h, a) == KeyAt(h, b) ensures a == b {
      assert KeyAt(h, a) == KeyAt(g, a) && KeyAt(h, b) == KeyAt(g, b);
      KeyIdentifies(g, a, b);
    }
  }

  lemma RemoveVertexKeys<T>(g: Net<T>, v: VertexId)
    requires Registry(g) && v in g.vertices
    ensures Keys(RemoveVertexNet(g, v)) == Keys(g) - {g.vertices[v].info}
  {
    var h := RemoveVertexNet(g, v);
    assert h.vertices.Keys == g.vertices.Keys - {v};
    assert forall w :: w in h.vertices ==> h.vertices[w].info == g.vertices[w].info;
    DropOneKey(g, h, v);
  }

  /** Dropping one vertex and keeping the keys of the others drops exactly its key. */
  lemma DropOneKey<T>(g: Net<T>, h: Net<T>, v: VertexId)
    requires Registry(g) && v in g.vertices && h.vertices.Keys == g.vertices.Keys - {v}
    requires forall w :: w in h.vertices ==> h.vertices[w].info == g.vertices[w].info
    ensures Keys(h) == Keys(g) - {g.vertices[v].info}
  {
    var k := g.vertices[v].info;
    forall x | x in Keys(h) ensures x in Keys(g) - {k} {
      var w :| w in h.vertices && h.vertices[w].info == x;
      if x == k { KeyIdentifies(g, v, w); }
    }
    forall x | x in Keys(g) - {k} ensures x in Keys(h) {
      var w :| w in g.vertices && g.vertices[w].info == x;
      assert w != v;
      assert h.vertices[w].info == x;
    }
  }

  lemma RemoveVertexListsSound<T>(g: Net<T>, v: VertexId)
    requires ListsSound(g) && v in g.vertices
    ensures ListsSound(RemoveVertexNet(g, v))
  {
    var h := RemoveVertexNet(g, v);
    var gone := EdgesTouching(g.edges, v);
    forall w | w in h.vertices ensures VertexSound(h, w) {
      assert VertexSound(g, w);
      assert h.vertices[w].adj == Without(g.vertices[w].adj, gone);
      assert h.vertices[w].incoming == Without(g.vertices[w].incoming, gone);
    }
  }

  lemma RemoveVertexListed<T>(g: Net<T>, v: VertexId)
    requires EdgesListed(g) && v in g.vertices
    ensures EdgesListed(RemoveVertexNet(g, v))
  {
    var h := RemoveVertexNet(g, v);
    var gone := EdgesTouching(g.edges, v);
    forall x | x in h.edges ensures EdgeListed(h, x) {
      assert EdgeListed(g, x);
      assert x in g.edges && x !in gone && h.edges[x] == g.edges[x];
      var a, b := g.edges[x].orig, g.edges[x].dest;
      assert a != v && b != v;
      assert x in g.vertices[a].adj && x in g.vertices[b].incoming;
      assert h.vertices[a].adj == Without(g.vertices[a].adj, gone);
      assert h.vertices[b].incoming == Without(g.vertices[b].incoming, gone);
    }
  }
}
