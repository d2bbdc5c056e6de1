/** `Graph<T>` of Source_Code/Graph.h as a class. The vertex and edge objects the source reaches
    through pointers live in two maps indexed by stable identities; `vertexSet` keeps the
    vector's order. The auxiliary per-vertex fields that the traversals overwrite are kept in a
    map of their own, so that a traversal provably leaves the graph's structure alone. */
module GraphEngine {
  import opened Seqs
  import opened VertexTypes
  import opened Digraph
  import opened RemovalSteps
  import opened Paths
  import opened Search
  import opened Cycles
  import opened Kahn

  class Graph<T(==)> {
    var vertexSet: seq<VertexId>
    var vertices: map<VertexId, Vertex<T>>
    var edges: map<EdgeId, Edge>
    var aux: map<VertexId, Aux>
    /** Identities not yet handed out (what `new` would return). */
    var nextVertex: nat
    var nextEdge: nat

    ghost function Structure(): Net<T>
      reads this
    {
      Net(vertexSet, vertices, edges)
    }

    /** The class invariant: a well-formed structure, auxiliary fields for every vertex, and
        fresh identities above every one in use. */
    ghost predicate Valid()
      reads this
    {
      && WellFormed(Structure())
      && aux.Keys == vertices.Keys
      && (forall v :: v in vertices ==> v < nextVertex)
      && (forall e :: e in edges ==> e < nextEdge)
    }

    /** An empty graph. */
    constructor()
      ensures Valid()
      ensures vertexSet == [] && vertices == map[] && edges == map[] && aux == map[]
    {
      vertexSet := [];
      vertices := map[];
      edges := map[];
      aux := map[];
      nextVertex := 0;
      nextEdge := 0;
    }

    // ------------------------------------------------------------ lookups

    /** `findVertex`: the vertex holding key k, by a scan of the vertex vector. */
    method FindVertex(k: T) returns (r: Option<VertexId>)
      requires Valid()
      ensures r.Some? <==> k in Keys(Structure())
      ensures r.Some? ==> r.value in vertices && vertices[r.value].info == k
      ensures r.Some? ==> r.value == VertexOf(Structure(), k)
    {
      var i := 0;
      while i < |vertexSet|
        invariant 0 <= i <= |vertexSet|
        invariant forall j :: 0 <= j < i ==> vertices[vertexSet[j]].info != k
      {
        if vertices[vertexSet[i]].info == k {
          KeyIdentifies(Structure(), vertexSet[i], VertexOf(Structure(), k));
          return Some(vertexSet[i]);
        }
        i := i + 1;
      }
      forall v | v in vertices ensures vertices[v].info != k {
        assert v in Elems(vertexSet);
      }
      return None;
    }

    /** `findVertexIdx`: the position of key k in the vertex vector, or -1. */
    method FindVertexIdx(k: T) returns (i: int)
      requires Valid()
      ensures -1 <= i < |vertexSet|
      ensures i == -1 <==> k !in Keys(Structure())
      ensures i >= 0 ==> vertexSet[i] == VertexOf(Structure(), k)
    {
      i := 0;
      while i < |vertexSet|
        invariant 0 <= i <= |vertexSet|
        invariant forall j :: 0 <= j < i ==> vertices[vertexSet[j]].info != k
      {
        if vertices[vertexSet[i]].info == k {
          KeyIdentifies(Structure(), vertexSet[i], VertexOf(Structure(), k));
          return i;
        }
        i := i + 1;
      }
      forall v | v in vertices ensures vertices[v].info != k {
        assert v in Elems(vertexSet);
      }
      return -1;
    }

    /** `getNumVertex`: the size of the vertex vector, which is the number of distinct keys. */
    method NumVertex() returns (n: nat)
      requires Valid()
      ensures n == |vertexSet| && n == |Keys(Structure())|
    {
      KeysCount(Structure());
      n := |vertexSet|;
    }

    // ------------------------------------------------------------ building

    /** `addVertex`: a new vertex with key k and category t, unless the key is taken. */
    method AddVertex(k: T, t: VertexType) returns (ok: bool)
      requires Valid()
      modifies this
      ensures Valid()
      ensures ok <==> k !in old(Keys(Structure()))
      ensures Keys(Structure()) == old(Keys(Structure())) + {k}
      ensures ok ==> Structure() == AddVertexNet(old(Structure()), old(nextVertex), k, t)
      ensures ok ==> aux == old(aux)[old(nextVertex) := FreshAux]
      ensures ok ==> nextVertex == old(nextVertex) + 1 && nextEdge == old(nextEdge)
      ensures !ok ==> unchanged(this)
    {
      var found := FindVertex(k);
      if found.Some? {
        return false;
      }
      var id := nextVertex;
      AddVertexKeeps(Structure(), id, k, t);
      vertexSet := vertexSet + [id];
      vertices := vertices[id := Vertex(k, t, [], [])];
      aux := aux[id := FreshAux];
      nextVertex := nextVertex + 1;
      ok := true;
    }

    /** `Vertex::addEdge` on o: a new edge o -> d of weight w; d's indegree goes up by one. */
    method VertexAddEdge(o: VertexId, d: VertexId, w: real) returns (e: EdgeId)
      requires Valid() && o in vertices && d in vertices
      modifies this
      ensures Valid()
      ensures e == old(nextEdge) && e !in old(edges)
      ensures Structure() == AddEdgeNet(old(Structure()), e, o, d, w)
      ensures Keys(Structure()) == old(Keys(Structure()))
      ensures aux == Bump(old(aux), d)
      ensures nextEdge == old(nextEdge) + 1 && nextVertex == old(nextVertex)
    {
      e := nextEdge;
      AddEdgeKeeps(Structure(), e, o, d, w);
      var v1 := vertices[o := vertices[o].(adj := vertices[o].adj + [e])];
      vertices := v1[d := v1[d].(incoming := v1[d].incoming + [e])];
      edges := edges[e := Edge(o, d, w, 0.0, false, None)];
      aux := aux[d := aux[d].(indegree := aux[d].indegree + 1)];
      nextEdge := nextEdge + 1;
    }

    /** `addEdge`: an edge between the vertices holding keys src and dst, if both exist. */
    method AddEdge(src: T, dst: T, w: real) returns (ok: bool)
      requires Valid()
      modifies this
      ensures Valid()
      ensures ok <==> src in old(Keys(Structure())) && dst in old(Keys(Structure()))
      ensures Keys(Structure()) == old(Keys(Structure()))
      ensures ok ==> Structure() == AddEdgeNet(old(Structure()), old(nextEdge),
                                               VertexOf(old(Structure()), src), VertexOf(old(Structure()), dst), w)
      ensures ok ==> aux == Bump(old(aux), VertexOf(old(Structure()), dst))
      ensures ok ==> nextEdge == old(nextEdge) + 1 && nextVertex == old(nextVertex)
      ensures !ok ==> unchanged(this)
    {
      var v1 := FindVertex(src);
      var v2 := FindVertex(dst);
      if v1.None? || v2.None? {
        return false;
      }
      assert Structure() == old(Structure()) && aux == old(aux) && nextEdge == old(nextEdge);
      var e := VertexAddEdge(v1.value, v2.value, w);
      ok := true;
    }

    /** `addBidirectionalEdge`: an edge each way between src and dst, each the other's reverse. */
    method AddBidirectionalEdge(src: T, dst: T, w: real) returns (ok: bool)
      requires Valid()
      modifies this
      ensures Valid()
      ensures ok <==> src in old(Keys(Structure())) && dst in old(Keys(Structure()))
      ensures ok ==> Structure() == AddBidirectionalNet(old(Structure()), old(nextEdge),
                                                       VertexOf(old(Structure()), src), VertexOf(old(Structure()), dst), w)
      ensures ok ==> aux == Bump(Bump(old(aux), VertexOf(old(Structure()), dst)), VertexOf(old(Structure()), src))
      ensures ok ==> nextEdge == old(nextEdge) + 2 && nextVertex == old(nextVertex)
      ensures !ok ==> unchanged(this)
    {
      var v1 := FindVertex(src);
      var v2 := FindVertex(dst);
      if v1.None? || v2.None? {
        return false;
      }
      assert Structure() == old(Structure()) && aux == old(aux) && nextEdge == old(nextEdge);
      LinkPair(v1.value, v2.value, w);
      ok := true;
    }

    /** The body of `addBidirectionalEdge` once both endpoints s and d are found: `s->addEdge(d, w)`,
        `d->addEdge(s, w)` and the two `setReverse` calls. */
    method LinkPair(s: VertexId, d: VertexId, w: real)
      requires Valid() && s in vertices && d in vertices
      modifies this
      ensures Valid()
      ensures Structure() == AddBidirectionalNet(old(Structure()), old(nextEdge), s, d, w)
      ensures aux == Bump(Bump(old(aux), d), s)
      ensures nextEdge == old(nextEdge) + 2 && nextVertex == old(nextVertex)
    {
      var e1, e2 := AddEdgePair(s, d, w);
      LinkReverses(e1, e2);
    }

    /** `s->addEdge(d, w); d->addEdge(s, w)`: the two edges that become each other's reverse. */
    method AddEdgePair(s: VertexId, d: VertexId, w: real) returns (e1: EdgeId, e2: EdgeId)
      requires Valid() && s in vertices && d in vertices
      modifies this
      ensures Valid()
      ensures e1 == old(nextEdge) && e2 == e1 + 1 && e1 in edges && e2 in edges
      ensures Structure() == AddEdgeNet(AddEdgeNet(old(Structure()), e1, s, d, w), e2, d, s, w)
      ensures LinkReverse(Structure(), e1, e2) == AddBidirectionalNet(old(Structure()), e1, s, d, w)
      ensures aux == Bump(Bump(old(aux), d), s)
      ensures nextEdge == old(nextEdge) + 2 && nextVertex == old(nextVertex)
    {
      e1 := VertexAddEdge(s, d, w);
      e2 := VertexAddEdge(d, s, w);
    }

    /** `e1->setReverse(e2); e2->setReverse(e1)`. */
    method LinkReverses(e1: EdgeId, e2: EdgeId)
      requires Valid() && e1 in edges && e2 in edges
      modifies this
      ensures Valid()
      ensures Structure() == LinkReverse(old(Structure()), e1, e2)
      ensures aux == old(aux) && nextEdge == old(nextEdge) && nextVertex == old(nextVertex)
    {
      SetReverse(e1, Some(e2));
      SetReverse(e2, Some(e1));
    }

    // ------------------------------------------------------------ removal

    /** `Vertex::deleteEdge(x)` called on v: the destination of x drops, in one pass, every
        incoming entry whose origin has v's key; then x is freed. */
    method DeleteEdge(v: VertexId, x: EdgeId)
      requires v in vertices && x in edges && IncomingLive(Structure(), edges[x].dest)
      modifies this
      ensures Structure() == DeleteEdgeNet(old(Structure()), v, x)
      ensures aux == old(aux) && nextVertex == old(nextVertex) && nextEdge == old(nextEdge)
    {
      var d := edges[x].dest;
      var inc := PurgeIncoming(d, vertices[v].info);
      vertices := vertices[d := vertices[d].(incoming := inc)];
      edges := edges - {x};
    }

    /** The erase loop of `deleteEdge` over d's incoming list, run on a copy: the entries whose
        origin has key k are erased, the others keep their order. */
    method PurgeIncoming(d: VertexId, k: T) returns (inc: seq<EdgeId>)
      requires IncomingLive(Structure(), d)
      ensures inc == Without(vertices[d].incoming, EdgesFromKey(Structure(), k))
    {
      inc := vertices[d].incoming;
      ghost var inc0 := inc;
      ghost var drop := EdgesFromKey(Structure(), k);
      var j := 0;
      ghost var i := 0;
      while j < |inc|
        invariant i <= |inc0|
        invariant inc == Without(inc0[..i], drop) + inc0[i..]
        invariant j == |Without(inc0[..i], drop)|
        decreases |inc0| - i
      {
        FilterStep(inc0, i, drop, inc, j);
        assert inc[j] in drop <==> vertices[edges[inc[j]].orig].info == k;
        if vertices[edges[inc[j]].orig].info == k {
          inc := inc[..j] + inc[j + 1..];
        } else {
          j := j + 1;
        }
        i := i + 1;
      }
      assert i == |inc0| && inc0[..i] == inc0 && inc0[i..] == [];
    }

    /** `it = adj.erase(it); deleteEdge(edge);`: one iteration of the erase loops over u's
        outgoing list, at position j. */
    method EraseAndDeleteAt(u: VertexId, j: nat)
      requires Registry(Structure()) && ListsSound(Structure()) && u in vertices && j < |vertices[u].adj|
      modifies this
      ensures old(vertices[u].adj[j] in edges && edges[vertices[u].adj[j]].dest in vertices)
      ensures Structure() == EraseAndDelete(old(Structure()), u, j)
      ensures Registry(Structure()) && ListsSound(Structure()) && u in vertices
      ensures |vertices[u].adj| == old(|vertices[u].adj|) - 1
      ensures aux == old(aux) && nextVertex == old(nextVertex) && nextEdge == old(nextEdge)
    {
      ghost var s := Structure();
      EraseAndDeleteSound(s, u, j);
      EraseAndDeleteView(s, u, j, u);
      var e := vertices[u].adj[j];
      vertices := vertices[u := vertices[u].(adj := vertices[u].adj[..j] + vertices[u].adj[j + 1..])];
      DeleteEdge(u, e);
    }

    /** `Vertex::removeEdge(k)` on u: every outgoing edge of u whose destination has key k is
        erased from `adj` and deleted; the result says whether there was one. */
    method VertexRemoveEdge(u: VertexId, k: T) returns (removed: bool)
      requires Valid() && u in vertices
      modifies this
      ensures Valid()
      ensures Structure() == RemoveEdgeNet(old(Structure()), u, k)
      ensures removed <==> EdgesToKey(old(Structure()), u, k) != {}
      ensures aux == old(aux) && nextVertex == old(nextVertex) && nextEdge == old(nextEdge)
    {
      ghost var g0 := Structure();
      forall e | e in EdgesToKey(g0, u, k) ensures e in Elems(vertices[u].adj[0..]) {
        assert EdgeListed(g0, e);
      }
      removed := false;
      var j := 0;
      while j < |vertices[u].adj|
        invariant Registry(Structure()) && ListsSound(Structure()) && u in vertices
        invariant j <= |vertices[u].adj|
        invariant RemoveEdgeNet(Structure(), u, k) == RemoveEdgeNet(g0, u, k)
        invariant EdgesToKey(Structure(), u, k) <= Elems(vertices[u].adj[j..])
        invariant EdgesToKey(Structure(), u, k) <= EdgesToKey(g0, u, k)
        invariant removed <==> EdgesToKey(Structure(), u, k) != EdgesToKey(g0, u, k)
        invariant aux == old(aux) && nextVertex == old(nextVertex) && nextEdge == old(nextEdge)
        decreases |vertices[u].adj| - j
      {
        assert VertexSound(Structure(), u);
        var e := vertices[u].adj[j];
        if vertices[edges[e].dest].info == k {
          RemoveEdgeStep(Structure(), u, k, j);
          EraseAndDeleteAt(u, j);
          removed := true;
        } else {
          RemoveEdgeSkip(Structure(), u, k, j);
          j := j + 1;
        }
      }
      RemoveEdgeNothing(Structure(), u, k);
      RemoveEdgeKeeps(g0, u, k);
    }

    /** `Vertex::removeOutgoingEdges` on v: erase the first outgoing edge and delete it, until
        none is left. */
    method RemoveOutgoingEdges(v: VertexId)
      requires Valid() && v in vertices
      modifies this
      ensures Valid()
      ensures Structure() == RemoveOutgoingNet(old(Structure()), v)
      ensures aux == old(aux) && nextVertex == old(nextVertex) && nextEdge == old(nextEdge)
    {
      ghost var g0 := Structure();
      forall e | e in EdgesFrom(edges, v) ensures e in Elems(vertices[v].adj) {
        assert EdgeListed(g0, e);
      }
      while vertices[v].adj != []
        invariant Registry(Structure()) && ListsSound(Structure()) && v in vertices
        invariant RemoveOutgoingNet(Structure(), v) == RemoveOutgoingNet(g0, v)
        invariant EdgesFrom(edges, v) <= Elems(vertices[v].adj)
        invariant aux == old(aux) && nextVertex == old(nextVertex) && nextEdge == old(nextEdge)
        decreases |vertices[v].adj|
      {
        RemoveOutgoingStep(Structure(), v);
        EraseAndDeleteAt(v, 0);
      }
      RemoveOutgoingNothing(Structure(), v);
      RemoveOutgoingKeeps(g0, v);
    }

    /** `removeEdge`: every edge from the vertex with key src to the vertex with key dst; false
        when src is absent or no such edge exists. */
    method RemoveEdge(src: T, dst: T) returns (ok: bool)
      requires Valid()
      modifies this
      ensures Valid()
      ensures ok <==> src in old(Keys(Structure()))
                      && EdgesToKey(old(Structure()), VertexOf(old(Structure()), src), dst) != {}
      ensures src in old(Keys(Structure())) ==>
                Structure() == RemoveEdgeNet(old(Structure()), VertexOf(old(Structure()), src), dst)
      ensures src !in old(Keys(Structure())) ==> unchanged(this)
      ensures aux == old(aux) && nextVertex == old(nextVertex) && nextEdge == old(nextEdge)
    {
      var u := FindVertex(src);
      if u.None? {
        return false;
      }
      ok := VertexRemoveEdge(u.value, dst);
    }

    /** `removeVertex`: the vertex with key k and every edge touching it; false when k is absent. */
    method RemoveVertex(k: T) returns (ok: bool)
      requires Valid()
      modifies this
      ensures Valid()
      ensures ok <==> k in old(Keys(Structure()))
      ensures Keys(Structure()) == old(Keys(Structure())) - {k}
      ensures ok ==> Structure() == RemoveVertexNet(old(Structure()), VertexOf(old(Structure()), k))
      ensures ok ==> aux == old(aux) - {VertexOf(old(Structure()), k)}
      ensures !ok ==> unchanged(this)
      ensures nextVertex == old(nextVertex) && nextEdge == old(nextEdge)
    {
      var p := 0;
      while p < |vertexSet|
        invariant p <= |vertexSet|
        invariant forall q :: 0 <= q < p ==> vertices[vertexSet[q]].info != k
      {
        var v := vertexSet[p];
        assert v in Elems(vertexSet);
        if vertices[v].info == k {
          KeyIdentifies(Structure(), v, VertexOf(Structure(), k));
          RemoveVertexKeeps(Structure(), v);
          EraseVertex(v, p);
          return true;
        }
        p := p + 1;
      }
      forall w | w in vertices ensures vertices[w].info != k {
        assert w in Elems(vertexSet);
      }
      return false;
    }

    /** The body of `removeVertex` once v is found at position p of the vertex vector: detach
        it, erase it from the vector and free it. */
    method EraseVertex(v: VertexId, p: nat)
      requires Valid() && p < |vertexSet| && vertexSet[p] == v
      modifies this
      ensures Valid()
      ensures Structure() == RemoveVertexNet(old(Structure()), v)
      ensures aux == old(aux) - {v} && nextVertex == old(nextVertex) && nextEdge == old(nextEdge)
    {
      ghost var g0 := Structure();
      assert v in Elems(vertexSet);
      RemoveVertexKeeps(g0, v);
      DetachVertex(v);
      RemoveVertexUntouched(Structure(), v, p);
      DropVertexAt(v, p);
    }

    /** `vertexSet.erase(it); delete v;` for v at position p. */
    method DropVertexAt(v: VertexId, p: nat)
      requires p < |vertexSet| && vertexSet[p] == v && aux.Keys == vertices.Keys
      requires forall w :: w in vertices ==> w < nextVertex
      modifies this
      ensures vertexSet == old(vertexSet[..p] + vertexSet[p + 1..])
      ensures vertices == old(vertices) - {v} && aux == old(aux) - {v} && edges == old(edges)
      ensures aux.Keys == vertices.Keys && forall w :: w in vertices ==> w < nextVertex
      ensures nextVertex == old(nextVertex) && nextEdge == old(nextEdge)
    {
      vertexSet := vertexSet[..p] + vertexSet[p + 1..];
      vertices := vertices - {v};
      aux := aux - {v};
    }

    /** The two erase passes of `removeVertex` once v is found: `v->removeOutgoingEdges()`, then
        `u->removeEdge(v->getInfo())` for every u of the vertex vector, v included. Afterwards no
        edge touches v, and erasing v will give the effect of removing it from the start. */
    method DetachVertex(v: VertexId)
      requires Valid() && v in vertices
      modifies this
      ensures Valid() && v in vertices && vertexSet == old(vertexSet)
      ensures RemoveVertexNet(Structure(), v) == RemoveVertexNet(old(Structure()), v)
      ensures EdgesTouching(edges, v) == {}
      ensures aux == old(aux) && nextVertex == old(nextVertex) && nextEdge == old(nextEdge)
    {
      ghost var g0 := Structure();
      RemoveOutgoingEdges(v);
      RemoveVertexAfterOutgoing(g0, v);
      DetachedAfterOutgoing(g0, v);
      DetachIncoming(v, g0);
    }

    /** The second loop of `removeVertex`: every vertex drops its edges towards v's key. */
    method DetachIncoming(v: VertexId, ghost g0: Net<T>)
      requires Valid() && v in vertices && vertexSet == g0.vertexSet
      requires RemoveVertexNet(Structure(), v) == RemoveVertexNet(g0, v)
      requires Detached(Structure(), v, {})
      modifies this
      ensures Valid() && v in vertices && vertexSet == old(vertexSet)
      ensures RemoveVertexNet(Structure(), v) == RemoveVertexNet(g0, v)
      ensures EdgesTouching(edges, v) == {}
      ensures aux == old(aux) && nextVertex == old(nextVertex) && nextEdge == old(nextEdge)
    {
      var i := 0;
      while i < |vertexSet|
        invariant Valid() && v in vertices && vertexSet == g0.vertexSet && i <= |vertexSet|
        invariant RemoveVertexNet(Structure(), v) == RemoveVertexNet(g0, v)
        invariant Detached(Structure(), v, Elems(vertexSet[..i]))
        invariant aux == old(aux) && nextVertex == old(nextVertex) && nextEdge == old(nextEdge)
      {
        DetachFrom(v, i, g0);
        i := i + 1;
      }
      assert vertexSet[..i] == vertexSet;
      DetachedAll(Structure(), v);
    }

    /** One iteration of the second loop of `removeVertex`: `vertexSet[i]->removeEdge(v's key)`. */
    method DetachFrom(v: VertexId, i: nat, ghost g0: Net<T>)
      requires Valid() && v in vertices && i < |vertexSet|
      requires RemoveVertexNet(Structure(), v) == RemoveVertexNet(g0, v)
      requires Detached(Structure(), v, Elems(vertexSet[..i]))
      modifies this
      ensures Valid() && v in vertices && vertexSet == old(vertexSet)
      ensures RemoveVertexNet(Structure(), v) == RemoveVertexNet(g0, v)
      ensures Detached(Structure(), v, Elems(vertexSet[..i + 1]))
      ensures aux == old(aux) && nextVertex == old(nextVertex) && nextEdge == old(nextEdge)
    {
      ghost var s := Structure();
      var u := vertexSet[i];
      assert u in Elems(vertexSet);
      var found := VertexRemoveEdge(u, vertices[v].info);
      RemoveVertexAfterRemoveEdge(s, v, u);
      DetachedStep(s, v, u, Elems(vertexSet[..i]));
      ElemsPrefixNext(vertexSet, i);
    }

    // ------------------------------------------------------------ depth-first search

    /** The loop that opens `dfs`, `dfs(source)` and `bfs`: every vertex is marked unvisited. */
    method ClearVisited()
      requires Valid()
      modifies this
      ensures Valid()
      ensures vertexSet == old(vertexSet) && vertices == old(vertices) && edges == old(edges)
      ensures nextVertex == old(nextVertex) && nextEdge == old(nextEdge)
      ensures aux.Keys == old(aux).Keys
      ensures forall w :: w in aux ==> aux[w] == old(aux[w]).(visited := false)
      ensures Marked(aux) == {}
    {
      ghost var done: set<VertexId> := {};
      var i := 0;
      while i < |vertexSet|
        invariant 0 <= i <= |vertexSet| && done == Elems(vertexSet[..i])
        invariant vertexSet == old(vertexSet) && vertices == old(vertices) && edges == old(edges)
        invariant nextVertex == old(nextVertex) && nextEdge == old(nextEdge)
        invariant aux.Keys == old(aux).Keys
        invariant forall w :: w in aux ==> aux[w] == if w in done then old(aux[w]).(visited := false) else old(aux[w])
      {
        var v := vertexSet[i];
        assert v in Elems(vertexSet);
        aux := aux[v := aux[v].(visited := false)];
        ElemsPrefixNext(vertexSet, i);
        done := done + {v};
        i := i + 1;
      }
      assert vertexSet[..i] == vertexSet;
    }

    /** `dfsVisit`: marks v, pushes its key and visits every unvisited destination of its
        outgoing edges, in adjacency order. `seen` lists the vertices this call marked, in the
        order their keys were pushed, v first, and `parent` the tree edges that reached them.
        `open` holds the vertices whose own visit is still running further up the recursion;
        every other marked vertex has all its successors marked. G is the graph's structure,
        which a search leaves alone. */
    method DfsVisit(v: VertexId, res: seq<T>, ghost G: Net<T>, ghost open: set<VertexId>)
      returns (res': seq<T>, ghost seen: seq<VertexId>, ghost parent: map<VertexId, EdgeId>)
      requires ListsSound(G) && EdgesListed(G) && Structure() == G && aux.Keys == G.vertices.Keys
      requires v in G.vertices && !aux[v].visited && DoneClosed(G.edges, aux, open)
      modifies this
      decreases Unvisited(aux), 1
      ensures Structure() == G && nextVertex == old(nextVertex) && nextEdge == old(nextEdge)
      ensures Visit(G, old(aux), aux, v, seen, parent)
      ensures DoneClosed(G.edges, aux, open)
      ensures res' == res + InfosOf(G, seen)
    {
      ghost var a0 := aux;
      VisitStart(G, aux, v);
      aux := aux[v := aux[v].(visited := true)];
      assert InfosOf(G, [v]) == [vertices[v].info];
      VisitProgress(G, a0, aux, v, [v], map[]);
      res', seen, parent := VisitEdges(v, res + [vertices[v].info], G, a0, open, res);
    }

    /** The loop of `dfsVisit` over the outgoing edges of v, once v is marked and its key
        pushed after res0. */
    method VisitEdges(v: VertexId, res: seq<T>, ghost G: Net<T>, ghost a0: map<VertexId, Aux>,
                      ghost open: set<VertexId>, ghost res0: seq<T>)
      returns (res': seq<T>, ghost seen: seq<VertexId>, ghost parent: map<VertexId, EdgeId>)
      requires ListsSound(G) && EdgesListed(G) && Structure() == G && aux.Keys == G.vertices.Keys
      requires v in G.vertices && Visit(G, a0, aux, v, [v], map[]) && DoneClosed(G.edges, a0, open)
      requires res == res0 + InfosOf(G, [v])
      requires Unvisited(aux) < Unvisited(a0)
      modifies this
      decreases Unvisited(aux), 3
      ensures Structure() == G && nextVertex == old(nextVertex) && nextEdge == old(nextEdge)
      ensures Visit(G, a0, aux, v, seen, parent)
      ensures DoneClosed(G.edges, aux, open)
      ensures res' == res0 + InfosOf(G, seen)
    {
      res', seen, parent := res, [v], map[];
      assert VertexSound(G, v);
      var adj := vertices[v].adj;
      ghost var a1 := aux;
      assert DoneClosed(G.edges, aux, open + {v});
      var j := 0;
      while j < |adj|
        invariant 0 <= j <= |adj|
        invariant Structure() == G && nextVertex == old(nextVertex) && nextEdge == old(nextEdge)
        invariant forall i :: 0 <= i < |adj| ==> adj[i] in G.edges && G.edges[adj[i]].orig == v && G.edges[adj[i]].dest in G.vertices
        invariant Visit(G, a0, aux, v, seen, parent) && Unvisited(aux) <= Unvisited(a1)
        invariant DoneClosed(G.edges, aux, open + {v})
        invariant forall i :: 0 <= i < j ==> G.edges[adj[i]].dest in Marked(aux)
        invariant res' == res0 + InfosOf(G, seen)
      {
        ghost var m0 := Marked(aux);
        res', seen, parent := VisitSuccessor(v, adj[j], res', G, a0, open, seen, parent, res0);
        MarkedPrefixNext(G.edges, adj, j, m0, Marked(aux));
        j := j + 1;
      }
      OutgoingInto(G, v, Marked(aux));
      DoneClosedRelease(G.edges, aux, open, v);
    }

    /** One turn of `dfsVisit`'s loop over the edges of v: the destination of edge e is visited
        unless it is already marked. The visit from v, which started from auxiliary fields a0
        and has marked seen so far and pushed their keys after res0, goes on. */
    method VisitSuccessor(v: VertexId, e: EdgeId, res: seq<T>, ghost G: Net<T>, ghost a0: map<VertexId, Aux>,
                          ghost open: set<VertexId>, ghost seen: seq<VertexId>, ghost parent: map<VertexId, EdgeId>,
                          ghost res0: seq<T>)
      returns (res': seq<T>, ghost seen': seq<VertexId>, ghost parent': map<VertexId, EdgeId>)
      requires ListsSound(G) && EdgesListed(G) && Structure() == G && aux.Keys == G.vertices.Keys
      requires e in G.edges && G.edges[e].orig == v && G.edges[e].dest in G.vertices
      requires Visit(G, a0, aux, v, seen, parent)
      requires DoneClosed(G.edges, aux, open + {v})
      requires res == res0 + InfosOf(G, seen)
      modifies this
      decreases Unvisited(aux), 2
      ensures Structure() == G && nextVertex == old(nextVertex) && nextEdge == old(nextEdge)
      ensures Visit(G, a0, aux, v, seen', parent')
      ensures DoneClosed(G.edges, aux, open + {v})
      ensures Marked(old(aux)) <= Marked(aux) && G.edges[e].dest in Marked(aux)
      ensures Unvisited(aux) <= old(Unvisited(aux))
      ensures res' == res0 + InfosOf(G, seen')
    {
      res', seen', parent' := res, seen, parent;
      var w := edges[e].dest;
      if !aux[w].visited {
        ghost var a1 := aux;
        var r, more, tree := DfsVisit(w, res, G, open + {v});
        VisitCompose(G, a0, a1, aux, v, e, seen, more, parent, tree);
        VisitProgress(G, a1, aux, w, more, tree);
        MarkEffect(a1, Elems(more));
        InfosOfExtend(G, res0, res, r, seen, more);
        ghost var joined: map<VertexId, EdgeId> := parent + tree;
        res', seen', parent' := r, seen + more, joined[w := e];
      }
    }

    /** One turn of `dfs()`'s loop: visit from the i-th vertex of the vertex vector unless it
        is already marked. */
    method VisitRoot(i: nat, res: seq<T>, ghost G: Net<T>, ghost a0: map<VertexId, Aux>,
                     ghost order: seq<VertexId>)
      returns (res': seq<T>, ghost order': seq<VertexId>)
      requires WellFormed(G) && Structure() == G && a0.Keys == G.vertices.Keys && i < |vertexSet|
      requires |Elems(order)| == |order| && (forall x :: x in order ==> x in G.vertices)
      requires Marked(a0) == {} && aux == Mark(a0, Elems(order)) && DoneClosed(G.edges, aux, {})
      requires res == InfosOf(G, order)
      modifies this
      ensures Structure() == G && nextVertex == old(nextVertex) && nextEdge == old(nextEdge)
      ensures |Elems(order')| == |order'| && (forall x :: x in order' ==> x in G.vertices)
      ensures aux == Mark(a0, Elems(order')) && DoneClosed(G.edges, aux, {})
      ensures Marked(old(aux)) <= Marked(aux) && vertexSet[i] in Marked(aux)
      ensures res' == InfosOf(G, order')
    {
      res', order' := res, order;
      var v := vertexSet[i];
      assert v in Elems(vertexSet);
      if !aux[v].visited {
        ghost var a1 := aux;
        var r, seen, tree := DfsVisit(v, res, G, {});
        VisitAppend(G, a0, aux, v, order, seen, tree);
        VisitProgress(G, a1, aux, v, seen, tree);
        InfosOfExtend(G, [], res, r, order, seen);
        res', order' := r, order + seen;
      }
    }

    /** `dfs()`: the keys of all vertices, each once, in depth-first order from the vertices
        of the vertex vector in turn. Only visited flags change. */
    method Dfs() returns (res: seq<T>)
      requires Valid()
      modifies this
      ensures Valid()
      ensures vertexSet == old(vertexSet) && vertices == old(vertices) && edges == old(edges)
      ensures nextVertex == old(nextVertex) && nextEdge == old(nextEdge)
      ensures aux.Keys == old(aux).Keys
      ensures forall w :: w in aux ==> aux[w] == old(aux[w]).(visited := true)
      ensures NoDup(res) && |res| == |vertexSet|
      ensures forall k :: k in res <==> k in Keys(Structure())
    {
      ClearVisited();
      ghost var a0 := aux;
      ghost var G := Structure();
      ghost var order: seq<VertexId> := [];
      res := [];
      var i := 0;
      while i < |vertexSet|
        invariant 0 <= i <= |vertexSet|
        invariant Structure() == G && nextVertex == old(nextVertex) && nextEdge == old(nextEdge)
        invariant |Elems(order)| == |order| && (forall x :: x in order ==> x in G.vertices)
        invariant aux == Mark(a0, Elems(order))
        invariant DoneClosed(G.edges, aux, {})
        invariant forall q :: 0 <= q < i ==> vertexSet[q] in Marked(aux)
        invariant res == InfosOf(G, order)
        decreases |vertexSet| - i
      {
        res, order := VisitRoot(i, res, G, a0, order);
        i := i + 1;
      }
      DfsCovers(G, a0, order);
    }

    /** `dfs(source)`: nothing when no vertex holds source; otherwise the keys of exactly the
        vertices reachable from source's vertex, each once, source first. */
    method DfsFrom(source: T) returns (res: seq<T>)
      requires Valid()
      modifies this
      ensures Valid()
      ensures vertexSet == old(vertexSet) && vertices == old(vertices) && edges == old(edges)
      ensures nextVertex == old(nextVertex) && nextEdge == old(nextEdge)
      ensures source !in Keys(Structure()) ==> res == [] && aux == old(aux)
      ensures source in Keys(Structure()) ==>
        && |res| >= 1 && res[0] == source && NoDup(res)
        && forall k :: k in res <==>
             k in Keys(Structure()) && Reachable(edges, VertexOf(Structure(), source), VertexOf(Structure(), k))
      ensures source in Keys(Structure()) ==>
        && aux.Keys == old(aux).Keys
        && forall w :: w in aux ==> aux[w] == old(aux[w]).(visited := Reachable(edges, VertexOf(Structure(), source), w))
    {
      var s := FindVertex(source);
      if s.None? {
        return [];
      }
      ClearVisited();
      ghost var a0 := aux;
      ghost var seen, tree;
      res, seen, tree := DfsVisit(s.value, [], Structure(), {});
      DfsFromCovers(Structure(), s.value, a0, aux, seen, tree);
      SearchMarks(Structure(), s.value, old(aux), a0, aux, seen, tree);
    }

    // ------------------------------------------------------------ breadth-first search

    /** `bfs(source)`: nothing when no vertex holds source; otherwise the keys of exactly the
        vertices reachable from source's vertex, each once, source first. */
    method Bfs(source: T) returns (res: seq<T>)
      requires Valid()
      modifies this
      ensures Valid()
      ensures vertexSet == old(vertexSet) && vertices == old(vertices) && edges == old(edges)
      ensures nextVertex == old(nextVertex) && nextEdge == old(nextEdge)
      ensures source !in Keys(Structure()) ==> res == [] && aux == old(aux)
      ensures source in Keys(Structure()) ==>
        && |res| >= 1 && res[0] == source && NoDup(res)
        && forall k :: k in res <==>
             k in Keys(Structure()) && Reachable(edges, VertexOf(Structure(), source), VertexOf(Structure(), k))
      ensures source in Keys(Structure()) ==>
        && aux.Keys == old(aux).Keys
        && forall w :: w in aux ==> aux[w] == old(aux[w]).(visited := Reachable(edges, VertexOf(Structure(), source), w))
    {
      var s := FindVertex(source);
      if s.None? {
        return [];
      }
      ClearVisited();
      ghost var G := Structure();
      ghost var a0 := aux;
      VisitStart(G, aux, s.value);
      aux := aux[s.value := aux[s.value].(visited := true)];
      assert Elems([s.value]) == {s.value};
      DoneClosedMark(G.edges, a0, {}, s.value);
      ghost var order, parent;
      res, order, parent := BfsLoop([s.value], G, a0, s.value);
      DfsFromCovers(G, s.value, a0, aux, order, parent);
      SearchMarks(G, s.value, old(aux), a0, aux, order, parent);
    }

    /** The outer loop of `bfs`, from a queue holding the marked source s: take the front
        vertex, push its key, enqueue its unmarked successors; until the queue is empty. */
    method BfsLoop(q0: seq<VertexId>, ghost G: Net<T>, ghost a0: map<VertexId, Aux>, ghost s: VertexId)
      returns (res: seq<T>, ghost order: seq<VertexId>, ghost parent: map<VertexId, EdgeId>)
      requires ListsSound(G) && EdgesListed(G) && Structure() == G && aux.Keys == G.vertices.Keys
      requires Visit(G, a0, aux, s, q0, map[]) && DoneClosed(G.edges, aux, Elems(q0))
      modifies this
      ensures Structure() == G && nextVertex == old(nextVertex) && nextEdge == old(nextEdge)
      ensures aux.Keys == G.vertices.Keys
      ensures Visit(G, a0, aux, s, order, parent) && DoneClosed(G.edges, aux, {})
      ensures res == InfosOf(G, order)
    {
      var q := q0;
      res, order, parent := [], [], map[];
      assert order + q == q0;
      while q != []
        invariant Structure() == G && nextVertex == old(nextVertex) && nextEdge == old(nextEdge)
        invariant aux.Keys == G.vertices.Keys
        invariant Visit(G, a0, aux, s, order + q, parent)
        invariant DoneClosed(G.edges, aux, Elems(q))
        invariant res == InfosOf(G, order)
        decreases |G.vertices.Keys| - |order|
      {
        VisitSize(G, a0, aux, s, order + q, parent);
        var v := q[0];
        Dequeue(order, q);
        q := q[1..];
        InfosOfConcat(G, order, [v]);
        assert InfosOf(G, [v]) == [vertices[v].info];
        res := res + [vertices[v].info];
        order := order + [v];
        q, parent := BfsExpand(v, q, G, a0, s, order, parent);
      }
      assert order + q == order;
    }

    /** The inner loop of `bfs`: enqueue and mark each unmarked successor of v, the vertex
        just taken from the queue, recording the edge it was found along. */
    method BfsExpand(v: VertexId, q: seq<VertexId>, ghost G: Net<T>, ghost a0: map<VertexId, Aux>,
                     ghost s: VertexId, ghost order: seq<VertexId>, ghost parent: map<VertexId, EdgeId>)
      returns (q': seq<VertexId>, ghost parent': map<VertexId, EdgeId>)
      requires ListsSound(G) && EdgesListed(G) && Structure() == G && aux.Keys == G.vertices.Keys
      requires v in order && Visit(G, a0, aux, s, order + q, parent)
      requires DoneClosed(G.edges, aux, Elems(q) + {v})
      modifies this
      ensures Structure() == G && nextVertex == old(nextVertex) && nextEdge == old(nextEdge)
      ensures aux.Keys == G.vertices.Keys
      ensures |q'| >= |q| && q'[..|q|] == q
      ensures Visit(G, a0, aux, s, order + q', parent')
      ensures DoneClosed(G.edges, aux, Elems(q'))
    {
      assert v in G.vertices;
      assert VertexSound(G, v);
      var adj := vertices[v].adj;
      q', parent' := q, parent;
      var j := 0;
      while j < |adj|
        invariant 0 <= j <= |adj|
        invariant Structure() == G && nextVertex == old(nextVertex) && nextEdge == old(nextEdge)
        invariant aux.Keys == G.vertices.Keys
        invariant forall i :: 0 <= i < |adj| ==> adj[i] in G.edges && G.edges[adj[i]].orig == v && G.edges[adj[i]].dest in G.vertices
        invariant |q'| >= |q| && q'[..|q|] == q
        invariant Visit(G, a0, aux, s, order + q', parent')
        invariant DoneClosed(G.edges, aux, Elems(q') + {v})
        invariant forall i :: 0 <= i < j ==> G.edges[adj[i]].dest in Marked(aux)
      {
        ghost var m0 := Marked(aux);
        q', parent' := BfsEdge(v, adj[j], q', G, a0, s, order, parent');
        MarkedPrefixNext(G.edges, adj, j, m0, Marked(aux));
        j := j + 1;
      }
      OutgoingInto(G, v, Marked(aux));
      DoneClosedRelease(G.edges, aux, Elems(q'), v);
    }

    /** One turn of `bfs`'s inner loop: the successor w of v along e is enqueued and marked
        unless it is marked already. */
    method BfsEdge(v: VertexId, e: EdgeId, q: seq<VertexId>, ghost G: Net<T>, ghost a0: map<VertexId, Aux>,
                   ghost s: VertexId, ghost order: seq<VertexId>, ghost parent: map<VertexId, EdgeId>)
      returns (q': seq<VertexId>, ghost parent': map<VertexId, EdgeId>)
      requires Structure() == G && aux.Keys == G.vertices.Keys
      requires e in G.edges && G.edges[e].orig == v && G.edges[e].dest in G.vertices
      requires v in order && Visit(G, a0, aux, s, order + q, parent)
      requires DoneClosed(G.edges, aux, Elems(q) + {v})
      modifies this
      ensures Structure() == G && nextVertex == old(nextVertex) && nextEdge == old(nextEdge)
      ensures aux.Keys == G.vertices.Keys
      ensures |q'| >= |q| && q'[..|q|] == q
      ensures Visit(G, a0, aux, s, order + q', parent')
      ensures DoneClosed(G.edges, aux, Elems(q') + {v})
      ensures Marked(old(aux)) <= Marked(aux) && G.edges[e].dest in Marked(aux)
    {
      q', parent' := q, parent;
      var w := edges[e].dest;
      if !aux[w].visited {
        Enqueue(G, a0, aux, s, v, order, q, parent, e);
        q' := q + [w];
        aux := aux[w := aux[w].(visited := true)];
        parent' := parent[w := e];
      }
    }

    // ------------------------------------------------------------ acyclicity

    /** The first loop of `isDAG`: clears the visited and processing flags of every vertex. */
    method ClearFlags()
      requires Valid()
      modifies this
      ensures Valid()
      ensures vertexSet == old(vertexSet) && vertices == old(vertices) && edges == old(edges)
      ensures nextVertex == old(nextVertex) && nextEdge == old(nextEdge)
      ensures aux.Keys == old(aux).Keys
      ensures forall w :: w in aux ==> aux[w] == old(aux[w]).(visited := false, processing := false)
    {
      ghost var done: set<VertexId> := {};
      var i := 0;
      while i < |vertexSet|
        invariant 0 <= i <= |vertexSet| && done == Elems(vertexSet[..i])
        invariant vertexSet == old(vertexSet) && vertices == old(vertices) && edges == old(edges)
        invariant nextVertex == old(nextVertex) && nextEdge == old(nextEdge)
        invariant aux.Keys == old(aux).Keys
        invariant forall w :: w in aux ==>
          aux[w] == if w in done then old(aux[w]).(visited := false, processing := false) else old(aux[w])
      {
        var v := vertexSet[i];
        assert v in Elems(vertexSet);
        aux := aux[v := aux[v].(visited := false, processing := false)];
        ElemsPrefixNext(vertexSet, i);
        done := done + {v};
        i := i + 1;
      }
      assert vertexSet[..i] == vertexSet;
    }

    /** `isDAG`: true exactly when the graph has no cycle. Only the visited and processing
        flags change. */
    method IsDag() returns (r: bool)
      requires Valid()
      modifies this
      ensures Valid()
      ensures vertexSet == old(vertexSet) && vertices == old(vertices) && edges == old(edges)
      ensures nextVertex == old(nextVertex) && nextEdge == old(nextEdge)
      ensures aux.Keys == old(aux).Keys
      ensures forall w :: w in aux ==> aux[w] == old(aux[w]).(visited := aux[w].visited, processing := aux[w].processing)
      ensures r <==> !HasCycle(edges)
    {
      ClearFlags();
      assert FlagsOnly(old(aux), aux);
      ghost var a1 := aux;
      r := DagRoots(Structure());
      FlagsOnlyTrans(old(aux), a1, aux);
    }

    /** The second loop of `isDAG`, over flags all cleared: the search from each vertex of the
        vertex vector that is still unvisited, until one finds a cycle. */
    method DagRoots(ghost G: Net<T>) returns (r: bool)
      requires Valid() && Structure() == G
      requires forall x :: x in aux ==> !aux[x].visited && !aux[x].processing
      modifies this
      ensures Structure() == G && nextVertex == old(nextVertex) && nextEdge == old(nextEdge)
      ensures FlagsOnly(old(aux), aux)
      ensures r <==> !HasCycle(G.edges)
    {
      DagInit(G, aux);
      ghost var fin: seq<VertexId> := [];
      var i := 0;
      while i < |vertexSet|
        invariant 0 <= i <= |vertexSet|
        invariant Structure() == G && nextVertex == old(nextVertex) && nextEdge == old(nextEdge)
        invariant aux.Keys == G.vertices.Keys && DagState(G, aux, [], fin)
        invariant FlagsOnly(old(aux), aux)
        invariant forall q :: 0 <= q < i ==> vertexSet[q] in fin
      {
        var ok;
        ghost var f0 := fin;
        ghost var a1 := aux;
        ok, fin := DagRoot(i, G, fin);
        FlagsOnlyTrans(old(aux), a1, aux);
        if !ok {
          return false;
        }
        forall q | 0 <= q < i + 1 ensures vertexSet[q] in fin {
          if q < i {
            assert vertexSet[q] in Elems(f0);
          }
        }
        i := i + 1;
      }
      forall x | x in aux ensures aux[x].visited {
        assert x in Elems(vertexSet);
        var q :| 0 <= q < |vertexSet| && vertexSet[q] == x;
      }
      DagDone(G, aux, fin);
      return true;
    }

    /** One turn of `isDAG`'s second loop: the search from the i-th vertex of the vertex vector
        unless it is visited already. */
    method DagRoot(i: nat, ghost G: Net<T>, ghost fin: seq<VertexId>) returns (ok: bool, ghost fin': seq<VertexId>)
      requires WellFormed(G) && Structure() == G && aux.Keys == G.vertices.Keys && i < |vertexSet|
      requires DagState(G, aux, [], fin)
      modifies this
      ensures Structure() == G && nextVertex == old(nextVertex) && nextEdge == old(nextEdge)
      ensures aux.Keys == G.vertices.Keys && FlagsOnly(old(aux), aux)
      ensures ok ==> DagState(G, aux, [], fin') && Elems(fin) <= Elems(fin') && vertexSet[i] in fin'
      ensures !ok ==> HasCycle(G.edges)
    {
      fin' := fin;
      ok := true;
      var v := vertexSet[i];
      assert v in Elems(vertexSet);
      if !aux[v].visited {
        ok, fin' := DfsIsDag(v, G, [], fin);
      } else {
        assert [] + fin == fin;
      }
    }

    /** `dfsIsDAG(v)`: v is flagged visited and processing, the search goes on along each
        edge out of v, and v is unflagged as processing when no edge led back into the running
        calls; false as soon as one did, which closes a cycle. */
    method DfsIsDag(v: VertexId, ghost G: Net<T>, ghost stack: seq<VertexId>, ghost fin: seq<VertexId>)
      returns (ok: bool, ghost fin': seq<VertexId>)
      requires ListsSound(G) && EdgesListed(G) && Structure() == G && aux.Keys == G.vertices.Keys
      requires DagState(G, aux, stack, fin) && v in G.vertices && !aux[v].visited
      requires stack != [] ==> Succ(G.edges, stack[|stack| - 1], v)
      modifies this
      decreases Unvisited(aux), 1
      ensures Structure() == G && nextVertex == old(nextVertex) && nextEdge == old(nextEdge)
      ensures aux.Keys == G.vertices.Keys && Unvisited(aux) <= old(Unvisited(aux))
      ensures FlagsOnly(old(aux), aux)
      ensures ok ==> DagState(G, aux, stack, fin') && Elems(fin) <= Elems(fin') && v in fin'
      ensures !ok ==> HasCycle(G.edges)
    {
      DagEnter(G, aux, stack, fin, v);
      FlagsOnlySet(aux, v, true, true);
      aux := aux[v := aux[v].(visited := true, processing := true)];
      ghost var a1 := aux;
      ok, fin' := DagEdges(v, G, stack, fin);
      FlagsOnlyTrans(old(aux), a1, aux);
      if ok {
        DagLeave(G, aux, stack, fin', v);
        ghost var a2 := aux;
        FlagsOnlySet(aux, v, aux[v].visited, false);
        aux := aux[v := aux[v].(processing := false)];
        FlagsOnlyTrans(old(aux), a2, aux);
        fin' := fin' + [v];
      }
    }

    /** The loop of `dfsIsDAG(v)` over the edges out of v, once v is flagged. */
    method DagEdges(v: VertexId, ghost G: Net<T>, ghost stack: seq<VertexId>, ghost fin: seq<VertexId>)
      returns (ok: bool, ghost fin': seq<VertexId>)
      requires ListsSound(G) && EdgesListed(G) && Structure() == G && aux.Keys == G.vertices.Keys
      requires DagState(G, aux, stack + [v], fin) && v in G.vertices
      modifies this
      decreases Unvisited(aux), 3
      ensures Structure() == G && nextVertex == old(nextVertex) && nextEdge == old(nextEdge)
      ensures aux.Keys == G.vertices.Keys && Unvisited(aux) <= old(Unvisited(aux))
      ensures FlagsOnly(old(aux), aux)
      ensures ok ==> DagState(G, aux, stack + [v], fin') && Elems(fin) <= Elems(fin')
      ensures ok ==> forall e :: e in G.edges && G.edges[e].orig == v ==> G.edges[e].dest in fin'
      ensures !ok ==> HasCycle(G.edges)
    {
      assert VertexSound(G, v);
      var adj := vertices[v].adj;
      ghost var u0 := Unvisited(aux);
      fin' := fin;
      var j := 0;
      while j < |adj|
        invariant 0 <= j <= |adj|
        invariant Structure() == G && nextVertex == old(nextVertex) && nextEdge == old(nextEdge)
        invariant forall i :: 0 <= i < |adj| ==> adj[i] in G.edges && G.edges[adj[i]].orig == v && G.edges[adj[i]].dest in G.vertices
        invariant aux.Keys == G.vertices.Keys && Unvisited(aux) <= u0
        invariant FlagsOnly(old(aux), aux)
        invariant DagState(G, aux, stack + [v], fin') && Elems(fin) <= Elems(fin')
        invariant forall i :: 0 <= i < j ==> G.edges[adj[i]].dest in fin'
      {
        ghost var f0 := fin';
        ghost var a1 := aux;
        ok, fin' := DagSuccessor(v, adj[j], G, stack, fin');
        FlagsOnlyTrans(old(aux), a1, aux);
        if !ok {
          return;
        }
        forall i | 0 <= i < j + 1 ensures G.edges[adj[i]].dest in fin' {
          if i < j {
            assert G.edges[adj[i]].dest in Elems(f0);
          } else {
            assert i == j;
          }
        }
        j := j + 1;
      }
      forall e | e in G.edges && G.edges[e].orig == v ensures G.edges[e].dest in fin' {
        assert EdgeListed(G, e);
        var i :| 0 <= i < |adj| && adj[i] == e;
      }
      ok := true;
    }

    /** One turn of `dfsIsDAG`'s loop, for the edge e out of v: false when e leads to a vertex
        flagged processing; otherwise the search from its end when that is unvisited. */
    method DagSuccessor(v: VertexId, e: EdgeId, ghost G: Net<T>, ghost stack: seq<VertexId>, ghost fin: seq<VertexId>)
      returns (ok: bool, ghost fin': seq<VertexId>)
      requires ListsSound(G) && EdgesListed(G) && Structure() == G && aux.Keys == G.vertices.Keys
      requires DagState(G, aux, stack + [v], fin)
      requires e in G.edges && G.edges[e].orig == v && G.edges[e].dest in G.vertices
      modifies this
      decreases Unvisited(aux), 2
      ensures Structure() == G && nextVertex == old(nextVertex) && nextEdge == old(nextEdge)
      ensures aux.Keys == G.vertices.Keys && Unvisited(aux) <= old(Unvisited(aux))
      ensures FlagsOnly(old(aux), aux)
      ensures ok ==> DagState(G, aux, stack + [v], fin') && Elems(fin) <= Elems(fin') && G.edges[e].dest in fin'
      ensures !ok ==> HasCycle(G.edges)
    {
      fin' := fin;
      var w := edges[e].dest;
      if aux[w].processing {
        DagBackEdge(G, aux, stack + [v], fin, e);
        ok := false;
        return;
      }
      if !aux[w].visited {
        assert Succ(G.edges, (stack + [v])[|stack + [v]| - 1], w);
        ok, fin' := DfsIsDag(w, G, stack + [v], fin);
      } else {
        ok := true;
      }
    }

    // ------------------------------------------------------------ topological sort

    /** The first loop of `topsort`: sets every vertex's indegree to zero. */
    method ResetIndegrees()
      requires Valid()
      modifies this
      ensures Valid()
      ensures vertexSet == old(vertexSet) && vertices == old(vertices) && edges == old(edges)
      ensures nextVertex == old(nextVertex) && nextEdge == old(nextEdge)
      ensures aux.Keys == old(aux).Keys
      ensures forall w :: w in aux ==> aux[w] == old(aux[w]).(indegree := 0)
    {
      ghost var done: set<VertexId> := {};
      var i := 0;
      while i < |vertexSet|
        invariant 0 <= i <= |vertexSet| && done == Elems(vertexSet[..i])
        invariant vertexSet == old(vertexSet) && vertices == old(vertices) && edges == old(edges)
        invariant nextVertex == old(nextVertex) && nextEdge == old(nextEdge)
        invariant aux.Keys == old(aux).Keys
        invariant forall w :: w in aux ==> aux[w] == if w in done then old(aux[w]).(indegree := 0) else old(aux[w])
      {
        var v := vertexSet[i];
        assert v in Elems(vertexSet);
        aux := aux[v := aux[v].(indegree := 0)];
        ElemsPrefixNext(vertexSet, i);
        done := done + {v};
        i := i + 1;
      }
      assert vertexSet[..i] == vertexSet;
    }

    /** The second loop of `topsort`: one more on the indegree of the end of every edge, so
        that each vertex's indegree counts the edges coming into it. */
    method CountIndegrees(ghost G: Net<T>)
      requires WellFormed(G) && Structure() == G && aux.Keys == G.vertices.Keys
      requires forall w :: w in aux ==> aux[w].indegree == 0
      modifies this
      ensures Structure() == G && nextVertex == old(nextVertex) && nextEdge == old(nextEdge)
      ensures Counts(G, old(aux), aux, G.edges.Keys)
    {
      ghost var a0 := aux;
      ghost var done: set<VertexId> := {};
      forall w | w in aux ensures aux[w] == a0[w].(indegree := InDeg(G.edges, Inside(G.edges, done), w)) {
        assert Into(G.edges, Inside(G.edges, done), w) == {};
      }
      var i := 0;
      while i < |vertexSet|
        invariant 0 <= i <= |vertexSet| && done == Elems(vertexSet[..i])
        invariant Structure() == G && nextVertex == old(nextVertex) && nextEdge == old(nextEdge)
        invariant Counts(G, a0, aux, Inside(G.edges, done))
      {
        var v := vertexSet[i];
        assert v in Elems(vertexSet);
        assert v !in done by {
          assert vertexSet[..i] + [v] + vertexSet[i + 1..] == vertexSet;
          NoDupMiddle(vertexSet[..i], v, vertexSet[i + 1..]);
        }
        InsideStep(G.edges, done, v);
        CountFrom(v, G, a0, Inside(G.edges, done));
        ElemsPrefixNext(vertexSet, i);
        done := done + {v};
        i := i + 1;
      }
      assert vertexSet[..i] == vertexSet;
      InsideAll(G);
    }

    /** The inner loop of `topsort`'s second loop: one more on the indegree of the end of each
        edge out of v. */
    method CountFrom(v: VertexId, ghost G: Net<T>, ghost a0: map<VertexId, Aux>, ghost counted: set<EdgeId>)
      requires ListsSound(G) && EdgesListed(G) && Structure() == G && v in G.vertices
      requires Counts(G, a0, aux, counted) && counted * EdgesFrom(G.edges, v) == {}
      modifies this
      ensures Structure() == G && nextVertex == old(nextVertex) && nextEdge == old(nextEdge)
      ensures Counts(G, a0, aux, counted + EdgesFrom(G.edges, v))
    {
      AdjIsEdgesFrom(G, v);
      NoDupCard(vertices[v].adj);
      assert VertexSound(G, v);
      forall e | e in vertices[v].adj ensures e !in counted {
        assert e in EdgesFrom(G.edges, v) && e !in counted * EdgesFrom(G.edges, v);
      }
      CountAdj(vertices[v].adj, G, a0, counted);
    }

    /** The loop of CountFrom, over a duplicate-free list of edges none of which is counted yet. */
    method CountAdj(adj: seq<EdgeId>, ghost G: Net<T>, ghost a0: map<VertexId, Aux>, ghost counted: set<EdgeId>)
      requires Structure() == G && |Elems(adj)| == |adj|
      requires forall e :: e in adj ==> e in G.edges && G.edges[e].dest in G.vertices && e !in counted
      requires Counts(G, a0, aux, counted)
      modifies this`aux
      ensures Counts(G, a0, aux, counted + Elems(adj))
    {
      assert counted + Elems(adj[..0]) == counted;
      var j := 0;
      while j < |adj|
        invariant 0 <= j <= |adj|
        invariant Counts(G, a0, aux, counted + Elems(adj[..j]))
      {
        CountEdge(adj, j, G, a0, counted);
        j := j + 1;
      }
      assert adj[..j] == adj;
    }

    /** One turn of that loop: one more on the indegree of the end of adj[j]. */
    method CountEdge(adj: seq<EdgeId>, j: nat, ghost G: Net<T>, ghost a0: map<VertexId, Aux>, ghost counted: set<EdgeId>)
      requires Structure() == G && |Elems(adj)| == |adj| && j < |adj|
      requires forall e :: e in adj ==> e in G.edges && G.edges[e].dest in G.vertices && e !in counted
      requires Counts(G, a0, aux, counted + Elems(adj[..j]))
      modifies this`aux
      ensures Counts(G, a0, aux, counted + Elems(adj[..j + 1]))
    {
      var e := adj[j];
      assert e in adj;
      FreshNext(adj, j);
      var w := edges[e].dest;
      ghost var a' := aux[w := aux[w].(indegree := aux[w].indegree + 1)];
      CountsAdd(G, a0, aux, a', counted + Elems(adj[..j]), e);
      aux := aux[w := aux[w].(indegree := aux[w].indegree + 1)];
      assert counted + Elems(adj[..j]) + {e} == counted + Elems(adj[..j + 1]);
    }

    /** The third loop of `topsort`: the vertices whose indegree is zero, each once. */
    method ZeroQueue() returns (q: seq<VertexId>)
      requires Valid()
      ensures |Elems(q)| == |q|
      ensures forall w :: w in q <==> w in vertices && aux[w].indegree == 0
    {
      NoDupCard(vertexSet);
      q := ZeroScan(vertexSet);
      forall w ensures w in q <==> w in vertices && aux[w].indegree == 0 {
        assert w in vertices <==> w in Elems(vertexSet);
      }
    }

    /** The loop of ZeroQueue, over a list of distinct vertices. */
    method ZeroScan(vs: seq<VertexId>) returns (q: seq<VertexId>)
      requires |Elems(vs)| == |vs| && forall v :: v in vs ==> v in aux
      ensures |Elems(q)| == |q|
      ensures forall w :: w in q <==> w in vs && aux[w].indegree == 0
    {
      q := [];
      ghost var seen: set<VertexId> := {};
      var i := 0;
      while i < |vs|
        invariant 0 <= i <= |vs| && seen == Elems(vs[..i])
        invariant |Elems(q)| == |q|
        invariant forall w :: w in q <==> w in seen && aux[w].indegree == 0
      {
        var v := vs[i];
        assert v in vs;
        FreshNext(vs, i);
        if aux[v].indegree == 0 {
          assert Elems(q + [v]) == Elems(q) + {v};
          q := q + [v];
        }
        seen := seen + {v};
        i := i + 1;
      }
      assert vs[..i] == vs;
    }

    /** `topsort`: Kahn's algorithm. When the graph has a cycle, nothing; otherwise the keys of
        all vertices, each once, in an order where every edge goes from an earlier key to a
        later one. Only indegree fields change. */
    method Topsort() returns (res: seq<T>, ghost order: seq<VertexId>)
      requires Valid()
      modifies this
      ensures Valid()
      ensures vertexSet == old(vertexSet) && vertices == old(vertices) && edges == old(edges)
      ensures nextVertex == old(nextVertex) && nextEdge == old(nextEdge)
      ensures aux.Keys == old(aux).Keys
      ensures forall w :: w in aux ==> aux[w] == old(aux[w]).(indegree := aux[w].indegree)
      ensures HasCycle(edges) ==> res == []
      ensures !HasCycle(edges) ==>
        && NoDup(order) && Elems(order) == vertices.Keys && EdgesForward(edges, order)
        && res == InfosOf(Structure(), order) && |res| == |vertexSet|
        && NoDup(res) && forall k :: k in res <==> k in Keys(Structure())
    {
      ResetIndegrees();
      ghost var G := Structure();
      ghost var a0 := aux;
      CountIndegrees(G);
      var q := ZeroQueue();
      KahnStart(G, a0, aux, q);
      ghost var left;
      res, order, left := KahnLoop(q, G, a0);
      KahnEnd(G, a0, aux, order, left);
      forall w | w in aux ensures aux[w] == old(aux[w]).(indegree := aux[w].indegree) {
        assert a0[w] == old(aux[w]).(indegree := 0);
      }
      if |res| != |vertexSet| {
        res := [];
      } else {
        InfosOfKeys(G, order);
      }
    }

    /** The queue loop of `topsort`: take the front vertex, push its key, and take its edges
        away; until the queue is empty. */
    method KahnLoop(q0: seq<VertexId>, ghost G: Net<T>, ghost a0: map<VertexId, Aux>)
      returns (res: seq<T>, ghost order: seq<VertexId>, ghost left: set<EdgeId>)
      requires ListsSound(G) && EdgesListed(G) && Structure() == G
      requires KahnState(G, a0, aux, [], q0, Outside(G.edges, Elems([])))
      modifies this
      ensures Structure() == G && nextVertex == old(nextVertex) && nextEdge == old(nextEdge)
      ensures KahnState(G, a0, aux, order, [], left) && left == Outside(G.edges, Elems(order))
      ensures res == InfosOf(G, order)
    {
      var q := q0;
      res, order, left := [], [], Outside(G.edges, Elems([]));
      while q != []
        invariant Structure() == G && nextVertex == old(nextVertex) && nextEdge == old(nextEdge)
        invariant KahnState(G, a0, aux, order, q, left) && left == Outside(G.edges, Elems(order))
        invariant res == InfosOf(G, order)
        decreases |G.vertices.Keys| - |order|
      {
        SubsetCard(Elems(order + q), G.vertices.Keys);
        var v := q[0];
        KahnPop(G, a0, aux, order, q, left);
        InfosOfConcat(G, order, [v]);
        assert InfosOf(G, [v]) == [vertices[v].info];
        res := res + [vertices[v].info];
        order := order + [v];
        q := q[1..];
        q, left := KahnExpand(v, q, G, a0, order, left);
      }
      assert order + q == order;
    }

    /** The inner loop of `topsort`'s queue loop: for each edge out of v, one less on its end's
        indegree, which joins the queue when that reaches zero. */
    method KahnExpand(v: VertexId, q: seq<VertexId>, ghost G: Net<T>, ghost a0: map<VertexId, Aux>,
                      ghost order: seq<VertexId>, ghost left: set<EdgeId>)
      returns (q': seq<VertexId>, ghost left': set<EdgeId>)
      requires ListsSound(G) && EdgesListed(G) && Structure() == G && v in G.vertices && v in order
      requires KahnState(G, a0, aux, order, q, left)
      requires left == Outside(G.edges, Elems(order)) + EdgesFrom(G.edges, v)
      modifies this
      ensures Structure() == G && nextVertex == old(nextVertex) && nextEdge == old(nextEdge)
      ensures KahnState(G, a0, aux, order, q', left') && left' == Outside(G.edges, Elems(order))
    {
      AdjIsEdgesFrom(G, v);
      NoDupCard(vertices[v].adj);
      assert VertexSound(G, v);
      q', left' := KahnAdj(vertices[v].adj, v, q, G, a0, order, left);
    }

    /** The loop of KahnExpand, over a duplicate-free list of edges out of v. */
    method KahnAdj(adj: seq<EdgeId>, v: VertexId, q: seq<VertexId>, ghost G: Net<T>, ghost a0: map<VertexId, Aux>,
                   ghost order: seq<VertexId>, ghost left: set<EdgeId>)
      returns (q': seq<VertexId>, ghost left': set<EdgeId>)
      requires Structure() == G && v in order && |Elems(adj)| == |adj|
      requires forall e :: e in adj ==> e in G.edges && G.edges[e].orig == v && G.edges[e].dest in G.vertices
      requires KahnState(G, a0, aux, order, q, left)
      requires left == Outside(G.edges, Elems(order)) + Elems(adj)
      modifies this
      ensures Structure() == G && nextVertex == old(nextVertex) && nextEdge == old(nextEdge)
      ensures KahnState(G, a0, aux, order, q', left') && left' == Outside(G.edges, Elems(order))
    {
      ghost var out := Outside(G.edges, Elems(order));
      q', left' := q, left;
      assert adj[0..] == adj;
      var j := 0;
      while j < |adj|
        invariant 0 <= j <= |adj|
        invariant Structure() == G && nextVertex == old(nextVertex) && nextEdge == old(nextEdge)
        invariant KahnState(G, a0, aux, order, q', left')
        invariant left' == out + Elems(adj[j..])
      {
        var e := adj[j];
        assert e in adj;
        assert e !in out by {
          assert v in Elems(order);
        }
        SuffixDrop(adj, j, out, left');
        q' := KahnEdge(v, e, q', G, a0, order, left');
        left' := left' - {e};
        j := j + 1;
      }
      assert Elems(adj[j..]) == {};
    }

    /** One turn of that inner loop, for the edge e out of v. */
    method KahnEdge(v: VertexId, e: EdgeId, q: seq<VertexId>, ghost G: Net<T>, ghost a0: map<VertexId, Aux>,
                    ghost order: seq<VertexId>, ghost left: set<EdgeId>)
      returns (q': seq<VertexId>)
      requires Structure() == G && KahnState(G, a0, aux, order, q, left)
      requires e in left && e in G.edges && G.edges[e].orig == v && v in order && G.edges[e].dest in G.vertices
      modifies this
      ensures Structure() == G && nextVertex == old(nextVertex) && nextEdge == old(nextEdge)
      ensures KahnState(G, a0, aux, order, q', left - {e})
    {
      var w := edges[e].dest;
      assert w == G.edges[e].dest;
      KahnPositive(G, a0, aux, left, e);
      var d: nat := aux[w].indegree - 1;
      aux := aux[w := aux[w].(indegree := d)];
      q' := if d == 0 then q + [w] else q;
      KahnDrop(G, a0, old(aux), aux, order, q, q', left, e);
    }

    // ------------------------------------------------------------ setters

    /** `Edge::setReverse`. */
    method SetReverse(e: EdgeId, r: Option<EdgeId>)
      requires Valid() && e in edges
      modifies this
      ensures Valid()
      ensures edges == old(edges)[e := old(edges)[e].(reverse := r)]
      ensures Keys(Structure()) == old(Keys(Structure()))
      ensures vertexSet == old(vertexSet) && vertices == old(vertices) && aux == old(aux)
      ensures nextVertex == old(nextVertex) && nextEdge == old(nextEdge)
    {
      EdgeDataKeeps(Structure(), e, edges[e].(reverse := r));
      edges := edges[e := edges[e].(reverse := r)];
    }

    /** `Edge::setFlow`. */
    method SetFlow(e: EdgeId, f: real)
      requires Valid() && e in edges
      modifies this
      ensures Valid()
      ensures edges == old(edges)[e := old(edges)[e].(flow := f)]
      ensures vertexSet == old(vertexSet) && vertices == old(vertices) && aux == old(aux)
      ensures nextVertex == old(nextVertex) && nextEdge == old(nextEdge)
    {
      EdgeDataKeeps(Structure(), e, edges[e].(flow := f));
      edges := edges[e := edges[e].(flow := f)];
    }

    /** `Edge::setWeight`. */
    method SetWeight(e: EdgeId, w: real)
      requires Valid() && e in edges
      modifies this
      ensures Valid()
      ensures edges == old(edges)[e := old(edges)[e].(weight := w)]
      ensures vertexSet == old(vertexSet) && vertices == old(vertices) && aux == old(aux)
      ensures nextVertex == old(nextVertex) && nextEdge == old(nextEdge)
    {
      EdgeDataKeeps(Structure(), e, edges[e].(weight := w));
      edges := edges[e := edges[e].(weight := w)];
    }

    /** `Edge::setSelected`. */
    method SetSelected(e: EdgeId, b: bool)
      requires Valid() && e in edges
      modifies this
      ensures Valid()
      ensures edges == old(edges)[e := old(edges)[e].(selected := b)]
      ensures vertexSet == old(vertexSet) && vertices == old(vertices) && aux == old(aux)
      ensures nextVertex == old(nextVertex) && nextEdge == old(nextEdge)
    {
      EdgeDataKeeps(Structure(), e, edges[e].(selected := b));
      edges := edges[e := edges[e].(selected := b)];
    }

    /** `Vertex::setVisited`, `setProcesssing`, `setIndegree`, `setDist` and `setPath`: a write
        to one vertex's auxiliary fields, which leaves the structure as it was. */
    method SetAux(v: VertexId, a: Aux)
      requires Valid() && v in vertices
      modifies this
      ensures Valid()
      ensures aux == old(aux)[v := a]
      ensures Structure() == old(Structure())
      ensures nextVertex == old(nextVertex) && nextEdge == old(nextEdge)
    {
      aux := aux[v := a];
    }
  }
}
