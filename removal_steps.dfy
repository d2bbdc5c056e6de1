/** The intermediate states of the erase loops in Source_Code/Graph.h. `Vertex::deleteEdge`,
    `Vertex::removeEdge`, `Vertex::removeOutgoingEdges` and `Graph::removeVertex` all walk a
    vector while erasing from it (and from other vertices' `incoming` vectors), so between two
    iterations the structure is not well-formed. Each loop's state after i iterations is given
    here as a function of the state before the loop; the lemmas show that the first state is the
    starting one, that one iteration moves from state i to state i + 1, and that the last state is
    the net-level effect stated in module Digraph. */
module RemovalSteps {
  import opened Seqs
  import opened Digraph

  /** The edges whose origin carries key k: what `deleteEdge` compares each incoming entry with. */
  function EdgesFromKey<T(==)>(g: Net<T>, k: T): set<EdgeId> {
    set e | e in g.edges && g.edges[e].orig in g.vertices && g.vertices[g.edges[e].orig].info == k
  }

  /** Every entry of d's incoming list is a live edge whose origin is live, so that `deleteEdge`
      may follow the entries' `orig` pointers. */
  ghost predicate IncomingLive<T>(g: Net<T>, d: VertexId) {
    d in g.vertices &&
    forall e :: e in g.vertices[d].incoming ==> e in g.edges && g.edges[e].orig in g.vertices
  }

  /** `Vertex::deleteEdge(x)` called on v: the destination of x loses every incoming entry whose
      origin has v's key, and x is freed. */
  function DeleteEdgeNet<T(==)>(g: Net<T>, v: VertexId, x: EdgeId): Net<T>
    requires v in g.vertices && x in g.edges && g.edges[x].dest in g.vertices
  {
    var d := g.edges[x].dest;
    Net(g.vertexSet,
        g.vertices[d := g.vertices[d].(incoming := Without(g.vertices[d].incoming, EdgesFromKey(g, g.vertices[v].info)))],
        g.edges - {x})
  }

  /** `adj.erase(it)` at position j of u's outgoing list. */
  function EraseAdjAt<T>(g: Net<T>, u: VertexId, j: nat): Net<T>
    requires u in g.vertices && j < |g.vertices[u].adj|
  {
    var a := g.vertices[u].adj;
    g.(vertices := g.vertices[u := g.vertices[u].(adj := a[..j] + a[j + 1..])])
  }

  /** One iteration of the erase loops over u's outgoing list: entry j is erased from `adj` and
      `deleteEdge` is called on it. */
  function EraseAndDelete<T(==)>(g: Net<T>, u: VertexId, j: nat): Net<T>
    requires u in g.vertices && j < |g.vertices[u].adj|
    requires g.vertices[u].adj[j] in g.edges && g.edges[g.vertices[u].adj[j]].dest in g.vertices
  {
    DeleteEdgeNet(EraseAdjAt(g, u, j), u, g.vertices[u].adj[j])
  }

  /** One iteration keeps the vertex vector, the keys and the soundness of every list: the erased
      edge is listed only in u's `adj` and in its destination's `incoming`, and leaves both. */
  lemma EraseAndDeleteSound<T>(g: Net<T>, u: VertexId, j: nat)
    requires Registry(g) && ListsSound(g) && u in g.vertices && j < |g.vertices[u].adj|
    ensures g.vertices[u].adj[j] in g.edges && g.edges[g.vertices[u].adj[j]].dest in g.vertices
    ensures Registry(EraseAndDelete(g, u, j)) && ListsSound(EraseAndDelete(g, u, j))
    ensures EraseAndDelete(g, u, j).vertexSet == g.vertexSet
    ensures EraseAndDelete(g, u, j).vertices.Keys == g.vertices.Keys
    ensures Keys(EraseAndDelete(g, u, j)) == Keys(g)
    ensures IncomingLive(EraseAdjAt(g, u, j), g.edges[g.vertices[u].adj[j]].dest)
  {
    assert VertexSound(g, u);
    var a := g.vertices[u].adj;
    var x := a[j];
    var t := g.edges[x].dest;
    var h := EraseAndDelete(g, u, j);
    var F := EdgesFromKey(EraseAdjAt(g, u, j), g.vertices[u].info);
    WithoutAt(a, j);
    assert x in F;
    SameRegistry(g, h);
    assert VertexSound(g, t);
    forall w | w in h.vertices ensures VertexSound(h, w) {
      EraseAndDeleteSoundAt(g, u, j, w);
    }
  }

  /** `EraseAndDeleteSound` at one vertex w. */
  lemma EraseAndDeleteSoundAt<T>(g: Net<T>, u: VertexId, j: nat, w: VertexId)
    requires ListsSound(g) && u in g.vertices && j < |g.vertices[u].adj| && w in g.vertices
    requires g.vertices[u].adj[j] in g.edges && g.edges[g.vertices[u].adj[j]].dest in g.vertices
    ensures VertexSound(EraseAndDelete(g, u, j), w)
  {
    assert VertexSound(g, u) && VertexSound(g, w);
    EraseAndDeleteAdjAt(g, u, j, w);
    EraseAndDeleteIncomingAt(g, u, j, w);
  }

  /** The outgoing half of `EraseAndDeleteSoundAt`. */
  lemma EraseAndDeleteAdjAt<T>(g: Net<T>, u: VertexId, j: nat, w: VertexId)
    requires VertexSound(g, u) && VertexSound(g, w) && u in g.vertices && j < |g.vertices[u].adj| && w in g.vertices
    requires g.vertices[u].adj[j] in g.edges && g.edges[g.vertices[u].adj[j]].dest in g.vertices
    ensures var h := EraseAndDelete(g, u, j);
      && w in h.vertices && NoDup(h.vertices[w].adj)
      && forall e :: e in h.vertices[w].adj ==> e in h.edges && h.edges[e].orig == w && h.edges[e].dest in h.vertices
  {
    var a := g.vertices[u].adj;
    EraseAndDeleteView(g, u, j, w);
    if w == u {
      WithoutAt(a, j);
    }
  }

  /** The incoming half of `EraseAndDeleteSoundAt`. */
  lemma EraseAndDeleteIncomingAt<T>(g: Net<T>, u: VertexId, j: nat, w: VertexId)
    requires VertexSound(g, u) && VertexSound(g, w) && u in g.vertices && j < |g.vertices[u].adj| && w in g.vertices
    requires g.vertices[u].adj[j] in g.edges && g.edges[g.vertices[u].adj[j]].dest in g.vertices
    ensures var h := EraseAndDelete(g, u, j);
      && w in h.vertices && NoDup(h.vertices[w].incoming)
      && forall e :: e in h.vertices[w].incoming ==> e in h.edges && h.edges[e].dest == w && h.edges[e].orig in h.vertices
  {
    var x := g.vertices[u].adj[j];
    EraseAndDeleteView(g, u, j, w);
    assert x in EdgesFromKey(EraseAdjAt(g, u, j), g.vertices[u].info);
  }

  /** What one iteration leaves at vertex w: u's list without entry j, and the destination's
      incoming list purged of the edges from u's key. */
  lemma EraseAndDeleteView<T>(g: Net<T>, u: VertexId, j: nat, w: VertexId)
    requires u in g.vertices && j < |g.vertices[u].adj| && w in g.vertices
    requires g.vertices[u].adj[j] in g.edges && g.edges[g.vertices[u].adj[j]].dest in g.vertices
    ensures w in EraseAndDelete(g, u, j).vertices
    ensures EraseAndDelete(g, u, j).vertices[w].adj ==
              if w == u then g.vertices[u].adj[..j] + g.vertices[u].adj[j + 1..] else g.vertices[w].adj
    ensures EraseAndDelete(g, u, j).vertices[w].incoming ==
              if w == g.edges[g.vertices[u].adj[j]].dest
              then Without(g.vertices[w].incoming, EdgesFromKey(EraseAdjAt(g, u, j), g.vertices[u].info))
              else g.vertices[w].incoming
    ensures EraseAndDelete(g, u, j).edges == g.edges - {g.vertices[u].adj[j]}
  {
  }

  /** Two structures agreeing everywhere are equal. */
  lemma NetsEqual<T>(l: Net<T>, r: Net<T>)
    requires l.vertexSet == r.vertexSet && l.edges == r.edges && l.vertices.Keys == r.vertices.Keys
    requires forall w :: w in l.vertices ==> l.vertices[w] == r.vertices[w]
    ensures l == r
  {
    assert l.vertices == r.vertices;
  }

  /** Freeing a and then the rest of b is freeing b. */
  lemma FreeTwice<K, V>(m: map<K, V>, a: set<K>, b: set<K>)
    requires a <= b
    ensures (m - a) - (b - a) == m - b
  {
  }

  // ---------------------------------------------------------------- Vertex::removeEdge

  /** Erasing and deleting an outgoing edge of u towards key k leaves the effect of the whole
      `removeEdge(k)` unchanged, takes that edge out of the ones still to remove, and keeps those
      inside the unvisited part of u's list. */
  lemma RemoveEdgeStep<T>(g: Net<T>, u: VertexId, k: T, j: nat)
    requires Registry(g) && ListsSound(g) && u in g.vertices && j < |g.vertices[u].adj|
    requires g.vertices[u].adj[j] in EdgesToKey(g, u, k)
    requires EdgesToKey(g, u, k) <= Elems(g.vertices[u].adj[j..])
    ensures RemoveEdgeNet(EraseAndDelete(g, u, j), u, k) == RemoveEdgeNet(g, u, k)
    ensures EdgesToKey(EraseAndDelete(g, u, j), u, k) == EdgesToKey(g, u, k) - {g.vertices[u].adj[j]}
    ensures EdgesToKey(EraseAndDelete(g, u, j), u, k)
              <= Elems(EraseAndDelete(g, u, j).vertices[u].adj[j..])
  {
    var a := g.vertices[u].adj;
    var h := EraseAndDelete(g, u, j);
    RemoveEdgeStepNet(g, u, k, j);
    RemoveEdgeStepKeys(g, u, k, j);
    assert h.vertices[u].adj[j..] == a[j + 1..];
    assert a[j..] == [a[j]] + a[j + 1..];
  }

  /** The first half of `RemoveEdgeStep`: the effect of the whole `removeEdge(k)` is unchanged. */
  lemma RemoveEdgeStepNet<T>(g: Net<T>, u: VertexId, k: T, j: nat)
    requires Registry(g) && ListsSound(g) && u in g.vertices && j < |g.vertices[u].adj|
    requires g.vertices[u].adj[j] in EdgesToKey(g, u, k)
    ensures RemoveEdgeNet(EraseAndDelete(g, u, j), u, k) == RemoveEdgeNet(g, u, k)
  {
    var x := g.vertices[u].adj[j];
    var h := EraseAndDelete(g, u, j);
    var l, r := RemoveEdgeNet(h, u, k), RemoveEdgeNet(g, u, k);
    EraseAndDeleteSound(g, u, j);
    RemoveEdgeShape(h, u, k);
    RemoveEdgeShape(g, u, k);
    RemoveEdgeStepKeys(g, u, k, j);
    FreeTwice(g.edges, {x}, EdgesToKey(g, u, k));
    RemoveEdgeStepVertices(g, u, k, j);
    NetsEqual(l, r);
  }

  /** `removeEdge(k)` keeps the vertex vector and the vertex ids, and frees the edges it removes. */
  lemma RemoveEdgeShape<T>(g: Net<T>, u: VertexId, k: T)
    ensures RemoveEdgeNet(g, u, k).vertexSet == g.vertexSet
    ensures RemoveEdgeNet(g, u, k).vertices.Keys == g.vertices.Keys
    ensures RemoveEdgeNet(g, u, k).edges == g.edges - EdgesToKey(g, u, k)
  {
  }

  /** `RemoveEdgeStepAt` at every vertex. */
  lemma RemoveEdgeStepVertices<T>(g: Net<T>, u: VertexId, k: T, j: nat)
    requires Registry(g) && ListsSound(g) && u in g.vertices && j < |g.vertices[u].adj|
    requires g.vertices[u].adj[j] in EdgesToKey(g, u, k)
    ensures forall w :: w in g.vertices ==>
      RemoveEdgeNet(EraseAndDelete(g, u, j), u, k).vertices[w] == RemoveEdgeNet(g, u, k).vertices[w]
  {
    forall w | w in g.vertices
      ensures RemoveEdgeNet(EraseAndDelete(g, u, j), u, k).vertices[w] == RemoveEdgeNet(g, u, k).vertices[w]
    {
      RemoveEdgeStepAt(g, u, k, j, w);
    }
  }

  lemma RemoveEdgeStepKeys<T>(g: Net<T>, u: VertexId, k: T, j: nat)
    requires u in g.vertices && j < |g.vertices[u].adj|
    requires g.vertices[u].adj[j] in EdgesToKey(g, u, k)
    ensures EdgesToKey(EraseAndDelete(g, u, j), u, k) == EdgesToKey(g, u, k) - {g.vertices[u].adj[j]}
  {
  }

  /** `RemoveEdgeStep` at one vertex w. The erased edge x leaves u's `adj`; at its destination t
      the purge by u's key removed exactly the edges from u to t, which are the edges still to
      remove that t lists. */
  lemma RemoveEdgeStepAt<T>(g: Net<T>, u: VertexId, k: T, j: nat, w: VertexId)
    requires Registry(g) && ListsSound(g) && u in g.vertices && j < |g.vertices[u].adj|
    requires g.vertices[u].adj[j] in EdgesToKey(g, u, k)
    requires w in g.vertices
    ensures RemoveEdgeNet(EraseAndDelete(g, u, j), u, k).vertices[w] == RemoveEdgeNet(g, u, k).vertices[w]
  {
    assert VertexSound(g, u);
    var a := g.vertices[u].adj;
    var x := a[j];
    var t := g.edges[x].dest;
    var D := EdgesToKey(g, u, k);
    var F := EdgesFromKey(EraseAdjAt(g, u, j), g.vertices[u].info);
    RemoveEdgeStepKeys(g, u, k, j);
    var D1 := D - {x};
    assert VertexSound(g, w);
    if w == u {
      EraseThenWithout(a, j, D);
    }
    if w == t {
      forall e | e in g.vertices[t].incoming ensures e in F || e in D1 <==> e in D {
        if e in F { KeyIdentifies(g, g.edges[e].orig, u); }
      }
      WithoutThenAgree(g.vertices[t].incoming, F, D1, D);
    } else {
      WithoutAgree(g.vertices[w].incoming, D1, D);
    }
  }

  /** Passing over an outgoing edge of u that does not go to key k. */
  lemma RemoveEdgeSkip<T>(g: Net<T>, u: VertexId, k: T, j: nat)
    requires u in g.vertices && j < |g.vertices[u].adj|
    requires g.vertices[u].adj[j] !in EdgesToKey(g, u, k)
    requires EdgesToKey(g, u, k) <= Elems(g.vertices[u].adj[j..])
    ensures EdgesToKey(g, u, k) <= Elems(g.vertices[u].adj[j + 1..])
  {
    var a := g.vertices[u].adj;
    assert a[j..] == [a[j]] + a[j + 1..];
  }

  /** When u has no outgoing edge towards key k, `removeEdge(k)` changes nothing. */
  lemma RemoveEdgeNothing<T>(g: Net<T>, u: VertexId, k: T)
    requires EdgesToKey(g, u, k) == {}
    ensures RemoveEdgeNet(g, u, k) == g
  {
    var h := RemoveEdgeNet(g, u, k);
    forall w | w in g.vertices ensures h.vertices[w] == g.vertices[w] {
      WithoutNothing(g.vertices[w].adj, {});
      WithoutNothing(g.vertices[w].incoming, {});
    }
    assert h.vertices == g.vertices;
  }

  // ---------------------------------------------------------------- Vertex::removeOutgoingEdges

  /** Erasing and deleting the first outgoing edge of v leaves the effect of the whole
      `removeOutgoingEdges` unchanged, and every edge still leaving v stays listed in v's `adj`. */
  lemma RemoveOutgoingStep<T>(g: Net<T>, v: VertexId)
    requires Registry(g) && ListsSound(g) && v in g.vertices && g.vertices[v].adj != []
    requires EdgesFrom(g.edges, v) <= Elems(g.vertices[v].adj)
    ensures g.vertices[v].adj[0] in g.edges && g.edges[g.vertices[v].adj[0]].dest in g.vertices
    ensures RemoveOutgoingNet(EraseAndDelete(g, v, 0), v) == RemoveOutgoingNet(g, v)
    ensures EraseAndDelete(g, v, 0).vertices[v].adj == g.vertices[v].adj[1..]
    ensures EdgesFrom(EraseAndDelete(g, v, 0).edges, v) <= Elems(EraseAndDelete(g, v, 0).vertices[v].adj)
  {
    assert VertexSound(g, v);
    var a := g.vertices[v].adj;
    var h := EraseAndDelete(g, v, 0);
    RemoveOutgoingStepKeys(g, v);
    assert a == [a[0]] + a[1..];
    assert h.vertices[v].adj == a[1..];
    forall w | w in g.vertices
      ensures RemoveOutgoingNet(h, v).vertices[w] == RemoveOutgoingNet(g, v).vertices[w]
    {
      RemoveOutgoingStepAt(g, v, w);
    }
    FreeTwice(g.edges, {a[0]}, EdgesFrom(g.edges, v));
    NetsEqual(RemoveOutgoingNet(h, v), RemoveOutgoingNet(g, v));
  }

  lemma RemoveOutgoingStepKeys<T>(g: Net<T>, v: VertexId)
    requires ListsSound(g) && v in g.vertices && g.vertices[v].adj != []
    ensures g.vertices[v].adj[0] in EdgesFrom(g.edges, v)
    ensures g.vertices[v].adj[0] in g.edges && g.edges[g.vertices[v].adj[0]].dest in g.vertices
    ensures EdgesFrom(EraseAndDelete(g, v, 0).edges, v) == EdgesFrom(g.edges, v) - {g.vertices[v].adj[0]}
  {
    assert VertexSound(g, v);
  }

  /** `RemoveOutgoingStep` at one vertex w: at the destination of the erased edge, the purge by
      v's key removed exactly the edges leaving v that it lists. */
  lemma RemoveOutgoingStepAt<T>(g: Net<T>, v: VertexId, w: VertexId)
    requires Registry(g) && ListsSound(g) && v in g.vertices && g.vertices[v].adj != []
    requires w in g.vertices
    ensures g.vertices[v].adj[0] in g.edges && g.edges[g.vertices[v].adj[0]].dest in g.vertices
    ensures RemoveOutgoingNet(EraseAndDelete(g, v, 0), v).vertices[w] == RemoveOutgoingNet(g, v).vertices[w]
  {
    assert VertexSound(g, v);
    var x := g.vertices[v].adj[0];
    var t := g.edges[x].dest;
    var out := EdgesFrom(g.edges, v);
    var F := EdgesFromKey(EraseAdjAt(g, v, 0), g.vertices[v].info);
    RemoveOutgoingStepKeys(g, v);
    var out1 := out - {x};
    assert VertexSound(g, w);
    if w == t {
      forall e | e in g.vertices[t].incoming ensures e in F || e in out1 <==> e in out {
        if e in F { KeyIdentifies(g, g.edges[e].orig, v); }
      }
      WithoutThenAgree(g.vertices[t].incoming, F, out1, out);
    } else {
      WithoutAgree(g.vertices[w].incoming, out1, out);
    }
  }

  /** When v's `adj` is empty and lists every edge leaving v, `removeOutgoingEdges` changes nothing. */
  lemma RemoveOutgoingNothing<T>(g: Net<T>, v: VertexId)
    requires v in g.vertices && g.vertices[v].adj == []
    requires EdgesFrom(g.edges, v) <= Elems(g.vertices[v].adj)
    ensures RemoveOutgoingNet(g, v) == g
  {
    var h := RemoveOutgoingNet(g, v);
    assert EdgesFrom(g.edges, v) == {};
    forall w | w in g.vertices ensures h.vertices[w] == g.vertices[w] {
      WithoutNothing(g.vertices[w].incoming, {});
    }
    FreeNone(g.edges);
    NetsEqual(h, g);
  }

  // ---------------------------------------------------------------- Graph::removeVertex

  /** Removing v's outgoing edges first does not change the effect of removing v. */
  lemma RemoveVertexAfterOutgoing<T>(g: Net<T>, v: VertexId)
    requires ListsSound(g) && v in g.vertices
    ensures RemoveVertexNet(RemoveOutgoingNet(g, v), v) == RemoveVertexNet(g, v)
  {
    var h := RemoveOutgoingNet(g, v);
    AfterOutgoingTouching(g, v);
    forall w | w in g.vertices && w != v
      ensures RemoveVertexNet(h, v).vertices[w] == RemoveVertexNet(g, v).vertices[w]
    {
      assert VertexSound(g, w);
      var out := EdgesFrom(g.edges, v);
      var gone := EdgesTouching(g.edges, v);
      WithoutAgree(g.vertices[w].adj, gone - out, gone);
      WithoutThenAgree(g.vertices[w].incoming, out, gone - out, gone);
    }
    FreeTwice(g.edges, EdgesFrom(g.edges, v), EdgesTouching(g.edges, v));
    NetsEqual(RemoveVertexNet(h, v), RemoveVertexNet(g, v));
  }

  lemma AfterOutgoingTouching<T>(g: Net<T>, v: VertexId)
    ensures EdgesTouching(RemoveOutgoingNet(g, v).edges, v) == EdgesTouching(g.edges, v) - EdgesFrom(g.edges, v)
    ensures EdgesFrom(g.edges, v) <= EdgesTouching(g.edges, v)
  {
  }

  /** Removing u's edges towards v's key first does not change the effect of removing v. */
  lemma RemoveVertexAfterRemoveEdge<T>(g: Net<T>, v: VertexId, u: VertexId)
    requires Registry(g) && ListsSound(g) && v in g.vertices && u in g.vertices
    ensures RemoveVertexNet(RemoveEdgeNet(g, u, g.vertices[v].info), v) == RemoveVertexNet(g, v)
  {
    var h := RemoveEdgeNet(g, u, g.vertices[v].info);
    AfterRemoveEdgeTouching(g, v, u);
    forall w | w in g.vertices && w != v
      ensures RemoveVertexNet(h, v).vertices[w] == RemoveVertexNet(g, v).vertices[w]
    {
      assert VertexSound(g, w);
      var D := EdgesToKey(g, u, g.vertices[v].info);
      var gone := EdgesTouching(g.edges, v);
      if w == u {
        WithoutThenAgree(g.vertices[w].adj, D, gone - D, gone);
      } else {
        WithoutAgree(g.vertices[w].adj, gone - D, gone);
      }
      WithoutThenAgree(g.vertices[w].incoming, D, gone - D, gone);
    }
    FreeTwice(g.edges, EdgesToKey(g, u, g.vertices[v].info), EdgesTouching(g.edges, v));
    NetsEqual(RemoveVertexNet(h, v), RemoveVertexNet(g, v));
  }

  /** u's edges towards v's key are edges into v. */
  lemma AfterRemoveEdgeTouching<T>(g: Net<T>, v: VertexId, u: VertexId)
    requires Registry(g) && v in g.vertices
    ensures EdgesToKey(g, u, g.vertices[v].info) <= EdgesTouching(g.edges, v)
    ensures EdgesTouching(RemoveEdgeNet(g, u, g.vertices[v].info).edges, v)
              == EdgesTouching(g.edges, v) - EdgesToKey(g, u, g.vertices[v].info)
  {
    forall e | e in EdgesToKey(g, u, g.vertices[v].info) ensures e in EdgesTouching(g.edges, v) {
      KeyIdentifies(g, g.edges[e].dest, v);
    }
  }

  /** Once no edge touches v, removing v only erases it from the vector, at its position p. */
  lemma RemoveVertexUntouched<T>(g: Net<T>, v: VertexId, p: nat)
    requires Registry(g) && p < |g.vertexSet| && g.vertexSet[p] == v
    requires EdgesTouching(g.edges, v) == {}
    ensures RemoveVertexNet(g, v) ==
              Net(g.vertexSet[..p] + g.vertexSet[p + 1..], g.vertices - {v}, g.edges)
  {
    WithoutAt(g.vertexSet, p);
    var h := RemoveVertexNet(g, v);
    var r := Net(g.vertexSet[..p] + g.vertexSet[p + 1..], g.vertices - {v}, g.edges);
    forall w | w in h.vertices ensures h.vertices[w] == r.vertices[w] {
      WithoutNothing(g.vertices[w].adj, {});
      WithoutNothing(g.vertices[w].incoming, {});
    }
    FreeNone(g.edges);
    NetsEqual(h, r);
  }

  lemma FreeNone<K, V>(m: map<K, V>)
    ensures m - {} == m
  {
  }

  /** No edge leaves v, and no edge from a vertex in `done` enters v. */
  ghost predicate Detached<T>(g: Net<T>, v: VertexId, done: set<VertexId>) {
    forall e :: e in g.edges ==> g.edges[e].orig != v && (g.edges[e].dest == v ==> g.edges[e].orig !in done)
  }

  /** After `removeOutgoingEdges`, nothing leaves v. */
  lemma DetachedAfterOutgoing<T>(g: Net<T>, v: VertexId)
    ensures Detached(RemoveOutgoingNet(g, v), v, {})
  {
  }

  /** After u's `removeEdge` towards v's key, nothing from u enters v either. */
  lemma DetachedStep<T>(g: Net<T>, v: VertexId, u: VertexId, done: set<VertexId>)
    requires v in g.vertices && Detached(g, v, done)
    ensures Detached(RemoveEdgeNet(g, u, g.vertices[v].info), v, done + {u})
  {
  }

  /** Once every live vertex has been handled, no edge touches v. */
  lemma DetachedAll<T>(g: Net<T>, v: VertexId)
    requires EdgesListed(g) && Detached(g, v, g.vertices.Keys)
    ensures EdgesTouching(g.edges, v) == {}
  {
    forall e | e in g.edges ensures e !in EdgesTouching(g.edges, v) {
      assert EdgeListed(g, e);
    }
  }
}
