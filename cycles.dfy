/** The invariant of the cycle test of Source_Code/Graph.h (`isDAG` and `dfsIsDAG`): a
    depth-first search that keeps the vertices of the current recursion path flagged
    `processing`, and reports a cycle on the first edge into such a vertex. */
module Cycles {
  import opened Seqs
  import opened Digraph
  import opened Paths
  import opened Search

  /** The flags a run of `dfsIsDAG` leaves, described by two ghost sequences: stack, the
      vertices whose call is still running (outermost first), and fin, the vertices whose call
      has returned, in the order they returned. Exactly the stack is `processing`, exactly stack
      and fin are `visited`, no vertex is in both or twice, the stack is a walk, and every edge
      out of a finished vertex ends at a vertex that finished before it. */
  ghost predicate DagState<T>(g: Net<T>, a: map<VertexId, Aux>, stack: seq<VertexId>, fin: seq<VertexId>) {
    && (forall x :: x in a ==> (a[x].processing <==> x in stack))
    && (forall x :: x in a ==> (a[x].visited <==> x in stack || x in fin))
    && (forall x :: x in stack + fin ==> x in a)
    && |Elems(stack + fin)| == |stack + fin|
    && (stack != [] ==> IsPath(g.edges, stack))
    && EdgesBackward(g.edges, fin)
  }

  /** Of the auxiliary fields a0, only the `visited` and `processing` flags may differ in a:
      the only fields `isDAG` and `dfsIsDAG` write. */
  ghost predicate FlagsOnly(a0: map<VertexId, Aux>, a: map<VertexId, Aux>) {
    && a.Keys == a0.Keys
    && forall w :: w in a ==> a[w] == a0[w].(visited := a[w].visited, processing := a[w].processing)
  }

  /** Two runs that write only the flags write only the flags. */
  lemma FlagsOnlyTrans(a0: map<VertexId, Aux>, a1: map<VertexId, Aux>, a2: map<VertexId, Aux>)
    requires FlagsOnly(a0, a1) && FlagsOnly(a1, a2)
    ensures FlagsOnly(a0, a2)
  {
  }

  /** Setting v's two flags writes only the flags. */
  lemma FlagsOnlySet(a: map<VertexId, Aux>, v: VertexId, visited: bool, processing: bool)
    requires v in a
    ensures FlagsOnly(a, a[v := a[v].(visited := visited, processing := processing)])
  {
  }

  /** Before the search, with every flag cleared, nothing is on the stack or finished. */
  lemma DagInit<T>(g: Net<T>, a: map<VertexId, Aux>)
    requires forall x :: x in a ==> !a[x].visited && !a[x].processing
    ensures DagState(g, a, [], [])
  {
  }

  /** Entering `dfsIsDAG(v)` for an unvisited v reached from the top of the stack (or from
      `isDAG`, with an empty stack): v is flagged and pushed, and fewer vertices are left. */
  lemma DagEnter<T>(g: Net<T>, a: map<VertexId, Aux>, stack: seq<VertexId>, fin: seq<VertexId>, v: VertexId)
    requires DagState(g, a, stack, fin) && v in a && !a[v].visited
    requires stack != [] ==> Succ(g.edges, stack[|stack| - 1], v)
    ensures DagState(g, a[v := a[v].(visited := true, processing := true)], stack + [v], fin)
    ensures Unvisited(a[v := a[v].(visited := true, processing := true)]) < Unvisited(a)
  {
    var a' := a[v := a[v].(visited := true, processing := true)];
    assert v !in stack + fin;
    assert Elems(stack + [v] + fin) == Elems(stack + fin) + {v} by {
      assert forall x :: x in stack + [v] + fin <==> x in stack + fin || x == v;
    }
    if stack == [] {
      assert IsPath(g.edges, [v]);
    } else {
      PathSnoc(g.edges, stack, v);
    }
    assert v in Unvisited(a) && v !in Unvisited(a');
  }

  /** Leaving `dfsIsDAG(v)` normally, once every edge out of v ends at a finished vertex: v
      is popped, unflagged as processing, and finishes. */
  lemma DagLeave<T>(g: Net<T>, a: map<VertexId, Aux>, stack: seq<VertexId>, fin: seq<VertexId>, v: VertexId)
    requires DagState(g, a, stack + [v], fin) && v in a
    requires forall e :: e in g.edges && g.edges[e].orig == v ==> g.edges[e].dest in fin
    ensures DagState(g, a[v := a[v].(processing := false)], stack, fin + [v])
    ensures Unvisited(a[v := a[v].(processing := false)]) == Unvisited(a)
  {
    var a' := a[v := a[v].(processing := false)];
    assert Elems(stack + (fin + [v])) == Elems(stack + [v] + fin) by {
      assert forall x :: x in stack + (fin + [v]) <==> x in stack + [v] + fin;
    }
    assert |stack + (fin + [v])| == |stack + [v] + fin|;
    CardNoDup(stack + [v] + fin);
    NoDupMiddle(stack, v, fin);
    if stack != [] {
      assert IsPath(g.edges, stack) by {
        forall i | 0 <= i < |stack| - 1 ensures Succ(g.edges, stack[i], stack[i + 1]) {
          assert (stack + [v])[i] == stack[i] && (stack + [v])[i + 1] == stack[i + 1];
        }
      }
    }
    var f := fin + [v];
    forall i, e | 0 <= i < |f| && e in g.edges && g.edges[e].orig == f[i] ensures g.edges[e].dest in f[..i] {
      if i < |fin| {
        assert f[..i] == fin[..i];
      } else {
        assert f[..i] == fin;
      }
    }
    assert Unvisited(a') == Unvisited(a);
  }

  /** An edge from the top of the stack into a vertex flagged `processing` closes a cycle:
      the stack is a walk, and the edge leads back to a vertex on it. */
  lemma DagBackEdge<T>(g: Net<T>, a: map<VertexId, Aux>, stack: seq<VertexId>, fin: seq<VertexId>, e: EdgeId)
    requires DagState(g, a, stack, fin) && stack != []
    requires e in g.edges && g.edges[e].orig == stack[|stack| - 1]
    requires g.edges[e].dest in a && a[g.edges[e].dest].processing
    ensures HasCycle(g.edges)
  {
    var i :| 0 <= i < |stack| && stack[i] == g.edges[e].dest;
    BackEdgeCycle(g.edges, stack, i);
  }

  /** When the search from every vertex has ended without a back edge, every vertex has
      finished, and the finishing order shows that there is no cycle. */
  lemma DagDone<T>(g: Net<T>, a: map<VertexId, Aux>, fin: seq<VertexId>)
    requires EdgesListed(g) && a.Keys == g.vertices.Keys
    requires DagState(g, a, [], fin)
    requires forall x :: x in a ==> a[x].visited
    ensures !HasCycle(g.edges)
  {
    assert [] + fin == fin;
    CardNoDup(fin);
    forall e | e in g.edges ensures g.edges[e].orig in fin {
      assert EdgeListed(g, e);
    }
    BackwardOrderAcyclic(g.edges, fin);
  }
}
