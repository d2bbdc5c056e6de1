/** The bookkeeping of the traversals of Source_Code/Graph.h (`dfs`, `bfs`, `isDAG`, `topsort`):
    the auxiliary per-vertex fields they overwrite, the keys they push into their result
    vector, and the invariants their loops keep, stated over values. */
module Search {
  import opened Seqs
  import opened Digraph
  import opened Paths

  /** The auxiliary fields of a vertex: `visited`, `processing`, `indegree`, `dist` and `path`. */
  datatype Aux = Aux(visited: bool, processing: bool, indegree: nat, dist: real, path: Option<EdgeId>)

  /** The auxiliary fields of a freshly built vertex. `indegree` is left uninitialised by the
      source's constructor; the model starts it at 0. */
  const FreshAux := Aux(false, false, 0, 0.0, None)

  /** `dest->indegree++`, as `Vertex::addEdge` does for the new edge's destination v. */
  function Bump(a: map<VertexId, Aux>, v: VertexId): map<VertexId, Aux>
    requires v in a
  {
    a[v := a[v].(indegree := a[v].indegree + 1)]
  }

  /** The keys of the vertices ids, in order: what a traversal pushes into its result. */
  function InfosOf<T>(g: Net<T>, ids: seq<VertexId>): (r: seq<T>)
    requires forall x :: x in ids ==> x in g.vertices
    ensures |r| == |ids|
  {
    if ids == [] then []
    else
      assert forall x :: x in ids[..|ids| - 1] ==> x in ids;
      InfosOf(g, ids[..|ids| - 1]) + [g.vertices[ids[|ids| - 1]].info]
  }

  /** Position i of the pushed keys is the key of the i-th vertex. */
  lemma {:induction false} InfosOfAt<T>(g: Net<T>, ids: seq<VertexId>, i: nat)
    requires forall x :: x in ids ==> x in g.vertices
    requires i < |ids|
    ensures InfosOf(g, ids)[i] == g.vertices[ids[i]].info
    decreases |ids|
  {
    var n := |ids| - 1;
    assert forall x :: x in ids[..n] ==> x in ids;
    if i < n {
      InfosOfAt(g, ids[..n], i);
    }
  }

  lemma InfosOfConcat<T>(g: Net<T>, a: seq<VertexId>, b: seq<VertexId>)
    requires forall x :: x in a ==> x in g.vertices
    requires forall x :: x in b ==> x in g.vertices
    ensures InfosOf(g, a + b) == InfosOf(g, a) + InfosOf(g, b)
  {
    var l, r := InfosOf(g, a + b), InfosOf(g, a) + InfosOf(g, b);
    forall i | 0 <= i < |l| ensures l[i] == r[i] {
      InfosOfAt(g, a + b, i);
      if i < |a| {
        InfosOfAt(g, a, i);
      } else {
        InfosOfAt(g, b, i - |a|);
      }
    }
  }

  /** Pushing the keys of one run of vertices after another's is pushing the keys of both. */
  lemma InfosOfExtend<T>(g: Net<T>, res0: seq<T>, res1: seq<T>, res2: seq<T>, a: seq<VertexId>, b: seq<VertexId>)
    requires forall x :: x in a ==> x in g.vertices
    requires forall x :: x in b ==> x in g.vertices
    requires res1 == res0 + InfosOf(g, a) && res2 == res1 + InfosOf(g, b)
    ensures res2 == res0 + InfosOf(g, a + b)
  {
    InfosOfConcat(g, a, b);
  }

  /** With unique keys, distinct vertices push distinct keys, and a key is pushed exactly when
      its vertex is among ids. */
  lemma InfosOfKeys<T>(g: Net<T>, ids: seq<VertexId>)
    requires Registry(g) && NoDup(ids)
    requires forall x :: x in ids ==> x in g.vertices
    ensures NoDup(InfosOf(g, ids))
    ensures forall k :: k in InfosOf(g, ids) <==> k in Keys(g) && VertexOf(g, k) in ids
  {
    var r := InfosOf(g, ids);
    forall i | 0 <= i < |r| ensures r[i] == g.vertices[ids[i]].info {
      InfosOfAt(g, ids, i);
    }
    forall i, j | 0 <= i < j < |r| ensures r[i] != r[j] {
      if r[i] == r[j] {
        KeyIdentifies(g, ids[i], ids[j]);
      }
    }
    forall k ensures k in r <==> k in Keys(g) && VertexOf(g, k) in ids {
      if k in r {
        var i :| 0 <= i < |r| && r[i] == k;
        KeyIdentifies(g, ids[i], VertexOf(g, k));
      }
      if k in Keys(g) && VertexOf(g, k) in ids {
        var i :| 0 <= i < |ids| && ids[i] == VertexOf(g, k);
        assert r[i] == k;
      }
    }
  }

  // ---------------------------------------------------------------- visited flags

  /** The vertices already visited. */
  function Marked(a: map<VertexId, Aux>): set<VertexId> {
    set w | w in a && a[w].visited
  }

  /** The vertices not yet visited. */
  function Unvisited(a: map<VertexId, Aux>): set<VertexId> {
    set w | w in a && !a[w].visited
  }

  /** The auxiliary fields a with the vertices of s marked visited, and nothing else changed. */
  function Mark(a: map<VertexId, Aux>, s: set<VertexId>): (r: map<VertexId, Aux>)
    ensures r.Keys == a.Keys
  {
    map w | w in a :: if w in s then a[w].(visited := true) else a[w]
  }

  /** Setting one flag is marking a one-vertex set. */
  lemma MarkOne(a: map<VertexId, Aux>, v: VertexId)
    requires v in a
    ensures a[v := a[v].(visited := true)] == Mark(a, {v})
  {
  }

  /** Marking twice is marking the union. */
  lemma MarkTwice(a: map<VertexId, Aux>, s1: set<VertexId>, s2: set<VertexId>)
    ensures Mark(Mark(a, s1), s2) == Mark(a, s1 + s2)
  {
  }

  /** Marking adds the marked vertices to the visited ones and takes them from the rest. */
  lemma MarkEffect(a: map<VertexId, Aux>, s: set<VertexId>)
    ensures Marked(Mark(a, s)) == Marked(a) + s * a.Keys
    ensures Unvisited(Mark(a, s)) == Unvisited(a) - s
  {
  }

  /** Every vertex of seen after the first is entered by a live edge, its parent, from an
      earlier vertex of seen: the tree a search grows. */
  ghost predicate Tree(edges: map<EdgeId, Edge>, seen: seq<VertexId>, parent: map<VertexId, EdgeId>) {
    forall i :: 0 < i < |seen| ==>
      && seen[i] in parent && parent[seen[i]] in edges
      && edges[parent[seen[i]]].dest == seen[i] && edges[parent[seen[i]]].orig in seen[..i]
  }

  /** Every vertex of a search tree is reachable from its root. */
  lemma {:induction false} TreeReach(edges: map<EdgeId, Edge>, seen: seq<VertexId>, parent: map<VertexId, EdgeId>, i: nat)
    requires Tree(edges, seen, parent) && i < |seen|
    ensures Reachable(edges, seen[0], seen[i])
    decreases i
  {
    if i == 0 {
      ReachRefl(edges, seen[0]);
    } else {
      var e := parent[seen[i]];
      var j :| 0 <= j < i && seen[j] == edges[e].orig;
      TreeReach(edges, seen, parent, j);
      ReachAppend(edges, seen[0], seen[j], seen[i]);
    }
  }

  /** What one `dfsVisit` call from v did, between auxiliary fields a0 and a: it marked exactly
      the vertices of seen, which were unvisited, v first and each once, along the edges of a
      tree rooted at v, and changed no other field. */
  ghost predicate Visit<T>(g: Net<T>, a0: map<VertexId, Aux>, a: map<VertexId, Aux>, v: VertexId,
                           seen: seq<VertexId>, parent: map<VertexId, EdgeId>) {
    && a == Mark(a0, Elems(seen))
    && |seen| >= 1 && seen[0] == v && |Elems(seen)| == |seen|
    && (forall x :: x in seen ==> x in a0 && !a0[x].visited && x in g.vertices)
    && parent.Keys <= Elems(seen) && Tree(g.edges, seen, parent)
  }

  /** Marking v is the start of a visit from v. */
  lemma VisitStart<T>(g: Net<T>, a0: map<VertexId, Aux>, v: VertexId)
    requires v in a0 && !a0[v].visited && v in g.vertices
    ensures Visit(g, a0, a0[v := a0[v].(visited := true)], v, [v], map[])
  {
    MarkOne(a0, v);
    assert Elems([v]) == {v};
  }

  /** A visit from v marks v, leaves every marked vertex marked, and so shrinks the set of
      vertices left to visit: what makes `dfsVisit`'s recursion end. */
  lemma VisitProgress<T>(g: Net<T>, a0: map<VertexId, Aux>, a: map<VertexId, Aux>, v: VertexId,
                         seen: seq<VertexId>, parent: map<VertexId, EdgeId>)
    requires Visit(g, a0, a, v, seen, parent)
    ensures v in Marked(a) && Marked(a0) <= Marked(a)
    ensures Unvisited(a) < Unvisited(a0)
  {
    MarkEffect(a0, Elems(seen));
    assert v in Unvisited(a0) - Unvisited(a);
  }

  /** A visit from v that goes on, along an edge e from v to w, with a complete visit from w is
      still a visit from v, with w's vertices appended. */
  lemma VisitCompose<T>(g: Net<T>, a0: map<VertexId, Aux>, a1: map<VertexId, Aux>, a2: map<VertexId, Aux>,
                        v: VertexId, e: EdgeId, seen: seq<VertexId>, more: seq<VertexId>,
                        p1: map<VertexId, EdgeId>, p2: map<VertexId, EdgeId>)
    requires e in g.edges && g.edges[e].orig == v
    requires Visit(g, a0, a1, v, seen, p1) && Visit(g, a1, a2, g.edges[e].dest, more, p2)
    ensures Visit(g, a0, a2, v, seen + more, (p1 + p2)[g.edges[e].dest := e])
  {
    MarksCompose(a0, a1, a2, seen, more);
    TreeCompose(g.edges, seen, more, p1, p2, e);
  }

  /** Marking seen and then the unmarked vertices of more is marking seen + more, and the two
      have no vertex in common. */
  lemma MarksCompose(a0: map<VertexId, Aux>, a1: map<VertexId, Aux>, a2: map<VertexId, Aux>,
                     seen: seq<VertexId>, more: seq<VertexId>)
    requires a1 == Mark(a0, Elems(seen)) && a2 == Mark(a1, Elems(more))
    requires |Elems(seen)| == |seen| && |Elems(more)| == |more|
    requires forall x :: x in more ==> x in a1 && !a1[x].visited
    ensures forall x :: x in more ==> x in a0 && !a0[x].visited && x !in seen
    ensures a2 == Mark(a0, Elems(seen + more)) && |Elems(seen + more)| == |seen + more|
  {
    forall x | x in more ensures x in a0 && !a0[x].visited && x !in seen {
    }
    MarkTwice(a0, Elems(seen), Elems(more));
    assert Elems(seen + more) == Elems(seen) + Elems(more);
    assert Elems(seen) * Elems(more) == {};
  }

  /** Hanging a second tree below an edge from a vertex of the first gives a tree. */
  lemma TreeCompose(edges: map<EdgeId, Edge>, seen: seq<VertexId>, more: seq<VertexId>,
                    p1: map<VertexId, EdgeId>, p2: map<VertexId, EdgeId>, e: EdgeId)
    requires Tree(edges, seen, p1) && p1.Keys <= Elems(seen) && |seen| >= 1
    requires Tree(edges, more, p2) && p2.Keys <= Elems(more) && |more| >= 1
    requires e in edges && edges[e].orig == seen[0] && edges[e].dest == more[0]
    requires forall x :: x in more ==> x !in seen
    ensures Tree(edges, seen + more, (p1 + p2)[more[0] := e])
  {
    var s, p, w := seen + more, (p1 + p2)[more[0] := e], more[0];
    forall i | 0 < i < |s|
      ensures s[i] in p && p[s[i]] in edges && edges[p[s[i]]].dest == s[i] && edges[p[s[i]]].orig in s[..i]
    {
      if i < |seen| {
        assert s[i] == seen[i] && s[..i] == seen[..i];
        assert seen[i] in p1 && seen[i] !in p2 && seen[i] != w;
      } else if i == |seen| {
        assert s[i] == w && s[0] == seen[0];
      } else {
        var k := i - |seen|;
        assert s[i] == more[k] && more[k] !in p1 && s[0] == seen[0];
        assert s[..i] == seen + more[..k];
      }
    }
  }

  /** The vertices a run of visits has marked, in order, extended by one more visit. */
  lemma VisitAppend<T>(g: Net<T>, a0: map<VertexId, Aux>, a: map<VertexId, Aux>, v: VertexId,
                       order: seq<VertexId>, seen: seq<VertexId>, parent: map<VertexId, EdgeId>)
    requires |Elems(order)| == |order| && (forall x :: x in order ==> x in a0)
    requires Visit(g, Mark(a0, Elems(order)), a, v, seen, parent)
    ensures |Elems(order + seen)| == |order + seen| && a == Mark(a0, Elems(order + seen))
    ensures forall x :: x in seen ==> x in g.vertices
  {
    forall x | x in order ensures x !in seen {
      assert Mark(a0, Elems(order))[x].visited;
    }
    MarkTwice(a0, Elems(order), Elems(seen));
    assert Elems(order + seen) == Elems(order) + Elems(seen);
    assert Elems(order) * Elems(seen) == {};
  }

  /** Every live edge leaving a visited vertex outside `open` (the vertices whose `dfsVisit` is
      still running) ends at a visited vertex. */
  ghost predicate DoneClosed(edges: map<EdgeId, Edge>, a: map<VertexId, Aux>, open: set<VertexId>) {
    forall e ::
      (e in edges && edges[e].orig in a && edges[e].dest in a && a[edges[e].orig].visited && edges[e].orig !in open)
        ==> a[edges[e].dest].visited
  }

  /** With nothing open, the visited vertices form a set closed under edges. */
  lemma DoneClosedIsClosed<T>(g: Net<T>, a: map<VertexId, Aux>)
    requires EdgesListed(g) && a.Keys == g.vertices.Keys && DoneClosed(g.edges, a, {})
    ensures Closed(g.edges, Marked(a))
  {
    forall e | e in g.edges && g.edges[e].orig in Marked(a)
      ensures g.edges[e].dest in Marked(a)
    {
      assert EdgeListed(g, e);
    }
  }

  /** A search from s that started with nothing visited and left every marked vertex with its
      successors marked has marked exactly the vertices reachable from s. */
  lemma ReachedExactly<T>(g: Net<T>, s: VertexId, a0: map<VertexId, Aux>, a: map<VertexId, Aux>,
                          seen: seq<VertexId>, parent: map<VertexId, EdgeId>)
    requires EdgesListed(g) && a.Keys == g.vertices.Keys
    requires Marked(a0) == {}
    requires Visit(g, a0, a, s, seen, parent) && DoneClosed(g.edges, a, {})
    ensures forall w :: w in g.vertices ==> (w in seen <==> Reachable(g.edges, s, w))
  {
    forall i | 0 <= i < |seen| ensures Reachable(g.edges, s, seen[i]) {
      TreeReach(g.edges, seen, parent, i);
    }
    DoneClosedIsClosed(g, a);
    MarkEffect(a0, Elems(seen));
    forall w | w in g.vertices && Reachable(g.edges, s, w) ensures w in seen {
      ClosedContainsReachable(g.edges, Marked(a), s, w);
    }
  }

  /** What a search from s over freshly cleared flags leaves behind: of the auxiliary fields
      before the clearing, only the visited flags differ, and exactly the vertices reachable
      from s have theirs set. */
  lemma SearchMarks<T>(g: Net<T>, s: VertexId, before: map<VertexId, Aux>, a0: map<VertexId, Aux>,
                       a: map<VertexId, Aux>, seen: seq<VertexId>, parent: map<VertexId, EdgeId>)
    requires EdgesListed(g) && a.Keys == g.vertices.Keys
    requires a0.Keys == before.Keys && forall w :: w in a0 ==> a0[w] == before[w].(visited := false)
    requires Visit(g, a0, a, s, seen, parent) && DoneClosed(g.edges, a, {})
    ensures a.Keys == before.Keys
    ensures forall w :: w in a ==> a[w] == before[w].(visited := Reachable(g.edges, s, w))
  {
    ReachedExactly(g, s, a0, a, seen, parent);
  }

  /** The closing argument of `dfs()`: once every vertex of the vertex vector is marked and the
      marks are exactly the visit order, the collected keys are every key, each once. */
  lemma DfsCovers<T>(g: Net<T>, a0: map<VertexId, Aux>, order: seq<VertexId>)
    requires Registry(g) && Marked(a0) == {}
    requires |Elems(order)| == |order| && (forall x :: x in order ==> x in g.vertices)
    requires forall q :: 0 <= q < |g.vertexSet| ==> g.vertexSet[q] in Marked(Mark(a0, Elems(order)))
    ensures NoDup(InfosOf(g, order)) && |InfosOf(g, order)| == |g.vertexSet|
    ensures forall k :: k in InfosOf(g, order) <==> k in Keys(g)
  {
    MarkEffect(a0, Elems(order));
    forall w | w in g.vertices ensures w in order {
      assert w in Elems(g.vertexSet);
      var q :| 0 <= q < |g.vertexSet| && g.vertexSet[q] == w;
    }
    assert Elems(order) == g.vertices.Keys;
    CardNoDup(order);
    InfosOfKeys(g, order);
    NoDupCard(g.vertexSet);
  }

  /** The closing argument of `dfs(source)`: a visit from s over a fully unmarked graph that
      leaves no marked vertex with an unmarked successor collects the keys of exactly the
      vertices reachable from s, each once, s's own key first. */
  lemma DfsFromCovers<T>(g: Net<T>, s: VertexId, a0: map<VertexId, Aux>, a: map<VertexId, Aux>,
                         seen: seq<VertexId>, parent: map<VertexId, EdgeId>)
    requires Registry(g) && EdgesListed(g) && a.Keys == g.vertices.Keys
    requires Marked(a0) == {}
    requires Visit(g, a0, a, s, seen, parent) && DoneClosed(g.edges, a, {})
    ensures |InfosOf(g, seen)| >= 1 && InfosOf(g, seen)[0] == g.vertices[s].info
    ensures NoDup(InfosOf(g, seen))
    ensures forall k :: k in InfosOf(g, seen) <==> k in Keys(g) && Reachable(g.edges, s, VertexOf(g, k))
  {
    ReachedExactly(g, s, a0, a, seen, parent);
    CardNoDup(seen);
    InfosOfKeys(g, seen);
    InfosOfAt(g, seen, 0);
  }

  // ---------------------------------------------------------------- breadth-first search

  /** Marking an unmarked vertex w found along an edge e from a vertex already seen extends
      the search by w, with e as w's tree edge. */
  lemma VisitGrow<T>(g: Net<T>, a0: map<VertexId, Aux>, a: map<VertexId, Aux>, s: VertexId,
                     seen: seq<VertexId>, parent: map<VertexId, EdgeId>, e: EdgeId)
    requires Visit(g, a0, a, s, seen, parent)
    requires e in g.edges && g.edges[e].orig in seen && g.edges[e].dest in g.vertices
    requires g.edges[e].dest in a && !a[g.edges[e].dest].visited
    ensures Visit(g, a0, a[g.edges[e].dest := a[g.edges[e].dest].(visited := true)], s,
                  seen + [g.edges[e].dest], parent[g.edges[e].dest := e])
  {
    var w := g.edges[e].dest;
    var s2, p2 := seen + [w], parent[w := e];
    assert w !in seen;
    assert Elems(s2) == Elems(seen) + {w};
    MarkTwice(a0, Elems(seen), {w});
    MarkOne(a, w);
    forall i | 0 < i < |s2|
      ensures s2[i] in p2 && p2[s2[i]] in g.edges && g.edges[p2[s2[i]]].dest == s2[i]
              && g.edges[p2[s2[i]]].orig in s2[..i]
    {
      if i < |seen| {
        assert s2[i] == seen[i] && s2[..i] == seen[..i] && seen[i] != w;
      } else {
        assert s2[..i] == seen;
      }
    }
  }

  /** Marking one more vertex keeps the edges out of finished vertices closed, with the new
      vertex counted as open. */
  lemma DoneClosedMark(edges: map<EdgeId, Edge>, a: map<VertexId, Aux>, open: set<VertexId>, w: VertexId)
    requires DoneClosed(edges, a, open) && w in a
    ensures DoneClosed(edges, a[w := a[w].(visited := true)], open + {w})
  {
  }

  /** Once every edge out of v ends at a marked vertex, v need not count as open. */
  lemma DoneClosedRelease(edges: map<EdgeId, Edge>, a: map<VertexId, Aux>, open: set<VertexId>, v: VertexId)
    requires DoneClosed(edges, a, open + {v})
    requires forall e :: e in edges && edges[e].orig == v ==> edges[e].dest in Marked(a)
    ensures DoneClosed(edges, a, open)
  {
  }

  /** When every entry of v's outgoing list ends at a vertex of m, so does every edge out of v. */
  lemma OutgoingInto<T>(g: Net<T>, v: VertexId, m: set<VertexId>)
    requires EdgesListed(g) && v in g.vertices
    requires forall i :: 0 <= i < |g.vertices[v].adj| ==>
               g.vertices[v].adj[i] in g.edges && g.edges[g.vertices[v].adj[i]].dest in m
    ensures forall e :: e in g.edges && g.edges[e].orig == v ==> g.edges[e].dest in m
  {
    forall e | e in g.edges && g.edges[e].orig == v ensures g.edges[e].dest in m {
      assert EdgeListed(g, e);
      var i :| 0 <= i < |g.vertices[v].adj| && g.vertices[v].adj[i] == e;
    }
  }

  /** The loops over an outgoing list: once entry j ends at a marked vertex, the first j + 1
      entries do, as marks are never taken back. */
  lemma MarkedPrefixNext(edges: map<EdgeId, Edge>, adj: seq<EdgeId>, j: nat, m0: set<VertexId>, m: set<VertexId>)
    requires j < |adj| && m0 <= m && forall i :: 0 <= i < |adj| ==> adj[i] in edges
    requires forall i :: 0 <= i < j ==> edges[adj[i]].dest in m0
    requires edges[adj[j]].dest in m
    ensures forall i :: 0 <= i < j + 1 ==> edges[adj[i]].dest in m
  {
    forall i | 0 <= i < j + 1 ensures edges[adj[i]].dest in m {
      if i < j {
        assert edges[adj[i]].dest in m0;
      }
    }
  }

  /** A search never sees more vertices than the graph has. */
  lemma VisitSize<T>(g: Net<T>, a0: map<VertexId, Aux>, a: map<VertexId, Aux>, s: VertexId,
                     seen: seq<VertexId>, parent: map<VertexId, EdgeId>)
    requires Visit(g, a0, a, s, seen, parent)
    ensures |seen| <= |g.vertices.Keys|
  {
    SubsetCard(Elems(seen), g.vertices.Keys);
  }

  /** Taking v off the front of the queue moves it to the end of the dequeued order: the
      sequence of seen vertices is the same, and v leaves the open set of queued vertices. */
  lemma Dequeue(order: seq<VertexId>, q: seq<VertexId>)
    requires q != []
    ensures order + q == (order + [q[0]]) + q[1..]
    ensures Elems(q) == Elems(q[1..]) + {q[0]}
  {
    assert q == [q[0]] + q[1..];
  }

  /** Enqueuing and marking an unmarked successor w of v, found along e, keeps the search
      state of `bfs`'s inner loop. */
  lemma Enqueue<T>(g: Net<T>, a0: map<VertexId, Aux>, a: map<VertexId, Aux>, s: VertexId, v: VertexId,
                   order: seq<VertexId>, q: seq<VertexId>, parent: map<VertexId, EdgeId>, e: EdgeId)
    requires Visit(g, a0, a, s, order + q, parent) && DoneClosed(g.edges, a, Elems(q) + {v})
    requires e in g.edges && g.edges[e].orig == v && v in order && g.edges[e].dest in g.vertices
    requires g.edges[e].dest in a && !a[g.edges[e].dest].visited
    ensures Visit(g, a0, a[g.edges[e].dest := a[g.edges[e].dest].(visited := true)], s,
                  order + (q + [g.edges[e].dest]), parent[g.edges[e].dest := e])
    ensures DoneClosed(g.edges, a[g.edges[e].dest := a[g.edges[e].dest].(visited := true)],
                       Elems(q + [g.edges[e].dest]) + {v})
  {
    var w := g.edges[e].dest;
    VisitGrow(g, a0, a, s, order + q, parent, e);
    DoneClosedMark(g.edges, a, Elems(q) + {v}, w);
    assert (order + q) + [w] == order + (q + [w]);
    assert Elems(q + [w]) + {v} == Elems(q) + {v} + {w};
  }
}
