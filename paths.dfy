/** Reachability and cycles over the live edges of the graph, and the facts the traversals of
    Source_Code/Graph.h rely on: a set closed under edges contains everything reachable from
    its members; an order in which every edge goes forward (Kahn's output) or backward (the
    finishing order of a depth-first search) rules out cycles; and a non-empty set in which every
    vertex has a predecessor inside the set contains a cycle (why Kahn's algorithm stalls). */
module Paths {
  import opened Seqs
  import opened Digraph

  /** Some live edge goes from u to w. */
  ghost predicate Succ(edges: map<EdgeId, Edge>, u: VertexId, w: VertexId) {
    exists e :: e in edges && edges[e].orig == u && edges[e].dest == w
  }

  /** p is a walk: consecutive vertices are joined by an edge. */
  ghost predicate IsPath(edges: map<EdgeId, Edge>, p: seq<VertexId>) {
    |p| >= 1 && forall i :: 0 <= i < |p| - 1 ==> Succ(edges, p[i], p[i + 1])
  }

  ghost predicate Reachable(edges: map<EdgeId, Edge>, s: VertexId, t: VertexId) {
    exists p :: IsPath(edges, p) && p[0] == s && p[|p| - 1] == t
  }

  /** A walk of at least one edge that returns to where it started. */
  ghost predicate HasCycle(edges: map<EdgeId, Edge>) {
    exists p :: IsPath(edges, p) && |p| >= 2 && p[0] == p[|p| - 1]
  }

  /** Every edge leaving a member of s ends in s. */
  ghost predicate Closed(edges: map<EdgeId, Edge>, s: set<VertexId>) {
    forall e :: e in edges && edges[e].orig in s ==> edges[e].dest in s
  }

  /** Every edge into order[i] comes from an earlier position: a topological order. */
  ghost predicate EdgesForward(edges: map<EdgeId, Edge>, order: seq<VertexId>) {
    forall i, e :: 0 <= i < |order| && e in edges && edges[e].dest == order[i] ==> edges[e].orig in order[..i]
  }

  /** Every edge out of fin[i] ends at an earlier position: a depth-first finishing order. */
  ghost predicate EdgesBackward(edges: map<EdgeId, Edge>, fin: seq<VertexId>) {
    forall i, e :: 0 <= i < |fin| && e in edges && edges[e].orig == fin[i] ==> edges[e].dest in fin[..i]
  }

  lemma ReachRefl(edges: map<EdgeId, Edge>, s: VertexId)
    ensures Reachable(edges, s, s)
  {
    assert IsPath(edges, [s]);
  }

  /** A walk followed by an edge is a walk. */
  lemma ReachAppend(edges: map<EdgeId, Edge>, s: VertexId, v: VertexId, w: VertexId)
    requires Reachable(edges, s, v) && Succ(edges, v, w)
    ensures Reachable(edges, s, w)
  {
    var p :| IsPath(edges, p) && p[0] == s && p[|p| - 1] == v;
    var q := p + [w];
    forall i | 0 <= i < |q| - 1 ensures Succ(edges, q[i], q[i + 1]) {
      if i < |p| - 1 { assert q[i] == p[i] && q[i + 1] == p[i + 1]; }
    }
    assert IsPath(edges, q);
  }

  /** A walk that starts inside a closed set stays inside it. */
  lemma {:induction false} ClosedAlongPath(edges: map<EdgeId, Edge>, s: set<VertexId>, p: seq<VertexId>)
    requires Closed(edges, s) && IsPath(edges, p) && p[0] in s
    ensures p[|p| - 1] in s
    decreases |p|
  {
    if |p| > 1 {
      var q := p[..|p| - 1];
      assert IsPath(edges, q) by {
        forall i | 0 <= i < |q| - 1 ensures Succ(edges, q[i], q[i + 1]) {
          assert Succ(edges, p[i], p[i + 1]);
        }
      }
      ClosedAlongPath(edges, s, q);
      assert Succ(edges, p[|p| - 2], p[|p| - 1]);
      var e :| e in edges && edges[e].orig == p[|p| - 2] && edges[e].dest == p[|p| - 1];
    }
  }

  /** A set closed under edges contains every vertex reachable from one of its members: the
      reason a search that has expanded every vertex it marked has found all reachable ones. */
  lemma ClosedContainsReachable(edges: map<EdgeId, Edge>, s: set<VertexId>, a: VertexId, b: VertexId)
    requires Closed(edges, s) && a in s && Reachable(edges, a, b)
    ensures b in s
  {
    var p :| IsPath(edges, p) && p[0] == a && p[|p| - 1] == b;
    ClosedAlongPath(edges, s, p);
  }

  /** Following a walk from fin[i] in a finishing order only ever moves to earlier positions. */
  lemma {:induction false} DescendAlongPath(edges: map<EdgeId, Edge>, fin: seq<VertexId>, p: seq<VertexId>, i: nat)
    requires EdgesBackward(edges, fin) && IsPath(edges, p) && |p| >= 2
    requires i < |fin| && p[0] == fin[i]
    ensures p[|p| - 1] in fin[..i]
    decreases |p|
  {
    assert Succ(edges, p[0], p[1]);
    var e :| e in edges && edges[e].orig == p[0] && edges[e].dest == p[1];
    assert p[1] in fin[..i];
    var j :| 0 <= j < i && fin[j] == p[1];
    if |p| > 2 {
      var q := p[1..];
      assert IsPath(edges, q) by {
        forall k | 0 <= k < |q| - 1 ensures Succ(edges, q[k], q[k + 1]) {
          assert Succ(edges, p[k + 1], p[k + 2]);
        }
      }
      DescendAlongPath(edges, fin, q, j);
      assert fin[..j] == fin[..i][..j];
    }
  }

  /** A duplicate-free finishing order of all edge origins in which every edge points backward
      leaves no room for a cycle. */
  lemma BackwardOrderAcyclic(edges: map<EdgeId, Edge>, fin: seq<VertexId>)
    requires NoDup(fin) && EdgesBackward(edges, fin)
    requires forall e :: e in edges ==> edges[e].orig in fin
    ensures !HasCycle(edges)
  {
    if HasCycle(edges) {
      var p :| IsPath(edges, p) && |p| >= 2 && p[0] == p[|p| - 1];
      assert Succ(edges, p[0], p[1]);
      var e :| e in edges && edges[e].orig == p[0] && edges[e].dest == p[1];
      var i :| 0 <= i < |fin| && fin[i] == p[0];
      DescendAlongPath(edges, fin, p, i);
      assert false;
    }
  }

  /** Walking back along a walk that ends at order[i] in a topological order only ever moves to
      earlier positions. */
  lemma {:induction false} AscendAlongPath(edges: map<EdgeId, Edge>, order: seq<VertexId>, p: seq<VertexId>, i: nat)
    requires EdgesForward(edges, order) && IsPath(edges, p) && |p| >= 2
    requires i < |order| && p[|p| - 1] == order[i]
    ensures p[0] in order[..i]
    decreases |p|
  {
    var n := |p| - 1;
    assert Succ(edges, p[n - 1], p[n]);
    var e :| e in edges && edges[e].orig == p[n - 1] && edges[e].dest == p[n];
    assert p[n - 1] in order[..i];
    var j :| 0 <= j < i && order[j] == p[n - 1];
    if |p| > 2 {
      var q := p[..n];
      assert IsPath(edges, q) by {
        forall k | 0 <= k < |q| - 1 ensures Succ(edges, q[k], q[k + 1]) {
          assert Succ(edges, p[k], p[k + 1]);
        }
      }
      AscendAlongPath(edges, order, q, j);
      assert order[..j] == order[..i][..j];
    }
  }

  /** A duplicate-free topological order of all edge destinations leaves no room for a cycle. */
  lemma ForwardOrderAcyclic(edges: map<EdgeId, Edge>, order: seq<VertexId>)
    requires NoDup(order) && EdgesForward(edges, order)
    requires forall e :: e in edges ==> edges[e].dest in order
    ensures !HasCycle(edges)
  {
    if HasCycle(edges) {
      var p :| IsPath(edges, p) && |p| >= 2 && p[0] == p[|p| - 1];
      var n := |p| - 1;
      assert Succ(edges, p[n - 1], p[n]);
      var e :| e in edges && edges[e].orig == p[n - 1] && edges[e].dest == p[n];
      var i :| 0 <= i < |order| && order[i] == p[n];
      AscendAlongPath(edges, order, p, i);
      assert false;
    }
  }

  /** Some edge into w starts inside u. */
  ghost predicate HasPredIn(edges: map<EdgeId, Edge>, u: set<VertexId>, w: VertexId) {
    exists e :: e in edges && edges[e].dest == w && edges[e].orig in u
  }

  /** A walk of n + 1 vertices inside u, built backwards from predecessors. */
  lemma {:induction false} WalkBack(edges: map<EdgeId, Edge>, u: set<VertexId>, n: nat) returns (p: seq<VertexId>)
    requires u != {}
    requires forall w :: w in u ==> HasPredIn(edges, u, w)
    ensures |p| == n + 1 && IsPath(edges, p)
    ensures forall x :: x in p ==> x in u
    decreases n
  {
    if n == 0 {
      var w :| w in u;
      p := [w];
    } else {
      var q := WalkBack(edges, u, n - 1);
      assert HasPredIn(edges, u, q[0]);
      var e :| e in edges && edges[e].dest == q[0] && edges[e].orig in u;
      p := [edges[e].orig] + q;
      PathCons(edges, edges[e].orig, q);
    }
  }

  /** A walk extended at its front by a predecessor of its first vertex is a walk. */
  lemma PathCons(edges: map<EdgeId, Edge>, v: VertexId, q: seq<VertexId>)
    requires IsPath(edges, q) && Succ(edges, v, q[0])
    ensures IsPath(edges, [v] + q)
  {
    var p := [v] + q;
    forall i | 0 <= i < |p| - 1 ensures Succ(edges, p[i], p[i + 1]) {
      if i > 0 {
        assert p[i] == q[i - 1] && p[i + 1] == q[i];
      }
    }
  }

  /** If every vertex of a non-empty set has a predecessor inside the set, the graph has a
      cycle: a long enough walk backwards must repeat a vertex. */
  lemma PredecessorsInsideMeansCycle(edges: map<EdgeId, Edge>, u: set<VertexId>)
    requires u != {}
    requires forall w :: w in u ==> HasPredIn(edges, u, w)
    ensures HasCycle(edges)
  {
    var p := WalkBack(edges, u, |u|);
    if NoDup(p) {
      Pigeonhole(p, u);
      assert false;
    }
    RepeatMeansCycle(edges, p);
  }

  /** A walk that visits some vertex twice contains a cycle. */
  lemma RepeatMeansCycle(edges: map<EdgeId, Edge>, p: seq<VertexId>)
    requires IsPath(edges, p) && !NoDup(p)
    ensures HasCycle(edges)
  {
    var i, j :| 0 <= i < j < |p| && p[i] == p[j];
    var c := p[i..j + 1];
    assert IsPath(edges, c) by {
      forall k | 0 <= k < |c| - 1 ensures Succ(edges, c[k], c[k + 1]) {
        assert Succ(edges, p[i + k], p[i + k + 1]);
      }
    }
    assert c[0] == p[i] && c[|c| - 1] == p[j];
  }

  /** A walk followed by an edge back to one of its own vertices closes a cycle: what
      `dfsIsDAG` detects when it meets a vertex still being processed. */
  lemma BackEdgeCycle(edges: map<EdgeId, Edge>, p: seq<VertexId>, i: nat)
    requires IsPath(edges, p) && i < |p| && Succ(edges, p[|p| - 1], p[i])
    ensures HasCycle(edges)
  {
    var c := p[i..] + [p[i]];
    forall k | 0 <= k < |c| - 1 ensures Succ(edges, c[k], c[k + 1]) {
      if k < |c| - 2 {
        assert c[k] == p[i + k] && c[k + 1] == p[i + k + 1];
      } else {
        assert c[k] == p[|p| - 1] && c[k + 1] == p[i];
      }
    }
    assert IsPath(edges, c) && |c| >= 2 && c[0] == c[|c| - 1];
  }

  /** A walk extended by one more edge is a walk. */
  lemma PathSnoc(edges: map<EdgeId, Edge>, p: seq<VertexId>, w: VertexId)
    requires IsPath(edges, p) && Succ(edges, p[|p| - 1], w)
    ensures IsPath(edges, p + [w])
  {
    var q := p + [w];
    forall i | 0 <= i < |q| - 1 ensures Succ(edges, q[i], q[i + 1]) {
      if i < |p| - 1 { assert q[i] == p[i] && q[i + 1] == p[i + 1]; }
    }
  }

  /** A vertex whose every incoming edge comes from the order extends a topological order. */
  lemma ForwardSnoc(edges: map<EdgeId, Edge>, order: seq<VertexId>, v: VertexId)
    requires EdgesForward(edges, order)
    requires forall e :: e in edges && edges[e].dest == v ==> edges[e].orig in order
    ensures EdgesForward(edges, order + [v])
  {
    var o := order + [v];
    forall i, e | 0 <= i < |o| && e in edges && edges[e].dest == o[i] ensures edges[e].orig in o[..i] {
      if i < |order| {
        assert o[..i] == order[..i];
      } else {
        assert o[..i] == order;
      }
    }
  }
}
