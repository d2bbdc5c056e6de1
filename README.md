# Generic directed multigraph of the water-supply network

This project models the graph engine of the water-supply management tool, the class template
`Graph<T>` with its `Vertex<T>` and `Edge<T>` classes, and the `VertexType` enumeration that
tags each site. It proves what each operation does to the graph, and what the traversals
(`dfs`, `dfs(source)`, `bfs`), the cycle test (`isDAG`) and Kahn's topological sort return.

## How the model is built

- **Pointers become ids.** A vertex is a `VertexId` and an edge an `EdgeId` (natural numbers)
  into two arenas owned by the graph.
  - `vertices` maps each live vertex to its key (`info`), its `VertexType`, its outgoing list
    `adj` and its incoming list `incoming`.
  - `edges` maps each live edge to its origin, destination, weight, flow, `selected` flag and
    optional `reverse` partner.
  - `new` draws the next unused id from a counter (`nextVertex`, `nextEdge`). `delete` removes
    the id from its arena.
- **The graph is a class with those fields**, as in the source:
  - `vertexSet`, the vertex vector, is a `seq<VertexId>` in the vector's order;
  - the auxiliary per-vertex fields the algorithms mutate (`visited`, `processing`, `indegree`,
    `dist`, `path`) are an `aux` map;
  - each method states its new state through `Structure()`, a value of type `Net` holding the
    vector and both arenas.
- **Well-formedness (`Digraph.WellFormed`)** is kept through `Valid()` by every method that
  models an operation of the source (loop-body helpers carry narrower invariants):
  - the vector lists each live vertex once, and no two vertices share a key;
  - every entry of an `adj` or `incoming` list is a live edge leaving, or entering, that vertex,
    with its other endpoint live;
  - every live edge is listed in its origin's `adj` and its destination's `incoming`.
- **Net functions state what a mutation does.** `AddVertexNet`, `AddEdgeNet`,
  `AddBidirectionalNet`, `RemoveEdgeNet`, `RemoveOutgoingNet` and `RemoveVertexNet` each give
  the whole graph after the operation. Each comes with a lemma that it keeps well-formedness and
  states the new key set: unchanged for the edge operations, one key more for `AddVertexNet`,
  one key fewer for `RemoveVertexNet`.
  - `DeleteEdgeNet` gives the graph after `Vertex::deleteEdge`. It does not keep the graph
    well-formed on its own: the deleted edge is still in its origin's `adj`. With parallel edges,
    the purge also drops live incoming entries from the same origin.
  - `EraseAndDelete` is the pair the source always runs: erase the entry from `adj`, then call
    `deleteEdge`. `RemovalSteps.EraseAndDeleteSound` proves that the pair keeps the vertex
    vector, the keys, the registry and the soundness of every list. It does not prove that every
    live edge stays listed.
  - The loops that erase list entries one by one are proved equal to the closed-form functions
    through step lemmas in `RemovalSteps`. Those step lemmas, together with the `*Keeps` lemmas,
    restore full well-formedness after each complete removal.
- **Traversals are proved against independent definitions.** Reachability (`Paths.Reachable`)
  and cycles (`Paths.HasCycle`) are defined over walks in the edge arena.
  - The depth-first and breadth-first searches keep a visit tree: each newly marked vertex hangs
    from an earlier one by an edge. They also keep the edges out of finished vertices inside
    the marked set (`Search.DoneClosed`). Together these give "marked exactly the reachable
    vertices".
  - `isDAG` keeps the stack of vertices being processed as a walk (`Cycles.DagState`).
  - Kahn's algorithm keeps every stored in-degree equal to the number of not-yet-removed edges
    into that vertex (`Kahn.KahnState`).
- **Values returned by the source** keep the source's meaning:
  - `findVertex` returns an `Option<VertexId>`;
  - `findVertexIdx` returns an index or -1;
  - the traversals return `seq<T>` of keys.

`VertexType` has the six values of `Source_Code/VertexType.h` (`RESERVOIR`, `STATIONS`,
`CITIES`, `PIPE`, `SUPERSINK`, `SUPERSOURCE`).

The graph does not keep `indegree` up to date when edges are removed. `Vertex::removeEdge`,
`removeOutgoingEdges` and `Graph::removeVertex` leave it as it was, and only `addEdge` and
`topsort` write it. The removal contracts state this: `aux` is unchanged.

## Model

Methods of `GraphEngine.Graph` that carry one loop body, or one step of a sequence of calls,
of a listed operation have no row of their own: `AddEdgePair`, `DropVertexAt`,
`DetachIncoming`, `DetachFrom`, `VisitEdges`, `VisitSuccessor`, `VisitRoot`, `BfsExpand`,
`BfsEdge`, `ClearFlags`, `DagRoots`, `DagRoot`, `DagEdges`, `DagSuccessor`, `CountFrom`, `CountAdj`,
`CountEdge`, `ZeroScan`, `KahnExpand`, `KahnAdj` and `KahnEdge`. Each is a helper of the row
that calls it.

| member | source | states |
|---|---|---|
| GraphEngine.Graph.constructor | Source_Code/Graph.h:134-138 | A new graph has an empty vertex vector, no vertices and no edges, and is well-formed. |
| GraphEngine.Graph.FindVertex | Source_Code/Graph.h:552-557 | Some vertex is returned exactly when the key is in the graph. That vertex holds the key, and it is the only one that does. |
| GraphEngine.Graph.FindVertexIdx | Source_Code/Graph.h:566-571 | The result is -1 exactly when the key is absent. Otherwise it is the position in the vertex vector of the vertex holding the key. |
| GraphEngine.Graph.NumVertex | Source_Code/Graph.h:530-532 | The size of the vertex vector, which equals the number of distinct keys. |
| Digraph.KeysCount | Source_Code/Graph.h:530-532 | Because keys identify vertices, the graph has as many keys as entries in its vertex vector. |
| Digraph.KeyIdentifies | Source_Code/Graph.h:581-586 | Two live vertices with the same key are the same vertex (what the duplicate check of `addVertex` guarantees). |
| GraphEngine.Graph.AddVertex | Source_Code/Graph.h:581-586 | Returns true iff the key was absent. On success, one new vertex with that key and type is appended, with no edges and fresh auxiliary fields. On failure nothing changes. Either way the key set becomes the old one plus the key. |
| Digraph.AddVertexKeeps | Source_Code/Graph.h:581-586 | Appending a vertex with a new key keeps the graph well-formed and adds exactly that key. |
| GraphEngine.Graph.VertexAddEdge | Source_Code/Graph.h:165-171 | `Vertex::addEdge`: a fresh edge id. The edge is appended to the origin's `adj` and to the destination's `incoming`, with weight w, flow 0, not selected and no reverse. The destination's `indegree` grows by one. Nothing else changes. |
| Digraph.AddEdgeKeeps | Source_Code/Graph.h:165-171 | Adding an edge between live vertices keeps the graph well-formed and its keys unchanged. |
| Digraph.IncomingMirrorsAdj | Source_Code/Graph.h:165-171 | In a well-formed graph, an edge is in v's incoming list iff some vertex lists it in its `adj` and it ends at v. |
| GraphEngine.Graph.AddEdge | Source_Code/Graph.h:622-629 | Returns true iff both keys are present. Then exactly one edge from the source key's vertex to the destination key's vertex is added. The destination's `indegree` grows by one, and every other auxiliary field is unchanged. Otherwise nothing changes. |
| GraphEngine.Graph.AddBidirectionalEdge | Source_Code/Graph.h:658-668 | Returns true iff both keys are present. Then two edges are added, one each way, each the other's `reverse`, and both endpoints' in-degrees grow by one. Otherwise nothing changes. |
| GraphEngine.Graph.LinkPair | Source_Code/Graph.h:663-666 | The two `addEdge` calls followed by the two `setReverse` calls give the bidirectional pair, and both endpoints' in-degrees grow by one. |
| Digraph.AddBidirectionalKeeps | Source_Code/Graph.h:658-668 | The bidirectional pair keeps the graph well-formed and its keys unchanged. |
| GraphEngine.Graph.LinkReverses | Source_Code/Graph.h:665-666 | Each of the two edges gets the other as its `reverse`. Nothing else changes. |
| Digraph.LinkReverseKeeps | Source_Code/Graph.h:495-497 | Setting `reverse` fields keeps the graph well-formed. |
| GraphEngine.Graph.DeleteEdge | Source_Code/Graph.h:392-405 | `Vertex::deleteEdge(x)` on v removes from the destination's incoming list every entry whose origin has v's key, keeping the others in order. Edge x is freed. |
| GraphEngine.Graph.PurgeIncoming | Source_Code/Graph.h:395-403 | The erase loop over an incoming list leaves exactly the entries whose origin does not have the given key, in their order. |
| Seqs.WithoutWithout | Source_Code/Graph.h:395-403 | Purging in two rounds is purging by both criteria at once. |
| Seqs.WithoutAt | Source_Code/Graph.h:189 | Erasing position i of a duplicate-free list is filtering out the element at that position. |
| GraphEngine.Graph.EraseAndDeleteAt | Source_Code/Graph.h:189-190 | `it = adj.erase(it); deleteEdge(edge)` at position j: the entry leaves u's list, which gets one shorter. Its destination's incoming list is purged, and the edge is freed. |
| GraphEngine.Graph.VertexRemoveEdge | Source_Code/Graph.h:182-198 | `Vertex::removeEdge(k)` on u: every outgoing edge of u whose destination has key k is erased from `adj`, purged from `incoming` and freed. The other entries keep their order. The result is true iff at least one such edge existed. The graph stays well-formed. |
| Digraph.RemoveEdgeKeeps | Source_Code/Graph.h:182-198 | Removing u's edges towards key k keeps the graph well-formed and its keys. Exactly the edges that went from u to key k are gone. |
| RemovalSteps.RemoveEdgeStep | Source_Code/Graph.h:186-192 | Erasing a matching entry at position j leaves the outcome of the whole loop unchanged. The edges still to remove lose exactly that one, and all of them still lie at position j or later. |
| RemovalSteps.RemoveEdgeSkip | Source_Code/Graph.h:193-195 | Stepping past a non-matching entry keeps every edge still to remove at a later position. |
| RemovalSteps.RemoveEdgeNothing | Source_Code/Graph.h:185 | When u has no edge towards key k, `removeEdge(k)` changes nothing. |
| GraphEngine.Graph.RemoveOutgoingEdges | Source_Code/Graph.h:206-213 | Every outgoing edge of v is erased, purged from its destination's incoming list and freed. The graph stays well-formed. |
| Digraph.RemoveOutgoingKeeps | Source_Code/Graph.h:206-213 | Removing every edge out of v keeps the graph well-formed and its keys. The remaining edges are exactly those not leaving v. |
| RemovalSteps.RemoveOutgoingStep | Source_Code/Graph.h:207-212 | Erasing and deleting the first entry leaves the outcome of the loop unchanged, and the rest of the list becomes v's `adj`. |
| RemovalSteps.RemoveOutgoingNothing | Source_Code/Graph.h:208 | With an empty `adj`, the loop changes nothing. |
| GraphEngine.Graph.RemoveEdge | Source_Code/Graph.h:640-646 | Returns true iff the source key is present and its vertex has an edge towards the destination key. When the source is present, all such edges are removed. When it is absent, nothing changes. In-degrees are untouched. |
| GraphEngine.Graph.RemoveVertex | Source_Code/Graph.h:596-610 | Returns true iff the key is present. Then its vertex leaves the vector and the arena, with every edge that touched it, and the key set loses exactly that key. Otherwise nothing changes. |
| Digraph.RemoveVertexKeeps | Source_Code/Graph.h:596-610 | Removing a vertex and its edges keeps the graph well-formed and drops exactly its key. The remaining edges are those not touching it. |
| GraphEngine.Graph.DetachVertex | Source_Code/Graph.h:600-603 | After `removeOutgoingEdges` and every vertex's `removeEdge(v's key)`, no edge touches v, and erasing v gives the same graph as removing it at the start. |
| RemovalSteps.RemoveVertexAfterOutgoing | Source_Code/Graph.h:600 | Removing v after its outgoing edges are gone is removing v. |
| RemovalSteps.RemoveVertexAfterRemoveEdge | Source_Code/Graph.h:601-603 | Removing v after some vertex dropped its edges towards v's key is removing v. |
| RemovalSteps.DetachedAll | Source_Code/Graph.h:601-603 | Once every vertex has dropped its edges towards v's key, and v has none of its own, no edge touches v. |
| GraphEngine.Graph.EraseVertex | Source_Code/Graph.h:599-605 | Once the vertex v is found at position p: v's outgoing edges are removed, every vertex removes its edges towards v's key, and v is erased from the vector and freed. The result is the graph without v and without any edge touching v, and v's auxiliary fields are dropped. |
| GraphEngine.Graph.ClearVisited | Source_Code/Graph.h:680-681 | Every vertex's `visited` flag becomes false and nothing else changes. |
| GraphEngine.Graph.DfsVisit | Source_Code/Graph.h:719-728 | The vertices newly marked form a visit tree from v: v first, each later one reached by an edge from an earlier one. Their keys are appended to the result in visiting order. The marked set stays closed under the edges of finished vertices. |
| Search.TreeReach | Source_Code/Graph.h:719-728 | Every vertex of a visit tree is reachable from its first vertex. |
| Search.ReachedExactly | Source_Code/Graph.h:694-709 | A finished search from s, started with nothing marked, has marked exactly the vertices reachable from s. |
| GraphEngine.Graph.Dfs | Source_Code/Graph.h:678-686 | The result holds every key of the graph exactly once, and every vertex ends visited. The structure of the graph is unchanged. |
| Search.DfsCovers | Source_Code/Graph.h:682-684 | When every vertex of the vector is marked by duplicate-free visits, their keys are each key of the graph exactly once. |
| GraphEngine.Graph.DfsFrom | Source_Code/Graph.h:694-709 | An absent source gives the empty result and changes nothing. Otherwise the result starts with the source, has no duplicates, and holds exactly the keys of the vertices reachable from the source. Only the `visited` flags change, and exactly the reachable vertices end visited. |
| Search.DfsFromCovers | Source_Code/Graph.h:694-709 | The keys of a finished search from s start with s's key, are duplicate-free, and are exactly the keys of the vertices reachable from s. |
| GraphEngine.Graph.Bfs | Source_Code/Graph.h:739-769 | An absent source gives the empty result and changes nothing. Otherwise the result starts with the source, has no duplicates, and holds exactly the keys of the vertices reachable from the source. Only the `visited` flags change, and exactly the reachable vertices end visited. |
| Search.SearchMarks | Source_Code/Graph.h:739-769 | After a finished search from s over cleared flags, each vertex's auxiliary fields are the ones from before the clearing, with `visited` set exactly when the vertex is reachable from s. |
| GraphEngine.Graph.BfsLoop | Source_Code/Graph.h:756-767 | Draining the queue completes the visit tree from the source. The marked vertices end closed under edges, and the result is their keys in dequeue order. |
| Search.Enqueue | Source_Code/Graph.h:762-765 | Marking and enqueuing an unvisited successor extends the visit tree, and keeps the marked set closed over the finished vertices. |
| GraphEngine.Graph.IsDag | Source_Code/Graph.h:782-793 | Returns true exactly when the graph has no cycle. The structure is unchanged, and in every vertex's auxiliary fields only `visited` and `processing` may change. |
| GraphEngine.Graph.DfsIsDag | Source_Code/Graph.h:802-814 | A false result means the graph has a cycle. A true result means v is finished, no flags of earlier vertices were lost, and every edge out of a finished vertex ends at a vertex that finished before it. |
| Cycles.DagEnter | Source_Code/Graph.h:803-804 | Marking v visited and processing pushes it on the walk of processing vertices. |
| Cycles.DagBackEdge | Source_Code/Graph.h:806-807 | An edge from the top of the walk to a processing vertex closes a cycle. |
| Cycles.DagLeave | Source_Code/Graph.h:812 | Once all of v's successors are finished, clearing its processing flag finishes it. |
| Cycles.DagDone | Source_Code/Graph.h:787-792 | When every vertex is visited and none is processing, the graph has no cycle. |
| Paths.BackwardOrderAcyclic | Source_Code/Graph.h:787-792 | A duplicate-free finishing order in which every edge points to an earlier vertex rules out cycles. |
| GraphEngine.Graph.Topsort | Source_Code/Graph.h:828-868 | With a cycle, the result is empty. Without one, the result holds every key exactly once, in an order where every edge goes from an earlier to a later vertex. Only the `indegree` fields change. |
| GraphEngine.Graph.ResetIndegrees | Source_Code/Graph.h:831-833 | Every vertex's `indegree` becomes 0 and nothing else changes. |
| GraphEngine.Graph.CountIndegrees | Source_Code/Graph.h:834-839 | Each vertex's `indegree` becomes the number of edges into it. |
| GraphEngine.Graph.ZeroQueue | Source_Code/Graph.h:841-846 | The queue holds each vertex of in-degree zero exactly once, and no other vertex. |
| Kahn.KahnStart | Source_Code/Graph.h:841-846 | After counting and queueing, nothing is dequeued, every edge is still counted, and the queue holds exactly the sources. |
| Kahn.KahnPop | Source_Code/Graph.h:849-851 | Dequeuing the front vertex keeps the invariant, with its outgoing edges still to remove. |
| Kahn.KahnPositive | Source_Code/Graph.h:854 | The in-degree about to be decremented is at least 1, so the unsigned subtraction never wraps. |
| Kahn.KahnDrop | Source_Code/Graph.h:852-857 | Decrementing the destination's in-degree, and enqueuing it when it reaches 0, removes that edge from the count and keeps the invariant. |
| Kahn.InDegRemove | Source_Code/Graph.h:854 | Dropping an edge lowers its destination's count of remaining in-edges by one, and no other vertex's count. |
| Kahn.KahnEnd | Source_Code/Graph.h:861-867 | When the queue is empty, the order is duplicate-free with every edge going forward. It holds every vertex exactly when the graph has no cycle. |
| Paths.ForwardOrderAcyclic | Source_Code/Graph.h:861-867 | A duplicate-free order holding every edge's destination, with every edge going forward, rules out cycles. |
| Paths.PredecessorsInsideMeansCycle | Source_Code/Graph.h:861-865 | If every vertex of a non-empty set has a predecessor inside that set, the graph has a cycle. This is why vertices left over by Kahn's algorithm mean a cycle. |
| GraphEngine.Graph.KahnLoop | Source_Code/Graph.h:848-859 | Draining the queue keeps Kahn's invariant until the queue is empty. The result is the keys of the dequeued vertices in order, and the edges still counted are exactly those leaving vertices never dequeued. |
| GraphEngine.Graph.SetReverse | Source_Code/Graph.h:495-497 | Only the edge's `reverse` field changes. The graph stays well-formed and keeps its keys. |
| GraphEngine.Graph.SetFlow | Source_Code/Graph.h:506-508 | Only the edge's `flow` field changes, and the graph stays well-formed. |
| GraphEngine.Graph.SetWeight | Source_Code/Graph.h:517-519 | Only the edge's `weight` field changes, and the graph stays well-formed. |
| GraphEngine.Graph.SetSelected | Source_Code/Graph.h:484-486 | Only the edge's `selected` field changes, and the graph stays well-formed. |
| GraphEngine.Graph.SetAux | Source_Code/Graph.h:337-383 | `setVisited`, `setProcesssing`, `setIndegree`, `setDist` and `setPath` replace the vertex's auxiliary fields, and the structure is unchanged. |

## Left out

- `Vertex::setInfo` (Source_Code/Graph.h:326-328) is not modelled. It can give two vertices the same key, which every lookup by key relies on never happening.
- Getters are not modelled as members. The model reads the corresponding fields directly: `getInfo`, `getType`, `getAdj`, `isVisited`, `isProcessing`, `getIndegree`, `getDist`, `getPath`, `getIncoming`, the `Edge` getters and `getVertexSet`.
- `Vertex::operator<` and `queueIndex` are not modelled: they serve a priority queue that is not part of this model.
- `distMatrix`, `pathMatrix`, `deleteMatrix` and `~Graph` are not modelled: they hold the Floyd–Warshall matrices and release memory.
- `delete` is modelled as removal of the id from its arena. After `removeEdge` frees one edge of a bidirectional pair, the partner's `reverse` keeps the stale id, as the source keeps a dangling pointer.
- Fields the source's constructors leave uninitialised start at fixed values: `indegree` at 0 and `flow` at 0.0.
- `double` values are modelled as `real`, without rounding.
- `unsigned int` in-degrees are modelled as `nat`. Increments past 2^32 - 1 are not wrapped. `Kahn.KahnPositive` proves that the decrement in `topsort` never goes below zero.
- The `int` results of `getNumVertex` and `findVertexIdx` are unbounded integers: vectors longer than 2^31 - 1 are not modelled.
- `dfs(source)`, `bfs` and `topsort` collect their result in a `std::vector<int>`, which compiles only when T is `int`. The model returns a sequence of keys of any type.
- `Vertex::deleteEdge` erases in place while it scans the incoming list. The model computes the purged list and then writes it back. The final state is the same, and nothing reads the list in between.
- GraphEngine.Graph.Dfs: states which keys the result holds, not that their order is a depth-first preorder.
- GraphEngine.Graph.DfsFrom: states which keys the result holds and that the source comes first, not the depth-first order of the rest.
- GraphEngine.Graph.Bfs: states which keys the result holds and that the source comes first, not that the order is by distance from the source.
- GraphEngine.Graph.IsDag: states the result and that only the `visited` and `processing` flags change, not the final values of those flags; after a false result, the vertices on the current path stay processing in the source.
- GraphEngine.Graph.Topsort: states that only `indegree` fields change, not their final values.
- GraphEngine.Graph.ZeroQueue: states which vertices the initial queue holds, each once, not that they follow the order of the vertex vector.
- The rest of the repository is not part of this model: max flow, flow balancing, reliability analysis, data loading and the menu.
