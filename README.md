# Weighted directed graph ADT (MinPrioGraph `graph.h`)

This project models the weighted directed graph abstract data type declared in
`MinPrioGraph/graph.h`. A graph has a fixed number of vertices `0 .. n-1` and
non-negative edge weights. It has at most one edge per ordered pair of vertices,
and it is stored in one of two representations chosen when it is made:

- **MATRIX**: a flat `numVerts * numVerts` array `adjM`. The cell for `s -> t`
  holds the edge's weight, or INFINITY when there is no edge.
- **LIST**: an array `aList` of `numVerts` singly linked lists of `eNode`
  records (`wt`, `target`, `next`). Each list begins with a dummy node.

The model has three modules:

- `GraphSpec` gives the abstract view: an edge map from `(source, target)` to
  weight. It defines the `float` values the interface returns (a real or
  INFINITY) and the two sentinels of `edge`: INFINITY for "no edge" and -1.0
  for "out of range". It defines the -1 terminator of `successors` and
  `predecessors`, and the outcome of `addEdge` and `delEdge` as functions on
  the edge map. Its lemmas state how the operations look through `edge`.
- `AdjList` gives the contents of one adjacency list as a sequence of
  `(target, weight)` arcs. It defines the search that `edge`, `addEdge` and
  `delEdge` do along a list, and the coupling between the lists and the edge
  map.
- `WeightedGraph` is the data structure itself. `ENode` is a class with
  mutable `wt`, `target` and `next` fields. `Graph` is a class with the
  `repType` tag, `numVerts`, the matrix array and the array of list heads.
  Its methods change these in place:
  - `addEdge` overwrites a matrix cell or links a new node behind a dummy head;
  - `delEdge` overwrites a matrix cell or unlinks a node;
  - `cloneGraph` fills a fresh graph row by row.

  `Valid()` ties both representations to the same ghost edge map `Edges`.
  Every public method is specified against that map.

## Model

| member | source | states |
|---|---|---|
| WeightedGraph.Graph.Valid | MinPrioGraph/graph.h:32-41 | the representation invariant: at least one vertex; every edge joins two vertices and has a non-negative weight; for MATRIX, `MatrixValid`; for LIST, `ListValid`; both tie the storage to the one edge map `Edges` |
| WeightedGraph.Graph.MatrixValid | MinPrioGraph/graph.h:37-40 | `adjM` has numVerts*numVerts cells, and the cell of each pair (s, t) holds the weight of s -> t, or INFINITY when there is no such edge |
| WeightedGraph.Graph.ListValid | MinPrioGraph/graph.h:35-41 | `aList` has numVerts entries; entry v is v's dummy node, followed by a null-terminated chain of nodes belonging to v's list only; the chains hold exactly the edges (`Coupled`) |
| AdjList.Coupled | MinPrioGraph/graph.h:35-41 | there is one list per vertex, each list's targets are distinct vertices, and searching list s for t gives the weight of s -> t, or INFINITY when there is none |
| WeightedGraph.Graph.constructor | MinPrioGraph/graph.h:47-51 | makeGraph(n, rep), for n >= 1, gives a valid graph with n vertices, representation rep and no edges, in fresh storage |
| GraphSpec.EmptyGraph | MinPrioGraph/graph.h:47-51 | on a new graph, `edge` answers INFINITY for every in-range pair and -1.0 for any other pair |
| WeightedGraph.NewMatrix | MinPrioGraph/graph.h:40 | a fresh matrix of n*n cells, every cell INFINITY |
| WeightedGraph.NewLists | MinPrioGraph/graph.h:35-41 | a fresh array of n lists made of fresh nodes; list v is a dummy node for v with no successor, so the list invariant holds with no edges |
| WeightedGraph.Graph.NumVerts | MinPrioGraph/graph.h:64-65 | the answer r is at least 1, and `edge` answers -1.0 for (s, t) exactly when s or t lies outside 0 .. r-1 |
| GraphSpec.BoundDetermined | MinPrioGraph/graph.h:64-65 | a bound that makes `edge` answer -1.0 for exactly the same pairs as the vertex count is the vertex count, so `numVerts` answers n |
| WeightedGraph.Graph.Edge | MinPrioGraph/graph.h:80-84 | edge(G, s, t) gives -1.0 when s or t is out of range; otherwise it gives the weight of s -> t, or INFINITY when there is none; the answer is the same for both representations |
| WeightedGraph.Graph.LookupList | MinPrioGraph/graph.h:24-41 | walking s's list from the node after the dummy gives the weight of the first node with target t, or INFINITY at the end of the list |
| GraphSpec.SentinelsDistinct | MinPrioGraph/graph.h:80-84 | INFINITY and -1.0 differ; -1.0 comes back exactly when an endpoint is out of range; INFINITY comes back exactly for an in-range pair without an edge; a real edge gives its own non-negative weight |
| WeightedGraph.Graph.AddEdge | MinPrioGraph/graph.h:67-72 | adds the edge and answers OK exactly when both ends are vertices and there was no s -> t edge; otherwise it answers ERROR and leaves the edge map unchanged; the graph stays valid |
| GraphSpec.AddEdgeObserved | MinPrioGraph/graph.h:67-72 | OK exactly when both ends are in range and `edge` answered INFINITY before; after OK `edge` answers w; every other pair answers as before; the graph stays well formed |
| GraphSpec.AddEdgeKeepsFirst | MinPrioGraph/graph.h:67-72 | a second addEdge on the same pair answers ERROR and the first weight stays |
| WeightedGraph.Graph.MatrixSet | MinPrioGraph/graph.h:40 | writing one matrix cell sets the cell of (s, t) and leaves every other pair's cell as it was |
| WeightedGraph.Graph.ListInsert | MinPrioGraph/graph.h:24-41 | linking a new node for s -> t behind s's dummy head adds exactly that edge, allocates only fresh objects and keeps the lists valid |
| WeightedGraph.Graph.InsertKeepsValid | MinPrioGraph/graph.h:35-41 | after the new node is linked behind the dummy head, every list still starts with its dummy, is null-terminated and holds exactly the new edge map |
| WeightedGraph.Graph.DelEdge | MinPrioGraph/graph.h:74-78 | removes the edge and answers OK exactly when there was an s -> t edge; otherwise it answers ERROR and leaves the edge map unchanged; the graph stays valid |
| GraphSpec.DelEdgeObserved | MinPrioGraph/graph.h:74-78 | OK exactly when `edge` answered a real weight before; after OK `edge` answers INFINITY; every other pair answers as before; the graph stays well formed |
| GraphSpec.DelEdgeTwice | MinPrioGraph/graph.h:74-78 | after a successful delEdge, deleting the same edge again answers ERROR |
| WeightedGraph.Graph.UnlinkKeepsList | MinPrioGraph/graph.h:24-41 | after the unlink, the list still starts with its dummy, is null-terminated and holds its arcs without the removed one |
| WeightedGraph.Graph.ListRemove | MinPrioGraph/graph.h:74-78 | walking s's list with a trailing pointer and unlinking the node for t has the outcome delEdge promises, and allocates nothing |
| WeightedGraph.Graph.RemoveKeepsValid | MinPrioGraph/graph.h:35-41 | after a node is unlinked by pointing its predecessor (the dummy head or an earlier node) past it, every list still starts with its dummy and holds exactly the edge map without that edge |
| WeightedGraph.Graph.Successors | MinPrioGraph/graph.h:86-91 | a fresh array: the targets of s's edges, each once, then -1, and no -1 before it; its length is the out-degree plus one |
| WeightedGraph.Graph.Predecessors | MinPrioGraph/graph.h:93-98 | a fresh array: the sources of the edges into t, each once, then -1, and no -1 before it; its length is the in-degree plus one |
| WeightedGraph.Terminated | MinPrioGraph/graph.h:86-98 | a fresh array holding the listed vertices followed by the -1 terminator |
| GraphSpec.SuccPredConsistent | MinPrioGraph/graph.h:86-98 | v is a successor of u exactly when u is a predecessor of v, and exactly when `edge(G, u, v)` is a real weight |
| GraphSpec.TerminatedEnumerates | MinPrioGraph/graph.h:86-98 | a repeat-free list of vertex numbers, followed by -1, enumerates its set, and the count before the terminator is the set's size |
| GraphSpec.ListedSetSize | MinPrioGraph/graph.h:86-98 | a repeat-free list of exactly the members of a set has as many entries as the set |
| WeightedGraph.CloneGraph | MinPrioGraph/graph.h:53-56 | cloneGraph(G, rep) gives a new valid graph with representation rep, the same vertex count and exactly the same edges and weights; its storage is fresh, so G is untouched |
| WeightedGraph.CopyRow | MinPrioGraph/graph.h:7-8 | copying row s of G (its matrix row or its list) into the clone adds every edge leaving s, and only edges of G with G's weights |
| WeightedGraph.CopyMatrixRow | MinPrioGraph/graph.h:40 | the same for a matrix-backed G, reading the row's cells |
| WeightedGraph.CopyListRow | MinPrioGraph/graph.h:41 | the same for a list-backed G, walking the list behind the dummy head |
| WeightedGraph.IdxDistinct | MinPrioGraph/graph.h:40 | distinct vertex pairs have distinct cells in the flat matrix |
| WeightedGraph.Idx | MinPrioGraph/graph.h:40 | the cell of an in-range pair lies inside the n*n matrix |
| WeightedGraph.SegCons | MinPrioGraph/graph.h:24-29 | a node whose `next` points at the start of a segment extends that segment at the front, and the segment then holds the node's arc first |
| WeightedGraph.RowsApart | MinPrioGraph/graph.h:40 | in the row-by-row matrix, every cell of an earlier row comes before every cell of a later row |
| AdjList.FindFirst | MinPrioGraph/graph.h:80-84 | the list search stops at the first node whose target is t |
| AdjList.FindAbsent | MinPrioGraph/graph.h:80-84 | the list search answers INFINITY when no node has target t |
| AdjList.FindPresent | MinPrioGraph/graph.h:80-84 | the list search finds a weight exactly when some node has target t |
| AdjList.FindDistinct | MinPrioGraph/graph.h:67-72 | with one node per target, searching for a node's target reaches that node |
| AdjList.RemoveDistinct | MinPrioGraph/graph.h:74-78 | unlinking a node from a list with one node per target keeps one node per target |
| AdjList.FindRemove | MinPrioGraph/graph.h:74-78 | unlinking a node removes exactly its target from the search and keeps targets distinct |
| AdjList.CoupledEmpty | MinPrioGraph/graph.h:47-51 | n empty lists hold the graph without edges |
| AdjList.CoupledInsert | MinPrioGraph/graph.h:67-72 | putting an arc for a new pair s -> t at the front of list s gives lists that hold the edge map with that edge added |
| AdjList.CoupledRemove | MinPrioGraph/graph.h:74-78 | removing the arc at position i of list s gives lists that hold the edge map without (s, that arc's target); that pair was an edge |

## Left out

- `disposeGraph` (graph.h:58-62) is not modelled, nor is freeing the arrays that `successors` and `predecessors` return. Memory is garbage-collected here; only the "freshly allocated" promise is kept, as `fresh(a)`.
- A node unlinked by `delEdge` stays in the ghost sets `Cells` and `Repr`, because `free` is not modelled. It is unreachable from every list.
- The non-null `Graph` precondition (graph.h:10-11) is implicit in a non-null class reference.
- Weights are modelled as `real`, with a separate `Infinity` case for INFINITY. IEEE `float` rounding, NaN and negative zero are not modelled.
- WeightedGraph.Graph.AddEdge: its weight is a `real`, so +INFINITY cannot be added as a weight. In C, +INFINITY is a non-negative `float` that graph.h:4 and graph.h:72 allow. After such an add, `edge` could not tell the edge from "no edge". The model does not capture that case.
- Integer width: `n`, `source` and `target` are 32-bit `int` in C. The matrix size `numVerts*numVerts` (graph.h:40) overflows `int` from n = 46341. The model uses unbounded integers, and `Idx` computes `s*n+t` without wrap-around, so overflow is not modelled.
- WeightedGraph.Idx: the row-major layout `s*n+t` of the matrix cells is a choice of this model. graph.h:40 gives only the matrix size. `RowsApart` and `IdxDistinct` are about this layout only. No arithmetic is done on weights; they are only stored, compared and returned.
- `short repType` and the `int` status codes become the datatypes `RepType` (Matrix | List) and `Status` (Ok | Error). The ill-typed tag values that C allows cannot occur.
- The field of the unused representation (`adjM` for LIST, `aList` for MATRIX) is `null` in the model.
- WeightedGraph.Graph.AddEdge: requires `w >= 0`. The header says edges have non-negative weights (graph.h:4) but does not say what `addEdge` does with a negative weight, so that case is not modelled.
- WeightedGraph.Graph.Successors: the order of the entries is not stated, because the header leaves it open. Only membership, absence of repeats, the terminator and the length are promised. The same holds for WeightedGraph.Graph.Predecessors.
- WeightedGraph.Graph.ListInsert: places the new node right behind the dummy head. The implementation file is not part of this model, so this placement is a choice, and no contract depends on it.
- The implementation file (`graph.c`) is not part of this model. Behaviour the header leaves open is not modelled, such as whether self-loops are accepted (they are accepted here, as the header does not exclude them).
- `ENode` carries two ghost fields, `home` (the vertex whose list holds the node) and `dummy` (whether the node is a list head). They exist only to state the list invariant and have no counterpart in `struct eNode`.
