# Kahn's topological sort, modelled and verified in Dafny

This project models `kahn_topological_sort(vertices, edges)` from
`Source/Algorithms/kahn.py`. The function takes a vertex count and a list of directed edges
`(u, v)` over the vertices `range(vertices)`, and runs in four phases:

- It builds adjacency lists `graph[u]` and an in-degree table `in_degree[v]`.
- It seeds a FIFO queue with the vertices of in-degree 0, in ascending order.
- It repeatedly dequeues a vertex and appends it to `topo_order`. It then lowers the
  in-degree of each successor, and a successor joins the back of the queue when its
  in-degree reaches 0.
- It finally returns `topo_order` when every vertex was emitted, and a cycle message
  otherwise.

The project has three modules, one file each:

- `digraph.dfy`, module `Digraph`, covers edge-list graphs. It has the counts the algorithm
  keeps (`Successors`, `InDegree`, and `Remaining`, the in-degree left once some vertices are
  emitted). It defines walks, cycles, permutations and topological orders. It proves two graph
  facts the correctness argument needs: a graph with a topological order has no cycle, and a
  graph where every vertex not yet emitted still has an incoming edge from another such vertex
  has a cycle.
- `kahn_model.dfy`, module `KahnModel`, is the algorithm as functions of its state:
  - `Release` is the loop over successors (lines 29-33).
  - `Step` is one iteration of `while queue` (lines 24-33).
  - `Run` is the main loop.
  - `KahnSort` is the whole function.

  It also holds the main-loop invariant `Inv`, the lemmas showing that every iteration keeps
  it, the correctness theorem `KahnSortCorrect`, and the source's example input worked through
  to its result.
- `kahn.dfy`, module `Kahn`, is the imperative form. The adjacency lists and the in-degree
  table are arrays updated in place, the queue is a sequence used first in, first out, and the
  order is a sequence appended to step by step. Each method is proved equal to its function in
  `KahnModel`. `Kahn.TopologicalSort` also carries the correctness theorem in its
  postcondition.

Two kinds of input leave the ordinary path. An edge whose target `v` is not in
`range(vertices)` makes `in_degree[v] += 1` (line 13) raise `KeyError`; the model returns
`MissingVertex(v)` for the first such edge. An edge whose source `u` is out of range is
accepted (line 12). Its list `graph[u]` is never read, because only in-range vertices are ever
queued. Its edge still counts towards `in_degree[v]` and is never discounted, so `v` is never
emitted and the result is the cycle report, unless some edge's target is out of range, in
which case the `KeyError` comes first. A negative `vertices` gives an empty
`range(vertices)`: any edge then raises `KeyError`, and with no edges the length test at
line 37 reports a cycle.

## Model

| member | source | states |
|---|---|---|
| Kahn.BuildGraph | Source/Algorithms/kahn.py:6-13 | one pass over the edges. It fails on the first edge whose target is not a vertex, naming that target. Otherwise `graph[u]` lists the targets of u's edges in input order, and `inDegree[v]` counts the edges entering v, duplicates included |
| KahnModel.MissingTargetIsFirst | Source/Algorithms/kahn.py:11-13 | building the graph fails exactly when some edge ends outside the vertices. The value named is the target of the first such edge, and every earlier edge ends at a vertex |
| KahnModel.VertexCount | Source/Algorithms/kahn.py:7 | the number of vertices in `range(vertices)`: `vertices` itself, or 0 when `vertices` is negative |
| KahnModel.Adjacency | Source/Algorithms/kahn.py:6-12 | the table `graph` builds: entry u is `Successors(edges, u)`, the targets of u's edges in input order, for each vertex u |
| KahnModel.InDegrees | Source/Algorithms/kahn.py:7-13 | the table `in_degree` builds: entry v is `InDegree(edges, v)`, the number of edges entering v, for each vertex v |
| Digraph.InDegreeCountsEdges | Source/Algorithms/kahn.py:11-13 | the in-degree of v equals the number of positions in the edge list whose edge enters v, so duplicate edges count with their multiplicity |
| KahnModel.MissingTarget | Source/Algorithms/kahn.py:11-13 | the target of the first edge whose target is not a vertex, where `in_degree[v] += 1` raises `KeyError`, or none; its properties are proved in `MissingTargetIsFirst` |
| Digraph.SuccessorsInRange | Source/Algorithms/kahn.py:12 | when every edge ends at a vertex, every adjacency list names only vertices |
| KahnModel.ExampleAdjacencyLists | Source/Algorithms/kahn.py:11-12 | on the example edges the adjacency lists are `[[], [], [3], [1], [0, 1], [2, 0]]` |
| KahnModel.ExampleInDegrees | Source/Algorithms/kahn.py:11-13 | on the example edges the in-degrees are `[2, 2, 1, 1, 0, 0]` |
| Kahn.ZeroInDegreeVertices | Source/Algorithms/kahn.py:17 | the initial queue holds exactly the vertices of in-degree 0, in strictly ascending order |
| KahnModel.ZeroVerticesExactly | Source/Algorithms/kahn.py:17 | x is in the initial queue iff x is a vertex of in-degree 0, and the queue is strictly ascending |
| KahnModel.ExampleQueue | Source/Algorithms/kahn.py:17 | on the example in-degrees the initial queue is `[4, 5]` |
| KahnModel.ZeroVertices | Source/Algorithms/kahn.py:17 | the initial queue: the vertices of in-degree 0, in ascending order; its properties are proved in `ZeroVerticesExactly` |
| KahnModel.Release | Source/Algorithms/kahn.py:29-33 | the loop over successors: each successor in list order has its in-degree lowered by 1 and is appended to the queue when that reaches 0; the new table has one entry per vertex, as before |
| Digraph.RemainingWithNoneDone | Source/Algorithms/kahn.py:7-13 | before anything is emitted, the in-degree left to a vertex is its full in-degree |
| KahnModel.InitialInv | Source/Algorithms/kahn.py:6-20 | the main-loop invariant holds before the first iteration |
| KahnModel.InitialWellFormed | Source/Algorithms/kahn.py:6-17 | the initial tables have one entry per vertex, and the queue holds only vertices |
| Kahn.ReleaseSuccessors | Source/Algorithms/kahn.py:29-33 | the loop over successors leaves the in-degree table and the queue exactly as `Release` computes them from the old ones |
| KahnModel.ReleaseAppends | Source/Algorithms/kahn.py:29-33 | the queue is used first in, first out: releasing keeps every queued vertex in place, in order, and appends only successors behind them |
| KahnModel.ReleaseLowersDegrees | Source/Algorithms/kahn.py:29-30 | releasing lowers each vertex's in-degree by the number of times it occurs among the successors |
| KahnModel.ReleaseKeepsQueueInvariant | Source/Algorithms/kahn.py:29-33 | releasing keeps the queue invariant: queued and emitted vertices have in-degree 0, every other vertex a positive one, and the queue has no duplicates and no emitted vertex |
| Digraph.RemainingAfterEmit | Source/Algorithms/kahn.py:26-30 | emitting a vertex lowers the in-degree left to v by exactly the number of edges from that vertex to v |
| Digraph.RemainingZero | Source/Algorithms/kahn.py:30-32 | the in-degree left to v is 0 iff every edge entering v starts at an emitted vertex |
| KahnModel.Step | Source/Algorithms/kahn.py:25-33 | one iteration (pop the front, append it, release its successors) appends the front of the queue to the order and keeps the tables and the queue within the vertices |
| KahnModel.Run | Source/Algorithms/kahn.py:24-33 | the main loop: `Step` repeated until the queue is empty, with at most one iteration per unit of fuel; `RunEmptiesQueue` proves that `VertexCount(vertices)` units always suffice |
| Kahn.EmitFront | Source/Algorithms/kahn.py:25-33 | one iteration of `while queue` leaves the arrays, the queue and the order exactly as `Step` computes them |
| KahnModel.StepKeepsInv | Source/Algorithms/kahn.py:24-33 | every iteration keeps the main-loop invariant. That invariant says: the order has no duplicates; `in_degree[x]` counts the edges entering x from vertices not yet emitted; the queue invariant holds; and every edge between two emitted vertices goes forward in the order |
| KahnModel.InvBound | Source/Algorithms/kahn.py:24-33 | under the invariant the emitted and the queued vertices together number at most `VertexCount(vertices)` |
| KahnModel.ReachableStep | Source/Algorithms/kahn.py:24-33 | while the queue is not empty fewer than `VertexCount(vertices)` vertices have been emitted, and one iteration keeps the invariant and the final outcome. This bounds the loop |
| KahnModel.RunEmptiesQueue | Source/Algorithms/kahn.py:24-33 | with at least one iteration per vertex not yet emitted, the loop ends with an empty queue and the invariant holds |
| KahnModel.FinalStateEmitsOnce | Source/Algorithms/kahn.py:24-37 | when the loop stops, the queue is empty, each vertex was emitted at most once, at most `VertexCount(vertices)` were emitted, and every edge into an emitted vertex starts at an emitted vertex |
| Digraph.VerticesCovered | Source/Algorithms/kahn.py:37 | a duplicate-free list of vertices has at most `vertices` entries, and has exactly `vertices` entries iff it contains every vertex |
| KahnModel.CompleteOrderIsTopological | Source/Algorithms/kahn.py:37-40 | when every vertex is emitted, every edge starts at a vertex, the order is a permutation of the vertices in which every edge goes forward, and the graph has no cycle |
| Digraph.TopologicalOrderHasNoCycle | Source/Algorithms/kahn.py:37-40 | a graph that has a topological order has no directed cycle |
| Digraph.TopologicalOrderPlacesSourceFirst | Source/Algorithms/kahn.py:40 | in a topological order the source of every edge appears before its target |
| KahnModel.IncompleteOrderMeansCycle | Source/Algorithms/kahn.py:35-38 | when the loop stops before every vertex is emitted and every edge joins two vertices, the graph has a directed cycle |
| Digraph.StuckImpliesCycle | Source/Algorithms/kahn.py:35-38 | if some vertex is not emitted, and every vertex not emitted has an edge into it from another such vertex, the graph has a directed cycle |
| KahnModel.KahnSort | Source/Algorithms/kahn.py:3-40 | the whole function: `MissingVertex(v)` for the first missing target, else `Cycle` when the final order does not have `vertices` entries, else `Order` of it; its properties are proved in `KahnSortCorrect` |
| KahnModel.KahnSortCorrect | Source/Algorithms/kahn.py:3-40 | the sort names a missing vertex iff some edge ends outside the vertices, and that vertex is the target of the first such edge: it lies outside `range(vertices)` and every earlier edge ends at a vertex. It reports a cycle iff all targets are vertices and either `vertices` is negative, some edge starts outside the vertices, or the graph has a directed cycle. Any order it returns is a topological order of the vertices |
| Kahn.TopologicalSort | Source/Algorithms/kahn.py:3-40 | the imperative sort returns exactly `KahnSort(vertices, edges)`, so the three results are characterised as in `KahnSortCorrect`: missing vertex (the out-of-range target of the first such edge), cycle report, and topological order |
| KahnModel.ExampleOrder | Source/Algorithms/kahn.py:43-47 | on 6 vertices and the edges `(5,2),(5,0),(4,0),(4,1),(2,3),(3,1)` the sort returns `[4, 5, 2, 0, 3, 1]` |

## Left out

- The example call and its `print` (lines 43-48) are I/O. The example input appears only as the lemmas `ExampleOrder`, `ExampleAdjacencyLists`, `ExampleInDegrees` and `ExampleQueue`.
- The complexity comments (lines 4-5, 10, 16, 23, 36 and 50-77) make claims about running time. Running time is not part of the model.
- Python's containers are modelled by what they hold. `defaultdict(list)` becomes an array of sequences indexed by vertex, the `in_degree` dictionary an array of integers, and the `deque` a sequence whose front is index 0.
- The cycle message and the `KeyError` are modelled as constructors of `SortResult`. The cycle message at line 38 becomes `Cycle`, and the `KeyError` raised at line 13 becomes `MissingVertex(v)`. The exception's traceback and the half-built tables it discards are not modelled.
- Kahn.BuildGraph: the source also keeps `graph[u]` for a source `u` outside `range(vertices)`. Nothing ever reads that list, so the model does not store it.
- Vertices are integers. Python would accept any hashable value as an edge endpoint. A target equal to no integer in `range(vertices)` raises `KeyError`. A value equal to one of them, such as `True` or `1.0`, is looked up as that integer, and it can then appear in the order as itself (with `vertices = 2` and `edges = [(0, True)]` the result is `[0, True]`). The model only takes integer endpoints, so it does not represent such values.
- `Run` takes a fuel bound on the number of iterations. The bound is `VertexCount(vertices)`: `vertices`, or 0 when `vertices` is negative (then there are no vertices and the queue starts empty). `RunEmptiesQueue` proves the bound is never exhausted before the queue empties, so it removes no behaviour.
