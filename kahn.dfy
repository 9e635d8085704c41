/** kahn_topological_sort in imperative form: the in-degree table and the adjacency lists
    are arrays updated in place, the queue is a sequence used first in, first out, and the
    order is a sequence appended to step by step. Each method is proved against the
    functional model in KahnModel. */
module Kahn {
  import opened Digraph
  import opened KahnModel

  /** Builds the adjacency lists and the in-degree table in one pass over the edges. An
      edge whose target is not a vertex stops the pass, reported as the missing vertex; an
      edge whose source is not a vertex still counts towards its target's in-degree, and
      its successor list, which nothing ever reads, is not kept. */
  method BuildGraph(n: nat, edges: seq<Edge>)
    returns (graph: array<seq<int>>, inDegree: array<int>, missing: Option<int>)
    ensures fresh(graph) && fresh(inDegree) && graph.Length == n && inDegree.Length == n
    ensures missing == MissingTarget(n, edges)
    ensures missing.None? ==> graph[..] == Adjacency(n, edges) && inDegree[..] == InDegrees(n, edges)
  {
    graph := new seq<int>[n](_ => []);
    inDegree := new int[n](_ => 0);
    for i := 0 to |edges|
      invariant MissingTarget(n, edges[i..]) == MissingTarget(n, edges)
      invariant forall u :: 0 <= u < n ==> graph[u] == Successors(edges[..i], u)
      invariant forall v :: 0 <= v < n ==> inDegree[v] == InDegree(edges[..i], v)
    {
      var (u, v) := edges[i];
      assert edges[i..][0] == edges[i] && edges[i..][1..] == edges[i + 1..];
      if 0 <= u < n {
        graph[u] := graph[u] + [v];
      }
      if !(0 <= v < n) {
        return graph, inDegree, Some(v);
      }
      inDegree[v] := inDegree[v] + 1;
      assert edges[..i + 1] == edges[..i] + [edges[i]];
      EdgeAdded(edges[..i], edges[i]);
    }
    assert edges[|edges|..] == [] && edges[..|edges|] == edges;
    missing := None;
  }

  /** The vertices of in-degree 0, visited in ascending order. */
  method ZeroInDegreeVertices(inDegree: array<int>) returns (queue: seq<int>)
    ensures queue == ZeroVertices(inDegree[..])
    ensures forall x :: x in queue <==> 0 <= x < inDegree.Length && inDegree[x] == 0
    ensures StrictlyIncreasing(queue)
  {
    queue := [];
    for x := 0 to inDegree.Length
      invariant queue == ZeroVertices(inDegree[..x])
    {
      assert inDegree[..x + 1][..x] == inDegree[..x];
      if inDegree[x] == 0 {
        queue := queue + [x];
      }
    }
    assert inDegree[..inDegree.Length] == inDegree[..];
    ZeroVerticesExactly(inDegree[..]);
  }

  /** The inner loop: lowers the in-degree of each successor of the emitted vertex and
      enqueues every successor whose in-degree reaches 0, in the order of the list. */
  method ReleaseSuccessors(successors: seq<int>, inDegree: array<int>, queue: seq<int>)
    returns (newQueue: seq<int>)
    requires InRange(successors, inDegree.Length)
    modifies inDegree
    ensures (inDegree[..], newQueue) == Release(successors, old(inDegree[..]), queue)
  {
    newQueue := queue;
    for k := 0 to |successors|
      invariant Release(successors[k..], inDegree[..], newQueue) ==
                Release(successors, old(inDegree[..]), queue)
    {
      var neighbor := successors[k];
      assert successors[k..][1..] == successors[k + 1..];
      inDegree[neighbor] := inDegree[neighbor] - 1;
      if inDegree[neighbor] == 0 {
        newQueue := newQueue + [neighbor];
      }
    }
    assert successors[|successors|..] == [];
  }

  /** One iteration of the main loop: pop the front of the queue, append it to the order
      and release its successors. */
  method EmitFront(graph: array<seq<int>>, inDegree: array<int>, queue: seq<int>, order: seq<int>)
    returns (newQueue: seq<int>, newOrder: seq<int>)
    requires WellFormed(graph[..], KahnState(inDegree[..], queue, order)) && queue != []
    modifies inDegree
    ensures KahnState(inDegree[..], newQueue, newOrder) ==
            Step(graph[..], KahnState(old(inDegree[..]), queue, order))
  {
    var node := queue[0];
    newOrder := order + [node];
    newQueue := ReleaseSuccessors(graph[node], inDegree, queue[1..]);
  }

  /** Kahn's algorithm: repeatedly emit a vertex of in-degree 0 and lower the in-degrees of
      its successors; report a cycle if not every vertex was emitted. */
  method TopologicalSort(vertices: int, edges: seq<Edge>) returns (result: SortResult)
    ensures result == KahnSort(vertices, edges)
    ensures result.MissingVertex? <==> !TargetsInRange(VertexCount(vertices), edges)
    ensures result.MissingVertex? ==>
              exists k :: 0 <= k < |edges| && edges[k].1 == result.vertex &&
                          !(0 <= edges[k].1 < VertexCount(vertices)) &&
                          TargetsInRange(VertexCount(vertices), edges[..k])
    ensures result.Order? ==> IsTopologicalOrder(result.order, vertices, edges)
    ensures result.Cycle? <==>
              TargetsInRange(VertexCount(vertices), edges) &&
              (vertices < 0 || !ValidEdges(vertices, edges) || HasCycle(edges))
  {
    KahnSortCorrect(vertices, edges);
    var n := VertexCount(vertices);
    var graph, inDegree, missing := BuildGraph(n, edges);
    if missing.Some? {
      return MissingVertex(missing.value);
    }
    MissingTargetIsFirst(n, edges);
    var queue := ZeroInDegreeVertices(inDegree);
    var topoOrder: seq<int> := [];

    ghost var adj := Adjacency(n, edges);
    ghost var state := InitialState(n, edges);
    assert state == KahnState(inDegree[..], queue, topoOrder);
    ghost var outcome := FinalState(n, edges);
    ReachableInitial(n, edges);

    while queue != []
      invariant graph[..] == adj
      invariant state == KahnState(inDegree[..], queue, topoOrder)
      invariant Reachable(n, edges, state, outcome)
      decreases n - |topoOrder|
    {
      ReachableStep(n, edges, state, outcome);
      state := Step(adj, state);
      queue, topoOrder := EmitFront(graph, inDegree, queue, topoOrder);
    }

    ReachableFinal(n, edges, state, outcome);
    if |topoOrder| != vertices {
      return Cycle;
    }
    return Order(topoOrder);
  }
}
