/** Kahn's topological sort as a function of its state: the graph and in-degree tables it
    builds, the queue it seeds, one iteration of its main loop, and the whole run, together
    with the invariant that every iteration keeps and the correctness theorem. */
module KahnModel {
  import opened Digraph

  datatype Option<T> = None | Some(value: T)

  /** What the sort produces: the order, the report that the graph has a cycle, or the
      failure to find an edge's target among the vertices (a KeyError in the source). */
  datatype SortResult = Order(order: seq<int>) | Cycle | MissingVertex(vertex: int)

  /** The state between two iterations of the main loop: the in-degree table, the FIFO
      queue (front at index 0) and the vertices emitted so far. */
  datatype KahnState = KahnState(inDegree: seq<int>, queue: seq<int>, order: seq<int>)

  /** The adjacency lists: entry u lists the targets of u's edges in input order. */
  function Adjacency(n: nat, edges: seq<Edge>): seq<seq<int>>
  {
    seq(n, u => Successors(edges, u))
  }

  /** The in-degree table: entry v counts the edges entering v. */
  function InDegrees(n: nat, edges: seq<Edge>): seq<int>
  {
    seq(n, v => InDegree(edges, v))
  }

  /** The target of the first edge that does not end at a vertex: the key the in-degree
      table lacks when the graph is built. */
  function MissingTarget(n: nat, edges: seq<Edge>): Option<int>
  {
    if edges == [] then None
    else if !(0 <= edges[0].1 < n) then Some(edges[0].1)
    else MissingTarget(n, edges[1..])
  }

  /** Building the graph fails exactly when some edge ends outside the vertices, and then
      it fails at the first such edge. */
  lemma {:induction false} MissingTargetIsFirst(n: nat, edges: seq<Edge>)
    ensures MissingTarget(n, edges).None? <==> TargetsInRange(n, edges)
    ensures MissingTarget(n, edges).Some? ==>
              exists k :: 0 <= k < |edges| && edges[k].1 == MissingTarget(n, edges).value &&
                          !(0 <= edges[k].1 < n) && TargetsInRange(n, edges[..k])
  {
    if edges != [] && 0 <= edges[0].1 < n {
      var rest := edges[1..];
      MissingTargetIsFirst(n, rest);
      assert forall k :: 0 <= k < |rest| ==> rest[k] == edges[k + 1];
      if MissingTarget(n, rest).Some? {
        var k :| 0 <= k < |rest| && rest[k].1 == MissingTarget(n, rest).value &&
                 !(0 <= rest[k].1 < n) && TargetsInRange(n, rest[..k]);
        assert edges[k + 1] == rest[k];
      }
    } else if edges != [] {
      assert !(0 <= edges[0].1 < n) && TargetsInRange(n, edges[..0]);
    }
  }

  /** The vertices whose entry in d is 0, in ascending order. */
  function ZeroVertices(d: seq<int>): seq<int>
  {
    if d == [] then []
    else ZeroVertices(d[..|d| - 1]) + if d[|d| - 1] == 0 then [|d| - 1] else []
  }

  predicate StrictlyIncreasing(s: seq<int>)
  {
    forall i, j :: 0 <= i < j < |s| ==> s[i] < s[j]
  }

  /** The initial queue holds exactly the vertices of in-degree 0, in ascending order. */
  lemma {:induction false} ZeroVerticesExactly(d: seq<int>)
    ensures forall x :: x in ZeroVertices(d) <==> 0 <= x < |d| && d[x] == 0
    ensures StrictlyIncreasing(ZeroVertices(d))
  {
    if d != [] {
      var init := d[..|d| - 1];
      var last := |d| - 1;
      ZeroVerticesExactly(init);
      assert forall x :: 0 <= x < |init| ==> init[x] == d[x];
      var z := ZeroVertices(init);
      assert ZeroVertices(d) == z + if d[last] == 0 then [last] else [];
      forall i | 0 <= i < |z| ensures z[i] < last {
        assert z[i] in z;
      }
    }
  }

  /** The inner loop over the successors of the vertex just emitted: each target in turn
      has its in-degree decremented and joins the back of the queue when that reaches 0. */
  function Release(targets: seq<int>, inDegree: seq<int>, queue: seq<int>): (r: (seq<int>, seq<int>))
    requires InRange(targets, |inDegree|)
    ensures |r.0| == |inDegree|
    decreases |targets|
  {
    if targets == [] then (inDegree, queue)
    else
      var t := targets[0];
      var d := inDegree[t := inDegree[t] - 1];
      Release(targets[1..], d, if d[t] == 0 then queue + [t] else queue)
  }

  /** The queue is used first in, first out: releasing keeps the queue as it was and
      appends only vertices among the targets. */
  lemma {:induction false} ReleaseAppends(targets: seq<int>, inDegree: seq<int>, queue: seq<int>)
    requires InRange(targets, |inDegree|)
    ensures var r := Release(targets, inDegree, queue);
            |queue| <= |r.1| && r.1[..|queue|] == queue &&
            forall i :: |queue| <= i < |r.1| ==> r.1[i] in targets
    decreases |targets|
  {
    if targets != [] {
      var t := targets[0];
      var d := inDegree[t := inDegree[t] - 1];
      var q := if d[t] == 0 then queue + [t] else queue;
      ReleaseAppends(targets[1..], d, q);
      var r := Release(targets[1..], d, q);
      assert forall i :: 1 <= i < |targets| ==> targets[1..][i - 1] == targets[i];
      assert r.1[..|queue|] == r.1[..|q|][..|queue|];
    }
  }

  /** Every adjacency list names vertices of the graph. */
  predicate AdjacencyInRange(adj: seq<seq<int>>)
  {
    forall u :: 0 <= u < |adj| ==> InRange(adj[u], |adj|)
  }

  /** What one iteration needs: a table entry per vertex and only vertices in the queue. */
  predicate WellFormed(adj: seq<seq<int>>, s: KahnState)
  {
    |s.inDegree| == |adj| && AdjacencyInRange(adj) && InRange(s.queue, |adj|)
  }

  /** One iteration of the main loop: take the vertex at the front of the queue, append it
      to the order, and release its successors. */
  function Step(adj: seq<seq<int>>, s: KahnState): (r: KahnState)
    requires WellFormed(adj, s) && s.queue != []
    ensures WellFormed(adj, r)
    ensures r.order == s.order + [s.queue[0]]
  {
    var node := s.queue[0];
    var released := Release(adj[node], s.inDegree, s.queue[1..]);
    ReleaseAppends(adj[node], s.inDegree, s.queue[1..]);
    KahnState(released.0, released.1, s.order + [node])
  }

  /** At most fuel iterations of the main loop, stopping early when the queue is empty. */
  function Run(adj: seq<seq<int>>, s: KahnState, fuel: nat): KahnState
    requires WellFormed(adj, s)
    decreases fuel
  {
    if s.queue == [] || fuel == 0 then s else Run(adj, Step(adj, s), fuel - 1)
  }

  /** One more iteration of the main loop, with the fuel counted as the vertices not yet
      emitted, leaves the outcome of Run unchanged. */
  lemma RunAdvances(adj: seq<seq<int>>, s: KahnState, n: nat, outcome: KahnState)
    requires WellFormed(adj, s) && s.queue != [] && |s.order| < n
    requires Run(adj, s, n - |s.order|) == outcome
    ensures |Step(adj, s).order| <= n && Run(adj, Step(adj, s), n - |Step(adj, s).order|) == outcome
  {
    var fuel := n - |s.order|;
    assert Run(adj, s, fuel) == Run(adj, Step(adj, s), fuel - 1);
  }

  /** The vertex set is range(vertices), which is empty when vertices is negative. */
  function VertexCount(vertices: int): nat
  {
    if vertices < 0 then 0 else vertices
  }

  /** The state after the graph is built and the queue seeded, before the main loop. */
  function InitialState(n: nat, edges: seq<Edge>): KahnState
  {
    var d := InDegrees(n, edges);
    KahnState(d, ZeroVertices(d), [])
  }

  lemma InitialWellFormed(n: nat, edges: seq<Edge>)
    requires TargetsInRange(n, edges)
    ensures WellFormed(Adjacency(n, edges), InitialState(n, edges))
  {
    var adj := Adjacency(n, edges);
    forall u | 0 <= u < n ensures InRange(adj[u], n) {
      SuccessorsInRange(n, edges, u);
    }
    var q := ZeroVertices(InDegrees(n, edges));
    ZeroVerticesExactly(InDegrees(n, edges));
    assert forall i :: 0 <= i < |q| ==> q[i] in q;
  }

  /** The state when the main loop stops. The loop runs at most once per vertex, so n
      iterations are enough (see FinalStateEmitsOnce). */
  function FinalState(n: nat, edges: seq<Edge>): KahnState
    requires TargetsInRange(n, edges)
  {
    InitialWellFormed(n, edges);
    Run(Adjacency(n, edges), InitialState(n, edges), n)
  }

  /** The whole sort: the failure on a missing target while the graph is built, else the
      emitted order if it has one entry per vertex, else the cycle report. */
  function KahnSort(vertices: int, edges: seq<Edge>): SortResult
  {
    var n := VertexCount(vertices);
    match MissingTarget(n, edges)
    case Some(v) => MissingVertex(v)
    case None =>
      MissingTargetIsFirst(n, edges);
      var order := FinalState(n, edges).order;
      if |order| != vertices then Cycle else Order(order)
  }

  // ----- The invariant of the main loop -----

  /** Emitted and queued vertices have in-degree 0, every other vertex a positive one, and
      the queue is duplicate-free and holds no emitted vertex. */
  ghost predicate QueueInvariant(d: seq<int>, q: seq<int>, done: seq<int>)
  {
    InRange(q, |d|) && Distinct(q) &&
    (forall i :: 0 <= i < |q| ==> q[i] !in done && d[q[i]] == 0) &&
    (forall i :: 0 <= i < |done| ==> 0 <= done[i] < |d| && d[done[i]] == 0) &&
    (forall x :: 0 <= x < |d| && x !in done && x !in q ==> d[x] > 0)
  }

  /** Every edge between two emitted vertices goes forward in the order. */
  ghost predicate EmittedInOrder(edges: seq<Edge>, order: seq<int>)
  {
    forall i, j :: 0 <= i < |order| && 0 <= j < |order| && (order[i], order[j]) in edges ==> i < j
  }

  /** The main-loop invariant: order is duplicate-free and ordered along the edges,
      inDegree[x] counts the edges entering x from vertices not yet emitted, and the
      queue is as QueueInvariant says. */
  ghost predicate Inv(n: nat, edges: seq<Edge>, s: KahnState)
  {
    |s.inDegree| == n && InRange(s.order, n) && Distinct(s.order) &&
    (forall x :: 0 <= x < n ==> s.inDegree[x] == Remaining(edges, s.order, x)) &&
    QueueInvariant(s.inDegree, s.queue, s.order) &&
    EmittedInOrder(edges, s.order)
  }

  /** Before the main loop the invariant holds. */
  lemma InitialInv(n: nat, edges: seq<Edge>)
    ensures Inv(n, edges, InitialState(n, edges))
  {
    var s := InitialState(n, edges);
    var q := s.queue;
    ZeroVerticesExactly(s.inDegree);
    forall x | 0 <= x < n ensures s.inDegree[x] == Remaining(edges, [], x) {
      RemainingWithNoneDone(edges, x);
    }
    assert forall i :: 0 <= i < |q| ==> q[i] in q;
    assert QueueInvariant(s.inDegree, q, []);
  }

  /** Releasing the successors of an emitted vertex lowers each in-degree by the number of
      times the vertex occurs among the targets. */
  lemma {:induction false} ReleaseLowersDegrees(targets: seq<int>, d: seq<int>, q: seq<int>)
    requires InRange(targets, |d|)
    ensures forall x :: 0 <= x < |d| ==> Release(targets, d, q).0[x] == d[x] - multiset(targets)[x]
    decreases |targets|
  {
    if targets != [] {
      var t := targets[0];
      var rest := targets[1..];
      assert targets == [t] + rest;
      assert multiset(targets) == multiset{t} + multiset(rest);
      var d1 := d[t := d[t] - 1];
      var q1 := if d1[t] == 0 then q + [t] else q;
      assert Release(targets, d, q) == Release(rest, d1, q1);
      ReleaseLowersDegrees(rest, d1, q1);
    }
  }

  /** Releasing the successors of an emitted vertex keeps the queue invariant, as long as
      no in-degree falls below the number of times its vertex occurs among the targets. */
  lemma {:induction false} ReleaseKeepsQueueInvariant(targets: seq<int>, d: seq<int>, q: seq<int>, done: seq<int>)
    requires InRange(targets, |d|)
    requires forall x :: 0 <= x < |d| ==> d[x] >= multiset(targets)[x]
    requires QueueInvariant(d, q, done)
    ensures QueueInvariant(Release(targets, d, q).0, Release(targets, d, q).1, done)
    decreases |targets|
  {
    if targets != [] {
      var t := targets[0];
      var rest := targets[1..];
      var d1 := d[t := d[t] - 1];
      var q1 := if d1[t] == 0 then q + [t] else q;
      DecrementLeavesEnough(targets, d);
      DecrementKeepsQueueInvariant(t, d, q, done);
      assert Release(targets, d, q) == Release(rest, d1, q1);
      ReleaseKeepsQueueInvariant(rest, d1, q1, done);
    }
  }

  /** After the first decrement every in-degree still covers the remaining targets. */
  lemma DecrementLeavesEnough(targets: seq<int>, d: seq<int>)
    requires targets != [] && InRange(targets, |d|)
    requires forall x :: 0 <= x < |d| ==> d[x] >= multiset(targets)[x]
    ensures d[targets[0]] >= 1
    ensures forall x :: 0 <= x < |d| ==>
              d[targets[0] := d[targets[0]] - 1][x] >= multiset(targets[1..])[x]
  {
    assert targets == [targets[0]] + targets[1..];
    assert multiset(targets) == multiset{targets[0]} + multiset(targets[1..]);
  }

  /** One decrement of the inner loop keeps the queue invariant. */
  lemma DecrementKeepsQueueInvariant(t: int, d: seq<int>, q: seq<int>, done: seq<int>)
    requires 0 <= t < |d| && d[t] >= 1
    requires QueueInvariant(d, q, done)
    ensures var d1 := d[t := d[t] - 1];
            QueueInvariant(d1, if d1[t] == 0 then q + [t] else q, done)
  {
    var d1 := d[t := d[t] - 1];
    var q1 := if d1[t] == 0 then q + [t] else q;
    assert t !in done && t !in q;
    assert forall i :: 0 <= i < |q| ==> q1[i] == q[i];
  }

  /** Every edge entering an emitted vertex starts at a vertex emitted earlier. */
  lemma EmitKeepsOrder(edges: seq<Edge>, order: seq<int>, node: int)
    requires EmittedInOrder(edges, order) && node !in order
    requires forall k :: 0 <= k < |edges| && edges[k].1 in order + [node] ==> edges[k].0 in order
    ensures EmittedInOrder(edges, order + [node])
  {
    var o := order + [node];
    forall i, j | 0 <= i < |o| && 0 <= j < |o| && (o[i], o[j]) in edges ensures i < j {
      var k :| 0 <= k < |edges| && edges[k] == (o[i], o[j]);
      assert o[j] in o;
    }
  }

  /** The emitted vertices and the queued ones are distinct vertices, so there are at most n. */
  lemma InvBound(n: nat, edges: seq<Edge>, s: KahnState)
    requires Inv(n, edges, s)
    ensures |s.order| + |s.queue| <= n
  {
    var all := s.order + s.queue;
    forall i, j | 0 <= i < j < |all| ensures all[i] != all[j] {
      if j >= |s.order| && i < |s.order| {
        assert all[j] == s.queue[j - |s.order|];
      }
    }
    DistinctBound(all, Range(n));
  }

  /** Taking the front vertex of the queue and emitting it keeps the queue invariant. */
  lemma PopKeepsQueueInvariant(d: seq<int>, queue: seq<int>, order: seq<int>)
    requires QueueInvariant(d, queue, order) && queue != []
    ensures QueueInvariant(d, queue[1..], order + [queue[0]])
  {
    var q := queue[1..];
    assert forall i :: 0 <= i < |q| ==> q[i] == queue[i + 1];
  }

  /** Every iteration of the main loop keeps the invariant. */
  lemma StepKeepsInv(n: nat, edges: seq<Edge>, s: KahnState)
    requires TargetsInRange(n, edges)
    requires Inv(n, edges, s) && s.queue != []
    ensures WellFormed(Adjacency(n, edges), s) && Inv(n, edges, Step(Adjacency(n, edges), s))
  {
    var adj := Adjacency(n, edges);
    forall u | 0 <= u < n ensures InRange(adj[u], n) {
      SuccessorsInRange(n, edges, u);
    }
    var node, q := s.queue[0], s.queue[1..];
    var targets := adj[node];
    var done := s.order + [node];
    var d := s.inDegree;
    var r := Release(targets, d, q);
    assert Step(adj, s) == KahnState(r.0, r.1, done);
    assert node !in s.order;
    assert InRange(done, n) && Distinct(done);
    forall x | 0 <= x < n ensures d[x] == Remaining(edges, done, x) + multiset(targets)[x] {
      RemainingAfterEmit(edges, s.order, node, x);
    }
    ReleaseLowersDegrees(targets, d, q);
    assert forall x :: 0 <= x < n ==> r.0[x] == Remaining(edges, done, x);
    PopKeepsQueueInvariant(d, s.queue, s.order);
    ReleaseKeepsQueueInvariant(targets, d, q, done);
    forall k | 0 <= k < |edges| && edges[k].1 in done ensures edges[k].0 in s.order {
      RemainingZero(edges, s.order, edges[k].1);
    }
    EmitKeepsOrder(edges, s.order, node);
  }

  /** With enough fuel the main loop runs until the queue is empty, keeping the invariant. */
  lemma {:induction false} RunEmptiesQueue(n: nat, edges: seq<Edge>, s: KahnState, fuel: nat)
    requires TargetsInRange(n, edges)
    requires Inv(n, edges, s) && |s.order| + fuel >= n
    ensures WellFormed(Adjacency(n, edges), s)
    ensures Inv(n, edges, Run(Adjacency(n, edges), s, fuel))
    ensures Run(Adjacency(n, edges), s, fuel).queue == []
    decreases fuel
  {
    var adj := Adjacency(n, edges);
    forall u | 0 <= u < n ensures InRange(adj[u], n) {
      SuccessorsInRange(n, edges, u);
    }
    if s.queue != [] {
      InvBound(n, edges, s);
      StepKeepsInv(n, edges, s);
      RunEmptiesQueue(n, edges, Step(adj, s), fuel - 1);
    }
  }

  /** A state the main loop passes through on its way to outcome: the invariant holds and
      running the remaining iterations from it ends in outcome. */
  ghost predicate Reachable(n: nat, edges: seq<Edge>, s: KahnState, outcome: KahnState)
  {
    TargetsInRange(n, edges) && Inv(n, edges, s) && WellFormed(Adjacency(n, edges), s) &&
    |s.order| <= n && Run(Adjacency(n, edges), s, n - |s.order|) == outcome
  }

  /** The main loop starts in a state from which it reaches the final state. */
  lemma ReachableInitial(n: nat, edges: seq<Edge>)
    requires TargetsInRange(n, edges)
    ensures Reachable(n, edges, InitialState(n, edges), FinalState(n, edges))
  {
    InitialInv(n, edges);
    InitialWellFormed(n, edges);
  }

  /** While the queue is not empty fewer than n vertices have been emitted, and one more
      iteration keeps the state on its way to the same outcome. */
  lemma ReachableStep(n: nat, edges: seq<Edge>, s: KahnState, outcome: KahnState)
    requires Reachable(n, edges, s, outcome) && s.queue != []
    ensures |s.order| < n && Reachable(n, edges, Step(Adjacency(n, edges), s), outcome)
  {
    StepKeepsBound(n, edges, s);
    RunAdvances(Adjacency(n, edges), s, n, outcome);
  }

  /** One iteration keeps the invariant and emits one of the fewer than n vertices left. */
  lemma StepKeepsBound(n: nat, edges: seq<Edge>, s: KahnState)
    requires TargetsInRange(n, edges) && Inv(n, edges, s) && s.queue != []
    ensures |s.order| < n && WellFormed(Adjacency(n, edges), s)
    ensures Inv(n, edges, Step(Adjacency(n, edges), s))
    ensures |Step(Adjacency(n, edges), s).order| == |s.order| + 1
  {
    InvBound(n, edges, s);
    StepKeepsInv(n, edges, s);
  }

  /** A state with an empty queue on its way to outcome is outcome. */
  lemma ReachableFinal(n: nat, edges: seq<Edge>, s: KahnState, outcome: KahnState)
    requires Reachable(n, edges, s, outcome) && s.queue == []
    ensures s == outcome
  {
  }

  /** The main loop terminates within n iterations with an empty queue, having emitted each
      vertex at most once and only vertices whose every incoming edge comes from a vertex
      emitted before. */
  lemma FinalStateEmitsOnce(n: nat, edges: seq<Edge>)
    requires TargetsInRange(n, edges)
    ensures FinalState(n, edges).queue == []
    ensures Distinct(FinalState(n, edges).order) && InRange(FinalState(n, edges).order, n)
    ensures |FinalState(n, edges).order| <= n
    ensures forall k :: 0 <= k < |edges| && edges[k].1 in FinalState(n, edges).order ==>
              edges[k].0 in FinalState(n, edges).order
  {
    InitialInv(n, edges);
    RunEmptiesQueue(n, edges, InitialState(n, edges), n);
    var f := FinalState(n, edges);
    InvBound(n, edges, f);
    forall k | 0 <= k < |edges| && edges[k].1 in f.order ensures edges[k].0 in f.order {
      var i :| 0 <= i < |f.order| && f.order[i] == edges[k].1;
      RemainingZero(edges, f.order, edges[k].1);
    }
  }

  /** Correctness: the sort fails on a missing vertex exactly when some edge ends outside
      the vertices, and it then names the target of the first such edge; otherwise it
      reports a cycle exactly when the vertex count is negative, some edge starts outside
      the vertices, or the graph has a cycle; and an order it returns is a topological
      order of the vertices. */
  lemma KahnSortCorrect(vertices: int, edges: seq<Edge>)
    ensures KahnSort(vertices, edges).MissingVertex? <==> !TargetsInRange(VertexCount(vertices), edges)
    ensures KahnSort(vertices, edges).MissingVertex? ==>
              exists k :: 0 <= k < |edges| && edges[k].1 == KahnSort(vertices, edges).vertex &&
                          !(0 <= edges[k].1 < VertexCount(vertices)) &&
                          TargetsInRange(VertexCount(vertices), edges[..k])
    ensures KahnSort(vertices, edges).Order? ==>
              IsTopologicalOrder(KahnSort(vertices, edges).order, vertices, edges)
    ensures KahnSort(vertices, edges).Cycle? <==>
              TargetsInRange(VertexCount(vertices), edges) &&
              (vertices < 0 || !ValidEdges(vertices, edges) || HasCycle(edges))
  {
    var n := VertexCount(vertices);
    MissingTargetIsFirst(n, edges);
    if TargetsInRange(n, edges) {
      FinalStateEmitsOnce(n, edges);
      if vertices >= 0 && |FinalState(n, edges).order| == n {
        CompleteOrderIsTopological(n, edges);
      } else if vertices >= 0 && ValidEdges(n, edges) {
        IncompleteOrderMeansCycle(n, edges);
      }
    }
  }

  /** When every vertex is emitted, every edge starts at a vertex, the order is a
      topological order and the graph has no cycle. */
  lemma CompleteOrderIsTopological(n: nat, edges: seq<Edge>)
    requires TargetsInRange(n, edges) && |FinalState(n, edges).order| == n
    ensures ValidEdges(n, edges)
    ensures IsTopologicalOrder(FinalState(n, edges).order, n, edges)
    ensures !HasCycle(edges)
  {
    InitialInv(n, edges);
    RunEmptiesQueue(n, edges, InitialState(n, edges), n);
    FinalStateEmitsOnce(n, edges);
    var f := FinalState(n, edges);
    VerticesCovered(f.order, n);
    assert forall k :: 0 <= k < |edges| ==> edges[k].1 in f.order;
    TopologicalOrderHasNoCycle(f.order, n, edges);
  }

  /** When some vertex is never emitted although every edge joins two vertices, the graph
      has a cycle. */
  lemma IncompleteOrderMeansCycle(n: nat, edges: seq<Edge>)
    requires ValidEdges(n, edges) && |FinalState(n, edges).order| != n
    ensures HasCycle(edges)
  {
    InitialInv(n, edges);
    RunEmptiesQueue(n, edges, InitialState(n, edges), n);
    FinalStateEmitsOnce(n, edges);
    var f := FinalState(n, edges);
    VerticesCovered(f.order, n);
    var x :| 0 <= x < n && x !in f.order;
    StuckImpliesCycle(n, edges, f.order, x);
  }

  // ----- The example graph of the source: six vertices, six edges -----

  const ExampleEdges: seq<Edge> := [(5, 2), (5, 0), (4, 0), (4, 1), (2, 3), (3, 1)]
  const ExampleAdjacency: seq<seq<int>> := [[], [], [3], [1], [0, 1], [2, 0]]

  /** The successor lists of vertices 0, 1 and 2 of the example graph. */
  lemma ExampleSuccessorsLow()
    ensures Successors(ExampleEdges, 0) == [] && Successors(ExampleEdges, 1) == []
    ensures Successors(ExampleEdges, 2) == [3]
  {
    var e0: seq<Edge> := [];
    var e1 := e0 + [(5, 2)];
    var e2 := e1 + [(5, 0)];
    var e3 := e2 + [(4, 0)];
    var e4 := e3 + [(4, 1)];
    var e5 := e4 + [(2, 3)];
    var e6 := e5 + [(3, 1)];
    EdgeAdded(e0, (5, 2));
    EdgeAdded(e1, (5, 0));
    EdgeAdded(e2, (4, 0));
    EdgeAdded(e3, (4, 1));
    EdgeAdded(e4, (2, 3));
    EdgeAdded(e5, (3, 1));
    assert e6 == ExampleEdges;
  }

  /** The successor lists of vertices 3, 4 and 5 of the example graph. */
  lemma ExampleSuccessorsHigh()
    ensures Successors(ExampleEdges, 3) == [1] && Successors(ExampleEdges, 4) == [0, 1]
    ensures Successors(ExampleEdges, 5) == [2, 0]
  {
    var e0: seq<Edge> := [];
    var e1 := e0 + [(5, 2)];
    var e2 := e1 + [(5, 0)];
    var e3 := e2 + [(4, 0)];
    var e4 := e3 + [(4, 1)];
    var e5 := e4 + [(2, 3)];
    var e6 := e5 + [(3, 1)];
    EdgeAdded(e0, (5, 2));
    EdgeAdded(e1, (5, 0));
    EdgeAdded(e2, (4, 0));
    EdgeAdded(e3, (4, 1));
    EdgeAdded(e4, (2, 3));
    EdgeAdded(e5, (3, 1));
    assert e6 == ExampleEdges;
  }

  /** The adjacency lists of the example graph. */
  lemma ExampleAdjacencyLists()
    ensures Adjacency(6, ExampleEdges) == ExampleAdjacency
  {
    ExampleSuccessorsLow();
    ExampleSuccessorsHigh();
    var adj := Adjacency(6, ExampleEdges);
    assert adj[0] == [] && adj[1] == [] && adj[2] == [3];
    assert adj[3] == [1] && adj[4] == [0, 1] && adj[5] == [2, 0];
  }

  /** The in-degrees of the example graph, counted one edge at a time. */
  lemma ExampleInDegrees()
    ensures InDegrees(6, ExampleEdges) == [2, 2, 1, 1, 0, 0]
  {
    var e0: seq<Edge> := [];
    var e1 := e0 + [(5, 2)];
    var e2 := e1 + [(5, 0)];
    var e3 := e2 + [(4, 0)];
    var e4 := e3 + [(4, 1)];
    var e5 := e4 + [(2, 3)];
    var e6 := e5 + [(3, 1)];
    EdgeAdded(e0, (5, 2));
    EdgeAdded(e1, (5, 0));
    EdgeAdded(e2, (4, 0));
    EdgeAdded(e3, (4, 1));
    EdgeAdded(e4, (2, 3));
    EdgeAdded(e5, (3, 1));
    assert e6 == ExampleEdges;
    var d := InDegrees(6, e6);
    assert d[0] == 2 && d[1] == 2 && d[2] == 1;
    assert d[3] == 1 && d[4] == 0 && d[5] == 0;
  }

  /** The first three iterations of the main loop on the example: 4, 5 and 2 are emitted. */
  lemma ExampleRunFirstHalf()
    ensures WellFormed(ExampleAdjacency, KahnState([2, 2, 1, 1, 0, 0], [4, 5], []))
    ensures Run(ExampleAdjacency, KahnState([2, 2, 1, 1, 0, 0], [4, 5], []), 6) ==
            Run(ExampleAdjacency, KahnState([0, 1, 0, 0, 0, 0], [0, 3], [4, 5, 2]), 3)
  {
    var adj := ExampleAdjacency;
    var s0 := KahnState([2, 2, 1, 1, 0, 0], [4, 5], []);
    var s1 := KahnState([1, 1, 1, 1, 0, 0], [5], [4]);
    var s2 := KahnState([0, 1, 0, 1, 0, 0], [2, 0], [4, 5]);
    var s3 := KahnState([0, 1, 0, 0, 0, 0], [0, 3], [4, 5, 2]);
    assert WellFormed(adj, s0);
    assert Step(adj, s0) == s1;
    assert Step(adj, s1) == s2;
    assert Step(adj, s2) == s3;
  }

  /** The last three iterations of the main loop on the example: 0, 3 and 1 are emitted. */
  lemma ExampleRunSecondHalf()
    ensures WellFormed(ExampleAdjacency, KahnState([0, 1, 0, 0, 0, 0], [0, 3], [4, 5, 2]))
    ensures Run(ExampleAdjacency, KahnState([0, 1, 0, 0, 0, 0], [0, 3], [4, 5, 2]), 3) ==
            KahnState([0, 0, 0, 0, 0, 0], [], [4, 5, 2, 0, 3, 1])
  {
    var adj := ExampleAdjacency;
    var s3 := KahnState([0, 1, 0, 0, 0, 0], [0, 3], [4, 5, 2]);
    var s4 := KahnState([0, 1, 0, 0, 0, 0], [3], [4, 5, 2, 0]);
    var s5 := KahnState([0, 0, 0, 0, 0, 0], [1], [4, 5, 2, 0, 3]);
    var s6 := KahnState([0, 0, 0, 0, 0, 0], [], [4, 5, 2, 0, 3, 1]);
    assert WellFormed(adj, s3);
    assert Step(adj, s3) == s4;
    assert Step(adj, s4) == s5;
    assert Step(adj, s5) == s6;
  }

  /** The queue the example starts from: the vertices 4 and 5 of in-degree 0. */
  lemma ExampleQueue()
    ensures ZeroVertices([2, 2, 1, 1, 0, 0]) == [4, 5]
  {
    var d: seq<int> := [2, 2, 1, 1, 0, 0];
    assert d[..6][..5] == d[..5] && d[..5][..4] == d[..4] && d[..4][..3] == d[..3];
    assert d[..3][..2] == d[..2] && d[..2][..1] == d[..1] && d[..1][..0] == [];
    assert ZeroVertices(d[..1]) == [];
    assert ZeroVertices(d[..2]) == [];
    assert ZeroVertices(d[..3]) == [];
    assert ZeroVertices(d[..4]) == [];
    assert ZeroVertices(d[..5]) == [4];
    assert d[..6] == d;
  }

  /** On the example graph the sort returns [4, 5, 2, 0, 3, 1]. */
  lemma ExampleOrder()
    ensures KahnSort(6, ExampleEdges) == Order([4, 5, 2, 0, 3, 1])
  {
    MissingTargetIsFirst(6, ExampleEdges);
    assert TargetsInRange(6, ExampleEdges);
    ExampleAdjacencyLists();
    ExampleInDegrees();
    ExampleQueue();
    ExampleRunFirstHalf();
    ExampleRunSecondHalf();
  }
}
