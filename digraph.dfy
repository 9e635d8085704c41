/** Directed graphs given as a list of edges over the vertices 0 .. n-1:
    edge counts, adjacency lists, cycles, permutations and topological orders. */
module Digraph {

  /** A directed edge (u, v), from u to v. */
  type Edge = (int, int)

  /** Every edge has both endpoints among the vertices 0 .. n-1. */
  predicate ValidEdges(n: int, edges: seq<Edge>)
  {
    forall k :: 0 <= k < |edges| ==> 0 <= edges[k].0 < n && 0 <= edges[k].1 < n
  }

  /** Every edge ends at one of the vertices 0 .. n-1 (its source may lie outside). */
  predicate TargetsInRange(n: int, edges: seq<Edge>)
  {
    forall k :: 0 <= k < |edges| ==> 0 <= edges[k].1 < n
  }

  /** All elements of s are vertices 0 .. n-1. */
  predicate InRange(s: seq<int>, n: int)
  {
    forall i :: 0 <= i < |s| ==> 0 <= s[i] < n
  }

  /** No element occurs twice in s. */
  predicate Distinct(s: seq<int>)
  {
    forall i, j :: 0 <= i < j < |s| ==> s[i] != s[j]
  }

  /** The targets of the edges leaving u, in the order the edges are listed. */
  function Successors(edges: seq<Edge>, u: int): seq<int>
  {
    if edges == [] then []
    else
      var e := edges[|edges| - 1];
      Successors(edges[..|edges| - 1], u) + if e.0 == u then [e.1] else []
  }

  /** The number of edges entering v, each duplicate counted. */
  function InDegree(edges: seq<Edge>, v: int): nat
  {
    if edges == [] then 0
    else InDegree(edges[..|edges| - 1], v) + if edges[|edges| - 1].1 == v then 1 else 0
  }

  /** The number of edges entering v whose source is not in done. */
  function Remaining(edges: seq<Edge>, done: seq<int>, v: int): nat
  {
    if edges == [] then 0
    else
      var e := edges[|edges| - 1];
      Remaining(edges[..|edges| - 1], done, v) + if e.1 == v && e.0 !in done then 1 else 0
  }

  /** Listing one more edge extends the source's adjacency list and the target's in-degree. */
  lemma EdgeAdded(edges: seq<Edge>, e: Edge)
    ensures forall u :: Successors(edges + [e], u) == Successors(edges, u) + if e.0 == u then [e.1] else []
    ensures forall v :: InDegree(edges + [e], v) == InDegree(edges, v) + if e.1 == v then 1 else 0
  {
    assert (edges + [e])[..|edges|] == edges;
  }

  /** The positions in the edge list of the edges entering v. */
  function EdgesInto(edges: seq<Edge>, v: int): set<int>
  {
    set k | 0 <= k < |edges| && edges[k].1 == v
  }

  /** The in-degree of v counts the edges entering v, each listed occurrence once. */
  lemma {:induction false} InDegreeCountsEdges(edges: seq<Edge>, v: int)
    ensures InDegree(edges, v) == |EdgesInto(edges, v)|
  {
    if edges != [] {
      var init := edges[..|edges| - 1];
      var last := |edges| - 1;
      InDegreeCountsEdges(init, v);
      assert forall k :: 0 <= k < |init| ==> init[k] == edges[k];
      if edges[last].1 == v {
        assert EdgesInto(edges, v) == EdgesInto(init, v) + {last};
      } else {
        assert EdgesInto(edges, v) == EdgesInto(init, v);
      }
    }
  }

  /** Every adjacency list names only vertices of the graph. */
  lemma {:induction false} SuccessorsInRange(n: int, edges: seq<Edge>, u: int)
    requires TargetsInRange(n, edges)
    ensures InRange(Successors(edges, u), n)
  {
    if edges != [] {
      SuccessorsInRange(n, edges[..|edges| - 1], u);
    }
  }

  /** With nothing emitted yet, the remaining in-degree is the in-degree. */
  lemma {:induction false} RemainingWithNoneDone(edges: seq<Edge>, v: int)
    ensures Remaining(edges, [], v) == InDegree(edges, v)
  {
    if edges != [] {
      RemainingWithNoneDone(edges[..|edges| - 1], v);
    }
  }

  /** No edge from outside done enters v exactly when every edge entering v starts in done. */
  lemma {:induction false} RemainingZero(edges: seq<Edge>, done: seq<int>, v: int)
    ensures Remaining(edges, done, v) == 0 <==>
            forall k :: 0 <= k < |edges| && edges[k].1 == v ==> edges[k].0 in done
  {
    if edges != [] {
      var init := edges[..|edges| - 1];
      RemainingZero(init, done, v);
      assert forall k :: 0 <= k < |init| ==> init[k] == edges[k];
    }
  }

  /** Emitting node removes from v's remaining in-degree exactly the edges node -> v. */
  lemma {:induction false} RemainingAfterEmit(edges: seq<Edge>, done: seq<int>, node: int, v: int)
    requires node !in done
    ensures Remaining(edges, done, v) ==
            Remaining(edges, done + [node], v) + multiset(Successors(edges, node))[v]
  {
    if edges != [] {
      RemainingAfterEmit(edges[..|edges| - 1], done, node, v);
    }
  }

  /** Each vertex of w has an edge to the next one. */
  ghost predicate IsWalk(edges: seq<Edge>, w: seq<int>)
  {
    forall i :: 0 <= i < |w| - 1 ==> (w[i], w[i + 1]) in edges
  }

  /** c is a closed walk: a walk with an edge from its last vertex back to its first. */
  ghost predicate IsCycle(edges: seq<Edge>, c: seq<int>)
  {
    |c| > 0 && IsWalk(edges, c) && (c[|c| - 1], c[0]) in edges
  }

  ghost predicate HasCycle(edges: seq<Edge>)
  {
    exists c :: IsCycle(edges, c)
  }

  /** s lists each of the vertices 0 .. n-1 exactly once. */
  ghost predicate IsPermutation(s: seq<int>, n: int)
  {
    |s| == n && Distinct(s) && forall x :: x in s <==> 0 <= x < n
  }

  /** s is a permutation of the vertices in which every edge goes forward. */
  ghost predicate IsTopologicalOrder(s: seq<int>, n: int, edges: seq<Edge>)
  {
    IsPermutation(s, n) &&
    forall i, j :: 0 <= i < |s| && 0 <= j < |s| && (s[i], s[j]) in edges ==> i < j
  }

  /** u occurs in s at an earlier position than v. */
  ghost predicate Precedes(s: seq<int>, u: int, v: int)
  {
    exists i, j :: 0 <= i < j < |s| && s[i] == u && s[j] == v
  }

  /** In a topological order the source of every edge appears before its target. */
  lemma TopologicalOrderPlacesSourceFirst(s: seq<int>, n: int, edges: seq<Edge>)
    requires ValidEdges(n, edges)
    requires IsTopologicalOrder(s, n, edges)
    ensures forall k :: 0 <= k < |edges| ==> Precedes(s, edges[k].0, edges[k].1)
  {
    forall k | 0 <= k < |edges| ensures Precedes(s, edges[k].0, edges[k].1) {
      var (u, v) := edges[k];
      assert u in s && v in s;
      var i :| 0 <= i < |s| && s[i] == u;
      var j :| 0 <= j < |s| && s[j] == v;
      assert edges[k] == (s[i], s[j]);
    }
  }

  /** Range(n) is the set of vertices 0 .. n-1. */
  function Range(n: nat): (r: set<int>)
    ensures forall x :: x in r <==> 0 <= x < n
    ensures |r| == n
  {
    if n == 0 then {} else Range(n - 1) + {n - 1}
  }

  /** Pigeonhole: a duplicate-free sequence drawn from t is no longer than t. */
  lemma {:induction false} DistinctBound(s: seq<int>, t: set<int>)
    requires Distinct(s)
    requires forall i :: 0 <= i < |s| ==> s[i] in t
    ensures |s| <= |t|
  {
    if s != [] {
      var rest := s[1..];
      assert forall i :: 0 <= i < |rest| ==> rest[i] == s[i + 1];
      DistinctBound(rest, t - {s[0]});
    }
  }

  /** The set of the elements of s has at most |s| members. */
  lemma {:induction false} ElementsBound(s: seq<int>)
    ensures |set x | x in s| <= |s|
  {
    if s != [] {
      ElementsBound(s[1..]);
      assert (set x | x in s) == (set x | x in s[1..]) + {s[0]};
    }
  }

  /** A duplicate-free sequence of vertices has at most n elements, and it covers
      all n vertices exactly when it has n elements. */
  lemma VerticesCovered(s: seq<int>, n: nat)
    requires Distinct(s) && InRange(s, n)
    ensures |s| <= n
    ensures |s| == n <==> forall x :: 0 <= x < n ==> x in s
  {
    DistinctBound(s, Range(n));
    if |s| == n {
      forall x | 0 <= x < n ensures x in s {
        if x !in s {
          DistinctBound(s, Range(n) - {x});
        }
      }
    }
    if forall x :: 0 <= x < n ==> x in s {
      var all := seq(n, i => i);
      ElementsBound(s);
      DistinctBound(all, set x | x in s);
    }
  }

  /** The first position of x in s. */
  function IndexOf(s: seq<int>, x: int): (i: nat)
    requires x in s
    ensures i < |s| && s[i] == x
  {
    if s[0] == x then 0 else 1 + IndexOf(s[1..], x)
  }

  /** Along a walk whose every edge goes forward in a topological order, positions increase. */
  lemma WalkGoesForward(s: seq<int>, n: int, edges: seq<Edge>, c: seq<int>)
    requires ValidEdges(n, edges)
    requires IsTopologicalOrder(s, n, edges)
    requires |c| > 0 && IsWalk(edges, c) && c[0] in s
    ensures forall i :: 0 <= i < |c| ==> c[i] in s && IndexOf(s, c[0]) <= IndexOf(s, c[i])
  {
    var i := 1;
    while i < |c|
      invariant 1 <= i <= |c|
      invariant forall k :: 0 <= k < i ==> c[k] in s && IndexOf(s, c[0]) <= IndexOf(s, c[k])
    {
      var e := (c[i - 1], c[i]);
      assert e in edges;
      var k :| 0 <= k < |edges| && edges[k] == e;
      assert c[i] in s;
      var a, b := IndexOf(s, c[i - 1]), IndexOf(s, c[i]);
      assert (s[a], s[b]) in edges;
      i := i + 1;
    }
  }

  /** A graph that has a topological order has no cycle. */
  lemma TopologicalOrderHasNoCycle(s: seq<int>, n: int, edges: seq<Edge>)
    requires ValidEdges(n, edges)
    requires IsTopologicalOrder(s, n, edges)
    ensures !HasCycle(edges)
  {
    forall c | IsCycle(edges, c) ensures false {
      ClosingEdgeGoesForward(s, n, edges, c);
      WalkGoesForward(s, n, edges, c);
    }
  }

  /** The edge that closes a cycle goes forward in a topological order. */
  lemma ClosingEdgeGoesForward(s: seq<int>, n: int, edges: seq<Edge>, c: seq<int>)
    requires ValidEdges(n, edges)
    requires IsTopologicalOrder(s, n, edges)
    requires IsCycle(edges, c)
    ensures c[0] in s && c[|c| - 1] in s
    ensures IndexOf(s, c[|c| - 1]) < IndexOf(s, c[0])
  {
    var last := |c| - 1;
    var k :| 0 <= k < |edges| && edges[k] == (c[last], c[0]);
    assert c[0] in s && c[last] in s;
    var a, b := IndexOf(s, c[last]), IndexOf(s, c[0]);
    assert (s[a], s[b]) in edges;
  }

  /** When every vertex outside done still has an edge from outside done, one can walk
      backwards from any such vertex for as long as one likes without entering done. */
  lemma {:induction false} BackwardWalk(n: int, edges: seq<Edge>, done: seq<int>, x: int, len: nat)
    returns (w: seq<int>)
    requires ValidEdges(n, edges)
    requires 0 <= x < n && x !in done
    requires forall y :: 0 <= y < n && y !in done ==> Remaining(edges, done, y) > 0
    ensures |w| == len + 1 && w[len] == x && InRange(w, n)
    ensures IsWalk(edges, w)
    decreases len
  {
    if len == 0 {
      w := [x];
    } else {
      RemainingZero(edges, done, x);
      var k :| 0 <= k < |edges| && edges[k].1 == x && edges[k].0 !in done;
      var prev := BackwardWalk(n, edges, done, edges[k].0, len - 1);
      w := prev + [x];
      assert (w[len - 1], w[len]) == edges[k];
    }
  }

  /** If some vertex is not in done and every vertex outside done has an edge entering it
      from outside done, the graph has a cycle. */
  lemma StuckImpliesCycle(n: int, edges: seq<Edge>, done: seq<int>, x: int)
    requires ValidEdges(n, edges)
    requires 0 <= x < n && x !in done
    requires forall y :: 0 <= y < n && y !in done ==> Remaining(edges, done, y) > 0
    ensures HasCycle(edges)
  {
    var w := BackwardWalk(n, edges, done, x, n);
    if Distinct(w) {
      DistinctBound(w, Range(n));
    }
    var i, j :| 0 <= i < j < |w| && w[i] == w[j];
    var c := w[i..j];
    forall t | 0 <= t < |c| - 1 ensures (c[t], c[t + 1]) in edges {
      assert (w[i + t], w[i + t + 1]) in edges;
    }
    assert (w[j - 1], w[j]) in edges;
    assert IsCycle(edges, c);
  }
}
