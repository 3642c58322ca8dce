/**
  Undirected graphs as the Python code holds them: `n` vertices `0..n-1` and an
  adjacency list `adj[v]` whose order matters (both searches scan it left to right).
  Also the edge-list-to-adjacency conversion shared by `find_hamiltonian_path_bt`,
  `heuristic_path` and `load_graph`.
 */
module Graphs {
  import opened Basics

  type Vertex = nat
  type Adjacency = seq<seq<Vertex>>
  type Edge = (Vertex, Vertex)

  /** `adj` has one list per vertex and mentions only vertices of the graph. */
  predicate WellFormed(n: nat, adj: Adjacency) {
    && |adj| == n
    && forall v, i :: 0 <= v < n && 0 <= i < |adj[v]| ==> adj[v][i] < n
  }

  /** A walk without repeated vertices, each step following the adjacency list. */
  predicate SimplePath(n: nat, adj: Adjacency, q: seq<Vertex>) {
    && |adj| == n
    && InRange(n, q)
    && Distinct(q)
    && forall i :: 0 <= i < |q| - 1 ==> q[i + 1] in adj[q[i]]
  }

  /** Stepping from the last vertex to an unvisited neighbour keeps the path simple. */
  lemma ExtendSimplePath(n: nat, adj: Adjacency, q: seq<Vertex>, u: Vertex)
    requires SimplePath(n, adj, q) && |q| > 0 && u < n && u !in q && u in adj[Last(q)]
    ensures SimplePath(n, adj, q + [u])
  {
    var q' := q + [u];
    forall i, j | 0 <= i < j < |q'| ensures q'[i] != q'[j] {
      if j == |q| { assert q'[i] in q; }
    }
    forall i | 0 <= i < |q'| - 1 ensures q'[i + 1] in adj[q'[i]] {
      if i == |q| - 1 { assert q'[i] == Last(q); }
    }
  }

  /** Visits every one of the `n` vertices exactly once. */
  predicate IsHamiltonianPath(n: nat, adj: Adjacency, p: seq<Vertex>) {
    |p| == n && SimplePath(n, adj, p)
  }

  ghost predicate HasHamiltonianPath(n: nat, adj: Adjacency) {
    exists p :: IsHamiltonianPath(n, adj, p)
  }

  predicate EdgesInRange(n: nat, edges: seq<Edge>) {
    forall k :: 0 <= k < |edges| ==> edges[k].0 < n && edges[k].1 < n
  }

  /** `{i: [] for i in range(n)}` / `[[] for _ in range(n)]`. */
  function EmptyAdjacency(n: nat): (adj: Adjacency)
    ensures |adj| == n && WellFormed(n, adj)
  {
    seq(n, _ => [])
  }

  /** `adj[u].append(v); adj[v].append(u)`, in that order. */
  function AddEdge(adj: Adjacency, e: Edge): (r: Adjacency)
    requires e.0 < |adj| && e.1 < |adj|
    ensures |r| == |adj|
  {
    var a := adj[e.0 := adj[e.0] + [e.1]];
    a[e.1 := a[e.1] + [e.0]]
  }

  /** The adjacency built by the loop `for u, v in edges: ...`, after every edge. */
  function AdjFromEdges(n: nat, edges: seq<Edge>): (adj: Adjacency)
    requires EdgesInRange(n, edges)
    ensures WellFormed(n, adj)
  {
    if edges == [] then EmptyAdjacency(n)
    else AddEdge(AdjFromEdges(n, edges[..|edges| - 1]), Last(edges))
  }

  /** What one edge contributes to the list of `u`: the other endpoint, twice for a loop. */
  function Contribution(u: Vertex, e: Edge): seq<Vertex> {
    (if e.0 == u then [e.1] else []) + (if e.1 == u then [e.0] else [])
  }

  /** Reference definition: the neighbours of `u`, in the order the edges list them. */
  function NeighboursOf(u: Vertex, edges: seq<Edge>): seq<Vertex> {
    if edges == [] then []
    else NeighboursOf(u, edges[..|edges| - 1]) + Contribution(u, Last(edges))
  }

  lemma AddEdgeAt(adj: Adjacency, e: Edge, u: Vertex)
    requires e.0 < |adj| && e.1 < |adj| && u < |adj|
    ensures AddEdge(adj, e)[u] == adj[u] + Contribution(u, e)
  {
  }

  /** The adjacency list of `u` is the edge-order list of its neighbours. */
  lemma {:induction false} AdjFromEdgesNeighbours(n: nat, edges: seq<Edge>, u: Vertex)
    requires EdgesInRange(n, edges) && u < n
    ensures AdjFromEdges(n, edges)[u] == NeighboursOf(u, edges)
  {
    if edges != [] {
      var init := edges[..|edges| - 1];
      assert EdgesInRange(n, init);
      AdjFromEdgesNeighbours(n, init, u);
      AddEdgeAt(AdjFromEdges(n, init), Last(edges), u);
    }
  }

  lemma {:induction false} NeighboursInRange(n: nat, edges: seq<Edge>, u: Vertex)
    requires EdgesInRange(n, edges)
    ensures InRange(n, NeighboursOf(u, edges))
  {
    if edges != [] {
      var init := edges[..|edges| - 1];
      assert EdgesInRange(n, init);
      NeighboursInRange(n, init, u);
    }
  }

  lemma {:induction false} NeighbourCountSymmetric(edges: seq<Edge>, u: Vertex, v: Vertex)
    ensures multiset(NeighboursOf(u, edges))[v] == multiset(NeighboursOf(v, edges))[u]
  {
    if edges != [] {
      var init := edges[..|edges| - 1];
      var e := Last(edges);
      NeighbourCountSymmetric(init, u, v);
      assert multiset(NeighboursOf(u, edges)) == multiset(NeighboursOf(u, init)) + multiset(Contribution(u, e));
      assert multiset(NeighboursOf(v, edges)) == multiset(NeighboursOf(v, init)) + multiset(Contribution(v, e));
      ContributionSymmetric(e, u, v);
    }
  }

  lemma ContributionSymmetric(e: Edge, u: Vertex, v: Vertex)
    ensures multiset(Contribution(u, e))[v] == multiset(Contribution(v, e))[u]
  {
    assert multiset(Contribution(u, e)) == multiset(if e.0 == u then [e.1] else []) + multiset(if e.1 == u then [e.0] else []);
    assert multiset(Contribution(v, e)) == multiset(if e.0 == v then [e.1] else []) + multiset(if e.1 == v then [e.0] else []);
  }

  /**
    The adjacency is symmetric as a multiset: `v` occurs in `adj[u]` exactly as often as
    `u` occurs in `adj[v]` (so in particular `v in adj[u] <==> u in adj[v]`).
   */
  lemma AdjFromEdgesSymmetric(n: nat, edges: seq<Edge>, u: Vertex, v: Vertex)
    requires EdgesInRange(n, edges) && u < n && v < n
    ensures multiset(AdjFromEdges(n, edges)[u])[v] == multiset(AdjFromEdges(n, edges)[v])[u]
    ensures v in AdjFromEdges(n, edges)[u] <==> u in AdjFromEdges(n, edges)[v]
  {
    AdjFromEdgesNeighbours(n, edges, u);
    AdjFromEdgesNeighbours(n, edges, v);
    NeighbourCountSymmetric(edges, u, v);
    var adj := AdjFromEdges(n, edges);
    assert v in adj[u] <==> v in multiset(adj[u]);
    assert u in adj[v] <==> u in multiset(adj[v]);
  }

  /** `u` and `v` are joined by some line of the edge list, in either orientation. */
  predicate Joined(edges: seq<Edge>, u: Vertex, v: Vertex) {
    exists k :: 0 <= k < |edges| && (edges[k] == (u, v) || edges[k] == (v, u))
  }

  /** `v` is listed as a neighbour of `u` exactly when an edge joins them. */
  lemma {:induction false} NeighboursOfJoined(edges: seq<Edge>, u: Vertex, v: Vertex)
    ensures v in NeighboursOf(u, edges) <==> Joined(edges, u, v)
  {
    if edges != [] {
      var init := edges[..|edges| - 1];
      var e := Last(edges);
      NeighboursOfJoined(init, u, v);
      assert v in Contribution(u, e) <==> e == (u, v) || e == (v, u);
      if Joined(init, u, v) {
        var k :| 0 <= k < |init| && (init[k] == (u, v) || init[k] == (v, u));
        assert edges[k] == init[k];
      }
      if Joined(edges, u, v) && !(e == (u, v) || e == (v, u)) {
        var k :| 0 <= k < |edges| && (edges[k] == (u, v) || edges[k] == (v, u));
        assert k < |init| && init[k] == edges[k];
      }
    }
  }

  /** In the built adjacency, `v` is a neighbour of `u` iff some input edge joins them. */
  lemma AdjFromEdgesJoined(n: nat, edges: seq<Edge>, u: Vertex, v: Vertex)
    requires EdgesInRange(n, edges) && u < n
    ensures v in AdjFromEdges(n, edges)[u] <==> Joined(edges, u, v)
  {
    AdjFromEdgesNeighbours(n, edges, u);
    NeighboursOfJoined(edges, u, v);
  }

  /** Sum of the lengths of all adjacency lists. */
  function TotalDegree(adj: Adjacency): nat {
    if adj == [] then 0 else TotalDegree(adj[..|adj| - 1]) + |Last(adj)|
  }

  lemma {:induction false} TotalDegreeUpdate(adj: Adjacency, i: nat, s: seq<Vertex>)
    requires i < |adj|
    ensures TotalDegree(adj[i := s]) == TotalDegree(adj) - |adj[i]| + |s|
  {
    var a := adj[i := s];
    if i == |adj| - 1 {
      assert a[..|a| - 1] == adj[..|adj| - 1];
    } else {
      assert a[..|a| - 1] == adj[..|adj| - 1][i := s];
      TotalDegreeUpdate(adj[..|adj| - 1], i, s);
    }
  }

  /** Every edge line adds two list entries: the degrees sum to twice the edge count. */
  lemma {:induction false} AdjFromEdgesTotalDegree(n: nat, edges: seq<Edge>)
    requires EdgesInRange(n, edges)
    ensures TotalDegree(AdjFromEdges(n, edges)) == 2 * |edges|
  {
    if edges == [] {
      EmptyTotalDegree(n);
    } else {
      var init := edges[..|edges| - 1];
      var e := Last(edges);
      assert EdgesInRange(n, init);
      AdjFromEdgesTotalDegree(n, init);
      var adj := AdjFromEdges(n, init);
      var a := adj[e.0 := adj[e.0] + [e.1]];
      TotalDegreeUpdate(adj, e.0, adj[e.0] + [e.1]);
      TotalDegreeUpdate(a, e.1, a[e.1] + [e.0]);
    }
  }

  lemma {:induction false} EmptyTotalDegree(n: nat)
    ensures TotalDegree(EmptyAdjacency(n)) == 0
  {
    if n > 0 {
      assert EmptyAdjacency(n)[..n - 1] == EmptyAdjacency(n - 1);
      EmptyTotalDegree(n - 1);
    }
  }
}
