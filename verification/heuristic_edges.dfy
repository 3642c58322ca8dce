/**
  `heuristic_path(n, edges)` (src/algorithms/heuristic.py): the same greedy walk as
  `heuristic_hamiltonian_path`, written imperatively over an edge list, trying the start
  vertices in ascending order and growing each walk `while len(path) < n`.

  The method below keeps the Python loops; its contract says it computes exactly the
  functional walk of module `Heuristic` with the identity start order `Range(n)`.
 */
module HeuristicEdges {
  import opened Basics
  import opened Graphs
  import H = Heuristic
  import EB = EdgeBacktracking

  /** `list(range(n))` is one of the orders a shuffle can produce. */
  lemma RangeIsPermutation(n: nat)
    ensures H.IsPermutation(n, Range(n))
  {
  }

  /** `[v for v in adj[current] if v not in visited]`, as a loop. */
  method CollectCandidates(nbrs: seq<Vertex>, path: seq<Vertex>, visited: set<Vertex>) returns (c: seq<Vertex>)
    requires forall x :: x in visited <==> x in path
    ensures c == H.CandidatesOf(nbrs, path)
  {
    c := [];
    var i := 0;
    while i < |nbrs|
      invariant i <= |nbrs|
      invariant c == H.CandidatesOf(nbrs[..i], path)
    {
      assert nbrs[..i + 1][..i] == nbrs[..i];
      if nbrs[i] !in visited {
        c := c + [nbrs[i]];
      }
      i := i + 1;
    }
    assert nbrs[..i] == nbrs;
  }

  /** `min(candidates, key=lambda x: len(adj[x]))`, as a left-to-right scan. */
  method PickMinDegree(adj: Adjacency, c: seq<Vertex>) returns (x: Vertex)
    requires |c| > 0 && InRange(|adj|, c)
    ensures x == H.MinByDegree(adj, c)
  {
    x := c[0];
    var i := 1;
    assert c[..1] == [c[0]];
    while i < |c|
      invariant 1 <= i <= |c|
      invariant x == H.MinByDegree(adj, c[..i])
    {
      MinByDegreeSnoc(adj, c, i);
      if |adj[c[i]]| < |adj[x]| {
        x := c[i];
      }
      i := i + 1;
    }
    assert c[..i] == c;
  }

  /** One more candidate scanned: it replaces the best so far only with a strictly smaller degree. */
  lemma MinByDegreeSnoc(adj: Adjacency, c: seq<Vertex>, i: nat)
    requires 0 < i < |c| && InRange(|adj|, c)
    ensures var best := H.MinByDegree(adj, c[..i]);
      H.MinByDegree(adj, c[..i + 1]) == if |adj[c[i]]| < |adj[best]| then c[i] else best
  {
    assert c[..i + 1][..i] == c[..i];
  }

  /** The adjacency dictionary built by the first loop of `heuristic_path`. */
  method BuildAdjacency(n: nat, edges: seq<Edge>) returns (adj: Adjacency)
    requires EdgesInRange(n, edges)
    ensures adj == AdjFromEdges(n, edges)
  {
    adj := EmptyAdjacency(n);
    var k := 0;
    while k < |edges|
      invariant k <= |edges|
      invariant EdgesInRange(n, edges[..k])
      invariant adj == AdjFromEdges(n, edges[..k])
    {
      assert edges[..k + 1][..k] == edges[..k];
      var (u, v) := edges[k];
      adj := adj[u := adj[u] + [v]];
      adj := adj[v := adj[v] + [u]];
      k := k + 1;
    }
    assert edges[..k] == edges;
  }

  /** The `while len(path) < n` walk from `start`. */
  method WalkFrom(n: nat, adj: Adjacency, start: Vertex) returns (path: seq<Vertex>)
    requires WellFormed(n, adj) && start < n
    ensures path == H.WalkFrom(n, adj, start)
  {
    path := [start];
    var visited := {start};
    var current := start;
    ghost var fuel: nat := n - 1;
    assert SimplePath(n, adj, path);
    while |path| < n
      invariant SimplePath(n, adj, path) && 0 < |path| <= n && fuel == n - |path|
      invariant current == Last(path)
      invariant forall x :: x in visited <==> x in path
      invariant H.Walk(n, adj, path, fuel) == H.WalkFrom(n, adj, start)
      decreases fuel
    {
      var candidates := CollectCandidates(adj[current], path, visited);
      if candidates == [] {
        H.WalkStops(n, adj, path, fuel);
        break;
      }
      var next := PickMinDegree(adj, candidates);
      ghost var p := H.WalkUnfold(n, adj, path, fuel);
      path := path + [next];
      assert path == p;
      visited := visited + {next};
      current := next;
      fuel := fuel - 1;
    }
    H.WalkStops(n, adj, path, fuel);
  }

  /** `heuristic_path(n, edges)`. */
  method HeuristicPath(n: nat, edges: seq<Edge>) returns (r: Option<seq<Vertex>>)
    requires EdgesInRange(n, edges)
    ensures r == H.HeuristicHamiltonianPath(n, AdjFromEdges(n, edges), Range(n))
    ensures r.Some? ==> IsHamiltonianPath(n, AdjFromEdges(n, edges), r.value)
    ensures n == 0 ==> r.None?
  {
    var adj := BuildAdjacency(n, edges);
    RangeIsPermutation(n);
    var start := 0;
    while start < n
      invariant start <= n
      invariant H.TryStarts(n, adj, Range(n)[start..]) == H.TryStarts(n, adj, Range(n))
    {
      var path := WalkFrom(n, adj, start);
      assert Range(n)[start..][0] == start;
      if |path| == n {
        return Some(path);
      }
      assert Range(n)[start..][1..] == Range(n)[start + 1..];
      start := start + 1;
    }
    return None;
  }

  /**
    The heuristic never finds a path the exact search misses: when `heuristic_path`
    succeeds, `find_hamiltonian_path_bt` on the same input succeeds too.
   */
  lemma HeuristicImpliesExact(n: nat, edges: seq<Edge>)
    requires EdgesInRange(n, edges)
    requires H.HeuristicHamiltonianPath(n, AdjFromEdges(n, edges), Range(n)).Some?
    ensures EB.FindHamiltonianPathBt(n, edges, false).0.Some?
  {
    RangeIsPermutation(n);
    H.HeuristicSuccessImpliesPath(n, AdjFromEdges(n, edges), Range(n));
  }
}
