/**
  `find_hamiltonian_path_bt` (src/algorithms/backtracking.py): the same depth-first search
  as `hamiltonian_path_backtracking`, on a graph given as an edge list, with a call counter
  `stats["steps"]` that is shared by all starts and never reset.

  Python's `return path, stats if collect_stats else path` parses as
  `(path, (stats if collect_stats else path))`, so the function always returns a pair;
  `Aux` is its second component.
 */
module EdgeBacktracking {
  import opened Basics
  import opened Graphs
  import B = Backtracking

  /** The second component of the returned pair: the stats dict, or the path again. */
  datatype Aux = Stats(steps: nat) | SamePath(path: Option<seq<Vertex>>)

  /** What `backtrack(u)` returns, the buffers it leaves, and the counter after it. */
  datatype Run = Run(found: bool, state: B.SearchState, steps: nat)

  /**
    One call `backtrack(u)`: count it, push `u`, succeed at length `n`, otherwise try the
    unvisited neighbours and pop on failure.
   */
  function Backtrack(n: nat, adj: Adjacency, u: Vertex, st: B.SearchState, steps: nat): (r: Run)
    requires WellFormed(n, adj) && B.Consistent(n, st)
    requires u < n && !st.visited[u] && |st.path| < n
    decreases n - |st.path| - 1, 1, 0
    ensures !r.found ==> r.state == st
    ensures r.steps > steps
  {
    B.MarkConsistent(n, st, u);
    var m := B.Mark(st, u);
    if |m.path| == n then Run(true, m, steps + 1)
    else
      var r := TryNeighbours(n, adj, adj[u], m, steps + 1);
      if r.found then r else Run(false, B.Unmark(r.state, u), r.steps)
  }

  /** `for v in adj[u]: if not visited[v]: if backtrack(v): return True`, over `nbrs`. */
  function TryNeighbours(n: nat, adj: Adjacency, nbrs: seq<Vertex>, st: B.SearchState, steps: nat): (r: Run)
    requires WellFormed(n, adj) && B.Consistent(n, st) && InRange(n, nbrs)
    requires 0 < |st.path| < n
    decreases n - |st.path|, 0, |nbrs|
    ensures !r.found ==> r.state == st
    ensures r.steps >= steps
  {
    if nbrs == [] then Run(false, st, steps)
    else if st.visited[nbrs[0]] then TryNeighbours(n, adj, nbrs[1..], st, steps)
    else
      var r := Backtrack(n, adj, nbrs[0], st, steps);
      if r.found then r else TryNeighbours(n, adj, nbrs[1..], r.state, r.steps)
  }

  /** At least one call per start tried: `steps + (n - start)` on failure, up to the path's root on success. */
  predicate BoundHolds(r: (Option<seq<Vertex>>, nat), n: nat, start: nat, steps: nat) {
    && (r.0.None? ==> r.1 >= steps + (n - start))
    && (r.0.Some? ==> |r.0.value| > 0 && start <= r.0.value[0] && r.1 >= steps + (r.0.value[0] - start + 1))
  }

  /**
    `for start in range(n)` from `start` on, each start with fresh buffers and the counter
    carried over: every start tried adds at least its own call, and a returned path
    begins at one of the starts tried.
   */
  function Starts(n: nat, adj: Adjacency, start: nat, steps: nat): (r: (Option<seq<Vertex>>, nat))
    requires WellFormed(n, adj) && start <= n
    decreases n - start
    ensures r.0 == B.Roots(n, adj, start, B.Fresh(n))
    ensures r.1 >= steps
    ensures BoundHolds(r, n, start, steps)
  {
    if start == n then (None, steps)
    else
      RootPathStarts(n, adj, start, steps);
      var o := Backtrack(n, adj, start, B.Fresh(n), steps);
      if o.found then (Some(o.state.path), o.steps) else Starts(n, adj, start + 1, o.steps)
  }

  /**
    `find_hamiltonian_path_bt(n, edges, collect_stats)`: the path is the one
    `hamiltonian_path_backtracking` finds on the adjacency built from `edges`; it is None
    exactly when there is no Hamiltonian path (or `n == 0`); a returned path runs along
    input edges.  With `collect_stats` the second component is the counter, which is at
    least `n` on failure and at least `p[0] + 1` on success; without it the second
    component is the path again.
   */
  function FindHamiltonianPathBt(n: nat, edges: seq<Edge>, collectStats: bool): (r: (Option<seq<Vertex>>, Aux))
    requires EdgesInRange(n, edges)
    ensures var adj := AdjFromEdges(n, edges);
      && r.0 == B.HamiltonianPathBacktracking(n, adj)
      && (r.0.None? <==> n == 0 || !HasHamiltonianPath(n, adj))
      && (r.0.Some? ==> IsHamiltonianPath(n, adj, r.0.value))
      && (r.0.Some? ==> forall i :: 0 <= i < n - 1 ==> Joined(edges, r.0.value[i], r.0.value[i + 1]))
      && (!collectStats ==> r.1 == SamePath(r.0))
      && (collectStats ==> r.1.Stats?)
      && (collectStats && r.0.None? ==> r.1.steps >= n)
      && (collectStats && r.0.Some? ==> r.1.steps >= r.0.value[0] + 1)
  {
    var adj := AdjFromEdges(n, edges);
    StartsCorrect(n, adj);
    var (path, steps) := Starts(n, adj, 0, 0);
    var r := (path, if collectStats then Stats(steps) else SamePath(path));
    if path.Some? then PathAlongEdges(n, edges, path.value); r else r
  }

  // ---------------------------------------------------------------------------
  // The counter does not influence the search: it finds what the plain search finds.

  /** `backtrack(u)` here and `backtrack(u, |path| + 1)` there agree on success and buffers. */
  predicate FrameAgrees(n: nat, adj: Adjacency, u: Vertex, st: B.SearchState, steps: nat)
    requires WellFormed(n, adj) && B.Consistent(n, st)
    requires u < n && !st.visited[u] && |st.path| < n
  {
    var r := Backtrack(n, adj, u, st, steps);
    var o := B.Backtrack(n, adj, u, |st.path| + 1, st);
    r.found == o.found && r.state == o.state
  }

  predicate LoopAgrees(n: nat, adj: Adjacency, nbrs: seq<Vertex>, st: B.SearchState, steps: nat)
    requires WellFormed(n, adj) && B.Consistent(n, st) && InRange(n, nbrs)
    requires 0 < |st.path| < n
  {
    var r := TryNeighbours(n, adj, nbrs, st, steps);
    var o := B.TryNeighbours(n, adj, |st.path|, nbrs, st);
    r.found == o.found && r.state == o.state
  }

  lemma {:induction false} BacktrackAgrees(n: nat, adj: Adjacency, u: Vertex, st: B.SearchState, steps: nat)
    requires WellFormed(n, adj) && B.Consistent(n, st)
    requires u < n && !st.visited[u] && |st.path| < n
    decreases n - |st.path| - 1, 1, 0
    ensures FrameAgrees(n, adj, u, st, steps)
  {
    B.MarkConsistent(n, st, u);
    var m := B.Mark(st, u);
    if |m.path| < n {
      TryNeighboursAgree(n, adj, adj[u], m, steps + 1);
    }
  }

  lemma {:induction false} TryNeighboursAgree(n: nat, adj: Adjacency, nbrs: seq<Vertex>, st: B.SearchState, steps: nat)
    requires WellFormed(n, adj) && B.Consistent(n, st) && InRange(n, nbrs)
    requires 0 < |st.path| < n
    decreases n - |st.path|, 0, |nbrs|
    ensures LoopAgrees(n, adj, nbrs, st, steps)
  {
    if nbrs != [] {
      if st.visited[nbrs[0]] {
        TryNeighboursAgree(n, adj, nbrs[1..], st, steps);
        SkipAgrees(n, adj, nbrs, st, steps);
      } else {
        var r := Backtrack(n, adj, nbrs[0], st, steps);
        BacktrackAgrees(n, adj, nbrs[0], st, steps);
        TryNeighboursAgree(n, adj, nbrs[1..], st, r.steps);
        EnterAgrees(n, adj, nbrs, st, steps);
      }
    }
  }

  lemma SkipAgrees(n: nat, adj: Adjacency, nbrs: seq<Vertex>, st: B.SearchState, steps: nat)
    requires WellFormed(n, adj) && B.Consistent(n, st) && InRange(n, nbrs)
    requires 0 < |st.path| < n
    requires nbrs != [] && st.visited[nbrs[0]]
    requires LoopAgrees(n, adj, nbrs[1..], st, steps)
    ensures LoopAgrees(n, adj, nbrs, st, steps)
  {
    assert TryNeighbours(n, adj, nbrs, st, steps) == TryNeighbours(n, adj, nbrs[1..], st, steps);
    assert B.TryNeighbours(n, adj, |st.path|, nbrs, st) == B.TryNeighbours(n, adj, |st.path|, nbrs[1..], st);
  }

  lemma EnterAgrees(n: nat, adj: Adjacency, nbrs: seq<Vertex>, st: B.SearchState, steps: nat)
    requires WellFormed(n, adj) && B.Consistent(n, st) && InRange(n, nbrs)
    requires 0 < |st.path| < n
    requires nbrs != [] && !st.visited[nbrs[0]]
    requires FrameAgrees(n, adj, nbrs[0], st, steps)
    requires LoopAgrees(n, adj, nbrs[1..], st, Backtrack(n, adj, nbrs[0], st, steps).steps)
    ensures LoopAgrees(n, adj, nbrs, st, steps)
  {
    B.TryNeighboursUnfold(n, adj, |st.path|, nbrs, st);
  }

  // ---------------------------------------------------------------------------
  // The counter.

  /** The counter only accumulates: a call adds the same amount whatever it started from. */
  lemma {:induction false} BacktrackStepsOffset(n: nat, adj: Adjacency, u: Vertex, st: B.SearchState, steps: nat)
    requires WellFormed(n, adj) && B.Consistent(n, st)
    requires u < n && !st.visited[u] && |st.path| < n
    decreases n - |st.path| - 1, 1, 0
    ensures var r := Backtrack(n, adj, u, st, steps);
      var r0 := Backtrack(n, adj, u, st, 0);
      r.steps == steps + r0.steps && r.found == r0.found && r.state == r0.state
  {
    B.MarkConsistent(n, st, u);
    var m := B.Mark(st, u);
    if |m.path| < n {
      TryNeighboursStepsOffset(n, adj, adj[u], m, steps + 1);
      TryNeighboursStepsOffset(n, adj, adj[u], m, 1);
    }
  }

  lemma {:induction false} TryNeighboursStepsOffset(n: nat, adj: Adjacency, nbrs: seq<Vertex>, st: B.SearchState, steps: nat)
    requires WellFormed(n, adj) && B.Consistent(n, st) && InRange(n, nbrs)
    requires 0 < |st.path| < n
    decreases n - |st.path|, 0, |nbrs|
    ensures var r := TryNeighbours(n, adj, nbrs, st, steps);
      var r0 := TryNeighbours(n, adj, nbrs, st, 0);
      r.steps == steps + r0.steps && r.found == r0.found && r.state == r0.state
  {
    if nbrs != [] {
      if st.visited[nbrs[0]] {
        TryNeighboursStepsOffset(n, adj, nbrs[1..], st, steps);
      } else {
        var b := Backtrack(n, adj, nbrs[0], st, steps);
        var b0 := Backtrack(n, adj, nbrs[0], st, 0);
        BacktrackStepsOffset(n, adj, nbrs[0], st, steps);
        TryNeighboursStepsOffset(n, adj, nbrs[1..], st, b.steps);
        TryNeighboursStepsOffset(n, adj, nbrs[1..], st, b0.steps);
      }
    }
  }

  /**
    The counter is never reset between starts: the final count is the sum of what every
    start tried contributes, and each start contributes at least its own call, so the
    count is at least the number of starts tried.
   */
  lemma StartsSteps(n: nat, adj: Adjacency, start: nat, steps: nat)
    requires WellFormed(n, adj) && start <= n
    ensures var r := Starts(n, adj, start, steps);
      && r.1 == steps + Starts(n, adj, start, 0).1
      && BoundHolds(r, n, start, steps)
  {
    StartsOffset(n, adj, start, steps);
  }

  /** Starting the counter at `steps` adds `steps` to the final count. */
  lemma {:induction false} StartsOffset(n: nat, adj: Adjacency, start: nat, steps: nat)
    requires WellFormed(n, adj) && start <= n
    decreases n - start
    ensures Starts(n, adj, start, steps).1 == steps + Starts(n, adj, start, 0).1
  {
    if start < n {
      var st := B.Fresh(n);
      var o := Backtrack(n, adj, start, st, steps);
      var o0 := Backtrack(n, adj, start, st, 0);
      RootStepsOffset(n, adj, start, steps);
      StartsStep(n, adj, start, steps);
      StartsStep(n, adj, start, 0);
      if !o.found {
        StartsOffset(n, adj, start + 1, o.steps);
        StartsOffset(n, adj, start + 1, o0.steps);
      }
    }
  }

  /** A root call adds the same count, and succeeds or fails alike, whatever the counter started from. */
  lemma RootStepsOffset(n: nat, adj: Adjacency, start: nat, steps: nat)
    requires WellFormed(n, adj) && start < n
    ensures var o := Backtrack(n, adj, start, B.Fresh(n), steps);
      var o0 := Backtrack(n, adj, start, B.Fresh(n), 0);
      o.steps == steps + o0.steps && o.found == o0.found
  {
    BacktrackStepsOffset(n, adj, start, B.Fresh(n), steps);
  }

  /** One start of the roots loop: its own count, plus what the later starts add if it fails. */
  lemma StartsStep(n: nat, adj: Adjacency, start: nat, steps: nat)
    requires WellFormed(n, adj) && start < n
    ensures var o := Backtrack(n, adj, start, B.Fresh(n), steps);
      Starts(n, adj, start, steps).1 == if o.found then o.steps else Starts(n, adj, start + 1, o.steps).1
  {
  }

  /**
    A start succeeds exactly when it does in `hamiltonian_path_backtracking`, with the same
    path, and that path begins with the start.
   */
  lemma RootPathStarts(n: nat, adj: Adjacency, start: nat, steps: nat)
    requires WellFormed(n, adj) && start < n
    ensures var o := Backtrack(n, adj, start, B.Fresh(n), steps);
      var ob := B.Backtrack(n, adj, start, 1, B.Fresh(n));
      && o.found == ob.found
      && o.state.path == ob.state.path
      && (o.found ==> |o.state.path| > 0 && o.state.path[0] == start)
  {
    var st := B.Fresh(n);
    assert st.path + [start] == [start];
    BacktrackAgrees(n, adj, start, st, steps);
    B.BacktrackFindsFirst(n, adj, start, 1, st);
  }

  /**
    On an adjacency, the roots loop with the counter returns what
    `hamiltonian_path_backtracking` returns, and counts at least one call per start tried.
   */
  lemma StartsCorrect(n: nat, adj: Adjacency)
    requires WellFormed(n, adj)
    ensures var r := Starts(n, adj, 0, 0);
      && r.0 == B.HamiltonianPathBacktracking(n, adj)
      && (r.0.None? ==> r.1 >= n)
      && (r.0.Some? ==> |r.0.value| > 0 && r.1 >= r.0.value[0] + 1)
  {
    StartsSteps(n, adj, 0, 0);
  }

  /** Consecutive vertices of a path in the built adjacency are joined by an input edge. */
  lemma PathAlongEdges(n: nat, edges: seq<Edge>, p: seq<Vertex>)
    requires EdgesInRange(n, edges) && SimplePath(n, AdjFromEdges(n, edges), p)
    ensures forall i :: 0 <= i < |p| - 1 ==> Joined(edges, p[i], p[i + 1])
  {
    forall i | 0 <= i < |p| - 1
      ensures Joined(edges, p[i], p[i + 1])
    {
      AdjFromEdgesJoined(n, edges, p[i], p[i + 1]);
    }
  }
}
