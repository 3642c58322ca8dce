/**
  `hamiltonian_path_backtracking` (src/backtracking.py): depth-first search that keeps a
  `visited` flag array and a `path` buffer, marks on entry and unmarks on failure.

  The buffers are threaded explicitly through two mutually recursive functions:
  `Backtrack` is one call of the nested `backtrack(v, depth)`, `TryNeighbours` is its
  `for u in adj[v]` loop.  Their contracts relate them to `Completions`, an independent
  reference definition listing every Hamiltonian completion of a partial path in
  depth-first order.
 */
module Backtracking {
  import opened Basics
  import opened Graphs

  /** The two mutable buffers of the search. */
  datatype SearchState = SearchState(visited: seq<bool>, path: seq<Vertex>)

  /** What `backtrack` returns (`found`) together with the buffers it leaves behind. */
  datatype Outcome = Outcome(found: bool, state: SearchState)

  /** `visited[x]` holds exactly for the vertices of `path`, which never repeats one. */
  predicate Consistent(n: nat, st: SearchState) {
    && |st.visited| == n
    && InRange(n, st.path)
    && Distinct(st.path)
    && forall x :: 0 <= x < n ==> (st.visited[x] <==> x in st.path)
  }

  /** `[False] * n` and `[]`. */
  function Fresh(n: nat): (st: SearchState)
    ensures Consistent(n, st) && st.path == []
  {
    SearchState(seq(n, _ => false), [])
  }

  /** `visited[v] = True; path.append(v)`. */
  function Mark(st: SearchState, v: Vertex): SearchState
    requires v < |st.visited|
  {
    SearchState(st.visited[v := true], st.path + [v])
  }

  /** `visited[v] = False; path.pop()`. */
  function Unmark(st: SearchState, v: Vertex): SearchState
    requires v < |st.visited| && |st.path| > 0
  {
    SearchState(st.visited[v := false], st.path[..|st.path| - 1])
  }

  lemma MarkConsistent(n: nat, st: SearchState, v: Vertex)
    requires Consistent(n, st) && v < n && !st.visited[v]
    ensures Consistent(n, Mark(st, v))
  {
    var m := Mark(st, v);
    assert v !in st.path;
    forall x | 0 <= x < n
      ensures m.visited[x] <==> x in m.path
    {
      assert x in m.path <==> x in st.path || x == v;
    }
  }

  /**
    Reference definition: all Hamiltonian completions of the partial path `q`, in the
    order a depth-first search meets them (neighbours of the last vertex in adjacency
    order, vertices already on `q` skipped).  A neighbour listed twice is explored twice.
   */
  function Completions(n: nat, adj: Adjacency, q: seq<Vertex>): (r: seq<seq<Vertex>>)
    requires WellFormed(n, adj) && InRange(n, q) && 0 < |q| <= n
    ensures forall p :: p in r ==> |p| == n && q <= p
    decreases n - |q|, 1
  {
    if |q| == n then [q] else CompletionsVia(n, adj, q, adj[Last(q)])
  }

  /** The completions of `q` that continue with one of `nbrs`, in the order of `nbrs`. */
  function CompletionsVia(n: nat, adj: Adjacency, q: seq<Vertex>, nbrs: seq<Vertex>): (r: seq<seq<Vertex>>)
    requires WellFormed(n, adj) && InRange(n, q) && 0 < |q| < n && InRange(n, nbrs)
    ensures forall p :: p in r ==> |p| == n && q <= p
    decreases n - |q|, 0, |nbrs|
  {
    if nbrs == [] then []
    else
      (if nbrs[0] in q then [] else Completions(n, adj, q + [nbrs[0]]))
      + CompletionsVia(n, adj, q, nbrs[1..])
  }

  /**
    One call `backtrack(v, depth)`.  On failure the buffers are exactly as before the call
    (what it finds is stated by `BacktrackFindsFirst`).
   */
  function Backtrack(n: nat, adj: Adjacency, v: Vertex, depth: nat, st: SearchState): (r: Outcome)
    requires WellFormed(n, adj) && Consistent(n, st)
    requires v < n && !st.visited[v]
    requires depth == |st.path| + 1 <= n
    decreases n - depth, 1, 0
    ensures !r.found ==> r.state == st
  {
    MarkConsistent(n, st, v);
    var m := Mark(st, v);
    if depth == n then Outcome(true, m)
    else
      var r := TryNeighbours(n, adj, depth, adj[v], m);
      if r.found then r else Outcome(false, Unmark(r.state, v))
  }

  /**
    The loop `for u in adj[v]: if not visited[u]: if backtrack(u, depth + 1): return True`
    over the remaining neighbours `nbrs`.
   */
  function TryNeighbours(n: nat, adj: Adjacency, depth: nat, nbrs: seq<Vertex>, st: SearchState): (r: Outcome)
    requires WellFormed(n, adj) && Consistent(n, st) && InRange(n, nbrs)
    requires 1 <= depth == |st.path| < n
    decreases n - depth, 0, |nbrs|
    ensures !r.found ==> r.state == st
  {
    if nbrs == [] then Outcome(false, st)
    else if st.visited[nbrs[0]] then TryNeighbours(n, adj, depth, nbrs[1..], st)
    else
      var r := Backtrack(n, adj, nbrs[0], depth + 1, st);
      if r.found then r else TryNeighbours(n, adj, depth, nbrs[1..], r.state)
  }

  /** The completions of every single-vertex start `start, start + 1, ..., n - 1`, in that order. */
  function CompletionsFrom(n: nat, adj: Adjacency, start: nat): seq<seq<Vertex>>
    requires WellFormed(n, adj)
    decreases n - start
  {
    if start >= n then [] else Completions(n, adj, [start]) + CompletionsFrom(n, adj, start + 1)
  }

  function FirstOf<T>(s: seq<T>): Option<T> {
    if s == [] then None else Some(s[0])
  }

  /** The first element of `a + b` is the first of `a`, or, when `a` is empty, the first of `b`. */
  lemma FirstOfConcat<T>(a: seq<T>, b: seq<T>)
    ensures FirstOf(a + b) == if a != [] then Some(a[0]) else FirstOf(b)
  {
    if a == [] {
      assert a + b == b;
    }
  }

  /**
    `for start in range(n): if backtrack(start, 1): return path.copy()`.  The buffers are
    shared across starts; a failing start restores them, so each start begins clean, and
    the loop returns the first completion of the first start that has one
    (`RootsFindsFirst`).  A returned path holds all `n` vertices and begins at one of the
    starts tried.
   */
  function Roots(n: nat, adj: Adjacency, start: nat, st: SearchState): (r: Option<seq<Vertex>>)
    requires WellFormed(n, adj) && Consistent(n, st) && st.path == [] && start <= n
    decreases n - start
    ensures r.Some? ==> 0 < n == |r.value| && start <= r.value[0]
  {
    if start == n then None
    else
      assert st.path + [start] == [start];
      BacktrackFindsFirst(n, adj, start, 1, st);
      var o := Backtrack(n, adj, start, 1, st);
      if o.found then Some(o.state.path) else Roots(n, adj, start + 1, o.state)
  }

  /** Starts are tried in ascending order; the result is the first completion of the first start that has one. */
  lemma {:induction false} RootsFindsFirst(n: nat, adj: Adjacency, start: nat, st: SearchState)
    requires WellFormed(n, adj) && Consistent(n, st) && st.path == [] && start <= n
    decreases n - start
    ensures Roots(n, adj, start, st) == FirstOf(CompletionsFrom(n, adj, start))
  {
    if start < n {
      assert st.path + [start] == [start];
      BacktrackFindsFirst(n, adj, start, 1, st);
      FirstOfConcat(Completions(n, adj, [start]), CompletionsFrom(n, adj, start + 1));
      var o := Backtrack(n, adj, start, 1, st);
      if !o.found {
        RootsFindsFirst(n, adj, start + 1, o.state);
      }
    }
  }

  /**
    `hamiltonian_path_backtracking(n, adj)`: the first Hamiltonian path in depth-first
    order (starts ascending, neighbours in adjacency order), or None.  It is None exactly
    when there is no Hamiltonian path, or when `n == 0` (no start is tried, although the
    empty path would qualify).
   */
  function HamiltonianPathBacktracking(n: nat, adj: Adjacency): (r: Option<seq<Vertex>>)
    requires WellFormed(n, adj)
    ensures r == FirstOf(CompletionsFrom(n, adj, 0))
    ensures r.Some? ==> IsHamiltonianPath(n, adj, r.value)
    ensures r.None? <==> n == 0 || !HasHamiltonianPath(n, adj)
  {
    AllCompletionsCharacterised(n, adj);
    RootsFindsFirst(n, adj, 0, Fresh(n));
    Roots(n, adj, 0, Fresh(n))
  }

  // ---------------------------------------------------------------------------
  // The reference definition lists exactly the Hamiltonian completions.

  lemma {:induction false} CompletionsSound(n: nat, adj: Adjacency, q: seq<Vertex>, p: seq<Vertex>)
    requires WellFormed(n, adj) && SimplePath(n, adj, q) && 0 < |q| <= n
    requires p in Completions(n, adj, q)
    ensures IsHamiltonianPath(n, adj, p) && q <= p
    decreases n - |q|, 1
  {
    if |q| < n {
      CompletionsViaSound(n, adj, q, adj[Last(q)], p);
    }
  }

  lemma {:induction false} CompletionsViaSound(n: nat, adj: Adjacency, q: seq<Vertex>, nbrs: seq<Vertex>, p: seq<Vertex>)
    requires WellFormed(n, adj) && SimplePath(n, adj, q) && 0 < |q| < n && InRange(n, nbrs)
    requires forall x :: x in nbrs ==> x in adj[Last(q)]
    requires p in CompletionsVia(n, adj, q, nbrs)
    ensures IsHamiltonianPath(n, adj, p) && q <= p
    decreases n - |q|, 0, |nbrs|
  {
    var u := nbrs[0];
    if u !in q && p in Completions(n, adj, q + [u]) {
      ExtendSimplePath(n, adj, q, u);
      CompletionsSound(n, adj, q + [u], p);
    } else {
      CompletionsViaSound(n, adj, q, nbrs[1..], p);
    }
  }

  lemma {:induction false} CompletionsViaContains(n: nat, adj: Adjacency, q: seq<Vertex>, nbrs: seq<Vertex>, u: Vertex, p: seq<Vertex>)
    requires WellFormed(n, adj) && InRange(n, q) && 0 < |q| < n && InRange(n, nbrs)
    requires u in nbrs && u !in q && u < n
    requires p in Completions(n, adj, q + [u])
    ensures p in CompletionsVia(n, adj, q, nbrs)
    decreases |nbrs|
  {
    if nbrs[0] != u {
      CompletionsViaContains(n, adj, q, nbrs[1..], u, p);
    }
  }

  lemma {:induction false} CompletionsComplete(n: nat, adj: Adjacency, q: seq<Vertex>, p: seq<Vertex>)
    requires WellFormed(n, adj) && SimplePath(n, adj, q) && 0 < |q| <= n
    requires IsHamiltonianPath(n, adj, p) && q <= p
    ensures p in Completions(n, adj, q)
    decreases n - |q|
  {
    if |q| == n {
      assert p == q;
    } else {
      var k := |q|;
      var u := p[k];
      assert p[k - 1] == Last(q);
      assert u in adj[Last(q)];
      var q' := q + [u];
      assert q' == p[..k + 1];
      assert SimplePath(n, adj, q') by {
        forall i, j | 0 <= i < j < |q'| ensures q'[i] != q'[j] {
          assert q'[i] == p[i] && q'[j] == p[j];
        }
        forall i | 0 <= i < |q'| - 1 ensures q'[i + 1] in adj[q'[i]] {
          assert q'[i] == p[i] && q'[i + 1] == p[i + 1];
        }
      }
      CompletionsComplete(n, adj, q', p);
      CompletionsViaContains(n, adj, q, adj[Last(q)], u, p);
    }
  }

  /** Membership in the whole depth-first listing is exactly being a Hamiltonian path (n > 0). */
  lemma {:induction false} CompletionsFromCharacterised(n: nat, adj: Adjacency, start: nat, p: seq<Vertex>)
    requires WellFormed(n, adj)
    ensures p in CompletionsFrom(n, adj, start) <==> IsHamiltonianPath(n, adj, p) && 0 < |p| && start <= p[0]
    decreases n - start
  {
    if start < n {
      var single := [start];
      assert SimplePath(n, adj, single);
      CompletionsFromCharacterised(n, adj, start + 1, p);
      if p in Completions(n, adj, single) {
        CompletionsSound(n, adj, single, p);
      }
      if IsHamiltonianPath(n, adj, p) && 0 < |p| && p[0] == start {
        assert single <= p;
        CompletionsComplete(n, adj, single, p);
      }
    }
  }

  lemma AllCompletionsCharacterised(n: nat, adj: Adjacency)
    requires WellFormed(n, adj)
    ensures forall p :: p in CompletionsFrom(n, adj, 0) ==> IsHamiltonianPath(n, adj, p)
    ensures CompletionsFrom(n, adj, 0) == [] <==> n == 0 || !HasHamiltonianPath(n, adj)
  {
    forall p | p in CompletionsFrom(n, adj, 0)
      ensures IsHamiltonianPath(n, adj, p)
    {
      CompletionsFromCharacterised(n, adj, 0, p);
    }
    if n > 0 && HasHamiltonianPath(n, adj) {
      var p :| IsHamiltonianPath(n, adj, p);
      CompletionsFromCharacterised(n, adj, 0, p);
    }
    if CompletionsFrom(n, adj, 0) != [] {
      var p := CompletionsFrom(n, adj, 0)[0];
      CompletionsFromCharacterised(n, adj, 0, p);
    }
  }

  /**
    `backtrack(v, depth)` succeeds iff the path extended by `v` has a Hamiltonian
    completion, and then it leaves the first one (in depth-first order) in the path buffer.
   */
  lemma {:induction false} BacktrackFindsFirst(n: nat, adj: Adjacency, v: Vertex, depth: nat, st: SearchState)
    requires WellFormed(n, adj) && Consistent(n, st)
    requires v < n && !st.visited[v]
    requires depth == |st.path| + 1 <= n
    decreases n - depth, 1, 0
    ensures var r := Backtrack(n, adj, v, depth, st);
      && (r.found <==> Completions(n, adj, st.path + [v]) != [])
      && (r.found ==> r.state.path == Completions(n, adj, st.path + [v])[0])
  {
    MarkConsistent(n, st, v);
    var m := Mark(st, v);
    if depth < n {
      TryNeighboursFindsFirst(n, adj, depth, adj[v], m);
    }
  }

  /** The neighbour loop finds the first completion that continues with one of `nbrs`. */
  lemma {:induction false} TryNeighboursFindsFirst(n: nat, adj: Adjacency, depth: nat, nbrs: seq<Vertex>, st: SearchState)
    requires WellFormed(n, adj) && Consistent(n, st) && InRange(n, nbrs)
    requires 1 <= depth == |st.path| < n
    decreases n - depth, 0, |nbrs|
    ensures FindsFirstVia(n, adj, depth, nbrs, st)
  {
    if nbrs != [] {
      var u, rest, deeper := nbrs[0], nbrs[1..], depth + 1;
      TryNeighboursFindsFirst(n, adj, depth, rest, st);
      if st.visited[u] {
        SkipStep(n, adj, depth, nbrs, rest, st);
      } else {
        BacktrackFindsFirst(n, adj, u, deeper, st);
        EnterStep(n, adj, depth, deeper, nbrs, rest, st);
      }
    }
  }

  /** What `TryNeighboursFindsFirst` promises about the loop over `nbrs`. */
  predicate FindsFirstVia(n: nat, adj: Adjacency, depth: nat, nbrs: seq<Vertex>, st: SearchState)
    requires WellFormed(n, adj) && Consistent(n, st) && InRange(n, nbrs)
    requires 1 <= depth == |st.path| < n
  {
    var r := TryNeighbours(n, adj, depth, nbrs, st);
    var c := CompletionsVia(n, adj, st.path, nbrs);
    && (r.found <==> c != [])
    && (r.found ==> r.state.path == c[0])
  }

  lemma SkipStep(n: nat, adj: Adjacency, depth: nat, nbrs: seq<Vertex>, rest: seq<Vertex>, st: SearchState)
    requires WellFormed(n, adj) && Consistent(n, st) && InRange(n, nbrs)
    requires 1 <= depth == |st.path| < n
    requires nbrs != [] && st.visited[nbrs[0]] && rest == nbrs[1..]
    requires FindsFirstVia(n, adj, depth, rest, st)
    ensures FindsFirstVia(n, adj, depth, nbrs, st)
  {
    assert TryNeighbours(n, adj, depth, nbrs, st) == TryNeighbours(n, adj, depth, rest, st);
    assert CompletionsVia(n, adj, st.path, nbrs) == CompletionsVia(n, adj, st.path, rest);
  }

  lemma EnterStep(n: nat, adj: Adjacency, depth: nat, deeper: nat, nbrs: seq<Vertex>, rest: seq<Vertex>, st: SearchState)
    requires WellFormed(n, adj) && Consistent(n, st) && InRange(n, nbrs)
    requires 1 <= depth == |st.path| < n && deeper == depth + 1
    requires nbrs != [] && !st.visited[nbrs[0]] && rest == nbrs[1..]
    requires FindsFirstVia(n, adj, depth, rest, st)
    requires var o := Backtrack(n, adj, nbrs[0], deeper, st);
      && (o.found <==> Completions(n, adj, st.path + [nbrs[0]]) != [])
      && (o.found ==> o.state.path == Completions(n, adj, st.path + [nbrs[0]])[0])
    ensures FindsFirstVia(n, adj, depth, nbrs, st)
  {
    var u := nbrs[0];
    var here := Completions(n, adj, st.path + [u]);
    var later := CompletionsVia(n, adj, st.path, rest);
    assert CompletionsVia(n, adj, st.path, nbrs) == here + later;
    TryNeighboursUnfold(n, adj, depth, nbrs, st);
    if here != [] {
      assert (here + later)[0] == here[0];
    }
  }

  /** One step of the neighbour loop on an unvisited neighbour. */
  lemma TryNeighboursUnfold(n: nat, adj: Adjacency, depth: nat, nbrs: seq<Vertex>, st: SearchState)
    requires WellFormed(n, adj) && Consistent(n, st) && InRange(n, nbrs)
    requires 1 <= depth == |st.path| < n
    requires nbrs != [] && !st.visited[nbrs[0]]
    ensures var o := Backtrack(n, adj, nbrs[0], depth + 1, st);
      TryNeighbours(n, adj, depth, nbrs, st) == if o.found then o else TryNeighbours(n, adj, depth, nbrs[1..], st)
  {
  }
}
