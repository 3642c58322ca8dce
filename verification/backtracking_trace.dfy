/**
  `hamiltonian_path_backtracking_steps` (src/backtracking.py): the generator that yields
  `(state, snapshot)` pairs while it searches, modelled as the finite list of events it
  yields when read to exhaustion.

  It searches like `hamiltonian_path_backtracking` but differs in two places: a frame that
  reaches depth `n` sets `found` and returns WITHOUT popping, and the enclosing frames,
  after leaving their neighbour loop on `found`, still pop and yield a `backtrack` event
  each.  The trace therefore continues past `solution` with backtracks down to `[start]`.
 */
module BacktrackingTrace {
  import opened Basics
  import opened Graphs
  import B = Backtracking

  /** The first component of each yielded pair. */
  datatype State = Start | Visit | Backtrack | Solution | Fail

  /** One yielded pair; `path` is a copy (`list(path)`) taken at the moment of the yield. */
  datatype Event = Event(state: State, path: seq<Vertex>)

  /** The events of one generator frame, the buffers it leaves, and the `found` flag. */
  datatype Frame = Frame(events: seq<Event>, state: B.SearchState, found: bool)

  predicate SolutionFree(es: seq<Event>) {
    forall i :: 0 <= i < |es| ==> es[i].state != Solution
  }

  /** Only `visit`, `backtrack` and `solution` come out of the recursive part. */
  predicate Inner(es: seq<Event>) {
    forall i :: 0 <= i < |es| ==> es[i].state != Start && es[i].state != Fail
  }

  /** The path buffer right after `e` was yielded (`start` is yielded after `path.clear()`). */
  function PathAfter(e: Event): seq<Vertex> {
    if e.state == Start then [] else e.path
  }

  /** Every `visit` snapshot is the path held just before it, plus the vertex entered. */
  predicate VisitsExtend(prev: seq<Vertex>, es: seq<Event>) {
    forall i :: 0 <= i < |es| ==> VisitExtends(prev, es, i)
  }

  /** Event `i` is no `visit`, or its snapshot is the path before it plus one vertex. */
  predicate VisitExtends(prev: seq<Vertex>, es: seq<Event>, i: nat)
    requires i < |es|
  {
    es[i].state == Visit ==>
      |es[i].path| > 0 && es[i].path[..|es[i].path| - 1] == (if i == 0 then prev else PathAfter(es[i - 1]))
  }

  /**
    The `backtrack` events the frames at depths `|p| - 1` down to `d` yield after a
    solution `p` was found: each pops the top vertex, so the snapshots shrink from
    `p[..|p| - 1]` to `p[..d]`.
   */
  function Unwind(p: seq<Vertex>, d: nat): (r: seq<Event>)
    requires d <= |p|
    ensures |r| == |p| - d
    decreases |p| - d
  {
    if d == |p| then [] else Unwind(p, d + 1) + [Event(Backtrack, p[..d])]
  }

  /** One generator frame `backtrack(v, depth)`, entered while `found` is false. */
  function TraceFrame(n: nat, adj: Adjacency, v: Vertex, depth: nat, st: B.SearchState): (r: Frame)
    requires WellFormed(n, adj) && B.Consistent(n, st)
    requires v < n && !st.visited[v]
    requires depth == |st.path| + 1 <= n
    decreases n - depth, 1, 0
    ensures !r.found ==> r.state == st
    ensures r.found ==> |r.state.path| == depth && |r.state.visited| == n
  {
    B.MarkConsistent(n, st, v);
    var m := B.Mark(st, v);
    var visit := Event(Visit, m.path);
    if depth == n then
      Frame([visit, Event(Solution, m.path)], m, true)
    else
      var l := TraceLoop(n, adj, depth, adj[v], m);
      var s := B.Unmark(l.state, v);
      Frame([visit] + l.events + [Event(Backtrack, s.path)], s, l.found)
  }

  /** The frame's `for u in adj[v]: if found: break; if not visited[u]: yield from ...`. */
  function TraceLoop(n: nat, adj: Adjacency, depth: nat, nbrs: seq<Vertex>, st: B.SearchState): (r: Frame)
    requires WellFormed(n, adj) && B.Consistent(n, st) && InRange(n, nbrs)
    requires 1 <= depth == |st.path| < n
    decreases n - depth, 0, |nbrs|
    ensures !r.found ==> r.state == st
    ensures r.found ==> |r.state.path| == depth + 1 && |r.state.visited| == n
  {
    if nbrs == [] then Frame([], st, false)
    else if st.visited[nbrs[0]] then TraceLoop(n, adj, depth, nbrs[1..], st)
    else
      var f := TraceFrame(n, adj, nbrs[0], depth + 1, st);
      if f.found then f
      else
        var g := TraceLoop(n, adj, depth, nbrs[1..], f.state);
        Frame(f.events + g.events, g.state, g.found)
  }

  /** The snapshots of the `start` events, in order. */
  function StartsOf(es: seq<Event>): seq<seq<Vertex>> {
    if es == [] then []
    else (if es[0].state == Start then [es[0].path] else []) + StartsOf(es[1..])
  }

  /**
    The roots loop from `start` on, with `found` still false, then the final `fail`.  It
    agrees with the plain roots loop from `start` on, as `RootsOk` spells out, and every
    `visit` snapshot extends the path held just before it.
   */
  function TraceRoots(n: nat, adj: Adjacency, start: nat): (t: seq<Event>)
    requires WellFormed(n, adj) && start <= n
    decreases n - start
    ensures RootsOk(t, B.Roots(n, adj, start, B.Fresh(n)), n, start)
    ensures VisitsExtend([], t)
  {
    if start == n then [Event(Fail, [])]
    else
      var f := TraceFrame(n, adj, start, 1, B.Fresh(n));
      if f.found then
        RootStepFound(n, adj, start);
        [Event(Start, [start])] + f.events
      else
        var rest := TraceRoots(n, adj, start + 1);
        RootStepMissed(n, adj, start, rest);
        [Event(Start, [start])] + f.events + rest
  }

  /**
    The whole event sequence of `hamiltonian_path_backtracking_steps(n, adj)`.  It searches
    exactly like `hamiltonian_path_backtracking(n, adj)`: it ends in `fail` iff the plain
    search returns None; otherwise its single `solution` event carries the path the plain
    search returns, followed by exactly `n - 1` backtracks whose snapshots shrink to the
    root.  The roots announced by `start` are `0, 1, ...` up to the successful one (all of
    them on failure), and every `visit` snapshot is the previous path plus one vertex.
   */
  function HamiltonianPathTrace(n: nat, adj: Adjacency): (t: seq<Event>)
    requires WellFormed(n, adj)
    ensures TraceOk(t, B.HamiltonianPathBacktracking(n, adj), n)
    ensures VisitsExtend([], t)
    ensures SolutionFree(t) <==> n == 0 || !HasHamiltonianPath(n, adj)
  {
    var t := TraceRoots(n, adj, 0);
    TraceOkFromRoots(t, B.Roots(n, adj, 0, B.Fresh(n)), n);
    t
  }

  // ---------------------------------------------------------------------------
  // Shape of the events.

  predicate FailFree(es: seq<Event>) {
    forall i :: 0 <= i < |es| ==> es[i].state != Fail
  }

  /** Index of the `solution` event in a frame that found one at depth `n`, entered at depth `d`. */
  function SolutionIndex(es: seq<Event>, n: nat, d: nat): int {
    |es| - (n - d) - 1
  }

  /**
    A frame entered at depth `d` that found a solution: the `solution` event carries a
    full-length path `p`, and after it come exactly the backtracks of the frames at depths
    `n - 1` down to `d`, and nothing else.
   */
  predicate FoundShape(es: seq<Event>, n: nat, d: nat) {
    && d <= n
    && var k := SolutionIndex(es, n, d);
    && 0 <= k < |es|
    && es[k].state == Solution
    && |es[k].path| == n
    && es[k + 1..] == Unwind(es[k].path, d)
    && SolutionFree(es[..k])
  }

  lemma ConcatFree(a: seq<Event>, b: seq<Event>)
    ensures Inner(a) && Inner(b) ==> Inner(a + b)
    ensures SolutionFree(a) && SolutionFree(b) ==> SolutionFree(a + b)
    ensures FailFree(a) && FailFree(b) ==> FailFree(a + b)
  {
    var c := a + b;
    assert forall i :: |a| <= i < |c| ==> c[i] == b[i - |a|];
  }

  lemma FoundShapeUnder(es: seq<Event>, n: nat, d: nat, x: Event, bt: Event)
    requires FoundShape(es, n, d + 1) && d < n && x.state != Solution
    requires bt == Event(Backtrack, es[SolutionIndex(es, n, d + 1)].path[..d])
    ensures FoundShape([x] + es + [bt], n, d)
    ensures var es' := [x] + es + [bt]; es'[SolutionIndex(es', n, d)] == es[SolutionIndex(es, n, d + 1)]
  {
    var k := SolutionIndex(es, n, d + 1);
    var p := es[k].path;
    var es' := [x] + es + [bt];
    assert SolutionIndex(es', n, d) == k + 1;
    assert es'[k + 1] == es[k];
    assert es'[k + 2..] == es[k + 1..] + [bt];
    assert es'[..k + 1] == [x] + es[..k];
    ConcatFree([x], es[..k]);
  }

  lemma FoundShapeAfter(a: seq<Event>, es: seq<Event>, n: nat, d: nat)
    requires FoundShape(es, n, d) && SolutionFree(a)
    ensures FoundShape(a + es, n, d)
    ensures (a + es)[SolutionIndex(a + es, n, d)] == es[SolutionIndex(es, n, d)]
  {
    var k := SolutionIndex(es, n, d);
    var c := a + es;
    assert SolutionIndex(c, n, d) == |a| + k;
    assert c[|a| + k] == es[k];
    assert c[|a| + k + 1..] == es[k + 1..];
    assert c[..|a| + k] == a + es[..k];
    ConcatFree(a, es[..k]);
  }

  /**
    The events of one frame entered at `depth` on `entry + [v]`: recursive events only,
    opening with the `visit` of `v`, closing with an event whose snapshot is the buffer
    left behind.  A frame that fails yields no `solution` and closes with the `backtrack`
    that restores `entry`; one that succeeds has the solution shape, its solution extends
    `entry + [v]`, and it leaves exactly `entry + [v]` in the buffer.
   */
  predicate FrameOk(r: Frame, n: nat, depth: nat, entry: seq<Vertex>, v: Vertex) {
    && Inner(r.events)
    && |r.events| >= 2 && r.events[0] == Event(Visit, entry + [v])
    && Last(r.events).path == r.state.path && Last(r.events).state != Visit
    && (!r.found ==> SolutionFree(r.events) && Last(r.events) == Event(Backtrack, entry))
    && (r.found ==> FoundShape(r.events, n, depth))
    && (r.found ==> r.state.path == r.events[SolutionIndex(r.events, n, depth)].path[..depth])
    && (r.found ==> r.state.path == entry + [v])
  }

  /** The events of a neighbour loop run on the buffer `entry`: the frames it enters, in turn. */
  predicate LoopOk(r: Frame, n: nat, depth: nat, entry: seq<Vertex>) {
    && Inner(r.events)
    && (r.events != [] ==> Last(r.events).path == r.state.path && Last(r.events).state != Visit)
    && (r.events != [] ==> r.events[0].state == Visit)
    && (!r.found ==> SolutionFree(r.events))
    && (!r.found && r.events != [] ==> Last(r.events) == Event(Backtrack, entry))
    && (r.found ==> FoundShape(r.events, n, depth + 1))
    && (r.found ==> r.state.path == r.events[SolutionIndex(r.events, n, depth + 1)].path[..depth + 1])
    && (r.found ==> |r.state.path| == depth + 1 && r.state.path[..depth] == entry)
  }

  lemma {:induction false} FrameShape(n: nat, adj: Adjacency, v: Vertex, depth: nat, st: B.SearchState)
    requires WellFormed(n, adj) && B.Consistent(n, st)
    requires v < n && !st.visited[v]
    requires depth == |st.path| + 1 <= n
    decreases n - depth, 1, 0
    ensures FrameOk(TraceFrame(n, adj, v, depth, st), n, depth, st.path, v)
  {
    B.MarkConsistent(n, st, v);
    var m := B.Mark(st, v);
    var r := TraceFrame(n, adj, v, depth, st);
    if depth < n {
      var l := TraceLoop(n, adj, depth, adj[v], m);
      LoopShape(n, adj, depth, adj[v], m);
      assert r == Frame([Event(Visit, m.path)] + l.events + [Event(Backtrack, B.Unmark(l.state, v).path)], B.Unmark(l.state, v), l.found);
      FrameOkStep(l, n, depth, st.path, v);
    } else {
      assert r.events == [Event(Visit, m.path), Event(Solution, m.path)];
      assert r.events[..0] == [];
    }
  }

  /** A frame that went through its neighbour loop `l` on `entry + [v]` and then popped `v`. */
  lemma FrameOkStep(l: Frame, n: nat, depth: nat, entry: seq<Vertex>, v: Vertex)
    requires depth == |entry| + 1 < n
    requires LoopOk(l, n, depth, entry + [v])
    requires !l.found ==> l.state.path == entry + [v]
    requires v < |l.state.visited|
    ensures var s := B.Unmark(l.state, v);
      FrameOk(Frame([Event(Visit, entry + [v])] + l.events + [Event(Backtrack, s.path)], s, l.found), n, depth, entry, v)
  {
    var visit := Event(Visit, entry + [v]);
    var bt := Event(Backtrack, B.Unmark(l.state, v).path);
    var es := [visit] + l.events + [bt];
    ConcatFree([visit], l.events);
    ConcatFree([visit] + l.events, [bt]);
    if l.found {
      FoundShapeUnder(l.events, n, depth, visit, bt);
      assert l.state.path[..depth] == entry + [v];
    } else {
      assert (entry + [v])[..depth - 1] == entry;
    }
  }

  lemma {:induction false} LoopShape(n: nat, adj: Adjacency, depth: nat, nbrs: seq<Vertex>, st: B.SearchState)
    requires WellFormed(n, adj) && B.Consistent(n, st) && InRange(n, nbrs)
    requires 1 <= depth == |st.path| < n
    decreases n - depth, 0, |nbrs|
    ensures LoopOk(TraceLoop(n, adj, depth, nbrs, st), n, depth, st.path)
  {
    if nbrs != [] {
      LoopShape(n, adj, depth, nbrs[1..], st);
      if st.visited[nbrs[0]] {
        TraceLoopSkip(n, adj, depth, nbrs, st);
      } else {
        FrameShape(n, adj, nbrs[0], depth + 1, st);
        LoopShapeEnter(n, adj, depth, nbrs, st);
      }
    }
  }

  lemma LoopShapeEnter(n: nat, adj: Adjacency, depth: nat, nbrs: seq<Vertex>, st: B.SearchState)
    requires WellFormed(n, adj) && B.Consistent(n, st) && InRange(n, nbrs)
    requires 1 <= depth == |st.path| < n
    requires nbrs != [] && !st.visited[nbrs[0]]
    requires FrameOk(TraceFrame(n, adj, nbrs[0], depth + 1, st), n, depth + 1, st.path, nbrs[0])
    requires LoopOk(TraceLoop(n, adj, depth, nbrs[1..], st), n, depth, st.path)
    ensures LoopOk(TraceLoop(n, adj, depth, nbrs, st), n, depth, st.path)
  {
    TraceLoopUnfold(n, adj, depth, nbrs, st);
    LoopOkStep(TraceFrame(n, adj, nbrs[0], depth + 1, st), TraceLoop(n, adj, depth, nbrs[1..], st), n, depth, st.path, nbrs[0]);
  }

  /** A loop that entered the frame `f` for `u` and, if that failed, went on as `g`. */
  lemma LoopOkStep(f: Frame, g: Frame, n: nat, depth: nat, entry: seq<Vertex>, u: Vertex)
    requires depth == |entry|
    requires FrameOk(f, n, depth + 1, entry, u) && LoopOk(g, n, depth, entry)
    requires !g.found ==> g.state.path == entry
    ensures LoopOk(if f.found then f else Frame(f.events + g.events, g.state, g.found), n, depth, entry)
  {
    if f.found {
      assert (entry + [u])[..depth] == entry;
    } else {
      ConcatFree(f.events, g.events);
      if g.events != [] {
        assert Last(f.events + g.events) == Last(g.events);
      }
      if g.found {
        FoundShapeAfter(f.events, g.events, n, depth + 1);
      }
    }
  }

  // ---------------------------------------------------------------------------
  // The trace searches exactly like `hamiltonian_path_backtracking`.

  /** The snapshot of the `solution` event of a frame entered at depth `d`. */
  function SolutionOf(es: seq<Event>, n: nat, d: nat): seq<Vertex> {
    var k := SolutionIndex(es, n, d);
    if 0 <= k < |es| then es[k].path else []
  }

  lemma {:induction false} FrameMatches(n: nat, adj: Adjacency, v: Vertex, depth: nat, st: B.SearchState)
    requires WellFormed(n, adj) && B.Consistent(n, st)
    requires v < n && !st.visited[v]
    requires depth == |st.path| + 1 <= n
    decreases n - depth, 1, 0
    ensures FrameAgrees(n, adj, v, depth, st)
  {
    B.MarkConsistent(n, st, v);
    var m := B.Mark(st, v);
    if depth < n {
      LoopMatches(n, adj, depth, adj[v], m);
      var l := TraceLoop(n, adj, depth, adj[v], m);
      if l.found {
        LoopShape(n, adj, depth, adj[v], m);
        var s := B.Unmark(l.state, v);
        FoundShapeUnder(l.events, n, depth, Event(Visit, m.path), Event(Backtrack, s.path));
      }
    }
  }

  lemma {:induction false} LoopMatches(n: nat, adj: Adjacency, depth: nat, nbrs: seq<Vertex>, st: B.SearchState)
    requires WellFormed(n, adj) && B.Consistent(n, st) && InRange(n, nbrs)
    requires 1 <= depth == |st.path| < n
    decreases n - depth, 0, |nbrs|
    ensures LoopAgrees(n, adj, depth, nbrs, st)
  {
    if nbrs != [] {
      LoopMatches(n, adj, depth, nbrs[1..], st);
      if st.visited[nbrs[0]] {
        SkipAgrees(n, adj, depth, nbrs, st);
      } else {
        FrameMatches(n, adj, nbrs[0], depth + 1, st);
        EnterAgrees(n, adj, depth, nbrs, st);
      }
    }
  }

  /** The trace frame and `backtrack(v, depth)` agree on success and on the path found. */
  predicate FrameAgrees(n: nat, adj: Adjacency, v: Vertex, depth: nat, st: B.SearchState)
    requires WellFormed(n, adj) && B.Consistent(n, st)
    requires v < n && !st.visited[v]
    requires depth == |st.path| + 1 <= n
  {
    var r := TraceFrame(n, adj, v, depth, st);
    var o := B.Backtrack(n, adj, v, depth, st);
    && r.found == o.found
    && (r.found ==> SolutionOf(r.events, n, depth) == o.state.path)
  }

  /** What `LoopMatches` promises about the loop over `nbrs`. */
  predicate LoopAgrees(n: nat, adj: Adjacency, depth: nat, nbrs: seq<Vertex>, st: B.SearchState)
    requires WellFormed(n, adj) && B.Consistent(n, st) && InRange(n, nbrs)
    requires 1 <= depth == |st.path| < n
  {
    var r := TraceLoop(n, adj, depth, nbrs, st);
    var o := B.TryNeighbours(n, adj, depth, nbrs, st);
    && r.found == o.found
    && (r.found ==> SolutionOf(r.events, n, depth + 1) == o.state.path)
  }

  lemma EnterAgrees(n: nat, adj: Adjacency, depth: nat, nbrs: seq<Vertex>, st: B.SearchState)
    requires WellFormed(n, adj) && B.Consistent(n, st) && InRange(n, nbrs)
    requires 1 <= depth == |st.path| < n
    requires nbrs != [] && !st.visited[nbrs[0]]
    requires LoopAgrees(n, adj, depth, nbrs[1..], st)
    requires FrameAgrees(n, adj, nbrs[0], depth + 1, st)
    ensures LoopAgrees(n, adj, depth, nbrs, st)
  {
    TraceLoopUnfold(n, adj, depth, nbrs, st);
    B.TryNeighboursUnfold(n, adj, depth, nbrs, st);
    if !TraceFrame(n, adj, nbrs[0], depth + 1, st).found {
      MissAgrees(n, adj, depth, nbrs, st);
    }
  }

  lemma MissAgrees(n: nat, adj: Adjacency, depth: nat, nbrs: seq<Vertex>, st: B.SearchState)
    requires WellFormed(n, adj) && B.Consistent(n, st) && InRange(n, nbrs)
    requires 1 <= depth == |st.path| < n
    requires nbrs != [] && !st.visited[nbrs[0]]
    requires LoopAgrees(n, adj, depth, nbrs[1..], st)
    requires !TraceFrame(n, adj, nbrs[0], depth + 1, st).found
    ensures var f := TraceFrame(n, adj, nbrs[0], depth + 1, st);
      var g := TraceLoop(n, adj, depth, nbrs[1..], st);
      var rest := B.TryNeighbours(n, adj, depth, nbrs[1..], st);
      g.found == rest.found && (g.found ==> SolutionOf(f.events + g.events, n, depth + 1) == rest.state.path)
  {
    var f := TraceFrame(n, adj, nbrs[0], depth + 1, st);
    var g := TraceLoop(n, adj, depth, nbrs[1..], st);
    FailedFrameSolutionFree(n, adj, nbrs[0], depth + 1, st);
    FoundLoopShape(n, adj, depth, nbrs[1..], st);
    if g.found {
      FoundShapeAfter(f.events, g.events, n, depth + 1);
    }
  }

  lemma FailedFrameSolutionFree(n: nat, adj: Adjacency, v: Vertex, depth: nat, st: B.SearchState)
    requires WellFormed(n, adj) && B.Consistent(n, st)
    requires v < n && !st.visited[v]
    requires depth == |st.path| + 1 <= n
    ensures var r := TraceFrame(n, adj, v, depth, st); !r.found ==> SolutionFree(r.events)
  {
    FrameShape(n, adj, v, depth, st);
  }

  lemma FoundLoopShape(n: nat, adj: Adjacency, depth: nat, nbrs: seq<Vertex>, st: B.SearchState)
    requires WellFormed(n, adj) && B.Consistent(n, st) && InRange(n, nbrs)
    requires 1 <= depth == |st.path| < n
    ensures var r := TraceLoop(n, adj, depth, nbrs, st); r.found ==> FoundShape(r.events, n, depth + 1)
  {
    LoopShape(n, adj, depth, nbrs, st);
  }

  lemma SkipAgrees(n: nat, adj: Adjacency, depth: nat, nbrs: seq<Vertex>, st: B.SearchState)
    requires WellFormed(n, adj) && B.Consistent(n, st) && InRange(n, nbrs)
    requires 1 <= depth == |st.path| < n
    requires nbrs != [] && st.visited[nbrs[0]]
    requires LoopAgrees(n, adj, depth, nbrs[1..], st)
    ensures LoopAgrees(n, adj, depth, nbrs, st)
  {
    TraceLoopSkip(n, adj, depth, nbrs, st);
    assert B.TryNeighbours(n, adj, depth, nbrs, st) == B.TryNeighbours(n, adj, depth, nbrs[1..], st);
  }

  /** The frame's neighbour loop skips a visited neighbour. */
  lemma TraceLoopSkip(n: nat, adj: Adjacency, depth: nat, nbrs: seq<Vertex>, st: B.SearchState)
    requires WellFormed(n, adj) && B.Consistent(n, st) && InRange(n, nbrs)
    requires 1 <= depth == |st.path| < n
    requires nbrs != [] && st.visited[nbrs[0]]
    ensures TraceLoop(n, adj, depth, nbrs, st) == TraceLoop(n, adj, depth, nbrs[1..], st)
  {
  }

  /** One step of the frame's neighbour loop on an unvisited neighbour. */
  lemma TraceLoopUnfold(n: nat, adj: Adjacency, depth: nat, nbrs: seq<Vertex>, st: B.SearchState)
    requires WellFormed(n, adj) && B.Consistent(n, st) && InRange(n, nbrs)
    requires 1 <= depth == |st.path| < n
    requires nbrs != [] && !st.visited[nbrs[0]]
    ensures var f := TraceFrame(n, adj, nbrs[0], depth + 1, st);
      var g := TraceLoop(n, adj, depth, nbrs[1..], st);
      TraceLoop(n, adj, depth, nbrs, st) == if f.found then f else Frame(f.events + g.events, g.state, g.found)
  {
  }

  // ---------------------------------------------------------------------------
  // The roots loop and the whole trace.

  /** The roots `start, start + 1, ..., last - 1` as the `start` events show them. */
  function RootsBetween(start: nat, last: nat): (r: seq<seq<Vertex>>)
    requires start <= last
    ensures |r| == last - start
    ensures forall i :: 0 <= i < |r| ==> r[i] == [start + i]
    decreases last - start
  {
    if start == last then [] else [[start]] + RootsBetween(start + 1, last)
  }

  /**
    What the roots loop from `start` yields, given what the plain search returns from there:
    on failure every remaining root is started, no solution appears and the last event is
    the only `fail`; on success the trace has the solution shape with the same path, the
    roots tried end with the path's first vertex, and there is no `fail`.
   */
  predicate RootsOk(t: seq<Event>, r: Option<seq<Vertex>>, n: nat, start: nat)
    requires start <= n
  {
    && |t| > 0
    && (start < n ==> t[0] == Event(Start, [start]))
    && (r.None? ==> && SolutionFree(t) && Last(t) == Event(Fail, []) && FailFree(t[..|t| - 1])
                    && StartsOf(t) == RootsBetween(start, n))
    && (r.Some? ==> && FoundShape(t, n, 1) && SolutionOf(t, n, 1) == r.value && FailFree(t)
                    && |r.value| == n && start <= r.value[0]
                    && StartsOf(t) == RootsBetween(start, r.value[0] + 1))
  }

  lemma {:induction false} StartsOfConcat(a: seq<Event>, b: seq<Event>)
    ensures StartsOf(a + b) == StartsOf(a) + StartsOf(b)
  {
    if a != [] {
      assert (a + b)[0] == a[0];
      assert (a + b)[1..] == a[1..] + b;
      StartsOfConcat(a[1..], b);
    } else {
      assert a + b == b;
    }
  }

  lemma {:induction false} InnerNoStarts(a: seq<Event>)
    requires Inner(a)
    ensures StartsOf(a) == []
  {
    if a != [] {
      InnerNoStarts(a[1..]);
    }
  }

  /** A root whose frame finds a path: the `start` event and that frame end the trace. */
  lemma RootStepFound(n: nat, adj: Adjacency, start: nat)
    requires WellFormed(n, adj) && start < n
    requires TraceFrame(n, adj, start, 1, B.Fresh(n)).found
    ensures var t := [Event(Start, [start])] + TraceFrame(n, adj, start, 1, B.Fresh(n)).events;
      RootsOk(t, B.Roots(n, adj, start, B.Fresh(n)), n, start) && VisitsExtend([], t)
  {
    var f := TraceFrame(n, adj, start, 1, B.Fresh(n));
    RootMatches(n, adj, start);
    RootFound(f, n, start);
    FrameVisits(n, adj, start, 1, B.Fresh(n));
    VisitsConcat([], [Event(Start, [start])], f.events);
  }

  /** A root whose frame fails: the `start` event and that frame come before the later roots. */
  lemma RootStepMissed(n: nat, adj: Adjacency, start: nat, rest: seq<Event>)
    requires WellFormed(n, adj) && start < n
    requires !TraceFrame(n, adj, start, 1, B.Fresh(n)).found
    requires RootsOk(rest, B.Roots(n, adj, start + 1, B.Fresh(n)), n, start + 1) && VisitsExtend([], rest)
    ensures var t := [Event(Start, [start])] + TraceFrame(n, adj, start, 1, B.Fresh(n)).events + rest;
      RootsOk(t, B.Roots(n, adj, start, B.Fresh(n)), n, start) && VisitsExtend([], t)
  {
    var x := Event(Start, [start]);
    var f := TraceFrame(n, adj, start, 1, B.Fresh(n));
    RootMatches(n, adj, start);
    RootMissed(f, rest, B.Roots(n, adj, start + 1, B.Fresh(n)), n, start, start + 1);
    FrameVisits(n, adj, start, 1, B.Fresh(n));
    FailedFrameEnds(n, adj, start, 1, B.Fresh(n));
    VisitsConcat([], [x], f.events);
    assert Last([x] + f.events) == Last(f.events);
    VisitsConcat([], [x] + f.events, rest);
  }

  /** The frame of root `start` agrees with `backtrack(start, 1)`, and so with the roots loop. */
  lemma RootMatches(n: nat, adj: Adjacency, start: nat)
    requires WellFormed(n, adj) && start < n
    ensures var st := B.Fresh(n);
      var f := TraceFrame(n, adj, start, 1, st);
      && FrameOk(f, n, 1, [], start)
      && (f.found ==> B.Roots(n, adj, start, st) == Some(SolutionOf(f.events, n, 1)))
      && (!f.found ==> B.Roots(n, adj, start, st) == B.Roots(n, adj, start + 1, st))
  {
    var st := B.Fresh(n);
    assert st.path + [start] == [start];
    FrameMatches(n, adj, start, 1, st);
    FrameShape(n, adj, start, 1, st);
  }

  lemma RootFound(f: Frame, n: nat, start: nat)
    requires 1 <= n && start < n && f.found
    requires FrameOk(f, n, 1, [], start)
    ensures RootsOk([Event(Start, [start])] + f.events, Some(SolutionOf(f.events, n, 1)), n, start)
  {
    var x := Event(Start, [start]);
    FoundShapeAfter([x], f.events, n, 1);
    var k := SolutionIndex(f.events, n, 1);
    var p := f.events[k].path;
    assert p[..1] == [start];
    assert p[0] == start;
    ConcatFree([x], f.events);
    StartsOfConcat([x], f.events);
    InnerNoStarts(f.events);
    assert StartsOf([x]) == [[start]];
    assert RootsBetween(start, start + 1) == [[start]];
  }

  lemma RootMissed(f: Frame, rest: seq<Event>, r: Option<seq<Vertex>>, n: nat, start: nat, next: nat)
    requires start < n && !f.found && next == start + 1
    requires FrameOk(f, n, 1, [], start)
    requires RootsOk(rest, r, n, next)
    ensures RootsOk([Event(Start, [start])] + f.events + rest, r, n, start)
  {
    var x := Event(Start, [start]);
    var a := [x] + f.events;
    ConcatFree([x], f.events);
    StartsOfConcat([x], f.events);
    InnerNoStarts(f.events);
    assert StartsOf([x]) == [[start]];
    StartsOfConcat(a, rest);
    assert StartsOf(a) == [[start]];
    if r.None? {
      RootMissedNone(a, rest, n, start, next);
    } else {
      FoundShapeAfter(a, rest, n, 1);
      ConcatFree(a, rest);
    }
  }

  lemma RootMissedNone(a: seq<Event>, rest: seq<Event>, n: nat, start: nat, next: nat)
    requires start < n && |a| > 0 && a[0] == Event(Start, [start]) && next == start + 1
    requires SolutionFree(a) && FailFree(a) && StartsOf(a) == [[start]]
    requires RootsOk(rest, None, n, next)
    ensures RootsOk(a + rest, None, n, start)
  {
    var t := a + rest;
    ConcatFree(a, rest);
    assert Last(t) == Last(rest);
    assert t[..|t| - 1] == a + rest[..|rest| - 1];
    ConcatFree(a, rest[..|rest| - 1]);
    StartsOfConcat(a, rest);
    assert t[0] == a[0];
  }

  // ---------------------------------------------------------------------------
  // Snapshots: each `visit` extends the path held just before it.

  lemma VisitsConcat(prev: seq<Vertex>, a: seq<Event>, b: seq<Event>)
    requires VisitsExtend(prev, a)
    requires a == [] ==> VisitsExtend(prev, b)
    requires a != [] ==> VisitsExtend(PathAfter(Last(a)), b)
    ensures VisitsExtend(prev, a + b)
  {
    if a == [] {
      assert a + b == b;
    } else {
      var c := a + b;
      forall i | 0 <= i < |c|
        ensures VisitExtends(prev, c, i)
      {
        if i >= |a| {
          var j := i - |a|;
          assert VisitExtends(PathAfter(Last(a)), b, j);
          assert c[i] == b[j];
          if j > 0 {
            assert c[i - 1] == b[j - 1];
          } else {
            assert c[i - 1] == Last(a);
          }
        } else {
          assert VisitExtends(prev, a, i);
          assert c[i] == a[i];
          if i > 0 {
            assert c[i - 1] == a[i - 1];
          }
        }
      }
    }
  }

  lemma {:induction false} FrameVisits(n: nat, adj: Adjacency, v: Vertex, depth: nat, st: B.SearchState)
    requires WellFormed(n, adj) && B.Consistent(n, st)
    requires v < n && !st.visited[v]
    requires depth == |st.path| + 1 <= n
    decreases n - depth, 1, 0
    ensures VisitsExtend(st.path, TraceFrame(n, adj, v, depth, st).events)
  {
    B.MarkConsistent(n, st, v);
    var m := B.Mark(st, v);
    var visit := Event(Visit, m.path);
    assert m.path[..|m.path| - 1] == st.path;
    if depth < n {
      var l := TraceLoop(n, adj, depth, adj[v], m);
      LoopVisits(n, adj, depth, adj[v], m);
      var bt := Event(Backtrack, B.Unmark(l.state, v).path);
      VisitsConcat(st.path, [visit], l.events);
      VisitsConcat(st.path, [visit] + l.events, [bt]);
    }
  }

  lemma {:induction false} LoopVisits(n: nat, adj: Adjacency, depth: nat, nbrs: seq<Vertex>, st: B.SearchState)
    requires WellFormed(n, adj) && B.Consistent(n, st) && InRange(n, nbrs)
    requires 1 <= depth == |st.path| < n
    decreases n - depth, 0, |nbrs|
    ensures VisitsExtend(st.path, TraceLoop(n, adj, depth, nbrs, st).events)
  {
    if nbrs != [] {
      LoopVisits(n, adj, depth, nbrs[1..], st);
      if st.visited[nbrs[0]] {
        TraceLoopSkip(n, adj, depth, nbrs, st);
      } else {
        FrameVisits(n, adj, nbrs[0], depth + 1, st);
        LoopVisitsEnter(n, adj, depth, nbrs, st);
      }
    }
  }

  lemma LoopVisitsEnter(n: nat, adj: Adjacency, depth: nat, nbrs: seq<Vertex>, st: B.SearchState)
    requires WellFormed(n, adj) && B.Consistent(n, st) && InRange(n, nbrs)
    requires 1 <= depth == |st.path| < n
    requires nbrs != [] && !st.visited[nbrs[0]]
    requires VisitsExtend(st.path, TraceFrame(n, adj, nbrs[0], depth + 1, st).events)
    requires VisitsExtend(st.path, TraceLoop(n, adj, depth, nbrs[1..], st).events)
    ensures VisitsExtend(st.path, TraceLoop(n, adj, depth, nbrs, st).events)
  {
    FailedFrameEnds(n, adj, nbrs[0], depth + 1, st);
    TraceLoopUnfold(n, adj, depth, nbrs, st);
    LoopVisitsStep(TraceFrame(n, adj, nbrs[0], depth + 1, st), TraceLoop(n, adj, depth, nbrs[1..], st), st.path);
  }

  lemma LoopVisitsStep(f: Frame, g: Frame, prev: seq<Vertex>)
    requires VisitsExtend(prev, f.events) && VisitsExtend(prev, g.events)
    requires !f.found ==> f.events != [] && PathAfter(Last(f.events)) == prev
    ensures VisitsExtend(prev, (if f.found then f else Frame(f.events + g.events, g.state, g.found)).events)
  {
    if !f.found {
      VisitsConcat(prev, f.events, g.events);
    }
  }

  lemma FailedFrameEnds(n: nat, adj: Adjacency, v: Vertex, depth: nat, st: B.SearchState)
    requires WellFormed(n, adj) && B.Consistent(n, st)
    requires v < n && !st.visited[v]
    requires depth == |st.path| + 1 <= n
    ensures var r := TraceFrame(n, adj, v, depth, st);
      !r.found ==> r.events != [] && PathAfter(Last(r.events)) == st.path
  {
    FrameShape(n, adj, v, depth, st);
  }

  // ---------------------------------------------------------------------------
  // The whole trace.

  /** After a solution `p` of an n-vertex graph, the backtracks shrink `p` one vertex at a time. */
  lemma {:induction false} UnwindAt(p: seq<Vertex>, d: nat, i: nat)
    requires d <= |p| && i < |p| - d
    ensures Unwind(p, d)[i] == Event(Backtrack, p[..|p| - 1 - i])
    decreases |p| - d
  {
    if i < |p| - d - 1 {
      UnwindAt(p, d + 1, i);
    }
  }

  /**
    The event sequence of the whole roots loop, read off its agreement with the plain
    search result `r`: ends in `fail` iff `r` is None, and otherwise has the single
    `solution` of `r`'s path followed by the `n - 1` shrinking backtracks.
   */
  predicate TraceOk(t: seq<Event>, r: Option<seq<Vertex>>, n: nat) {
    && |t| > 0
    && (r.None? <==> Last(t) == Event(Fail, []))
    && (r.None? <==> SolutionFree(t))
    && (r.None? ==> FailFree(t[..|t| - 1]) && StartsOf(t) == RootsBetween(0, n))
    && (r.Some? ==>
          var k := |t| - n;
          && 0 <= k < |t| && |r.value| == n && t[k] == Event(Solution, r.value)
          && SolutionFree(t[..k]) && FailFree(t)
          && (forall j :: k < j < |t| ==> t[j] == Event(Backtrack, r.value[..|t| - j]))
          && StartsOf(t) == RootsBetween(0, r.value[0] + 1))
  }

  lemma TraceOkFromRoots(t: seq<Event>, r: Option<seq<Vertex>>, n: nat)
    requires RootsOk(t, r, n, 0)
    ensures TraceOk(t, r, n)
  {
    if r.Some? {
      var k := |t| - n;
      var p := r.value;
      assert SolutionIndex(t, n, 1) == k;
      assert t[k] in t;
      assert Last(t) == t[|t| - 1];
      forall j | k < j < |t|
        ensures t[j] == Event(Backtrack, p[..|t| - j])
      {
        UnwindAt(p, 1, j - k - 1);
        assert t[j] == t[k + 1..][j - k - 1];
      }
    }
  }
}
