/**
  `heuristic_hamiltonian_path` (src/heuristic.py): for each start vertex, in a shuffled
  order, walk greedily to the unvisited neighbour of smallest degree, without ever
  backtracking; return the first walk that covers all `n` vertices.

  The shuffle is the parameter `order`, a permutation of `0..n-1`.  Python's
  `min(candidates, key=...)` keeps the first of several minima, so ties go to the
  candidate listed first in `adj[current]`, not to the smallest id.
 */
module Heuristic {
  import opened Basics
  import opened Graphs

  /** `order` lists every vertex `0..n-1` exactly once, as a shuffled `list(range(n))` does. */
  predicate IsPermutation(n: nat, order: seq<Vertex>) {
    |order| == n && InRange(n, order) && Distinct(order)
  }

  /** `[v for v in adj[current] if v not in visited]`, with `visited` the vertices of `path`. */
  function Candidates(adj: Adjacency, current: Vertex, path: seq<Vertex>): (c: seq<Vertex>)
    requires WellFormed(|adj|, adj) && current < |adj|
    ensures forall x :: x in c <==> x in adj[current] && x !in path
    ensures InRange(|adj|, c)
  {
    var c := CandidatesOf(adj[current], path);
    assert forall i :: 0 <= i < |c| ==> c[i] in adj[current];
    c
  }

  /** The elements of `nbrs` not on `path`, in their order. */
  function CandidatesOf(nbrs: seq<Vertex>, path: seq<Vertex>): (c: seq<Vertex>)
    ensures forall x :: x in c <==> x in nbrs && x !in path
    ensures |c| <= |nbrs|
  {
    if nbrs == [] then []
    else
      var rest := CandidatesOf(nbrs[..|nbrs| - 1], path);
      assert nbrs == nbrs[..|nbrs| - 1] + [Last(nbrs)];
      if Last(nbrs) in path then rest else rest + [Last(nbrs)]
  }

  /**
    `min(c, key=lambda x: len(adj[x]))`: scanning left to right, a candidate replaces the
    best so far only when its degree is strictly smaller.
   */
  function MinByDegree(adj: Adjacency, c: seq<Vertex>): (x: Vertex)
    requires |c| > 0 && InRange(|adj|, c)
    ensures x in c
    ensures GreedyChoice(adj, c, x)
  {
    if |c| == 1 then
      assert IsFirstMinimum(adj, c, 0);
      c[0]
    else
      var best := MinByDegree(adj, c[..|c| - 1]);
      ChoiceSnoc(adj, c, best);
      if |adj[Last(c)]| < |adj[best]| then Last(c) else best
  }

  /**
    Reference definition of the greedy choice from `c`: the candidate at `j` has the
    smallest degree, and every candidate before it has a strictly larger degree.
   */
  predicate IsFirstMinimum(adj: Adjacency, c: seq<Vertex>, j: nat)
    requires InRange(|adj|, c)
  {
    && j < |c|
    && (forall i :: 0 <= i < |c| ==> |adj[c[j]]| <= |adj[c[i]]|)
    && (forall i :: 0 <= i < j ==> |adj[c[j]]| < |adj[c[i]]|)
  }

  /** The walk from `path` with at most `fuel` more extensions. */
  function Walk(n: nat, adj: Adjacency, path: seq<Vertex>, fuel: nat): (w: seq<Vertex>)
    requires WellFormed(n, adj) && SimplePath(n, adj, path) && |path| > 0
    ensures SimplePath(n, adj, w) && path <= w && |w| <= |path| + fuel
    decreases fuel
  {
    var c := Candidates(adj, Last(path), path);
    if fuel == 0 || c == [] then path
    else
      var x := MinByDegree(adj, c);
      var p := path + [x];
      ExtendSimplePath(n, adj, path, x);
      var w := Walk(n, adj, p, fuel - 1);
      assert path <= p;
      w
  }

  /** One attempt: `path = [start]` and at most `n - 1` greedy extensions. */
  function WalkFrom(n: nat, adj: Adjacency, start: Vertex): (w: seq<Vertex>)
    requires WellFormed(n, adj) && start < n
    ensures SimplePath(n, adj, w) && |w| <= n && |w| > 0 && w[0] == start
    ensures GreedyWalk(adj, n, w)
  {
    assert SimplePath(n, adj, [start]);
    var w := Walk(n, adj, [start], n - 1);
    assert [start] <= w;
    GreedyStepsSingle(adj, start);
    WalkGreedy(n, adj, [start], n - 1, n);
    w
  }

  /**
    `for start in order: ... if len(visited) == n: return path`: the walk of the first
    start in `order` that covers all vertices, which is then a Hamiltonian path; None when
    every start fails, in particular when `order` is empty.
   */
  function TryStarts(n: nat, adj: Adjacency, order: seq<Vertex>): (r: Option<seq<Vertex>>)
    requires WellFormed(n, adj) && InRange(n, order)
    ensures FirstCovering(n, adj, order, r)
    ensures r.Some? ==> IsHamiltonianPath(n, adj, r.value)
    ensures order == [] ==> r.None?
  {
    if order == [] then None
    else
      var w := WalkFrom(n, adj, order[0]);
      if |w| == n then
        FirstCovers(n, adj, order);
        Some(w)
      else
        var rest := TryStarts(n, adj, order[1..]);
        FirstFails(n, adj, order, order[1..], rest);
        rest
  }

  /** `heuristic_hamiltonian_path(n, adj)` with the shuffled start order `order`. */
  function HeuristicHamiltonianPath(n: nat, adj: Adjacency, order: seq<Vertex>): (r: Option<seq<Vertex>>)
    requires WellFormed(n, adj) && IsPermutation(n, order)
    ensures r.Some? ==> IsHamiltonianPath(n, adj, r.value)
    ensures n == 0 ==> r.None?
  {
    TryStarts(n, adj, order)
  }

  // ---------------------------------------------------------------------------
  // The greedy choice.

  /** The greedy choice from `c` follows from the one from all of `c` but its last candidate. */
  lemma ChoiceSnoc(adj: Adjacency, c: seq<Vertex>, best: Vertex)
    requires |c| > 1 && InRange(|adj|, c) && GreedyChoice(adj, c[..|c| - 1], best)
    ensures GreedyChoice(adj, c, if |adj[Last(c)]| < |adj[best]| then Last(c) else best)
  {
    var init := c[..|c| - 1];
    var j :| 0 <= j < |init| && IsFirstMinimum(adj, init, j) && init[j] == best;
    FirstMinimumSnoc(adj, c, init, j);
  }

  /** Appending one candidate: it becomes the first minimum exactly when its degree is strictly smaller. */
  lemma FirstMinimumSnoc(adj: Adjacency, c: seq<Vertex>, init: seq<Vertex>, j: nat)
    requires |c| > 1 && InRange(|adj|, c) && init == c[..|c| - 1] && IsFirstMinimum(adj, init, j)
    ensures |adj[Last(c)]| < |adj[init[j]]| ==> IsFirstMinimum(adj, c, |c| - 1)
    ensures |adj[Last(c)]| >= |adj[init[j]]| ==> IsFirstMinimum(adj, c, j)
  {
    assert forall i :: 0 <= i < |init| ==> c[i] == init[i];
  }

  /** The first minimum is unique, so it pins down Python's `min` completely. */
  lemma FirstMinimumUnique(adj: Adjacency, c: seq<Vertex>, j: nat, k: nat)
    requires InRange(|adj|, c)
    requires IsFirstMinimum(adj, c, j) && IsFirstMinimum(adj, c, k)
    ensures j == k
  {
    var dj, dk := |adj[c[j]]|, |adj[c[k]]|;
    assert dj == dk;
    assert !(j < k) && !(k < j);
  }

  // ---------------------------------------------------------------------------
  // The walk.

  /**
    Extension `i` of the walk `w` is a greedy choice: `w[i]` is the first minimum-degree
    unvisited neighbour of `w[i - 1]`.
   */
  predicate GreedyStep(adj: Adjacency, w: seq<Vertex>, i: nat)
    requires WellFormed(|adj|, adj) && InRange(|adj|, w) && 0 < i < |w|
  {
    GreedyChoice(adj, Candidates(adj, w[i - 1], w[..i]), w[i])
  }

  /** `x` is the candidate Python's `min` picks from `c`. */
  predicate GreedyChoice(adj: Adjacency, c: seq<Vertex>, x: Vertex)
    requires InRange(|adj|, c)
  {
    exists j :: 0 <= j < |c| && IsFirstMinimum(adj, c, j) && c[j] == x
  }

  predicate GreedySteps(adj: Adjacency, w: seq<Vertex>)
    requires WellFormed(|adj|, adj) && InRange(|adj|, w)
  {
    forall i :: 0 < i < |w| ==> GreedyStep(adj, w, i)
  }

  /**
    The walk `w` consists of greedy choices only, and stops short of `bound` vertices
    only when its current vertex has no unvisited neighbour left.
   */
  predicate GreedyWalk(adj: Adjacency, bound: nat, w: seq<Vertex>)
    requires WellFormed(|adj|, adj) && InRange(|adj|, w) && |w| > 0
  {
    && GreedySteps(adj, w)
    && (|w| < bound ==> Candidates(adj, Last(w), w) == [])
  }

  /**
    The walk never backtracks, extends only by greedy choices, and stops early only when
    the current vertex has no unvisited neighbour left.
   */
  lemma {:induction false} WalkGreedy(n: nat, adj: Adjacency, path: seq<Vertex>, fuel: nat, bound: nat)
    requires WellFormed(n, adj) && SimplePath(n, adj, path) && |path| > 0
    requires GreedySteps(adj, path) && bound == |path| + fuel
    ensures GreedyWalk(adj, bound, Walk(n, adj, path, fuel))
    decreases fuel
  {
    if fuel > 0 && Candidates(adj, Last(path), path) != [] {
      var p := GreedyUnfold(n, adj, path, fuel);
      WalkGreedy(n, adj, p, fuel - 1, bound);
    } else {
      GreedyStops(n, adj, path, fuel);
    }
  }

  /** `WalkUnfold`, keeping the walk greedy. */
  lemma GreedyUnfold(n: nat, adj: Adjacency, path: seq<Vertex>, fuel: nat) returns (p: seq<Vertex>)
    requires WellFormed(n, adj) && SimplePath(n, adj, path) && |path| > 0
    requires fuel > 0 && Candidates(adj, Last(path), path) != []
    requires GreedySteps(adj, path)
    ensures SimplePath(n, adj, p) && |p| > 0 && GreedySteps(adj, p)
    ensures |p| == |path| + 1
    ensures Walk(n, adj, p, fuel - 1) == Walk(n, adj, path, fuel)
  {
    var c := Candidates(adj, Last(path), path);
    p := WalkUnfold(n, adj, path, fuel);
    GreedyStepsExtend(adj, path, MinByDegree(adj, c));
  }

  /** One greedy extension: the walk from `path` continues as the walk from `path + [x]`. */
  lemma WalkUnfold(n: nat, adj: Adjacency, path: seq<Vertex>, fuel: nat) returns (p: seq<Vertex>)
    requires WellFormed(n, adj) && SimplePath(n, adj, path) && |path| > 0
    requires fuel > 0 && Candidates(adj, Last(path), path) != []
    ensures p == path + [MinByDegree(adj, Candidates(adj, Last(path), path))]
    ensures SimplePath(n, adj, p) && Walk(n, adj, path, fuel) == Walk(n, adj, p, fuel - 1)
  {
    p := path + [MinByDegree(adj, Candidates(adj, Last(path), path))];
  }

  lemma WalkStops(n: nat, adj: Adjacency, path: seq<Vertex>, fuel: nat)
    requires WellFormed(n, adj) && SimplePath(n, adj, path) && |path| > 0
    requires fuel == 0 || Candidates(adj, Last(path), path) == []
    ensures Walk(n, adj, path, fuel) == path
  {
  }

  /** `WalkStops`, for a greedy path. */
  lemma GreedyStops(n: nat, adj: Adjacency, path: seq<Vertex>, fuel: nat)
    requires WellFormed(n, adj) && SimplePath(n, adj, path) && |path| > 0
    requires fuel == 0 || Candidates(adj, Last(path), path) == []
    requires GreedySteps(adj, path)
    ensures GreedyWalk(adj, |path| + fuel, Walk(n, adj, path, fuel))
  {
    WalkStops(n, adj, path, fuel);
  }

  lemma GreedyStepsExtend(adj: Adjacency, path: seq<Vertex>, x: Vertex)
    requires WellFormed(|adj|, adj) && InRange(|adj|, path) && |path| > 0 && x < |adj|
    requires GreedySteps(adj, path)
    requires GreedyChoice(adj, Candidates(adj, Last(path), path), x)
    ensures GreedySteps(adj, path + [x])
  {
    var p := path + [x];
    forall i | 0 < i < |p|
      ensures GreedyStep(adj, p, i)
    {
      if i == |path| {
        assert p[..i] == path && p[i - 1] == Last(path);
      } else {
        assert GreedyStep(adj, path, i);
        assert p[..i] == path[..i] && p[i - 1] == path[i - 1] && p[i] == path[i];
      }
    }
  }

  /** An attempt covers all vertices, or stops at a vertex whose neighbours are all visited. */
  lemma WalkFromStopsOnlyWhenStuck(n: nat, adj: Adjacency, start: Vertex)
    requires WellFormed(n, adj) && start < n
    ensures var w := WalkFrom(n, adj, start);
      && GreedySteps(adj, w)
      && (|w| == n || Candidates(adj, Last(w), w) == [])
  {
    GreedyWalkStuck(adj, n, WalkFrom(n, adj, start));
  }

  lemma GreedyStepsSingle(adj: Adjacency, start: Vertex)
    requires WellFormed(|adj|, adj) && start < |adj|
    ensures GreedySteps(adj, [start])
  {
  }

  lemma GreedyWalkStuck(adj: Adjacency, n: nat, w: seq<Vertex>)
    requires WellFormed(|adj|, adj) && InRange(|adj|, w) && 0 < |w| <= n
    requires GreedyWalk(adj, n, w)
    ensures GreedySteps(adj, w) && (|w| == n || Candidates(adj, Last(w), w) == [])
  {
  }

  // ---------------------------------------------------------------------------
  // The start loop.

  /**
    `r` is the walk of the first start in `order` whose walk covers all vertices; every
    start before it fails, and None means every start fails.
   */
  predicate FirstCovering(n: nat, adj: Adjacency, order: seq<Vertex>, r: Option<seq<Vertex>>)
    requires WellFormed(n, adj) && InRange(n, order)
  {
    FirstCoveringOf(n, Attempts(n, adj, order), r)
  }

  /** The walk of each start in `order`, in that order. */
  function Attempts(n: nat, adj: Adjacency, order: seq<Vertex>): seq<seq<Vertex>>
    requires WellFormed(n, adj) && InRange(n, order)
  {
    if order == [] then [] else [WalkFrom(n, adj, order[0])] + Attempts(n, adj, order[1..])
  }

  /** `r` is the first walk of `ws` with `n` vertices, and None when there is none. */
  predicate FirstCoveringOf(n: nat, ws: seq<seq<Vertex>>, r: Option<seq<Vertex>>) {
    && (r.None? <==> forall k :: 0 <= k < |ws| ==> |ws[k]| < n)
    && (r.Some? ==> exists k :: 0 <= k < |ws| && r.value == ws[k] && |ws[k]| == n
                      && forall i :: 0 <= i < k ==> |ws[i]| < n)
  }

  /** A failing first start passes the search on to the rest of the order. */
  lemma FirstFails(n: nat, adj: Adjacency, order: seq<Vertex>, rest: seq<Vertex>, r: Option<seq<Vertex>>)
    requires WellFormed(n, adj) && InRange(n, order) && order != [] && rest == order[1..]
    requires |WalkFrom(n, adj, order[0])| < n && FirstCovering(n, adj, rest, r)
    ensures FirstCovering(n, adj, order, r)
  {
    var ws := Attempts(n, adj, order);
    assert ws == [WalkFrom(n, adj, order[0])] + Attempts(n, adj, rest);
    FirstFailsOf(n, ws, r);
  }

  /** A first start that covers all vertices is the one chosen. */
  lemma FirstCovers(n: nat, adj: Adjacency, order: seq<Vertex>)
    requires WellFormed(n, adj) && InRange(n, order) && order != []
    requires |WalkFrom(n, adj, order[0])| == n
    ensures FirstCovering(n, adj, order, Some(WalkFrom(n, adj, order[0])))
  {
    var ws := Attempts(n, adj, order);
    assert ws == [WalkFrom(n, adj, order[0])] + Attempts(n, adj, order[1..]);
    FirstCoversOf(n, ws);
  }

  /** A first walk with `n` vertices is the one chosen. */
  lemma FirstCoversOf(n: nat, ws: seq<seq<Vertex>>)
    requires ws != [] && |ws[0]| == n
    ensures FirstCoveringOf(n, ws, Some(ws[0]))
  {
    assert !(forall k :: 0 <= k < |ws| ==> |ws[k]| < n) by {
      assert |ws[0]| == n;
    }
  }

  /** A first walk short of `n` vertices passes the choice on to the rest. */
  lemma FirstFailsOf(n: nat, ws: seq<seq<Vertex>>, r: Option<seq<Vertex>>)
    requires ws != [] && |ws[0]| < n && FirstCoveringOf(n, ws[1..], r)
    ensures FirstCoveringOf(n, ws, r)
  {
    var rest := ws[1..];
    if r.Some? {
      var k :| 0 <= k < |rest| && r.value == rest[k] && |rest[k]| == n
               && forall i :: 0 <= i < k ==> |rest[i]| < n;
      assert ws[k + 1] == rest[k];
      assert forall i :: 0 <= i < k + 1 ==> |ws[i]| < n by {
        forall i | 0 <= i < k + 1 ensures |ws[i]| < n {
          if i > 0 { assert ws[i] == rest[i - 1]; }
        }
      }
    } else {
      forall i | 0 <= i < |ws| ensures |ws[i]| < n {
        if i > 0 { assert ws[i] == rest[i - 1]; }
      }
    }
  }

  /** Whatever the shuffle, a heuristic success means the graph has a Hamiltonian path. */
  lemma HeuristicSuccessImpliesPath(n: nat, adj: Adjacency, order: seq<Vertex>)
    requires WellFormed(n, adj) && IsPermutation(n, order)
    requires HeuristicHamiltonianPath(n, adj, order).Some?
    ensures n > 0 && HasHamiltonianPath(n, adj)
  {
    var p := HeuristicHamiltonianPath(n, adj, order).value;
    assert IsHamiltonianPath(n, adj, p);
  }
}
