/**
  `generate_random_graph(n, p)` and `save_graph(path, n, edges)`
  (src/utils/graph_generator.py), and the round trip through `load_graph`.

  `random.random()` is called once per pair `(i, j)`, `i < j`, in the order of the two
  nested loops; the model takes those values as the sequence `coins`, one per pair.
 */
module Generator {
  import opened Basics
  import opened Graphs
  import opened Text
  import opened GraphIO
  import H = Heuristic

  // ---------------------------------------------------------------------------
  // The pairs the nested loops visit.

  /** `(i, j)` for `j` in `j0..n-1`: the tail of row `i` of the loops. */
  function Row(i: nat, j0: nat, n: nat): seq<Edge>
    decreases n - j0
  {
    if j0 >= n then [] else [(i, j0)] + Row(i, j0 + 1, n)
  }

  /** Rows `i0..n-1`, each row `i` being `(i, i + 1) .. (i, n - 1)`. */
  function PairsFrom(i0: nat, n: nat): seq<Edge>
    decreases n - i0
  {
    if i0 >= n then [] else Row(i0, i0 + 1, n) + PairsFrom(i0 + 1, n)
  }

  /** Every pair visited by `for i in range(n): for j in range(i + 1, n)`, in visiting order. */
  function AllPairs(n: nat): (r: seq<Edge>)
    ensures Oriented(n, r) && LexAscending(r)
  {
    PairsFromOrdered(0, n);
    PairsFrom(0, n)
  }

  predicate LexLess(a: Edge, b: Edge) {
    a.0 < b.0 || (a.0 == b.0 && a.1 < b.1)
  }

  /** Strictly increasing in lexicographic order (hence without duplicates). */
  predicate LexAscending(es: seq<Edge>) {
    forall i, j :: 0 <= i < j < |es| ==> LexLess(es[i], es[j])
  }

  /** Every edge is `(i, j)` with `i < j < n`. */
  predicate Oriented(n: nat, es: seq<Edge>) {
    forall k :: 0 <= k < |es| ==> es[k].0 < es[k].1 < n
  }

  /** The pairs whose coin is below `p`, in order: a pair is kept iff some position holding it drew a coin below `p`. */
  function Select(pairs: seq<Edge>, coins: seq<real>, p: real): (r: seq<Edge>)
    requires |coins| == |pairs|
    ensures |r| <= |pairs|
    ensures forall x :: x in r <==> exists k :: 0 <= k < |pairs| && pairs[k] == x && coins[k] < p
  {
    if pairs == [] then []
    else
      var m := |pairs| - 1;
      var init := Select(pairs[..m], coins[..m], p);
      assert forall k :: 0 <= k < m ==> pairs[..m][k] == pairs[k] && coins[..m][k] == coins[k];
      if Last(coins) < p then init + [Last(pairs)] else init
  }

  /** The edges `generate_random_graph(n, p)` returns when `random.random()` yields `coins`. */
  function RandomEdges(n: nat, p: real, coins: seq<real>): (edges: seq<Edge>)
    requires |coins| == |AllPairs(n)|
    ensures EdgesInRange(n, edges) && Oriented(n, edges)
  {
    var pairs := AllPairs(n);
    var edges := Select(pairs, coins, p);
    assert forall k :: 0 <= k < |edges| ==> edges[k] in pairs by {
      forall k | 0 <= k < |edges| ensures edges[k] in pairs {
        assert edges[k] in edges;
        var j :| 0 <= j < |pairs| && pairs[j] == edges[k] && coins[j] < p;
      }
    }
    edges
  }

  /** `generate_random_graph(n, p)` with the `random.random()` values `coins`. */
  method GenerateRandomGraph(n: nat, p: real, coins: seq<real>) returns (edges: seq<Edge>)
    requires |coins| == |AllPairs(n)|
    ensures edges == RandomEdges(n, p, coins)
  {
    edges := [];
    ghost var pairs := AllPairs(n);
    ghost var done: seq<Edge> := [];
    var k := 0;
    for i := 0 to n
      invariant k == |done| <= |coins| == |pairs|
      invariant pairs == done + PairsFrom(i, n)
      invariant edges == Select(done, coins[..k], p)
    {
      EnterRow(pairs, done, i, n);
      for j := i + 1 to n
        invariant k == |done| <= |coins|
        invariant pairs == done + Row(i, j, n) + PairsFrom(i + 1, n)
        invariant edges == Select(done, coins[..k], p)
      {
        ConsumePair(pairs, done, i, j, n);
        SelectSnoc(done, (i, j), coins, k, p);
        if coins[k] < p {
          edges := edges + [(i, j)];
        }
        done := done + [(i, j)];
        k := k + 1;
      }
      LeaveRow(pairs, done, i, n);
    }
    assert done == pairs && coins[..k] == coins;
  }

  lemma EnterRow(pairs: seq<Edge>, done: seq<Edge>, i: nat, n: nat)
    requires i < n && pairs == done + PairsFrom(i, n)
    ensures pairs == done + Row(i, i + 1, n) + PairsFrom(i + 1, n)
  {
  }

  lemma LeaveRow(pairs: seq<Edge>, done: seq<Edge>, i: nat, n: nat)
    requires pairs == done + Row(i, n, n) + PairsFrom(i + 1, n)
    ensures pairs == done + PairsFrom(i + 1, n)
  {
    assert Row(i, n, n) == [];
  }

  lemma ConsumePair(pairs: seq<Edge>, done: seq<Edge>, i: nat, j: nat, n: nat)
    requires j < n && pairs == done + Row(i, j, n) + PairsFrom(i + 1, n)
    ensures |done| < |pairs| && pairs[|done|] == (i, j)
    ensures pairs == (done + [(i, j)]) + Row(i, j + 1, n) + PairsFrom(i + 1, n)
  {
    assert Row(i, j, n) == [(i, j)] + Row(i, j + 1, n);
    Regroup(done, (i, j), Row(i, j + 1, n), PairsFrom(i + 1, n));
  }

  lemma Regroup<T>(a: seq<T>, x: T, r: seq<T>, q: seq<T>)
    ensures a + ([x] + r) + q == (a + [x]) + r + q
    ensures |a| < |a + ([x] + r) + q| && (a + ([x] + r) + q)[|a|] == x
  {
    assert a + ([x] + r) == (a + [x]) + r;
  }

  /** One more pair and its coin: the selection grows by that pair iff the coin is below `p`. */
  lemma SelectSnoc(done: seq<Edge>, x: Edge, coins: seq<real>, k: nat, p: real)
    requires k == |done| < |coins|
    ensures Select(done + [x], coins[..k + 1], p)
         == Select(done, coins[..k], p) + (if coins[k] < p then [x] else [])
  {
    assert (done + [x])[..k] == done && coins[..k + 1][..k] == coins[..k];
  }

  /** `save_graph(path, n, edges)`: the header `n len(edges)`, then one `u v` line per edge. */
  function SaveGraph(n: nat, edges: seq<Edge>): (lines: seq<string>)
    ensures |lines| == |edges| + 1
  {
    [PairLine(n, |edges|)] + EdgeLines(edges)
  }

  /** `f"{a} {b}\n"`. */
  function PairLine(a: nat, b: nat): string {
    NatToString(a) + " " + NatToString(b) + "\n"
  }

  function EdgeLines(edges: seq<Edge>): (lines: seq<string>)
    ensures |lines| == |edges|
    ensures forall k :: 0 <= k < |edges| ==> lines[k] == PairLine(edges[k].0, edges[k].1)
  {
    seq(|edges|, k requires 0 <= k < |edges| => PairLine(edges[k].0, edges[k].1))
  }

  // ---------------------------------------------------------------------------
  // The pairs: shape, order and count.

  lemma {:induction false} RowShape(i: nat, j0: nat, n: nat)
    requires i < j0
    ensures |Row(i, j0, n)| == if j0 <= n then n - j0 else 0
    ensures forall k :: 0 <= k < |Row(i, j0, n)| ==> Row(i, j0, n)[k] == (i, j0 + k)
    decreases n - j0
  {
    if j0 < n {
      RowShape(i, j0 + 1, n);
    }
  }

  /** Every pair of rows `i0..` starts at `i0` or later; the rows come in increasing order. */
  lemma {:induction false} PairsFromOrdered(i0: nat, n: nat)
    ensures Oriented(n, PairsFrom(i0, n)) && LexAscending(PairsFrom(i0, n))
    ensures forall k :: 0 <= k < |PairsFrom(i0, n)| ==> PairsFrom(i0, n)[k].0 >= i0
    decreases n - i0
  {
    if i0 < n {
      PairsFromOrdered(i0 + 1, n);
      RowShape(i0, i0 + 1, n);
      var row, rest := Row(i0, i0 + 1, n), PairsFrom(i0 + 1, n);
      var all := row + rest;
      assert forall k :: 0 <= k < |row| ==> all[k] == row[k];
      assert forall k :: |row| <= k < |all| ==> all[k] == rest[k - |row|];
    }
  }

  /** Rows `i0..` contain every pair `i0 <= i < j < n`. */
  lemma {:induction false} PairsFromComplete(i0: nat, n: nat)
    ensures forall i, j :: i0 <= i < j < n ==> (i, j) in PairsFrom(i0, n)
    decreases n - i0
  {
    if i0 < n {
      PairsFromComplete(i0 + 1, n);
      RowShape(i0, i0 + 1, n);
      var row, rest := Row(i0, i0 + 1, n), PairsFrom(i0 + 1, n);
      forall i, j | i0 <= i < j < n ensures (i, j) in row + rest {
        if i == i0 {
          assert row[j - i0 - 1] == (i, j);
        } else {
          assert (i, j) in rest;
        }
      }
    }
  }

  /**
    The loops visit exactly the pairs `i < j < n`, each once, in strictly increasing
    lexicographic order: `n (n - 1) / 2` of them.
   */
  lemma AllPairsShape(n: nat)
    ensures forall i: nat, j: nat :: (i, j) in AllPairs(n) <==> i < j < n
    ensures 2 * |AllPairs(n)| == n * (n - 1)
  {
    PairsFromComplete(0, n);
    var pairs := AllPairs(n);
    assert pairs == PairsFrom(0, n);
    forall i: nat, j: nat ensures (i, j) in pairs <==> i < j < n {
      if (i, j) in pairs {
        var k :| 0 <= k < |pairs| && pairs[k] == (i, j);
        assert pairs[k].0 < pairs[k].1 < n;
      }
    }
    PairsCount(0, n);
  }

  lemma {:induction false} PairsCount(i0: nat, n: nat)
    requires i0 <= n
    ensures 2 * |PairsFrom(i0, n)| == (n - i0) * (n - i0 - 1)
    decreases n - i0
  {
    if i0 < n {
      PairsCount(i0 + 1, n);
      RowShape(i0, i0 + 1, n);
    }
  }

  // ---------------------------------------------------------------------------
  // The selection.

  /** The selection keeps the order of the pairs. */
  lemma {:induction false} SelectAscending(pairs: seq<Edge>, coins: seq<real>, p: real)
    requires |coins| == |pairs| && LexAscending(pairs)
    ensures LexAscending(Select(pairs, coins, p))
  {
    if pairs != [] {
      var init := pairs[..|pairs| - 1];
      assert LexAscending(init);
      SelectAscending(init, coins[..|coins| - 1], p);
      var s := Select(init, coins[..|coins| - 1], p);
      forall x | x in s ensures LexLess(x, Last(pairs)) {
        var k :| 0 <= k < |init| && init[k] == x;
      }
    }
  }

  /** Pair `k` is selected exactly when its coin is below `p`. */
  lemma {:induction false} SelectMembership(pairs: seq<Edge>, coins: seq<real>, p: real, k: nat)
    requires |coins| == |pairs| && LexAscending(pairs) && k < |pairs|
    ensures pairs[k] in Select(pairs, coins, p) <==> coins[k] < p
  {
    var init := pairs[..|pairs| - 1];
    var s := Select(init, coins[..|coins| - 1], p);
    assert LexAscending(init);
    if k < |pairs| - 1 {
      SelectMembership(init, coins[..|coins| - 1], p, k);
      assert pairs[k] != Last(pairs) by { assert LexLess(pairs[k], Last(pairs)); }
    } else {
      assert Last(pairs) !in init by {
        assert forall j :: 0 <= j < |init| ==> LexLess(init[j], Last(pairs));
      }
    }
  }

  lemma {:induction false} SelectNone(pairs: seq<Edge>, coins: seq<real>, p: real)
    requires |coins| == |pairs| && forall k :: 0 <= k < |coins| ==> p <= coins[k]
    ensures Select(pairs, coins, p) == []
  {
    if pairs != [] {
      SelectNone(pairs[..|pairs| - 1], coins[..|coins| - 1], p);
    }
  }

  lemma {:induction false} SelectAll(pairs: seq<Edge>, coins: seq<real>, p: real)
    requires |coins| == |pairs| && forall k :: 0 <= k < |coins| ==> coins[k] < p
    ensures Select(pairs, coins, p) == pairs
  {
    if pairs != [] {
      SelectAll(pairs[..|pairs| - 1], coins[..|coins| - 1], p);
    }
  }

  /** `random.random()` returns values in `[0, 1)`. */
  predicate UnitCoins(coins: seq<real>) {
    forall k :: 0 <= k < |coins| ==> 0.0 <= coins[k] < 1.0
  }

  /**
    Every generated edge is `(i, j)` with `i < j < n`, the edges are strictly increasing,
    pair `k` is an edge iff its coin is below `p`, and with coins in `[0, 1)` a `p <= 0`
    gives no edge and a `p >= 1` gives all `n (n - 1) / 2` pairs.
   */
  lemma GeneratedEdges(n: nat, p: real, coins: seq<real>)
    requires |coins| == |AllPairs(n)|
    ensures var edges := RandomEdges(n, p, coins);
      && Oriented(n, edges) && LexAscending(edges)
      && 2 * |edges| <= n * (n - 1)
      && (forall k :: 0 <= k < |coins| ==> (AllPairs(n)[k] in edges <==> coins[k] < p))
      && (UnitCoins(coins) && p <= 0.0 ==> edges == [])
      && (UnitCoins(coins) && p >= 1.0 ==> edges == AllPairs(n))
  {
    var pairs := AllPairs(n);
    var edges := RandomEdges(n, p, coins);
    AllPairsShape(n);
    SelectAscending(pairs, coins, p);
    forall k | 0 <= k < |coins| ensures pairs[k] in edges <==> coins[k] < p {
      SelectMembership(pairs, coins, p, k);
    }
    if UnitCoins(coins) && p <= 0.0 {
      SelectNone(pairs, coins, p);
    }
    if UnitCoins(coins) && p >= 1.0 {
      SelectAll(pairs, coins, p);
    }
  }

  // ---------------------------------------------------------------------------
  // Neighbour order of generated graphs.

  /**
    With lexicographically increasing edges `(i, j)`, `i < j`, every adjacency list is in
    increasing vertex order.
   */
  lemma {:induction false} AscendingNeighbours(n: nat, edges: seq<Edge>, u: Vertex)
    requires Oriented(n, edges) && LexAscending(edges)
    ensures Ascending(NeighboursOf(u, edges))
  {
    if edges != [] {
      var init := edges[..|edges| - 1];
      var e := Last(edges);
      assert Oriented(n, init) && LexAscending(init);
      AscendingNeighbours(n, init, u);
      var s := NeighboursOf(u, init);
      var c := Contribution(u, e);
      forall x | x in s ensures forall y :: y in c ==> x < y {
        NeighboursOfJoined(init, u, x);
        var k :| 0 <= k < |init| && (init[k] == (u, x) || init[k] == (x, u));
        assert LexLess(edges[k], e);
      }
      assert |c| <= 1;
      ConcatAscending(s, c);
    }
  }

  lemma ConcatAscending(s: seq<int>, c: seq<int>)
    requires Ascending(s) && |c| <= 1
    requires forall x :: x in s ==> forall y :: y in c ==> x < y
    ensures Ascending(s + c)
  {
    if |c| == 1 {
      forall i, j | 0 <= i < j < |s + c| ensures (s + c)[i] < (s + c)[j] {
        if j == |s| {
          assert (s + c)[i] in s && c[0] in c;
        }
      }
    }
  }

  /** Filtering out visited vertices keeps a list ascending. */
  lemma {:induction false} CandidatesOfAscending(nbrs: seq<Vertex>, path: seq<Vertex>)
    requires Ascending(nbrs)
    ensures Ascending(H.CandidatesOf(nbrs, path))
  {
    if nbrs != [] {
      var init := nbrs[..|nbrs| - 1];
      assert Ascending(init);
      CandidatesOfAscending(init, path);
      var c := H.CandidatesOf(init, path);
      forall x | x in c ensures x < Last(nbrs) {
        var k :| 0 <= k < |init| && init[k] == x;
      }
      ConcatAscending(c, [Last(nbrs)]);
    }
  }

  /**
    On an ascending candidate list Python's first-minimum rule picks, among the
    candidates of smallest degree, the one with the smallest id.
   */
  lemma LowestIdTieBreak(adj: Adjacency, c: seq<Vertex>)
    requires |c| > 0 && InRange(|adj|, c) && Ascending(c)
    ensures var x := H.MinByDegree(adj, c);
      forall y :: y in c ==> |adj[x]| <= |adj[y]| && (|adj[y]| == |adj[x]| ==> x <= y)
  {
    var x := H.MinByDegree(adj, c);
    var j :| 0 <= j < |c| && H.IsFirstMinimum(adj, c, j) && c[j] == x;
    forall y | y in c ensures |adj[x]| <= |adj[y]| && (|adj[y]| == |adj[x]| ==> x <= y) {
      var i :| 0 <= i < |c| && c[i] == y;
      if i < j {
        assert |adj[c[j]]| < |adj[c[i]]|;
      }
    }
  }

  /**
    In a generated graph the heuristic's step from `current` goes to the lowest-id
    unvisited neighbour among those of smallest degree.
   */
  lemma GeneratedTieBreak(n: nat, p: real, coins: seq<real>, current: Vertex, path: seq<Vertex>)
    requires |coins| == |AllPairs(n)| && current < n
    ensures var adj := AdjFromEdges(n, RandomEdges(n, p, coins));
      var c := H.Candidates(adj, current, path);
      c != [] ==> var x := H.MinByDegree(adj, c);
        forall y :: y in c ==> |adj[x]| <= |adj[y]| && (|adj[y]| == |adj[x]| ==> x <= y)
  {
    var edges := RandomEdges(n, p, coins);
    SelectAscending(AllPairs(n), coins, p);
    var adj := AdjFromEdges(n, edges);
    AdjFromEdgesNeighbours(n, edges, current);
    AscendingNeighbours(n, edges, current);
    CandidatesOfAscending(adj[current], path);
    var c := H.Candidates(adj, current, path);
    if c != [] {
      LowestIdTieBreak(adj, c);
    }
  }

  // ---------------------------------------------------------------------------
  // Saving and loading.

  lemma PairLineParses(a: nat, b: nat)
    ensures ParsePair(PairLine(a, b)) == Some((a as int, b as int))
  {
    ParseNatToString(a);
    ParseNatToString(b);
    WordsOfPairLine(NatToString(a), NatToString(b));
  }

  /** Loading what `save_graph` wrote gives back `n` and the adjacency of the edges. */
  lemma SaveLoadRoundTrip(n: nat, edges: seq<Edge>)
    requires EdgesInRange(n, edges)
    ensures LoadGraph(SaveGraph(n, edges)) == Ok((n as int, AdjFromEdges(n, edges)))
  {
    var lines := SaveGraph(n, edges);
    PairLineParses(n, |edges|);
    forall k | 0 <= k < |edges|
      ensures ParsePair(lines[k + 1]) == Some((edges[k].0 as int, edges[k].1 as int))
    {
      SavedEdgeLine(n, edges, k);
    }
    LoadGraphEdges(lines, n, edges);
  }

  /** Line `k + 1` of the file is the line of edge `k`. */
  lemma SavedEdgeLine(n: nat, edges: seq<Edge>, k: nat)
    requires k < |edges|
    ensures ParsePair(SaveGraph(n, edges)[k + 1]) == Some((edges[k].0 as int, edges[k].1 as int))
  {
    assert SaveGraph(n, edges)[k + 1] == EdgeLines(edges)[k];
    PairLineParses(edges[k].0, edges[k].1);
  }

  /** In the graph built from generated edges, `i < j` are neighbours iff their coin is below `p`. */
  lemma GeneratedAdjacency(n: nat, p: real, coins: seq<real>, k: nat)
    requires |coins| == |AllPairs(n)| && k < |coins|
    ensures var adj := AdjFromEdges(n, RandomEdges(n, p, coins));
      var e := AllPairs(n)[k];
      && (e.1 in adj[e.0] <==> coins[k] < p)
      && (e.0 in adj[e.1] <==> coins[k] < p)
  {
    var edges := RandomEdges(n, p, coins);
    var (i, j) := AllPairs(n)[k];
    SelectMembership(AllPairs(n), coins, p, k);
    AdjFromEdgesJoined(n, edges, i, j);
    AdjFromEdgesJoined(n, edges, j, i);
    assert Joined(edges, i, j) <==> (i, j) in edges by {
      if Joined(edges, i, j) {
        var m :| 0 <= m < |edges| && (edges[m] == (i, j) || edges[m] == (j, i));
        assert edges[m].0 < edges[m].1;
      }
      if (i, j) in edges {
        var m :| 0 <= m < |edges| && edges[m] == (i, j);
      }
    }
  }

  /**
    Saving a generated graph and loading it back gives `n` lists in which `i < j` are
    neighbours of each other exactly when the coin of the pair `(i, j)` is below `p`.
   */
  lemma GeneratedRoundTrip(n: nat, p: real, coins: seq<real>, k: nat)
    requires |coins| == |AllPairs(n)| && k < |coins|
    ensures var edges := RandomEdges(n, p, coins);
      var adj := AdjFromEdges(n, edges);
      var e := AllPairs(n)[k];
      && LoadGraph(SaveGraph(n, edges)) == Ok((n as int, adj))
      && (e.1 in adj[e.0] <==> coins[k] < p)
      && (e.0 in adj[e.1] <==> coins[k] < p)
  {
    SaveLoadRoundTrip(n, RandomEdges(n, p, coins));
    GeneratedAdjacency(n, p, coins, k);
  }
}
