/**
  `load_graph(path)` (src/graph_io.py) as a pure parser: the file is given as the list of
  its lines, as `readline()` and `for line in f` deliver them.  The first line holds
  `n m`, every further line one edge `u v`; the result is `n` and an adjacency list of
  `n` lists, built exactly as `find_hamiltonian_path_bt` builds its own.

  The Python code does not check its input beyond what the interpreter enforces: a line
  that is not two integers raises ValueError, an id outside the list raises IndexError,
  a negative id `-n <= u < 0` silently names vertex `n + u`, and `m` is never used.
 */
module GraphIO {
  import opened Basics
  import opened Graphs
  import opened Text

  /** The exception `load_graph` raises. */
  datatype LoadError = ValueError | IndexError

  /** The lists hold Python ints: a negative id in the file is stored as written. */
  type IntAdjacency = seq<seq<int>>

  /** `a, b = map(int, line.strip().split())`: exactly two integer words, else ValueError. */
  function ParsePair(line: string): (r: Option<(int, int)>)
    ensures r.Some? ==> |Words(line)| == 2
  {
    var ws := Words(line);
    if |ws| != 2 then None
    else match (ParseInt(ws[0]), ParseInt(ws[1]))
      case (Some(a), Some(b)) => Some((a, b))
      case _ => None
  }

  /** Python list indexing `adj[i]` on a list of length `len`: None for IndexError. */
  function PyIndex(len: nat, i: int): (r: Option<nat>)
    ensures r.Some? ==> r.value < len
    ensures r.Some? <==> -(len as int) <= i < len
    ensures 0 <= i < len ==> r == Some(i)
  {
    if 0 <= i < len then Some(i)
    else if -(len as int) <= i < 0 then Some(len + i)
    else None
  }

  /** `adj[u].append(v); adj[v].append(u)`. */
  function AppendEdge(adj: IntAdjacency, u: int, v: int): (r: Result<IntAdjacency, LoadError>)
    ensures r.Ok? ==> |r.value| == |adj|
  {
    match PyIndex(|adj|, u)
    case None => Err(IndexError)
    case Some(iu) =>
      var a := adj[iu := adj[iu] + [v]];
      match PyIndex(|a|, v)
      case None => Err(IndexError)
      case Some(iv) => Ok(a[iv := a[iv] + [u]])
  }

  /** `for line in f: ...`: the edge lines in file order; the first exception ends the load. */
  function AddLines(adj: IntAdjacency, lines: seq<string>): (r: Result<IntAdjacency, LoadError>)
    ensures r.Ok? ==> |r.value| == |adj|
    decreases |lines|
  {
    if lines == [] then Ok(adj)
    else match ParsePair(lines[0])
      case None => Err(ValueError)
      case Some((u, v)) =>
        match AppendEdge(adj, u, v)
        case Err(e) => Err(e)
        case Ok(a) => AddLines(a, lines[1..])
  }

  /**
    `load_graph(path)`, returning `(n, adj)`.  An empty file or a first line that is not
    two integers raises ValueError; a successful load takes `n` from the first line and
    has `max(n, 0)` lists.
   */
  function LoadGraph(lines: seq<string>): (r: Result<(int, IntAdjacency), LoadError>)
    ensures (lines == [] || ParsePair(lines[0]).None?) ==> r == Err(ValueError)
    ensures r.Ok? ==> && |lines| > 0 && ParsePair(lines[0]).Some?
                      && r.value.0 == ParsePair(lines[0]).value.0
                      && |r.value.1| == Max(r.value.0, 0)
  {
    // `f.readline()` on an empty file returns "", whose split has no values to unpack
    var first := if lines == [] then "" else lines[0];
    assert Words("") == [];
    match ParsePair(first)
    case None => Err(ValueError)
    case Some((n, _)) =>
      var size := Max(n, 0);
      var adj := seq(size, _ => []);
      match AddLines(adj, lines[1..])
      case Err(e) => Err(e)
      case Ok(a) => Ok((n, a))
  }

  // ---------------------------------------------------------------------------
  // Properties.

  /** The declared edge count `m` is read but never used. */
  lemma LoadGraphIgnoresEdgeCount(first1: string, first2: string, rest: seq<string>)
    requires ParsePair(first1).Some? && ParsePair(first2).Some?
    requires ParsePair(first1).value.0 == ParsePair(first2).value.0
    ensures LoadGraph([first1] + rest) == LoadGraph([first2] + rest)
  {
    assert ([first1] + rest)[1..] == rest == ([first2] + rest)[1..];
  }

  /** The edge lines parse, in order, to the pairs of `edges`. */
  predicate LinesAre(lines: seq<string>, edges: seq<(int, int)>) {
    |lines| == |edges| && forall k :: 0 <= k < |lines| ==> ParsePair(lines[k]) == Some(edges[k])
  }

  /** Every id names a list by Python indexing, negative ids included. */
  predicate PyIndexable(n: nat, edges: seq<(int, int)>) {
    forall k :: 0 <= k < |edges| ==> -(n as int) <= edges[k].0 < n && -(n as int) <= edges[k].1 < n
  }

  /** One in-range edge line does to the list what `AddEdge` does. */
  lemma AppendEdgeInRange(n: nat, es: seq<Edge>, e: Edge)
    requires EdgesInRange(n, es) && EdgesInRange(n, es + [e])
    ensures AppendEdge(AdjFromEdges(n, es), e.0, e.1) == Ok(AdjFromEdges(n, es + [e]))
  {
    assert (es + [e])[..|es|] == es;
    assert EdgesInRange(n, es);
  }

  /** Lines with vertex ids in `0..n-1` extend the adjacency edge by edge. */
  lemma {:induction false} AddLinesInRange(n: nat, done: seq<Edge>, lines: seq<string>, todo: seq<Edge>)
    requires EdgesInRange(n, done) && EdgesInRange(n, done + todo)
    requires |lines| == |todo| && forall k :: 0 <= k < |lines| ==> ParsePair(lines[k]) == Some((todo[k].0 as int, todo[k].1 as int))
    ensures AddLines(AdjFromEdges(n, done), lines) == Ok(AdjFromEdges(n, done + todo))
    decreases |lines|
  {
    if lines == [] {
      assert done + todo == done;
    } else {
      var e := todo[0];
      ExtendDone(n, done, todo);
      AppendEdgeInRange(n, done, e);
      AddLinesUnfold(AdjFromEdges(n, done), lines, e.0, e.1);
      AddLinesInRange(n, done + [e], lines[1..], todo[1..]);
    }
  }

  lemma ExtendDone(n: nat, done: seq<Edge>, todo: seq<Edge>)
    requires EdgesInRange(n, done + todo) && |todo| > 0
    ensures EdgesInRange(n, done + [todo[0]])
    ensures (done + [todo[0]]) + todo[1..] == done + todo
  {
    assert forall k :: 0 <= k <= |done| ==> (done + [todo[0]])[k] == (done + todo)[k];
  }

  /** A first line that parses and indexes hands the rest of the file to the same loop. */
  lemma AddLinesUnfold(adj: IntAdjacency, lines: seq<string>, u: int, v: int)
    requires |lines| > 0 && ParsePair(lines[0]) == Some((u, v)) && AppendEdge(adj, u, v).Ok?
    ensures AddLines(adj, lines) == AddLines(AppendEdge(adj, u, v).value, lines[1..])
  {
  }

  /**
    When every edge line holds two ids in `0..n-1`, the result is `n` and the adjacency
    `AdjFromEdges` builds: `v` is appended to `adj[u]` and `u` to `adj[v]`, in file order.
   */
  lemma LoadGraphEdges(lines: seq<string>, n: nat, edges: seq<Edge>)
    requires |lines| > 0 && ParsePair(lines[0]).Some? && ParsePair(lines[0]).value.0 == n
    requires EdgesInRange(n, edges)
    requires |lines| == |edges| + 1
    requires forall k :: 0 <= k < |edges| ==> ParsePair(lines[k + 1]) == Some((edges[k].0 as int, edges[k].1 as int))
    ensures LoadGraph(lines) == Ok((n as int, AdjFromEdges(n, edges)))
  {
    var rest := lines[1..];
    assert forall k :: 0 <= k < |rest| ==> rest[k] == lines[k + 1];
    assert AdjFromEdges(n, []) == seq(n, _ => []);
    AddLinesInRange(n, [], rest, edges);
    assert [] + edges == edges;
  }

  /**
    With ids in `0..n-1`, the loaded adjacency is symmetric as a multiset and its list
    lengths add up to twice the number of edge lines.
   */
  lemma LoadGraphSymmetric(lines: seq<string>, n: nat, edges: seq<Edge>, u: Vertex, v: Vertex)
    requires |lines| > 0 && ParsePair(lines[0]).Some? && ParsePair(lines[0]).value.0 == n
    requires EdgesInRange(n, edges) && u < n && v < n
    requires |lines| == |edges| + 1
    requires forall k :: 0 <= k < |edges| ==> ParsePair(lines[k + 1]) == Some((edges[k].0 as int, edges[k].1 as int))
    ensures LoadGraph(lines).Ok?
    ensures var adj := AdjFromEdges(n, edges);
      && LoadGraph(lines).value.1 == adj
      && multiset(adj[u])[v] == multiset(adj[v])[u]
      && (v in adj[u] <==> Joined(edges, u, v))
      && TotalDegree(adj) == 2 * (|lines| - 1)
  {
    LoadGraphEdges(lines, n, edges);
    AdjFromEdgesSymmetric(n, edges, u, v);
    AdjFromEdgesJoined(n, edges, u, v);
    AdjFromEdgesTotalDegree(n, edges);
  }

  /** The first id that Python cannot index raises IndexError, if every line parses. */
  lemma {:induction false} AddLinesIndexError(adj: IntAdjacency, lines: seq<string>, edges: seq<(int, int)>)
    requires LinesAre(lines, edges)
    ensures AddLines(adj, lines).Err? <==> !PyIndexable(|adj|, edges)
    ensures AddLines(adj, lines).Err? ==> AddLines(adj, lines).error == IndexError
    decreases |lines|
  {
    if lines != [] {
      var (u, v) := edges[0];
      assert LinesAre(lines[1..], edges[1..]);
      match AppendEdge(adj, u, v)
      case Err(_) => {
        assert !PyIndexable(|adj|, edges) by {
          assert !(-|adj| <= edges[0].0 < |adj| && -|adj| <= edges[0].1 < |adj|);
        }
      }
      case Ok(a) => {
        AddLinesIndexError(a, lines[1..], edges[1..]);
        assert PyIndexable(|adj|, edges) <==> PyIndexable(|adj|, edges[1..]) by {
          assert forall k :: 0 < k < |edges| ==> edges[k] == edges[1..][k - 1];
        }
      }
    }
  }

  /** A line that is not two integers raises ValueError, unless an earlier line failed first. */
  lemma {:induction false} AddLinesValueError(adj: IntAdjacency, lines: seq<string>, k: nat, edges: seq<(int, int)>)
    requires k < |lines| && ParsePair(lines[k]).None?
    requires LinesAre(lines[..k], edges) && PyIndexable(|adj|, edges)
    ensures AddLines(adj, lines) == Err(ValueError)
    decreases k
  {
    if k > 0 {
      assert ParsePair(lines[0]) == Some(edges[0]) by { assert lines[..k][0] == lines[0]; }
      var (u, v) := edges[0];
      assert AppendEdge(adj, u, v).Ok?;
      var a := AppendEdge(adj, u, v).value;
      var later, rest, prev := lines[1..], edges[1..], k - 1;
      assert ParsePair(later[prev]).None? by { assert later[prev] == lines[k]; }
      assert LinesAre(later[..prev], rest) by {
        forall j | 0 <= j < prev ensures ParsePair(later[..prev][j]) == Some(rest[j]) {
          assert later[..prev][j] == lines[..k][j + 1];
        }
      }
      assert PyIndexable(|a|, rest) by {
        forall j | 0 <= j < |rest| ensures -|a| <= rest[j].0 < |a| && -|a| <= rest[j].1 < |a| {
          assert rest[j] == edges[j + 1];
        }
      }
      AddLinesValueError(a, later, prev, rest);
    }
  }
}
