# Hamiltonian path analysis, modelled in Dafny

The modelled repository compares two ways of looking for a Hamiltonian path:

- an exact depth-first backtracking search;
- a greedy heuristic that always steps to the unvisited neighbour of smallest degree.

It generates random graphs, stores them in a small text format and runs batches of timed experiments. It exports the per-run measurements as CSV and their statistics as a summary table.

This project models that core as pure Dafny functions, plus a few methods that keep the Python loops, and proves what the code promises about them. There is one module per source file:

| module | file | models |
|---|---|---|
| `Basics`, `Graphs` | basics.dfy, graphs.dfy | Option/Result; the adjacency built from an edge list (shared by three of the Python files) |
| `Backtracking` | backtracking.dfy | `hamiltonian_path_backtracking` in src/backtracking.py |
| `BacktrackingTrace` | backtracking_trace.dfy | the generator `hamiltonian_path_backtracking_steps` in src/backtracking.py, as the list of events it yields |
| `EdgeBacktracking` | backtracking_edges.dfy | `find_hamiltonian_path_bt` in src/algorithms/backtracking.py, with its step counter and its `(path, path)` result |
| `Heuristic` | heuristic.dfy | `heuristic_hamiltonian_path` in src/heuristic.py; the shuffle is a permutation parameter |
| `HeuristicEdges` | heuristic_edges.dfy | `heuristic_path` in src/algorithms/heuristic.py, as methods with the original loops |
| `Text`, `GraphIO` | text.dfy, graph_io.dfy | `str.split()`, `int()`, `str()`; `load_graph` as a parser from lines to `(n, adj)` |
| `Generator` | graph_generator.dfy | `generate_random_graph` (the random values are a coin sequence) and `save_graph` (as the lines it writes) |
| `ExperimentRunner` | experiment_runner.dfy | `ExperimentRunner`: density map, run records, `_compute_statistics`, batch order, CSV rows, summary table |

## Reference definitions and partner properties

- **`Backtracking.Completions(q)`** is an independent reference definition. It lists every Hamiltonian completion of the partial path `q` in depth-first order.
  - The search is proved to return the first completion in that list.
  - The list is proved to hold exactly the Hamiltonian paths.
- **`BacktrackingTrace`** proves that the event trace agrees with the plain search.
- **`EdgeBacktracking`** proves that the counted search returns what the plain search returns.
- **`HeuristicEdges`**: its loop methods are proved equal to the functional `Heuristic` model under the identity start order.
- **`Generator`** proves the save-then-load round trip through `GraphIO.LoadGraph`.
- **`ExperimentRunner`**: every stored result carries the statistics of its own runs, and `run_single_experiment` keeps that so. Over such results every line of the summary table shows rates in `[0, 1]`, the heuristic's never above the exact search's. A CSV row reads back as the run's fields, and each of its cells is the value named by the header title above it.

The code is followed where it differs from an idealised version:

- After a solution, the trace still emits one `backtrack` event per enclosing frame.
- `find_hamiltonian_path_bt(n, edges, False)` returns the pair `(path, path)`, because of operator precedence.
- `min(..., key=len(adj[x]))` keeps the first minimum in adjacency order, not the smallest id.
- Both searches return None when `n == 0`, although the empty path would qualify.
- `load_graph` lets a negative id `-n <= u < 0` stand for vertex `n + u`.
- `load_graph` never uses the declared edge count.

## Model

| member | source | states |
|---|---|---|
| Graphs.AdjFromEdgesNeighbours | src/algorithms/backtracking.py:2-5 | the list of `u` is exactly its neighbours in edge order (`v` appended to `adj[u]`, `u` to `adj[v]`) |
| Graphs.AdjFromEdgesSymmetric | src/algorithms/backtracking.py:2-5 | `v` occurs in `adj[u]` as often as `u` occurs in `adj[v]` |
| Graphs.AdjFromEdgesJoined | src/algorithms/backtracking.py:2-5 | `v` is listed under `u` iff some input edge joins them, in either orientation |
| Graphs.AdjFromEdgesTotalDegree | src/algorithms/backtracking.py:3-5 | the list lengths add up to twice the number of edges |
| Backtracking.HamiltonianPathBacktracking | src/backtracking.py:3-32 | result is the first completion in depth-first order; a returned path is Hamiltonian; None iff `n == 0` or no Hamiltonian path exists |
| Backtracking.Backtrack | src/backtracking.py:12-26 | a failing `backtrack(v, depth)` leaves `visited` and `path` exactly as before the call |
| Backtracking.MarkConsistent | src/backtracking.py:13-14 | marking an unvisited vertex keeps `visited[x]` true exactly for the vertices of `path` |
| Backtracking.BacktrackFindsFirst | src/backtracking.py:12-26 | `backtrack(v, depth)` succeeds iff `path + [v]` has a Hamiltonian completion, and then leaves the first one in `path` |
| Backtracking.TryNeighbours | src/backtracking.py:19-22 | a neighbour loop that finds no completion leaves `visited` and `path` exactly as before |
| Backtracking.TryNeighboursFindsFirst | src/backtracking.py:19-22 | the neighbour loop succeeds iff some unvisited neighbour leads to a completion, and finds the first in `adj[v]` order |
| Backtracking.Roots | src/backtracking.py:28-32 | a returned path holds all `n` vertices and begins at one of the starts tried, `start` or later |
| Backtracking.RootsFindsFirst | src/backtracking.py:28-32 | starts are tried in ascending order; the result is the first completion of the first start that has one |
| Backtracking.CompletionsSound | src/backtracking.py:12-22 | every listed completion of a simple path `q` is a Hamiltonian path extending `q` |
| Backtracking.CompletionsComplete | src/backtracking.py:12-22 | every Hamiltonian path extending `q` is listed among its completions |
| Backtracking.CompletionsFromCharacterised | src/backtracking.py:28-32 | a path is listed from `start` on iff it is Hamiltonian and begins at `start` or later |
| Backtracking.AllCompletionsCharacterised | src/backtracking.py:28-32 | the whole listing holds only Hamiltonian paths and is empty iff `n == 0` or none exists |
| BacktrackingTrace.TraceFrame | src/backtracking.py:47-71 | a generator frame that does not find a solution restores the buffers; one that finds one leaves `depth` vertices in `path` |
| BacktrackingTrace.TraceLoop | src/backtracking.py:61-66 | a frame's neighbour loop that finds no solution restores the buffers; one that finds one leaves `depth + 1` vertices in `path` |
| BacktrackingTrace.FrameShape | src/backtracking.py:47-71 | a frame's events open with the `visit` of `path + [v]`; they end in the `backtrack` restoring `path` on failure; on success, `solution` is followed by exactly the backtracks down to depth `d` |
| BacktrackingTrace.FrameMatches | src/backtracking.py:47-71 | a generator frame succeeds iff `backtrack(v, depth)` does, and its `solution` snapshot is the path `backtrack` leaves |
| BacktrackingTrace.TraceRoots | src/backtracking.py:74-88 | from root `start` on, the events end in the only `fail` iff the plain search fails; otherwise the plain search's path is the `solution`; `start` events name exactly the roots tried; every `visit` extends the path before it |
| BacktrackingTrace.FrameVisits | src/backtracking.py:50-53 | every `visit` snapshot of a frame is the path held before it plus one vertex |
| BacktrackingTrace.UnwindAt | src/backtracking.py:68-71 | the `i`-th backtrack after a solution `p` carries `p` without its last `i + 1` vertices |
| BacktrackingTrace.TraceOkFromRoots | src/backtracking.py:61-71 | after the solution come exactly `n - 1` backtracks whose snapshots shrink one vertex at a time |
| BacktrackingTrace.HamiltonianPathTrace | src/backtracking.py:35-88 | the generator ends in `fail` iff the plain search returns None; else one `solution` with its path, then shrinking backtracks; roots `0..` up to the successful one; `visit` extends; no solution iff `n == 0` or no path |
| EdgeBacktracking.Backtrack | src/algorithms/backtracking.py:11-26 | a failing `backtrack(u)` restores `path` and `visited`; every call increases the counter |
| EdgeBacktracking.BacktrackAgrees | src/algorithms/backtracking.py:11-26 | `backtrack(u)` succeeds and leaves the same buffers as `backtrack(u, len(path) + 1)` of src/backtracking.py |
| EdgeBacktracking.Starts | src/algorithms/backtracking.py:28-34 | with fresh buffers per start the loop returns what the plain roots loop returns; the counter grows by at least one per start tried, and a returned path begins at one of them |
| EdgeBacktracking.BacktrackStepsOffset | src/algorithms/backtracking.py:9-12 | a call adds the same amount to the counter whatever value it starts from, and its outcome does not depend on it |
| EdgeBacktracking.StartsSteps | src/algorithms/backtracking.py:28-34 | the counter is never reset between starts and is at least the number of starts tried (all `n - start` of them on failure) |
| EdgeBacktracking.StartsCorrect | src/algorithms/backtracking.py:28-34 | on an adjacency the counted search returns `hamiltonian_path_backtracking`'s result; steps `>= n` on failure, `>= p[0] + 1` on success |
| EdgeBacktracking.PathAlongEdges | src/algorithms/backtracking.py:19-21 | consecutive vertices of a path in the built adjacency are joined by an input edge |
| EdgeBacktracking.FindHamiltonianPathBt | src/algorithms/backtracking.py:1-34 | path as in src/backtracking.py; None iff `n == 0` or no Hamiltonian path; a path follows input edges; second component is the stats (steps bounds) or, without `collect_stats`, the path again |
| Heuristic.Candidates | src/heuristic.py:21 | `x` is a candidate iff it is a neighbour of `current` not yet visited |
| Heuristic.MinByDegree | src/heuristic.py:26 | `min` picks a candidate of least degree, and every candidate listed before it has strictly larger degree |
| Heuristic.FirstMinimumUnique | src/heuristic.py:26 | at most one position satisfies that first-minimum rule |
| Heuristic.Walk | src/heuristic.py:18-28 | the walk is a simple path extending the start and making at most the allowed number of extensions |
| Heuristic.WalkFrom | src/heuristic.py:16-28 | one attempt is a simple path of at most `n` vertices beginning at `start`, made of greedy steps only, that stops short of `n` vertices only where no unvisited neighbour remains |
| Heuristic.WalkGreedy | src/heuristic.py:20-28 | every extension is the first-minimum candidate, and the walk stops short only when no candidate is left |
| Heuristic.GreedyStepsExtend | src/heuristic.py:26-28 | appending the greedy choice keeps every step of the walk greedy |
| Heuristic.WalkFromStopsOnlyWhenStuck | src/heuristic.py:20-23 | an attempt consists of greedy steps and either covers all `n` vertices or ends where no unvisited neighbour remains |
| Heuristic.TryStarts | src/heuristic.py:15-33 | the result is the walk of the first start in `order` that covers all vertices, and is then Hamiltonian; every earlier start fails; None iff all fail, in particular for an empty order |
| Heuristic.FirstFails | src/heuristic.py:30-31 | a failing first start hands the search to the rest of the order unchanged |
| Heuristic.HeuristicHamiltonianPath | src/heuristic.py:4-33 | for any shuffle, a returned path is Hamiltonian, and `n == 0` gives None |
| Heuristic.HeuristicSuccessImpliesPath | src/heuristic.py:30-31 | a heuristic success means the graph has a Hamiltonian path |
| HeuristicEdges.CollectCandidates | src/algorithms/heuristic.py:13-16 | the list comprehension over `adj[current]` yields the functional candidates |
| HeuristicEdges.PickMinDegree | src/algorithms/heuristic.py:20 | the left-to-right `min` scan yields the functional first minimum |
| HeuristicEdges.BuildAdjacency | src/algorithms/heuristic.py:2-5 | the dict built by the edge loop is the shared edge-list adjacency |
| HeuristicEdges.WalkFrom | src/algorithms/heuristic.py:8-23 | the `while len(path) < n` loop, keeping `visited == set(path)` and `current == path[-1]`, computes the functional walk |
| HeuristicEdges.HeuristicPath | src/algorithms/heuristic.py:1-28 | equals `heuristic_hamiltonian_path` under the identity order; a returned path is Hamiltonian; `n == 0` gives None |
| HeuristicEdges.HeuristicImpliesExact | src/algorithms/heuristic.py:25-26 | when `heuristic_path` succeeds, `find_hamiltonian_path_bt` succeeds on the same input |
| Text.Words | src/graph_io.py:15 | `split()` returns non-empty words without whitespace |
| Text.ParseInt | src/graph_io.py:16 | `int(w)` succeeds only on a non-empty word, and unsigned digits give a non-negative value |
| Text.NatToString | src/utils/graph_generator.py:20 | `str(n)` is a non-empty digit string without leading zero |
| Text.ParseNatToString | src/utils/graph_generator.py:20-22 | `int(str(n)) == n`, and `str(n)` is a single word |
| Text.ParseNegative | src/graph_io.py:21 | `int("-" + str(n)) == -n` |
| Text.WordsOfPairLine | src/utils/graph_generator.py:22 | the line `f"{u} {v}\n"` splits into exactly the two words |
| GraphIO.ParsePair | src/graph_io.py:21 | a line unpacks to a pair only if it has exactly two words |
| GraphIO.PyIndex | src/graph_io.py:22-23 | `adj[i]` succeeds iff `-len <= i < len`, naming `i` itself when `i >= 0` |
| GraphIO.LoadGraph | src/graph_io.py:14-18 | an empty file or a first line that is not two integers raises ValueError; a successful load takes `n` from the first line and has `max(n, 0)` lists |
| GraphIO.LoadGraphIgnoresEdgeCount | src/graph_io.py:16 | the declared edge count `m` does not affect the result |
| GraphIO.AppendEdgeInRange | src/graph_io.py:22-23 | an in-range edge line appends exactly as the shared edge-list adjacency does |
| GraphIO.AddLinesInRange | src/graph_io.py:20-23 | in-range edge lines extend the adjacency edge by edge, in file order |
| GraphIO.LoadGraphEdges | src/graph_io.py:14-25 | with ids in `0..n-1` the result is `n` and the adjacency of the edge lines, in file order |
| GraphIO.LoadGraphSymmetric | src/graph_io.py:20-23 | the loaded adjacency is multiset-symmetric; `v` is under `u` iff a line joins them; lengths sum to twice the edge lines |
| GraphIO.AddLinesIndexError | src/graph_io.py:22-23 | when every line parses, the load fails iff some id is outside `-n..n-1`, and the error is IndexError |
| GraphIO.AddLinesValueError | src/graph_io.py:21 | a line that is not two integers raises ValueError unless an earlier line failed |
| Generator.AllPairs | src/utils/graph_generator.py:11-12 | the visited pairs are `(i, j)` with `i < j < n`, in strictly increasing lexicographic order |
| Generator.AllPairsShape | src/utils/graph_generator.py:11-12 | a pair is visited iff `i < j < n`; there are `n (n - 1) / 2` of them |
| Generator.PairsFromOrdered | src/utils/graph_generator.py:11-12 | the rows from `i0` on are oriented, strictly increasing, and start at `i0` or later |
| Generator.PairsFromComplete | src/utils/graph_generator.py:11-12 | the rows from `i0` on contain every pair `i0 <= i < j < n` |
| Generator.PairsCount | src/utils/graph_generator.py:11-12 | the rows from `i0` on hold `(n - i0)(n - i0 - 1) / 2` pairs |
| Generator.RandomEdges | src/utils/graph_generator.py:10-15 | every generated edge `(i, j)` has `i < j < n` |
| Generator.GenerateRandomGraph | src/utils/graph_generator.py:4-15 | the nested loops, one coin per pair in loop order, compute the functional edge list |
| Generator.Select | src/utils/graph_generator.py:13-14 | a pair is kept iff some position holding it drew a coin below `p`; no more pairs are kept than offered |
| Generator.SelectAscending | src/utils/graph_generator.py:13-14 | keeping the pairs whose coin is below `p` keeps them in order |
| Generator.SelectMembership | src/utils/graph_generator.py:13-14 | pair `k` is kept iff its coin is below `p` |
| Generator.SelectNone | src/utils/graph_generator.py:13-14 | no coin below `p` keeps no pair |
| Generator.SelectAll | src/utils/graph_generator.py:13-14 | every coin below `p` keeps every pair |
| Generator.GeneratedEdges | src/utils/graph_generator.py:10-15 | edges oriented and strictly increasing; at most `n (n - 1) / 2`; pair `k` is an edge iff its coin `< p`; coins in `[0, 1)`: `p <= 0` none, `p >= 1` all |
| Generator.AscendingNeighbours | src/utils/graph_generator.py:11-14 | with lexicographically increasing edges every neighbour list is ascending |
| Generator.CandidatesOfAscending | src/heuristic.py:21 | filtering out visited vertices keeps an ascending list ascending |
| Generator.LowestIdTieBreak | src/heuristic.py:26 | on an ascending candidate list the first minimum is the lowest id among those of least degree |
| Generator.GeneratedTieBreak | src/utils/graph_generator.py:11-14 | in a generated graph the heuristic steps to the lowest-id candidate of least degree |
| Generator.SaveGraph | src/utils/graph_generator.py:18-22 | `save_graph` writes one header line plus one line per edge |
| Generator.PairLineParses | src/utils/graph_generator.py:20-22 | a written line `f"{a} {b}\n"` parses back to `(a, b)` |
| Generator.SavedEdgeLine | src/utils/graph_generator.py:21-22 | line `k + 1` of the file parses back to edge `k` |
| Generator.SaveLoadRoundTrip | src/utils/graph_generator.py:18-22 | loading what `save_graph` wrote gives `n` and the adjacency of the edges |
| Generator.GeneratedAdjacency | src/utils/graph_generator.py:13-14 | in the graph of generated edges, `i < j` are mutual neighbours iff the coin of `(i, j)` is below `p` |
| Generator.GeneratedRoundTrip | src/utils/graph_generator.py:4-22 | saving then loading a generated graph gives `n` lists in which `(i, j)` are neighbours iff their coin is below `p` |
| ExperimentRunner.DensityProbability | src/experiments/experiment_runner.py:60-65 | the probability of any label lies strictly between 0 and 1 |
| ExperimentRunner.MakeRun | src/experiments/experiment_runner.py:76-99 | `num_edges` is the edge count; success flags match the paths; exact success iff a path exists; heuristic success implies exact success; paths are Hamiltonian; failing steps `>= n` |
| ExperimentRunner.MakeRuns | src/experiments/experiment_runner.py:76-101 | one record per repetition, with `run_id` `0..repetitions-1` in order |
| ExperimentRunner.RunSingleExperiment | src/experiments/experiment_runner.py:43-107 | `repetitions` runs, run `i` the record of repetition `i`; the label's probability; appended once at the end; statistics of exactly its runs; no run with only a heuristic success; heuristic rate `<=` exact rate |
| ExperimentRunner.MinOf | src/experiments/experiment_runner.py:148 | `min` returns an element no larger than any other |
| ExperimentRunner.MaxOf | src/experiments/experiment_runner.py:149 | `max` returns an element no smaller than any other |
| ExperimentRunner.CountTrue | src/experiments/experiment_runner.py:141-142 | the success count never exceeds the number of runs |
| ExperimentRunner.SumBounds | src/experiments/experiment_runner.py:147 | a sum of values in `[lo, hi]` lies between `len * lo` and `len * hi` |
| ExperimentRunner.AverageBetween | src/experiments/experiment_runner.py:147-149 | for a non-empty list, `min <= sum / len <= max` |
| ExperimentRunner.RateInUnit | src/experiments/experiment_runner.py:150 | a success rate lies in `[0, 1]` |
| ExperimentRunner.CountTrueMonotone | src/experiments/experiment_runner.py:141-142 | when each heuristic success has an exact success, the heuristic count is no larger |
| ExperimentRunner.HeuristicRateBelow | src/experiments/experiment_runner.py:141-158 | then the heuristic's success rate is no larger either |
| ExperimentRunner.ComputeStatistics | src/experiments/experiment_runner.py:135-159 | rates in `[0, 1]`; `min <= avg <= max` for both times and the steps; all values 0 for no runs |
| ExperimentRunner.StatisticsExtremes | src/experiments/experiment_runner.py:137-153 | min and max time are attained by some run and bound every run; the same bounds hold for the heuristic times and the steps |
| ExperimentRunner.RunRow | src/experiments/experiment_runner.py:129-131 | the inner loop yields one result per density, in order, each appended to the runner |
| ExperimentRunner.RunBatchExperiments | src/experiments/experiment_runner.py:109-133 | the batch is the grid of results, rows in the order of `sizes`, read row by row; the runner's results grow by exactly the batch |
| ExperimentRunner.BatchOrder | src/experiments/experiment_runner.py:128-133 | the batch has `len(sizes) * len(densities)` results; the one for `sizes[a]` and `densities[c]` is at `a * len(densities) + c` |
| ExperimentRunner.CsvRow | src/experiments/experiment_runner.py:189-197 | every data row has as many columns as the header |
| ExperimentRunner.CsvRowRoundTrip | src/experiments/experiment_runner.py:189-197 | a written row reads back as the run's fields and its configuration's, success flags as 1/0 |
| ExperimentRunner.CsvRowByTitle | src/experiments/experiment_runner.py:175-197 | the ten titles are distinct, and each cell of a data row is the value named by the title above it |
| ExperimentRunner.DataRowsLength | src/experiments/experiment_runner.py:183-188 | one data row per run over all results |
| ExperimentRunner.DataRowsAt | src/experiments/experiment_runner.py:183-197 | row `k` of result `i` comes after the rows of every earlier result and is that run's row |
| ExperimentRunner.ExportToCsv | src/experiments/experiment_runner.py:168-197 | ValueError iff there are no results; otherwise the header, then one 10-column row per run |
| ExperimentRunner.ExportOrder | src/experiments/experiment_runner.py:183-197 | the rows follow the results in order and each result's runs in order, reading back as their fields |
| ExperimentRunner.RuleLine | src/experiments/experiment_runner.py:205 | the rule is 100 `=` characters |
| ExperimentRunner.PadRight | src/experiments/experiment_runner.py:206 | `f"{s:<w}"` keeps `s` as a prefix, pads with spaces and has length `max(len(s), w)` |
| ExperimentRunner.GetSummaryTable | src/experiments/experiment_runner.py:199-222 | fixed message iff no results; else rule, 75-column titles, rule, one line per result in order with its size, density and statistics, closing rule: `len + 4` lines |
| ExperimentRunner.SingleExperimentRecorded | src/experiments/experiment_runner.py:101-105 | after `run_single_experiment` every stored result still carries the statistics of its own runs, none with only a heuristic success |
| ExperimentRunner.SummaryRates | src/experiments/experiment_runner.py:209-219 | over such results every result line shows rates in `[0, 1]`, the heuristic's never above the exact search's |

## Left out

- The GUI, the command line scripts, the plots, the performance monitor and the other experiment scripts are not part of this model.
- File access. `load_graph` takes the lines of the file. `save_graph` returns the lines it would write. `export_to_csv` returns the rows it would hand to `csv.writer`. Text-mode newline translation, encodings and CSV quoting are not modelled.
- Randomness and clocks are inputs:
  - `random.shuffle` is a permutation parameter.
  - `random.random()` is a sequence of coins, one per vertex pair.
  - `time.time()` differences are the reals of `Draw`.
  - The `datetime.now()` timestamp of a result is dropped.
- Floating point. Probabilities, times, averages and rates are exact reals, so `0.2`, `0.5` and `0.8` are exact. `_compute_statistics` returns the int `0` for an empty list where the model has `0.0`.
- Number formatting. The `:.6f` times of the CSV (`Fixed6` cells) and the `:.6f`, `:.2%` and `:.1f` columns of the summary are not rendered. `ExperimentRunner.GetSummaryTable` returns its lines unjoined; the `"\n".join` is not modelled.
- `Text.ParseInt` accepts ASCII digits, with an optional sign and single underscores between digits. Python's `int()` also accepts digits of other scripts, which is not modelled.
- Sizes, repetitions and vertex ids given to the searches, the generator and the runner are `nat`. A negative `n` or `repetitions` in Python gives empty loops there; only `load_graph` models negative numbers.
- The searches require a well-formed graph: every neighbour id below `n`, and for the edge-list variants every edge endpoint below `n`. On other input the Python code raises IndexError or KeyError, or reads another vertex through a negative index. That is modelled only for `load_graph`.
- EdgeBacktracking.Backtrack: the contract states only that each call increases the counter. `BacktrackStepsOffset` and `StartsSteps` state that the counter accumulates and is never reset. The exact number of calls made is not counted separately.
- The trace generator is modelled as the full list of events it yields when read to the end. A consumer that stops early reads a prefix of that list.
- Python's recursion limit is not modelled. Each recursive call of `backtrack` (src/backtracking.py:21 and :66, src/algorithms/backtracking.py:21) adds a Python stack frame. Nothing raises the default limit of about 1000 frames, and main.py:238 accepts any size. A search that goes deeper than about 1000 vertices therefore raises RecursionError in Python, whereas the model returns its result.
- `generate_graph` in src/experiments/experiment_runner.py:26-34 is the same double loop as `generate_random_graph`, and is modelled by `Generator.RandomEdges`.
