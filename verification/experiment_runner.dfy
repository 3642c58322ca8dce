/**
  The bookkeeping of `ExperimentRunner` (src/experiments/experiment_runner.py): the
  density table, one record per repetition, the aggregate statistics, the batch order,
  the CSV layout and the summary table.

  Each repetition draws a random graph, runs `find_hamiltonian_path_bt` with statistics
  and `heuristic_path`, and records the two measured durations.  The random values and
  the durations are inputs here (`Draw`); the searches are the models of the other
  modules.  The runner's `self.results` list is the value `Runner`.
 */
module ExperimentRunner {
  import opened Basics
  import opened Graphs
  import G = Generator
  import EB = EdgeBacktracking
  import H = Heuristic
  import HE = HeuristicEdges

  // ---------------------------------------------------------------------------
  // Records.

  /** The dictionary `run_data` of one repetition. */
  datatype RunData = RunData(
    runId: nat,
    numEdges: nat,
    btTime: real,
    btSuccess: bool,
    btSteps: nat,
    btPath: Option<seq<Vertex>>,
    hTime: real,
    hSuccess: bool,
    hPath: Option<seq<Vertex>>)

  /** The dictionary `_compute_statistics` returns. */
  datatype Statistics = Statistics(
    btAvgTime: real, btMinTime: real, btMaxTime: real, btSuccessRate: real,
    btAvgSteps: real, btMinSteps: real, btMaxSteps: real,
    hAvgTime: real, hMinTime: real, hMaxTime: real, hSuccessRate: real)

  /** The dictionary `result` of one configuration (its `timestamp` is not modelled). */
  datatype Experiment = Experiment(
    n: nat,
    density: string,
    probability: real,
    repetitions: nat,
    runs: seq<RunData>,
    statistics: Statistics)

  /** An `ExperimentRunner`: its list `self.results`. */
  datatype Runner = Runner(results: seq<Experiment>)

  /**
    What one repetition takes from outside: the `random.random()` values of
    `generate_graph` and the two durations measured around the searches.
   */
  datatype Draw = Draw(coins: seq<real>, btTime: real, hTime: real)

  /** One draw per repetition, each with one coin per vertex pair. */
  predicate DrawsFit(n: nat, repetitions: nat, draws: seq<Draw>) {
    |draws| == repetitions && forall i :: 0 <= i < |draws| ==> |draws[i].coins| == |G.AllPairs(n)|
  }

  // ---------------------------------------------------------------------------
  // One configuration.

  /** `density_map.get(density, 0.5)`. */
  function DensityProbability(density: string): (p: real)
    ensures 0.0 < p < 1.0
  {
    if density == "sparse" then 0.2
    else if density == "medium" then 0.5
    else if density == "dense" then 0.8
    else 0.5
  }

  /**
    The body of `for run_id in range(repetitions)`: one graph, both searches, one record.
    The record describes its own graph: `num_edges` is the edge count, each success flag
    says whether its path is present, the exact search succeeds iff the graph has a
    Hamiltonian path, the heuristic succeeds only if the exact search does, and every
    recorded path is Hamiltonian.
   */
  function MakeRun(n: nat, p: real, runId: nat, d: Draw): (r: RunData)
    requires |d.coins| == |G.AllPairs(n)|
    ensures var edges := G.RandomEdges(n, p, d.coins);
      var adj := AdjFromEdges(n, edges);
      && r.runId == runId && r.btTime == d.btTime && r.hTime == d.hTime
      && r.numEdges == |edges| && 2 * r.numEdges <= n * (n - 1)
      && (r.btSuccess <==> r.btPath.Some?) && (r.hSuccess <==> r.hPath.Some?)
      && (r.btSuccess <==> n > 0 && HasHamiltonianPath(n, adj))
      && (r.hSuccess ==> r.btSuccess)
      && (r.btPath.Some? ==> IsHamiltonianPath(n, adj, r.btPath.value))
      && (r.hPath.Some? ==> IsHamiltonianPath(n, adj, r.hPath.value))
      && (!r.btSuccess ==> r.btSteps >= n)
  {
    var edges := G.RandomEdges(n, p, d.coins);
    G.GeneratedEdges(n, p, d.coins);
    var (pathBt, stats) := EB.FindHamiltonianPathBt(n, edges, true);
    HE.RangeIsPermutation(n);
    var pathH := H.HeuristicHamiltonianPath(n, AdjFromEdges(n, edges), Range(n));
    var r := RunData(runId, |edges|, d.btTime, pathBt.Some?, stats.steps, pathBt, d.hTime, pathH.Some?, pathH);
    if pathH.Some? then
      HE.HeuristicImpliesExact(n, edges);
      r
    else r
  }

  /** The repetitions of one configuration, `run_id` counting from 0. */
  function MakeRuns(n: nat, p: real, draws: seq<Draw>): (runs: seq<RunData>)
    requires DrawsFit(n, |draws|, draws)
    ensures |runs| == |draws|
    ensures forall i :: 0 <= i < |runs| ==> runs[i].runId == i
  {
    seq(|draws|, i requires 0 <= i < |draws| => MakeRun(n, p, i, draws[i]))
  }

  /** Run `i` is the record of repetition `i`, so none has only a heuristic success. */
  lemma MakeRunsFacts(n: nat, p: real, draws: seq<Draw>)
    requires DrawsFit(n, |draws|, draws)
    ensures var runs := MakeRuns(n, p, draws);
      && (forall i :: 0 <= i < |runs| ==> runs[i] == MakeRun(n, p, i, draws[i]))
      && (forall i :: 0 <= i < |runs| ==> runs[i].hSuccess ==> runs[i].btSuccess)
  {
    var runs := MakeRuns(n, p, draws);
    forall i | 0 <= i < |runs|
      ensures runs[i] == MakeRun(n, p, i, draws[i])
      ensures runs[i].hSuccess ==> runs[i].btSuccess
    {
      var r := MakeRun(n, p, i, draws[i]);
      assert runs[i] == r;
    }
  }

  /** The dictionary `result` that `run_single_experiment(n, density, repetitions)` builds. */
  function ExperimentFor(n: nat, density: string, repetitions: nat, draws: seq<Draw>): (r: Experiment)
    requires DrawsFit(n, repetitions, draws)
  {
    var p := DensityProbability(density);
    var runs := MakeRuns(n, p, draws);
    Experiment(n, density, p, repetitions, runs, ComputeStatistics(runs))
  }

  /**
    `run_single_experiment`: the new result, and the runner with it appended once at the
    end.  The result holds exactly `repetitions` runs, with ids `0..repetitions-1` in
    order, uses the probability of its density label and carries the statistics of
    exactly its runs; over them the heuristic's success rate never exceeds the exact
    search's.
   */
  function RunSingleExperiment(runner: Runner, n: nat, density: string, repetitions: nat, draws: seq<Draw>): (r: (Experiment, Runner))
    requires DrawsFit(n, repetitions, draws)
    ensures var (e, after) := r;
      && after.results == runner.results + [e]
      && e.n == n && e.density == density && e.repetitions == repetitions
      && e.probability == DensityProbability(density)
      && |e.runs| == repetitions
      && (forall i :: 0 <= i < repetitions ==> e.runs[i] == MakeRun(n, e.probability, i, draws[i]))
      && (forall i :: 0 <= i < repetitions ==> e.runs[i].hSuccess ==> e.runs[i].btSuccess)
      && e.statistics == ComputeStatistics(e.runs)
      && e.statistics.hSuccessRate <= e.statistics.btSuccessRate
  {
    var e := ExperimentFor(n, density, repetitions, draws);
    MakeRunsFacts(n, e.probability, draws);
    HeuristicRateBelow(e.runs);
    (e, Runner(runner.results + [e]))
  }

  // ---------------------------------------------------------------------------
  // Aggregation over reals.

  function Sum(xs: seq<real>): real {
    if xs == [] then 0.0 else Sum(xs[..|xs| - 1]) + Last(xs)
  }

  /** Python's `min(xs)` on a non-empty list. */
  function MinOf(xs: seq<real>): (m: real)
    requires |xs| > 0
    ensures m in xs && forall i :: 0 <= i < |xs| ==> m <= xs[i]
  {
    if |xs| == 1 then xs[0]
    else
      var m := MinOf(xs[..|xs| - 1]);
      assert forall i :: 0 <= i < |xs| - 1 ==> xs[..|xs| - 1][i] == xs[i];
      if Last(xs) < m then Last(xs) else m
  }

  /** Python's `max(xs)` on a non-empty list. */
  function MaxOf(xs: seq<real>): (m: real)
    requires |xs| > 0
    ensures m in xs && forall i :: 0 <= i < |xs| ==> xs[i] <= m
  {
    if |xs| == 1 then xs[0]
    else
      var m := MaxOf(xs[..|xs| - 1]);
      assert forall i :: 0 <= i < |xs| - 1 ==> xs[..|xs| - 1][i] == xs[i];
      if m < Last(xs) then Last(xs) else m
  }

  /** `sum(1 for r in runs if flag(r))`. */
  function CountTrue(flags: seq<bool>): (c: nat)
    ensures c <= |flags|
  {
    if flags == [] then 0
    else CountTrue(flags[..|flags| - 1]) + (if Last(flags) then 1 else 0)
  }

  /** `x / total if total > 0 else 0`. */
  function Ratio(x: real, total: nat): real {
    if total > 0 then x / total as real else 0.0
  }

  /** `min(xs) if xs else 0` and `max(xs) if xs else 0`. */
  function MinOrZero(xs: seq<real>): real {
    if xs == [] then 0.0 else MinOf(xs)
  }

  function MaxOrZero(xs: seq<real>): real {
    if xs == [] then 0.0 else MaxOf(xs)
  }

  function BtTimes(runs: seq<RunData>): (xs: seq<real>)
    ensures |xs| == |runs| && forall i :: 0 <= i < |runs| ==> xs[i] == runs[i].btTime
  {
    seq(|runs|, i requires 0 <= i < |runs| => runs[i].btTime)
  }

  function HTimes(runs: seq<RunData>): (xs: seq<real>)
    ensures |xs| == |runs| && forall i :: 0 <= i < |runs| ==> xs[i] == runs[i].hTime
  {
    seq(|runs|, i requires 0 <= i < |runs| => runs[i].hTime)
  }

  function BtSteps(runs: seq<RunData>): (xs: seq<real>)
    ensures |xs| == |runs| && forall i :: 0 <= i < |runs| ==> xs[i] == runs[i].btSteps as real
  {
    seq(|runs|, i requires 0 <= i < |runs| => runs[i].btSteps as real)
  }

  function BtFlags(runs: seq<RunData>): (fs: seq<bool>)
    ensures |fs| == |runs| && forall i :: 0 <= i < |runs| ==> fs[i] == runs[i].btSuccess
  {
    seq(|runs|, i requires 0 <= i < |runs| => runs[i].btSuccess)
  }

  function HFlags(runs: seq<RunData>): (fs: seq<bool>)
    ensures |fs| == |runs| && forall i :: 0 <= i < |runs| ==> fs[i] == runs[i].hSuccess
  {
    seq(|runs|, i requires 0 <= i < |runs| => runs[i].hSuccess)
  }

  /**
    `_compute_statistics(runs)`: averages and rates over all runs.  The rates lie in
    `[0, 1]`; for runs, `min <= avg <= max` for both times and for the step counts; for no
    runs every value is 0.
   */
  function ComputeStatistics(runs: seq<RunData>): (s: Statistics)
    ensures 0.0 <= s.btSuccessRate <= 1.0 && 0.0 <= s.hSuccessRate <= 1.0
    ensures |runs| > 0 ==>
      && s.btMinTime <= s.btAvgTime <= s.btMaxTime
      && s.hMinTime <= s.hAvgTime <= s.hMaxTime
      && s.btMinSteps <= s.btAvgSteps <= s.btMaxSteps
    ensures |runs| == 0 ==> s == Statistics(0.0, 0.0, 0.0, 0.0, 0.0, 0.0, 0.0, 0.0, 0.0, 0.0, 0.0)
  {
    var total := |runs|;
    var bt, h, steps := BtTimes(runs), HTimes(runs), BtSteps(runs);
    RateInUnit(BtFlags(runs));
    RateInUnit(HFlags(runs));
    if total > 0 then
      AverageBetween(bt);
      AverageBetween(h);
      AverageBetween(steps);
      StatisticsOf(runs)
    else StatisticsOf(runs)
  }

  /** The dictionary itself, field by field. */
  function StatisticsOf(runs: seq<RunData>): Statistics {
    var total := |runs|;
    var bt, h, steps := BtTimes(runs), HTimes(runs), BtSteps(runs);
    Statistics(
      Ratio(Sum(bt), total), MinOrZero(bt), MaxOrZero(bt),
      Ratio(CountTrue(BtFlags(runs)) as real, total),
      Ratio(Sum(steps), total), MinOrZero(steps), MaxOrZero(steps),
      Ratio(Sum(h), total), MinOrZero(h), MaxOrZero(h),
      Ratio(CountTrue(HFlags(runs)) as real, total))
  }

  /** `n * x`. */
  function Times(n: nat, x: real): real {
    n as real * x
  }

  lemma TimesStep(n: nat, x: real)
    requires n > 0
    ensures Times(n, x) == Times(n - 1, x) + x
  {
  }

  /** The sum lies between `|xs|` times the minimum and `|xs|` times the maximum. */
  lemma {:induction false} SumBounds(xs: seq<real>, lo: real, hi: real)
    requires forall i :: 0 <= i < |xs| ==> lo <= xs[i] <= hi
    ensures Times(|xs|, lo) <= Sum(xs) <= Times(|xs|, hi)
  {
    if xs != [] {
      SumBounds(xs[..|xs| - 1], lo, hi);
      TimesStep(|xs|, lo);
      TimesStep(|xs|, hi);
    }
  }

  /** For a non-empty list, `min(xs) <= sum(xs) / len(xs) <= max(xs)`. */
  lemma AverageBetween(xs: seq<real>)
    requires |xs| > 0
    ensures MinOf(xs) <= Ratio(Sum(xs), |xs|) <= MaxOf(xs)
  {
    SumBetweenExtremes(xs);
    AverageOf(Sum(xs), |xs|, MinOf(xs), MaxOf(xs));
  }

  lemma SumBetweenExtremes(xs: seq<real>)
    requires |xs| > 0
    ensures Times(|xs|, MinOf(xs)) <= Sum(xs) <= Times(|xs|, MaxOf(xs))
  {
    SumBounds(xs, MinOf(xs), MaxOf(xs));
  }

  lemma AverageOf(s: real, n: nat, lo: real, hi: real)
    requires n > 0 && Times(n, lo) <= s <= Times(n, hi)
    ensures lo <= Ratio(s, n) <= hi
  {
    DivideBounds(s, n as real, lo, hi);
  }

  lemma DivideBounds(s: real, t: real, lo: real, hi: real)
    requires t > 0.0 && t * lo <= s <= t * hi
    ensures lo <= s / t <= hi
  {
    assert s / t * t == s;
  }

  /** A success rate is a fraction of the runs: it lies in `[0, 1]`. */
  lemma RateInUnit(flags: seq<bool>)
    ensures 0.0 <= Ratio(CountTrue(flags) as real, |flags|) <= 1.0
  {
    if |flags| > 0 {
      DivideBounds(CountTrue(flags) as real, |flags| as real, 0.0, 1.0);
    }
  }

  /** The counts are computed over all runs: one per run whose flag is set. */
  lemma {:induction false} CountTrueMonotone(a: seq<bool>, b: seq<bool>)
    requires |a| == |b| && forall i :: 0 <= i < |a| ==> a[i] ==> b[i]
    ensures CountTrue(a) <= CountTrue(b)
  {
    if a != [] {
      CountTrueMonotone(a[..|a| - 1], b[..|b| - 1]);
    }
  }

  /** The extremes are attained: some run has the minimum time, and none is faster. */
  lemma StatisticsExtremes(runs: seq<RunData>)
    requires |runs| > 0
    ensures var s := ComputeStatistics(runs);
      && (exists i :: 0 <= i < |runs| && runs[i].btTime == s.btMinTime)
      && (exists i :: 0 <= i < |runs| && runs[i].btTime == s.btMaxTime)
      && (forall i :: 0 <= i < |runs| ==> s.btMinTime <= runs[i].btTime <= s.btMaxTime)
      && (forall i :: 0 <= i < |runs| ==> s.hMinTime <= runs[i].hTime <= s.hMaxTime)
      && (forall i :: 0 <= i < |runs| ==> s.btMinSteps <= runs[i].btSteps as real <= s.btMaxSteps)
  {
    var bt := BtTimes(runs);
    var i :| 0 <= i < |bt| && bt[i] == MinOf(bt);
    var j :| 0 <= j < |bt| && bt[j] == MaxOf(bt);
    assert runs[i].btTime == MinOf(bt) && runs[j].btTime == MaxOf(bt);
  }

  /** When every heuristic success comes with an exact success, its rate is no larger. */
  lemma HeuristicRateBelow(runs: seq<RunData>)
    requires forall i :: 0 <= i < |runs| ==> runs[i].hSuccess ==> runs[i].btSuccess
    ensures ComputeStatistics(runs).hSuccessRate <= ComputeStatistics(runs).btSuccessRate
  {
    CountTrueMonotone(HFlags(runs), BtFlags(runs));
    if |runs| > 0 {
      RatioMonotone(CountTrue(HFlags(runs)), CountTrue(BtFlags(runs)), |runs|);
    }
  }

  lemma RatioMonotone(a: nat, b: nat, n: nat)
    requires a <= b
    ensures Ratio(a as real, n) <= Ratio(b as real, n)
  {
    if n > 0 {
      var t := n as real;
      assert t * (b as real / t) == b as real;
      DivideBounds(a as real, t, 0.0, b as real / t);
    }
  }

  // ---------------------------------------------------------------------------
  // Batches.

  /** The draws of every configuration: `draws[i][j]` for `sizes[i]` and `densities[j]`. */
  predicate BatchDrawsFit(sizes: seq<nat>, densities: seq<string>, repetitions: nat, draws: seq<seq<seq<Draw>>>) {
    && |draws| == |sizes|
    && forall i :: 0 <= i < |sizes| ==>
         |draws[i]| == |densities| && forall j :: 0 <= j < |densities| ==> DrawsFit(sizes[i], repetitions, draws[i][j])
  }

  /** The results for `sizes[i]`, one per density, in the order of `densities`. */
  function RowFor(sizes: seq<nat>, densities: seq<string>, repetitions: nat, draws: seq<seq<seq<Draw>>>, i: nat): (row: seq<Experiment>)
    requires BatchDrawsFit(sizes, densities, repetitions, draws) && i < |sizes|
    ensures |row| == |densities|
  {
    seq(|densities|, j requires 0 <= j < |densities| => ExperimentFor(sizes[i], densities[j], repetitions, draws[i][j]))
  }

  /** Every configuration's result: `Grid(...)[i][j]` for `sizes[i]` and `densities[j]`. */
  function Grid(sizes: seq<nat>, densities: seq<string>, repetitions: nat, draws: seq<seq<seq<Draw>>>): (g: seq<seq<Experiment>>)
    requires BatchDrawsFit(sizes, densities, repetitions, draws)
    ensures |g| == |sizes| && forall i :: 0 <= i < |g| ==> |g[i]| == |densities|
  {
    seq(|sizes|, i requires 0 <= i < |sizes| => RowFor(sizes, densities, repetitions, draws, i))
  }

  /** The rows of a table, one after the other: reference definition of the batch order. */
  function Flatten<T>(rows: seq<seq<T>>): seq<T> {
    if rows == [] then [] else Flatten(rows[..|rows| - 1]) + Last(rows)
  }

  /** `run_batch_experiments(sizes, densities, repetitions)`: sizes outside, densities inside. */
  method RunBatchExperiments(runner: Runner, sizes: seq<nat>, densities: seq<string>, repetitions: nat, draws: seq<seq<seq<Draw>>>)
    returns (batch: seq<Experiment>, runner': Runner)
    requires BatchDrawsFit(sizes, densities, repetitions, draws)
    ensures batch == Flatten(Grid(sizes, densities, repetitions, draws))
    ensures runner'.results == runner.results + batch
  {
    ghost var grid := Grid(sizes, densities, repetitions, draws);
    batch := [];
    runner' := runner;
    for i := 0 to |sizes|
      invariant batch == Flatten(grid[..i])
      invariant runner'.results == runner.results + batch
    {
      var row;
      row, runner' := RunRow(runner', sizes, densities, repetitions, draws, i);
      assert row == grid[i];
      FlattenSnoc(grid, i);
      Assoc(runner.results, batch, row);
      batch := batch + row;
    }
    assert grid[..|sizes|] == grid;
  }

  /** The inner loop of `run_batch_experiments`: every density for `sizes[i]`. */
  method RunRow(runner: Runner, sizes: seq<nat>, densities: seq<string>, repetitions: nat, draws: seq<seq<seq<Draw>>>, i: nat)
    returns (row: seq<Experiment>, runner': Runner)
    requires BatchDrawsFit(sizes, densities, repetitions, draws) && i < |sizes|
    ensures row == RowFor(sizes, densities, repetitions, draws, i)
    ensures runner'.results == runner.results + row
  {
    ghost var full := RowFor(sizes, densities, repetitions, draws, i);
    row := [];
    runner' := runner;
    for j := 0 to |densities|
      invariant row == full[..j]
      invariant runner'.results == runner.results + row
    {
      var step := RunSingleExperiment(runner', sizes[i], densities[j], repetitions, draws[i][j]);
      assert step.0 == full[j];
      PrefixSnoc(full, j);
      Assoc(runner.results, row, [step.0]);
      row := row + [step.0];
      runner' := step.1;
    }
    assert full[..|densities|] == full;
  }

  lemma FlattenSnoc<T>(rows: seq<seq<T>>, i: nat)
    requires i < |rows|
    ensures Flatten(rows[..i + 1]) == Flatten(rows[..i]) + rows[i]
  {
    assert rows[..i + 1][..i] == rows[..i];
  }

  /** Stated once for any element type, so that no element is ever unfolded to prove it. */
  lemma Assoc<T>(a: seq<T>, b: seq<T>, c: seq<T>)
    ensures a + b + c == a + (b + c)
  {
  }

  lemma PrefixSnoc<T>(s: seq<T>, j: nat)
    requires j < |s|
    ensures s[..j + 1] == s[..j] + [s[j]]
  {
  }

  /** A table of `|rows|` rows of width `w` flattens to `|rows| * w` cells. */
  lemma {:induction false} FlattenLength<T>(rows: seq<seq<T>>, w: nat)
    requires forall i :: 0 <= i < |rows| ==> |rows[i]| == w
    ensures |Flatten(rows)| == |rows| * w
  {
    if rows != [] {
      var n := |rows|;
      FlattenLength(rows[..n - 1], w);
      assert (n - 1) * w + w == n * w;
    }
  }

  /** Cell `c` of row `a` lands at position `a * w + c`. */
  lemma {:induction false} FlattenAt<T>(rows: seq<seq<T>>, w: nat, a: nat, c: nat)
    requires forall i :: 0 <= i < |rows| ==> |rows[i]| == w
    requires a < |rows| && c < w
    ensures a * w + c < |Flatten(rows)| && Flatten(rows)[a * w + c] == rows[a][c]
  {
    var n := |rows|;
    var init := rows[..n - 1];
    FlattenLength(rows, w);
    FlattenLength(init, w);
    MulStrict(a, c, n, w);
    var x := a * w + c;
    if a < n - 1 {
      FlattenAt(init, w, a, c);
      assert init[a] == rows[a];
      assert (Flatten(init) + Last(rows))[x] == Flatten(init)[x];
    } else {
      assert x == (n - 1) * w + c;
      assert (Flatten(init) + Last(rows))[x] == Last(rows)[c];
    }
  }

  lemma MulStrict(a: nat, c: nat, i: nat, w: nat)
    requires a < i && c < w
    ensures a * w + c < i * w
  {
    assert (a + 1) * w <= i * w;
  }

  /**
    The batch holds `|sizes| * |densities|` results, sizes outside and densities
    inside: the one for `sizes[a]` and `densities[c]` sits at `a * |densities| + c`.
   */
  lemma BatchOrder(sizes: seq<nat>, densities: seq<string>, repetitions: nat, draws: seq<seq<seq<Draw>>>, a: nat, c: nat)
    requires BatchDrawsFit(sizes, densities, repetitions, draws) && a < |sizes| && c < |densities|
    ensures var b := Flatten(Grid(sizes, densities, repetitions, draws));
      && |b| == |sizes| * |densities|
      && a * |densities| + c < |b|
      && b[a * |densities| + c] == ExperimentFor(sizes[a], densities[c], repetitions, draws[a][c])
  {
    var g := Grid(sizes, densities, repetitions, draws);
    FlattenGridAt(g, |densities|, a, c);
    assert g[a] == RowFor(sizes, densities, repetitions, draws, a);
  }

  /** `FlattenLength` and `FlattenAt` together, for any element type. */
  lemma FlattenGridAt<T>(rows: seq<seq<T>>, w: nat, a: nat, c: nat)
    requires forall i :: 0 <= i < |rows| ==> |rows[i]| == w
    requires a < |rows| && c < w
    ensures |Flatten(rows)| == |rows| * w
    ensures a * w + c < |Flatten(rows)| && Flatten(rows)[a * w + c] == rows[a][c]
  {
    FlattenLength(rows, w);
    FlattenAt(rows, w, a, c);
  }

  // ---------------------------------------------------------------------------
  // CSV export.

  /** A value handed to `csv.writer`: text, an int, a float, or a time already formatted with `:.6f`. */
  datatype Cell = Text(s: string) | Int(i: int) | Float(r: real) | Fixed6(t: real)

  datatype ExportError = ValueError

  function CsvHeader(): seq<Cell> {
    [Text("n"), Text("densidade"), Text("probabilidade"), Text("run_id"), Text("num_arestas"),
     Text("bt_tempo"), Text("bt_sucesso"), Text("bt_passos"), Text("h_tempo"), Text("h_sucesso")]
  }

  function Flag(b: bool): int {
    if b then 1 else 0
  }

  /** The row `writer.writerow([...])` writes for `run` of `result`. */
  function CsvRow(e: Experiment, run: RunData): (row: seq<Cell>)
    ensures |row| == |CsvHeader()|
  {
    [Int(e.n), Text(e.density), Float(e.probability), Int(run.runId), Int(run.numEdges),
     Fixed6(run.btTime), Int(Flag(run.btSuccess)), Int(run.btSteps),
     Fixed6(run.hTime), Int(Flag(run.hSuccess))]
  }

  function ExperimentRows(e: Experiment): (rows: seq<seq<Cell>>)
    ensures |rows| == |e.runs|
    ensures forall k :: 0 <= k < |e.runs| ==> rows[k] == CsvRow(e, e.runs[k])
  {
    seq(|e.runs|, k requires 0 <= k < |e.runs| => CsvRow(e, e.runs[k]))
  }

  /** The data rows of all results, in order. */
  function DataRows(results: seq<Experiment>): seq<seq<Cell>> {
    if results == [] then [] else DataRows(results[..|results| - 1]) + ExperimentRows(Last(results))
  }

  /** Number of runs over all results. */
  function TotalRuns(results: seq<Experiment>): nat {
    if results == [] then 0 else TotalRuns(results[..|results| - 1]) + |Last(results).runs|
  }

  /**
    `export_to_csv`: ValueError exactly when there are no results; otherwise the
    10-column header and then one 10-column row per run.
   */
  function ExportToCsv(runner: Runner): (r: Result<seq<seq<Cell>>, ExportError>)
    ensures r.Err? <==> runner.results == []
    ensures r.Ok? ==>
      && |r.value| == 1 + TotalRuns(runner.results)
      && r.value[0] == CsvHeader()
      && (forall k :: 0 <= k < |r.value| ==> |r.value[k]| == 10)
  {
    if runner.results == [] then Err(ValueError)
    else
      DataRowsLength(runner.results);
      DataRowsWidth(runner.results);
      Ok([CsvHeader()] + DataRows(runner.results))
  }

  /** The fields a CSV row carries, read back. */
  datatype RowFields = RowFields(
    n: int, density: string, probability: real, runId: int, numEdges: int,
    btTime: real, btSuccess: bool, btSteps: int, hTime: real, hSuccess: bool)

  /** Reads a data row back; None when it does not have the layout of `CsvRow`. */
  function ReadRow(row: seq<Cell>): Option<RowFields> {
    if |row| != 10 then None
    else match (row[0], row[1], row[2], row[3], row[4], row[5], row[6], row[7], row[8], row[9])
      case (Int(n), Text(d), Float(p), Int(id), Int(m), Fixed6(bt), Int(bs), Int(st), Fixed6(ht), Int(hs)) =>
        if bs in {0, 1} && hs in {0, 1} then Some(RowFields(n, d, p, id, m, bt, bs == 1, st, ht, hs == 1))
        else None
      case _ => None
  }

  /** The fields of `run` and of its configuration that the CSV keeps. */
  function FieldsOf(e: Experiment, run: RunData): RowFields {
    RowFields(e.n, e.density, e.probability, run.runId, run.numEdges,
              run.btTime, run.btSuccess, run.btSteps, run.hTime, run.hSuccess)
  }

  /** Reading a written row gives back the configuration's and the run's fields. */
  lemma CsvRowRoundTrip(e: Experiment, run: RunData)
    ensures ReadRow(CsvRow(e, run)) == Some(FieldsOf(e, run))
  {
  }

  /** The cell the exporter writes under the column titled `title`, None for an unknown title. */
  function ColumnNamed(title: string, e: Experiment, run: RunData): Option<Cell> {
    if title == "n" then Some(Int(e.n))
    else if title == "densidade" then Some(Text(e.density))
    else if title == "probabilidade" then Some(Float(e.probability))
    else if title == "run_id" then Some(Int(run.runId))
    else if title == "num_arestas" then Some(Int(run.numEdges))
    else if title == "bt_tempo" then Some(Fixed6(run.btTime))
    else if title == "bt_sucesso" then Some(Int(Flag(run.btSuccess)))
    else if title == "bt_passos" then Some(Int(run.btSteps))
    else if title == "h_tempo" then Some(Fixed6(run.hTime))
    else if title == "h_sucesso" then Some(Int(Flag(run.hSuccess)))
    else None
  }

  /**
    The header and the data rows line up: the titles are distinct text cells, and every
    cell of a data row is the value named by the title above it.
   */
  lemma CsvRowByTitle(e: Experiment, run: RunData)
    ensures forall c, d :: 0 <= c < d < |CsvHeader()| ==> CsvHeader()[c] != CsvHeader()[d]
    ensures forall c :: 0 <= c < |CsvHeader()| ==>
      CsvHeader()[c].Text? && ColumnNamed(CsvHeader()[c].s, e, run) == Some(CsvRow(e, run)[c])
  {
  }

  lemma {:induction false} DataRowsLength(results: seq<Experiment>)
    ensures |DataRows(results)| == TotalRuns(results)
  {
    if results != [] {
      DataRowsLength(results[..|results| - 1]);
    }
  }

  /** Row `k` of result `i` comes after the rows of all earlier results. */
  lemma {:induction false} DataRowsAt(results: seq<Experiment>, i: nat, k: nat)
    requires i < |results| && k < |results[i].runs|
    ensures TotalRuns(results[..i]) + k < TotalRuns(results) == |DataRows(results)|
    ensures DataRows(results)[TotalRuns(results[..i]) + k] == CsvRow(results[i], results[i].runs[k])
  {
    DataRowsLength(results);
    var init := results[..|results| - 1];
    DataRowsLength(init);
    if i < |results| - 1 {
      DataRowsAt(init, i, k);
      assert results[..i] == init[..i] && results[i] == init[i];
    } else {
      assert results[..i] == init && results[i] == Last(results);
      assert ExperimentRows(Last(results))[k] == CsvRow(results[i], results[i].runs[k]);
    }
  }

  /**
    The rows follow the results in order and, within a result, its runs in order; each
    reads back as that run's fields, its success flags written as 1 or 0.
   */
  lemma ExportOrder(runner: Runner, i: nat, k: nat)
    requires runner.results != [] && i < |runner.results| && k < |runner.results[i].runs|
    ensures var rows := ExportToCsv(runner).value;
      var results := runner.results;
      && 1 + TotalRuns(results[..i]) + k < |rows|
      && ReadRow(rows[1 + TotalRuns(results[..i]) + k]) == Some(FieldsOf(results[i], results[i].runs[k]))
  {
    var results := runner.results;
    DataRowsAt(results, i, k);
    var x := TotalRuns(results[..i]) + k;
    assert ExportToCsv(runner).value[1 + x] == DataRows(results)[x];
    CsvRowRoundTrip(results[i], results[i].runs[k]);
  }

  lemma {:induction false} DataRowsWidth(results: seq<Experiment>)
    ensures forall r :: 0 <= r < |DataRows(results)| ==> |DataRows(results)[r]| == 10
  {
    if results != [] {
      DataRowsWidth(results[..|results| - 1]);
    }
  }

  // ---------------------------------------------------------------------------
  // Summary table.

  /** `"=" * 100`. */
  function RuleLine(): (s: string)
    ensures |s| == 100 && forall i :: 0 <= i < |s| ==> s[i] == '='
  {
    seq(100, _ => '=')
  }

  /** `f"{s:<w}"`: left-justified in a field of width `w`. */
  function PadRight(s: string, w: nat): (r: string)
    ensures |r| == Max(|s|, w) && r[..|s|] == s
    ensures forall i :: |s| <= i < |r| ==> r[i] == ' '
  {
    if |s| >= w then s else s + seq(w - |s|, _ => ' ')
  }

  /** The column titles line. */
  function HeaderLine(): string {
    PadRight("n", 5) + " " + PadRight("Dens", 8) + " " + PadRight("BT Tempo", 12) + " "
    + PadRight("BT Taxa", 10) + " " + PadRight("BT Passos", 12) + " "
    + PadRight("H Tempo", 12) + " " + PadRight("H Taxa", 10)
  }

  /**
    A line of the table.  The rules and the titles are text; a result line shows the
    numbers listed (their `:.6f`, `:.2%` and `:.1f` rendering is not modelled).
   */
  datatype SummaryLine =
    | Literal(text: string)
    | ResultLine(n: nat, density: string, btAvgTime: real, btSuccessRate: real,
                 btAvgSteps: real, hAvgTime: real, hSuccessRate: real)

  /** What `get_summary_table` returns: the fixed message, or the lines it joins with newlines. */
  datatype Summary = NoResults(message: string) | Table(lines: seq<SummaryLine>)

  function ResultLineOf(e: Experiment): SummaryLine {
    var s := e.statistics;
    ResultLine(e.n, e.density, s.btAvgTime, s.btSuccessRate, s.btAvgSteps, s.hAvgTime, s.hSuccessRate)
  }

  /**
    `get_summary_table()`: without results the fixed message; otherwise a rule, the
    75-column titles and a rule, then one line per result in order showing its size,
    density and statistics, and a closing rule: `|results| + 4` lines.
   */
  function GetSummaryTable(runner: Runner): (r: Summary)
    ensures r.NoResults? <==> runner.results == []
    ensures r.Table? ==>
      var results := runner.results;
      && |r.lines| == |results| + 4
      && r.lines[0] == r.lines[2] == r.lines[|r.lines| - 1] == Literal(RuleLine())
      && r.lines[1] == Literal(HeaderLine()) && |HeaderLine()| == 75
      && forall i :: 0 <= i < |results| ==>
           && r.lines[3 + i].ResultLine?
           && r.lines[3 + i].n == results[i].n && r.lines[3 + i].density == results[i].density
           && r.lines[3 + i].btSuccessRate == results[i].statistics.btSuccessRate
           && r.lines[3 + i].hSuccessRate == results[i].statistics.hSuccessRate
           && r.lines[3 + i].btAvgTime == results[i].statistics.btAvgTime
           && r.lines[3 + i].btAvgSteps == results[i].statistics.btAvgSteps
           && r.lines[3 + i].hAvgTime == results[i].statistics.hAvgTime
  {
    if runner.results == [] then NoResults("Nenhum resultado dispon\U{ed}vel.")
    else
      Table([Literal(RuleLine()), Literal(HeaderLine()), Literal(RuleLine())]
            + seq(|runner.results|, i requires 0 <= i < |runner.results| => ResultLineOf(runner.results[i]))
            + [Literal(RuleLine())])
  }

  // ---------------------------------------------------------------------------
  // What the runner keeps.

  /** A stored result carries the statistics of its own runs, and no run has only a heuristic success. */
  predicate Recorded(e: Experiment) {
    && e.statistics == ComputeStatistics(e.runs)
    && forall i :: 0 <= i < |e.runs| ==> e.runs[i].hSuccess ==> e.runs[i].btSuccess
  }

  /** `run_single_experiment` keeps every stored result recorded, the old ones and the new one. */
  lemma SingleExperimentRecorded(runner: Runner, n: nat, density: string, repetitions: nat, draws: seq<Draw>)
    requires DrawsFit(n, repetitions, draws)
    requires forall i :: 0 <= i < |runner.results| ==> Recorded(runner.results[i])
    ensures var after := RunSingleExperiment(runner, n, density, repetitions, draws).1;
      forall i :: 0 <= i < |after.results| ==> Recorded(after.results[i])
  {
    var (e, after) := RunSingleExperiment(runner, n, density, repetitions, draws);
    assert Recorded(e);
    AppendRecorded(runner.results, e);
  }

  lemma AppendRecorded(results: seq<Experiment>, e: Experiment)
    requires forall i :: 0 <= i < |results| ==> Recorded(results[i])
    requires Recorded(e)
    ensures forall i :: 0 <= i < |results + [e]| ==> Recorded((results + [e])[i])
  {
    forall i | 0 <= i < |results + [e]|
      ensures Recorded((results + [e])[i])
    {
      if i < |results| {
        assert (results + [e])[i] == results[i];
      }
    }
  }

  /**
    Over recorded results every line of the summary table shows rates in `[0, 1]`, the
    heuristic's never above the exact search's.
   */
  lemma SummaryRates(runner: Runner)
    requires forall i :: 0 <= i < |runner.results| ==> Recorded(runner.results[i])
    ensures var t := GetSummaryTable(runner);
      t.Table? ==> forall k :: 3 <= k < |t.lines| - 1 ==>
        t.lines[k].ResultLine? && 0.0 <= t.lines[k].hSuccessRate <= t.lines[k].btSuccessRate <= 1.0
  {
    var t := GetSummaryTable(runner);
    if t.Table? {
      forall k | 3 <= k < |t.lines| - 1
        ensures t.lines[k].ResultLine? && 0.0 <= t.lines[k].hSuccessRate <= t.lines[k].btSuccessRate <= 1.0
      {
        var e := runner.results[k - 3];
        HeuristicRateBelow(e.runs);
      }
    }
  }
}
