/** Gas-balanced assignment of a pipeline stage's tasks to workers, and how
    far it can be from the best possible assignment. */
module WorkerAssignment {
  import opened Collections
  import opened Arithmetic

  type Gas = g: nat | g < TWO_64

  datatype PipelineTask = PipelineTask(txIndex: int, gasLimit: Gas, depth: nat)

  datatype PipelineBatch = PipelineBatch(workerId: nat, tasks: seq<PipelineTask>, gasSum: Gas)

  /** A worker for each task. */
  ghost predicate Assignment(tasks: seq<PipelineTask>, f: seq<nat>, workers: nat) {
    |f| == |tasks| && forall i :: 0 <= i < |f| ==> f[i] < workers
  }

  /** The tasks `f` gives to worker `w`, in order. */
  ghost function TasksOf(tasks: seq<PipelineTask>, f: seq<nat>, w: nat): seq<PipelineTask>
    requires |f| == |tasks|
  {
    if tasks == [] then []
    else
      var n := |tasks| - 1;
      TasksOf(tasks[..n], f[..n], w) + if f[n] == w then [tasks[n]] else []
  }

  ghost function TotalGas(tasks: seq<PipelineTask>): nat {
    if tasks == [] then 0 else TotalGas(tasks[..|tasks| - 1]) + tasks[|tasks| - 1].gasLimit
  }

  ghost function LargestGas(tasks: seq<PipelineTask>): nat {
    if tasks == [] then 0
    else
      var m := LargestGas(tasks[..|tasks| - 1]);
      if tasks[|tasks| - 1].gasLimit > m then tasks[|tasks| - 1].gasLimit else m
  }

  ghost function Load(tasks: seq<PipelineTask>, f: seq<nat>, w: nat): nat
    requires |f| == |tasks|
  {
    TotalGas(TasksOf(tasks, f, w))
  }

  /** The running sum a batch shows, in 64-bit arithmetic. */
  ghost function Shown(tasks: seq<PipelineTask>, f: seq<nat>, w: nat): Gas
    requires |f| == |tasks|
  {
    Load(tasks, f, w) % TWO_64
  }

  /** Worker `k` shows the least gas, and no earlier worker shows as little. */
  ghost predicate LeastLoaded(tasks: seq<PipelineTask>, f: seq<nat>, workers: nat, k: nat)
    requires |f| == |tasks|
  {
    && k < workers
    && (forall w :: 0 <= w < workers ==> Shown(tasks, f, k) <= Shown(tasks, f, w))
    && (forall w :: 0 <= w < k ==> Shown(tasks, f, k) < Shown(tasks, f, w))
  }

  /** Each task goes to the first least-loaded worker at its turn. */
  ghost predicate Greedy(tasks: seq<PipelineTask>, f: seq<nat>, workers: nat) {
    && Assignment(tasks, f, workers)
    && (forall i :: 0 <= i < |f| ==> LeastLoaded(tasks[..i], f[..i], workers, f[i]))
  }

  // ----- the code -----

  method FindLeastLoaded(batches: seq<PipelineBatch>) returns (minIdx: nat)
    requires batches != []
    ensures minIdx < |batches|
    ensures forall w :: 0 <= w < |batches| ==> batches[minIdx].gasSum <= batches[w].gasSum
    ensures forall w :: 0 <= w < minIdx ==> batches[minIdx].gasSum < batches[w].gasSum
  {
    minIdx := 0;
    for i := 1 to |batches|
      invariant minIdx < i
      invariant forall w :: 0 <= w < i ==> batches[minIdx].gasSum <= batches[w].gasSum
      invariant forall w :: 0 <= w < minIdx ==> batches[minIdx].gasSum < batches[w].gasSum
    {
      if batches[i].gasSum < batches[minIdx].gasSum {
        minIdx := i;
      }
    }
  }

  ghost predicate BatchFor(tasks: seq<PipelineTask>, f: seq<nat>, w: nat, b: PipelineBatch)
    requires |f| == |tasks|
  {
    b == PipelineBatch(w, TasksOf(tasks, f, w), Shown(tasks, f, w))
  }

  lemma GiveTask(tasks: seq<PipelineTask>, f: seq<nat>, t: PipelineTask, k: nat, w: nat, b: PipelineBatch)
    requires |f| == |tasks| && BatchFor(tasks, f, w, b)
    ensures BatchFor(tasks + [t], f + [k], w,
                     if k == w then PipelineBatch(w, b.tasks + [t], (b.gasSum + t.gasLimit) % TWO_64) else b)
  {
    hide TotalGas;
    TasksAppend(tasks, f, t, k, w);
    TotalAppend(TasksOf(tasks, f, w), t);
    AddWrapped(Load(tasks, f, w), t.gasLimit);
  }

  lemma TasksAppend(tasks: seq<PipelineTask>, f: seq<nat>, t: PipelineTask, k: nat, w: nat)
    requires |f| == |tasks|
    ensures TasksOf(tasks + [t], f + [k], w) == TasksOf(tasks, f, w) + if k == w then [t] else []
  {
    var n := |tasks|;
    assert (tasks + [t])[..n] == tasks && (f + [k])[..n] == f;
  }

  lemma TotalAppend(tasks: seq<PipelineTask>, t: PipelineTask)
    ensures TotalGas(tasks + [t]) == TotalGas(tasks) + t.gasLimit
  {
    assert (tasks + [t])[..|tasks|] == tasks;
  }

  lemma ExtendGreedy(tasks: seq<PipelineTask>, f: seq<nat>, workers: nat, t: PipelineTask, k: nat)
    requires Greedy(tasks, f, workers) && LeastLoaded(tasks, f, workers, k)
    ensures Greedy(tasks + [t], f + [k], workers)
  {
    var ts, fs := tasks + [t], f + [k];
    forall i | 0 <= i < |fs| ensures LeastLoaded(ts[..i], fs[..i], workers, fs[i]) {
      if i < |f| {
        assert ts[..i] == tasks[..i] && fs[..i] == f[..i];
      } else {
        assert ts[..i] == tasks && fs[..i] == f;
      }
    }
  }

  /** The loop of `assignWorkers` before empty batches are dropped. */
  method FillBatches(workers: nat, tasks: seq<PipelineTask>) returns (batches: seq<PipelineBatch>, ghost f: seq<nat>)
    requires workers > 0
    ensures Greedy(tasks, f, workers) && |batches| == workers
    ensures forall w :: 0 <= w < workers ==> BatchFor(tasks, f, w, batches[w])
  {
    hide TasksOf, Shown, Load;
    batches, f := seq(workers, (i: nat) => PipelineBatch(i, [], 0)), [];
    forall w | 0 <= w < workers ensures BatchFor(tasks[..0], f, w, batches[w]) { EmptyBatch(w); }
    for i := 0 to |tasks|
      invariant |f| == i && |batches| == workers
      invariant Greedy(tasks[..i], f, workers)
      invariant forall w :: 0 <= w < workers ==> BatchFor(tasks[..i], f, w, batches[w])
    {
      var t := tasks[i];
      var k := FindLeastLoaded(batches);
      assert LeastLoaded(tasks[..i], f, workers, k) by {
        forall w | 0 <= w < workers ensures batches[w].gasSum == Shown(tasks[..i], f, w) {
          assert BatchFor(tasks[..i], f, w, batches[w]);
        }
      }
      ExtendGreedy(tasks[..i], f, workers, t, k);
      ghost var before := batches;
      var b := batches[k];
      batches := batches[k := PipelineBatch(b.workerId, b.tasks + [t], (b.gasSum + t.gasLimit) % TWO_64)];
      assert tasks[..i + 1] == tasks[..i] + [t];
      forall w | 0 <= w < workers ensures BatchFor(tasks[..i + 1], f + [k], w, batches[w]) {
        assert BatchFor(tasks[..i], f, w, before[w]);
        GiveTask(tasks[..i], f, t, k, w, before[w]);
      }
      f := f + [k];
    }
    assert tasks[..|tasks|] == tasks;
  }

  lemma EmptyBatch(w: nat)
    ensures BatchFor([], [], w, PipelineBatch(w, [], 0))
  {
  }

  ghost function NonEmpty(batches: seq<PipelineBatch>): seq<PipelineBatch> {
    if batches == [] then []
    else
      var b := batches[|batches| - 1];
      NonEmpty(batches[..|batches| - 1]) + if b.tasks != [] then [b] else []
  }

  /** The non-empty batches of a greedy assignment of the tasks. */
  ghost predicate Assigned(workers: nat, tasks: seq<PipelineTask>, batches: seq<PipelineBatch>) {
    exists f, all ::
      && Greedy(tasks, f, workers) && |all| == workers
      && (forall w :: 0 <= w < workers ==> BatchFor(tasks, f, w, all[w]))
      && batches == NonEmpty(all)
  }

  lemma BatchesAssigned(workers: nat, tasks: seq<PipelineTask>, f: seq<nat>, all: seq<PipelineBatch>)
    requires Greedy(tasks, f, workers) && |all| == workers
    requires forall w :: 0 <= w < workers ==> BatchFor(tasks, f, w, all[w])
    ensures Assigned(workers, tasks, NonEmpty(all))
  {
    hide Greedy, BatchFor, NonEmpty;
  }

  /** `assignWorkers`: the non-empty batches of the greedy assignment. */
  method AssignWorkers(workers: nat, tasks: seq<PipelineTask>)
    returns (batches: seq<PipelineBatch>)
    requires workers > 0
    ensures Assigned(workers, tasks, batches)
  {
    hide Greedy, BatchFor, Assigned;
    ghost var f;
    var filled;
    filled, f := FillBatches(workers, tasks);
    batches := [];
    BatchesAssigned(workers, tasks, f, filled);
    if |tasks| == 0 {
      assert |f| == 0 by { GreedyLength(tasks, f, workers); }
      AllEmpty(workers, tasks, f, filled);
      return;
    }
    for i := 0 to |filled|
      invariant batches == NonEmpty(filled[..i])
    {
      assert filled[..i + 1][..i] == filled[..i];
      if |filled[i].tasks| > 0 {
        batches := batches + [filled[i]];
      }
    }
    assert filled[..|filled|] == filled;
  }

  lemma GreedyLength(tasks: seq<PipelineTask>, f: seq<nat>, workers: nat)
    requires Greedy(tasks, f, workers)
    ensures |f| == |tasks|
  {
  }

  lemma AllEmpty(workers: nat, tasks: seq<PipelineTask>, f: seq<nat>, all: seq<PipelineBatch>)
    requires tasks == [] && f == [] && |all| == workers
    requires forall w :: 0 <= w < workers ==> BatchFor(tasks, f, w, all[w])
    ensures NonEmpty(all) == []
  {
    NoneListed(all);
  }

  lemma {:induction false} NoneListed(all: seq<PipelineBatch>)
    requires forall w :: 0 <= w < |all| ==> all[w].tasks == []
    ensures NonEmpty(all) == []
  {
    if all != [] { NoneListed(all[..|all| - 1]); }
  }

  // ----- the bounds -----

  lemma {:induction false} LoadsFit(tasks: seq<PipelineTask>, f: seq<nat>, w: nat)
    requires |f| == |tasks|
    ensures Load(tasks, f, w) <= TotalGas(tasks)
  {
    if tasks != [] {
      var n := |tasks| - 1;
      LoadsFit(tasks[..n], f[..n], w);
      LoadStep(tasks, f, w);
    }
  }

  lemma LoadStep(tasks: seq<PipelineTask>, f: seq<nat>, w: nat)
    requires |f| == |tasks| && tasks != []
    ensures var n := |tasks| - 1;
            Load(tasks, f, w) == Load(tasks[..n], f[..n], w) + if f[n] == w then tasks[n].gasLimit else 0
  {
    var n := |tasks| - 1;
    var front := TasksOf(tasks[..n], f[..n], w);
    if f[n] == w {
      assert TasksOf(tasks, f, w) == front + [tasks[n]];
      assert (front + [tasks[n]])[..|front|] == front;
    } else {
      assert TasksOf(tasks, f, w) == front;
    }
  }

  /** The sum of the loads of workers 0..m. */
  ghost function LoadSum(tasks: seq<PipelineTask>, f: seq<nat>, m: nat): nat
    requires |f| == |tasks|
  {
    if m == 0 then 0 else LoadSum(tasks, f, m - 1) + Load(tasks, f, m - 1)
  }

  lemma {:induction false} LoadSumStep(tasks: seq<PipelineTask>, f: seq<nat>, m: nat)
    requires |f| == |tasks| && tasks != []
    ensures var n := |tasks| - 1;
            LoadSum(tasks, f, m) == LoadSum(tasks[..n], f[..n], m) + if f[n] < m then tasks[n].gasLimit else 0
  {
    hide Load;
    if m > 0 {
      LoadSumStep(tasks, f, m - 1);
      LoadStep(tasks, f, m - 1);
    }
  }

  lemma {:induction false} LoadSumOfNothing(m: nat)
    ensures LoadSum([], [], m) == 0
  {
    if m > 0 { LoadSumOfNothing(m - 1); }
  }

  /** Gas is conserved by every assignment. */
  lemma {:induction false} GasIsConserved(tasks: seq<PipelineTask>, f: seq<nat>, workers: nat)
    requires Assignment(tasks, f, workers)
    ensures LoadSum(tasks, f, workers) == TotalGas(tasks)
  {
    if tasks == [] {
      LoadSumOfNothing(workers);
    } else {
      var n := |tasks| - 1;
      GasIsConserved(tasks[..n], f[..n], workers);
      LoadSumStep(tasks, f, workers);
    }
  }

  lemma GreedyPrefix(tasks: seq<PipelineTask>, f: seq<nat>, workers: nat)
    requires Greedy(tasks, f, workers) && tasks != []
    ensures var n := |tasks| - 1;
            Greedy(tasks[..n], f[..n], workers) && LeastLoaded(tasks[..n], f[..n], workers, f[n])
  {
    var n := |tasks| - 1;
    var ts, fs := tasks[..n], f[..n];
    forall i | 0 <= i < n ensures LeastLoaded(ts[..i], fs[..i], workers, fs[i]) {
      assert ts[..i] == tasks[..i] && fs[..i] == f[..i];
      assert LeastLoaded(tasks[..i], f[..i], workers, f[i]);
    }
    assert LeastLoaded(tasks[..n], f[..n], workers, f[n]);
  }

  // ----- balance -----

  /** No two workers are further apart than the largest task. */
  ghost predicate Balanced(tasks: seq<PipelineTask>, f: seq<nat>, workers: nat)
    requires |f| == |tasks|
  {
    forall u, w :: 0 <= u < workers && 0 <= w < workers ==> Load(tasks, f, u) <= Load(tasks, f, w) + LargestGas(tasks)
  }

  /** No load has reached 2^64. */
  ghost predicate Fits(tasks: seq<PipelineTask>, f: seq<nat>, workers: nat)
    requires |f| == |tasks|
  {
    forall w :: 0 <= w < workers ==> Load(tasks, f, w) < TWO_64
  }

  /** One worker is at exactly 2^64, all others are at 1. */
  ghost predicate Topped(tasks: seq<PipelineTask>, f: seq<nat>, workers: nat, z: nat)
    requires |f| == |tasks|
  {
    && z < workers && Load(tasks, f, z) == TWO_64 && LargestGas(tasks) >= TWO_64 - 1
    && TotalGas(tasks) >= TWO_64 + workers - 1
    && (forall w :: 0 <= w < workers && w != z ==> Load(tasks, f, w) == 1)
  }

  lemma LeastShownIsLeast(tasks: seq<PipelineTask>, f: seq<nat>, workers: nat, k: nat, w: nat)
    requires |f| == |tasks| && LeastLoaded(tasks, f, workers, k) && Fits(tasks, f, workers) && w < workers
    ensures Load(tasks, f, k) <= Load(tasks, f, w)
  {
    hide Load;
    assert Shown(tasks, f, k) <= Shown(tasks, f, w);
  }

  /** A task on the least loaded worker keeps the balance. */
  lemma BalanceStep(tasks: seq<PipelineTask>, f: seq<nat>, workers: nat)
    requires |f| == |tasks| && tasks != []
    requires var n := |tasks| - 1;
             && LeastLoaded(tasks[..n], f[..n], workers, f[n]) && Fits(tasks[..n], f[..n], workers)
             && Balanced(tasks[..n], f[..n], workers)
    ensures Balanced(tasks, f, workers)
  {
    hide Load, LeastLoaded, Fits;
    var n := |tasks| - 1;
    forall u, w | 0 <= u < workers && 0 <= w < workers
      ensures Load(tasks, f, u) <= Load(tasks, f, w) + LargestGas(tasks)
    {
      LoadStep(tasks, f, u);
      LoadStep(tasks, f, w);
      assert Load(tasks[..n], f[..n], u) <= Load(tasks[..n], f[..n], w) + LargestGas(tasks[..n]);
      if f[n] == u { LeastShownIsLeast(tasks[..n], f[..n], workers, u, w); }
    }
  }

  /** If that task takes the worker to 2^64 all others must be at 1, or the
      total would be too large. */
  lemma ToppingStep(tasks: seq<PipelineTask>, f: seq<nat>, workers: nat)
    requires Assignment(tasks, f, workers) && tasks != [] && workers >= 2 && TotalGas(tasks) < TWO_64 + workers
    requires var n := |tasks| - 1;
             LeastLoaded(tasks[..n], f[..n], workers, f[n]) && Fits(tasks[..n], f[..n], workers)
    requires Load(tasks, f, f[|tasks| - 1]) >= TWO_64
    ensures Topped(tasks, f, workers, f[|tasks| - 1])
  {
    hide Load, LeastLoaded, Fits;
    var n := |tasks| - 1;
    var ts, fs, z, g := tasks[..n], f[..n], f[n], tasks[n].gasLimit;
    var least := Load(ts, fs, z);
    LoadStep(tasks, f, z);
    GasIsConserved(ts, fs, workers);
    forall w | 0 <= w < workers ensures Load(ts, fs, w) >= least { LeastShownIsLeast(ts, fs, workers, z, w); }
    LoadSumAbove(ts, fs, workers, z, least);
    ToppingArithmetic(workers, least, g, TotalGas(ts));
    forall w | 0 <= w < workers && w != z ensures Load(tasks, f, w) == 1 {
      LoadSumAbove(ts, fs, workers, w, 1);
      LoadStep(tasks, f, w);
    }
  }

  lemma ToppingArithmetic(m: nat, least: nat, g: Gas, before: nat)
    requires m >= 2 && least + g >= TWO_64 && before >= m * least && before + g < TWO_64 + m
    ensures least == 1 && g == TWO_64 - 1 && before == m
  {
    if least >= 2 {
      Scale(m - 1, 2, least);
      Peel(m, least);
    }
  }

  lemma {:induction false} GreedyState(tasks: seq<PipelineTask>, f: seq<nat>, workers: nat)
    requires Greedy(tasks, f, workers) && workers >= 2 && TotalGas(tasks) < TWO_64 + workers
    ensures (Fits(tasks, f, workers) && Balanced(tasks, f, workers)) || exists z :: Topped(tasks, f, workers, z)
  {
    if tasks == [] {
      forall w ensures w >= 0 ==> TasksOf(tasks, f, w) == [] {}
    } else {
      var n := |tasks| - 1;
      GreedyPrefix(tasks, f, workers);
      hide Greedy, Load, LeastLoaded, Fits, Balanced, LargestGas, Topped;
      GreedyState(tasks[..n], f[..n], workers);
      if z :| Topped(tasks[..n], f[..n], workers, z) {
        ToppedStays(tasks, f, workers, z);
      } else {
        BalanceStep(tasks, f, workers);
        if Load(tasks, f, f[n]) >= TWO_64 {
          ToppingStep(tasks, f, workers);
        } else {
          FitsStep(tasks, f, workers);
        }
      }
    }
  }

  lemma FitsStep(tasks: seq<PipelineTask>, f: seq<nat>, workers: nat)
    requires |f| == |tasks| && tasks != [] && Fits(tasks[..|tasks| - 1], f[..|tasks| - 1], workers)
    requires Load(tasks, f, f[|tasks| - 1]) < TWO_64
    ensures Fits(tasks, f, workers)
  {
    hide Load;
    forall w | 0 <= w < workers ensures Load(tasks, f, w) < TWO_64 { LoadStep(tasks, f, w); }
  }

  /** All that can follow is tasks without gas. */
  lemma ToppedStays(tasks: seq<PipelineTask>, f: seq<nat>, workers: nat, z: nat)
    requires |f| == |tasks| && tasks != [] && TotalGas(tasks) < TWO_64 + workers
    requires Topped(tasks[..|tasks| - 1], f[..|tasks| - 1], workers, z)
    ensures Topped(tasks, f, workers, z)
  {
    hide Load;
    forall w | 0 <= w < workers ensures Load(tasks, f, w) == Load(tasks[..|tasks| - 1], f[..|tasks| - 1], w) {
      LoadStep(tasks, f, w);
    }
  }

  /** Below a total of 2^64 plus the number of workers, no two workers are
      further apart than the largest task. */
  lemma GreedyIsBalanced(tasks: seq<PipelineTask>, f: seq<nat>, workers: nat)
    requires Greedy(tasks, f, workers) && (TotalGas(tasks) < TWO_64 + workers || workers == 1)
    ensures Balanced(tasks, f, workers)
  {
    hide Load, LargestGas;
    if workers >= 2 { GreedyState(tasks, f, workers); }
  }

  lemma Peel(m: nat, x: int)
    requires m > 0
    ensures m * x == (m - 1) * x + x
  {
  }

  lemma {:induction false} LoadSumAbove(tasks: seq<PipelineTask>, f: seq<nat>, m: nat, u: nat, least: int)
    requires |f| == |tasks|
    requires forall w :: 0 <= w < m ==> Load(tasks, f, w) >= least
    ensures LoadSum(tasks, f, m) >= m * least + if u < m then Load(tasks, f, u) - least else 0
  {
    hide Load;
    if m > 0 {
      LoadSumAbove(tasks, f, m - 1, u, least);
      Peel(m, least);
    }
  }

  lemma {:induction false} LoadSumBelow(tasks: seq<PipelineTask>, f: seq<nat>, m: nat, most: nat)
    requires |f| == |tasks|
    requires forall w :: 0 <= w < m ==> Load(tasks, f, w) <= most
    ensures LoadSum(tasks, f, m) <= m * most
  {
    hide Load;
    if m > 0 {
      LoadSumBelow(tasks, f, m - 1, most);
      Peel(m, most);
    }
  }

  lemma {:induction false} TaskFitsItsWorker(tasks: seq<PipelineTask>, f: seq<nat>, i: nat)
    requires |f| == |tasks| && i < |tasks|
    ensures tasks[i].gasLimit <= Load(tasks, f, f[i])
  {
    var n := |tasks| - 1;
    LoadStep(tasks, f, f[i]);
    if i < n {
      TaskFitsItsWorker(tasks[..n], f[..n], i);
      assert f[..n][i] == f[i];
    }
  }

  lemma {:induction false} LargestIsATask(tasks: seq<PipelineTask>) returns (i: nat)
    requires tasks != []
    ensures i < |tasks| && tasks[i].gasLimit == LargestGas(tasks)
  {
    var n := |tasks| - 1;
    if n > 0 && tasks[n].gasLimit <= LargestGas(tasks[..n]) {
      i := LargestIsATask(tasks[..n]);
    } else {
      i := n;
    }
  }

  /** Any assignment whose loads stay within `best` pays for the whole stage
      and for its largest task. */
  lemma EveryAssignmentPays(tasks: seq<PipelineTask>, h: seq<nat>, workers: nat, best: nat)
    requires Assignment(tasks, h, workers)
    requires forall w :: 0 <= w < workers ==> Load(tasks, h, w) <= best
    ensures TotalGas(tasks) <= workers * best && LargestGas(tasks) <= best
  {
    GasIsConserved(tasks, h, workers);
    LoadSumBelow(tasks, h, workers, best);
    if tasks != [] {
      var i := LargestIsATask(tasks);
      TaskFitsItsWorker(tasks, h, i);
    }
  }

  // ----- how far from the best -----

  /** Every worker's load is at most (2 - 1/m) times `best`. */
  ghost predicate NearlyOptimal(tasks: seq<PipelineTask>, f: seq<nat>, workers: nat, best: nat)
    requires |f| == |tasks|
  {
    forall u :: 0 <= u < workers ==> workers * Load(tasks, f, u) <= (2 * workers - 1) * best
  }

  /** Some assignment keeps every load within `best`. */
  ghost predicate Doable(tasks: seq<PipelineTask>, workers: nat, best: nat) {
    exists h :: Assignment(tasks, h, workers) && forall w :: 0 <= w < workers ==> Load(tasks, h, w) <= best
  }

  lemma DoablePays(tasks: seq<PipelineTask>, workers: nat, best: nat)
    requires Doable(tasks, workers, best)
    ensures TotalGas(tasks) <= workers * best && LargestGas(tasks) <= best
  {
    hide Load;
    var h :| Assignment(tasks, h, workers) && forall w :: 0 <= w < workers ==> Load(tasks, h, w) <= best;
    EveryAssignmentPays(tasks, h, workers, best);
  }

  lemma LastIsATask(tasks: seq<PipelineTask>)
    requires tasks != []
    ensures tasks[|tasks| - 1].gasLimit <= LargestGas(tasks) && LargestGas(tasks[..|tasks| - 1]) <= LargestGas(tasks)
    ensures TotalGas(tasks[..|tasks| - 1]) <= TotalGas(tasks)
  {
  }

  /** Graham's argument for one step: a task on a worker no heavier than any
      other leaves that worker within the bound. */
  lemma GrahamStep(tasks: seq<PipelineTask>, f: seq<nat>, workers: nat, best: nat)
    requires Assignment(tasks, f, workers) && tasks != [] && workers > 0
    requires TotalGas(tasks) <= workers * best && LargestGas(tasks) <= best
    requires var n := |tasks| - 1;
             LeastLoaded(tasks[..n], f[..n], workers, f[n]) && Fits(tasks[..n], f[..n], workers)
    ensures workers * Load(tasks, f, f[|tasks| - 1]) <= (2 * workers - 1) * best
    ensures workers * Load(tasks, f, f[|tasks| - 1]) == (2 * workers - 1) * best ==> TotalGas(tasks) == workers * best
  {
    hide Load, LeastLoaded, Fits, LargestGas;
    var n := |tasks| - 1;
    var ts, fs, z, g := tasks[..n], f[..n], f[n], tasks[n].gasLimit;
    LastIsATask(tasks);
    LoadStep(tasks, f, z);
    GasIsConserved(ts, fs, workers);
    forall w | 0 <= w < workers ensures Load(ts, fs, w) >= Load(ts, fs, z) { LeastShownIsLeast(ts, fs, workers, z, w); }
    LoadSumAbove(ts, fs, workers, z, Load(ts, fs, z));
    GrahamArithmetic(workers, Load(ts, fs, z), g, TotalGas(ts), best);
  }

  lemma GrahamArithmetic(m: nat, least: nat, g: nat, before: nat, best: nat)
    requires m > 0 && g <= best && before + g <= m * best && before >= m * least
    ensures m * (least + g) <= (2 * m - 1) * best
    ensures m * (least + g) == (2 * m - 1) * best ==> before + g == m * best
  {
    Spread(m, least, g);
    Peel(m, g);
    Scale(m - 1, g, best);
    Peel(m, best);
    DoubleAndDrop(m - 1, best);
  }

  lemma Spread(m: nat, a: nat, b: nat)
    ensures m * (a + b) == m * a + m * b
  {
  }

  /** Within the bound and not wrapped, or wrapped at the very end. */
  ghost predicate WithinBound(tasks: seq<PipelineTask>, f: seq<nat>, workers: nat, best: nat)
    requires |f| == |tasks|
  {
    NearlyOptimal(tasks, f, workers, best) && (Fits(tasks, f, workers) || TotalGas(tasks) == workers * best)
  }

  lemma WithinBoundStep(tasks: seq<PipelineTask>, f: seq<nat>, workers: nat, best: nat)
    requires Assignment(tasks, f, workers) && tasks != [] && workers > 0
    requires TotalGas(tasks) <= workers * best && LargestGas(tasks) <= best
    requires (2 * workers - 1) * best <= workers * TWO_64
    requires var n := |tasks| - 1;
             LeastLoaded(tasks[..n], f[..n], workers, f[n]) && WithinBound(tasks[..n], f[..n], workers, best)
    ensures WithinBound(tasks, f, workers, best)
  {
    hide Load, LeastLoaded, LargestGas, Fits;
    var n := |tasks| - 1;
    LastIsATask(tasks);
    forall u | 0 <= u < workers ensures workers * Load(tasks, f, u) <= (2 * workers - 1) * best {
      LoadStep(tasks, f, u);
      assert workers * Load(tasks[..n], f[..n], u) <= (2 * workers - 1) * best;
      if u == f[n] && Fits(tasks[..n], f[..n], workers) { GrahamStep(tasks, f, workers, best); }
    }
    if Fits(tasks[..n], f[..n], workers) {
      GrahamStep(tasks, f, workers, best);
      var load := Load(tasks, f, f[n]);
      if load < TWO_64 {
        FitsStep(tasks, f, workers);
      } else {
        Scale(workers, TWO_64, load);
      }
    }
  }

  /** Graham's bound: if the stage can be done within `best` and the bound it
      gives is at most 2^64, no worker's load exceeds (2 - 1/m) times `best`. */
  lemma {:induction false} GreedyIsNearlyOptimal(tasks: seq<PipelineTask>, f: seq<nat>, workers: nat, best: nat)
    requires Greedy(tasks, f, workers) && workers > 0 && Doable(tasks, workers, best)
    requires (2 * workers - 1) * best <= workers * TWO_64 || workers == 1
    ensures NearlyOptimal(tasks, f, workers, best)
  {
    hide Greedy, Load, LargestGas, Doable, NearlyOptimal;
    DoablePays(tasks, workers, best);
    GreedyLength(tasks, f, workers);
    if workers == 1 {
      OneWorkerDoesAll(tasks, f, best);
    } else {
      GreedyWithinBound(tasks, f, workers, best);
    }
  }

  lemma {:induction false} GreedyWithinBound(tasks: seq<PipelineTask>, f: seq<nat>, workers: nat, best: nat)
    requires Greedy(tasks, f, workers) && workers > 0
    requires TotalGas(tasks) <= workers * best && LargestGas(tasks) <= best
    requires (2 * workers - 1) * best <= workers * TWO_64
    ensures WithinBound(tasks, f, workers, best)
  {
    if tasks == [] {
      NothingIsWithinBound(tasks, f, workers, best);
    } else {
      var n := |tasks| - 1;
      GreedyPrefix(tasks, f, workers);
      LastIsATask(tasks);
      hide WithinBound, LeastLoaded, TotalGas, LargestGas;
      GreedyWithinBound(tasks[..n], f[..n], workers, best);
      WithinBoundStep(tasks, f, workers, best);
    }
  }

  lemma NothingIsWithinBound(tasks: seq<PipelineTask>, f: seq<nat>, workers: nat, best: nat)
    requires tasks == [] && f == [] && workers > 0
    ensures WithinBound(tasks, f, workers, best)
  {
    forall w ensures w >= 0 ==> TasksOf(tasks, f, w) == [] {}
    Scale(best, 0, 2 * workers - 1);
  }

  lemma OneWorkerDoesAll(tasks: seq<PipelineTask>, f: seq<nat>, best: nat)
    requires Greedy(tasks, f, 1) && TotalGas(tasks) <= 1 * best
    ensures NearlyOptimal(tasks, f, 1, best)
  {
    LoadsFit(tasks, f, 0);
  }

  lemma Scale(k: nat, a: nat, b: nat)
    ensures k * (a - b) == k * a - k * b
    ensures a <= b ==> k * a <= k * b
  {
    if a <= b { assert k * (b - a) >= 0; assert k * (b - a) == k * b - k * a; }
  }

  lemma DoubleAndDrop(k: nat, x: nat)
    ensures (2 * (k + 1) - 1) * x == k * x + k * x + x
  {
  }
}
