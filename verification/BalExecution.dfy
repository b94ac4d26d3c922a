/** From an access list to the final state: what `Schedule` and `BuildPlan`
    return, executed stage by stage, ends where block order ends. */
module Execution {
  import opened Collections
  import opened DependencyGraphs
  import opened BalConflicts
  import opened WaveLevels
  import opened TopologicalSort
  import opened Serializability
  import opened AccessFootprints
  import opened WorkerAssignment
  import opened Scheduling

  /** The block in order: every declared transaction, and others that declare
      and do nothing. */
  ghost predicate WholeBlock(txs: Block, sets: map<int, RWSet>, full: seq<int>) {
    && StrictlyAscending(full) && sets.Keys <= Elems(full)
    && (forall n :: n in full && n !in sets ==> StaysInside(txs(n), NOTHING))
  }

  // ----- a wave executed at once -----

  /** `t` holds what all members of the wave write when each of them reads `s`,
      and `s` elsewhere. */
  ghost predicate Merged(txs: Block, sets: map<int, RWSet>, wave: seq<int>, s: State, t: State)
    requires forall n :: n in wave ==> n in sets
  {
    && (forall a, l :: a in wave && InWriteSet(sets[a], l) ==> Read(t, l) == Read(txs(a)(s), l))
    && (forall l :: (forall a :: a in wave ==> !InWriteSet(sets[a], l)) ==> Read(t, l) == Read(s, l))
  }

  /** A merge is the state of running the members one after the other. */
  lemma MergedIsRun(txs: Block, sets: map<int, RWSet>, wave: seq<int>, s: State, t: State)
    requires BlockStaysInside(txs, sets) && AllIndependent(sets, wave)
    requires (forall n :: n in wave ==> n in sets) && Merged(txs, sets, wave, s, t)
    ensures t == Run(txs, wave, s)
  {
    hide BlockStaysInside, AllIndependent, Run, InWriteSet;
    forall l ensures Read(t, l) == Read(Run(txs, wave, s), l) {
      WaveRunsAtOnce(txs, sets, wave, s, l);
      if a :| a in wave && InWriteSet(sets[a], l) {}
    }
    SameState(t, Run(txs, wave, s));
  }

  ghost predicate MergedAt(txs: Block, sets: map<int, RWSet>, waves: seq<seq<int>>, states: seq<State>, k: int)
    requires 0 <= k < |waves| && |states| == |waves| + 1
  {
    (forall n :: n in waves[k] ==> n in sets) && Merged(txs, sets, waves[k], states[k], states[k + 1])
  }

  /** The states between the waves, every wave executed at once. */
  ghost predicate ParallelRun(txs: Block, sets: map<int, RWSet>, waves: seq<seq<int>>, states: seq<State>) {
    |states| == |waves| + 1 && forall k :: 0 <= k < |waves| ==> MergedAt(txs, sets, waves, states, k)
  }

  lemma {:induction false} ParallelRunSoFar(txs: Block, sets: map<int, RWSet>, waves: seq<seq<int>>, states: seq<State>,
                                           k: nat)
    requires BlockStaysInside(txs, sets) && WavePlan(sets, waves) && ParallelRun(txs, sets, waves, states)
    requires k <= |waves|
    ensures states[k] == Run(txs, Flatten(waves[..k]), states[0])
  {
    hide BlockStaysInside, WavePlan, Merged;
    if k > 0 {
      ParallelRunSoFar(txs, sets, waves, states, k - 1);
      assert MergedAt(txs, sets, waves, states, k - 1);
      WaveIsIndependent(sets, waves, k - 1);
      MergedIsRun(txs, sets, waves[k - 1], states[k - 1], states[k]);
      RunConcat(txs, Flatten(waves[..k - 1]), waves[k - 1], states[0]);
      assert waves[..k][..k - 1] == waves[..k - 1];
    }
  }

  /** Executing each wave of a plan at once ends in the state of the whole block
      in order. */
  lemma ParallelRunIsBlockOrder(txs: Block, sets: map<int, RWSet>, waves: seq<seq<int>>, states: seq<State>,
                                full: seq<int>)
    requires BlockStaysInside(txs, sets) && WavePlan(sets, waves) && ParallelRun(txs, sets, waves, states)
    requires WholeBlock(txs, sets, full)
    ensures states[|waves|] == Run(txs, full, states[0])
  {
    hide BlockStaysInside, WavePlan, StaysInside, StrictlyAscending, Run, MergedAt;
    ParallelRunSoFar(txs, sets, waves, states, |waves|);
    assert waves[..|waves|] == waves;
    PlannedRunIsBlockOrder(txs, sets, waves, waves, full, states[0]);
  }

  // ----- what the batches of a stage hold -----

  ghost function BatchTasks(batches: seq<PipelineBatch>): seq<PipelineTask> {
    if batches == [] then [] else BatchTasks(batches[..|batches| - 1]) + batches[|batches| - 1].tasks
  }

  lemma {:induction false} NonEmptyTasks(all: seq<PipelineBatch>)
    ensures BatchTasks(NonEmpty(all)) == BatchTasks(all)
  {
    if all != [] {
      var front, b := all[..|all| - 1], all[|all| - 1];
      NonEmptyTasks(front);
      if b.tasks != [] {
        var kept := NonEmpty(front) + [b];
        assert kept[..|kept| - 1] == NonEmpty(front);
      } else {
        assert NonEmpty(all) == NonEmpty(front);
      }
    }
  }

  /** The tasks of workers 0..m, worker by worker. */
  ghost function TasksBelow(tasks: seq<PipelineTask>, f: seq<nat>, m: nat): seq<PipelineTask>
    requires |f| == |tasks|
  {
    if m == 0 then [] else TasksBelow(tasks, f, m - 1) + TasksOf(tasks, f, m - 1)
  }

  lemma {:induction false} TasksBelowGrows(tasks: seq<PipelineTask>, f: seq<nat>, t: PipelineTask, k: nat, m: nat)
    requires |f| == |tasks|
    ensures multiset(TasksBelow(tasks + [t], f + [k], m)) ==
            multiset(TasksBelow(tasks, f, m)) + if k < m then multiset{t} else multiset{}
  {
    hide TasksOf;
    if m > 0 {
      TasksBelowGrows(tasks, f, t, k, m - 1);
      TasksAppend(tasks, f, t, k, m - 1);
    }
  }

  lemma {:induction false} NoTasksBelow(m: nat)
    ensures TasksBelow([], [], m) == []
  {
    if m > 0 { NoTasksBelow(m - 1); }
  }

  /** Every task is with exactly one worker. */
  lemma {:induction false} TasksAreDealt(tasks: seq<PipelineTask>, f: seq<nat>, workers: nat)
    requires Assignment(tasks, f, workers)
    ensures multiset(TasksBelow(tasks, f, workers)) == multiset(tasks)
  {
    if tasks == [] {
      NoTasksBelow(workers);
    } else {
      hide TasksBelow;
      var n := |tasks| - 1;
      var ts, fs, t, k := tasks[..n], f[..n], tasks[n], f[n];
      assert tasks == ts + [t] && f == fs + [k];
      TasksAreDealt(ts, fs, workers);
      TasksBelowGrows(ts, fs, t, k, workers);
    }
  }

  lemma {:induction false} BatchesListTasks(tasks: seq<PipelineTask>, f: seq<nat>, all: seq<PipelineBatch>, m: nat)
    requires |f| == |tasks| && m <= |all| && forall w :: 0 <= w < |all| ==> BatchFor(tasks, f, w, all[w])
    ensures BatchTasks(all[..m]) == TasksBelow(tasks, f, m)
  {
    hide TasksOf, Shown;
    if m > 0 {
      BatchesListTasks(tasks, f, all, m - 1);
      assert all[..m][..m - 1] == all[..m - 1];
      assert BatchFor(tasks, f, m - 1, all[m - 1]);
    }
  }

  /** The batches `assignWorkers` returns hold each task of the stage once. */
  lemma BatchesHoldEachTask(workers: nat, tasks: seq<PipelineTask>, batches: seq<PipelineBatch>)
    requires Assigned(workers, tasks, batches)
    ensures multiset(BatchTasks(batches)) == multiset(tasks)
  {
    hide BatchFor, BatchTasks, NonEmpty;
    var f, all :| Greedy(tasks, f, workers) && |all| == workers
                  && (forall w :: 0 <= w < workers ==> BatchFor(tasks, f, w, all[w])) && batches == NonEmpty(all);
    NonEmptyTasks(all);
    BatchesListTasks(tasks, f, all, workers);
    assert all[..workers] == all;
    TasksAreDealt(tasks, f, workers);
  }

  ghost function IndicesOf(tasks: seq<PipelineTask>): (r: seq<int>)
    ensures |r| == |tasks|
  {
    seq(|tasks|, i requires 0 <= i < |tasks| => tasks[i].txIndex)
  }

  lemma IndicesConcat(a: seq<PipelineTask>, b: seq<PipelineTask>)
    ensures IndicesOf(a + b) == IndicesOf(a) + IndicesOf(b)
  {
  }

  /** Taking out one task takes out its index. */
  lemma IndicesWithout(a: seq<PipelineTask>, i: nat)
    requires i < |a|
    ensures multiset(a[..i] + a[i + 1..]) == multiset(a) - multiset{a[i]}
    ensures multiset(IndicesOf(a[..i] + a[i + 1..])) + multiset{a[i].txIndex} == multiset(IndicesOf(a))
  {
    var x, y, t := a[..i], a[i + 1..], a[i];
    assert IndicesOf([t]) == [t.txIndex];
    hide IndicesOf;
    assert a == x + ([t] + y);
    IndicesConcat(x, [t] + y);
    IndicesConcat([t], y);
    IndicesConcat(x, y);
  }

  lemma {:induction false} SameTasksSameIndices(a: seq<PipelineTask>, b: seq<PipelineTask>)
    requires multiset(a) == multiset(b)
    ensures multiset(IndicesOf(a)) == multiset(IndicesOf(b))
    decreases |a|
  {
    assert |multiset(a)| == |multiset(b)|;
    if a != [] {
      hide IndicesOf;
      assert a[0] in multiset(b);
      var i :| 0 <= i < |b| && b[i] == a[0];
      var x, y := a[..0] + a[1..], b[..i] + b[i + 1..];
      IndicesWithout(a, 0);
      IndicesWithout(b, i);
      assert multiset(x) == multiset(y);
      SameTasksSameIndices(x, y);
    }
  }

  // ----- the pipeline end to end -----

  /** `runs` executes the stages in turn, the tasks of all batches of a stage
      in any order. */
  ghost predicate RunsStages(plan: PipelinePlan, runs: seq<seq<int>>) {
    && |runs| == |plan.stages|
    && forall k | 0 <= k < |runs| :: multiset(runs[k]) == multiset(IndicesOf(BatchTasks(plan.stages[k].batches)))
  }

  lemma StageHoldsItsTransactions(workers: nat, gasLimits: map<int, Gas>, txs: seq<int>, d: nat, stage: PipelineStage)
    requires StageRuns(workers, StageTasks(txs, gasLimits, d), stage)
    ensures multiset(IndicesOf(BatchTasks(stage.batches))) == multiset(txs)
  {
    hide Assigned, BatchTasks;
    var tasks := StageTasks(txs, gasLimits, d);
    BatchesHoldEachTask(workers, tasks, stage.batches);
    SameTasksSameIndices(BatchTasks(stage.batches), tasks);
    assert IndicesOf(tasks) == txs;
  }

  /** Every task of a plan carries the gas limit given for its transaction, or
      that of a plain transfer. */
  lemma TasksCarryGas(sets: map<int, RWSet>, workers: nat, gasLimits: map<int, Gas>, plan: PipelinePlan, k: nat,
                      t: PipelineTask)
    requires PlanFor(sets, workers, gasLimits, plan) && k < |plan.stages| && t in BatchTasks(plan.stages[k].batches)
    ensures t.gasLimit == if t.txIndex in gasLimits then gasLimits[t.txIndex] else 21000
  {
    hide WavePlan, ConflictsSeen, FewestWavesFor, Grouping, LargestStage, Assigned, BatchTasks;
    var levels: seq<int>, stageTxs: seq<seq<int>> :| PlanRuns(workers, gasLimits, levels, stageTxs, plan);
    var tasks := StageTasks(stageTxs[k], gasLimits, levels[k]);
    BatchesHoldEachTask(workers, tasks, plan.stages[k].batches);
    assert t in multiset(BatchTasks(plan.stages[k].batches));
    assert t in multiset(tasks);
  }

  /** Whatever `BuildPlan` returns, if every transaction in conflict with an
      earlier one is seen, executing its stages in turn ends in the state of the
      whole block in order, however the workers interleave. */
  lemma PlanRunsBlockOrder(sets: map<int, RWSet>, workers: nat, gasLimits: map<int, Gas>, plan: PipelinePlan,
                           txs: Block, runs: seq<seq<int>>, full: seq<int>, s: State)
    requires PlanFor(sets, workers, gasLimits, plan) && ConflictsSeen(sets) && RunsStages(plan, runs)
    requires BlockStaysInside(txs, sets) && WholeBlock(txs, sets, full)
    ensures Run(txs, Flatten(runs), s) == Run(txs, full, s)
  {
    hide WavePlan, ConflictsSeen, FewestWavesFor, BlockStaysInside, StaysInside, StrictlyAscending, Run, Flatten,
         StageRuns, BatchTasks, LargestStage;
    var levels: seq<int>, stageTxs: seq<seq<int>> :| PlanRuns(workers, gasLimits, levels, stageTxs, plan)
                            && (WavePlan(sets, stageTxs) <==> ConflictsSeen(sets));
    forall k | 0 <= k < |runs| ensures multiset(runs[k]) == multiset(stageTxs[k]) {
      StageHoldsItsTransactions(workers, gasLimits, stageTxs[k], levels[k], plan.stages[k]);
    }
    PlannedRunIsBlockOrder(txs, sets, stageTxs, runs, full, s);
  }

  // ----- executing what the schedulers return -----

  method RunList(txs: Block, order: seq<int>, s0: State) returns (s: State)
    ensures s == Run(txs, order, s0)
  {
    s := s0;
    for i := 0 to |order|
      invariant s == Run(txs, order[..i], s0)
    {
      assert order[..i + 1] == order[..i] + [order[i]];
      RunLast(txs, order[..i], order[i], s0);
      s := txs(order[i])(s);
    }
    assert order[..|order|] == order;
  }

  method RunLists(txs: Block, lists: seq<seq<int>>, s0: State) returns (s: State)
    ensures s == Run(txs, Flatten(lists), s0)
  {
    hide Run;
    s := s0;
    assert Run(txs, Flatten(lists[..0]), s0) == s0 by { RunsNothing(txs, s0); }
    for k := 0 to |lists|
      invariant s == Run(txs, Flatten(lists[..k]), s0)
    {
      assert lists[..k + 1][..k] == lists[..k];
      RunConcat(txs, Flatten(lists[..k]), lists[k], s0);
      s := RunList(txs, lists[k], s);
    }
    assert lists[..|lists|] == lists;
  }

  lemma RunsNothing(txs: Block, s: State)
    ensures Run(txs, Flatten([]), s) == s
  {
  }

  lemma FollowsIsWhole(txs: Block, entries: seq<AccessEntry>, full: seq<int>)
    requires BlockFollows(txs, entries, full)
    ensures BlockStaysInside(txs, DeclaredSets(entries)) && WholeBlock(txs, DeclaredSets(entries), full)
  {
    hide DeclaredSets, StaysInside;
    BlockFollowsStaysInside(txs, entries, full);
  }

  /** Scheduling a block and running its waves gives the state of the block in
      order. */
  method ExecuteSchedule(entries: seq<AccessEntry>, txs: Block, s0: State, ghost full: seq<int>)
    returns (r: Result<State, SchedulerError>)
    requires BlockFollows(txs, entries, full)
    ensures r.Err? <==> forall e :: e in entries ==> e.accessIndex == 0
    ensures r.Ok? ==> r.value == Run(txs, full, s0)
  {
    hide DeclaredSets, BlockStaysInside, WavePlan, FewestWavesFor, Run, Flatten, StaysInside, StrictlyAscending,
         BlockFollows;
    NothingIsExtracted(entries);
    FollowsIsWhole(txs, entries, full);
    var waves := Schedule(entries);
    if waves.Err? {
      return Err(waves.error);
    }
    PlannedRunIsBlockOrder(txs, DeclaredSets(entries), waves.value, waves.value, full, s0);
    var s := RunLists(txs, waves.value, s0);
    return Ok(s);
  }

  /** The transactions of a stage, batch by batch. */
  method StageOrder(stage: PipelineStage) returns (order: seq<int>)
    ensures order == IndicesOf(BatchTasks(stage.batches))
  {
    order := [];
    assert IndicesOf(BatchTasks(stage.batches[..0])) == [];
    for b := 0 to |stage.batches|
      invariant order == IndicesOf(BatchTasks(stage.batches[..b]))
    {
      assert stage.batches[..b + 1][..b] == stage.batches[..b];
      var tasks := stage.batches[b].tasks;
      IndicesConcat(BatchTasks(stage.batches[..b]), tasks);
      order := order + seq(|tasks|, i requires 0 <= i < |tasks| => tasks[i].txIndex);
    }
    assert stage.batches[..|stage.batches|] == stage.batches;
  }

  /** Planning a block and running its stages gives the state of the block in
      order, if every transaction in conflict with an earlier one is seen. */
  method ExecutePlan(workers: nat, entries: seq<AccessEntry>, gasLimits: map<int, Gas>, txs: Block, s0: State,
                     ghost full: seq<int>) returns (r: Result<State, PipelineError>)
    requires workers > 0
    requires BlockFollows(txs, entries, full)
    ensures r.Err? <==> forall e :: e in entries ==> e.accessIndex == 0
    ensures r.Ok? && ConflictsSeen(DeclaredSets(entries)) ==> r.value == Run(txs, full, s0)
  {
    hide DeclaredSets, BlockStaysInside, PlanFor, Run, Flatten, WholeBlock, ConflictsSeen, IndicesOf, BatchTasks,
         BlockFollows;
    NothingIsExtracted(entries);
    FollowsIsWhole(txs, entries, full);
    var plan := BuildPlan(workers, entries, gasLimits);
    if plan.Err? {
      return Err(plan.error);
    }
    var runs: seq<seq<int>> := [];
    for k := 0 to |plan.value.stages|
      invariant |runs| == k
      invariant forall i :: 0 <= i < k ==> runs[i] == IndicesOf(BatchTasks(plan.value.stages[i].batches))
    {
      var order := StageOrder(plan.value.stages[k]);
      runs := runs + [order];
    }
    if ConflictsSeen(DeclaredSets(entries)) {
      PlanRunsBlockOrder(DeclaredSets(entries), workers, gasLimits, plan.value, txs, runs, full, s0);
    }
    var s := RunLists(txs, runs, s0);
    return Ok(s);
  }

  // ----- two writers of one slot -----

  ghost function WriteEntry(i: AccessIndex): AccessEntry {
    AccessEntry(1, i, [], [1], false, false, false)
  }

  const ONE_WRITE: RWSet := RWSet({}, {SlotLocation(1, 1)}, {})

  /** Two transactions that write one slot. */
  ghost function TwoSets(a: int, b: int): (sets: map<int, RWSet>)
    ensures sets.Keys == {a, b} && sets[a] == sets[b] == ONE_WRITE
  {
    map[a := ONE_WRITE, b := ONE_WRITE]
  }

  lemma TwoWriterSets(i: AccessIndex, j: AccessIndex)
    requires 0 < i && 0 < j && i != j
    ensures DeclaredSets([WriteEntry(i), WriteEntry(j)]) == TwoSets(TxIndexOf(i), TxIndexOf(j))
  {
    if TxIndexOf(i) == TxIndexOf(j) { TxIndexIsInjective(i, j); }
    var entries := [WriteEntry(i), WriteEntry(j)];
    var sets := TwoSets(TxIndexOf(i), TxIndexOf(j));
    assert entries[0] == WriteEntry(i) && entries[1] == WriteEntry(j);
    forall tx ensures tx in sets <==> Declared(entries, tx) {
      if tx == TxIndexOf(i) { assert WriteEntry(i) in entries && Belongs(WriteEntry(i), tx); }
      if tx == TxIndexOf(j) { assert WriteEntry(j) in entries && Belongs(WriteEntry(j), tx); }
    }
    forall tx, loc | tx in sets ensures loc in ONE_WRITE.writeSet <==> DeclaresWrite(entries, tx, loc) {
      var e := if tx == TxIndexOf(i) then WriteEntry(i) else WriteEntry(j);
      assert e in entries && Belongs(e, tx);
      if loc == SlotLocation(1, 1) { assert loc.slot in e.storageChanges; }
    }
    assert SetsOf(entries, sets);
    SetsAreUnique(entries, sets, DeclaredSets(entries));
  }

  lemma {:induction false} ConflictChainAscends(sets: map<int, RWSet>, p: seq<int>, k: nat)
    requires ConflictChain(sets, p) && k < |p|
    ensures p[0] <= p[k]
  {
    hide Conflicting;
    if k > 0 {
      ConflictChainAscends(sets, p, k - 1);
      assert ConflictStep(sets, p, k - 1);
    }
  }

  /** Two transactions that write one slot: both are in conflict, and the later
      is seen exactly when it is an index the pass starts from. */
  lemma TwoSeenExactlyWhen(a: int, b: int)
    requires a < b
    ensures var sets := TwoSets(a, b);
            Conflicting(sets[a], sets[b]) && (ConflictsSeen(sets) <==> 0 <= b < MAX_INT)
  {
    var sets := TwoSets(a, b);
    assert SlotLocation(1, 1) in ONE_WRITE.writeSet;
    assert Conflicting(sets[a], sets[b]);
    hide Conflicting, ConflictStep;
    if 0 <= b < MAX_INT {
      hide Seen;
      SeenItself(sets, b);
    } else if Seen(sets, b) {
      LastIsSeenAtHome(sets, b);
    }
  }

  /** From the largest declared index no chain leads further. */
  lemma LastIsSeenAtHome(sets: map<int, RWSet>, b: int)
    requires Seen(sets, b) && forall n :: n in sets ==> n <= b
    ensures 0 <= b < MAX_INT
  {
    hide Conflicting, ConflictStep;
    var p :| p != [] && ConflictChain(sets, p) && p[0] == b && 0 <= p[|p| - 1] < MAX_INT;
    ConflictChainAscends(sets, p, |p| - 1);
    assert p[|p| - 1] in sets;
  }

  /** The one stage or the two stages of a grouping of two writers. */
  lemma TwoWriterStages(a: int, b: int, stages: seq<seq<int>>)
    requires a < b
    requires var sets := TwoSets(a, b);
             Grouping(sets, stages) && (WavePlan(sets, stages) <==> ConflictsSeen(sets))
    ensures stages == if 0 <= b < MAX_INT then [[a], [b]] else [[a, b]]
  {
    TwoSeenExactlyWhen(a, b);
    hide ConflictsSeen, Conflicting, Grouping, WavePlan, TwoSets;
    TwoStagesOf(TwoSets(a, b), a, b, stages, 0 <= b < MAX_INT);
  }

  lemma TwoStagesOf(sets: map<int, RWSet>, a: int, b: int, stages: seq<seq<int>>, split: bool)
    requires a < b && sets.Keys == {a, b} && Conflicting(sets[a], sets[b])
    requires Grouping(sets, stages) && (WavePlan(sets, stages) <==> split)
    ensures stages == if split then [[a], [b]] else [[a, b]]
  {
    hide Conflicting, Grouping, WavePlan;
    FirstWriterIsFirst(sets, a, b, stages);
    var j := StageOfWriter(sets, stages, b);
    SecondWriterFollows(sets, a, b, stages, j);
    OnlyTwoStages(sets, a, b, stages, j);
  }

  lemma StageOfWriter(sets: map<int, RWSet>, stages: seq<seq<int>>, n: int) returns (j: int)
    requires Grouping(sets, stages) && n in sets
    ensures 0 <= j < |stages| && n in stages[j]
  {
    assert InSomeWave(stages, n);
    j :| 0 <= j < |stages| && n in stages[j];
  }

  lemma FirstFollowsNone(sets: map<int, RWSet>, a: int, b: int, txs: seq<int>)
    requires a < b && sets.Keys == {a, b}
    ensures !FollowsOne(sets, txs, a)
  {
    hide Conflicting;
    forall x | x in sets ensures x >= a { assert x in sets.Keys; }
  }

  lemma FirstWriterIsFirst(sets: map<int, RWSet>, a: int, b: int, stages: seq<seq<int>>)
    requires a < b && sets.Keys == {a, b} && Grouping(sets, stages)
    ensures |stages| > 0 && a in stages[0]
  {
    hide Partition, Conflicting;
    var i := StageOfWriter(sets, stages, a);
    if i > 0 { FirstFollowsNone(sets, a, b, stages[i - 1]); }
  }

  /** The later writer is in the first stage, or in the second and all is well. */
  lemma SecondWriterFollows(sets: map<int, RWSet>, a: int, b: int, stages: seq<seq<int>>, j: int)
    requires a < b && sets.Keys == {a, b} && Conflicting(sets[a], sets[b]) && Grouping(sets, stages)
    requires |stages| > 0 && a in stages[0] && 0 <= j < |stages| && b in stages[j]
    ensures j <= 1 && (WavePlan(sets, stages) <==> j == 1)
  {
    hide Conflicting;
    if j > 0 {
      assert FollowsOne(sets, stages[j - 1], b);
      var x :| x in stages[j - 1] && x < b && x in sets;
      assert x == a && j - 1 == 0;
      forall i, k, x, y | 0 <= i < |stages| && 0 <= k < |stages| && x in stages[i] && y in stages[k]
                          && x < y && !Independent(sets, x, y)
        ensures i < k
      {
        assert InSomeWave(stages, x) && InSomeWave(stages, y);
        assert x == a && y == b;
      }
    } else {
      assert !Independent(sets, a, b);
    }
  }

  lemma OnlyTwoStages(sets: map<int, RWSet>, a: int, b: int, stages: seq<seq<int>>, j: int)
    requires a < b && sets.Keys == {a, b} && Grouping(sets, stages)
    requires |stages| > 0 && a in stages[0] && 0 <= j < |stages| && b in stages[j] && j <= 1
    ensures stages == if j == 1 then [[a], [b]] else [[a, b]]
  {
    hide Conflicting, FollowsOne;
    var last := |stages| - 1;
    var n := stages[last][0];
    assert n in stages[last] && InSomeWave(stages, n);
    assert last == 0 || last == j;
    forall i, n | 0 <= i < |stages| && n in stages[i] ensures n == a || n == b { assert InSomeWave(stages, n); }
    if j == 1 {
      AscendingIsDetermined(stages[0], [a]);
      AscendingIsDetermined(stages[1], [b]);
    } else {
      AscendingIsDetermined(stages[0], [a, b]);
    }
  }

  /** The plan runs exactly these stages. */
  ghost predicate HasStages(workers: nat, gasLimits: map<int, Gas>, stageTxs: seq<seq<int>>, plan: PipelinePlan) {
    exists levels :: PlanRuns(workers, gasLimits, levels, stageTxs, plan)
  }

  /** The stages `BuildPlan` makes of two transactions that write one slot: the
      later in a stage of its own exactly when its index is neither negative nor
      the largest. */
  lemma TwoWritersAreSplitExactlyWhen(i: AccessIndex, j: AccessIndex, workers: nat, gasLimits: map<int, Gas>,
                                      plan: PipelinePlan)
    requires 0 < i && 0 < j && TxIndexOf(i) < TxIndexOf(j)
    requires PlanFor(DeclaredSets([WriteEntry(i), WriteEntry(j)]), workers, gasLimits, plan)
    ensures var a, b := TxIndexOf(i), TxIndexOf(j);
            HasStages(workers, gasLimits, if 0 <= b < MAX_INT then [[a], [b]] else [[a, b]], plan)
  {
    TwoWriterSets(i, j);
    hide DeclaredSets, TxIndexOf, PlanRuns, Grouping, WavePlan, ConflictsSeen, FewestWavesFor, TwoSets;
    var a, b := TxIndexOf(i), TxIndexOf(j);
    var sets := TwoSets(a, b);
    var levels: seq<int>, stageTxs: seq<seq<int>> :|
      PlanRuns(workers, gasLimits, levels, stageTxs, plan) && Grouping(sets, stageTxs)
      && (WavePlan(sets, stageTxs) <==> ConflictsSeen(sets));
    TwoWriterStages(a, b, stageTxs);
  }

  // ----- and what then goes wrong -----

  lemma {:induction false} FirstTwoStay(all: seq<PipelineBatch>)
    requires |all| >= 2 && all[0].tasks != [] && all[1].tasks != []
    requires forall w :: 2 <= w < |all| ==> all[w].tasks == []
    ensures NonEmpty(all) == [all[0], all[1]]
  {
    if |all| == 2 {
      assert all[..1] == [all[0]] && all[..1][..0] == [];
      assert NonEmpty(all[..1]) == [all[0]];
    } else {
      FirstTwoStay(all[..|all| - 1]);
    }
  }

  lemma SecondGoesElsewhere(workers: nat, tasks: seq<PipelineTask>, f: seq<nat>)
    requires workers >= 2 && Greedy(tasks, f, workers) && |tasks| == 2 && tasks[0].gasLimit > 0
    ensures f == [0, 1]
  {
    assert LeastLoaded(tasks[..0], f[..0], workers, f[0]) && LeastLoaded(tasks[..1], f[..1], workers, f[1]);
    hide LeastLoaded;
    IdleFirst(tasks[..0], f[..0], workers, f[0]);
    assert tasks[..1] == [tasks[0]] && f[..1] == [0];
    IdleSecond(workers, tasks[0], f[1]);
  }

  lemma IdleFirst(tasks: seq<PipelineTask>, f: seq<nat>, workers: nat, k: nat)
    requires tasks == [] && f == [] && LeastLoaded(tasks, f, workers, k)
    ensures k == 0
  {
    assert TasksOf(tasks, f, 0) == [] && TasksOf(tasks, f, k) == [];
    assert Shown(tasks, f, 0) == Shown(tasks, f, k);
  }

  lemma OneTaskShown(t: PipelineTask, w: nat)
    ensures Shown([t], [0], w) == if w == 0 then t.gasLimit else 0
  {
    LoadStep([t], [0], w);
    assert [t][..0] == [] && [0][..0] == [];
    assert TasksOf([], [], w) == [];
  }

  lemma IdleSecond(workers: nat, t: PipelineTask, k: nat)
    requires workers >= 2 && t.gasLimit > 0 && LeastLoaded([t], [0], workers, k)
    ensures k == 1
  {
    hide Shown;
    OneTaskShown(t, 0);
    OneTaskShown(t, 1);
    OneTaskShown(t, k);
  }

  lemma OwnBatches(workers: nat, tasks: seq<PipelineTask>, all: seq<PipelineBatch>)
    requires workers >= 2 && |tasks| == 2 && |all| == workers
    requires forall w :: 0 <= w < workers ==> BatchFor(tasks, [0, 1], w, all[w])
    ensures NonEmpty(all) == [all[0], all[1]] && all[0].workerId == 0 && all[1].workerId == 1
    ensures all[0].tasks == [tasks[0]] && all[1].tasks == [tasks[1]]
  {
    hide NonEmpty, TasksOf, Shown;
    forall w | 0 <= w < workers
      ensures all[w].workerId == w && all[w].tasks == if w < 2 then [tasks[w]] else []
    {
      assert BatchFor(tasks, [0, 1], w, all[w]);
      EachHasOwn(tasks, w);
    }
    FirstTwoStay(all);
  }

  /** Two tasks go to two workers when the first has any gas. */
  lemma TwoBatches(workers: nat, tasks: seq<PipelineTask>, batches: seq<PipelineBatch>)
    requires workers >= 2 && Assigned(workers, tasks, batches) && |tasks| == 2 && tasks[0].gasLimit > 0
    ensures |batches| == 2 && batches[0].workerId == 0 && batches[1].workerId == 1
    ensures batches[0].tasks == [tasks[0]] && batches[1].tasks == [tasks[1]]
  {
    hide BatchFor, NonEmpty, LeastLoaded;
    var f: seq<nat>, all: seq<PipelineBatch> :|
      Greedy(tasks, f, workers) && |all| == workers
      && (forall w :: 0 <= w < workers ==> BatchFor(tasks, f, w, all[w])) && batches == NonEmpty(all);
    SecondGoesElsewhere(workers, tasks, f);
    OwnBatches(workers, tasks, all);
  }

  lemma EachHasOwn(tasks: seq<PipelineTask>, w: nat)
    requires |tasks| == 2
    ensures TasksOf(tasks, [0, 1], w) == if w < 2 then [tasks[w]] else []
  {
    var one := tasks[..1];
    assert [0, 1][..1] == [0];
    assert TasksOf(one, [0], w) == if w == 0 then [tasks[0]] else [] by {
      assert one[..0] == [] && [0][..0] == [];
      assert TasksOf([], [], w) == [];
    }
  }

  /** Each transaction writes its own index into the slot. */
  ghost function SlotWriters(): Block {
    n => (s: State) => s[Storage(SlotLocation(1, 1)) := n]
  }

  lemma SlotWritersStayInside(a: int, b: int)
    ensures BlockStaysInside(SlotWriters(), TwoSets(a, b))
  {
    forall n ensures StaysInside(SlotWriters()(n), ONE_WRITE) {}
  }

  lemma LastWriterWins(a: int, b: int, s: State)
    ensures Run(SlotWriters(), [a, b], s)[Storage(SlotLocation(1, 1))] == b
  {
    RunLast(SlotWriters(), [a], b, s);
    assert [a] + [b] == [a, b];
  }

  /** The batches of one stage of two transactions, for two workers or more. */
  lemma SharedBatches(workers: nat, gasLimits: map<int, Gas>, a: int, b: int, plan: PipelinePlan)
    requires HasStages(workers, gasLimits, [[a, b]], plan) && workers >= 2 && GasFor(gasLimits, a) > 0
    ensures |plan.stages| == 1 && |plan.stages[0].batches| == 2
    ensures IndicesOf(plan.stages[0].batches[0].tasks) == [a] && IndicesOf(plan.stages[0].batches[1].tasks) == [b]
    ensures RunsStages(plan, [[b, a]])
  {
    hide Assigned, BatchTasks, GasFor, LargestStage;
    var levels: seq<int> :| PlanRuns(workers, gasLimits, levels, [[a, b]], plan);
    var txs, stage := [a, b], plan.stages[0];
    assert StageRuns(workers, StageTasks(txs, gasLimits, levels[0]), stage);
    TwoBatches(workers, StageTasks(txs, gasLimits, levels[0]), stage.batches);
    StageHoldsItsTransactions(workers, gasLimits, txs, levels[0], stage);
    assert multiset([b, a]) == multiset(txs);
  }

  lemma LastWritersDiffer(a: int, b: int, s: State)
    requires a != b
    ensures Run(SlotWriters(), Flatten([[b, a]]), s) != Run(SlotWriters(), [a, b], s)
  {
    LastWriterWins(a, b, s);
    LastWriterWins(b, a, s);
    hide Run;
    assert [[b, a]][..0] == [];
    assert Flatten([[b, a]]) == [b, a];
  }

  /** With two workers the two writers of a shared stage are in two batches, and
      if the later runs first the block ends in another state. Access indices 1
      and 2^63 are such a pair, and so are 2^63 + 1 and 2^63 + 2. */
  lemma SharedStageLosesOrder(i: AccessIndex, j: AccessIndex, workers: nat, gasLimits: map<int, Gas>,
                              plan: PipelinePlan, s: State)
    requires 0 < i && 0 < j && TxIndexOf(i) < TxIndexOf(j) && !(0 <= TxIndexOf(j) < MAX_INT)
    requires PlanFor(DeclaredSets([WriteEntry(i), WriteEntry(j)]), workers, gasLimits, plan)
    requires workers >= 2 && GasFor(gasLimits, TxIndexOf(i)) > 0
    ensures var a, b := TxIndexOf(i), TxIndexOf(j);
            && |plan.stages| == 1 && |plan.stages[0].batches| == 2
            && IndicesOf(plan.stages[0].batches[0].tasks) == [a]
            && IndicesOf(plan.stages[0].batches[1].tasks) == [b]
            && RunsStages(plan, [[b, a]])
            && BlockStaysInside(SlotWriters(), DeclaredSets([WriteEntry(i), WriteEntry(j)]))
            && Run(SlotWriters(), Flatten([[b, a]]), s) != Run(SlotWriters(), [a, b], s)
  {
    hide DeclaredSets, BlockStaysInside, Run, TxIndexOf, PlanFor, HasStages, RunsStages, Flatten, SlotWriters,
         IndicesOf;
    var a, b := TxIndexOf(i), TxIndexOf(j);
    TwoWriterSets(i, j);
    TwoWritersAreSplitExactlyWhen(i, j, workers, gasLimits, plan);
    SharedBatches(workers, gasLimits, a, b, plan);
    SlotWritersStayInside(a, b);
    LastWritersDiffer(a, b, s);
  }
}
