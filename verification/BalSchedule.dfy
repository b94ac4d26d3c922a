/** The two schedulers end to end: `Schedule` (Kahn order split into waves) and
    `BuildPlan` (memoised depths grouped into stages and worker batches). */
module Scheduling {
  import opened Collections
  import opened DependencyGraphs
  import opened BalConflicts
  import opened WaveLevels
  import opened TopologicalSort
  import opened Serializability
  import opened WorkerAssignment

  // ----- plans of fewest waves -----

  /** No plan for the same transactions has fewer waves. */
  ghost predicate FewestWavesFor(sets: map<int, RWSet>, count: nat) {
    forall other :: WavePlan(sets, other) ==> count <= |other|
  }

  /** An edge of the graph is a conflict, and the other way round. */
  ghost predicate EdgesAreConflicts(sets: map<int, RWSet>, g: Graph) {
    forall a, b :: a in Deps(g, b) <==> a in sets && b in sets && a < b && Conflicting(sets[a], sets[b])
  }

  lemma ConflictGraphEdges(sets: map<int, RWSet>, g: Graph)
    requires ConflictGraph(sets, g)
    ensures EdgesAreConflicts(sets, g)
  {
    hide Conflicting;
    forall a, b
      ensures a in Deps(g, b) <==> a in sets && b in sets && a < b && Conflicting(sets[a], sets[b])
    {
      if b in sets { assert DependenciesOf(sets, b, g[b]); }
    }
  }

  /** The wave a plan gives to a transaction. */
  lemma PlanWave(sets: map<int, RWSet>, waves: seq<seq<int>>, n: int) returns (k: nat)
    requires WavePlan(sets, waves) && n in sets
    ensures k < |waves| && n in waves[k]
  {
    assert InSomeWave(waves, n);
    k :| 0 <= k < |waves| && n in waves[k];
  }

  /** Every chain of conflicts needs a wave per transaction. */
  lemma {:induction false} ChainNeedsPlan(sets: map<int, RWSet>, g: Graph, plan: seq<seq<int>>, p: seq<int>)
    returns (k: nat)
    requires EdgesAreConflicts(sets, g) && WavePlan(sets, plan)
    requires Chain(g, p) && p != [] && p[|p| - 1] in sets
    ensures |p| - 1 <= k < |plan| && p[|p| - 1] in plan[k]
  {
    hide Chain;
    k := PlanWave(sets, plan, p[|p| - 1]);
    if |p| > 1 {
      var a, b := p[|p| - 2], p[|p| - 1];
      ChainLink(g, p, |p| - 2);
      assert a in Deps(g, b);
      SubChain(g, p, 0, |p| - 1);
      assert p[0..|p| - 1][|p| - 2] == a;
      var j := ChainNeedsPlan(sets, g, plan, p[0..|p| - 1]);
      assert !Independent(sets, a, b);
      assert a in plan[j] && b in plan[k];
    }
  }

  lemma LongestNeedsPlan(sets: map<int, RWSet>, g: Graph, n: int, k: nat)
    requires EdgesAreConflicts(sets, g) && n in sets && Longest(g, n, k)
    ensures FewestWavesFor(sets, k + 1)
  {
    hide EdgesAreConflicts, WavePlan;
    var p :| ChainTo(g, p, n) && |p| == k + 1;
    forall other | WavePlan(sets, other) ensures k + 1 <= |other| {
      var j := ChainNeedsPlan(sets, g, other, p);
    }
  }

  // ----- Schedule -----

  /** The level waves of a conflict graph are a plan for its transactions. */
  lemma LevelWavesArePlan(sets: map<int, RWSet>, g: Graph, waves: seq<seq<int>>)
    requires EdgesAreConflicts(sets, g) && Nodes(g) == sets.Keys && LevelWaves(g, waves)
    ensures WavePlan(sets, waves)
  {
    hide Longest, Conflicting;
    forall i, j, n | 0 <= i < |waves| && 0 <= j < |waves| && n in waves[i] && n in waves[j] ensures i == j {
      LongestIsUnique(g, n, i, j);
    }
    forall n ensures n in sets <==> InSomeWave(waves, n) {
      if InSomeWave(waves, n) { var k :| 0 <= k < |waves| && n in waves[k]; }
    }
    forall i, j, a, b | 0 <= i < |waves| && 0 <= j < |waves| && a in waves[i] && b in waves[j]
                        && a < b && !Independent(sets, a, b)
      ensures i < j
    {
      assert a in Deps(g, b);
      DependencyIsDeeper(g, a, b, i, j);
    }
  }

  lemma LevelWavesAreFewest(sets: map<int, RWSet>, g: Graph, waves: seq<seq<int>>)
    requires EdgesAreConflicts(sets, g) && Nodes(g) == sets.Keys && LevelWaves(g, waves)
    ensures FewestWavesFor(sets, |waves|)
  {
    hide Longest, Conflicting, EdgesAreConflicts;
    if waves != [] {
      var k := |waves| - 1;
      var n := waves[k][0];
      assert n in waves[k];
      LongestNeedsPlan(sets, g, n, k);
    }
  }

  /** `Schedule`: a plan with the fewest waves for the transactions the access
      list declares; the only error is that it declares none. */
  method Schedule(entries: seq<AccessEntry>)
    returns (r: Result<seq<seq<int>>, SchedulerError>)
    ensures r.Err? <==> DeclaredSets(entries) == map[]
    ensures r.Err? ==> r.error == NoTransactions
    ensures r.Ok? ==> WavePlan(DeclaredSets(entries), r.value) && FewestWavesFor(DeclaredSets(entries), |r.value|)
  {
    hide SetsOf, DeclaredSets, ConflictGraph, WavePlan, FewestWavesFor, Acyclic, TopologicalOrder, SmallestFirst,
         LevelWaves;
    ghost var sets := DeclaredSets(entries);
    var g := BuildDependencyGraph(entries);
    GraphKeys(sets, g);
    ConflictGraphIsAcyclic(sets, g);
    if |g| == 0 {
      assert sets.Keys == {};
      return Err(NoTransactions);
    }
    var order := TopoSort(g);
    if order.Err? {
      assert false; // the graph has no cycle, so the error is never passed on
    }
    OrderCovers(g, order.value);
    var waves := BuildWaves(g, order.value);
    ConflictGraphEdges(sets, g);
    LevelWavesArePlan(sets, g, waves);
    LevelWavesAreFewest(sets, g, waves);
    r := Ok(waves);
  }

  lemma GraphKeys(sets: map<int, RWSet>, g: Graph)
    requires ConflictGraph(sets, g)
    ensures g.Keys == sets.Keys && |g| == |sets| && (|sets| == 0 <==> sets == map[])
  {
    assert |g| == |g.Keys| && |sets| == |sets.Keys|;
  }

  lemma OrderCovers(g: Graph, order: seq<int>)
    requires TopologicalOrder(g, order) && |g| > 0
    ensures order != []
  {
    assert |g| == |g.Keys|;
    var n :| n in g;
    assert n in Nodes(g) && n in Elems(order);
  }

  // ----- BuildPlan -----

  /** An end of some conflict. */
  ghost predicate InConflict(conflicts: seq<Conflict>, n: int) {
    exists c :: c in conflicts && (c.txA == n || c.txB == n)
  }

  lemma InConflictGrows(conflicts: seq<Conflict>, c: Conflict)
    ensures forall n :: InConflict(conflicts + [c], n) <==> InConflict(conflicts, n) || n == c.txA || n == c.txB
    ensures HasEdge(conflicts, c.txA, c.txB) ==> InConflict(conflicts, c.txA) && InConflict(conflicts, c.txB)
  {
    assert forall x :: x in conflicts + [c] <==> x in conflicts || x == c;
  }

  /** `BuildDependencyGraphFromConflicts`: nodes 0..numTx and both ends of every
      conflict, one edge per pair. */
  method GraphFromConflicts(conflicts: seq<Conflict>, numTx: nat) returns (g: Graph)
    ensures EdgesListed(conflicts, g)
    ensures forall n :: n in g <==> 0 <= n < numTx || InConflict(conflicts, n)
  {
    g := map[];
    for i := 0 to numTx
      invariant forall n :: n in g <==> 0 <= n < i
      invariant forall n :: n in g ==> g[n] == []
    {
      g := g[i := []];
    }
    assert EdgesListed([], g) by { NoEdges(g); }
    var seen: set<(int, int)> := {};
    for k := 0 to |conflicts|
      invariant EdgesListed(conflicts[..k], g)
      invariant forall a, b :: (a, b) in seen <==> HasEdge(conflicts[..k], a, b)
      invariant forall n :: n in g <==> 0 <= n < numTx || InConflict(conflicts[..k], n)
    {
      hide EdgesListed, HasEdge, InConflict;
      var c := conflicts[k];
      assert conflicts[..k + 1] == conflicts[..k] + [c];
      EdgeGrows(conflicts[..k], c);
      InConflictGrows(conflicts[..k], c);
      if (c.txA, c.txB) in seen {
        EdgesStay(conflicts[..k], c, g);
        continue;
      }
      seen := seen + {(c.txA, c.txB)};
      if c.txA !in g {
        AddedNode(conflicts[..k], g, c.txA);
        g := g[c.txA := []];
      }
      ListGrows(conflicts[..k], g, c);
      g := g[c.txB := Deps(g, c.txB) + [c.txA]];
    }
    assert conflicts[..|conflicts|] == conflicts;
  }

  lemma NoEdges(g: Graph)
    requires forall b :: Deps(g, b) == []
    ensures EdgesListed([], g)
  {
  }

  lemma EdgesStay(conflicts: seq<Conflict>, c: Conflict, g: Graph)
    requires EdgesListed(conflicts, g) && HasEdge(conflicts, c.txA, c.txB)
    ensures EdgesListed(conflicts + [c], g)
  {
    EdgeGrows(conflicts, c);
  }

  lemma AddedNode(conflicts: seq<Conflict>, g: Graph, n: int)
    requires EdgesListed(conflicts, g) && n !in g
    ensures EdgesListed(conflicts, g[n := []])
  {
    var h := g[n := []];
    forall b ensures Distinct(Deps(h, b)) && forall a :: a in Deps(h, b) <==> HasEdge(conflicts, a, b) {
      assert Deps(h, b) == Deps(g, b);
    }
  }

  lemma ConflictEdges(sets: map<int, RWSet>, conflicts: seq<Conflict>, g: Graph)
    requires forall c :: c in conflicts <==> BlockConflict(sets, c)
    requires EdgesListed(conflicts, g)
    ensures EdgesAreConflicts(sets, g) && PointsBack(g) && Acyclic(g)
  {
    hide Conflicting, PairConflict, Acyclic;
    forall a, b
      ensures a in Deps(g, b) <==> a in sets && b in sets && a < b && Conflicting(sets[a], sets[b])
    {
      assert a in Deps(g, b) <==> HasEdge(conflicts, a, b);
      EdgeMeansConflict(sets, conflicts, a, b);
    }
    assert PointsBack(g);
    PointsBackIsAcyclic(g);
  }

  /** `make(map)` lookup of a depth: absent means 0. */
  function DepthOf(depths: map<int, nat>, n: int): nat {
    if n in depths then depths[n] else 0
  }

  ghost function AtDepth(txs: seq<int>, depths: map<int, nat>, d: nat): seq<int> {
    if txs == [] then []
    else
      var n := txs[|txs| - 1];
      AtDepth(txs[..|txs| - 1], depths, d) + if DepthOf(depths, n) == d then [n] else []
  }

  lemma {:induction false} AtDepthMembers(txs: seq<int>, depths: map<int, nat>, d: nat)
    requires StrictlyAscending(txs)
    ensures StrictlyAscending(AtDepth(txs, depths, d))
    ensures forall n :: n in AtDepth(txs, depths, d) <==> n in txs && DepthOf(depths, n) == d
  {
    if txs != [] {
      var front, last := txs[..|txs| - 1], txs[|txs| - 1];
      AtDepthMembers(front, depths, d);
      assert txs == front + [last];
      var part := AtDepth(front, depths, d);
      forall i | 0 <= i < |part| ensures part[i] < last {
        var n := part[i];
        assert n in part && n in front;
      }
    }
  }

  /** The transactions of each depth that occurs, by rising depth. */
  ghost predicate StagesOf(txs: seq<int>, depths: map<int, nat>, levels: seq<int>, stages: seq<seq<int>>) {
    && StrictlyAscending(levels) && |stages| == |levels|
    && (forall i :: 0 <= i < |levels| ==>
          levels[i] >= 0 && stages[i] == AtDepth(txs, depths, levels[i]) && stages[i] != [])
    && (forall n :: n in txs ==> DepthOf(depths, n) in levels)
  }

  function Bucket(m: map<int, seq<int>>, d: int): seq<int> {
    if d in m then m[d] else []
  }

  lemma AtDepthGrows(txs: seq<int>, depths: map<int, nat>, n: int, d: nat)
    ensures AtDepth(txs + [n], depths, d) ==
            AtDepth(txs, depths, d) + if DepthOf(depths, n) == d then [n] else []
  {
    assert (txs + [n])[..|txs|] == txs;
  }

  /** The buckets hold the transactions of each depth that occurs. */
  ghost predicate Buckets(txs: seq<int>, depths: map<int, nat>, stageMap: map<int, seq<int>>) {
    && (forall d: nat :: Bucket(stageMap, d) == AtDepth(txs, depths, d))
    && (forall d :: d in stageMap ==> d >= 0 && stageMap[d] != [])
    && (forall n :: n in txs ==> DepthOf(depths, n) in stageMap)
  }

  lemma BucketsGrow(txs: seq<int>, depths: map<int, nat>, stageMap: map<int, seq<int>>, n: int)
    requires Buckets(txs, depths, stageMap)
    ensures var d := DepthOf(depths, n);
            Buckets(txs + [n], depths, stageMap[d := Bucket(stageMap, d) + [n]])
  {
    hide DepthOf, AtDepth;
    var dn := DepthOf(depths, n);
    var m := stageMap[dn := Bucket(stageMap, dn) + [n]];
    forall d: nat ensures Bucket(m, d) == AtDepth(txs + [n], depths, d) {
      AtDepthGrows(txs, depths, n, d);
      assert Bucket(stageMap, d) == AtDepth(txs, depths, d);
    }
    forall x | x in txs + [n] ensures DepthOf(depths, x) in m {
      if x != n { assert x in txs; }
    }
  }

  method GroupByDepth(txs: seq<int>, depths: map<int, nat>) returns (stageMap: map<int, seq<int>>)
    ensures Buckets(txs, depths, stageMap)
  {
    stageMap := map[];
    assert Buckets([], depths, stageMap);
    hide Buckets;
    for i := 0 to |txs|
      invariant Buckets(txs[..i], depths, stageMap)
    {
      var n := txs[i];
      var d := DepthOf(depths, n);
      assert txs[..i + 1] == txs[..i] + [n];
      BucketsGrow(txs[..i], depths, stageMap, n);
      stageMap := stageMap[d := Bucket(stageMap, d) + [n]];
    }
    assert txs[..|txs|] == txs;
  }

  method StageLists(txs: seq<int>, depths: map<int, nat>) returns (levels: seq<int>, stages: seq<seq<int>>)
    requires StrictlyAscending(txs)
    ensures StagesOf(txs, depths, levels, stages)
  {
    hide AtDepth;
    var stageMap := GroupByDepth(txs, depths);
    var keys := Enumerate(stageMap.Keys);
    levels := SortInts(keys);
    SortedKeysAscend(keys, levels);
    DistinctPermutation(keys, levels);
    assert forall d :: d in levels <==> d in Elems(levels);
    stages := [];
    for i := 0 to |levels|
      invariant |stages| == i
      invariant forall k :: 0 <= k < i ==>
                  levels[k] >= 0 && stages[k] == AtDepth(txs, depths, levels[k]) && stages[k] != []
    {
      var d := levels[i];
      assert d in levels && d in stageMap;
      assert Bucket(stageMap, d) == AtDepth(txs, depths, d);
      AtDepthMembers(txs, depths, d);
      var sorted := ResortStage(stageMap[d]);
      stages := stages + [sorted];
    }
  }

  method ResortStage(txs: seq<int>) returns (sorted: seq<int>)
    requires StrictlyAscending(txs)
    ensures sorted == txs
  {
    sorted := Resort(txs);
  }

  lemma StageMembers(txs: seq<int>, depths: map<int, nat>, levels: seq<int>, stages: seq<seq<int>>, i: nat, n: int)
    requires StagesOf(txs, depths, levels, stages) && StrictlyAscending(txs) && i < |stages|
    ensures Distinct(stages[i])
    ensures n in stages[i] <==> n in txs && DepthOf(depths, n) == levels[i]
  {
    AtDepthMembers(txs, depths, levels[i]);
  }

  lemma StageOf(txs: seq<int>, depths: map<int, nat>, levels: seq<int>, stages: seq<seq<int>>, n: int)
    requires StagesOf(txs, depths, levels, stages) && StrictlyAscending(txs)
    ensures InSomeWave(stages, n) <==> n in txs
  {
    if n in txs {
      var d := DepthOf(depths, n);
      var i :| 0 <= i < |levels| && levels[i] == d;
      StageMembers(txs, depths, levels, stages, i, n);
    }
    if InSomeWave(stages, n) {
      var k :| 0 <= k < |stages| && n in stages[k];
      StageMembers(txs, depths, levels, stages, k, n);
    }
  }

  lemma StagesPartition(txs: seq<int>, depths: map<int, nat>, levels: seq<int>, stages: seq<seq<int>>)
    requires StagesOf(txs, depths, levels, stages) && StrictlyAscending(txs)
    ensures Partition(stages)
  {
    forall k | 0 <= k < |stages| ensures Distinct(stages[k]) {
      StageMembers(txs, depths, levels, stages, k, 0);
    }
    forall i, j, n | 0 <= i < |stages| && 0 <= j < |stages| && n in stages[i] && n in stages[j] ensures i == j {
      StageMembers(txs, depths, levels, stages, i, n);
      StageMembers(txs, depths, levels, stages, j, n);
      assert levels[i] == levels[j];
    }
  }

  /** A transaction missing from the depths counts as depth 0. */
  ghost predicate MissingAreFree(sets: map<int, RWSet>, g: Graph, depths: map<int, nat>) {
    forall n :: n in sets && n !in depths ==> Deps(g, n) == []
  }

  /** Stages of the computed depths are a plan exactly when the transactions
      without a depth wait for nothing. */
  lemma StagesArePlan(sets: map<int, RWSet>, g: Graph, txs: seq<int>, depths: map<int, nat>, levels: seq<int>,
                      stages: seq<seq<int>>)
    requires EdgesAreConflicts(sets, g) && StagesOf(txs, depths, levels, stages)
    requires StrictlyAscending(txs) && Elems(txs) == sets.Keys && LevelsOf(g, depths)
    ensures WavePlan(sets, stages) <==> MissingAreFree(sets, g, depths)
  {
    if MissingAreFree(sets, g, depths) {
      FreeStagesArePlan(sets, g, txs, depths, levels, stages);
    } else {
      hide WavePlan;
      var b :| b in sets && b !in depths && Deps(g, b) != [];
      StagesBreakPlan(sets, g, txs, depths, levels, stages, Deps(g, b)[0], b);
    }
  }

  lemma FreeStagesArePlan(sets: map<int, RWSet>, g: Graph, txs: seq<int>, depths: map<int, nat>, levels: seq<int>,
                          stages: seq<seq<int>>)
    requires EdgesAreConflicts(sets, g) && StagesOf(txs, depths, levels, stages)
    requires StrictlyAscending(txs) && Elems(txs) == sets.Keys && LevelsOf(g, depths) && MissingAreFree(sets, g, depths)
    ensures WavePlan(sets, stages)
  {
    hide EdgesAreConflicts, LevelsOf, Partition, Independent, Distinct, StagesOf, MissingAreFree, StrictlyAscending;
    StagesPartition(txs, depths, levels, stages);
    forall n ensures n in sets <==> InSomeWave(stages, n) {
      assert n in sets <==> n in Elems(txs);
      StageOf(txs, depths, levels, stages, n);
    }
    forall i, j, a, b | 0 <= i < |stages| && 0 <= j < |stages| && a in stages[i] && b in stages[j]
                        && a < b && !Independent(sets, a, b)
      ensures i < j
    {
      StageMembers(txs, depths, levels, stages, i, a);
      StageMembers(txs, depths, levels, stages, j, b);
      assert a in Elems(txs) && b in Elems(txs);
      ConflictIsDeeper(sets, g, depths, a, b);
      StagesByDepth(txs, depths, levels, stages, i, j);
    }
  }

  lemma StagesByDepth(txs: seq<int>, depths: map<int, nat>, levels: seq<int>, stages: seq<seq<int>>, i: nat, j: nat)
    requires StagesOf(txs, depths, levels, stages) && i < |stages| && j < |stages|
    ensures |levels| == |stages| && (levels[i] < levels[j] ==> i < j)
  {
    if j < i { assert levels[j] < levels[i]; }
  }

  /** An earlier conflicting transaction never has a stage before one without
      a depth. */
  lemma StagesBreakPlan(sets: map<int, RWSet>, g: Graph, txs: seq<int>, depths: map<int, nat>, levels: seq<int>,
                        stages: seq<seq<int>>, a: int, b: int)
    requires EdgesAreConflicts(sets, g) && StagesOf(txs, depths, levels, stages)
    requires StrictlyAscending(txs) && Elems(txs) == sets.Keys && a in Deps(g, b) && b !in depths
    ensures !WavePlan(sets, stages)
  {
    hide Conflicting, AtDepth, StrictlyAscending, Partition;
    assert a in sets && b in sets && a < b && !Independent(sets, a, b);
    assert a in txs by { assert a in Elems(txs); }
    assert b in txs by { assert b in Elems(txs); }
    var i :| 0 <= i < |levels| && levels[i] == DepthOf(depths, a);
    var j :| 0 <= j < |levels| && levels[j] == 0;
    StageMembers(txs, depths, levels, stages, i, a);
    StageMembers(txs, depths, levels, stages, j, b);
    assert j <= i by { StagesFromZero(levels, i, j); }
  }

  lemma StagesFromZero(levels: seq<int>, i: nat, j: nat)
    requires StrictlyAscending(levels) && i < |levels| && j < |levels| && levels[j] == 0 && levels[i] >= 0
    ensures j <= i
  {
  }

  lemma ConflictIsDeeper(sets: map<int, RWSet>, g: Graph, depths: map<int, nat>, a: int, b: int)
    requires EdgesAreConflicts(sets, g) && LevelsOf(g, depths) && MissingAreFree(sets, g, depths)
    requires a in sets && b in sets && a < b && !Independent(sets, a, b)
    ensures DepthOf(depths, a) < DepthOf(depths, b)
  {
    hide Conflicting;
    assert a in Deps(g, b);
    assert b in depths;
    if a in depths {
      DependencyIsDeeper(g, a, b, depths[a], depths[b]);
    } else {
      DependencyIsNode(g, b, a);
      ChainSingle(g, a);
      ChainAppend(g, [a], a, b);
      assert ChainTo(g, [a] + [b], b);
    }
  }

  lemma {:induction false} AscendingReaches(levels: seq<int>, i: nat)
    requires StrictlyAscending(levels) && i < |levels| && levels[0] >= 0
    ensures levels[i] >= i
  {
    if i > 0 { AscendingReaches(levels, i - 1); }
  }

  lemma StagesAreFewest(sets: map<int, RWSet>, g: Graph, txs: seq<int>, depths: map<int, nat>, levels: seq<int>,
                        stages: seq<seq<int>>)
    requires EdgesAreConflicts(sets, g) && StagesOf(txs, depths, levels, stages)
    requires StrictlyAscending(txs) && Elems(txs) == sets.Keys && LevelsOf(g, depths)
    ensures FewestWavesFor(sets, |stages|)
  {
    hide Longest, EdgesAreConflicts, WavePlan;
    if stages != [] {
      var k := |stages| - 1;
      AscendingReaches(levels, k);
      AtDepthMembers(txs, depths, levels[k]);
      var n := stages[k][0];
      assert n in stages[k] && n in txs && n in Elems(txs);
      if n in depths {
        LongestNeedsPlan(sets, g, n, depths[n]);
      } else {
        OneWaveNeeded(sets, n);
      }
    }
  }

  lemma OneWaveNeeded(sets: map<int, RWSet>, n: int)
    requires n in sets
    ensures FewestWavesFor(sets, 1)
  {
    forall other | WavePlan(sets, other) ensures 1 <= |other| {
      var k := PlanWave(sets, other, n);
    }
  }

  datatype PipelineStage = PipelineStage(stageId: nat, batches: seq<PipelineBatch>)

  datatype PipelinePlan = PipelinePlan(stages: seq<PipelineStage>, workerCount: nat, totalTx: nat, maxStageSize: nat)

  const DEFAULT_GAS: Gas := 21000

  function GasFor(gasLimits: map<int, Gas>, n: int): Gas {
    if n in gasLimits then gasLimits[n] else DEFAULT_GAS
  }

  /** The tasks of a stage, in index order, with limits or the default gas. */
  ghost function StageTasks(txs: seq<int>, gasLimits: map<int, Gas>, d: nat): seq<PipelineTask> {
    seq(|txs|, i requires 0 <= i < |txs| => PipelineTask(txs[i], GasFor(gasLimits, txs[i]), d))
  }

  /** The stage is the greedy assignment of exactly its transactions. */
  ghost predicate StageRuns(workers: nat, tasks: seq<PipelineTask>, stage: PipelineStage) {
    Assigned(workers, tasks, stage.batches)
  }

  method BuildStage(workers: nat, gasLimits: map<int, Gas>, txs: seq<int>, d: nat, id: nat)
    returns (stage: PipelineStage)
    requires workers > 0
    ensures stage.stageId == id && StageRuns(workers, StageTasks(txs, gasLimits, d), stage)
  {
    hide Assigned;
    var tasks: seq<PipelineTask> := [];
    for j := 0 to |txs|
      invariant tasks == StageTasks(txs[..j], gasLimits, d)
    {
      tasks := tasks + [PipelineTask(txs[j], GasFor(gasLimits, txs[j]), d)];
    }
    assert txs[..|txs|] == txs;
    var batches := AssignWorkers(workers, tasks);
    stage := PipelineStage(id, batches);
  }

  /** What the plan promises once the stages' transactions are named. */
  ghost predicate PlanRuns(workers: nat, gasLimits: map<int, Gas>, levels: seq<int>, stageTxs: seq<seq<int>>,
                           plan: PipelinePlan) {
    && plan.workerCount == workers && |plan.stages| == |stageTxs| == |levels|
    && (forall i | 0 <= i < |stageTxs| ::
          && levels[i] >= 0 && plan.stages[i].stageId == i
          && StageRuns(workers, StageTasks(stageTxs[i], gasLimits, levels[i]), plan.stages[i]))
    && LargestStage(stageTxs, plan.maxStageSize)
  }

  /** No stage is larger than `size`, and some stage has it, if there is any. */
  ghost predicate LargestStage(stageTxs: seq<seq<int>>, size: nat) {
    && (forall i :: 0 <= i < |stageTxs| ==> |stageTxs[i]| <= size)
    && (if stageTxs == [] then size == 0 else exists i :: 0 <= i < |stageTxs| && |stageTxs[i]| == size)
  }

  // ----- which transactions get a depth -----

  /** The largest `int`; one more wraps to the smallest. */
  const MAX_INT: int := 0x7FFF_FFFF_FFFF_FFFF
  const MIN_INT: int := -0x8000_0000_0000_0000

  function Next(n: int): int {
    if n == MAX_INT then MIN_INT else n + 1
  }

  ghost predicate ConflictStep(sets: map<int, RWSet>, p: seq<int>, i: int)
    requires 0 <= i < |p| - 1
  {
    p[i] in sets && p[i + 1] in sets && p[i] < p[i + 1] && Conflicting(sets[p[i]], sets[p[i + 1]])
  }

  /** Declared transactions, each in conflict with the next and before it. */
  ghost predicate ConflictChain(sets: map<int, RWSet>, p: seq<int>) {
    && p != [] && (forall i :: 0 <= i < |p| ==> p[i] in sets)
    && (forall i :: 0 <= i < |p| - 1 ==> ConflictStep(sets, p, i))
  }

  /** A chain of conflicts leads from `n` to an index the pass over 0..numTx
      starts from: one that is neither negative nor the largest. */
  ghost predicate Seen(sets: map<int, RWSet>, n: int) {
    exists p :: p != [] && ConflictChain(sets, p) && p[0] == n && 0 <= p[|p| - 1] < MAX_INT
  }

  /** Every transaction in conflict with an earlier one is seen. */
  ghost predicate ConflictsSeen(sets: map<int, RWSet>) {
    forall a, b :: a in sets && b in sets && a < b && Conflicting(sets[a], sets[b]) ==> Seen(sets, b)
  }

  /** In particular when all access indices are below 2^63. */
  lemma OrdinaryIndicesAreSeen(sets: map<int, RWSet>)
    requires forall n :: n in sets ==> 0 <= n < MAX_INT
    ensures ConflictsSeen(sets)
  {
    hide Conflicting, Seen;
    forall n | n in sets ensures Seen(sets, n) { SeenItself(sets, n); }
  }

  lemma SeenItself(sets: map<int, RWSet>, n: int)
    requires n in sets && 0 <= n < MAX_INT
    ensures Seen(sets, n)
  {
    var p := [n];
    assert ConflictChain(sets, p) && p[0] == n && p[|p| - 1] == n;
  }

  lemma EdgeIsConflict(sets: map<int, RWSet>, g: Graph, a: int, b: int)
    requires EdgesAreConflicts(sets, g) && a in Deps(g, b)
    ensures a in sets && b in sets && a < b && Conflicting(sets[a], sets[b])
  {
    hide Conflicting, Deps;
  }

  lemma ChainIsConflictChain(sets: map<int, RWSet>, g: Graph, p: seq<int>)
    requires EdgesAreConflicts(sets, g) && Chain(g, p) && p[0] in sets
    ensures ConflictChain(sets, p)
  {
    hide Conflicting, EdgesAreConflicts, Deps, Nodes;
    forall i | 0 <= i < |p| - 1 ensures ConflictStep(sets, p, i) {
      ChainLink(g, p, i);
      EdgeIsConflict(sets, g, p[i], p[i + 1]);
    }
    forall i | 0 <= i < |p| ensures p[i] in sets {
      if i > 0 { assert ConflictStep(sets, p, i - 1); }
    }
  }

  lemma ConflictChainIsChain(sets: map<int, RWSet>, g: Graph, p: seq<int>)
    requires EdgesAreConflicts(sets, g) && ConflictChain(sets, p) && p[|p| - 1] in g
    ensures Chain(g, p)
  {
    hide Conflicting;
    forall i | 0 <= i < |p| - 1 ensures Link(g, p, i) { assert ConflictStep(sets, p, i); }
    forall i | 0 <= i < |p| ensures p[i] in Nodes(g) {
      if i < |p| - 1 {
        assert Link(g, p, i);
        DependencyIsNode(g, p[i + 1], p[i]);
      }
    }
  }

  /** `numTx` is one past the largest index that is neither negative nor
      MAX_INT, and 0 without one. */
  ghost predicate CountsTo(txs: seq<int>, numTx: nat) {
    && (forall n :: n in txs && n != MAX_INT ==> n < numTx)
    && (numTx > 0 ==> numTx - 1 in txs && numTx - 1 != MAX_INT)
  }

  /** The depth pass reaches exactly the seen transactions. */
  lemma ReachedIsSeen(sets: map<int, RWSet>, g: Graph, txs: seq<int>, numTx: nat, n: int)
    requires EdgesAreConflicts(sets, g) && Elems(txs) == sets.Keys && CountsTo(txs, numTx)
    requires n in sets && forall i :: 0 <= i < numTx ==> i in g
    requires forall m :: m in sets ==> m <= MAX_INT
    ensures LeadsBelow(g, n, numTx) <==> Seen(sets, n)
  {
    hide EdgesAreConflicts, Chain, ConflictChain;
    if LeadsBelow(g, n, numTx) {
      var j :| 0 <= j < numTx && Leads(g, n, j);
      var p :| ChainTo(g, p, j) && p != [] && p[0] == n;
      ChainIsConflictChain(sets, g, p);
      assert numTx - 1 in Elems(txs);
      assert p[|p| - 1] < MAX_INT;
    }
    if Seen(sets, n) {
      var p :| p != [] && ConflictChain(sets, p) && p[0] == n && 0 <= p[|p| - 1] < MAX_INT;
      var j := p[|p| - 1];
      assert j in Elems(txs) by { ConflictChainEnds(sets, p); }
      assert j in txs;
      ConflictChainIsChain(sets, g, p);
      assert Leads(g, n, j);
    }
  }

  lemma ConflictChainEnds(sets: map<int, RWSet>, p: seq<int>)
    requires ConflictChain(sets, p)
    ensures p[|p| - 1] in sets
  {
  }

  /** The transactions without a depth wait for nothing exactly when those in
      conflict with an earlier one are seen. */
  lemma MissingAreFreeWhenSeen(sets: map<int, RWSet>, g: Graph, txs: seq<int>, numTx: nat, depths: map<int, nat>)
    requires EdgesAreConflicts(sets, g) && Elems(txs) == sets.Keys && CountsTo(txs, numTx)
    requires (forall i :: 0 <= i < numTx ==> i in g) && (forall m :: m in sets ==> m <= MAX_INT)
    requires forall m :: m in depths <==> LeadsBelow(g, m, numTx)
    ensures MissingAreFree(sets, g, depths) <==> ConflictsSeen(sets)
  {
    hide Seen, LeadsBelow, Conflicting, CountsTo;
    forall n | n in sets ensures n in depths <==> Seen(sets, n) { ReachedIsSeen(sets, g, txs, numTx, n); }
    if MissingAreFree(sets, g, depths) {
      forall a, b | a in sets && b in sets && a < b && Conflicting(sets[a], sets[b]) ensures Seen(sets, b) {
        assert a in Deps(g, b);
      }
    }
    if ConflictsSeen(sets) {
      forall n | n in sets && Deps(g, n) != [] ensures n in depths {
        var a := Deps(g, n)[0];
        assert a in Deps(g, n) && a in sets && a < n;
        assert Seen(sets, n);
      }
    }
  }

  /** `n` conflicts with an earlier transaction of the list. */
  ghost predicate FollowsOne(sets: map<int, RWSet>, txs: seq<int>, n: int) {
    exists a :: a in txs && a < n && a in sets && n in sets && Conflicting(sets[a], sets[n])
  }

  /** Every transaction once, stages ascending, and every transaction after the
      first stage in conflict with an earlier one in the stage before. */
  ghost predicate Grouping(sets: map<int, RWSet>, stages: seq<seq<int>>) {
    && Partition(stages) && (forall n :: n in sets <==> InSomeWave(stages, n))
    && (forall i :: 0 <= i < |stages| ==> stages[i] != [] && StrictlyAscending(stages[i]))
    && (forall i, n :: 0 < i < |stages| && n in stages[i] ==> FollowsOne(sets, stages[i - 1], n))
  }

  lemma LeadsFrom(g: Graph, a: int, n: int, j: int)
    requires a in Deps(g, n) && Leads(g, n, j)
    ensures Leads(g, a, j)
  {
    var p :| ChainTo(g, p, j) && p != [] && p[0] == n;
    ChainExtend(g, a, p);
    assert ([a] + p)[0] == a;
  }

  /** Below a computed depth there is a dependency one less deep. */
  lemma OneLessDeep(g: Graph, depths: map<int, nat>, numTx: nat, n: int) returns (a: int)
    requires LevelsOf(g, depths) && (forall m :: m in depths <==> LeadsBelow(g, m, numTx))
    requires n in depths && depths[n] > 0
    ensures a in Deps(g, n) && a in depths && depths[a] == depths[n] - 1
  {
    var p :| ChainTo(g, p, n) && |p| == depths[n] + 1;
    ChainWithoutLast(g, p, n);
    a := p[|p| - 2];
    hide Deps;
    var j :| 0 <= j < numTx && Leads(g, n, j);
    LeadsFrom(g, a, n, j);
    assert LeadsBelow(g, a, numTx);
    DependencyIsDeeper(g, a, n, depths[a], depths[n]);
    assert ChainTo(g, p[..|p| - 1], a);
  }

  lemma LevelBefore(levels: seq<int>, i: nat, k: nat)
    requires StrictlyAscending(levels) && i < |levels| && k < |levels| && levels[k] == levels[i] - 1
    ensures k == i - 1
  {
    assert i > 0 ==> levels[i - 1] < levels[i];
  }

  lemma StageFollowsStage(sets: map<int, RWSet>, g: Graph, txs: seq<int>, depths: map<int, nat>, numTx: nat,
                          levels: seq<int>, stages: seq<seq<int>>, i: int, n: int)
    requires EdgesAreConflicts(sets, g) && StagesOf(txs, depths, levels, stages)
    requires StrictlyAscending(txs) && Elems(txs) == sets.Keys && LevelsOf(g, depths)
    requires forall m :: m in depths <==> LeadsBelow(g, m, numTx)
    requires 0 < i < |stages| && n in stages[i]
    ensures FollowsOne(sets, stages[i - 1], n)
  {
    hide LevelsOf, EdgesAreConflicts, LeadsBelow, Conflicting, AtDepth;
    StageMembers(txs, depths, levels, stages, i, n);
    AscendingReaches(levels, i);
    var a := OneLessDeep(g, depths, numTx, n);
    EdgeIsConflict(sets, g, a, n);
    assert a in txs by { assert a in Elems(txs); }
    var k :| 0 <= k < |levels| && levels[k] == DepthOf(depths, a);
    LevelBefore(levels, i, k);
    StageMembers(txs, depths, levels, stages, k, a);
  }

  lemma StagesGroup(sets: map<int, RWSet>, g: Graph, txs: seq<int>, depths: map<int, nat>, numTx: nat, levels: seq<int>,
                    stages: seq<seq<int>>)
    requires EdgesAreConflicts(sets, g) && StagesOf(txs, depths, levels, stages)
    requires StrictlyAscending(txs) && Elems(txs) == sets.Keys && LevelsOf(g, depths)
    requires forall m :: m in depths <==> LeadsBelow(g, m, numTx)
    ensures Grouping(sets, stages)
  {
    hide EdgesAreConflicts, LevelsOf, LeadsBelow, Partition, FollowsOne, AtDepth;
    StagesPartition(txs, depths, levels, stages);
    forall n ensures n in sets <==> InSomeWave(stages, n) {
      assert n in sets <==> n in Elems(txs);
      StageOf(txs, depths, levels, stages, n);
    }
    forall i | 0 <= i < |stages| ensures StrictlyAscending(stages[i]) { AtDepthMembers(txs, depths, levels[i]); }
    forall i, n | 0 < i < |stages| && n in stages[i] ensures FollowsOne(sets, stages[i - 1], n) {
      StageFollowsStage(sets, g, txs, depths, numTx, levels, stages, i, n);
    }
  }

  /** The stages group the transactions; they are a wave plan, one with the
      fewest waves, exactly when every transaction in conflict with an earlier
      one is seen. */
  ghost predicate PlanFor(sets: map<int, RWSet>, workers: nat, gasLimits: map<int, Gas>, plan: PipelinePlan) {
    exists levels, stageTxs ::
      && PlanRuns(workers, gasLimits, levels, stageTxs, plan) && plan.totalTx == |sets| && Grouping(sets, stageTxs)
      && (WavePlan(sets, stageTxs) <==> ConflictsSeen(sets)) && FewestWavesFor(sets, |stageTxs|)
  }

  /** `idx + 1` wraps, so the largest index never raises the count. */
  method NumTx(txs: seq<int>) returns (numTx: nat)
    requires forall n :: n in txs ==> MIN_INT <= n <= MAX_INT
    ensures CountsTo(txs, numTx)
  {
    numTx := 0;
    for i := 0 to |txs|
      invariant CountsTo(txs[..i], numTx)
    {
      assert txs[..i + 1] == txs[..i] + [txs[i]];
      if Next(txs[i]) > numTx {
        numTx := Next(txs[i]);
      }
    }
    assert txs[..|txs|] == txs;
  }

  lemma LargestGrows(stageTxs: seq<seq<int>>, txs: seq<int>, size: nat)
    requires LargestStage(stageTxs, size)
    ensures LargestStage(stageTxs + [txs], if |txs| > size then |txs| else size)
  {
    var after, r := if |txs| > size then |txs| else size, stageTxs + [txs];
    if |txs| >= size {
      assert |r[|stageTxs|]| == after;
    } else {
      var i :| 0 <= i < |stageTxs| && |stageTxs[i]| == size;
      assert |r[i]| == after;
    }
  }

  lemma NoStages()
    ensures LargestStage([], 0)
  {
  }

  method BuildStages(workers: nat, gasLimits: map<int, Gas>, levels: seq<int>, stageTxs: seq<seq<int>>, totalTx: nat)
    returns (plan: PipelinePlan)
    requires workers > 0 && |levels| == |stageTxs| && forall i :: 0 <= i < |levels| ==> levels[i] >= 0
    ensures PlanRuns(workers, gasLimits, levels, stageTxs, plan) && plan.totalTx == totalTx
  {
    hide StageRuns, LargestStage;
    assert LargestStage([], 0) by { NoStages(); }
    var stages: seq<PipelineStage> := [];
    var largest: nat := 0;
    for i := 0 to |levels|
      invariant |stages| == i
      invariant forall k | 0 <= k < i ::
                  && stages[k].stageId == k
                  && StageRuns(workers, StageTasks(stageTxs[k], gasLimits, levels[k]), stages[k])
      invariant LargestStage(stageTxs[..i], largest)
    {
      var stage := BuildStage(workers, gasLimits, stageTxs[i], levels[i], i);
      stages := stages + [stage];
      LargestGrows(stageTxs[..i], stageTxs[i], largest);
      assert stageTxs[..i + 1] == stageTxs[..i] + [stageTxs[i]];
      if |stageTxs[i]| > largest {
        largest := |stageTxs[i]|;
      }
    }
    assert stageTxs[..|stageTxs|] == stageTxs;
    plan := PipelinePlan(stages, workers, totalTx, largest);
  }

  datatype PipelineError = PipelineEmpty

  /** `BuildPlan`. The stages are a plan with the fewest waves exactly when
      every transaction in conflict with an earlier one is seen. */
  method BuildPlan(workers: nat, entries: seq<AccessEntry>, gasLimits: map<int, Gas>)
    returns (r: Result<PipelinePlan, PipelineError>)
    requires workers > 0
    ensures r.Err? <==> DeclaredSets(entries) == map[]
    ensures r.Ok? ==> PlanFor(DeclaredSets(entries), workers, gasLimits, r.value)
  {
    hide SetsOf, DeclaredSets, BlockConflict, EdgesListed, Acyclic, LevelsOf, StagesOf, WavePlan, FewestWavesFor,
         PlanRuns, EdgesAreConflicts, InPairOrder, PointsBack, StrictlyAscending, LeadsBelow, CountsTo, MissingAreFree,
         ConflictsSeen, InConflict, Distinct, Grouping;
    ghost var sets := DeclaredSets(entries);
    var conflicts := DetectConflicts(entries);
    var declared := ExtractRWSets(entries);
    SetsAreUnique(entries, sets, declared);
    IndicesAreInts(entries, sets);
    var txs := SortedIndices(declared);
    if |txs| == 0 {
      assert declared.Keys == {};
      return Err(PipelineEmpty);
    }
    assert declared != map[] by { assert txs[0] in Elems(txs); }
    forall n | n in txs ensures n in sets { assert n in Elems(txs); }
    var numTx := NumTx(txs);
    var g := GraphFromConflicts(conflicts, numTx);
    ConflictEdges(sets, conflicts, g);
    var depths := ComputeDepths(g, numTx);
    assert Padded(g, numTx) == g;
    MissingAreFreeWhenSeen(sets, g, txs, numTx, depths);
    var ls, stages := StageLists(txs, depths);
    StageShape(txs, depths, ls, stages);
    var plan := BuildStages(workers, gasLimits, ls, stages, |txs|);
    StagesArePlan(sets, g, txs, depths, ls, stages);
    StagesAreFewest(sets, g, txs, depths, ls, stages);
    StagesGroup(sets, g, txs, depths, numTx, ls, stages);
    PlanFound(sets, workers, gasLimits, ls, stages, plan);
    r := Ok(plan);
  }

  lemma IndicesAreInts(entries: seq<AccessEntry>, sets: map<int, RWSet>)
    requires SetsOf(entries, sets)
    ensures forall n :: n in sets ==> MIN_INT <= n <= MAX_INT
  {
    forall n | n in sets ensures MIN_INT <= n <= MAX_INT {
      assert Declared(entries, n);
    }
  }

  lemma PlanFound(sets: map<int, RWSet>, workers: nat, gasLimits: map<int, Gas>, levels: seq<int>,
                  stageTxs: seq<seq<int>>, plan: PipelinePlan)
    requires PlanRuns(workers, gasLimits, levels, stageTxs, plan) && plan.totalTx == |sets| && Grouping(sets, stageTxs)
    requires (WavePlan(sets, stageTxs) <==> ConflictsSeen(sets)) && FewestWavesFor(sets, |stageTxs|)
    ensures PlanFor(sets, workers, gasLimits, plan)
  {
    hide PlanRuns, WavePlan, FewestWavesFor, ConflictsSeen, Grouping;
  }

  lemma StageShape(txs: seq<int>, depths: map<int, nat>, levels: seq<int>, stages: seq<seq<int>>)
    requires StagesOf(txs, depths, levels, stages)
    ensures |levels| == |stages| && forall i :: 0 <= i < |levels| ==> levels[i] >= 0
  {
  }

  method SortedIndices(sets: map<int, RWSet>) returns (txs: seq<int>)
    ensures StrictlyAscending(txs) && Elems(txs) == sets.Keys && |txs| == |sets|
  {
    var keys := Enumerate(sets.Keys);
    txs := SortInts(keys);
    SortedKeysAscend(keys, txs);
    DistinctPermutation(keys, txs);
    assert |sets.Keys| == |sets|;
  }
}
