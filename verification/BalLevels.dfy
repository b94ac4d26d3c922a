/** The level computations of the BAL package. Each is written as the source
    writes it, and each is proved to give the longest dependency chain. */
module WaveLevels {
  import opened Collections
  import opened DependencyGraphs

  ghost predicate LevelsOf(g: Graph, level: map<int, nat>) {
    forall n :: n in level ==> Longest(g, n, level[n])
  }

  /** The entries of `order` that `level` puts in wave `k`, in order. */
  ghost function AtLevel(order: seq<int>, level: map<int, nat>, k: nat): seq<int> {
    if order == [] then []
    else
      var last := order[|order| - 1];
      AtLevel(order[..|order| - 1], level, k) + if last in level && level[last] == k then [last] else []
  }

  lemma {:induction false} AtLevelMembers(order: seq<int>, level: map<int, nat>, k: nat)
    requires Distinct(order)
    ensures Distinct(AtLevel(order, level, k))
    ensures forall n :: n in AtLevel(order, level, k) <==> n in order && n in level && level[n] == k
  {
    if order != [] {
      var front := order[..|order| - 1];
      AtLevelMembers(front, level, k);
      assert order == front + [order[|order| - 1]];
    }
  }

  /** The best level among the dependencies already assigned, or -1. */
  method MaxDepLevel(deps: seq<int>, level: map<int, nat>) returns (m: int)
    ensures m >= -1
    ensures forall d :: d in deps && d in level ==> level[d] <= m
    ensures m == -1 || exists d :: d in deps && d in level && level[d] == m
  {
    m := -1;
    for i := 0 to |deps|
      invariant m >= -1
      invariant forall j :: 0 <= j < i && deps[j] in level ==> level[deps[j]] <= m
      invariant m == -1 || exists d :: d in deps && d in level && level[d] == m
    {
      var d := deps[i];
      if d in level && level[d] > m {
        m := level[d];
        assert d in deps && d in level && level[d] == m;
      }
    }
  }

  method AssignLevels(g: Graph, order: seq<int>) returns (level: map<int, nat>)
    requires TopologicalOrder(g, order)
    ensures level.Keys == Nodes(g) && LevelsOf(g, level)
  {
    hide Longest;
    level := map[];
    for i := 0 to |order|
      invariant level.Keys == Elems(order[..i])
      invariant LevelsOf(g, level)
    {
      var n := order[i];
      assert n in Elems(order);
      assert Settled(g, order[i], order[..i]);
      var m := MaxDepLevel(Deps(g, n), level);
      LongestStep(g, n, level, m + 1);
      level := level[n := m + 1];
      assert order[..i + 1] == order[..i] + [n];
    }
    assert order[..|order|] == order;
  }

  method LargestLevel(level: map<int, nat>) returns (m: nat)
    requires level != map[]
    ensures forall n :: n in level ==> level[n] <= m
    ensures exists top :: top in level && level[top] == m
  {
    m := 0;
    ghost var top: int;
    var keys := Enumerate(level.Keys);
    assert keys[0] in Elems(keys);
    top := keys[0];
    for i := 0 to |keys|
      invariant forall j :: 0 <= j < i ==> keys[j] in level && level[keys[j]] <= m
      invariant i == 0 ==> m == 0
      invariant i > 0 ==> top in level && level[top] == m
    {
      var n := keys[i];
      assert n in Elems(keys);
      if i == 0 || level[n] > m {
        top := n;
      }
      if level[n] > m {
        m := level[n];
      }
    }
    forall n | n in level ensures level[n] <= m {
      assert n in Elems(keys);
      var j :| 0 <= j < |keys| && keys[j] == n;
    }
  }

  /** Distributes `order` over waves by level. */
  method Distribute(order: seq<int>, level: map<int, nat>, maxLevel: nat) returns (waves: seq<seq<int>>)
    requires forall n :: n in order ==> n in level && level[n] <= maxLevel
    ensures |waves| == maxLevel + 1
    ensures forall k :: 0 <= k < |waves| ==> waves[k] == AtLevel(order, level, k)
  {
    waves := seq(maxLevel + 1, _ => []);
    for i := 0 to |order|
      invariant |waves| == maxLevel + 1
      invariant forall k :: 0 <= k < |waves| ==> waves[k] == AtLevel(order[..i], level, k)
    {
      var n := order[i];
      var l := level[n];
      waves := waves[l := waves[l] + [n]];
      assert order[..i + 1][..i] == order[..i];
    }
    assert order[..|order|] == order;
  }

  /** What every wave plan in the package satisfies: wave `k` holds, once each,
      the nodes whose longest chain has `k` edges, and no wave is empty. */
  ghost predicate LevelWaves(g: Graph, waves: seq<seq<int>>) {
    && (forall k :: 0 <= k < |waves| ==> waves[k] != [] && Distinct(waves[k]))
    && (forall k, n :: 0 <= k < |waves| ==> (n in waves[k] <==> n in Nodes(g) && Longest(g, n, k)))
    && (forall n :: n in Nodes(g) ==> InSomeWave(waves, n))
  }

  ghost predicate InSomeWave(waves: seq<seq<int>>, n: int) {
    exists k :: 0 <= k < |waves| && n in waves[k]
  }

  lemma WaveMembers(g: Graph, order: seq<int>, level: map<int, nat>, k: nat, n: int)
    requires Distinct(order) && Elems(order) == Nodes(g)
    requires level.Keys == Nodes(g) && LevelsOf(g, level)
    ensures Distinct(AtLevel(order, level, k))
    ensures n in AtLevel(order, level, k) <==> n in Nodes(g) && Longest(g, n, k)
  {
    hide Longest;
    AtLevelMembers(order, level, k);
    assert n in order <==> n in Elems(order);
    if n in Nodes(g) && Longest(g, n, k) { LongestIsUnique(g, n, k, level[n]); }
  }

  lemma WavesFromLevels(g: Graph, order: seq<int>, level: map<int, nat>, top: int, waves: seq<seq<int>>)
    requires Distinct(order) && Elems(order) == Nodes(g)
    requires level.Keys == Nodes(g) && LevelsOf(g, level)
    requires top in level && forall n :: n in level ==> level[n] <= level[top]
    requires |waves| == level[top] + 1
    requires forall k :: 0 <= k < |waves| ==> waves[k] == AtLevel(order, level, k)
    ensures LevelWaves(g, waves)
  {
    hide Longest;
    forall k, n | 0 <= k < |waves|
      ensures Distinct(waves[k]) && (n in waves[k] <==> n in Nodes(g) && Longest(g, n, k))
    {
      WaveMembers(g, order, level, k, n);
    }
    forall k | 0 <= k < |waves| ensures waves[k] != [] && Distinct(waves[k]) {
      var x := LevelsAreContiguous(g, top, level[top], k);
      assert x in waves[k];
      WaveMembers(g, order, level, k, x);
    }
    forall n | n in Nodes(g) ensures InSomeWave(waves, n) {
      assert n in waves[level[n]];
    }
  }

  /** `buildWaves`: a topological order split by level. */
  method BuildWaves(g: Graph, order: seq<int>) returns (waves: seq<seq<int>>)
    requires TopologicalOrder(g, order)
    ensures order == [] ==> waves == []
    ensures order != [] ==> LevelWaves(g, waves)
  {
    hide Longest, LevelWaves;
    if order == [] {
      return [];
    }
    var level := AssignLevels(g, order);
    assert order[0] in Elems(order);
    var maxLevel := LargestLevel(level);
    ghost var top :| top in level && level[top] == maxLevel;
    assert forall n :: n in order ==> n in Elems(order);
    waves := Distribute(order, level, maxLevel);
    WavesFromLevels(g, order, level, top, waves);
  }

  /** No schedule that respects the dependencies has fewer waves. */
  lemma FewestWaves(g: Graph, waves: seq<seq<int>>, other: map<int, nat>, m: nat)
    requires LevelWaves(g, waves)
    requires RespectsDependencies(g, other)
    requires forall n :: n in Nodes(g) && n in other ==> other[n] < m
    ensures |waves| <= m
  {
    if waves != [] {
      var k := |waves| - 1;
      var n := waves[k][0];
      assert n in waves[k];
      LevelsAreOptimal(g, other, n, k);
    }
  }

  /** A node and what it waits for never share a wave. */
  lemma WavesSeparateDependencies(g: Graph, waves: seq<seq<int>>, i: nat, j: nat, d: int, n: int)
    requires LevelWaves(g, waves)
    requires i < |waves| && j < |waves| && d in waves[i] && n in waves[j] && d in Deps(g, n)
    ensures i < j
  {
    hide Longest;
    assert Longest(g, d, i) && Longest(g, n, j);
    DependencyIsDeeper(g, d, n, i, j);
  }

  ghost predicate Extends(a: map<int, nat>, b: map<int, nat>) {
    forall m :: m in a ==> m in b && b[m] == a[m]
  }

  ghost predicate SameEdges(g: Graph, h: Graph) {
    forall n :: Deps(g, n) == Deps(h, n)
  }

  lemma SameDeps(g: Graph, h: Graph, n: int)
    requires SameEdges(g, h)
    ensures Deps(g, n) == Deps(h, n)
  {
  }

  /** The memo holds the dependencies of what it holds. */
  ghost predicate MemoIsClosed(g: Graph, level: map<int, nat>) {
    forall m, d :: m in level && d in Deps(g, m) ==> d in level
  }

  /** All a call for `n` adds to the memo leads to `n`. */
  ghost predicate AddsOnly(g: Graph, level0: map<int, nat>, level: map<int, nat>, n: int) {
    forall m :: m in level && m !in level0 ==> Leads(g, m, n)
  }

  lemma AddsThrough(g: Graph, level0: map<int, nat>, mid: map<int, nat>, level: map<int, nat>, d: int, n: int)
    requires AddsOnly(g, level0, mid, n) && AddsOnly(g, mid, level, d) && d in Deps(g, n)
    ensures AddsOnly(g, level0, level, n)
  {
    hide Leads;
    forall m | m in level && m !in level0 ensures Leads(g, m, n) {
      if m !in mid { LeadsOn(g, m, d, n); }
    }
  }

  /** `computeLevel`, memoised in a map. The chain from `n` up to the outermost
      call shows that the recursion stops on every graph without a cycle; `r`
      is a graph with the same edges that has `n` as a node. */
  method ComputeLevel(g: Graph, n: int, level0: map<int, nat>, ghost r: Graph, ghost path: seq<int>)
    returns (l: nat, level: map<int, nat>)
    requires SameEdges(r, g)
    requires Acyclic(r) && Chain(r, path) && path != [] && path[0] == n
    requires LevelsOf(r, level0) && MemoIsClosed(r, level0)
    ensures LevelsOf(r, level) && MemoIsClosed(r, level) && n in level && level[n] == l
    ensures Extends(level0, level) && AddsOnly(r, level0, level, n)
    decreases |Nodes(r)| - |path|
  {
    hide Longest, Chain, Acyclic, Distinct, AddsOnly, MemoIsClosed, SameEdges, Deps;
    level := level0;
    assert AddsOnly(r, level0, level, n) by { NothingAdded(r, level, n); }
    if n in level0 {
      return level0[n], level0;
    }
    ChainBound(r, path);
    ChainHead(r, path);
    var maxDep: int := -1;
    ghost var best := n;
    var deps := Deps(g, n);
    SameDeps(r, g, n);
    for i := 0 to |deps|
      invariant LevelsOf(r, level) && MemoIsClosed(r, level)
      invariant Extends(level0, level) && AddsOnly(r, level0, level, n)
      invariant maxDep >= -1
      invariant forall j :: 0 <= j < i ==> deps[j] in level && level[deps[j]] <= maxDep
      invariant maxDep == -1 || (best in deps && best in level && level[best] == maxDep)
    {
      assert deps[i] in deps;
      ChainExtend(r, deps[i], path);
      ChainBound(r, [deps[i]] + path);
      ghost var before := level;
      var dl;
      dl, level := ComputeLevel(g, deps[i], level, r, [deps[i]] + path);
      AddsThrough(r, level0, before, level, deps[i], n);
      forall j | 0 <= j < i ensures deps[j] in level && level[deps[j]] <= maxDep {
        var d := deps[j];
        assert d in before;
      }
      if dl > maxDep {
        maxDep, best := dl, deps[i];
      }
    }
    l := maxDep + 1;
    LongestStep(r, n, level, l);
    AddsItself(r, level0, level, n, l);
    MemoGrows(r, level, n, l);
    level := level[n := l];
  }

  lemma MemoGrows(g: Graph, level: map<int, nat>, n: int, l: nat)
    requires MemoIsClosed(g, level) && forall d :: d in Deps(g, n) ==> d in level
    ensures MemoIsClosed(g, level[n := l])
  {
  }

  lemma NothingAdded(g: Graph, level: map<int, nat>, n: int)
    ensures AddsOnly(g, level, level, n)
  {
  }

  lemma AddsItself(g: Graph, level0: map<int, nat>, level: map<int, nat>, n: int, l: nat)
    requires AddsOnly(g, level0, level, n) && n in Nodes(g)
    ensures AddsOnly(g, level0, level[n := l], n)
  {
    hide Leads;
    LeadsToItself(g, n);
  }

  /** Every dependency is itself a key, as `AddEdge` keeps it. */
  ghost predicate Closed(g: Graph) {
    forall n, d :: d in Deps(g, n) ==> d in g
  }

  lemma ClosedNodes(g: Graph)
    requires Closed(g)
    ensures Nodes(g) == g.Keys
  {
  }

  /** `Nodes`: the keys in ascending order. */
  method SortedNodes(g: Graph) returns (nodes: seq<int>)
    ensures StrictlyAscending(nodes) && Elems(nodes) == g.Keys
  {
    var keys := Enumerate(g.Keys);
    nodes := SortInts(keys);
    DistinctPermutation(keys, nodes);
  }

  datatype ScheduleSlot = ScheduleSlot(txIndex: int, waveId: nat)

  ghost function Transactions(slots: seq<ScheduleSlot>): seq<int> {
    seq(|slots|, i requires 0 <= i < |slots| => slots[i].txIndex)
  }

  /** Runs the memoised recursion from each of `nodes` in turn. */
  method LevelsFor(g: Graph, nodes: seq<int>) returns (level: map<int, nat>)
    requires Acyclic(g) && forall n :: n in nodes ==> n in Nodes(g)
    ensures LevelsOf(g, level) && forall n :: n in nodes ==> n in level
  {
    hide Longest, Acyclic, AddsOnly;
    level := map[];
    for i := 0 to |nodes|
      invariant LevelsOf(g, level) && MemoIsClosed(g, level)
      invariant forall n :: n in nodes[..i] ==> n in level
    {
      ghost var before := level;
      var n := nodes[i];
      assert n in nodes;
      var l;
      l, level := ComputeLevel(g, n, level, g, [n]);
      forall m | m in nodes[..i + 1] ensures m in level {
        if m != n { assert m in nodes[..i] && m in before; }
      }
    }
    assert nodes[..|nodes|] == nodes;
  }

  /** One slot per transaction, in index order, in the wave of its longest chain. */
  ghost predicate SlotPlan(g: Graph, slots: seq<ScheduleSlot>) {
    && StrictlyAscending(Transactions(slots)) && Elems(Transactions(slots)) == g.Keys
    && (forall i :: 0 <= i < |slots| ==> Longest(g, slots[i].txIndex, slots[i].waveId))
  }

  /** `ScheduleFromGraph`: one slot per transaction, in index order, in the
      wave given by its longest chain. */
  method ScheduleFromGraph(g: Graph) returns (slots: seq<ScheduleSlot>)
    requires Acyclic(g)
    ensures SlotPlan(g, slots)
  {
    hide Longest, Acyclic;
    var nodes := SortedNodes(g);
    assert forall n :: n in nodes ==> n in Elems(nodes);
    var level := LevelsFor(g, nodes);
    slots := [];
    for i := 0 to |nodes|
      invariant |slots| == i
      invariant Transactions(slots) == nodes[..i]
      invariant forall j :: 0 <= j < i ==> Longest(g, slots[j].txIndex, slots[j].waveId)
    {
      var n := nodes[i];
      assert n in nodes && n in level;
      slots := slots + [ScheduleSlot(n, level[n])];
      assert Transactions(slots) == nodes[..i] + [n];
    }
    assert nodes[..|nodes|] == nodes;
  }

  /** The graph with 0..numTx as nodes: one that was none has no edges. */
  ghost function Padded(g: Graph, numTx: nat): (r: Graph)
    ensures SameEdges(r, g)
    ensures forall i :: 0 <= i < numTx ==> i in r
    ensures (forall i :: 0 <= i < numTx ==> i in g) ==> r == g
  {
    g + map i | 0 <= i < numTx && i !in g :: Deps(g, i)
  }

  lemma PaddedChain(g: Graph, numTx: nat, p: seq<int>)
    requires Chain(Padded(g, numTx), p)
    ensures Chain(g, p) || |p| == 1
  {
    hide Padded, Deps, Nodes;
    var r := Padded(g, numTx);
    if |p| > 1 {
      forall i | 0 <= i < |p| - 1 ensures Link(g, p, i) { assert Link(r, p, i); }
      forall i | 0 <= i < |p| ensures p[i] in Nodes(g) {
        var j := if i > 0 then i - 1 else 0;
        assert Link(g, p, j);
        DependencyIsNode(g, p[j + 1], p[j]);
      }
    }
  }

  lemma PaddedIsAcyclic(g: Graph, numTx: nat)
    requires Acyclic(g)
    ensures Acyclic(Padded(g, numTx))
  {
    hide Padded, Deps, Link, Nodes, SameEdges;
    var r := Padded(g, numTx);
    forall p | Chain(r, p) ensures p[|p| - 1] !in Deps(r, p[0]) {
      PaddedChain(g, numTx, p);
      SameDeps(r, g, p[0]);
      if |p| == 1 { NoLoop(g, p[0]); }
    }
  }

  lemma NoLoop(g: Graph, n: int)
    requires Acyclic(g)
    ensures n !in Deps(g, n)
  {
    hide Deps, Nodes;
    if n in Deps(g, n) {
      DependencyIsNode(g, n, n);
      ChainSingle(g, n);
    }
  }

  ghost predicate LeadsBelow(g: Graph, m: int, numTx: nat) {
    exists j :: 0 <= j < numTx && Leads(g, m, j)
  }

  /** `computeDepths`: the same recursion for transactions 0..numTx. It finds
      the depths of exactly the transactions with a chain into that range. */
  method ComputeDepths(g: Graph, numTx: nat) returns (depths: map<int, nat>)
    requires Acyclic(g)
    ensures LevelsOf(Padded(g, numTx), depths)
    ensures forall m :: m in depths <==> LeadsBelow(Padded(g, numTx), m, numTx)
  {
    hide Longest, AddsOnly, Leads, Padded, Chain;
    ghost var r := Padded(g, numTx);
    PaddedIsAcyclic(g, numTx);
    depths := map[];
    for i := 0 to numTx
      invariant LevelsOf(r, depths) && MemoIsClosed(r, depths)
      invariant forall j :: 0 <= j < i ==> j in depths
      invariant forall m :: m in depths ==> LeadsBelow(r, m, i)
    {
      ghost var before := depths;
      var l;
      ChainSingle(r, i);
      l, depths := ComputeLevel(g, i, depths, r, [i]);
      forall m | m in depths ensures LeadsBelow(r, m, i + 1) { LeadsSooner(r, before, depths, m, i); }
    }
    forall m | LeadsBelow(r, m, numTx) ensures m in depths { MemoHoldsAll(r, depths, m, numTx); }
  }

  lemma LeadsSooner(g: Graph, before: map<int, nat>, depths: map<int, nat>, m: int, i: nat)
    requires AddsOnly(g, before, depths, i) && m in depths && (m in before ==> LeadsBelow(g, m, i))
    ensures LeadsBelow(g, m, i + 1)
  {
    hide Leads;
    if m in before {
      var j :| 0 <= j < i && Leads(g, m, j);
    }
  }

  lemma MemoHoldsAll(g: Graph, depths: map<int, nat>, m: int, numTx: nat)
    requires MemoIsClosed(g, depths) && LeadsBelow(g, m, numTx) && forall j :: 0 <= j < numTx ==> j in depths
    ensures m in depths
  {
    var j :| 0 <= j < numTx && Leads(g, m, j);
    var p :| ChainTo(g, p, j) && p[0] == m;
    ClosedHoldsChains(g, depths.Keys, p);
  }

  ghost function InWave(slots: seq<ScheduleSlot>, w: nat): seq<int> {
    if slots == [] then []
    else
      var last := slots[|slots| - 1];
      InWave(slots[..|slots| - 1], w) + if last.waveId == w then [last.txIndex] else []
  }

  ghost predicate Places(slots: seq<ScheduleSlot>, n: int, w: nat) {
    exists i :: 0 <= i < |slots| && slots[i] == ScheduleSlot(n, w)
  }

  lemma PlacesGrow(front: seq<ScheduleSlot>, last: ScheduleSlot, n: int, w: nat)
    ensures Places(front + [last], n, w) <==> Places(front, n, w) || last == ScheduleSlot(n, w)
  {
    var slots := front + [last];
    if Places(slots, n, w) {
      var i :| 0 <= i < |slots| && slots[i] == ScheduleSlot(n, w);
      if i < |front| { assert front[i] == ScheduleSlot(n, w); }
    }
    if Places(front, n, w) {
      var i :| 0 <= i < |front| && front[i] == ScheduleSlot(n, w);
      assert slots[i] == ScheduleSlot(n, w);
    }
    if last == ScheduleSlot(n, w) { assert slots[|front|] == last; }
  }

  lemma PlacedBefore(slots: seq<ScheduleSlot>, n: int, w: nat)
    requires slots != [] && StrictlyAscending(Transactions(slots)) && Places(slots[..|slots| - 1], n, w)
    ensures n < slots[|slots| - 1].txIndex
  {
    var front := slots[..|slots| - 1];
    var i :| 0 <= i < |front| && front[i] == ScheduleSlot(n, w);
    assert Transactions(slots)[i] < Transactions(slots)[|front|];
  }

  lemma {:induction false} InWaveMembers(slots: seq<ScheduleSlot>, w: nat)
    requires StrictlyAscending(Transactions(slots))
    ensures StrictlyAscending(InWave(slots, w))
    ensures forall n :: n in InWave(slots, w) <==> Places(slots, n, w)
  {
    if slots != [] {
      hide Places;
      var front, last := slots[..|slots| - 1], slots[|slots| - 1];
      assert Transactions(front) == Transactions(slots)[..|slots| - 1];
      InWaveMembers(front, w);
      assert slots == front + [last];
      forall n ensures n in InWave(slots, w) <==> Places(slots, n, w) {
        PlacesGrow(front, last, n, w);
      }
      var part := InWave(front, w);
      forall i | 0 <= i < |part| ensures part[i] < last.txIndex {
        assert part[i] in part;
        PlacedBefore(slots, part[i], w);
      }
    }
  }

  /** `WaveCount`: one more than the highest wave used. */
  method WaveCount(slots: seq<ScheduleSlot>) returns (c: nat)
    ensures slots == [] ==> c == 0
    ensures forall i :: 0 <= i < |slots| ==> slots[i].waveId < c
    ensures slots != [] ==> exists i :: 0 <= i < |slots| && slots[i].waveId == c - 1
  {
    if slots == [] {
      return 0;
    }
    var m, top := 0, 0;
    for i := 0 to |slots|
      invariant 0 <= top < |slots|
      invariant forall j :: 0 <= j < i ==> slots[j].waveId <= m
      invariant i == 0 ==> m == 0
      invariant i > 0 ==> slots[top].waveId == m
    {
      if i == 0 || slots[i].waveId > m {
        top := i;
      }
      if slots[i].waveId > m {
        m := slots[i].waveId;
      }
    }
    c := m + 1;
    assert slots[top].waveId == c - 1;
  }

  /** Every wave id up to the highest one used has a transaction. */
  lemma SlotsFillWaves(g: Graph, slots: seq<ScheduleSlot>, top: nat, w: nat)
    requires Closed(g) && SlotPlan(g, slots)
    requires top < |slots| && w <= slots[top].waveId
    ensures InWave(slots, w) != []
  {
    hide Longest;
    var x := LevelsAreContiguous(g, slots[top].txIndex, slots[top].waveId, w);
    SlotMembers(g, slots, w, x);
    InWaveMembers(slots, w);
  }

  lemma SlotMembers(g: Graph, slots: seq<ScheduleSlot>, w: nat, n: int)
    requires Closed(g) && SlotPlan(g, slots)
    ensures Places(slots, n, w) <==> n in Nodes(g) && Longest(g, n, w)
  {
    hide Longest;
    ClosedNodes(g);
    if Places(slots, n, w) {
      var i :| 0 <= i < |slots| && slots[i] == ScheduleSlot(n, w);
      assert Transactions(slots)[i] in Elems(Transactions(slots));
    }
    if n in Nodes(g) && Longest(g, n, w) {
      assert n in Elems(Transactions(slots));
      var i :| 0 <= i < |slots| && Transactions(slots)[i] == n;
      LongestIsUnique(g, n, w, slots[i].waveId);
      assert slots[i] == ScheduleSlot(n, w);
    }
  }

  function Lookup(m: map<nat, seq<int>>, w: nat): seq<int> {
    if w in m then m[w] else []
  }

  method GroupByWave(slots: seq<ScheduleSlot>) returns (waveMap: map<nat, seq<int>>)
    ensures forall w: nat :: Lookup(waveMap, w) == InWave(slots, w)
  {
    waveMap := map[];
    for i := 0 to |slots|
      invariant forall w: nat :: Lookup(waveMap, w) == InWave(slots[..i], w)
    {
      var s := slots[i];
      assert slots[..i + 1][..i] == slots[..i];
      waveMap := waveMap[s.waveId := Lookup(waveMap, s.waveId) + [s.txIndex]];
    }
    assert slots[..|slots|] == slots;
  }

  /** Sorting an ascending list changes nothing. */
  method Resort(txs: seq<int>) returns (sorted: seq<int>)
    requires Ascending(txs)
    ensures sorted == txs
  {
    sorted := SortInts(txs);
    SortedIsUnique(txs, sorted);
  }

  method CollectGroups(g: Graph, slots: seq<ScheduleSlot>, waveMap: map<nat, seq<int>>, count: nat)
    returns (groups: seq<seq<int>>)
    requires Closed(g) && SlotPlan(g, slots)
    requires forall w: nat :: Lookup(waveMap, w) == InWave(slots, w)
    requires count > 0 ==> exists i :: 0 <= i < |slots| && slots[i].waveId == count - 1
    ensures |groups| == count && forall k :: 0 <= k < count ==> groups[k] == InWave(slots, k)
  {
    hide Longest, SlotPlan, Closed, Ascending, StrictlyAscending;
    groups := [];
    for w := 0 to count
      invariant |groups| == w
      invariant forall k :: 0 <= k < w ==> groups[k] == InWave(slots, k)
    {
      var txs := Lookup(waveMap, w);
      assert txs != [] by {
        var top :| 0 <= top < |slots| && slots[top].waveId == count - 1;
        SlotsFillWaves(g, slots, top, w);
      }
      WaveAscends(g, slots, w);
      if txs != [] {
        var sorted := Resort(txs);
        groups := groups + [sorted];
      }
    }
  }

  /** `FindParallelGroups`: the same waves, each in index order. */
  method FindParallelGroups(g: Graph) returns (groups: seq<seq<int>>)
    requires Acyclic(g) && Closed(g)
    ensures LevelWaves(g, groups)
    ensures forall k :: 0 <= k < |groups| ==> StrictlyAscending(groups[k])
  {
    hide Longest, Acyclic, LevelWaves, SlotPlan, Closed, Ascending, StrictlyAscending;
    var slots := ScheduleFromGraph(g);
    var count := WaveCount(slots);
    var waveMap := GroupByWave(slots);
    groups := CollectGroups(g, slots, waveMap, count);
    GroupsAreWaves(g, slots, groups);
    forall k | 0 <= k < |groups| ensures StrictlyAscending(groups[k]) { WaveAscends(g, slots, k); }
  }

  lemma WaveAscends(g: Graph, slots: seq<ScheduleSlot>, w: nat)
    requires SlotPlan(g, slots)
    ensures StrictlyAscending(InWave(slots, w)) && Ascending(InWave(slots, w))
  {
    InWaveMembers(slots, w);
  }

  lemma GroupsAreWaves(g: Graph, slots: seq<ScheduleSlot>, groups: seq<seq<int>>)
    requires Closed(g) && SlotPlan(g, slots)
    requires forall i :: 0 <= i < |slots| ==> slots[i].waveId < |groups|
    requires groups != [] ==> exists i :: 0 <= i < |slots| && slots[i].waveId == |groups| - 1
    requires forall k :: 0 <= k < |groups| ==> groups[k] == InWave(slots, k)
    ensures LevelWaves(g, groups)
  {
    hide Longest, SlotPlan, Places, Nodes, Closed;
    forall k, n | 0 <= k < |groups| ensures n in groups[k] <==> n in Nodes(g) && Longest(g, n, k) {
      WaveOfSlots(g, slots, k, n);
    }
    forall k | 0 <= k < |groups| ensures groups[k] != [] && Distinct(groups[k]) {
      var i :| 0 <= i < |slots| && slots[i].waveId == |groups| - 1;
      SlotsFillWaves(g, slots, i, k);
      WaveOfSlots(g, slots, k, 0);
    }
    forall n | n in Nodes(g) ensures InSomeWave(groups, n) {
      var i := SlotOf(g, slots, n);
      WaveOfSlots(g, slots, slots[i].waveId, n);
      assert n in groups[slots[i].waveId];
    }
  }

  lemma WaveOfSlots(g: Graph, slots: seq<ScheduleSlot>, k: nat, n: int)
    requires Closed(g) && SlotPlan(g, slots)
    ensures Distinct(InWave(slots, k))
    ensures n in InWave(slots, k) <==> n in Nodes(g) && Longest(g, n, k)
  {
    hide Longest;
    InWaveMembers(slots, k);
    SlotMembers(g, slots, k, n);
  }

  lemma SlotOf(g: Graph, slots: seq<ScheduleSlot>, n: int) returns (i: nat)
    requires Closed(g) && SlotPlan(g, slots) && n in Nodes(g)
    ensures i < |slots| && slots[i].txIndex == n && Longest(g, n, slots[i].waveId)
  {
    hide Longest;
    ClosedNodes(g);
    assert n in Elems(Transactions(slots));
    i :| 0 <= i < |slots| && Transactions(slots)[i] == n;
  }
}
