/** Executing the scheduled waves ends in the state block order ends in. */
module Serializability {
  import opened Collections
  import opened DependencyGraphs
  import opened BalConflicts
  import opened WaveLevels
  import opened TopologicalSort

  // ----- the world state and what a transaction may touch -----

  datatype AccountField = Balance | Nonce | Code

  datatype Location = Storage(loc: SlotLocation) | Account(addr: Address, field: AccountField)

  /** A missing location holds the default value. */
  type State = map<Location, int>

  type Transaction = State -> State

  function Read(s: State, l: Location): Option<int> {
    if l in s then Some(s[l]) else None
  }

  ghost predicate InWriteSet(rw: RWSet, l: Location) {
    match l
    case Storage(loc) => loc in rw.writeSet
    case Account(a, _) => a in rw.accountWrites
  }

  /** Account fields are readable only by transactions that declare a change to
      that account, because the detector tracks no account reads. */
  ghost predicate InFootprint(rw: RWSet, l: Location) {
    InWriteSet(rw, l) || (l.Storage? && l.loc in rw.readSet)
  }

  ghost predicate AgreeOnFootprint(rw: RWSet, s: State, t: State) {
    forall l :: InFootprint(rw, l) ==> Read(s, l) == Read(t, l)
  }

  /** Changes only declared writes, and decides them from its footprint. */
  ghost predicate StaysInside(tx: Transaction, rw: RWSet) {
    && (forall s, l :: !InWriteSet(rw, l) ==> Read(tx(s), l) == Read(s, l))
    && (forall s, t, l :: AgreeOnFootprint(rw, s, t) && InWriteSet(rw, l) ==> Read(tx(s), l) == Read(tx(t), l))
  }

  lemma SameState(s: State, t: State)
    requires forall l :: Read(s, l) == Read(t, l)
    ensures s == t
  {
    forall l ensures l in s <==> l in t { assert Read(s, l) == Read(t, l); }
    forall l | l in s ensures s[l] == t[l] { assert Read(s, l) == Read(t, l); }
  }

  lemma ConflictingIsSymmetric(a: RWSet, b: RWSet)
    ensures Conflicting(a, b) <==> Conflicting(b, a)
  {
  }

  lemma WriteIsOutside(a: RWSet, b: RWSet, l: Location)
    requires !Conflicting(a, b) && InWriteSet(a, l)
    ensures !InFootprint(b, l)
  {
  }

  /** What an unrelated transaction sees does not change. */
  lemma UnaffectedBy(p: Transaction, a: RWSet, b: RWSet, s: State)
    requires StaysInside(p, a) && !Conflicting(a, b)
    ensures AgreeOnFootprint(b, p(s), s)
  {
    forall l | InFootprint(b, l) ensures Read(p(s), l) == Read(s, l) {
      if InWriteSet(a, l) { WriteIsOutside(a, b, l); }
    }
  }

  /** Transactions without a conflict commute. */
  lemma Commute(p: Transaction, a: RWSet, q: Transaction, b: RWSet, s: State)
    requires StaysInside(p, a) && StaysInside(q, b) && !Conflicting(a, b)
    ensures q(p(s)) == p(q(s))
  {
    ConflictingIsSymmetric(a, b);
    UnaffectedBy(p, a, b, s);
    UnaffectedBy(q, b, a, s);
    hide Conflicting, AgreeOnFootprint;
    forall l ensures Read(q(p(s)), l) == Read(p(q(s)), l) {
      if InWriteSet(a, l) {
        WriteIsOutside(a, b, l);
        assert Read(q(p(s)), l) == Read(p(s), l);
        assert Read(p(q(s)), l) == Read(p(s), l);
      } else if InWriteSet(b, l) {
        assert Read(q(p(s)), l) == Read(q(s), l);
        assert Read(p(q(s)), l) == Read(q(s), l);
      } else {
        assert Read(q(p(s)), l) == Read(p(s), l);
        assert Read(p(q(s)), l) == Read(q(s), l);
      }
    }
    SameState(q(p(s)), p(q(s)));
  }

  // ----- running transactions in sequence -----

  type Block = int -> Transaction

  ghost function Run(txs: Block, order: seq<int>, s: State): State {
    if order == [] then s else txs(order[|order| - 1])(Run(txs, order[..|order| - 1], s))
  }

  lemma {:induction false} RunConcat(txs: Block, a: seq<int>, b: seq<int>, s: State)
    ensures Run(txs, a + b, s) == Run(txs, b, Run(txs, a, s))
  {
    if b == [] {
      assert a + b == a;
    } else {
      var c := b[..|b| - 1];
      RunConcat(txs, a, c, s);
      assert (a + b)[..|a + b| - 1] == a + c;
    }
  }

  lemma RunLast(txs: Block, a: seq<int>, m: int, s: State)
    ensures Run(txs, a + [m], s) == txs(m)(Run(txs, a, s))
  {
    assert (a + [m])[..|a|] == a;
  }

  /** Every transaction keeps to what the access list declares for it. */
  ghost predicate BlockStaysInside(txs: Block, sets: map<int, RWSet>) {
    forall n :: n in sets ==> StaysInside(txs(n), sets[n])
  }

  ghost predicate Independent(sets: map<int, RWSet>, a: int, b: int) {
    a in sets && b in sets && !Conflicting(sets[a], sets[b])
  }

  /** A transaction moves past transactions it has no conflict with. */
  lemma {:induction false} MovePast(txs: Block, sets: map<int, RWSet>, m: int, rest: seq<int>, s: State)
    requires BlockStaysInside(txs, sets)
    requires forall x :: x in rest ==> Independent(sets, x, m)
    ensures Run(txs, [m] + rest, s) == Run(txs, rest + [m], s)
  {
    if rest == [] {
      assert [m] + rest == rest + [m];
    } else {
      var front, x := rest[..|rest| - 1], rest[|rest| - 1];
      assert x in rest && Independent(sets, x, m);
      hide Conflicting, StaysInside, Run;
      MovePast(txs, sets, m, front, s);
      RunLast(txs, front, m, s);
      RunLast(txs, front, x, s);
      assert [m] + rest == ([m] + front) + [x] && rest == front + [x];
      RunLast(txs, [m] + front, x, s);
      RunLast(txs, rest, m, s);
      ConflictingIsSymmetric(sets[x], sets[m]);
      Commute(txs(m), sets[m], txs(x), sets[x], Run(txs, front, s));
    }
  }

  /** Each conflicting pair runs in block order. */
  ghost predicate RespectsConflicts(sets: map<int, RWSet>, order: seq<int>) {
    forall i, j :: 0 <= i < j < |order| && order[j] < order[i] ==> Independent(sets, order[i], order[j])
  }

  lemma LastOfBlock(block: seq<int>, order: seq<int>) returns (i: nat)
    requires StrictlyAscending(block) && block != [] && multiset(order) == multiset(block)
    ensures i < |order| && order[i] == block[|block| - 1]
    ensures forall k :: 0 <= k < |order| && k != i ==> order[k] < order[i]
  {
    var m := block[|block| - 1];
    DistinctPermutation(block, order);
    assert m in block;
    assert m in Elems(order);
    i :| 0 <= i < |order| && order[i] == m;
    forall k | 0 <= k < |order| && k != i ensures order[k] < m {
      assert order[k] in Elems(order) && order[k] in Elems(block);
    }
  }

  lemma RemoveOne(block: seq<int>, order: seq<int>, i: nat)
    requires block != [] && multiset(order) == multiset(block)
    requires i < |order| && order[i] == block[|block| - 1]
    ensures multiset(order[..i] + order[i + 1..]) == multiset(block[..|block| - 1])
  {
    var m := order[i];
    assert order == order[..i] + [m] + order[i + 1..];
    assert block == block[..|block| - 1] + [m];
    assert multiset(order[..i] + order[i + 1..]) == multiset(order) - multiset{m};
    assert multiset(block[..|block| - 1]) == multiset(block) - multiset{m};
  }

  lemma RemovalRespects(sets: map<int, RWSet>, order: seq<int>, i: nat)
    requires RespectsConflicts(sets, order) && i < |order|
    ensures RespectsConflicts(sets, order[..i] + order[i + 1..])
  {
    hide Independent;
    var r := order[..i] + order[i + 1..];
    forall a, b | 0 <= a < b < |r| && r[b] < r[a] ensures Independent(sets, r[a], r[b]) {
      var a', b' := if a < i then a else a + 1, if b < i then b else b + 1;
      assert order[a'] == r[a] && order[b'] == r[b];
    }
  }

  /** A transaction with no conflict among its successors can run last. */
  lemma MoveToEnd(txs: Block, sets: map<int, RWSet>, order: seq<int>, i: nat, s: State)
    requires BlockStaysInside(txs, sets) && i < |order|
    requires forall x :: x in order[i + 1..] ==> Independent(sets, x, order[i])
    ensures Run(txs, order, s) == txs(order[i])(Run(txs, order[..i] + order[i + 1..], s))
  {
    hide BlockStaysInside, Independent;
    hide Run;
    var m, before, after := order[i], order[..i], order[i + 1..];
    MovePast(txs, sets, m, after, Run(txs, before, s));
    assert order == before + ([m] + after);
    RunConcat(txs, before, [m] + after, s);
    RunLast(txs, after, m, Run(txs, before, s));
    RunConcat(txs, before, after, s);
  }

  /** The largest transaction of an order conflicts with none after it. */
  lemma LargestIsFree(sets: map<int, RWSet>, order: seq<int>, i: nat)
    requires RespectsConflicts(sets, order) && i < |order|
    requires forall k :: 0 <= k < |order| && k != i ==> order[k] < order[i]
    ensures forall x :: x in order[i + 1..] ==> Independent(sets, x, order[i])
  {
    hide Independent;
    forall x | x in order[i + 1..] ensures Independent(sets, x, order[i]) {
      var k :| i < k < |order| && order[k] == x;
      assert Independent(sets, order[i], order[k]);
      IndependentIsSymmetric(sets, order[i], x);
    }
  }

  /** The serializability theorem: any order that keeps conflicting pairs in
      block order gives the result of block order. */
  lemma {:induction false} ConflictOrderIsEnough(txs: Block, sets: map<int, RWSet>, block: seq<int>, order: seq<int>,
                                                s: State)
    requires BlockStaysInside(txs, sets)
    requires StrictlyAscending(block) && multiset(order) == multiset(block)
    requires RespectsConflicts(sets, order)
    ensures Run(txs, order, s) == Run(txs, block, s)
    decreases |block|
  {
    hide BlockStaysInside, Independent, RespectsConflicts;
    if block == [] {
      assert |multiset(order)| == 0;
    } else {
      var i := LastOfBlock(block, order);
      RemoveOne(block, order, i);
      RemovalRespects(sets, order, i);
      ConflictOrderIsEnough(txs, sets, block[..|block| - 1], order[..i] + order[i + 1..], s);
      LargestIsFree(sets, order, i);
      MoveToEnd(txs, sets, order, i, s);
    }
  }

  lemma IndependentIsSymmetric(sets: map<int, RWSet>, a: int, b: int)
    requires Independent(sets, a, b)
    ensures Independent(sets, b, a)
  {
    ConflictingIsSymmetric(sets[a], sets[b]);
  }

  // ----- waves -----

  ghost function Flatten(runs: seq<seq<int>>): seq<int> {
    if runs == [] then [] else Flatten(runs[..|runs| - 1]) + runs[|runs| - 1]
  }

  /** `runs` executes the waves in turn, each wave in an order of its own. */
  ghost predicate RunsWaves(runs: seq<seq<int>>, waves: seq<seq<int>>) {
    |runs| == |waves| && forall k :: 0 <= k < |runs| ==> multiset(runs[k]) == multiset(waves[k])
  }

  lemma {:induction false} FlattenMembers(runs: seq<seq<int>>, n: int)
    ensures n in Flatten(runs) <==> InSomeWave(runs, n)
  {
    if runs != [] {
      var front := runs[..|runs| - 1];
      FlattenMembers(front, n);
      if InSomeWave(runs, n) {
        var k :| 0 <= k < |runs| && n in runs[k];
        if k < |front| { assert n in front[k]; }
      }
      if InSomeWave(front, n) {
        var k :| 0 <= k < |front| && n in front[k];
        assert n in runs[k];
      }
    }
  }

  /** Where a position of the flattened run falls. */
  lemma {:induction false} FlattenPosition(runs: seq<seq<int>>, p: nat) returns (k: nat)
    requires p < |Flatten(runs)|
    ensures k < |runs| && Flatten(runs)[p] in runs[k]
    ensures |Flatten(runs[..k])| <= p < |Flatten(runs[..k + 1])|
  {
    var front := runs[..|runs| - 1];
    if p < |Flatten(front)| {
      k := FlattenPosition(front, p);
      assert front[..k] == runs[..k] && front[..k + 1] == runs[..k + 1];
    } else {
      k := |runs| - 1;
      assert runs[..k + 1] == runs;
      assert Flatten(runs)[p] == runs[k][p - |Flatten(front)|];
    }
  }

  lemma {:induction false} FlattenGrows(runs: seq<seq<int>>, i: nat, j: nat)
    requires i <= j <= |runs|
    ensures |Flatten(runs[..i])| <= |Flatten(runs[..j])|
    decreases j - i
  {
    if i < j {
      assert runs[..j][..j - 1] == runs[..j - 1];
      FlattenGrows(runs, i, j - 1);
    }
  }

  /** Positions in order come from waves in order. */
  lemma WavesInOrder(runs: seq<seq<int>>, p: nat, q: nat) returns (i: nat, j: nat)
    requires p < q < |Flatten(runs)|
    ensures i <= j < |runs| && Flatten(runs)[p] in runs[i] && Flatten(runs)[q] in runs[j]
  {
    i := FlattenPosition(runs, p);
    j := FlattenPosition(runs, q);
    if j < i { FlattenGrows(runs, j + 1, i); }
  }

  /** Each wave's members are in no other wave and listed once. */
  ghost predicate Partition(waves: seq<seq<int>>) {
    && (forall k :: 0 <= k < |waves| ==> Distinct(waves[k]))
    && (forall i, j, n :: 0 <= i < |waves| && 0 <= j < |waves| && n in waves[i] && n in waves[j] ==> i == j)
  }

  lemma {:induction false} FlattenIsDistinct(waves: seq<seq<int>>)
    requires Partition(waves)
    ensures Distinct(Flatten(waves))
  {
    if waves != [] {
      var front, last := waves[..|waves| - 1], waves[|waves| - 1];
      FlattenIsDistinct(front);
      forall n | n in Flatten(front) ensures n !in last {
        FlattenMembers(front, n);
        var k :| 0 <= k < |front| && n in front[k];
        assert n in waves[k];
      }
      var f := Flatten(waves);
      forall i, j | 0 <= i < j < |f| ensures f[i] != f[j] {
        if i < |Flatten(front)| <= j { assert f[i] in Flatten(front) && f[j] in last; }
      }
    }
  }

  /** The waves are a partition of the declared transactions in which the
      earlier transaction of every conflicting pair has the earlier wave. */
  ghost predicate WavePlan(sets: map<int, RWSet>, waves: seq<seq<int>>) {
    && Partition(waves)
    && (forall n :: n in sets <==> InSomeWave(waves, n))
    && (forall i, j, a, b | 0 <= i < |waves| && 0 <= j < |waves| && a in waves[i] && b in waves[j] ::
          a < b && !Independent(sets, a, b) ==> i < j)
  }

  /** Members and partition carry over to any order within each wave. */
  lemma RunsKeepPlan(sets: map<int, RWSet>, waves: seq<seq<int>>, runs: seq<seq<int>>)
    requires WavePlan(sets, waves) && RunsWaves(runs, waves)
    ensures WavePlan(sets, runs)
  {
    forall k, n | 0 <= k < |runs| ensures n in runs[k] <==> n in waves[k] {
      assert n in multiset(runs[k]) <==> n in multiset(waves[k]);
    }
    forall k | 0 <= k < |runs| ensures Distinct(runs[k]) {
      DistinctPermutation(waves[k], runs[k]);
    }
    forall n ensures InSomeWave(runs, n) <==> InSomeWave(waves, n) {
      if InSomeWave(runs, n) { var k :| 0 <= k < |runs| && n in runs[k]; assert n in waves[k]; }
      if InSomeWave(waves, n) { var k :| 0 <= k < |waves| && n in waves[k]; assert n in runs[k]; }
    }
  }

  lemma PlanRespectsConflicts(sets: map<int, RWSet>, waves: seq<seq<int>>)
    requires WavePlan(sets, waves)
    ensures RespectsConflicts(sets, Flatten(waves))
  {
    hide Conflicting;
    var f := Flatten(waves);
    forall p, q | 0 <= p < q < |f| && f[q] < f[p] ensures Independent(sets, f[p], f[q]) {
      var i, j := WavesInOrder(waves, p, q);
      if !Independent(sets, f[p], f[q]) {
        IndependentFlip(sets, f[p], f[q]);
      }
    }
  }

  lemma IndependentFlip(sets: map<int, RWSet>, a: int, b: int)
    ensures Independent(sets, a, b) <==> Independent(sets, b, a)
  {
    if a in sets && b in sets { ConflictingIsSymmetric(sets[a], sets[b]); }
  }

  lemma PlanListsBlock(sets: map<int, RWSet>, waves: seq<seq<int>>, block: seq<int>)
    requires WavePlan(sets, waves)
    requires StrictlyAscending(block) && Elems(block) == sets.Keys
    ensures multiset(Flatten(waves)) == multiset(block)
  {
    hide Independent;
    var f := Flatten(waves);
    FlattenIsDistinct(waves);
    forall n ensures multiset(f)[n] == multiset(block)[n] {
      DistinctMultiplicity(f, n);
      DistinctMultiplicity(block, n);
      FlattenMembers(waves, n);
      assert n in block <==> n in Elems(block);
    }
  }

  /** Running a plan's waves in order, each wave in any order, is running the
      declared transactions in block order. */
  lemma WavesAreSerializable(txs: Block, sets: map<int, RWSet>, waves: seq<seq<int>>, runs: seq<seq<int>>,
                             block: seq<int>, s: State)
    requires BlockStaysInside(txs, sets)
    requires WavePlan(sets, waves) && RunsWaves(runs, waves)
    requires StrictlyAscending(block) && Elems(block) == sets.Keys
    ensures Run(txs, Flatten(runs), s) == Run(txs, block, s)
  {
    hide BlockStaysInside, WavePlan, RespectsConflicts;
    RunsKeepPlan(sets, waves, runs);
    PlanRespectsConflicts(sets, runs);
    PlanListsBlock(sets, runs, block);
    ConflictOrderIsEnough(txs, sets, block, Flatten(runs), s);
  }

  // ----- transactions the access list does not mention -----

  const NOTHING: RWSet := RWSet({}, {}, {})

  /** Nothing declared, nothing done. */
  lemma IdleIsIdentity(tx: Transaction, s: State)
    requires StaysInside(tx, NOTHING)
    ensures tx(s) == s
  {
    forall l ensures Read(tx(s), l) == Read(s, l) {
      assert !InWriteSet(NOTHING, l);
    }
    SameState(tx(s), s);
  }

  ghost function DeclaredOf(full: seq<int>, sets: map<int, RWSet>): seq<int> {
    if full == [] then []
    else
      var n := full[|full| - 1];
      DeclaredOf(full[..|full| - 1], sets) + if n in sets then [n] else []
  }

  lemma {:induction false} DeclaredAscends(full: seq<int>, sets: map<int, RWSet>)
    requires StrictlyAscending(full)
    ensures StrictlyAscending(DeclaredOf(full, sets))
    ensures forall n :: n in DeclaredOf(full, sets) <==> n in full && n in sets
  {
    if full != [] {
      var front, last := full[..|full| - 1], full[|full| - 1];
      DeclaredAscends(front, sets);
      assert full == front + [last];
      var part := DeclaredOf(front, sets);
      forall i | 0 <= i < |part| ensures part[i] < last {
        var n := part[i];
        assert n in part && n in front;
      }
    }
  }

  /** The whole block runs like its declared transactions alone. */
  lemma {:induction false} UndeclaredDropOut(txs: Block, sets: map<int, RWSet>, full: seq<int>, s: State)
    requires forall n :: n in full && n !in sets ==> StaysInside(txs(n), NOTHING)
    ensures Run(txs, full, s) == Run(txs, DeclaredOf(full, sets), s)
  {
    hide StaysInside;
    if full != [] {
      var front, last := full[..|full| - 1], full[|full| - 1];
      UndeclaredDropOut(txs, sets, front, s);
      assert last in full;
      if last in sets {
        RunLast(txs, DeclaredOf(front, sets), last, s);
      } else {
        IdleIsIdentity(txs(last), Run(txs, front, s));
        assert DeclaredOf(full, sets) == DeclaredOf(front, sets);
      }
    }
  }

  /** The full statement: the planned waves, each in any order, end in the state
      of the whole block in order, mentioned or not. */
  lemma PlannedRunIsBlockOrder(txs: Block, sets: map<int, RWSet>, waves: seq<seq<int>>, runs: seq<seq<int>>,
                               full: seq<int>, s: State)
    requires BlockStaysInside(txs, sets)
    requires forall n :: n in full && n !in sets ==> StaysInside(txs(n), NOTHING)
    requires WavePlan(sets, waves) && RunsWaves(runs, waves)
    requires StrictlyAscending(full) && sets.Keys <= Elems(full)
    ensures Run(txs, Flatten(runs), s) == Run(txs, full, s)
  {
    hide BlockStaysInside, StaysInside, WavePlan, StrictlyAscending;
    UndeclaredDropOut(txs, sets, full, s);
    DeclaredAscends(full, sets);
    var block := DeclaredOf(full, sets);
    assert Elems(block) == sets.Keys by {
      forall n ensures n in Elems(block) <==> n in sets {
        assert n in full <==> n in Elems(full);
      }
    }
    WavesAreSerializable(txs, sets, waves, runs, block, s);
  }

  // ----- one wave at once -----

  ghost predicate AllIndependent(sets: map<int, RWSet>, wave: seq<int>) {
    forall i, j :: 0 <= i < j < |wave| ==> Independent(sets, wave[i], wave[j])
  }

  lemma WaveIsIndependent(sets: map<int, RWSet>, waves: seq<seq<int>>, k: nat)
    requires WavePlan(sets, waves) && k < |waves|
    ensures AllIndependent(sets, waves[k])
  {
    var wave := waves[k];
    forall i, j | 0 <= i < j < |wave| ensures Independent(sets, wave[i], wave[j]) {
      var a, b := wave[i], wave[j];
      assert a in wave && b in wave && a != b;
      IndependentFlip(sets, a, b);
    }
  }

  /** A transaction of the wave still sees its footprint as it was at the start. */
  lemma {:induction false} SeesSnapshot(txs: Block, sets: map<int, RWSet>, others: seq<int>, x: int, s: State)
    requires BlockStaysInside(txs, sets) && x in sets
    requires forall y :: y in others ==> Independent(sets, y, x)
    ensures AgreeOnFootprint(sets[x], Run(txs, others, s), s)
  {
    if others != [] {
      var front, y := others[..|others| - 1], others[|others| - 1];
      SeesSnapshot(txs, sets, front, x, s);
      assert y in others && Independent(sets, y, x);
      hide Conflicting, StaysInside, InFootprint;
      UnaffectedBy(txs(y), sets[y], sets[x], Run(txs, front, s));
    }
  }

  /** Running a wave one after the other gives what running all its members at
      once against the state before the wave gives: each location it writes has
      the value its one writer computes from that state. */
  lemma {:induction false} WaveRunsAtOnce(txs: Block, sets: map<int, RWSet>, wave: seq<int>, s: State, l: Location)
    requires BlockStaysInside(txs, sets)
    requires AllIndependent(sets, wave) && forall n :: n in wave ==> n in sets
    ensures forall a :: a in wave && InWriteSet(sets[a], l) ==> Read(Run(txs, wave, s), l) == Read(txs(a)(s), l)
    ensures (forall a :: a in wave ==> !InWriteSet(sets[a], l)) ==> Read(Run(txs, wave, s), l) == Read(s, l)
  {
    if wave != [] {
      var front, x := wave[..|wave| - 1], wave[|wave| - 1];
      assert x in wave && x in sets;
      assert forall n :: n in wave <==> n in front || n == x;
      forall i, j | 0 <= i < j < |front| ensures Independent(sets, front[i], front[j]) {
        assert Independent(sets, wave[i], wave[j]);
      }
      forall y | y in front ensures Independent(sets, y, x) {
        var i :| 0 <= i < |front| && front[i] == y;
        assert Independent(sets, wave[i], wave[|wave| - 1]);
      }
      WaveRunsAtOnce(txs, sets, front, s, l);
      SeesSnapshot(txs, sets, front, x, s);
      LastWriter(txs, sets, front, x, s, l);
    }
  }

  lemma LastWriter(txs: Block, sets: map<int, RWSet>, front: seq<int>, x: int, s: State, l: Location)
    requires BlockStaysInside(txs, sets) && x in sets
    requires forall y :: y in front ==> Independent(sets, y, x)
    requires AgreeOnFootprint(sets[x], Run(txs, front, s), s)
    ensures var t := Run(txs, front, s);
            if InWriteSet(sets[x], l) then
              && Read(txs(x)(t), l) == Read(txs(x)(s), l)
              && forall a :: a in front ==> a in sets && !InWriteSet(sets[a], l)
            else Read(txs(x)(t), l) == Read(t, l)
  {
    assert StaysInside(txs(x), sets[x]);
    hide BlockStaysInside, AgreeOnFootprint;
    if InWriteSet(sets[x], l) {
      forall a | a in front ensures a in sets && !InWriteSet(sets[a], l) {
        assert Independent(sets, a, x);
      }
    }
  }
}
