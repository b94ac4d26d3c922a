/** Colour groups are free of conflicts and determined by the access list, but
    they keep block order only under a condition on the conflicts: exactly when
    each transaction's colour is its level. */
module ColourOrder {
  import opened Collections
  import opened DependencyGraphs
  import opened BalConflicts
  import opened WaveLevels
  import opened Colouring
  import opened Serializability
  import opened AccessFootprints

  // ----- the group of a transaction -----

  ghost function GroupIndex(m: map<int, TxAccess>, groups: seq<seq<int>>): (r: map<int, nat>)
    requires EachOnce(m, groups)
    ensures r.Keys == m.Keys && forall x :: x in m ==> r[x] < |groups| && x in groups[r[x]]
  {
    map x | x in m :: var g :| 0 <= g < |groups| && x in groups[g]; g
  }

  lemma IndexOfMember(m: map<int, TxAccess>, groups: seq<seq<int>>, g: int, x: int)
    requires EachOnce(m, groups) && 0 <= g < |groups|
    ensures x in groups[g] <==> x in m && GroupIndex(m, groups)[x] == g
  {
    hide StrictlyAscending;
  }

  /** Two transactions of one group do not clash. */
  lemma SameGroupNoClash(m: map<int, TxAccess>, groups: seq<seq<int>>, x: int, y: int)
    requires ParallelGroups(m, groups) && x in m && y in m && x != y
    requires GroupIndex(m, groups)[x] == GroupIndex(m, groups)[y]
    ensures !Clash(m[x], m[y])
  {
    hide Clash, MeetsEarlier, FewGroups, EachOnce;
  }

  /** In every group before its own, a transaction clashes with an earlier one. */
  lemma EarlierClash(m: map<int, TxAccess>, groups: seq<seq<int>>, x: int, k: nat) returns (y: int)
    requires ParallelGroups(m, groups) && x in m && k < GroupIndex(m, groups)[x]
    ensures y in m && y < x && Clash(m[x], m[y]) && GroupIndex(m, groups)[y] == k
  {
    hide Clash, ConflictFree, FewGroups, EachOnce;
    var g := GroupIndex(m, groups)[x];
    assert ClashesWithin(m, x, groups[k]);
    y :| y in groups[k] && y in m && y < x && Clash(m[x], m[y]);
    IndexOfMember(m, groups, k, y);
  }

  ghost function Earlier(m: map<int, TxAccess>, x: int): set<int> {
    set y | y in m && y < x
  }

  lemma EarlierShrinks(m: map<int, TxAccess>, y: int, x: int)
    requires y in m && y < x
    ensures |Earlier(m, y)| < |Earlier(m, x)|
  {
    assert y in Earlier(m, x) && y !in Earlier(m, y);
    SubsetCardinality(Earlier(m, y) + {y}, Earlier(m, x));
  }

  /** Two groupings agree on every transaction. */
  lemma {:induction false} SameIndex(m: map<int, TxAccess>, a: seq<seq<int>>, b: seq<seq<int>>, x: int)
    requires ParallelGroups(m, a) && ParallelGroups(m, b) && x in m
    ensures GroupIndex(m, a)[x] == GroupIndex(m, b)[x]
    decreases |Earlier(m, x)|, 1
  {
    hide ParallelGroups, Earlier, GroupIndex;
    IndexNotBelow(m, a, b, x);
    IndexNotBelow(m, b, a, x);
  }

  lemma {:induction false} IndexNotBelow(m: map<int, TxAccess>, a: seq<seq<int>>, b: seq<seq<int>>, x: int)
    requires ParallelGroups(m, a) && ParallelGroups(m, b) && x in m
    ensures GroupIndex(m, a)[x] >= GroupIndex(m, b)[x]
    decreases |Earlier(m, x)|, 0
  {
    hide Earlier, Clash, GroupIndex, EachOnce, ConflictFree, MeetsEarlier, FewGroups;
    var k := GroupIndex(m, a)[x];
    if k < GroupIndex(m, b)[x] {
      var y := EarlierClash(m, b, x, k);
      EarlierShrinks(m, y, x);
      SameIndex(m, a, b, y);
      SameGroupNoClash(m, a, x, y);
    }
  }

  lemma GroupsFill(m: map<int, TxAccess>, groups: seq<seq<int>>, g: nat) returns (x: int)
    requires ParallelGroups(m, groups) && g < |groups|
    ensures x in m && GroupIndex(m, groups)[x] == g
  {
    x := groups[g][0];
    assert x in groups[g];
    IndexOfMember(m, groups, g, x);
  }

  /** The grouping is the only one with its properties. */
  lemma GroupsAreUnique(m: map<int, TxAccess>, a: seq<seq<int>>, b: seq<seq<int>>)
    requires ParallelGroups(m, a) && ParallelGroups(m, b)
    ensures a == b
  {
    hide GroupIndex, ConflictFree, MeetsEarlier, FewGroups;
    if |a| < |b| {
      var x := GroupsFill(m, b, |a|);
      SameIndex(m, a, b, x);
    } else if |b| < |a| {
      var x := GroupsFill(m, a, |b|);
      SameIndex(m, a, b, x);
    } else {
      forall g | 0 <= g < |a| ensures a[g] == b[g] {
        forall x ensures x in a[g] <==> x in b[g] {
          IndexOfMember(m, a, g, x);
          IndexOfMember(m, b, g, x);
          if x in m { SameIndex(m, a, b, x); }
        }
        AscendingIsDetermined(a[g], b[g]);
      }
    }
  }

  // ----- levels of the clashes -----

  ghost function Listed(s: set<int>): (r: seq<int>)
    ensures forall x :: x in r <==> x in s
  {
    if x :| x in s then [x] + Listed(s - {x}) else []
  }

  ghost function EarlierClashes(m: map<int, TxAccess>, b: int): set<int>
    requires b in m
  {
    set a | a in m && a < b && Clash(m[a], m[b])
  }

  /** Each transaction waits for the earlier ones it clashes with. */
  ghost function ClashGraph(m: map<int, TxAccess>): Graph {
    map b | b in m :: Listed(EarlierClashes(m, b))
  }

  lemma ClashEdges(m: map<int, TxAccess>, a: int, b: int)
    ensures a in Deps(ClashGraph(m), b) <==> a in m && b in m && a < b && Clash(m[a], m[b])
  {
    hide Clash;
  }

  lemma ClashNodes(m: map<int, TxAccess>, x: int)
    requires x in m
    ensures x in Nodes(ClashGraph(m))
  {
  }

  /** Conflicting transactions run in block order. */
  ghost predicate KeepsOrder(m: map<int, TxAccess>, groups: seq<seq<int>>)
    requires EachOnce(m, groups)
  {
    forall a, b :: a in m && b in m && a < b && Clash(m[a], m[b]) ==>
                     GroupIndex(m, groups)[a] < GroupIndex(m, groups)[b]
  }

  /** Some earlier transaction of level `j` clashes with `b`. */
  ghost predicate ClashesAtLevel(m: map<int, TxAccess>, b: int, j: nat) {
    exists a :: a in Deps(ClashGraph(m), b) && Longest(ClashGraph(m), a, j)
  }

  /** Every transaction clashes directly with an earlier one of each smaller
      level. */
  ghost predicate LevelsAreDirect(m: map<int, TxAccess>) {
    forall b, k: nat, j: nat :: b in m && Longest(ClashGraph(m), b, k) && j < k ==> ClashesAtLevel(m, b, j)
  }

  /** Every transaction's group is its level. */
  ghost predicate GroupsAreLevels(m: map<int, TxAccess>, groups: seq<seq<int>>)
    requires EachOnce(m, groups)
  {
    forall x :: x in m ==> Longest(ClashGraph(m), x, GroupIndex(m, groups)[x])
  }

  /** The level of a transaction from those of the earlier ones it clashes with. */
  lemma LevelOfGroup(m: map<int, TxAccess>, groups: seq<seq<int>>, x: int)
    requires ParallelGroups(m, groups) && x in m
    requires forall d :: d in Deps(ClashGraph(m), x) ==>
                           d in m && Longest(ClashGraph(m), d, GroupIndex(m, groups)[d])
                           && GroupIndex(m, groups)[d] < GroupIndex(m, groups)[x]
    ensures Longest(ClashGraph(m), x, GroupIndex(m, groups)[x])
  {
    hide Clash, Longest, ClashGraph, GroupIndex, EachOnce, ConflictFree, MeetsEarlier, FewGroups;
    var level := GroupIndex(m, groups);
    ClashNodes(m, x);
    if level[x] > 0 {
      var y := EarlierClash(m, groups, x, level[x] - 1);
      ClashEdges(m, y, x);
      ClashIsSymmetric(m, x, y);
      assert y in Deps(ClashGraph(m), x);
    }
    LongestStep(ClashGraph(m), x, level, level[x]);
  }

  lemma {:induction false} OrderGivesLevel(m: map<int, TxAccess>, groups: seq<seq<int>>, x: int)
    requires ParallelGroups(m, groups) && KeepsOrder(m, groups) && x in m
    ensures Longest(ClashGraph(m), x, GroupIndex(m, groups)[x])
    decreases |Earlier(m, x)|
  {
    hide Clash, Longest, ClashGraph, GroupIndex, EachOnce, ConflictFree, MeetsEarlier, FewGroups, Earlier;
    forall d | d in Deps(ClashGraph(m), x)
      ensures d in m && Longest(ClashGraph(m), d, GroupIndex(m, groups)[d])
              && GroupIndex(m, groups)[d] < GroupIndex(m, groups)[x]
    {
      ClashEdges(m, d, x);
      EarlierShrinks(m, d, x);
      OrderGivesLevel(m, groups, d);
    }
    LevelOfGroup(m, groups, x);
  }

  /** The largest group among the earlier clashes, plus one. */
  lemma {:induction false} TopOf(level: map<int, nat>, deps: seq<int>) returns (k: nat)
    requires forall d :: d in deps ==> d in level
    ensures forall d :: d in deps ==> level[d] < k
    ensures k == 0 || exists d :: d in deps && level[d] == k - 1
  {
    if deps == [] {
      k := 0;
    } else {
      var front, last := deps[..|deps| - 1], deps[|deps| - 1];
      assert deps == front + [last];
      var j := TopOf(level, front);
      if level[last] < j {
        k := j;
        var d :| d in front && level[d] == k - 1;
        assert d in deps;
      } else {
        k := level[last] + 1;
        assert last in deps;
      }
    }
  }

  lemma {:induction false} DirectGivesLevel(m: map<int, TxAccess>, groups: seq<seq<int>>, x: int)
    requires ParallelGroups(m, groups) && LevelsAreDirect(m) && x in m
    ensures Longest(ClashGraph(m), x, GroupIndex(m, groups)[x])
    decreases |Earlier(m, x)|
  {
    hide Clash, Longest, ClashGraph, GroupIndex, EachOnce, ConflictFree, MeetsEarlier, FewGroups, Earlier,
         ClashesAtLevel;
    var g, level := ClashGraph(m), GroupIndex(m, groups);
    forall d | d in Deps(g, x) ensures d in m && Longest(g, d, level[d]) {
      ClashEdges(m, d, x);
      EarlierShrinks(m, d, x);
      DirectGivesLevel(m, groups, d);
    }
    var k := TopOf(level, Deps(g, x));
    ClashNodes(m, x);
    LongestStep(g, x, level, k);
    LevelNotTaken(m, groups, x);
    if level[x] > k {
      var y := EarlierClash(m, groups, x, k);
      ClashIsSymmetric(m, x, y);
      ClashEdges(m, y, x);
    }
  }

  /** A transaction does not clash with an earlier one whose level is its group. */
  lemma LevelNotTaken(m: map<int, TxAccess>, groups: seq<seq<int>>, x: int)
    requires ParallelGroups(m, groups) && x in m
    requires forall d :: d in Deps(ClashGraph(m), x) ==> d in m && Longest(ClashGraph(m), d, GroupIndex(m, groups)[d])
    ensures !ClashesAtLevel(m, x, GroupIndex(m, groups)[x])
  {
    hide Clash, Longest, ClashGraph, GroupIndex, EachOnce, ConflictFree, MeetsEarlier, FewGroups;
    var k := GroupIndex(m, groups)[x];
    if a :| a in Deps(ClashGraph(m), x) && Longest(ClashGraph(m), a, k) {
      LongestIsUnique(ClashGraph(m), a, k, GroupIndex(m, groups)[a]);
      ClashEdges(m, a, x);
      SameGroupNoClash(m, groups, a, x);
    }
  }

  lemma LevelsKeepOrder(m: map<int, TxAccess>, groups: seq<seq<int>>)
    requires ParallelGroups(m, groups) && GroupsAreLevels(m, groups)
    ensures KeepsOrder(m, groups)
  {
    hide Clash, Longest, ClashGraph, GroupIndex, EachOnce, ConflictFree, MeetsEarlier, FewGroups;
    forall a, b | a in m && b in m && a < b && Clash(m[a], m[b])
      ensures GroupIndex(m, groups)[a] < GroupIndex(m, groups)[b]
    {
      ClashEdges(m, a, b);
      DependencyIsDeeper(ClashGraph(m), a, b, GroupIndex(m, groups)[a], GroupIndex(m, groups)[b]);
    }
  }

  lemma LevelsAreSeen(m: map<int, TxAccess>, groups: seq<seq<int>>)
    requires ParallelGroups(m, groups) && GroupsAreLevels(m, groups)
    ensures LevelsAreDirect(m)
  {
    hide Clash, Longest, ClashGraph, GroupIndex, EachOnce, ConflictFree, MeetsEarlier, FewGroups;
    forall b, k: nat, j: nat | b in m && Longest(ClashGraph(m), b, k) && j < k ensures ClashesAtLevel(m, b, j) {
      LongestIsUnique(ClashGraph(m), b, k, GroupIndex(m, groups)[b]);
      var y := EarlierClash(m, groups, b, j);
      ClashIsSymmetric(m, b, y);
      ClashEdges(m, y, b);
    }
  }

  /** The groups run conflicting transactions in block order if and only if
      every transaction clashes directly with an earlier one of each smaller
      level, that is, if and only if the groups are the levels. */
  lemma OrderKeptExactlyWhen(m: map<int, TxAccess>, groups: seq<seq<int>>)
    requires ParallelGroups(m, groups)
    ensures KeepsOrder(m, groups) <==> LevelsAreDirect(m)
    ensures KeepsOrder(m, groups) <==> GroupsAreLevels(m, groups)
  {
    hide LevelsAreDirect, KeepsOrder, Longest, ClashGraph, GroupIndex, EachOnce, ConflictFree, MeetsEarlier, FewGroups;
    if KeepsOrder(m, groups) {
      forall x | x in m ensures Longest(ClashGraph(m), x, GroupIndex(m, groups)[x]) { OrderGivesLevel(m, groups, x); }
      LevelsAreSeen(m, groups);
    }
    if LevelsAreDirect(m) {
      forall x | x in m ensures Longest(ClashGraph(m), x, GroupIndex(m, groups)[x]) { DirectGivesLevel(m, groups, x); }
      LevelsKeepOrder(m, groups);
    }
    if GroupsAreLevels(m, groups) { LevelsKeepOrder(m, groups); }
  }

  // ----- running the groups -----

  lemma GroupsArePlan(entries: seq<AccessEntry>, groups: seq<seq<int>>)
    requires ParallelGroups(DeclaredAccess(entries), groups) && KeepsOrder(DeclaredAccess(entries), groups)
    ensures WavePlan(DeclaredSets(entries), groups)
  {
    hide DeclaredSets, Clash, GroupIndex, Conflicting, ConflictFree, MeetsEarlier, FewGroups;
    var sets, m := DeclaredSets(entries), DeclaredAccess(entries);
    forall i, j, a, b | 0 <= i < |groups| && 0 <= j < |groups| && a in groups[i] && b in groups[j]
                        && a < b && !Independent(sets, a, b)
      ensures i < j
    {
      IndexOfMember(m, groups, i, a);
      IndexOfMember(m, groups, j, b);
      assert Conflicting(sets[a], sets[b]);
      ClashIsConflictOrZeroSlot(sets[a], sets[b], m[a], m[b]);
    }
    forall n ensures n in sets <==> InSomeWave(groups, n) { assert n in sets <==> n in m; }
  }

  /** Where levels are direct, running the groups of `ComputeParallelSets` one
      after the other, each in any order, ends in the state of the block. */
  lemma GroupsRunBlockOrder(entries: seq<AccessEntry>, groups: seq<seq<int>>, txs: Block, runs: seq<seq<int>>,
                            full: seq<int>, s: State)
    requires ParallelGroups(DeclaredAccess(entries), groups) && LevelsAreDirect(DeclaredAccess(entries))
    requires BlockFollows(txs, entries, full) && RunsWaves(runs, groups)
    ensures Run(txs, Flatten(runs), s) == Run(txs, full, s)
  {
    BlockFollowsStaysInside(txs, entries, full);
    hide DeclaredSets, DeclaredAccess, LevelsAreDirect, StaysInside, BlockStaysInside, WavePlan, Run, Flatten,
         RunsWaves, KeepsOrder, StrictlyAscending, FollowsList, OwnEntry;
    OrderKeptExactlyWhen(DeclaredAccess(entries), groups);
    GroupsArePlan(entries, groups);
    PlannedRunIsBlockOrder(txs, DeclaredSets(entries), groups, runs, full, s);
  }

  // ----- an access list whose groups do not keep block order -----

  const A := SlotLocation(1, 1)
  const B := SlotLocation(1, 2)

  ghost function Writes(i: AccessIndex, slots: seq<Slot>): AccessEntry {
    AccessEntry(1, i, [], slots, false, false, false)
  }

  /** The first writes A, the second A and B, the third B. */
  ghost function ThreeWriters(): seq<AccessEntry> {
    [Writes(1, [1]), Writes(2, [1, 2]), Writes(3, [2])]
  }

  ghost function Footprint(n: int): RWSet {
    RWSet({}, if n == 0 then {A} else if n == 1 then {A, B} else {B}, {})
  }

  ghost function Sets(): map<int, RWSet> {
    map n | n in {0, 1, 2} :: Footprint(n)
  }

  lemma EntryOf(n: int)
    requires 0 <= n < 3
    ensures forall e :: e in ThreeWriters() && Belongs(e, n) <==> e == ThreeWriters()[n]
  {
    var entries := ThreeWriters();
    assert entries[0] in entries && entries[1] in entries && entries[2] in entries;
    forall e | e in entries ensures e == entries[0] || e == entries[1] || e == entries[2] {}
  }

  lemma FootprintIsDeclared(n: int, loc: SlotLocation)
    requires 0 <= n < 3
    ensures Declared(ThreeWriters(), n) && !DeclaresRead(ThreeWriters(), n, loc)
    ensures forall a :: !DeclaresAccount(ThreeWriters(), n, a)
    ensures DeclaresWrite(ThreeWriters(), n, loc) <==> loc in Footprint(n).writeSet
  {
    EntryOf(n);
    var e := ThreeWriters()[n];
    assert e in ThreeWriters() && Belongs(e, n);
    hide ThreeWriters;
    assert e.storageReads == [] && !ChangesAccount(e) && e.address == 1;
    assert loc in Footprint(n).writeSet <==> loc.addr == 1 && loc.slot in e.storageChanges;
  }

  lemma OnlyThreeDeclared(n: int)
    ensures Declared(ThreeWriters(), n) <==> n in {0, 1, 2}
  {
    var entries := ThreeWriters();
    if n in {0, 1, 2} { FootprintIsDeclared(n, A); }
    if e :| e in entries && Belongs(e, n) {
      assert e == entries[0] || e == entries[1] || e == entries[2];
    }
  }

  lemma DeclaredFootprints()
    ensures DeclaredSets(ThreeWriters()) == Sets()
  {
    hide Footprint, ThreeWriters, Declared, DeclaresRead, DeclaresWrite, DeclaresAccount;
    var entries := ThreeWriters();
    assert SetsOf(entries, Sets()) by {
      forall n ensures n in Sets() <==> Declared(entries, n) { OnlyThreeDeclared(n); }
      forall n, loc | n in Sets()
        ensures (loc in Sets()[n].readSet <==> DeclaresRead(entries, n, loc))
                && (loc in Sets()[n].writeSet <==> DeclaresWrite(entries, n, loc))
      {
        FootprintIsDeclared(n, loc);
        OnlyWrites(n);
      }
      forall n, a | n in Sets() ensures a in Sets()[n].accountWrites <==> DeclaresAccount(entries, n, a) {
        FootprintIsDeclared(n, A);
        OnlyWrites(n);
      }
    }
    hide SetsOf;
    SetsAreUnique(entries, Sets(), DeclaredSets(entries));
  }

  lemma OnlyWrites(n: int)
    ensures Footprint(n).readSet == {} && Footprint(n).accountWrites == {}
  {
  }

  lemma FootprintAccess(n: int)
    ensures AccessFor(Footprint(n)) == TxAccess({}, if n == 0 then {A} else if n == 1 then {A, B} else {B})
  {
    assert AccessFor(Footprint(n)).writeSet == Footprint(n).writeSet;
  }

  lemma AccessOfThree(n: int)
    ensures DeclaredAccess(ThreeWriters()).Keys == {0, 1, 2}
    ensures n in {0, 1, 2} ==> DeclaredAccess(ThreeWriters())[n] == AccessFor(Footprint(n))
  {
    DeclaredFootprints();
    hide ThreeWriters, DeclaredSets, AccessFor, Footprint;
  }

  lemma FootprintsClash()
    ensures Clash(TxAccess({}, {A}), TxAccess({}, {A, B})) && Clash(TxAccess({}, {A, B}), TxAccess({}, {B}))
    ensures !Clash(TxAccess({}, {A}), TxAccess({}, {B}))
  {
    assert A in {A} && A in {A, B} && B in {A, B} && B in {B};
  }

  lemma MiddleClashesWithBoth()
    ensures var m := DeclaredAccess(ThreeWriters());
            && m.Keys == {0, 1, 2} && Clash(m[0], m[1]) && Clash(m[1], m[2]) && !Clash(m[0], m[2])
  {
    hide DeclaredAccess, ThreeWriters, AccessFor, Clash, Footprint;
    FootprintsClash();
    forall n | n in {0, 1, 2}
      ensures DeclaredAccess(ThreeWriters()).Keys == {0, 1, 2}
      ensures DeclaredAccess(ThreeWriters())[n] == TxAccess({}, if n == 0 then {A} else if n == 1 then {A, B} else {B})
    {
      AccessOfThree(n);
      FootprintAccess(n);
    }
    AccessOfThree(0);
  }

  /** The only grouping `ComputeParallelSets` can return puts the third
      transaction before the second. */
  lemma ThreeWritersAreGrouped(groups: seq<seq<int>>)
    requires ParallelGroups(DeclaredAccess(ThreeWriters()), groups)
    ensures groups == [[0, 2], [1]]
  {
    var m := DeclaredAccess(ThreeWriters());
    MiddleClashesWithBoth();
    hide DeclaredAccess, ThreeWriters;
    GroupsAreParallel(m);
    GroupsAreUnique(m, groups, [[0, 2], [1]]);
  }

  lemma GroupsAreParallel(m: map<int, TxAccess>)
    requires m.Keys == {0, 1, 2} && Clash(m[0], m[1]) && Clash(m[1], m[2]) && !Clash(m[0], m[2])
    ensures ParallelGroups(m, [[0, 2], [1]])
  {
    var groups := [[0, 2], [1]];
    hide Clash, EachOnce;
    ClashIsSymmetric(m, 0, 2);
    ClashIsSymmetric(m, 0, 1);
    GroupsListEachOnce(m);
    assert ClashesWithin(m, 1, groups[0]) by { assert 0 in groups[0]; }
    forall most: nat | DegreesWithin(m, most) ensures |groups| <= most + 1 {
      assert 0 in Neighbours(m, 1);
      assert |Neighbours(m, 1)| >= 1;
    }
  }

  lemma TwoGroupsEachOnce(m: map<int, TxAccess>, first: seq<int>, second: seq<int>)
    requires first != [] && second != [] && StrictlyAscending(first) && StrictlyAscending(second)
    requires forall x :: x in m <==> x in first || x in second
    requires forall x :: x in first ==> x !in second
    ensures EachOnce(m, [first, second])
  {
    hide StrictlyAscending;
    var groups := [first, second];
    forall x | x in m ensures exists g :: 0 <= g < |groups| && x in groups[g] {
      assert x in groups[if x in second then 1 else 0];
    }
  }

  lemma GroupsListEachOnce(m: map<int, TxAccess>)
    requires m.Keys == {0, 1, 2}
    ensures EachOnce(m, [[0, 2], [1]])
  {
    hide EachOnce;
    var first, second := [0, 2], [1];
    assert forall x :: x in first <==> x == 0 || x == 2;
    assert forall x :: x in second <==> x == 1;
    TwoGroupsEachOnce(m, first, second);
  }

  /** Each writes its own index. */
  ghost function Writer(n: int): Transaction {
    (s: State) => if n == 0 then s[Storage(A) := n] else if n == 1 then s[Storage(A) := n][Storage(B) := n]
                  else s[Storage(B) := n]
  }

  ghost function Writers(): Block {
    n => Writer(n)
  }

  lemma BlockIsInside()
    ensures BlockStaysInside(Writers(), Sets())
  {
    forall n ensures StaysInside(Writer(n), Footprint(n)) { WritersStayInside(n); }
    hide StaysInside, Footprint, Writer;
  }

  lemma WritersStayInside(n: int)
    ensures StaysInside(Writer(n), Footprint(n))
  {
  }

  /** Block order leaves 2 in B, the groups leave 1. */
  lemma RunsDiffer()
    ensures Run(Writers(), [0, 2, 1], map[]) != Run(Writers(), [0, 1, 2], map[])
  {
    RunThree(Writers(), 0, 2, 1);
    RunThree(Writers(), 0, 1, 2);
    hide Run;
    assert Run(Writers(), [0, 2, 1], map[])[Storage(B)] == 1;
    assert Run(Writers(), [0, 1, 2], map[])[Storage(B)] == 2;
  }

  lemma GroupsDoNotKeepBlockOrder(groups: seq<seq<int>>)
    requires ParallelGroups(DeclaredAccess(ThreeWriters()), groups)
    ensures BlockStaysInside(Writers(), DeclaredSets(ThreeWriters()))
    ensures Run(Writers(), Flatten(groups), map[]) != Run(Writers(), [0, 1, 2], map[])
  {
    hide ParallelGroups, BlockStaysInside, Run, Writers, Sets, DeclaredAccess, Flatten, DeclaredSets, ThreeWriters;
    DeclaredFootprints();
    BlockIsInside();
    ThreeWritersAreGrouped(groups);
    RunsDiffer();
    FlattenTwo([0, 2], [1]);
    assert [0, 2] + [1] == [0, 2, 1];
  }

  lemma FlattenTwo(a: seq<int>, b: seq<int>)
    ensures Flatten([a, b]) == a + b
  {
    assert [a, b][..1] == [a] && [a][..0] == [];
    assert Flatten([a]) == a;
  }

  lemma RunThree(txs: Block, a: int, b: int, c: int)
    ensures Run(txs, [a, b, c], map[]) == txs(c)(txs(b)(txs(a)(map[])))
  {
    RunLast(txs, [], a, map[]);
    RunLast(txs, [a], b, map[]);
    RunLast(txs, [a, b], c, map[]);
    assert [] + [a] == [a] && [a] + [b] == [a, b] && [a, b] + [c] == [a, b, c];
  }
}
