/** Block access lists, the per-transaction read/write sets extracted from
    them, pairwise conflict detection and the dependency graph it induces. */
module BalConflicts {
  import opened Collections
  import opened DependencyGraphs

  type Address = nat
  type Slot = nat

  const ZERO_SLOT: Slot := 0

  datatype SlotLocation = SlotLocation(addr: Address, slot: Slot)

  type AccessIndex = a: nat | a < TWO_64

  /** One entry of a block access list. The recorded values play no part in
      conflict analysis; a change field is true when the source holds one. */
  datatype AccessEntry = AccessEntry(
    address: Address,
    accessIndex: AccessIndex,
    storageReads: seq<Slot>,
    storageChanges: seq<Slot>,
    balanceChange: bool,
    nonceChange: bool,
    codeChange: bool)

  /** `int(index) - 1` in 64-bit two's complement. */
  function TxIndexOf(a: AccessIndex): int {
    if a == TWO_63 then TWO_63 - 1 else if a > TWO_63 then a - TWO_64 - 1 else a - 1
  }

  /** Different access indices other than 0 are different transactions. */
  lemma TxIndexIsInjective(a: AccessIndex, b: AccessIndex)
    requires TxIndexOf(a) == TxIndexOf(b)
    ensures a == b
  {
  }

  datatype RWSet = RWSet(readSet: set<SlotLocation>, writeSet: set<SlotLocation>, accountWrites: set<Address>)

  // ----- what an access list declares -----

  predicate Belongs(e: AccessEntry, tx: int) {
    e.accessIndex != 0 && TxIndexOf(e.accessIndex) == tx
  }

  predicate ChangesAccount(e: AccessEntry) {
    e.balanceChange || e.nonceChange || e.codeChange
  }

  ghost predicate Declared(entries: seq<AccessEntry>, tx: int) {
    exists e :: e in entries && Belongs(e, tx)
  }

  ghost predicate DeclaresRead(entries: seq<AccessEntry>, tx: int, loc: SlotLocation) {
    exists e :: e in entries && Belongs(e, tx) && loc.addr == e.address && loc.slot in e.storageReads
  }

  ghost predicate DeclaresWrite(entries: seq<AccessEntry>, tx: int, loc: SlotLocation) {
    exists e :: e in entries && Belongs(e, tx) && loc.addr == e.address && loc.slot in e.storageChanges
  }

  ghost predicate DeclaresAccount(entries: seq<AccessEntry>, tx: int, addr: Address) {
    exists e :: e in entries && Belongs(e, tx) && addr == e.address && ChangesAccount(e)
  }

  /** The sets hold exactly what the entries of each transaction declare. */
  ghost predicate SetsOf(entries: seq<AccessEntry>, sets: map<int, RWSet>) {
    && (forall tx :: tx in sets <==> Declared(entries, tx))
    && (forall tx, loc :: tx in sets ==> (loc in sets[tx].readSet <==> DeclaresRead(entries, tx, loc)))
    && (forall tx, loc :: tx in sets ==> (loc in sets[tx].writeSet <==> DeclaresWrite(entries, tx, loc)))
    && (forall tx, a :: tx in sets ==> (a in sets[tx].accountWrites <==> DeclaresAccount(entries, tx, a)))
  }

  method LocationsOf(addr: Address, slots: seq<Slot>) returns (locs: set<SlotLocation>)
    ensures forall loc :: loc in locs <==> loc.addr == addr && loc.slot in slots
  {
    locs := {};
    for i := 0 to |slots|
      invariant forall loc :: loc in locs <==> loc.addr == addr && loc.slot in slots[..i]
    {
      locs := locs + {SlotLocation(addr, slots[i])};
    }
    assert slots[..|slots|] == slots;
  }

  /** Adds one entry to its transaction's sets. */
  method AddEntry(rw: RWSet, e: AccessEntry) returns (r: RWSet)
    ensures forall loc :: loc in r.readSet <==>
                            loc in rw.readSet || (loc.addr == e.address && loc.slot in e.storageReads)
    ensures forall loc :: loc in r.writeSet <==>
                            loc in rw.writeSet || (loc.addr == e.address && loc.slot in e.storageChanges)
    ensures forall a :: a in r.accountWrites <==> a in rw.accountWrites || (a == e.address && ChangesAccount(e))
  {
    var readLocs := LocationsOf(e.address, e.storageReads);
    var writeLocs := LocationsOf(e.address, e.storageChanges);
    r := RWSet(rw.readSet + readLocs, rw.writeSet + writeLocs,
               if ChangesAccount(e) then rw.accountWrites + {e.address} else rw.accountWrites);
  }

  lemma DeclarationsGrow(entries: seq<AccessEntry>, e: AccessEntry)
    ensures forall tx :: Declared(entries + [e], tx) <==> Declared(entries, tx) || Belongs(e, tx)
    ensures forall tx, loc :: DeclaresRead(entries + [e], tx, loc) <==>
                              DeclaresRead(entries, tx, loc)
                              || (Belongs(e, tx) && loc.addr == e.address && loc.slot in e.storageReads)
    ensures forall tx, loc :: DeclaresWrite(entries + [e], tx, loc) <==>
                              DeclaresWrite(entries, tx, loc)
                              || (Belongs(e, tx) && loc.addr == e.address && loc.slot in e.storageChanges)
    ensures forall tx, a :: DeclaresAccount(entries + [e], tx, a) <==>
                            DeclaresAccount(entries, tx, a) || (Belongs(e, tx) && a == e.address && ChangesAccount(e))
  {
    assert forall x :: x in entries + [e] <==> x in entries || x == e;
  }

  lemma SetsGrow(entries: seq<AccessEntry>, e: AccessEntry, sets: map<int, RWSet>, tx: int, old': RWSet, r: RWSet)
    requires SetsOf(entries, sets) && Belongs(e, tx)
    requires if tx in sets then old' == sets[tx] else old' == RWSet({}, {}, {})
    requires forall loc :: loc in r.readSet <==>
                             loc in old'.readSet || (loc.addr == e.address && loc.slot in e.storageReads)
    requires forall loc :: loc in r.writeSet <==>
                             loc in old'.writeSet || (loc.addr == e.address && loc.slot in e.storageChanges)
    requires forall a :: a in r.accountWrites <==>
                           a in old'.accountWrites || (a == e.address && ChangesAccount(e))
    ensures SetsOf(entries + [e], sets[tx := r])
  {
    DeclarationsGrow(entries, e);
    assert tx !in sets ==> !Declared(entries, tx);
  }

  /** `extractRWSets`. */
  method ExtractRWSets(entries: seq<AccessEntry>) returns (sets: map<int, RWSet>)
    ensures SetsOf(entries, sets)
  {
    hide SetsOf, DeclaresRead, DeclaresWrite, DeclaresAccount;
    sets := map[];
    assert SetsOf([], sets) by { NothingDeclared(); }
    for i := 0 to |entries|
      invariant SetsOf(entries[..i], sets)
    {
      var e := entries[i];
      assert entries[..i + 1] == entries[..i] + [e];
      if e.accessIndex == 0 {
        SkipPreExecution(entries[..i], e, sets);
        continue;
      }
      var tx := TxIndexOf(e.accessIndex);
      var rw := if tx in sets then sets[tx] else RWSet({}, {}, {});
      var r := AddEntry(rw, e);
      SetsGrow(entries[..i], e, sets, tx, rw, r);
      sets := sets[tx := r];
    }
    assert entries[..|entries|] == entries;
  }

  lemma NothingDeclared()
    ensures SetsOf([], map[])
  {
  }

  lemma SkipPreExecution(entries: seq<AccessEntry>, e: AccessEntry, sets: map<int, RWSet>)
    requires SetsOf(entries, sets) && e.accessIndex == 0
    ensures SetsOf(entries + [e], sets)
  {
    DeclarationsGrow(entries, e);
  }

  ghost function WithEntry(rw: RWSet, e: AccessEntry): (r: RWSet)
    ensures forall loc :: loc in r.readSet <==>
                            loc in rw.readSet || (loc.addr == e.address && loc.slot in e.storageReads)
    ensures forall loc :: loc in r.writeSet <==>
                            loc in rw.writeSet || (loc.addr == e.address && loc.slot in e.storageChanges)
    ensures forall a :: a in r.accountWrites <==> a in rw.accountWrites || (a == e.address && ChangesAccount(e))
  {
    RWSet(rw.readSet + set s | s in e.storageReads :: SlotLocation(e.address, s),
          rw.writeSet + set s | s in e.storageChanges :: SlotLocation(e.address, s),
          if ChangesAccount(e) then rw.accountWrites + {e.address} else rw.accountWrites)
  }

  /** The sets an access list declares. */
  ghost function DeclaredSets(entries: seq<AccessEntry>): (sets: map<int, RWSet>)
    ensures SetsOf(entries, sets)
  {
    if entries == [] then
      NothingDeclared();
      map[]
    else
      var front, e := entries[..|entries| - 1], entries[|entries| - 1];
      assert entries == front + [e];
      var before := DeclaredSets(front);
      if e.accessIndex == 0 then
        SkipPreExecution(front, e, before);
        before
      else
        var tx := TxIndexOf(e.accessIndex);
        var rw := if tx in before then before[tx] else RWSet({}, {}, {});
        SetsGrow(front, e, before, tx, rw, WithEntry(rw, e));
        before[tx := WithEntry(rw, e)]
  }

  // ----- conflicts between two transactions -----

  datatype ConflictType = ReadWrite | WriteRead | WriteWrite | AccountLevel

  datatype Conflict = Conflict(txA: int, txB: int, kind: ConflictType, address: Address, slot: Slot)

  /** `c` is one of the conflicts between `a` (the earlier) and `b`. */
  ghost predicate PairConflict(txA: int, txB: int, a: RWSet, b: RWSet, c: Conflict) {
    && c.txA == txA && c.txB == txB
    && var loc := SlotLocation(c.address, c.slot);
       match c.kind
       case WriteWrite => loc in a.writeSet && loc in b.writeSet
       case ReadWrite => loc in a.readSet && loc in b.writeSet
       case WriteRead => loc in a.writeSet && loc in b.readSet
       case AccountLevel => c.slot == ZERO_SLOT && c.address in a.accountWrites && c.address in b.accountWrites
  }

  /** Some declared access of one clashes with one of the other. */
  ghost predicate Conflicting(a: RWSet, b: RWSet) {
    || !(a.writeSet !! b.writeSet)
    || !(a.readSet !! b.writeSet)
    || !(a.writeSet !! b.readSet)
    || !(a.accountWrites !! b.accountWrites)
  }

  lemma ConflictingHasWitness(txA: int, txB: int, a: RWSet, b: RWSet)
    ensures Conflicting(a, b) <==> exists c :: PairConflict(txA, txB, a, b, c)
  {
    if Conflicting(a, b) {
      if loc :| loc in a.writeSet && loc in b.writeSet {
        assert PairConflict(txA, txB, a, b, Conflict(txA, txB, WriteWrite, loc.addr, loc.slot));
      } else if loc :| loc in a.readSet && loc in b.writeSet {
        assert PairConflict(txA, txB, a, b, Conflict(txA, txB, ReadWrite, loc.addr, loc.slot));
      } else if loc :| loc in a.writeSet && loc in b.readSet {
        assert PairConflict(txA, txB, a, b, Conflict(txA, txB, WriteRead, loc.addr, loc.slot));
      } else {
        var addr :| addr in a.accountWrites && addr in b.accountWrites;
        assert PairConflict(txA, txB, a, b, Conflict(txA, txB, AccountLevel, addr, ZERO_SLOT));
      }
    }
  }

  /** One conflict per location in both sets, ranging over the first. */
  method SlotConflicts(txA: int, txB: int, kind: ConflictType, first: set<SlotLocation>, second: set<SlotLocation>)
    returns (r: seq<Conflict>)
    ensures forall c :: c in r <==>
                          && c.txA == txA && c.txB == txB && c.kind == kind
                          && SlotLocation(c.address, c.slot) in first && SlotLocation(c.address, c.slot) in second
    ensures Distinct(r)
  {
    r := [];
    var locs := Enumerate(first);
    for i := 0 to |locs|
      invariant Distinct(r)
      invariant forall c :: c in r <==>
                              && c.txA == txA && c.txB == txB && c.kind == kind
                              && SlotLocation(c.address, c.slot) in locs[..i]
                              && SlotLocation(c.address, c.slot) in second
    {
      var loc := locs[i];
      if loc in second {
        r := r + [Conflict(txA, txB, kind, loc.addr, loc.slot)];
      }
    }
    assert locs[..|locs|] == locs;
    assert forall loc :: loc in locs <==> loc in Elems(locs);
  }

  method AccountConflicts(txA: int, txB: int, first: set<Address>, second: set<Address>) returns (r: seq<Conflict>)
    ensures forall c :: c in r <==>
                          && c.txA == txA && c.txB == txB && c.kind == AccountLevel && c.slot == ZERO_SLOT
                          && c.address in first && c.address in second
    ensures Distinct(r)
  {
    r := [];
    var addrs := Enumerate(first);
    for i := 0 to |addrs|
      invariant Distinct(r)
      invariant forall c :: c in r <==>
                              && c.txA == txA && c.txB == txB && c.kind == AccountLevel && c.slot == ZERO_SLOT
                              && c.address in addrs[..i] && c.address in second
    {
      var addr := addrs[i];
      if addr in second {
        r := r + [Conflict(txA, txB, AccountLevel, addr, ZERO_SLOT)];
      }
    }
    assert addrs[..|addrs|] == addrs;
    assert forall a :: a in addrs <==> a in Elems(addrs);
  }

  lemma DistinctConcat<T>(a: seq<T>, b: seq<T>)
    requires Distinct(a) && Distinct(b) && forall x :: x in a ==> x !in b
    ensures Distinct(a + b)
  {
    var r := a + b;
    forall i, j | 0 <= i < j < |r| ensures r[i] != r[j] {
      if i < |a| <= j { assert r[i] in a && r[j] in b; }
    }
  }

  /** `detectPairConflicts`: all conflicts of the pair, each once, and nothing
      else. */
  method DetectPairConflicts(txA: int, txB: int, a: RWSet, b: RWSet) returns (r: seq<Conflict>)
    ensures forall c :: c in r <==> PairConflict(txA, txB, a, b, c)
    ensures Distinct(r)
  {
    hide Distinct;
    var ww := SlotConflicts(txA, txB, WriteWrite, a.writeSet, b.writeSet);
    var rw := SlotConflicts(txA, txB, ReadWrite, a.readSet, b.writeSet);
    var wr := SlotConflicts(txA, txB, WriteRead, a.writeSet, b.readSet);
    var al := AccountConflicts(txA, txB, a.accountWrites, b.accountWrites);
    DistinctConcat(ww, rw);
    DistinctConcat(ww + rw, wr);
    DistinctConcat(ww + rw + wr, al);
    r := ww + rw + wr + al;
    forall c ensures c in r <==> PairConflict(txA, txB, a, b, c) {
      assert c in r <==> c in ww || c in rw || c in wr || c in al;
    }
  }

  // ----- all conflicts of a block -----

  ghost predicate BlockConflict(sets: map<int, RWSet>, c: Conflict) {
    && c.txA in sets && c.txB in sets && c.txA < c.txB
    && PairConflict(c.txA, c.txB, sets[c.txA], sets[c.txB], c)
  }

  ghost predicate InPairOrder(r: seq<Conflict>) {
    forall i, j :: 0 <= i < j < |r| ==>
                     r[i].txA < r[j].txA || (r[i].txA == r[j].txA && r[i].txB <= r[j].txB)
  }

  /** The conflicts of one earlier transaction with each later one. */
  method ConflictsOf(sets: map<int, RWSet>, indices: seq<int>, i: nat) returns (r: seq<Conflict>)
    requires StrictlyAscending(indices) && i < |indices|
    requires forall x :: x in indices <==> x in sets
    ensures forall c :: c in r <==> BlockConflict(sets, c) && c.txA == indices[i]
    ensures InPairOrder(r) && Distinct(r)
  {
    hide Distinct;
    r := [];
    assert Distinct(r) by { NothingRepeats<Conflict>(); }
    var txA := indices[i];
    assert txA in indices;
    for j := i + 1 to |indices|
      invariant forall c :: c in r <==> BlockConflict(sets, c) && c.txA == txA && c.txB in indices[i + 1..j]
      invariant InPairOrder(r) && Distinct(r)
    {
      var txB := indices[j];
      assert txB in indices;
      var found := DetectPairConflicts(txA, txB, sets[txA], sets[txB]);
      assert indices[i + 1..j + 1] == indices[i + 1..j] + [txB];
      forall c | c in r ensures c.txA == txA && c.txB < txB {}
      ghost var before := r;
      r := r + found;
      AppendKeepsOrder(before, found, txA, txB);
      DistinctConcat(before, found);
      forall c ensures c in r <==> BlockConflict(sets, c) && c.txA == txA && c.txB in indices[i + 1..j + 1] {
        assert c in r <==> c in before || c in found;
      }
    }
    forall c | BlockConflict(sets, c) && c.txA == txA ensures c.txB in indices[i + 1..] {
      assert c.txB in indices;
      var k :| 0 <= k < |indices| && indices[k] == c.txB;
      assert k > i;
      assert indices[i + 1..][k - i - 1] == c.txB;
    }
    assert indices[i + 1..|indices|] == indices[i + 1..];
  }

  lemma NothingRepeats<T>()
    ensures Distinct<T>([])
  {
  }

  lemma AppendKeepsOrder(r: seq<Conflict>, found: seq<Conflict>, txA: int, txB: int)
    requires InPairOrder(r) && forall c :: c in r ==> c.txA < txA || (c.txA == txA && c.txB < txB)
    requires forall c :: c in found ==> c.txA == txA && c.txB == txB
    ensures InPairOrder(r + found)
  {
    var s := r + found;
    forall i, j | 0 <= i < j < |s|
      ensures s[i].txA < s[j].txA || (s[i].txA == s[j].txA && s[i].txB <= s[j].txB)
    {
      var a, b := s[i], s[j];
      if i < |r| { assert a in r; } else { assert a in found; }
      if j < |r| { assert b in r; } else { assert b in found; }
    }
  }

  /** `DetectConflicts`: every conflict of the block, once, by (TxA, TxB). */
  method DetectConflicts(entries: seq<AccessEntry>) returns (r: seq<Conflict>)
    ensures forall c :: c in r <==> BlockConflict(DeclaredSets(entries), c)
    ensures InPairOrder(r) && Distinct(r)
  {
    hide BlockConflict, SetsOf, Ascending, DeclaredSets, Distinct;
    var sets := ExtractRWSets(entries);
    SetsAreUnique(entries, sets, DeclaredSets(entries));
    var keys := Enumerate(sets.Keys);
    var indices := SortInts(keys);
    assert StrictlyAscending(indices) by { SortedKeysAscend(keys, indices); }
    DistinctPermutation(keys, indices);
    assert forall x :: x in indices <==> x in Elems(indices);
    r := [];
    assert Distinct(r) by { NothingRepeats<Conflict>(); }
    for i := 0 to |indices|
      invariant forall c :: c in r <==> BlockConflict(sets, c) && c.txA in indices[..i]
      invariant InPairOrder(r) && Distinct(r)
    {
      var found := ConflictsOf(sets, indices, i);
      ghost var before := r;
      AppendGroup(before, found, indices[i], indices[..i]);
      DistinctConcat(before, found);
      r := r + found;
      assert indices[..i + 1] == indices[..i] + [indices[i]];
      forall c ensures c in r <==> BlockConflict(sets, c) && c.txA in indices[..i + 1] {
        assert c in r <==> c in before || c in found;
      }
    }
    assert indices[..|indices|] == indices;
    forall c | BlockConflict(sets, c) ensures c.txA in indices { ConflictEnds(sets, c); }
  }

  lemma SortedKeysAscend(keys: seq<int>, indices: seq<int>)
    requires Distinct(keys) && Ascending(indices) && multiset(indices) == multiset(keys)
    ensures StrictlyAscending(indices)
  {
    DistinctPermutation(keys, indices);
  }

  lemma ConflictEnds(sets: map<int, RWSet>, c: Conflict)
    requires BlockConflict(sets, c)
    ensures c.txA in sets && c.txB in sets && c.txA < c.txB
  {
  }

  lemma AppendGroup(r: seq<Conflict>, found: seq<Conflict>, txA: int, earlier: seq<int>)
    requires InPairOrder(r) && InPairOrder(found)
    requires forall x :: x in earlier ==> x < txA
    requires forall c :: c in r ==> c.txA in earlier
    requires forall c :: c in found ==> c.txA == txA
    ensures InPairOrder(r + found)
  {
    var s := r + found;
    forall i, j | 0 <= i < j < |s|
      ensures s[i].txA < s[j].txA || (s[i].txA == s[j].txA && s[i].txB <= s[j].txB)
    {
      var a, b := s[i], s[j];
      if i < |r| { assert a in r; } else { assert a in found; assert s[i] == found[i - |r|] && s[j] == found[j - |r|]; }
      if j < |r| { assert b in r; } else { assert b in found; }
    }
  }

  lemma SetsAreUnique(entries: seq<AccessEntry>, s: map<int, RWSet>, t: map<int, RWSet>)
    requires SetsOf(entries, s) && SetsOf(entries, t)
    ensures s == t
  {
    forall tx ensures tx in s <==> tx in t {
      assert Declared(entries, tx) <==> tx in s;
    }
    assert s.Keys == t.Keys;
    forall tx | tx in s ensures s[tx] == t[tx] {
      assert s[tx].readSet == t[tx].readSet;
      assert s[tx].writeSet == t[tx].writeSet;
      assert s[tx].accountWrites == t[tx].accountWrites;
    }
  }

  // ----- dependency graphs -----

  /** Each transaction waits for exactly the earlier ones it conflicts with. */
  ghost predicate DependenciesOf(sets: map<int, RWSet>, b: int, deps: seq<int>)
    requires b in sets
  {
    && StrictlyAscending(deps)
    && (forall a :: a in deps <==> a in sets && a < b && Conflicting(sets[a], sets[b]))
  }

  ghost predicate ConflictGraph(sets: map<int, RWSet>, g: Graph) {
    g.Keys == sets.Keys && forall b :: b in g ==> DependenciesOf(sets, b, g[b])
  }

  ghost predicate HasEdge(conflicts: seq<Conflict>, a: int, b: int) {
    exists c :: c in conflicts && c.txA == a && c.txB == b
  }

  ghost predicate HasTarget(conflicts: seq<Conflict>, b: int) {
    exists c :: c in conflicts && c.txB == b
  }

  /** The lists hold each conflicting pair once. */
  ghost predicate EdgesListed(conflicts: seq<Conflict>, g: Graph) {
    forall b :: Distinct(Deps(g, b)) && forall a :: a in Deps(g, b) <==> HasEdge(conflicts, a, b)
  }

  /** At most one edge per pair, in order of first appearance. */
  method AddConflictEdges(conflicts: seq<Conflict>, g0: Graph) returns (g: Graph)
    requires forall b :: Deps(g0, b) == []
    ensures EdgesListed(conflicts, g)
    ensures forall n :: n in g <==> n in g0 || HasTarget(conflicts, n)
  {
    g := g0;
    var seen: set<(int, int)> := {};
    for i := 0 to |conflicts|
      invariant EdgesListed(conflicts[..i], g)
      invariant forall a, b :: (a, b) in seen <==> HasEdge(conflicts[..i], a, b)
      invariant forall n :: n in g <==> n in g0 || HasTarget(conflicts[..i], n)
    {
      var c := conflicts[i];
      assert conflicts[..i + 1] == conflicts[..i] + [c];
      EdgeGrows(conflicts[..i], c);
      if (c.txA, c.txB) in seen {
        continue;
      }
      seen := seen + {(c.txA, c.txB)};
      ghost var before := g;
      g := g[c.txB := Deps(g, c.txB) + [c.txA]];
      ListGrows(conflicts[..i], before, c);
    }
    assert conflicts[..|conflicts|] == conflicts;
  }

  lemma EdgeGrows(conflicts: seq<Conflict>, c: Conflict)
    ensures forall a, b :: HasEdge(conflicts + [c], a, b) <==>
                           HasEdge(conflicts, a, b) || (a == c.txA && b == c.txB)
    ensures forall n :: HasTarget(conflicts + [c], n) <==> HasTarget(conflicts, n) || n == c.txB
    ensures HasEdge(conflicts, c.txA, c.txB) ==> HasTarget(conflicts, c.txB)
  {
    assert forall x :: x in conflicts + [c] <==> x in conflicts || x == c;
  }

  lemma ListGrows(conflicts: seq<Conflict>, g: Graph, c: Conflict)
    requires EdgesListed(conflicts, g) && !HasEdge(conflicts, c.txA, c.txB)
    ensures EdgesListed(conflicts + [c], g[c.txB := Deps(g, c.txB) + [c.txA]])
  {
    EdgeGrows(conflicts, c);
    hide HasEdge;
    var g' := g[c.txB := Deps(g, c.txB) + [c.txA]];
    forall b
      ensures Distinct(Deps(g', b)) && forall a :: a in Deps(g', b) <==> HasEdge(conflicts + [c], a, b)
    {
      if b == c.txB {
        assert Deps(g', b) == Deps(g, b) + [c.txA];
      } else {
        assert Deps(g', b) == Deps(g, b);
      }
    }
  }

  /** Sorts every dependency list. */
  method SortLists(g0: Graph) returns (g: Graph)
    ensures g.Keys == g0.Keys
    ensures forall b :: b in g ==> Ascending(g[b]) && multiset(g[b]) == multiset(g0[b])
  {
    g := g0;
    var keys := Enumerate(g0.Keys);
    for i := 0 to |keys|
      invariant g.Keys == g0.Keys
      invariant forall b :: b in g ==> multiset(g[b]) == multiset(g0[b])
      invariant forall b :: b in keys[..i] ==> b in g && Ascending(g[b])
    {
      var b := keys[i];
      assert b in Elems(keys);
      if |g[b]| > 1 {
        var sorted := SortInts(g[b]);
        g := g[b := sorted];
      }
    }
    assert keys[..|keys|] == keys;
    assert forall b :: b in keys <==> b in Elems(keys);
  }

  lemma SortedEdges(sets: map<int, RWSet>, conflicts: seq<Conflict>, g: Graph, b: int, sorted: seq<int>)
    requires forall c :: c in conflicts <==> BlockConflict(sets, c)
    requires b in sets && EdgesListed(conflicts, g)
    requires Ascending(sorted) && multiset(sorted) == multiset(Deps(g, b))
    ensures DependenciesOf(sets, b, sorted)
  {
    hide Conflicting;
    DistinctPermutation(Deps(g, b), sorted);
    forall a ensures a in sorted <==> a in sets && a < b && Conflicting(sets[a], sets[b]) {
      assert a in sorted <==> a in Elems(sorted);
      assert a in sorted <==> HasEdge(conflicts, a, b);
      EdgeMeansConflict(sets, conflicts, a, b);
    }
  }

  lemma EdgeMeansConflict(sets: map<int, RWSet>, conflicts: seq<Conflict>, a: int, b: int)
    requires forall c :: c in conflicts <==> BlockConflict(sets, c)
    ensures HasEdge(conflicts, a, b) <==> a in sets && b in sets && a < b && Conflicting(sets[a], sets[b])
  {
    hide Conflicting, PairConflict;
    if a in sets && b in sets {
      ConflictingHasWitness(a, b, sets[a], sets[b]);
      if a < b && Conflicting(sets[a], sets[b]) {
        var c :| PairConflict(a, b, sets[a], sets[b], c);
        PairNames(a, b, sets[a], sets[b], c);
        assert BlockConflict(sets, c);
      }
    }
  }

  lemma PairNames(a: int, b: int, x: RWSet, y: RWSet, c: Conflict)
    requires PairConflict(a, b, x, y, c)
    ensures c.txA == a && c.txB == b
  {
  }

  /** `BuildDependencyGraph`. */
  method BuildDependencyGraph(entries: seq<AccessEntry>) returns (g: Graph)
    ensures ConflictGraph(DeclaredSets(entries), g)
  {
    hide SetsOf, BlockConflict, EdgesListed, DependenciesOf, InPairOrder, Ascending, DeclaredSets;
    ghost var sets := DeclaredSets(entries);
    var conflicts := DetectConflicts(entries);
    var declared := ExtractRWSets(entries);
    SetsAreUnique(entries, sets, declared);
    var g0: Graph := map idx | idx in declared :: [];
    assert forall b :: Deps(g0, b) == [];
    g0 := AddConflictEdges(conflicts, g0);
    forall n ensures n in g0 <==> n in declared {
      if c :| c in conflicts && c.txB == n { ConflictEnds(sets, c); }
    }
    g := SortLists(g0);
    assert g.Keys == sets.Keys;
    forall b | b in g ensures DependenciesOf(sets, b, g[b]) {
      SortedEdges(sets, conflicts, g0, b, g[b]);
    }
  }

  /** Graphs built from an access list never have a cycle. */
  lemma ConflictGraphIsAcyclic(sets: map<int, RWSet>, g: Graph)
    requires ConflictGraph(sets, g)
    ensures PointsBack(g) && Acyclic(g) && Nodes(g) == sets.Keys
  {
    forall n, d | d in Deps(g, n) ensures d < n && d in sets {
      assert DependenciesOf(sets, n, g[n]);
    }
    PointsBackIsAcyclic(g);
  }
}
