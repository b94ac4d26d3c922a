/** What the entries of an access list let a transaction touch, and which
    transactions their entries set against each other. */
module AccessFootprints {
  import opened Collections
  import opened DependencyGraphs
  import opened BalConflicts
  import opened WaveLevels
  import opened Serializability
  import opened Colouring

  // ----- the entries of a transaction -----

  /** Entry `e` is one of transaction `n`: its index is one more, in 64-bit
      two's complement, and not 0. */
  ghost predicate OwnEntry(e: AccessEntry, n: int) {
    e.accessIndex > 0 && -0x8000_0000_0000_0000 <= n < TWO_63 && (n + 1 - e.accessIndex) % TWO_64 == 0
  }

  lemma OwnIsBelongs(e: AccessEntry, n: int)
    ensures OwnEntry(e, n) <==> Belongs(e, n)
  {
    var t := TxIndexOf(e.accessIndex);
    assert (t + 1 - e.accessIndex) % TWO_64 == 0 && -0x8000_0000_0000_0000 <= t < TWO_63;
    if OwnEntry(e, n) {
      assert (n - t) % TWO_64 == 0;
    }
  }

  /** The entry records a change of the account's balance, nonce or code. */
  ghost predicate ChangesField(e: AccessEntry) {
    e.balanceChange || e.nonceChange || e.codeChange
  }

  ghost predicate MayWrite(entries: seq<AccessEntry>, n: int, l: Location) {
    exists e :: && e in entries && OwnEntry(e, n)
                && match l
                   case Storage(loc) => loc.addr == e.address && loc.slot in e.storageChanges
                   case Account(a, _) => a == e.address && ChangesField(e)
  }

  ghost predicate MayRead(entries: seq<AccessEntry>, n: int, l: Location) {
    || MayWrite(entries, n, l)
    || exists e :: && e in entries && OwnEntry(e, n)
                   && l.Storage? && l.loc.addr == e.address && l.loc.slot in e.storageReads
  }

  ghost predicate LooksTheSame(entries: seq<AccessEntry>, n: int, s: State, t: State) {
    forall l :: MayRead(entries, n, l) ==> Read(s, l) == Read(t, l)
  }

  /** The transaction changes only what its own entries let it write, and
      decides it from what they let it read. */
  ghost predicate FollowsList(tx: Transaction, entries: seq<AccessEntry>, n: int) {
    && (forall s, l :: !MayWrite(entries, n, l) ==> Read(tx(s), l) == Read(s, l))
    && (forall s, t, l :: LooksTheSame(entries, n, s, t) && MayWrite(entries, n, l) ==>
                            Read(tx(s), l) == Read(tx(t), l))
  }

  /** `full` is a block in order that holds every transaction of the list, and
      each of its transactions follows the list. */
  ghost predicate BlockFollows(txs: Block, entries: seq<AccessEntry>, full: seq<int>) {
    && StrictlyAscending(full)
    && (forall e, n :: e in entries && OwnEntry(e, n) ==> n in full)
    && (forall n :: n in full ==> FollowsList(txs(n), entries, n))
  }

  // ----- the extracted sets -----

  lemma MayWriteIsExtracted(entries: seq<AccessEntry>, n: int, l: Location)
    ensures MayWrite(entries, n, l) <==>
            match l
            case Storage(loc) => DeclaresWrite(entries, n, loc)
            case Account(a, _) => DeclaresAccount(entries, n, a)
  {
    forall e: AccessEntry ensures OwnEntry(e, n) <==> Belongs(e, n) { OwnIsBelongs(e, n); }
    hide OwnEntry, Belongs;
  }

  lemma MayReadIsExtracted(entries: seq<AccessEntry>, n: int, l: Location)
    ensures MayRead(entries, n, l) <==>
            MayWrite(entries, n, l) || (l.Storage? && DeclaresRead(entries, n, l.loc))
  {
    forall e: AccessEntry ensures OwnEntry(e, n) <==> Belongs(e, n) { OwnIsBelongs(e, n); }
    hide OwnEntry, Belongs, MayWrite;
  }

  lemma ListedIsExtracted(entries: seq<AccessEntry>, n: int)
    ensures n in DeclaredSets(entries) <==> exists e :: e in entries && OwnEntry(e, n)
  {
    hide DeclaredSets;
    assert n in DeclaredSets(entries) <==> Declared(entries, n);
    forall e: AccessEntry ensures OwnEntry(e, n) <==> Belongs(e, n) { OwnIsBelongs(e, n); }
    hide OwnEntry, Belongs;
  }

  /** Nothing is extracted only when every entry is from before execution. */
  lemma NothingIsExtracted(entries: seq<AccessEntry>)
    ensures DeclaredSets(entries) == map[] <==> forall e :: e in entries ==> e.accessIndex == 0
  {
    hide DeclaredSets;
    var sets := DeclaredSets(entries);
    if e :| e in entries && e.accessIndex > 0 {
      assert Belongs(e, TxIndexOf(e.accessIndex));
      assert Declared(entries, TxIndexOf(e.accessIndex)) && TxIndexOf(e.accessIndex) in sets;
    } else {
      forall n ensures n !in sets { assert n in sets <==> Declared(entries, n); }
    }
  }

  /** The footprint of the extracted sets is what the entries say. */
  lemma FootprintIsExtracted(entries: seq<AccessEntry>, n: int, l: Location)
    ensures n in DeclaredSets(entries) ==>
              && (MayWrite(entries, n, l) <==> InWriteSet(DeclaredSets(entries)[n], l))
              && (MayRead(entries, n, l) <==> InFootprint(DeclaredSets(entries)[n], l))
    ensures n !in DeclaredSets(entries) ==> !MayRead(entries, n, l)
  {
    MayWriteIsExtracted(entries, n, l);
    MayReadIsExtracted(entries, n, l);
    hide DeclaredSets, MayRead, MayWrite;
    assert n in DeclaredSets(entries) <==> Declared(entries, n);
    if n !in DeclaredSets(entries) {
      UndeclaredNothing(entries, n);
    }
    hide DeclaresRead, DeclaresWrite, DeclaresAccount;
  }

  lemma UndeclaredNothing(entries: seq<AccessEntry>, n: int)
    requires !Declared(entries, n)
    ensures forall loc :: !DeclaresRead(entries, n, loc) && !DeclaresWrite(entries, n, loc)
    ensures forall a :: !DeclaresAccount(entries, n, a)
  {
  }

  lemma FollowsStaysInside(tx: Transaction, entries: seq<AccessEntry>, n: int)
    requires FollowsList(tx, entries, n)
    ensures StaysInside(tx, if n in DeclaredSets(entries) then DeclaredSets(entries)[n] else NOTHING)
  {
    var rw := if n in DeclaredSets(entries) then DeclaredSets(entries)[n] else NOTHING;
    forall l
      ensures MayWrite(entries, n, l) <==> InWriteSet(rw, l)
      ensures MayRead(entries, n, l) <==> InFootprint(rw, l)
    {
      FootprintIsExtracted(entries, n, l);
    }
    hide DeclaredSets, MayRead, MayWrite, InFootprint, InWriteSet;
    forall s, t ensures AgreeOnFootprint(rw, s, t) ==> LooksTheSame(entries, n, s, t) {}
  }

  /** A block that follows the list stays inside its extracted sets. */
  lemma BlockFollowsStaysInside(txs: Block, entries: seq<AccessEntry>, full: seq<int>)
    requires BlockFollows(txs, entries, full)
    ensures BlockStaysInside(txs, DeclaredSets(entries))
    ensures forall n :: n in full && n !in DeclaredSets(entries) ==> StaysInside(txs(n), NOTHING)
    ensures DeclaredSets(entries).Keys <= Elems(full)
  {
    hide DeclaredSets, FollowsList, StaysInside, OwnEntry;
    var sets := DeclaredSets(entries);
    forall n | n in sets ensures n in full {
      ListedIsExtracted(entries, n);
    }
    forall n | n in full ensures StaysInside(txs(n), if n in sets then sets[n] else NOTHING) {
      FollowsStaysInside(txs(n), entries, n);
    }
  }

  // ----- entries that set two transactions against each other -----

  ghost predicate SlotClash(e: AccessEntry, f: AccessEntry, slot: Slot) {
    || (slot in e.storageChanges && (slot in f.storageChanges || slot in f.storageReads))
    || (slot in e.storageReads && slot in f.storageChanges)
  }

  /** Both are at one address, and both change the account or one writes a slot
      that the other touches. */
  ghost predicate EntriesClash(e: AccessEntry, f: AccessEntry) {
    e.address == f.address && ((ChangesField(e) && ChangesField(f)) || exists slot :: SlotClash(e, f, slot))
  }

  /** One entry of `a` clashes with one of `b`. */
  ghost predicate ListClash(entries: seq<AccessEntry>, a: int, b: int) {
    exists e, f :: e in entries && f in entries && OwnEntry(e, a) && OwnEntry(f, b) && EntriesClash(e, f)
  }

  /** Conflicts between extracted sets are clashes between entries. */
  lemma ConflictIsListClash(entries: seq<AccessEntry>, a: int, b: int)
    requires a in DeclaredSets(entries) && b in DeclaredSets(entries)
    ensures Conflicting(DeclaredSets(entries)[a], DeclaredSets(entries)[b]) <==> ListClash(entries, a, b)
  {
    hide DeclaredSets;
    var x, y := DeclaredSets(entries)[a], DeclaredSets(entries)[b];
    assert SetsOf(entries, DeclaredSets(entries));
    forall e: AccessEntry ensures OwnEntry(e, a) <==> Belongs(e, a) { OwnIsBelongs(e, a); }
    forall e: AccessEntry ensures OwnEntry(e, b) <==> Belongs(e, b) { OwnIsBelongs(e, b); }
    hide OwnEntry, Belongs;
    if ListClash(entries, a, b) {
      var e, f :| e in entries && f in entries && OwnEntry(e, a) && OwnEntry(f, b) && EntriesClash(e, f);
      EntriesConflict(entries, a, b, e, f, x, y);
    }
    if Conflicting(x, y) { ConflictHasEntries(entries, a, b, x, y); }
  }

  lemma EntriesConflict(entries: seq<AccessEntry>, a: int, b: int, e: AccessEntry, f: AccessEntry, x: RWSet, y: RWSet)
    requires e in entries && f in entries && Belongs(e, a) && Belongs(f, b) && EntriesClash(e, f)
    requires forall loc :: DeclaresRead(entries, a, loc) ==> loc in x.readSet
    requires forall loc :: DeclaresRead(entries, b, loc) ==> loc in y.readSet
    requires forall loc :: DeclaresWrite(entries, a, loc) ==> loc in x.writeSet
    requires forall loc :: DeclaresWrite(entries, b, loc) ==> loc in y.writeSet
    requires forall addr :: DeclaresAccount(entries, a, addr) ==> addr in x.accountWrites
    requires forall addr :: DeclaresAccount(entries, b, addr) ==> addr in y.accountWrites
    ensures Conflicting(x, y)
  {
    hide Belongs;
    if ChangesField(e) && ChangesField(f) {
      assert DeclaresAccount(entries, a, e.address) && DeclaresAccount(entries, b, e.address);
      assert e.address in x.accountWrites && e.address in y.accountWrites;
    } else {
      var slot :| SlotClash(e, f, slot);
      var loc := SlotLocation(e.address, slot);
      assert slot in e.storageChanges ==> DeclaresWrite(entries, a, loc);
      assert slot in f.storageChanges ==> DeclaresWrite(entries, b, loc);
      assert slot in e.storageReads ==> DeclaresRead(entries, a, loc);
      assert slot in f.storageReads ==> DeclaresRead(entries, b, loc);
    }
  }

  lemma ConflictHasEntries(entries: seq<AccessEntry>, a: int, b: int, x: RWSet, y: RWSet)
    requires Conflicting(x, y)
    requires forall e: AccessEntry :: Belongs(e, a) ==> OwnEntry(e, a)
    requires forall e: AccessEntry :: Belongs(e, b) ==> OwnEntry(e, b)
    requires forall loc :: loc in x.readSet ==> DeclaresRead(entries, a, loc)
    requires forall loc :: loc in y.readSet ==> DeclaresRead(entries, b, loc)
    requires forall loc :: loc in x.writeSet ==> DeclaresWrite(entries, a, loc)
    requires forall loc :: loc in y.writeSet ==> DeclaresWrite(entries, b, loc)
    requires forall addr :: addr in x.accountWrites ==> DeclaresAccount(entries, a, addr)
    requires forall addr :: addr in y.accountWrites ==> DeclaresAccount(entries, b, addr)
    ensures ListClash(entries, a, b)
  {
    hide Belongs, OwnEntry;
    if loc :| loc in x.writeSet && loc in y.writeSet {
      var e :| e in entries && Belongs(e, a) && loc.addr == e.address && loc.slot in e.storageChanges;
      var f :| f in entries && Belongs(f, b) && loc.addr == f.address && loc.slot in f.storageChanges;
      assert SlotClash(e, f, loc.slot);
    } else if loc :| loc in x.readSet && loc in y.writeSet {
      var e :| e in entries && Belongs(e, a) && loc.addr == e.address && loc.slot in e.storageReads;
      var f :| f in entries && Belongs(f, b) && loc.addr == f.address && loc.slot in f.storageChanges;
      assert SlotClash(e, f, loc.slot);
    } else if loc :| loc in x.writeSet && loc in y.readSet {
      var e :| e in entries && Belongs(e, a) && loc.addr == e.address && loc.slot in e.storageChanges;
      var f :| f in entries && Belongs(f, b) && loc.addr == f.address && loc.slot in f.storageReads;
      assert SlotClash(e, f, loc.slot);
    } else {
      var addr :| addr in x.accountWrites && addr in y.accountWrites;
      var e :| e in entries && Belongs(e, a) && addr == e.address && ChangesAccount(e);
      var f :| f in entries && Belongs(f, b) && addr == f.address && ChangesAccount(f);
      assert EntriesClash(e, f);
    }
  }

  /** Two transactions with clashing entries are in different waves, the earlier
      transaction in the earlier wave. */
  lemma ClashingEntriesAreSplit(entries: seq<AccessEntry>, waves: seq<seq<int>>, e: AccessEntry, f: AccessEntry,
                                a: int, b: int, i: nat, j: nat)
    requires WavePlan(DeclaredSets(entries), waves) && i < |waves| && j < |waves| && a in waves[i] && b in waves[j]
    requires e in entries && f in entries && OwnEntry(e, a) && OwnEntry(f, b) && a < b && EntriesClash(e, f)
    ensures i < j
  {
    hide DeclaredSets, Conflicting, OwnEntry, EntriesClash;
    assert InSomeWave(waves, a) && InSomeWave(waves, b);
    ConflictIsListClash(entries, a, b);
    assert !Independent(DeclaredSets(entries), a, b);
  }

  // ----- the colouring's form -----

  /** An entry that changes the account meets one that touches its slot zero. */
  ghost predicate ZeroSlotMeets(e: AccessEntry, f: AccessEntry) {
    e.address == f.address && ChangesField(e) && (0 in f.storageReads || 0 in f.storageChanges)
  }

  ghost predicate ListMeets(entries: seq<AccessEntry>, a: int, b: int) {
    exists e, f :: e in entries && f in entries && OwnEntry(e, a) && OwnEntry(f, b) && ZeroSlotMeets(e, f)
  }

  ghost predicate ChangesTouched(x: RWSet, y: RWSet) {
    exists addr :: addr in x.accountWrites && SlotLocation(addr, ZERO_SLOT) in y.readSet + y.writeSet
  }

  lemma TouchedIsListed(entries: seq<AccessEntry>, a: int, b: int)
    requires a in DeclaredSets(entries) && b in DeclaredSets(entries)
    ensures ChangesTouched(DeclaredSets(entries)[a], DeclaredSets(entries)[b]) <==> ListMeets(entries, a, b)
  {
    hide DeclaredSets;
    var x, y := DeclaredSets(entries)[a], DeclaredSets(entries)[b];
    assert SetsOf(entries, DeclaredSets(entries));
    forall e: AccessEntry ensures OwnEntry(e, a) <==> Belongs(e, a) { OwnIsBelongs(e, a); }
    forall e: AccessEntry ensures OwnEntry(e, b) <==> Belongs(e, b) { OwnIsBelongs(e, b); }
    hide OwnEntry, Belongs;
    if ListMeets(entries, a, b) {
      var e, f :| e in entries && f in entries && OwnEntry(e, a) && OwnEntry(f, b) && ZeroSlotMeets(e, f);
      var loc := SlotLocation(e.address, ZERO_SLOT);
      assert DeclaresAccount(entries, a, e.address);
      assert DeclaresRead(entries, b, loc) || DeclaresWrite(entries, b, loc);
      assert e.address in x.accountWrites && loc in y.readSet + y.writeSet;
    }
    if addr :| addr in x.accountWrites && SlotLocation(addr, ZERO_SLOT) in y.readSet + y.writeSet {
      var loc := SlotLocation(addr, ZERO_SLOT);
      var e :| e in entries && Belongs(e, a) && addr == e.address && ChangesAccount(e);
      assert DeclaresRead(entries, b, loc) || DeclaresWrite(entries, b, loc);
      var f :| f in entries && Belongs(f, b) && f.address == addr
               && (ZERO_SLOT in f.storageReads || ZERO_SLOT in f.storageChanges);
      assert ZeroSlotMeets(e, f);
    }
  }

  /** The colouring's conflicts are clashes between entries, or an account change
      that meets slot zero. */
  lemma ClashIsListed(entries: seq<AccessEntry>, a: int, b: int)
    requires a in DeclaredAccess(entries) && b in DeclaredAccess(entries)
    ensures Clash(DeclaredAccess(entries)[a], DeclaredAccess(entries)[b]) <==>
            ListClash(entries, a, b) || ListMeets(entries, a, b) || ListMeets(entries, b, a)
  {
    hide DeclaredSets, ListClash, ListMeets, Conflicting, Clash, SameAccess;
    var x, y := DeclaredSets(entries)[a], DeclaredSets(entries)[b];
    ClashIsConflictOrZeroSlot(x, y, DeclaredAccess(entries)[a], DeclaredAccess(entries)[b]);
    ConflictIsListClash(entries, a, b);
    TouchedIsListed(entries, a, b);
    TouchedIsListed(entries, b, a);
  }

  /** Two transactions with such entries are in different groups. */
  lemma ClashingEntriesAreGroupedApart(entries: seq<AccessEntry>, groups: seq<seq<int>>, a: int, b: int, g: nat, h: nat)
    requires ParallelGroups(DeclaredAccess(entries), groups) && a != b
    requires g < |groups| && h < |groups| && a in groups[g] && b in groups[h]
    requires ListClash(entries, a, b) || ListMeets(entries, a, b) || ListMeets(entries, b, a)
    ensures g != h
  {
    hide DeclaredAccess, ListClash, ListMeets, Clash, MeetsEarlier, FewGroups;
    assert a in DeclaredAccess(entries) && b in DeclaredAccess(entries);
    ClashIsListed(entries, a, b);
  }
}
