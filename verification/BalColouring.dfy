/** Greedy colouring of the conflict graph into groups that may run in
    parallel. */
module Colouring {
  import opened Collections
  import opened BalConflicts

  /** Account changes are filed as writes of slot zero. */
  datatype TxAccess = TxAccess(readSet: set<SlotLocation>, writeSet: set<SlotLocation>)

  // ----- access sets -----

  ghost predicate WritesOrChanges(entries: seq<AccessEntry>, tx: int, loc: SlotLocation) {
    DeclaresWrite(entries, tx, loc) || (loc.slot == ZERO_SLOT && DeclaresAccount(entries, tx, loc.addr))
  }

  ghost predicate AccessOf(entries: seq<AccessEntry>, m: map<int, TxAccess>) {
    && (forall tx :: tx in m <==> Declared(entries, tx))
    && (forall tx, loc :: tx in m ==> (loc in m[tx].readSet <==> DeclaresRead(entries, tx, loc)))
    && (forall tx, loc :: tx in m ==> (loc in m[tx].writeSet <==> WritesOrChanges(entries, tx, loc)))
  }

  method AddAccess(a: TxAccess, e: AccessEntry) returns (r: TxAccess)
    ensures forall loc :: loc in r.readSet <==>
                            loc in a.readSet || (loc.addr == e.address && loc.slot in e.storageReads)
    ensures forall loc :: loc in r.writeSet <==>
                            loc in a.writeSet || (loc.addr == e.address && loc.slot in e.storageChanges)
                            || (loc == SlotLocation(e.address, ZERO_SLOT) && ChangesAccount(e))
  {
    var readLocs := LocationsOf(e.address, e.storageReads);
    var writeLocs := LocationsOf(e.address, e.storageChanges);
    r := TxAccess(a.readSet + readLocs,
                  a.writeSet + writeLocs + if ChangesAccount(e) then {SlotLocation(e.address, ZERO_SLOT)} else {});
  }

  lemma AccessGrows(entries: seq<AccessEntry>, e: AccessEntry, m: map<int, TxAccess>, tx: int, a: TxAccess, r: TxAccess)
    requires AccessOf(entries, m) && Belongs(e, tx)
    requires if tx in m then a == m[tx] else a == TxAccess({}, {})
    requires forall loc :: loc in r.readSet <==>
                             loc in a.readSet || (loc.addr == e.address && loc.slot in e.storageReads)
    requires forall loc :: loc in r.writeSet <==>
                             loc in a.writeSet || (loc.addr == e.address && loc.slot in e.storageChanges)
                             || (loc == SlotLocation(e.address, ZERO_SLOT) && ChangesAccount(e))
    ensures AccessOf(entries + [e], m[tx := r])
  {
    DeclarationsGrow(entries, e);
    assert tx !in m ==> !Declared(entries, tx);
    hide DeclaresRead, DeclaresWrite, DeclaresAccount;
    assert tx !in m ==> forall loc :: !DeclaresRead(entries, tx, loc) && !WritesOrChanges(entries, tx, loc) by {
      if tx !in m { UndeclaredTouchesNothing(entries, tx); }
    }
  }

  lemma UndeclaredTouchesNothing(entries: seq<AccessEntry>, tx: int)
    requires !Declared(entries, tx)
    ensures forall loc :: !DeclaresRead(entries, tx, loc) && !WritesOrChanges(entries, tx, loc)
  {
  }

  lemma PreExecutionSkipped(entries: seq<AccessEntry>, e: AccessEntry, m: map<int, TxAccess>)
    requires AccessOf(entries, m) && e.accessIndex == 0
    ensures AccessOf(entries + [e], m)
  {
    DeclarationsGrow(entries, e);
    hide DeclaresRead, DeclaresWrite, DeclaresAccount;
  }

  lemma NothingAccessed()
    ensures AccessOf([], map[])
  {
  }

  method CollectAccess(entries: seq<AccessEntry>) returns (m: map<int, TxAccess>)
    ensures AccessOf(entries, m)
  {
    hide AccessOf;
    m := map[];
    assert AccessOf([], m) by { NothingAccessed(); }
    for i := 0 to |entries|
      invariant AccessOf(entries[..i], m)
    {
      var e := entries[i];
      assert entries[..i + 1] == entries[..i] + [e];
      if e.accessIndex == 0 {
        PreExecutionSkipped(entries[..i], e, m);
        continue;
      }
      var tx := TxIndexOf(e.accessIndex);
      var a := if tx in m then m[tx] else TxAccess({}, {});
      var r := AddAccess(a, e);
      AccessGrows(entries[..i], e, m, tx, a, r);
      m := m[tx := r];
    }
    assert entries[..|entries|] == entries;
  }

  // ----- conflicts -----

  ghost predicate Clash(a: TxAccess, b: TxAccess) {
    !(a.writeSet !! b.readSet) || !(a.writeSet !! b.writeSet) || !(b.writeSet !! a.readSet)
  }

  method TxsConflict(a: TxAccess, b: TxAccess) returns (r: bool)
    ensures r <==> Clash(a, b)
  {
    var writesA := Enumerate(a.writeSet);
    for i := 0 to |writesA|
      invariant forall j :: 0 <= j < i ==> writesA[j] !in b.readSet && writesA[j] !in b.writeSet
    {
      assert writesA[i] in Elems(writesA);
      if writesA[i] in b.readSet || writesA[i] in b.writeSet {
        return true;
      }
    }
    var writesB := Enumerate(b.writeSet);
    for i := 0 to |writesB|
      invariant forall j :: 0 <= j < i ==> writesB[j] !in a.readSet
    {
      assert writesB[i] in Elems(writesB);
      if writesB[i] in a.readSet {
        return true;
      }
    }
    forall loc | loc in a.writeSet ensures loc !in b.readSet && loc !in b.writeSet { assert loc in Elems(writesA); }
    forall loc | loc in b.writeSet ensures loc !in a.readSet { assert loc in Elems(writesB); }
    return false;
  }

  /** An account change of one at an address whose slot zero the other touches. */
  ghost predicate ZeroSlotClash(a: RWSet, b: RWSet) {
    || (exists addr :: addr in a.accountWrites && SlotLocation(addr, ZERO_SLOT) in b.readSet + b.writeSet)
    || (exists addr :: addr in b.accountWrites && SlotLocation(addr, ZERO_SLOT) in a.readSet + a.writeSet)
  }

  /** The file of one transaction in both forms. */
  ghost predicate SameAccess(rw: RWSet, a: TxAccess) {
    && a.readSet == rw.readSet
    && (forall loc :: loc in a.writeSet <==>
                        loc in rw.writeSet || (loc.slot == ZERO_SLOT && loc.addr in rw.accountWrites))
  }

  lemma FormsHoldTheSame(entries: seq<AccessEntry>, sets: map<int, RWSet>, m: map<int, TxAccess>, tx: int)
    requires SetsOf(entries, sets) && AccessOf(entries, m) && tx in sets
    ensures tx in m && SameAccess(sets[tx], m[tx])
  {
    hide DeclaresRead, DeclaresWrite, DeclaresAccount, Declared;
  }

  /** This conflict test reports what the detector reports and, beyond that,
      exactly the clashes of account changes with storage slot zero. */
  lemma ClashIsConflictOrZeroSlot(a: RWSet, b: RWSet, x: TxAccess, y: TxAccess)
    requires SameAccess(a, x) && SameAccess(b, y)
    ensures Clash(x, y) <==> Conflicting(a, b) || ZeroSlotClash(a, b)
  {
    if Conflicting(a, b) {
      if addr :| addr in a.accountWrites && addr in b.accountWrites {
        assert SlotLocation(addr, ZERO_SLOT) in x.writeSet && SlotLocation(addr, ZERO_SLOT) in y.writeSet;
      }
    }
    if addr :| addr in a.accountWrites && SlotLocation(addr, ZERO_SLOT) in b.readSet + b.writeSet {
      assert SlotLocation(addr, ZERO_SLOT) in x.writeSet;
    }
    if addr :| addr in b.accountWrites && SlotLocation(addr, ZERO_SLOT) in a.readSet + a.writeSet {
      assert SlotLocation(addr, ZERO_SLOT) in y.writeSet;
    }
    if Clash(x, y) {
      if loc :| loc in x.writeSet && loc in y.readSet {
        if loc !in a.writeSet { assert loc == SlotLocation(loc.addr, ZERO_SLOT); }
      } else if loc :| loc in x.writeSet && loc in y.writeSet {
        if loc !in a.writeSet || loc !in b.writeSet { assert loc == SlotLocation(loc.addr, ZERO_SLOT); }
      } else {
        var loc :| loc in y.writeSet && loc in x.readSet;
        if loc !in b.writeSet { assert loc == SlotLocation(loc.addr, ZERO_SLOT); }
      }
    }
  }

  // ----- the conflict graph -----

  ghost function Neighbours(m: map<int, TxAccess>, x: int): set<int>
    requires x in m
  {
    set y | y in m && y != x && Clash(m[x], m[y])
  }

  function NeighboursAt(adj: map<int, set<int>>, x: int): set<int> {
    if x in adj then adj[x] else {}
  }

  /** Adjacency over the pairs (i, j) of the list seen so far. */
  ghost predicate AdjacentSoFar(m: map<int, TxAccess>, txs: seq<int>, adj: map<int, set<int>>, i: int, j: int) {
    forall x, y :: y in NeighboursAt(adj, x) <==> Adjacent(m, txs, i, j, x, y) || Adjacent(m, txs, i, j, y, x)
  }

  ghost predicate Adjacent(m: map<int, TxAccess>, txs: seq<int>, i: int, j: int, x: int, y: int) {
    exists a, b :: PairAt(txs, i, j, a, b, x, y) && x in m && y in m && Clash(m[x], m[y])
  }

  ghost predicate PairAt(txs: seq<int>, i: int, j: int, a: int, b: int, x: int, y: int) {
    0 <= a < b < |txs| && (a < i || (a == i && b < j)) && txs[a] == x && txs[b] == y
  }

  method BuildAdjacency(m: map<int, TxAccess>, txs: seq<int>) returns (adj: map<int, set<int>>)
    requires Distinct(txs) && forall x :: x in txs <==> x in m
    ensures forall x :: x in m ==> NeighboursAt(adj, x) == Neighbours(m, x)
  {
    hide Clash, AdjacentSoFar;
    adj := map[];
    assert AdjacentSoFar(m, txs, adj, 0, 1) by { NoPairsYet(m, txs); }
    for i := 0 to |txs|
      invariant AdjacentSoFar(m, txs, adj, i, i + 1)
    {
      for j := i + 1 to |txs|
        invariant AdjacentSoFar(m, txs, adj, i, j)
      {
        var x, y := txs[i], txs[j];
        assert x in txs && y in txs;
        var clash := TxsConflict(m[x], m[y]);
        PairStep(m, txs, adj, i, j);
        if clash {
          adj := WithEdge(adj, x, y);
        }
      }
      RowStep(m, txs, adj, i);
    }
    AllPairs(m, txs, adj);
  }

  /** Each is recorded with the other. */
  function WithEdge(adj: map<int, set<int>>, x: int, y: int): map<int, set<int>> {
    var half := adj[x := NeighboursAt(adj, x) + {y}];
    half[y := NeighboursAt(half, y) + {x}]
  }

  lemma PairStep(m: map<int, TxAccess>, txs: seq<int>, adj: map<int, set<int>>, i: int, j: int)
    requires 0 <= i < j < |txs| && txs[i] in m && txs[j] in m && txs[i] != txs[j] && AdjacentSoFar(m, txs, adj, i, j)
    ensures AdjacentSoFar(m, txs, if Clash(m[txs[i]], m[txs[j]]) then WithEdge(adj, txs[i], txs[j]) else adj, i, j + 1)
  {
    hide Clash, Adjacent, WithEdge, NeighboursAt;
    PairAdded(m, txs, i, j);
    if Clash(m[txs[i]], m[txs[j]]) {
      forall x, y
        ensures y in NeighboursAt(WithEdge(adj, txs[i], txs[j]), x) <==>
                Adjacent(m, txs, i, j + 1, x, y) || Adjacent(m, txs, i, j + 1, y, x)
      {
        EdgeIsRecorded(adj, txs[i], txs[j], x, y);
      }
    }
  }

  lemma EdgeIsRecorded(adj: map<int, set<int>>, a: int, b: int, x: int, y: int)
    ensures y in NeighboursAt(WithEdge(adj, a, b), x) <==>
            y in NeighboursAt(adj, x) || (x == a && y == b) || (x == b && y == a)
  {
  }

  lemma RowStep(m: map<int, TxAccess>, txs: seq<int>, adj: map<int, set<int>>, i: int)
    requires 0 <= i < |txs| && AdjacentSoFar(m, txs, adj, i, |txs|)
    ensures AdjacentSoFar(m, txs, adj, i + 1, i + 2)
  {
    hide Clash, Adjacent;
    RowDone(m, txs, i);
  }

  lemma NoPairsYet(m: map<int, TxAccess>, txs: seq<int>)
    ensures AdjacentSoFar(m, txs, map[], 0, 1)
  {
  }

  lemma PairAdded(m: map<int, TxAccess>, txs: seq<int>, i: int, j: int)
    requires 0 <= i < j < |txs| && txs[i] in m && txs[j] in m
    ensures forall x, y :: Adjacent(m, txs, i, j + 1, x, y) <==>
              Adjacent(m, txs, i, j, x, y) || (x == txs[i] && y == txs[j] && Clash(m[x], m[y]))
  {
    hide Clash;
    forall x, y ensures Adjacent(m, txs, i, j + 1, x, y) <==>
                        Adjacent(m, txs, i, j, x, y) || (x == txs[i] && y == txs[j] && Clash(m[x], m[y]))
    {
      if Adjacent(m, txs, i, j + 1, x, y) {
        var a, b :| PairAt(txs, i, j + 1, a, b, x, y);
        assert PairAt(txs, i, j, a, b, x, y) || (a == i && b == j);
      }
      if Adjacent(m, txs, i, j, x, y) {
        var a, b :| PairAt(txs, i, j, a, b, x, y);
        assert PairAt(txs, i, j + 1, a, b, x, y);
      }
      if x == txs[i] && y == txs[j] { assert PairAt(txs, i, j + 1, i, j, x, y); }
    }
  }

  lemma RowDone(m: map<int, TxAccess>, txs: seq<int>, i: int)
    requires 0 <= i < |txs|
    ensures forall x, y :: Adjacent(m, txs, i, |txs|, x, y) <==> Adjacent(m, txs, i + 1, i + 2, x, y)
  {
    hide Clash;
    forall x, y ensures Adjacent(m, txs, i, |txs|, x, y) <==> Adjacent(m, txs, i + 1, i + 2, x, y) {
      if Adjacent(m, txs, i, |txs|, x, y) {
        var a, b :| PairAt(txs, i, |txs|, a, b, x, y);
        assert PairAt(txs, i + 1, i + 2, a, b, x, y);
      }
      if Adjacent(m, txs, i + 1, i + 2, x, y) {
        var a, b :| PairAt(txs, i + 1, i + 2, a, b, x, y);
        assert PairAt(txs, i, |txs|, a, b, x, y);
      }
    }
  }

  lemma AllPairs(m: map<int, TxAccess>, txs: seq<int>, adj: map<int, set<int>>)
    requires Distinct(txs) && (forall x :: x in txs <==> x in m) && AdjacentSoFar(m, txs, adj, |txs|, |txs| + 1)
    ensures forall x :: x in m ==> NeighboursAt(adj, x) == Neighbours(m, x)
  {
    hide Clash;
    forall x, y | x in m ensures y in NeighboursAt(adj, x) <==> y in Neighbours(m, x) {
      ClashIsSymmetric(m, x, y);
      if y in Neighbours(m, x) {
        var a :| 0 <= a < |txs| && txs[a] == x;
        var b :| 0 <= b < |txs| && txs[b] == y;
        if a < b {
          assert PairAt(txs, |txs|, |txs| + 1, a, b, x, y);
        } else {
          assert PairAt(txs, |txs|, |txs| + 1, b, a, y, x);
        }
      }
      if y in NeighboursAt(adj, x) {
        assert Adjacent(m, txs, |txs|, |txs| + 1, x, y) || Adjacent(m, txs, |txs|, |txs| + 1, y, x);
      }
    }
  }

  lemma ClashIsSymmetric(m: map<int, TxAccess>, x: int, y: int)
    ensures x in m && y in m ==> (Clash(m[x], m[y]) <==> Clash(m[y], m[x]))
  {
  }

  // ----- colours -----

  /** An earlier neighbour of `x` has colour `k`. */
  ghost predicate Sees(m: map<int, TxAccess>, colour: map<int, nat>, x: int, k: nat)
    requires x in m
  {
    exists y :: y in Neighbours(m, x) && y in colour && y < x && colour[y] == k
  }

  /** Neighbours have different colours, a colour is at most the number of
      neighbours, and every smaller colour is taken by an earlier neighbour. */
  ghost predicate Coloured(m: map<int, TxAccess>, colour: map<int, nat>) {
    && (forall x :: x in colour ==> x in m && colour[x] <= |Neighbours(m, x)|)
    && (forall x, y :: x in colour && y in colour && y in Neighbours(m, x) ==> colour[x] != colour[y])
    && (forall x, k: nat :: x in colour && k < colour[x] ==> Sees(m, colour, x, k))
  }

  /** The smallest colour not used. */
  method SmallestUnused(used: set<nat>) returns (c: nat)
    ensures c !in used && c <= |used| && forall k: nat :: k < c ==> k in used
  {
    c := 0;
    while c in used
      invariant forall k: nat :: k < c ==> k in used
      decreases |used| - c
    {
      SubsetCardinality(Below(c + 1), used);
      c := c + 1;
    }
    SubsetCardinality(Below(c), used);
  }

  method UsedColours(neighbours: set<int>, colour: map<int, nat>) returns (used: set<nat>)
    ensures forall c: nat :: c in used <==> exists n :: n in neighbours && n in colour && colour[n] == c
    ensures |used| <= |neighbours|
  {
    used := {};
    var list := Enumerate(neighbours);
    for i := 0 to |list|
      invariant forall c: nat :: c in used <==> exists j :: 0 <= j < i && list[j] in colour && colour[list[j]] == c
      invariant |used| <= i
    {
      var n := list[i];
      if n in colour {
        used := used + {colour[n]};
      }
    }
    forall c: nat ensures c in used <==> exists n :: n in neighbours && n in colour && colour[n] == c {
      if j :| 0 <= j < |list| && list[j] in colour && colour[list[j]] == c {
        var n := list[j];
        assert n in Elems(list) && n in neighbours && n in colour && colour[n] == c;
      }
      if n :| n in neighbours && n in colour && colour[n] == c {
        assert n in Elems(list);
        var j :| 0 <= j < |list| && list[j] == n;
        assert list[j] in colour && colour[list[j]] == c;
      }
    }
  }

  method GreedyColours(m: map<int, TxAccess>, txs: seq<int>, adj: map<int, set<int>>) returns (colour: map<int, nat>)
    requires StrictlyAscending(txs) && forall x :: x in txs <==> x in m
    requires forall x :: x in m ==> NeighboursAt(adj, x) == Neighbours(m, x)
    ensures colour.Keys == m.Keys && Coloured(m, colour)
  {
    hide Neighbours, Coloured;
    colour := map[];
    NoColours(m);
    for i := 0 to |txs|
      invariant Coloured(m, colour) && colour.Keys == Elems(txs[..i])
    {
      var idx := txs[i];
      assert idx in txs;
      forall x | x in colour ensures x < idx { assert x in Elems(txs[..i]); }
      var used := UsedColours(NeighboursAt(adj, idx), colour);
      var c := SmallestUnused(used);
      ColourOne(m, colour, idx, used, c);
      colour := colour[idx := c];
      assert txs[..i + 1] == txs[..i] + [idx];
    }
    assert txs[..|txs|] == txs;
    forall x ensures x in Elems(txs) <==> x in m.Keys { assert x in txs <==> x in m; }
  }

  lemma NoColours(m: map<int, TxAccess>)
    ensures Coloured(m, map[])
  {
  }

  lemma ColourOne(m: map<int, TxAccess>, colour: map<int, nat>, idx: int, used: set<nat>, c: nat)
    requires Coloured(m, colour) && idx in m && forall x :: x in colour ==> x < idx
    requires forall k: nat :: k in used <==> exists n :: n in Neighbours(m, idx) && n in colour && colour[n] == k
    requires |used| <= |Neighbours(m, idx)| && c !in used && c <= |used| && forall k: nat :: k < c ==> k in used
    ensures Coloured(m, colour[idx := c])
  {
    hide Clash;
    var after := colour[idx := c];
    forall x, k: nat | x in after && k < after[x] ensures Sees(m, after, x, k) {
      if x == idx {
        assert k in used;
        var n :| n in Neighbours(m, idx) && n in colour && colour[n] == k;
        assert n in after && after[n] == k;
      } else {
        assert Sees(m, colour, x, k);
        var y :| y in Neighbours(m, x) && y in colour && y < x && colour[y] == k;
        assert y in after && after[y] == k;
      }
    }
    forall y | y in colour && (y in Neighbours(m, idx) || idx in Neighbours(m, y)) ensures colour[y] != c {
      ClashIsSymmetric(m, idx, y);
      assert y in Neighbours(m, idx);
    }
  }

  // ----- groups -----

  /** The transactions of one colour, in list order. */
  ghost function OfColour(txs: seq<int>, colour: map<int, nat>, c: nat): (r: seq<int>)
    ensures forall x :: x in r <==> x in txs && x in colour && colour[x] == c
  {
    if txs == [] then []
    else
      var last := txs[|txs| - 1];
      OfColour(txs[..|txs| - 1], colour, c) + if last in colour && colour[last] == c then [last] else []
  }

  lemma {:induction false} OfColourAscends(txs: seq<int>, colour: map<int, nat>, c: nat)
    requires StrictlyAscending(txs)
    ensures StrictlyAscending(OfColour(txs, colour, c))
  {
    if txs != [] {
      var front, last := txs[..|txs| - 1], txs[|txs| - 1];
      OfColourAscends(front, colour, c);
      var r := OfColour(front, colour, c);
      forall i | 0 <= i < |r| ensures r[i] < last { assert r[i] in r; }
    }
  }

  lemma OfColourAppend(txs: seq<int>, x: int, colour: map<int, nat>, c: nat)
    requires x in colour
    ensures OfColour(txs + [x], colour, c) == OfColour(txs, colour, c) + if colour[x] == c then [x] else []
  {
    assert (txs + [x])[..|txs|] == txs;
  }

  lemma NoTransactions(colour: map<int, nat>)
    ensures forall c: nat :: OfColour([], colour, c) == []
  {
  }

  ghost predicate GroupsHold(groupMap: map<nat, seq<int>>, txs: seq<int>, colour: map<int, nat>) {
    forall c: nat :: (c in groupMap <==> OfColour(txs, colour, c) != [])
                     && (c in groupMap ==> groupMap[c] == OfColour(txs, colour, c))
  }

  method GroupByColour(txs: seq<int>, colour: map<int, nat>) returns (groupMap: map<nat, seq<int>>)
    requires forall x :: x in txs ==> x in colour
    ensures GroupsHold(groupMap, txs, colour)
  {
    hide OfColour;
    groupMap := map[];
    NoTransactions(colour);
    for i := 0 to |txs|
      invariant GroupsHold(groupMap, txs[..i], colour)
    {
      var idx := txs[i];
      assert idx in txs;
      assert txs[..i + 1] == txs[..i] + [idx];
      forall c: nat ensures OfColour(txs[..i + 1], colour, c) ==
                            OfColour(txs[..i], colour, c) + if colour[idx] == c then [idx] else []
      {
        OfColourAppend(txs[..i], idx, colour, c);
      }
      var c := colour[idx];
      groupMap := groupMap[c := (if c in groupMap then groupMap[c] else []) + [idx]];
    }
    assert txs[..|txs|] == txs;
  }

  /** The groups of the colours in ascending order. */
  ghost predicate GroupsOf(groups: seq<seq<int>>, ids: seq<int>, txs: seq<int>, colour: map<int, nat>) {
    && |groups| == |ids| && StrictlyAscending(ids)
    && (forall k :: 0 <= k < |ids| ==> ids[k] >= 0 && groups[k] == OfColour(txs, colour, ids[k]) && groups[k] != [])
    && (forall x :: x in txs && x in colour ==> colour[x] in ids)
  }

  method ListGroups(groupMap: map<nat, seq<int>>, ghost txs: seq<int>, ghost colour: map<int, nat>)
    returns (groups: seq<seq<int>>)
    requires GroupsHold(groupMap, txs, colour)
    ensures exists ids :: GroupsOf(groups, ids, txs, colour)
  {
    hide OfColour, Ascending, StrictlyAscending;
    var keys := Enumerate(groupMap.Keys);
    var sorted := SortInts(keys);
    SortedKeysAscend(keys, sorted);
    forall id ensures id in sorted <==> id >= 0 && id in groupMap { assert id in keys <==> id in Elems<int>(keys); }
    groups := [];
    for i := 0 to |sorted|
      invariant |groups| == i
      invariant forall k :: 0 <= k < i ==> sorted[k] >= 0 && sorted[k] in groupMap && groups[k] == groupMap[sorted[k]]
    {
      var id := sorted[i];
      assert id in sorted;
      groups := groups + [groupMap[id]];
    }
    forall x | x in txs && x in colour ensures colour[x] in sorted {
      assert x in OfColour(txs, colour, colour[x]);
    }
    assert GroupsOf(groups, sorted, txs, colour);
  }

  /** Every transaction in exactly one group; groups ascend. */
  ghost predicate EachOnce(m: map<int, TxAccess>, groups: seq<seq<int>>) {
    && (forall g :: 0 <= g < |groups| ==> groups[g] != [] && StrictlyAscending(groups[g]))
    && (forall x :: x in m <==> exists g :: 0 <= g < |groups| && x in groups[g])
    && (forall x, g, h :: 0 <= g < |groups| && 0 <= h < |groups| && x in groups[g] && x in groups[h] ==> g == h)
  }

  ghost predicate ConflictFree(m: map<int, TxAccess>, groups: seq<seq<int>>) {
    forall g, x, y :: 0 <= g < |groups| && x in groups[g] && y in groups[g] && x in m && y in m && x != y ==>
                        !Clash(m[x], m[y])
  }

  ghost predicate ClashesWithin(m: map<int, TxAccess>, x: int, group: seq<int>)
    requires x in m
  {
    exists y :: y in group && y in m && y < x && Clash(m[x], m[y])
  }

  /** Each transaction clashes with an earlier one in every group before its own. */
  ghost predicate MeetsEarlier(m: map<int, TxAccess>, groups: seq<seq<int>>) {
    forall g, h, x :: 0 <= h < g < |groups| && x in groups[g] && x in m ==> ClashesWithin(m, x, groups[h])
  }

  ghost predicate DegreesWithin(m: map<int, TxAccess>, most: nat) {
    forall x :: x in m ==> |Neighbours(m, x)| <= most
  }

  /** At most one group more than the largest number of neighbours. */
  ghost predicate FewGroups(m: map<int, TxAccess>, groups: seq<seq<int>>) {
    forall most: nat :: DegreesWithin(m, most) ==> |groups| <= most + 1
  }

  ghost predicate ParallelGroups(m: map<int, TxAccess>, groups: seq<seq<int>>) {
    EachOnce(m, groups) && ConflictFree(m, groups) && MeetsEarlier(m, groups) && FewGroups(m, groups)
  }

  /** What the groups are made from. */
  ghost predicate Grouped(m: map<int, TxAccess>, txs: seq<int>, colour: map<int, nat>, groups: seq<seq<int>>,
                          ids: seq<int>) {
    && StrictlyAscending(txs) && (forall x :: x in txs <==> x in m) && colour.Keys == m.Keys && Coloured(m, colour)
    && GroupsOf(groups, ids, txs, colour)
  }

  lemma GroupMembers(m: map<int, TxAccess>, txs: seq<int>, colour: map<int, nat>, groups: seq<seq<int>>, ids: seq<int>,
                     g: int, x: int)
    requires Grouped(m, txs, colour, groups, ids) && 0 <= g < |groups|
    ensures |ids| == |groups| && (x in groups[g] <==> x in m && colour[x] == ids[g])
  {
    hide Coloured, OfColour;
  }

  lemma GroupsHoldEachOnce(m: map<int, TxAccess>, txs: seq<int>, colour: map<int, nat>, groups: seq<seq<int>>,
                           ids: seq<int>)
    requires Grouped(m, txs, colour, groups, ids)
    ensures EachOnce(m, groups)
  {
    hide Coloured, OfColour;
    forall g | 0 <= g < |groups| ensures StrictlyAscending(groups[g]) { OfColourAscends(txs, colour, ids[g]); }
    forall x ensures x in m <==> exists g :: 0 <= g < |groups| && x in groups[g] {
      if x in m {
        var g :| 0 <= g < |ids| && ids[g] == colour[x];
        assert x in groups[g];
      }
    }
  }

  lemma GroupsAreConflictFree(m: map<int, TxAccess>, txs: seq<int>, colour: map<int, nat>, groups: seq<seq<int>>,
                              ids: seq<int>)
    requires Grouped(m, txs, colour, groups, ids)
    ensures ConflictFree(m, groups)
  {
    hide Clash, Neighbours, OfColour, GroupsOf;
    forall g, x, y | 0 <= g < |groups| && x in groups[g] && y in groups[g] && x in m && y in m && x != y
      ensures !Clash(m[x], m[y])
    {
      GroupMembers(m, txs, colour, groups, ids, g, x);
      GroupMembers(m, txs, colour, groups, ids, g, y);
      NeighbourIsClash(m, x, y);
    }
  }

  lemma GroupsMeetEarlier(m: map<int, TxAccess>, txs: seq<int>, colour: map<int, nat>, groups: seq<seq<int>>,
                          ids: seq<int>)
    requires Grouped(m, txs, colour, groups, ids)
    ensures MeetsEarlier(m, groups)
  {
    hide Clash, Neighbours, OfColour;
    forall g, h, x | 0 <= h < g < |groups| && x in groups[g] && x in m ensures ClashesWithin(m, x, groups[h]) {
      GroupMembers(m, txs, colour, groups, ids, g, x);
      var k: nat := ids[h];
      assert Sees(m, colour, x, k);
      var y :| y in Neighbours(m, x) && y in colour && y < x && colour[y] == k;
      NeighbourIsOther(m, x, y);
      NeighbourIsClash(m, x, y);
      GroupMembers(m, txs, colour, groups, ids, h, y);
      assert y in groups[h];
    }
  }

  lemma GroupsAreFew(m: map<int, TxAccess>, txs: seq<int>, colour: map<int, nat>, groups: seq<seq<int>>, ids: seq<int>)
    requires Grouped(m, txs, colour, groups, ids)
    ensures FewGroups(m, groups)
  {
    hide Clash, Neighbours, OfColour;
    forall most: nat | DegreesWithin(m, most) ensures |groups| <= most + 1 {
      forall c | c in Elems(ids) ensures c in Below(most + 1) {
        var k :| 0 <= k < |ids| && ids[k] == c;
        var x := groups[k][0];
        GroupMembers(m, txs, colour, groups, ids, k, x);
      }
      DistinctCardinality(ids);
      SubsetCardinality<int>(Elems(ids), Below(most + 1));
    }
  }

  lemma NeighbourIsOther(m: map<int, TxAccess>, x: int, y: int)
    requires x in m && y in Neighbours(m, x)
    ensures y in m && y != x
  {
  }

  lemma NeighbourIsClash(m: map<int, TxAccess>, x: int, y: int)
    requires x in m && y in m && x != y
    ensures y in Neighbours(m, x) <==> Clash(m[x], m[y])
  {
  }

  ghost function AccessFor(rw: RWSet): (a: TxAccess)
    ensures SameAccess(rw, a)
  {
    TxAccess(rw.readSet, rw.writeSet + set addr | addr in rw.accountWrites :: SlotLocation(addr, ZERO_SLOT))
  }

  /** The access sets an access list declares. */
  ghost function DeclaredAccess(entries: seq<AccessEntry>): map<int, TxAccess> {
    map tx | tx in DeclaredSets(entries) :: AccessFor(DeclaredSets(entries)[tx])
  }

  lemma AccessIsDeclared(entries: seq<AccessEntry>, m: map<int, TxAccess>)
    requires AccessOf(entries, m)
    ensures m == DeclaredAccess(entries)
  {
    hide DeclaredSets;
    var sets := DeclaredSets(entries);
    forall tx ensures tx in m <==> tx in sets { assert Declared(entries, tx) <==> tx in sets; }
    forall tx | tx in sets ensures m[tx] == AccessFor(sets[tx]) {
      FormsHoldTheSame(entries, sets, m, tx);
      assert m[tx].writeSet == AccessFor(sets[tx]).writeSet;
    }
  }

  method ComputeParallelSets(entries: seq<AccessEntry>) returns (groups: seq<seq<int>>)
    ensures ParallelGroups(DeclaredAccess(entries), groups)
  {
    hide Clash, Neighbours, OfColour, AccessOf, Coloured, GroupsOf, DeclaredAccess, EachOnce, ConflictFree,
         MeetsEarlier, FewGroups;
    var txMap := CollectAccess(entries);
    AccessIsDeclared(entries, txMap);
    if |txMap| == 0 {
      NoGroups(txMap);
      return [];
    }
    var keys := Enumerate(txMap.Keys);
    var txs := SortInts(keys);
    DistinctPermutation(keys, txs);
    forall x ensures x in txs <==> x in txMap { assert x in keys <==> x in Elems(keys); }
    var adj := BuildAdjacency(txMap, txs);
    var colour := GreedyColours(txMap, txs, adj);
    var groupMap := GroupByColour(txs, colour);
    groups := ListGroups(groupMap, txs, colour);
    ghost var ids :| GroupsOf(groups, ids, txs, colour);
    GroupsHoldEachOnce(txMap, txs, colour, groups, ids);
    GroupsAreConflictFree(txMap, txs, colour, groups, ids);
    GroupsMeetEarlier(txMap, txs, colour, groups, ids);
    GroupsAreFew(txMap, txs, colour, groups, ids);
  }

  lemma NoGroups(m: map<int, TxAccess>)
    requires |m| == 0
    ensures ParallelGroups(m, [])
  {
    assert m.Keys == {};
  }
}
