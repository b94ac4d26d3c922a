/** The attestation pool: over every run it holds exactly the participations
    accepted and not pruned, and its counters match. */
module AggregationPools {
  import opened Collections
  import opened Bitfields
  import opened Aggregation

  lemma Cancel(x: multiset<nat>, y: multiset<nat>, z: multiset<nat>)
    requires x + z == y + z
    ensures x == y
  {
    forall k ensures x[k] == y[k] { assert (x + z)[k] == (y + z)[k]; }
  }

  /** Entry `i`, the first that does not overlap `a`, has taken `a` in. */
  ghost predicate MergedAt<K, S>(list: seq<Aggregate<K, S>>, a: Aggregate<K, S>, combine: (S, S) -> S, i: int,
                                 r: seq<Aggregate<K, S>>) {
    && 0 <= i < |list| == |r| && !Overlap(list[i], a) && (forall j :: 0 <= j < i ==> Overlap(list[j], a))
    && r == list[i := r[i]] && r[i].slot == list[i].slot && r[i].data == list[i].data
    && Members(r[i].bits) == Members(list[i].bits) + Members(a.bits)
    && r[i].signature == combine(list[i].signature, a.signature)
  }

  /** How an accepted attestation changes the lists: its own list takes it in,
      or gets it at the end when it overlaps all; other lists stay. */
  ghost predicate Filed<K(!new), S(!new)>(before: map<nat, SlotMap<K, S>>, after: map<nat, SlotMap<K, S>>,
                                          a: Aggregate<K, S>, combine: (S, S) -> S) {
    var list, r := ListFor(before, a.slot, a.data), ListFor(after, a.slot, a.data);
    && (forall s: nat, d: K :: !(s == a.slot && d == a.data) ==> ListFor(after, s, d) == ListFor(before, s, d))
    && if forall x :: x in list ==> Overlap(x, a) then r == list + [a] else exists i :: MergedAt(list, a, combine, i, r)
  }

  ghost predicate SameLists<K(!new), S(!new)>(before: map<nat, SlotMap<K, S>>, after: map<nat, SlotMap<K, S>>) {
    forall s: nat, d: K :: ListFor(after, s, d) == ListFor(before, s, d)
  }

  /** Merges the attestation into the first aggregate it does not overlap. */
  method MergeInto<K, S>(list: seq<Aggregate<K, S>>, a: Aggregate<K, S>, combine: (S, S) -> S)
    returns (r: seq<Aggregate<K, S>>, merged: bool)
    requires AllOf(list, a.slot, a.data)
    ensures |r| == |list| && AllOf(r, a.slot, a.data)
    ensures merged ==>
              Tally(r) == Tally(list) + multiset(Members(a.bits)) && exists i :: MergedAt(list, a, combine, i, r)
    ensures !merged ==> r == list && forall i :: 0 <= i < |list| ==> Overlap(list[i], a)
  {
    hide Members, Tally;
    for i := 0 to |list|
      invariant forall j :: 0 <= j < i ==> Overlap(list[j], a)
    {
      var overlaps := BitfieldOverlaps(list[i].bits, a.bits);
      if !overlaps {
        var both := MergeAggregates(list[i], a, combine);
        DisjointUnion(Members(list[i].bits), Members(a.bits));
        TallyUpdate(list, i, both);
        Cancel(Tally(list[i := both]), Tally(list) + multiset(Members(a.bits)), multiset(Members(list[i].bits)));
        assert MergedAt(list, a, combine, i, list[i := both]);
        return list[i := both], true;
      }
    }
    return list, false;
  }

  // ----- what the steps do to the whole pool -----

  ghost function Stored<K(!new), S>(pending: map<nat, SlotMap<K, S>>, slot: nat): SlotMap<K, S> {
    if slot in pending then pending[slot] else map[]
  }

  function Put<K(==), S>(pending: map<nat, SlotMap<K, S>>, slot: nat, data: K, list: seq<Aggregate<K, S>>)
    : map<nat, SlotMap<K, S>>
  {
    pending[slot := (if slot in pending then pending[slot] else map[])[data := list]]
  }

  lemma PutLists<K(!new), S>(pending: map<nat, SlotMap<K, S>>, slot: nat, data: K, list: seq<Aggregate<K, S>>, s: nat,
                             d: K)
    ensures ListFor(Put(pending, slot, data, list), s, d) ==
            if s == slot && d == data then list else ListFor(pending, s, d)
  {
  }

  lemma PutTotal<K(!new), S>(pending: map<nat, SlotMap<K, S>>, slot: nat, data: K, list: seq<Aggregate<K, S>>, s: nat)
    ensures SlotTotal(Put(pending, slot, data, list), s) ==
            if s == slot then SlotTotal(pending, s) - |ListFor(pending, slot, data)| + |list| else SlotTotal(pending, s)
  {
    hide Total;
    TotalUpdate(Stored(pending, slot), data, list);
    NothingStored<K, S>();
  }

  lemma NothingStored<K(!new), S>()
    ensures Total<K, S>(map[]) == 0
  {
  }

  lemma AcceptedAppend<K(!new), S>(log: seq<PoolEvent<K, S>>, a: Aggregate<K, S>, s: nat, d: K)
    ensures AcceptedVotes(log + [Accepted(a)], s, d) ==
            AcceptedVotes(log, s, d) + if a.slot == s && a.data == d then multiset(Members(a.bits)) else multiset{}
  {
    var more := log + [Accepted(a)];
    assert more[..|more| - 1] == log;
  }

  lemma PrunedAppend<K(!new), S>(log: seq<PoolEvent<K, S>>, cutoff: nat, s: nat, d: K)
    ensures AcceptedVotes(log + [PrunedBelow(cutoff)], s, d) ==
            if s < cutoff then multiset{} else AcceptedVotes(log, s, d)
  {
    var more := log + [PrunedBelow(cutoff)];
    assert more[..|more| - 1] == log;
  }

  /** Storing an accepted attestation in its list keeps the books. */
  lemma AcceptConserves<K(!new), S(!new)>(pending: map<nat, SlotMap<K, S>>, log: seq<PoolEvent<K, S>>,
                                          a: Aggregate<K, S>, list: seq<Aggregate<K, S>>)
    requires Conserves(pending, log) && AllOf(list, a.slot, a.data)
    requires Tally(list) == Tally(ListFor(pending, a.slot, a.data)) + multiset(Members(a.bits))
    ensures Conserves(Put(pending, a.slot, a.data, list), log + [Accepted(a)])
  {
    hide Tally, Members, AcceptedVotes, AllOf, ListFor, Put;
    forall s: nat, d: K
      ensures AllOf(ListFor(Put(pending, a.slot, a.data, list), s, d), s, d)
      ensures Tally(ListFor(Put(pending, a.slot, a.data, list), s, d)) == AcceptedVotes(log + [Accepted(a)], s, d)
    {
      PutLists(pending, a.slot, a.data, list, s, d);
      AcceptedAppend(log, a, s, d);
    }
  }

  /** Replacing a list by one with the same participations keeps the books. */
  lemma ReplaceConserves<K(!new), S(!new)>(pending: map<nat, SlotMap<K, S>>, log: seq<PoolEvent<K, S>>, slot: nat,
                                           data: K, list: seq<Aggregate<K, S>>)
    requires Conserves(pending, log) && AllOf(list, slot, data) && Tally(list) == Tally(ListFor(pending, slot, data))
    ensures Conserves(Put(pending, slot, data, list), log)
  {
    hide Tally, AcceptedVotes, AllOf, ListFor, Put;
    forall s: nat, d: K
      ensures AllOf(ListFor(Put(pending, slot, data, list), s, d), s, d)
      ensures Tally(ListFor(Put(pending, slot, data, list), s, d)) == AcceptedVotes(log, s, d)
    {
      PutLists(pending, slot, data, list, s, d);
    }
  }

  lemma InitConserves<K(!new), S(!new)>(pending: map<nat, SlotMap<K, S>>, more: map<nat, SlotMap<K, S>>,
                                        log: seq<PoolEvent<K, S>>, slot: nat)
    requires Conserves(pending, log) && slot !in pending && more == pending[slot := map[]]
    ensures Conserves(more, log)
    ensures forall s: nat :: SlotTotal(more, s) == SlotTotal(pending, s)
    ensures forall d: K :: ListFor(more, slot, d) == ListFor(pending, slot, d)
  {
    hide Tally, AcceptedVotes, AllOf, Total;
    NothingStored<K, S>();
    forall s: nat, d: K
      ensures AllOf(ListFor(more, s, d), s, d)
      ensures Tally(ListFor(more, s, d)) == AcceptedVotes(log, s, d)
    {
      assert ListFor(more, s, d) == ListFor(pending, s, d);
      assert AllOf(ListFor(pending, s, d), s, d);
    }
  }

  /** An empty slot map changes no list, no total and nothing conserved. */
  lemma InitKeeps<K(!new), S(!new)>(pending: map<nat, SlotMap<K, S>>, more: map<nat, SlotMap<K, S>>,
                                    log: seq<PoolEvent<K, S>>, counts: map<nat, int>, maxPerSlot: int, slot: nat)
    requires Conserves(pending, log) && CountsHold(pending, counts, maxPerSlot)
    requires slot !in pending && more == pending[slot := map[]]
    ensures Conserves(more, log) && CountsHold(more, counts, maxPerSlot) && SameLists(pending, more)
    ensures SlotTotal(more, slot) == SlotTotal(pending, slot)
  {
    InitConserves(pending, more, log, slot);
    hide Tally, AcceptedVotes, AllOf, Total, Conserves;
  }

  lemma ListIsOwn<K(!new), S(!new)>(pending: map<nat, SlotMap<K, S>>, log: seq<PoolEvent<K, S>>, slot: nat, data: K)
    requires Conserves(pending, log)
    ensures AllOf(ListFor(pending, slot, data), slot, data)
  {
    hide AllOf, Tally, AcceptedVotes, ListFor;
  }

  lemma CountIsTotal<K(!new), S>(pending: map<nat, SlotMap<K, S>>, counts: map<nat, int>, maxPerSlot: int, slot: nat)
    requires CountsHold(pending, counts, maxPerSlot)
    ensures CountAt(counts, slot) == SlotTotal(pending, slot)
  {
  }

  lemma MergeIsFiled<K(!new), S(!new)>(before: map<nat, SlotMap<K, S>>, pending: map<nat, SlotMap<K, S>>,
                                       a: Aggregate<K, S>, combine: (S, S) -> S, list: seq<Aggregate<K, S>>)
    requires SameLists(before, pending) && exists i :: MergedAt(ListFor(pending, a.slot, a.data), a, combine, i, list)
    ensures Filed(before, Put(pending, a.slot, a.data, list), a, combine)
    ensures exists x :: x in ListFor(before, a.slot, a.data) && !Overlap(x, a)
  {
    var old' := ListFor(pending, a.slot, a.data);
    var i :| MergedAt(old', a, combine, i, list);
    assert old'[i] in old' && !Overlap(old'[i], a);
    hide MergedAt, Overlap, ListFor, Put;
    forall s: nat, d: K ensures ListFor(Put(pending, a.slot, a.data, list), s, d) ==
                                if s == a.slot && d == a.data then list else ListFor(before, s, d)
    {
      PutLists(pending, a.slot, a.data, list, s, d);
    }
  }

  lemma AppendIsFiled<K(!new), S(!new)>(before: map<nat, SlotMap<K, S>>, pending: map<nat, SlotMap<K, S>>,
                                        a: Aggregate<K, S>, combine: (S, S) -> S)
    requires SameLists(before, pending)
    requires var list := ListFor(pending, a.slot, a.data); forall i :: 0 <= i < |list| ==> Overlap(list[i], a)
    ensures Filed(before, Put(pending, a.slot, a.data, ListFor(pending, a.slot, a.data) + [a]), a, combine)
  {
    hide MergedAt, Overlap, ListFor, Put;
    var list := ListFor(pending, a.slot, a.data) + [a];
    forall s: nat, d: K ensures ListFor(Put(pending, a.slot, a.data, list), s, d) ==
                                if s == a.slot && d == a.data then list else ListFor(before, s, d)
    {
      PutLists(pending, a.slot, a.data, list, s, d);
    }
  }

  lemma PruneConserves<K(!new), S(!new)>(pending: map<nat, SlotMap<K, S>>, kept: map<nat, SlotMap<K, S>>,
                                         log: seq<PoolEvent<K, S>>, cutoff: nat)
    requires Conserves(pending, log) && kept == map s | s in pending && s >= cutoff :: pending[s]
    ensures Conserves(kept, log + [PrunedBelow(cutoff)])
  {
    hide Tally, AcceptedVotes, Members;
    TallyEmpty<K, S>();
    forall s: nat, d: K
      ensures AllOf(ListFor(kept, s, d), s, d)
      ensures Tally(ListFor(kept, s, d)) == AcceptedVotes(log + [PrunedBelow(cutoff)], s, d)
    {
      PrunedAppend(log, cutoff, s, d);
      assert ListFor(kept, s, d) == if s >= cutoff then ListFor(pending, s, d) else [];
      assert AllOf(ListFor(pending, s, d), s, d);
    }
  }

  lemma KeepCounts<K(!new), S>(pending: map<nat, SlotMap<K, S>>, counts: map<nat, int>, maxPerSlot: int, slot: nat,
                               data: K, list: seq<Aggregate<K, S>>)
    requires CountsHold(pending, counts, maxPerSlot) && |list| == |ListFor(pending, slot, data)|
    ensures CountsHold(Put(pending, slot, data, list), counts, maxPerSlot)
  {
    hide SlotTotal, Put;
    forall s: nat ensures SlotTotal(Put(pending, slot, data, list), s) == SlotTotal(pending, s) {
      PutTotal(pending, slot, data, list, s);
    }
  }

  lemma RaiseCount<K(!new), S>(pending: map<nat, SlotMap<K, S>>, counts: map<nat, int>, maxPerSlot: int, slot: nat,
                               data: K, list: seq<Aggregate<K, S>>)
    requires CountsHold(pending, counts, maxPerSlot) && |list| == |ListFor(pending, slot, data)| + 1
    requires CountAt(counts, slot) < maxPerSlot
    ensures CountsHold(Put(pending, slot, data, list), counts[slot := CountAt(counts, slot) + 1], maxPerSlot)
  {
    hide SlotTotal, Put;
    forall s: nat
      ensures SlotTotal(Put(pending, slot, data, list), s) == SlotTotal(pending, s) + if s == slot then 1 else 0
    {
      PutTotal(pending, slot, data, list, s);
    }
  }

  /** Adds up the list lengths of a slot. */
  method CountSlot<K(!new, ==), S>(m: SlotMap<K, S>) returns (count: nat)
    ensures count == Total(m)
  {
    hide LengthSum;
    count := 0;
    var keys := Enumerate(m.Keys);
    ghost var done: set<K> := {};
    NoLengths(m);
    for i := 0 to |keys|
      invariant done == Elems(keys[..i]) && count == LengthSum(m, done)
    {
      var k := keys[i];
      assert k in Elems(keys);
      LengthSumSplit(m, done + {k}, k);
      assert done + {k} - {k} == done;
      count := count + |m[k]|;
      done := done + {k};
    }
    assert keys[..|keys|] == keys;
  }

  lemma NoLengths<K(!new), S>(m: SlotMap<K, S>)
    ensures LengthSum(m, {}) == 0
  {
  }

  /** Every aggregate of `after` is made of entries of `list`, taken in some
      order, and every entry is part of exactly one. */
  ghost predicate Regrouped<K(!new), S(!new)>(list: seq<Aggregate<K, S>>, after: seq<Aggregate<K, S>>,
                                              combine: (S, S) -> S) {
    exists sorted: seq<Aggregate<K, S>>, parts: seq<seq<int>> ::
      multiset(sorted) == multiset(list) && EachMadeOf(after, sorted, parts, combine)
  }

  /** The state of one slot's aggregation: nothing lost, no other slot touched,
      the lists of `done` regrouped and maximal. */
  ghost predicate Aggregating<K(!new), S(!new)>(before: map<nat, SlotMap<K, S>>, pending: map<nat, SlotMap<K, S>>,
                                                log: seq<PoolEvent<K, S>>, slot: nat, done: set<K>,
                                                combine: (S, S) -> S) {
    && Conserves(pending, log) && slot in before && slot in pending && pending[slot].Keys == before[slot].Keys
    && (forall s :: s != slot ==> SlotTotal(pending, s) == SlotTotal(before, s))
    && (forall s: nat, d: K :: s != slot ==> ListFor(pending, s, d) == ListFor(before, s, d))
    && SlotTotal(pending, slot) <= SlotTotal(before, slot)
    && (forall d :: d in done ==>
          && Maximal(ListFor(pending, slot, d))
          && Regrouped(ListFor(before, slot, d), ListFor(pending, slot, d), combine))
    && (forall d :: d !in done ==> ListFor(pending, slot, d) == ListFor(before, slot, d))
  }

  lemma AggregateOne<K(!new), S(!new)>(before: map<nat, SlotMap<K, S>>, pending: map<nat, SlotMap<K, S>>,
                                       log: seq<PoolEvent<K, S>>, slot: nat, done: set<K>, data: K,
                                       list: seq<Aggregate<K, S>>, combine: (S, S) -> S)
    requires Aggregating(before, pending, log, slot, done, combine) && data in pending[slot] && data !in done
    requires AllOf(list, slot, data) && Maximal(list) && |list| <= |ListFor(pending, slot, data)|
    requires Tally(list) == Tally(ListFor(pending, slot, data))
    requires Regrouped(ListFor(pending, slot, data), list, combine)
    ensures Aggregating(before, Put(pending, slot, data, list), log, slot, done + {data}, combine)
  {
    hide Tally, AllOf, Maximal, SlotTotal, Conserves, Regrouped;
    ReplaceConserves(pending, log, slot, data, list);
    forall s: nat ensures SlotTotal(Put(pending, slot, data, list), s) ==
                     if s == slot then SlotTotal(pending, s) - |ListFor(pending, slot, data)| + |list|
                     else SlotTotal(pending, s)
    {
      PutTotal(pending, slot, data, list, s);
    }
    forall s: nat, d: K ensures ListFor(Put(pending, slot, data, list), s, d) ==
                                if s == slot && d == data then list else ListFor(pending, s, d)
    {
      PutLists(pending, slot, data, list, s, d);
    }
  }

  /** Aggregates every list of a slot. */
  method AggregateSlot<K(!new, ==), S(!new)>(before: map<nat, SlotMap<K, S>>, slot: nat, combine: (S, S) -> S,
                                             ghost log: seq<PoolEvent<K, S>>)
    returns (pending: map<nat, SlotMap<K, S>>, result: seq<Aggregate<K, S>>)
    requires Conserves(before, log) && slot in before
    ensures Aggregating(before, pending, log, slot, before[slot].Keys, combine)
    ensures Tally(result) == AllAccepted(log, slot, before[slot].Keys)
    ensures Gathers(result, pending, slot, before[slot].Keys)
  {
    hide Aggregating, Tally, AcceptedVotes, AllAccepted, Maximal, EachMadeOf, ListFor, Gathers;
    pending, result := before, [];
    var keys := Enumerate(before[slot].Keys);
    ghost var done: set<K> := {};
    AggregationStarts(before, log, slot, combine);
    for i := 0 to |keys|
      invariant done == Elems(keys[..i]) && Aggregating(before, pending, log, slot, done, combine)
      invariant Tally(result) == AllAccepted(log, slot, done) && Gathers(result, pending, slot, done)
    {
      var data := keys[i];
      assert data in Elems(keys);
      AggregatingHolds(before, pending, log, slot, done, data, combine);
      var list := pending[slot][data];
      var sorted := SortByCount(list);
      SameOwner(list, sorted, slot, data);
      var aggregated := GreedyAggregate(sorted, combine, slot, data);
      assert Regrouped(list, aggregated, combine);
      AggregateOne(before, pending, log, slot, done, data, aggregated, combine);
      GatherMore(result, pending, slot, done, data, aggregated);
      pending := Put(pending, slot, data, aggregated);
      AcceptedGrows(log, slot, done, data);
      TallyConcat(result, aggregated);
      result := result + aggregated;
      done := done + {data};
    }
    assert keys[..|keys|] == keys;
  }

  lemma SameOwner<K(!new), S>(list: seq<Aggregate<K, S>>, sorted: seq<Aggregate<K, S>>, slot: nat, data: K)
    requires AllOf(list, slot, data) && multiset(sorted) == multiset(list)
    ensures AllOf(sorted, slot, data)
  {
    forall i | 0 <= i < |sorted| ensures sorted[i].slot == slot && sorted[i].data == data {
      assert sorted[i] in multiset(sorted);
      assert sorted[i] in multiset(list);
    }
  }

  /** The result lists what the pool now holds for the slot, over a set of data. */
  ghost predicate Gathers<K(!new), S(!new)>(result: seq<Aggregate<K, S>>, pending: map<nat, SlotMap<K, S>>, slot: nat,
                                            keys: set<K>) {
    forall a :: a in result <==> exists d :: d in keys && a in ListFor(pending, slot, d)
  }

  lemma GatherMore<K(!new), S(!new)>(result: seq<Aggregate<K, S>>, pending: map<nat, SlotMap<K, S>>, slot: nat,
                                     done: set<K>, data: K, list: seq<Aggregate<K, S>>)
    requires Gathers(result, pending, slot, done) && data !in done
    ensures Gathers(result + list, Put(pending, slot, data, list), slot, done + {data})
  {
    var after, keys := Put(pending, slot, data, list), done + {data};
    forall d: K ensures ListFor(after, slot, d) == if d == data then list else ListFor(pending, slot, d) {
      PutLists(pending, slot, data, list, slot, d);
    }
    hide ListFor, Put;
    forall a ensures a in result + list <==> exists d :: d in keys && a in ListFor(after, slot, d) {
      if a in list { assert data in keys && a in ListFor(after, slot, data); }
      if d :| d in done && a in ListFor(pending, slot, d) { assert d in keys && a in ListFor(after, slot, d); }
      if d :| d in keys && a in ListFor(after, slot, d) { assert d == data || d in done; }
    }
  }

  /** The participations accepted for a slot, over a set of data. */
  ghost function AllAccepted<K(!new), S>(log: seq<PoolEvent<K, S>>, slot: nat, keys: set<K>): multiset<nat> {
    if keys == {} then multiset{}
    else
      var k :| k in keys;
      AcceptedVotes(log, slot, k) + AllAccepted(log, slot, keys - {k})
  }

  lemma {:induction false} AllAcceptedSplit<K(!new), S>(log: seq<PoolEvent<K, S>>, slot: nat, keys: set<K>, x: K)
    requires x in keys
    ensures AllAccepted(log, slot, keys) == AcceptedVotes(log, slot, x) + AllAccepted(log, slot, keys - {x})
  {
    hide AcceptedVotes;
    var k :| k in keys
             && AllAccepted(log, slot, keys) == AcceptedVotes(log, slot, k) + AllAccepted(log, slot, keys - {k});
    if k != x {
      AllAcceptedSplit(log, slot, keys - {k}, x);
      AllAcceptedSplit(log, slot, keys - {x}, k);
      assert keys - {k} - {x} == keys - {x} - {k};
    }
  }

  lemma AcceptedGrows<K(!new), S>(log: seq<PoolEvent<K, S>>, slot: nat, done: set<K>, data: K)
    requires data !in done
    ensures AllAccepted(log, slot, done + {data}) == AllAccepted(log, slot, done) + AcceptedVotes(log, slot, data)
  {
    AllAcceptedSplit(log, slot, done + {data}, data);
    assert done + {data} - {data} == done;
  }

  lemma AggregationStarts<K(!new), S(!new)>(before: map<nat, SlotMap<K, S>>, log: seq<PoolEvent<K, S>>, slot: nat,
                                            combine: (S, S) -> S)
    requires Conserves(before, log) && slot in before
    ensures Aggregating(before, before, log, slot, {}, combine) && Gathers([], before, slot, {})
    ensures Tally<K, S>([]) == AllAccepted(log, slot, {})
  {
  }

  lemma AggregatingHolds<K(!new), S(!new)>(before: map<nat, SlotMap<K, S>>, pending: map<nat, SlotMap<K, S>>,
                                           log: seq<PoolEvent<K, S>>, slot: nat, done: set<K>, data: K,
                                           combine: (S, S) -> S)
    requires Aggregating(before, pending, log, slot, done, combine) && data in before[slot]
    ensures slot in pending && data in pending[slot] && AllOf(pending[slot][data], slot, data)
    ensures Tally(pending[slot][data]) == AcceptedVotes(log, slot, data)
    ensures pending[slot][data] == ListFor(pending, slot, data)
  {
    hide Tally, AcceptedVotes, AllOf;
    assert AllOf(ListFor(pending, slot, data), slot, data);
  }

  class AggregationPool<K(!new, ==), S(!new, ==)> {
    const maxPerSlot: int
    const combine: (S, S) -> S
    const emptySignature: S
    var pending: map<nat, SlotMap<K, S>>
    var slotCounts: map<nat, int>
    ghost var log: seq<PoolEvent<K, S>>

    /** For every slot and data the stored aggregates hold exactly the accepted
        participations, and the counters are right and within the limit. */
    ghost predicate Valid()
      reads this
    {
      Conserves(pending, log) && CountsHold(pending, slotCounts, maxPerSlot)
    }

    constructor (maxPerSlot: int, combine: (S, S) -> S, emptySignature: S)
      ensures Valid() && log == [] && this.maxPerSlot == maxPerSlot
    {
      this.maxPerSlot, this.combine, this.emptySignature := maxPerSlot, combine, emptySignature;
      pending, slotCounts, log := map[], map[], [];
    }

    /** An attestation is accepted, into an existing aggregate or as a new one,
        unless it is malformed or overlaps all aggregates of a full slot. */
    method AddAttestation(a: Aggregate<K, S>) returns (err: Option<PoolError>)
      requires Valid()
      modifies this
      ensures Valid() && log == if err.None? then old(log) + [Accepted(a)] else old(log)
      ensures if err.None? then Filed(old(pending), pending, a, combine) else SameLists(old(pending), pending)
      ensures a.bits == [] ==> err == Some(EmptyBits)
      ensures a.bits != [] && a.signature == emptySignature ==> err == Some(EmptySignature)
      ensures a.bits != [] && a.signature != emptySignature ==>
                (err == if (forall x :: x in ListFor(old(pending), a.slot, a.data) ==> Overlap(x, a))
                           && SlotTotal(old(pending), a.slot) >= maxPerSlot
                        then Some(SlotFull) else None)
    {
      if |a.bits| == 0 {
        return Some(EmptyBits);
      }
      if a.signature == emptySignature {
        return Some(EmptySignature);
      }
      err := AddAggregate(a);
    }

    method AddAggregate(a: Aggregate<K, S>) returns (err: Option<PoolError>)
      requires Valid()
      modifies this
      ensures Valid() && log == if err.None? then old(log) + [Accepted(a)] else old(log)
      ensures if err.None? then Filed(old(pending), pending, a, combine) else SameLists(old(pending), pending)
      ensures err == if (forall x :: x in ListFor(old(pending), a.slot, a.data) ==> Overlap(x, a))
                        && SlotTotal(old(pending), a.slot) >= maxPerSlot
                     then Some(SlotFull) else None
    {
      hide Tally, Members, AcceptedVotes, Total, Overlap, ListFor, Conserves, CountsHold, MergedAt;
      var slot, data := a.slot, a.data;
      ghost var before := pending;
      if slot !in pending {
        InitKeeps(pending, pending[slot := map[]], log, slotCounts, maxPerSlot, slot);
        pending := pending[slot := map[]];
      }
      var existing := ListFor(pending, slot, data);
      ListIsOwn(pending, log, slot, data);
      var list, merged := MergeInto(existing, a, combine);
      if merged {
        AcceptConserves(pending, log, a, list);
        KeepCounts(pending, slotCounts, maxPerSlot, slot, data, list);
        MergeIsFiled(before, pending, a, combine, list);
        pending := Put(pending, slot, data, list);
        log := log + [Accepted(a)];
        return None;
      }
      CountIsTotal(pending, slotCounts, maxPerSlot, slot);
      if CountAt(slotCounts, slot) >= maxPerSlot {
        return Some(SlotFull);
      }
      TallyAppend(existing, a);
      AcceptConserves(pending, log, a, existing + [a]);
      RaiseCount(pending, slotCounts, maxPerSlot, slot, data, existing + [a]);
      AppendIsFiled(before, pending, a, combine);
      pending := Put(pending, slot, data, existing + [a]);
      slotCounts := slotCounts[slot := CountAt(slotCounts, slot) + 1];
      log := log + [Accepted(a)];
      return None;
    }

    /** Greedy aggregation of a slot: the participations stay, no two aggregates
        with the same data could still be merged. */
    method AggregateAll(slot: nat) returns (result: seq<Aggregate<K, S>>)
      requires Valid()
      modifies this`pending, this`slotCounts
      ensures Valid()
      ensures slot !in old(pending) ==> result == [] && pending == old(pending) && slotCounts == old(slotCounts)
      ensures slot in old(pending) ==>
                && slot in pending && pending[slot].Keys == old(pending)[slot].Keys
                && (forall d :: d in pending[slot] ==>
                      && Maximal(ListFor(pending, slot, d))
                      && Regrouped(ListFor(old(pending), slot, d), ListFor(pending, slot, d), combine))
                && Gathers(result, pending, slot, pending[slot].Keys)
                && Tally(result) == AllAccepted(log, slot, pending[slot].Keys)
                && CountAt(slotCounts, slot) <= CountAt(old(slotCounts), slot)
      ensures forall s: nat, d: K :: s != slot ==> ListFor(pending, s, d) == ListFor(old(pending), s, d)
    {
      hide Conserves, Maximal, Tally, AllAccepted, Regrouped, Gathers;
      if slot !in pending {
        return [];
      }
      ghost var before := pending;
      pending, result := AggregateSlot(pending, slot, combine, log);
      var count := CountSlot(pending[slot]);
      slotCounts := slotCounts[slot := count];
    }

    /** Forgets the slots older than `maxAge`. */
    method PruneOld(currentSlot: nat, maxAge: nat)
      requires Valid()
      modifies this
      ensures Valid()
      ensures var cutoff := if currentSlot > maxAge then currentSlot - maxAge else 0;
              && log == old(log) + [PrunedBelow(cutoff)]
              && forall s: nat, d: K :: ListFor(pending, s, d) == if s < cutoff then [] else ListFor(old(pending), s, d)
    {
      hide Tally, AcceptedVotes, Total;
      var cutoff := 0;
      if currentSlot > maxAge {
        cutoff := currentSlot - maxAge;
      }
      var kept := map s | s in pending && s >= cutoff :: pending[s];
      PruneConserves(pending, kept, log, cutoff);
      var counts := map s | s in slotCounts && !(s in pending && s < cutoff) :: slotCounts[s];
      forall s: nat
        ensures CountAt(counts, s) == SlotTotal(kept, s)
        ensures CountAt(counts, s) <= if maxPerSlot > 0 then maxPerSlot else 0
      {
        assert CountAt(slotCounts, s) == SlotTotal(pending, s);
      }
      slotCounts, pending := counts, kept;
      log := log + [PrunedBelow(cutoff)];
    }
  }
}
