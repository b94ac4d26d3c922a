/** Attestation aggregation: attestations with the same data and disjoint bits
    are merged; nothing is lost or counted twice. */
module Aggregation {
  import opened Collections
  import opened Bitfields

  datatype Aggregate<K, S> = Aggregate(slot: nat, data: K, bits: Bits, signature: S)

  /** Every participation of every aggregate: a position once per aggregate that
      has it. */
  ghost function Tally<K, S>(list: seq<Aggregate<K, S>>): multiset<nat> {
    if list == [] then multiset{}
    else Tally(list[..|list| - 1]) + multiset(Members(list[|list| - 1].bits))
  }

  ghost predicate Overlap<K, S>(a: Aggregate<K, S>, b: Aggregate<K, S>) {
    Members(a.bits) * Members(b.bits) != {}
  }

  lemma TallyAppend<K, S>(list: seq<Aggregate<K, S>>, a: Aggregate<K, S>)
    ensures Tally(list + [a]) == Tally(list) + multiset(Members(a.bits))
  {
    assert (list + [a])[..|list|] == list;
  }

  lemma {:induction false} TallyConcat<K, S>(a: seq<Aggregate<K, S>>, b: seq<Aggregate<K, S>>)
    ensures Tally(a + b) == Tally(a) + Tally(b)
  {
    hide Tally, Members;
    if b == [] {
      assert a + b == a;
      TallyEmpty<K, S>();
    } else {
      var front, last := b[..|b| - 1], b[|b| - 1];
      TallyConcat(a, front);
      TallyAppend(a + front, last);
      TallyAppend(front, last);
      assert a + b == a + front + [last] && b == front + [last];
    }
  }

  lemma TallyInsert<K, S>(front: seq<Aggregate<K, S>>, a: Aggregate<K, S>, rest: seq<Aggregate<K, S>>)
    ensures Tally(front + [a] + rest) == Tally(front) + multiset(Members(a.bits)) + Tally(rest)
  {
    hide Tally;
    TallyConcat(front + [a], rest);
    TallyAppend(front, a);
  }

  /** Replacing an entry exchanges its participations. */
  lemma TallyUpdate<K, S>(list: seq<Aggregate<K, S>>, i: int, a: Aggregate<K, S>)
    requires 0 <= i < |list|
    ensures Tally(list[i := a]) + multiset(Members(list[i].bits)) == Tally(list) + multiset(Members(a.bits))
  {
    hide Tally, Members;
    var front, rest := list[..i], list[i + 1..];
    assert list == front + [list[i]] + rest && list[i := a] == front + [a] + rest;
    TallyInsert(front, list[i], rest);
    TallyInsert(front, a, rest);
  }

  lemma DisjointUnion(a: set<nat>, b: set<nat>)
    requires a * b == {}
    ensures multiset(a + b) == multiset(a) + multiset(b)
  {
    forall x ensures multiset(a + b)[x] == (multiset(a) + multiset(b))[x] {
      assert x !in a * b;
    }
  }

  // ----- merging -----

  /** Disjoint bits are or-ed and the signatures combined. */
  method MergeAggregates<K, S>(a: Aggregate<K, S>, b: Aggregate<K, S>, combine: (S, S) -> S)
      returns (m: Aggregate<K, S>)
    ensures m.slot == a.slot && m.data == a.data && m.signature == combine(a.signature, b.signature)
    ensures Members(m.bits) == Members(a.bits) + Members(b.bits)
  {
    var bits := BitfieldOr(a.bits, b.bits);
    m := Aggregate(a.slot, a.data, bits, combine(a.signature, b.signature));
  }

  /** Two aggregates combine exactly when they carry the same data and no
      position twice; the result then counts every position once. */
  method TryAggregate<K(==), S>(a: Aggregate<K, S>, b: Aggregate<K, S>, combine: (S, S) -> S)
    returns (m: Option<Aggregate<K, S>>)
    ensures m.Some? <==> a.slot == b.slot && a.data == b.data && !Overlap(a, b)
    ensures m.Some? ==> m.value.data == a.data && m.value.slot == a.slot
                        && multiset(Members(m.value.bits)) == multiset(Members(a.bits)) + multiset(Members(b.bits))
                        && m.value.signature == combine(a.signature, b.signature)
  {
    if a.slot != b.slot || a.data != b.data {
      return None;
    }
    var overlaps := BitfieldOverlaps(a.bits, b.bits);
    if overlaps {
      return None;
    }
    DisjointUnion(Members(a.bits), Members(b.bits));
    var merged := MergeAggregates(a, b, combine);
    return Some(merged);
  }

  // ----- greedy aggregation -----

  ghost predicate FewerLater<K, S>(list: seq<Aggregate<K, S>>) {
    forall i, j :: 0 <= i < j < |list| ==> |Members(list[i].bits)| >= |Members(list[j].bits)|
  }

  /** Most participants first; equal counts in any order. */
  method SortByCount<K, S>(list: seq<Aggregate<K, S>>) returns (r: seq<Aggregate<K, S>>)
    ensures FewerLater(r) && Tally(r) == Tally(list) && |r| == |list| && multiset(r) == multiset(list)
  {
    hide Tally, Members, FewerLater;
    r := [];
    assert FewerLater(r) by { NothingSorted<K, S>(); }
    assert list[..0] == [];
    for i := 0 to |list|
      invariant FewerLater(r) && Tally(r) == Tally(list[..i]) && |r| == i && multiset(r) == multiset(list[..i])
    {
      TallyAppend(list[..i], list[i]);
      assert list[..i + 1] == list[..i] + [list[i]];
      r := InsertByCount(r, list[i]);
    }
    assert list[..|list|] == list;
  }

  lemma NothingSorted<K, S>()
    ensures FewerLater<K, S>([])
  {
  }

  method InsertByCount<K, S>(list: seq<Aggregate<K, S>>, a: Aggregate<K, S>) returns (r: seq<Aggregate<K, S>>)
    requires FewerLater(list)
    ensures FewerLater(r) && Tally(r) == Tally(list) + multiset(Members(a.bits)) && |r| == |list| + 1
    ensures multiset(r) == multiset(list) + multiset{a}
  {
    hide Members, Tally, FewerLater;
    var count := CountBits(a.bits);
    var i := |list|;
    while i > 0
      invariant 0 <= i <= |list|
      invariant forall j :: i <= j < |list| ==> |Members(list[j].bits)| < count
      decreases i
    {
      var c := CountBits(list[i - 1].bits);
      if c >= count {
        break;
      }
      i := i - 1;
    }
    InsertKeepsOrder(list, i, a);
    TallyInsert(list[..i], a, list[i..]);
    TallyConcat(list[..i], list[i..]);
    InsertAdds(list, i, a);
    r := list[..i] + [a] + list[i..];
  }

  lemma InsertAdds<T>(list: seq<T>, i: int, a: T)
    requires 0 <= i <= |list|
    ensures list[..i] + list[i..] == list
    ensures multiset(list[..i] + [a] + list[i..]) == multiset(list) + multiset{a}
  {
    assert list[..i] + list[i..] == list;
  }

  lemma InsertKeepsOrder<K, S>(list: seq<Aggregate<K, S>>, i: int, a: Aggregate<K, S>)
    requires FewerLater(list) && 0 <= i <= |list|
    requires i > 0 ==> |Members(list[i - 1].bits)| >= |Members(a.bits)|
    requires forall j :: i <= j < |list| ==> |Members(list[j].bits)| < |Members(a.bits)|
    ensures FewerLater(list[..i] + [a] + list[i..])
  {
    hide Members;
    var r := list[..i] + [a] + list[i..];
    forall j | 0 <= j < |r| ensures r[j] == if j < i then list[j] else if j == i then a else list[j - 1] {}
    forall j | 0 <= j < i ensures |Members(list[j].bits)| >= |Members(a.bits)| {
      assert j == i - 1 || |Members(list[j].bits)| >= |Members(list[i - 1].bits)|;
    }
  }

  /** The participations of the entries not yet used. */
  ghost function Unused<K, S>(list: seq<Aggregate<K, S>>, used: seq<bool>): multiset<nat>
    requires |used| == |list|
  {
    if list == [] then multiset{}
    else
      var n := |list| - 1;
      Unused(list[..n], used[..n]) + if used[n] then multiset{} else multiset(Members(list[n].bits))
  }

  lemma {:induction false} NoneUsed<K, S>(list: seq<Aggregate<K, S>>, used: seq<bool>)
    requires |used| == |list| && forall i :: 0 <= i < |used| ==> !used[i]
    ensures Unused(list, used) == Tally(list)
  {
    if list != [] { NoneUsed(list[..|list| - 1], used[..|list| - 1]); }
  }

  lemma {:induction false} AllUsed<K, S>(list: seq<Aggregate<K, S>>, used: seq<bool>)
    requires |used| == |list| && forall i :: 0 <= i < |used| ==> used[i]
    ensures Unused(list, used) == multiset{}
  {
    if list != [] { AllUsed(list[..|list| - 1], used[..|list| - 1]); }
  }

  lemma {:induction false} UseOne<K, S>(list: seq<Aggregate<K, S>>, used: seq<bool>, i: int)
    requires |used| == |list| && 0 <= i < |list| && !used[i]
    ensures Unused(list, used[i := true]) + multiset(Members(list[i].bits)) == Unused(list, used)
  {
    hide Members;
    var n := |list| - 1;
    if i == n {
      assert used[i := true][..n] == used[..n];
    } else {
      UseOne(list[..n], used[..n], i);
      assert used[i := true][..n] == used[..n][i := true];
    }
  }

  /** Every unused entry in the range overlaps `a`. */
  ghost predicate BlocksUnused<K, S>(a: Aggregate<K, S>, list: seq<Aggregate<K, S>>, used: seq<bool>, from: int,
                                     to: int)
    requires |used| == |list|
  {
    forall j :: from <= j < to && 0 <= j < |list| && !used[j] ==> Overlap(a, list[j])
  }

  ghost predicate Grown(before: seq<bool>, after: seq<bool>) {
    |before| == |after| && forall j :: 0 <= j < |before| && before[j] ==> after[j]
  }

  // ----- what an aggregate is made of -----

  /** Positions in `list`, ascending and at least one. */
  ghost predicate AreParts<K, S>(list: seq<Aggregate<K, S>>, parts: seq<int>) {
    parts != [] && StrictlyAscending(parts) && forall k :: k in parts ==> 0 <= k < |list|
  }

  /** The signatures of the parts, combined from the first to the last. */
  ghost function CombinedSignature<K, S>(list: seq<Aggregate<K, S>>, parts: seq<int>, combine: (S, S) -> S): S
    requires parts != [] && forall k :: k in parts ==> 0 <= k < |list|
  {
    var n := |parts| - 1;
    assert parts[0] in parts && parts[n] in parts && forall k :: k in parts[..n] ==> k in parts;
    if n == 0 then list[parts[0]].signature
    else combine(CombinedSignature(list, parts[..n], combine), list[parts[n]].signature)
  }

  ghost predicate MadeOf<K, S>(a: Aggregate<K, S>, list: seq<Aggregate<K, S>>, parts: seq<int>, combine: (S, S) -> S) {
    && AreParts(list, parts) && a.signature == CombinedSignature(list, parts, combine)
    && (forall p :: p in Members(a.bits) <==> exists k :: k in parts && p in Members(list[k].bits))
  }

  lemma MadeOfOne<K, S>(list: seq<Aggregate<K, S>>, i: nat, combine: (S, S) -> S)
    requires i < |list|
    ensures MadeOf(list[i], list, [i], combine)
  {
    forall p | p in Members(list[i].bits) ensures exists k :: k in [i] && p in Members(list[k].bits) {
      assert i in [i];
    }
  }

  lemma MadeOfMore<K, S>(a: Aggregate<K, S>, b: Aggregate<K, S>, list: seq<Aggregate<K, S>>, parts: seq<int>, j: nat,
                         combine: (S, S) -> S)
    requires MadeOf(a, list, parts, combine) && j < |list| && forall k :: k in parts ==> k < j
    requires b.signature == combine(a.signature, list[j].signature)
    requires Members(b.bits) == Members(a.bits) + Members(list[j].bits)
    ensures MadeOf(b, list, parts + [j], combine)
  {
    hide Members;
    var more := parts + [j];
    assert more[..|parts|] == parts;
    assert forall k :: k in more <==> k in parts || k == j;
    forall x, y | 0 <= x < y < |more| ensures more[x] < more[y] {
      if y == |parts| { assert parts[x] in parts; }
    }
  }

  /** `a` is made of `parts`, and they are what `used` has beyond `before`. */
  ghost predicate Absorbed<K, S>(a: Aggregate<K, S>, list: seq<Aggregate<K, S>>, before: seq<bool>, used: seq<bool>,
                                 parts: seq<int>, combine: (S, S) -> S) {
    && |before| == |used| == |list| && MadeOf(a, list, parts, combine)
    && (forall k :: 0 <= k < |list| ==> (used[k] <==> before[k] || k in parts))
    && (forall k :: k in parts ==> 0 <= k < |list| && !before[k])
  }

  lemma AbsorbFirst<K, S>(list: seq<Aggregate<K, S>>, before: seq<bool>, i: nat, combine: (S, S) -> S)
    requires |before| == |list| && i < |list| && !before[i]
    ensures Absorbed(list[i], list, before, before[i := true], [i], combine)
  {
    hide MadeOf;
    MadeOfOne(list, i, combine);
  }

  lemma AbsorbNext<K, S>(a: Aggregate<K, S>, b: Aggregate<K, S>, list: seq<Aggregate<K, S>>, before: seq<bool>,
                         used: seq<bool>, parts: seq<int>, j: nat, combine: (S, S) -> S)
    requires Absorbed(a, list, before, used, parts, combine) && j < |list| && !used[j]
    requires forall k :: k in parts ==> k < j
    requires b.signature == combine(a.signature, list[j].signature)
    requires Members(b.bits) == Members(a.bits) + Members(list[j].bits)
    ensures Absorbed(b, list, before, used[j := true], parts + [j], combine)
    ensures forall k :: k in parts + [j] ==> k < j + 1
  {
    hide MadeOf;
    MadeOfMore(a, b, list, parts, j, combine);
    assert forall k :: k in parts + [j] <==> k in parts || k == j;
  }

  /** Every entry is part of exactly one of the aggregates. */
  ghost predicate EachMadeOf<K, S>(done: seq<Aggregate<K, S>>, list: seq<Aggregate<K, S>>, parts: seq<seq<int>>,
                                   combine: (S, S) -> S) {
    && |parts| == |done|
    && (forall x :: 0 <= x < |done| ==> MadeOf(done[x], list, parts[x], combine))
    && (forall k :: 0 <= k < |list| ==> InSome(parts, k))
    && (forall x, y, k :: 0 <= x < |parts| && 0 <= y < |parts| && k in parts[x] && k in parts[y] ==> x == y)
  }

  ghost predicate InSome(parts: seq<seq<int>>, k: int) {
    exists x :: 0 <= x < |parts| && k in parts[x]
  }

  /** Entry `i` with every later entry merged in that fits when its turn comes. */
  method GreedyPass<K, S>(list: seq<Aggregate<K, S>>, before: seq<bool>, i: nat, combine: (S, S) -> S)
    returns (current: Aggregate<K, S>, used: seq<bool>)
    requires |before| == |list| && i < |list| && !before[i]
    ensures Grown(before, used) && |used| == |list| && used[i]
    ensures exists parts :: Absorbed(current, list, before, used, parts, combine)
    ensures current.slot == list[i].slot && current.data == list[i].data
    ensures Members(list[i].bits) <= Members(current.bits)
    ensures multiset(Members(current.bits)) + Unused(list, used) == Unused(list, before)
    ensures BlocksUnused(current, list, used, i + 1, |list|)
  {
    hide Members, Unused, Absorbed;
    current := list[i];
    used := before[i := true];
    ghost var parts: seq<int> := [i];
    AbsorbFirst(list, before, i, combine);
    UseOne(list, before, i);
    for j := i + 1 to |list|
      invariant Grown(before, used) && |used| == |list| && used[i]
      invariant Absorbed(current, list, before, used, parts, combine) && forall k :: k in parts ==> k < j
      invariant current.slot == list[i].slot && current.data == list[i].data
      invariant Members(list[i].bits) <= Members(current.bits)
      invariant multiset(Members(current.bits)) + Unused(list, used) == Unused(list, before)
      invariant BlocksUnused(current, list, used, i + 1, j)
    {
      if !used[j] {
        var overlaps := BitfieldOverlaps(current.bits, list[j].bits);
        if !overlaps {
          ghost var grown, was := current, used;
          DisjointUnion(Members(current.bits), Members(list[j].bits));
          UseOne(list, used, j);
          current := MergeAggregates(current, list[j], combine);
          AbsorbNext(grown, current, list, before, used, parts, j, combine);
          parts := parts + [j];
          used := used[j := true];
          StillBlocks(grown, current, list, was, used, i + 1, j);
        }
      }
    }
  }

  lemma StillBlocks<K, S>(a: Aggregate<K, S>, b: Aggregate<K, S>, list: seq<Aggregate<K, S>>, before: seq<bool>,
                          after: seq<bool>, from: int, to: int)
    requires |before| == |list| && Grown(before, after) && Members(a.bits) <= Members(b.bits)
    requires BlocksUnused(a, list, before, from, to)
    ensures BlocksUnused(b, list, after, from, to)
  {
    hide Members;
    forall j | from <= j < to && 0 <= j < |list| && !after[j] ensures Overlap(b, list[j]) {
      assert Overlap(a, list[j]);
      var p :| p in Members(a.bits) * Members(list[j].bits);
      assert p in Members(b.bits) * Members(list[j].bits);
    }
  }

  /** Any two aggregates overlap: nothing more can be merged. */
  ghost predicate Maximal<K, S>(list: seq<Aggregate<K, S>>) {
    forall a, b :: 0 <= a < b < |list| ==> Overlap(list[a], list[b])
  }

  ghost predicate AllBlock<K, S>(done: seq<Aggregate<K, S>>, list: seq<Aggregate<K, S>>, used: seq<bool>)
    requires |used| == |list|
  {
    forall a :: 0 <= a < |done| ==> BlocksUnused(done[a], list, used, 0, |list|)
  }

  ghost predicate AllOf<K, S>(list: seq<Aggregate<K, S>>, slot: nat, data: K) {
    forall i :: 0 <= i < |list| ==> list[i].slot == slot && list[i].data == data
  }

  /** The greedy result keeps every participation and is maximal. */
  method GreedyAggregate<K, S>(list: seq<Aggregate<K, S>>, combine: (S, S) -> S, ghost slot: nat, ghost data: K)
    returns (done: seq<Aggregate<K, S>>)
    requires AllOf(list, slot, data)
    ensures Tally(done) == Tally(list) && Maximal(done) && AllOf(done, slot, data) && |done| <= |list|
    ensures exists parts :: EachMadeOf(done, list, parts, combine)
  {
    hide Members, Unused, Tally, Overlap, Absorbed, Taken, EachMadeOf;
    var used := seq(|list|, _ => false);
    NoneUsed(list, used);
    done := [];
    ghost var parts: seq<seq<int>> := [];
    TallyEmpty<K, S>();
    NoneTaken(list, used, combine);
    for i := 0 to |list|
      invariant |used| == |list| && |done| <= i && AllOf(done, slot, data)
      invariant Taken(done, list, parts, used, combine)
      invariant forall j :: 0 <= j < i ==> used[j]
      invariant Tally(done) + Unused(list, used) == Tally(list)
      invariant Maximal(done) && AllBlock(done, list, used)
    {
      if !used[i] {
        ghost var before := used;
        var current: Aggregate<K, S>;
        current, used := GreedyPass(list, used, i, combine);
        ghost var own: seq<int> :| Absorbed(current, list, before, used, own, combine);
        TallyAppend(done, current);
        AppendMaximal(done, current, list, before, used, i);
        TakeMore(done, list, parts, before, used, current, own, combine);
        done, parts := done + [current], parts + [own];
      }
    }
    AllUsed(list, used);
    AllTaken(done, list, parts, used, combine);
  }

  /** The used entries are the parts of the aggregates, each of one. */
  ghost predicate Taken<K, S>(done: seq<Aggregate<K, S>>, list: seq<Aggregate<K, S>>, parts: seq<seq<int>>,
                              used: seq<bool>, combine: (S, S) -> S) {
    && |parts| == |done| && |used| == |list|
    && (forall x :: 0 <= x < |done| ==> MadeOf(done[x], list, parts[x], combine))
    && (forall k :: 0 <= k < |list| ==> (used[k] <==> InSome(parts, k)))
    && (forall x, k :: 0 <= x < |parts| && k in parts[x] ==> 0 <= k < |list|)
    && (forall x, y, k :: 0 <= x < |parts| && 0 <= y < |parts| && k in parts[x] && k in parts[y] ==> x == y)
  }

  lemma NoneTaken<K, S>(list: seq<Aggregate<K, S>>, used: seq<bool>, combine: (S, S) -> S)
    requires |used| == |list| && forall k :: 0 <= k < |used| ==> !used[k]
    ensures Taken([], list, [], used, combine)
  {
  }

  lemma AllTaken<K, S>(done: seq<Aggregate<K, S>>, list: seq<Aggregate<K, S>>, parts: seq<seq<int>>, used: seq<bool>,
                       combine: (S, S) -> S)
    requires Taken(done, list, parts, used, combine) && forall k :: 0 <= k < |used| ==> used[k]
    ensures EachMadeOf(done, list, parts, combine)
  {
    hide MadeOf;
  }

  lemma TakeMore<K, S>(done: seq<Aggregate<K, S>>, list: seq<Aggregate<K, S>>, parts: seq<seq<int>>,
                       before: seq<bool>, used: seq<bool>, a: Aggregate<K, S>, own: seq<int>, combine: (S, S) -> S)
    requires Taken(done, list, parts, before, combine) && Absorbed(a, list, before, used, own, combine)
    ensures Taken(done + [a], list, parts + [own], used, combine)
  {
    hide MadeOf;
    var more := parts + [own];
    forall k ensures InSome(more, k) <==> InSome(parts, k) || k in own { InOneMore(parts, own, k); }
    forall x, y, k | 0 <= x < |more| && 0 <= y < |more| && k in more[x] && k in more[y] ensures x == y {
      assert x < |parts| ==> InSome(parts, k);
      assert y < |parts| ==> InSome(parts, k);
    }
  }

  lemma InOneMore(parts: seq<seq<int>>, own: seq<int>, k: int)
    ensures InSome(parts + [own], k) <==> InSome(parts, k) || k in own
  {
    var more := parts + [own];
    if x :| 0 <= x < |parts| && k in parts[x] { assert k in more[x]; }
    if k in own { assert k in more[|parts|]; }
  }

  lemma TallyEmpty<K, S>()
    ensures Tally<K, S>([]) == multiset{}
  {
  }

  lemma AppendMaximal<K, S>(done: seq<Aggregate<K, S>>, current: Aggregate<K, S>, list: seq<Aggregate<K, S>>,
                            before: seq<bool>, used: seq<bool>, i: nat)
    requires |before| == |list| && Grown(before, used) && i < |list| && !before[i] && used[i]
    requires forall j :: 0 <= j < i ==> before[j]
    requires Maximal(done) && AllBlock(done, list, before)
    requires Members(list[i].bits) <= Members(current.bits) && BlocksUnused(current, list, used, i + 1, |list|)
    ensures Maximal(done + [current]) && AllBlock(done + [current], list, used)
  {
    hide Members;
    var more := done + [current];
    forall a | 0 <= a < |done| ensures Overlap(done[a], current) && BlocksUnused(done[a], list, used, 0, |list|) {
      assert BlocksUnused(done[a], list, before, 0, |list|);
      assert Overlap(done[a], list[i]);
      var p :| p in Members(done[a].bits) * Members(list[i].bits);
      assert p in Members(done[a].bits) * Members(current.bits);
      StillBlocks(done[a], done[a], list, before, used, 0, |list|);
    }
    assert BlocksUnused(current, list, used, 0, |list|);
    forall a, b | 0 <= a < b < |more| ensures Overlap(more[a], more[b]) {
      if b < |done| { assert Overlap(done[a], done[b]); }
    }
  }

  // ----- the pool -----

  datatype PoolError = EmptyBits | EmptySignature | SlotFull

  /** What happened to the pool, oldest first. */
  datatype PoolEvent<K, S> = Accepted(attestation: Aggregate<K, S>) | PrunedBelow(cutoff: nat)

  /** The participations accepted for a slot and data since the slot was last
      pruned. */
  ghost function AcceptedVotes<K, S>(log: seq<PoolEvent<K, S>>, slot: nat, data: K): multiset<nat> {
    if log == [] then multiset{}
    else
      var front := AcceptedVotes(log[..|log| - 1], slot, data);
      match log[|log| - 1]
      case Accepted(a) => if a.slot == slot && a.data == data then front + multiset(Members(a.bits)) else front
      case PrunedBelow(cutoff) => if slot < cutoff then multiset{} else front
  }

  type SlotMap<K, S> = map<K, seq<Aggregate<K, S>>>

  function ListFor<K(==), S>(pending: map<nat, SlotMap<K, S>>, slot: nat, data: K): seq<Aggregate<K, S>> {
    if slot in pending && data in pending[slot] then pending[slot][data] else []
  }

  ghost function LengthAt<K(!new), S>(m: SlotMap<K, S>, k: K): nat {
    if k in m then |m[k]| else 0
  }

  ghost function LengthSum<K(!new), S>(m: SlotMap<K, S>, keys: set<K>): nat {
    if keys == {} then 0
    else
      var k :| k in keys;
      LengthAt(m, k) + LengthSum(m, keys - {k})
  }

  lemma {:induction false} LengthSumSplit<K(!new), S>(m: SlotMap<K, S>, keys: set<K>, x: K)
    requires x in keys
    ensures LengthSum(m, keys) == LengthAt(m, x) + LengthSum(m, keys - {x})
  {
    hide LengthAt;
    var k :| k in keys && LengthSum(m, keys) == LengthAt(m, k) + LengthSum(m, keys - {k});
    if k != x {
      LengthSumSplit(m, keys - {k}, x);
      LengthSumSplit(m, keys - {x}, k);
      assert keys - {k} - {x} == keys - {x} - {k};
    }
  }

  lemma {:induction false} LengthSumSame<K(!new), S>(m: SlotMap<K, S>, r: SlotMap<K, S>, keys: set<K>)
    requires forall k :: k in keys ==> LengthAt(m, k) == LengthAt(r, k)
    ensures LengthSum(m, keys) == LengthSum(r, keys)
  {
    hide LengthAt;
    if keys != {} {
      var k :| k in keys;
      LengthSumSplit(m, keys, k);
      LengthSumSplit(r, keys, k);
      LengthSumSame(m, r, keys - {k});
    }
  }

  /** How many aggregates a slot holds. */
  ghost function Total<K(!new), S>(m: SlotMap<K, S>): nat {
    LengthSum(m, m.Keys)
  }

  lemma TotalUpdate<K(!new), S>(m: SlotMap<K, S>, k: K, list: seq<Aggregate<K, S>>)
    ensures Total(m[k := list]) == Total(m) - LengthAt(m, k) + |list|
  {
    var r, rest := m[k := list], m.Keys - {k};
    assert r.Keys - {k} == rest;
    LengthSumSplit(r, r.Keys, k);
    LengthSumSame(m, r, rest);
    if k in m { LengthSumSplit(m, m.Keys, k); } else { assert rest == m.Keys; }
  }

  function CountAt(counts: map<nat, int>, slot: nat): int {
    if slot in counts then counts[slot] else 0
  }

  ghost function SlotTotal<K(!new), S>(pending: map<nat, SlotMap<K, S>>, slot: nat): nat {
    if slot in pending then Total(pending[slot]) else 0
  }

  /** Stored lists hold their own slot's and data's aggregates, and all that was
      accepted. */
  ghost predicate Conserves<K(!new), S(!new)>(pending: map<nat, SlotMap<K, S>>, log: seq<PoolEvent<K, S>>) {
    forall slot, data ::
      && AllOf(ListFor(pending, slot, data), slot, data)
      && Tally(ListFor(pending, slot, data)) == AcceptedVotes(log, slot, data)
  }

  /** Counters equal the stored list lengths and stay within the limit. */
  ghost predicate CountsHold<K(!new), S>(pending: map<nat, SlotMap<K, S>>, counts: map<nat, int>, maxPerSlot: int) {
    forall slot :: CountAt(counts, slot) == SlotTotal(pending, slot)
                   && CountAt(counts, slot) <= if maxPerSlot > 0 then maxPerSlot else 0
  }
}
