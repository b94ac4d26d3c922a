/** Committees: floor-division slices of the shuffled validators, with bounds
    computed in 64 bits. */
module Committees {
  import opened Arithmetic
  import opened Collections
  import opened Hashes
  import opened Shuffling

  // ----- slices -----

  type Word = n: nat | n < TWO_64

  function Start(count: nat, g: nat, total: nat): nat
    requires total > 0
  {
    count * g / total
  }

  /** The same bound with the product taken in 64 bits. */
  function WrappedStart(count: nat, g: nat, total: nat): nat
    requires total > 0
  {
    count * g % TWO_64 / total
  }

  /** The product of validators and committees fits in 64 bits. */
  predicate Fits(count: nat, total: nat) {
    count * total < TWO_64
  }

  /** The 64-bit bounds are the true ones exactly when that product fits. */
  lemma BoundsAreExactWhen(count: nat, total: nat)
    requires total > 0
    ensures (forall g: nat :: g <= total ==> WrappedStart(count, g, total) == Start(count, g, total))
            <==> Fits(count, total)
  {
    hide Start, WrappedStart;
    if Fits(count, total) {
      forall g: nat | g <= total ensures WrappedStart(count, g, total) == Start(count, g, total) {
        FittingBound(count, g, total);
      }
    } else {
      SliceEnds(count, total);
      BoundFallsShort(count, total, total);
    }
  }

  lemma FittingBound(count: nat, g: nat, total: nat)
    requires total > 0 && g <= total && Fits(count, total)
    ensures WrappedStart(count, g, total) == Start(count, g, total)
  {
    MulKeepsOrder(count, g, total);
  }

  /** Once the product does not fit, no bound reaches the count. */
  lemma BoundFallsShort(count: nat, g: nat, total: nat)
    requires total > 0 && !Fits(count, total)
    ensures WrappedStart(count, g, total) < count
  {
    SmallerQuotient(count * g % TWO_64, count, total);
  }

  lemma SmallerQuotient(x: nat, q: nat, t: nat)
    requires t > 0 && x < q * t
    ensures x / t < q
  {
    if x / t >= q { MulKeepsOrder(t, q, x / t); }
  }

  lemma BoundWithin(count: nat, g: nat, total: nat)
    requires total > 0 && g <= total
    ensures WrappedStart(count, g, total) <= count
  {
    if Fits(count, total) {
      FittingBound(count, g, total);
      SlicesAscend(count, g, total, total);
      SliceEnds(count, total);
    } else {
      BoundFallsShort(count, g, total);
    }
  }

  /** No slice ends before it starts. The code asks for a capacity of the
      difference, and the runtime refuses a negative one. */
  ghost predicate BoundsAscend(count: nat, total: nat) {
    forall g: nat :: g < total ==> WrappedStart(count, g, total) <= WrappedStart(count, g + 1, total)
  }

  lemma FittingBoundsAscend(count: nat, total: nat)
    requires total > 0 && Fits(count, total)
    ensures BoundsAscend(count, total)
  {
    hide WrappedStart, Start;
    forall g: nat | g < total ensures WrappedStart(count, g, total) <= WrappedStart(count, g + 1, total) {
      FittingBound(count, g, total);
      FittingBound(count, g + 1, total);
      SlicesAscend(count, g, g + 1, total);
    }
  }

  /** The last product that fits. */
  lemma {:induction false} LastFitting(count: nat, n: nat) returns (g: nat)
    requires count * n >= TWO_64
    ensures g < n && count * g < TWO_64 <= count * (g + 1)
  {
    if count * (n - 1) < TWO_64 { g := n - 1; } else { g := LastFitting(count, n - 1); }
  }

  lemma BoundDrops(count: nat, g: nat, total: nat)
    requires total > 0 && count + total <= TWO_64 && count * g < TWO_64 <= count * (g + 1)
    ensures WrappedStart(count, g + 1, total) < WrappedStart(count, g, total)
  {
    OneMore(count, g);
    var x, y := count * g, count * (g + 1);
    SmallMod(y, TWO_64);
    OneLess(x, y - TWO_64, total);
  }

  lemma OneLess(x: nat, y: nat, t: nat)
    requires t > 0 && y + t <= x
    ensures y / t < x / t
  {
    DivAdds(y, t, t);
    DivAdds(y + t, x - y - t, t);
    DivIs(t, t, 1, 0);
  }

  /** The committees can be cut exactly when the product fits, as long as
      validators and committees together are at most 2^64. */
  lemma AscendExactlyWhenFitting(count: nat, total: nat)
    requires total > 0 && count + total <= TWO_64
    ensures BoundsAscend(count, total) <==> Fits(count, total)
  {
    if Fits(count, total) {
      FittingBoundsAscend(count, total);
    } else {
      var g := LastFitting(count, total);
      BoundDrops(count, g, total);
    }
  }

  /** Every slice has count/total members or one more. */
  lemma SliceSize(count: nat, g: nat, total: nat)
    requires total > 0
    ensures count / total <= Start(count, g + 1, total) - Start(count, g, total) <= count / total + 1
  {
    assert count * (g + 1) == count * g + count;
    DivAdds(count * g, count, total);
  }

  /** Slice `g` starts at the last position `i` with `i / count` at most
      `g / total`. */
  lemma SliceStartMeans(count: nat, g: nat, total: nat)
    requires total > 0
    ensures var i := Start(count, g, total); i * total <= count * g < (i + 1) * total
  {
    DivBounds(count * g, total);
  }

  /** The slices start at 0, end at the count and follow each other. */
  lemma SliceEnds(count: nat, total: nat)
    requires total > 0
    ensures Start(count, 0, total) == 0 && Start(count, total, total) == count
  {
    assert count * total == total * count + 0;
    DivIs(count * total, total, count, 0);
    DivIs(0, total, 0, 0);
  }

  lemma {:induction false} SlicesAscend(count: nat, g: nat, h: nat, total: nat)
    requires total > 0 && g <= h
    ensures Start(count, g, total) <= Start(count, h, total)
    decreases h
  {
    hide Start;
    if g < h {
      SlicesAscend(count, g, h - 1, total);
      SliceSize(count, h - 1, total);
    }
  }

  ghost predicate InSlice(count: nat, total: nat, g: nat, i: nat)
    requires total > 0
  {
    Start(count, g, total) <= i < Start(count, g + 1, total)
  }

  /** The slice among the first `n` that holds position `i`. */
  ghost function SliceAmong(count: nat, total: nat, n: nat, i: nat): (g: nat)
    requires total > 0 && i < Start(count, n, total)
    ensures g < n && InSlice(count, total, g, i)
  {
    SliceEnds(count, total);
    if i >= Start(count, n - 1, total) then n - 1 else SliceAmong(count, total, n - 1, i)
  }

  ghost function SliceOf(count: nat, total: nat, i: nat): (g: nat)
    requires total > 0 && i < count
    ensures g < total && InSlice(count, total, g, i)
  {
    SliceEnds(count, total);
    SliceAmong(count, total, total, i)
  }

  lemma SliceIsUnique(count: nat, total: nat, g: nat, h: nat, i: nat)
    requires total > 0 && InSlice(count, total, g, i) && InSlice(count, total, h, i)
    ensures g == h
  {
    hide Start;
    if g < h { SlicesAscend(count, g + 1, h, total); } else if h < g { SlicesAscend(count, h + 1, g, total); }
  }

  /** Slot offset and committee index of a slice. */
  lemma GlobalIndex(s: nat, c: nat, perSlot: nat)
    requires c < perSlot
    ensures (s * perSlot + c) / perSlot == s && (s * perSlot + c) % perSlot == c
  {
    assert s * perSlot + c == perSlot * s + c;
    DivIs(s * perSlot + c, perSlot, s, c);
  }

  lemma GlobalIndexBound(s: nat, c: nat, slots: nat, perSlot: nat)
    requires s < slots && c < perSlot
    ensures s * perSlot + c < slots * perSlot
  {
    NextMultiple(perSlot, s, slots);
  }

  // ----- the per-slot form -----

  function CommitteeCount(active: nat, slotsPerEpoch: nat, targetSize: nat, maxPerSlot: nat): (n: nat)
    ensures n > 0 || maxPerSlot == 0
  {
    if slotsPerEpoch == 0 || targetSize == 0 then 1
    else
      var count := active / slotsPerEpoch / targetSize;
      var atLeastOne := if count == 0 then 1 else count;
      if atLeastOne > maxPerSlot then maxPerSlot else atLeastOne
  }

  lemma DivBounds(x: nat, a: nat)
    requires a > 0
    ensures a * (x / a) <= x < a * (x / a + 1)
  {
    OneMore(a, x / a);
  }

  lemma QuotientOfQuotient(x: nat, a: nat, b: nat)
    requires a > 0 && b > 0
    ensures var c := x / a / b; c * (a * b) <= x < (c + 1) * (a * b)
  {
    var q := x / a;
    var c := q / b;
    DivBounds(x, a);
    DivBounds(q, b);
    MulKeepsOrder(a, b * c, q);
    MulKeepsOrder(a, q + 1, b * (c + 1));
    Reorder(a, b, c);
    Reorder(a, b, c + 1);
  }

  lemma Reorder(a: nat, b: nat, c: nat)
    ensures a * (b * c) == c * (a * b)
  {
  }

  /** The count is the largest that leaves every committee its target size, but
      at least one and at most the maximum. */
  lemma CommitteeCountMeans(active: nat, slots: nat, targetSize: nat, maxPerSlot: nat)
    requires slots > 0 && targetSize > 0 && maxPerSlot > 0
    ensures var n := CommitteeCount(active, slots, targetSize, maxPerSlot);
            && 1 <= n <= maxPerSlot
            && (n > 1 ==> n * (slots * targetSize) <= active)
            && (n < maxPerSlot ==> active < (n + 1) * (slots * targetSize))
  {
    var n := CommitteeCount(active, slots, targetSize, maxPerSlot);
    var c, m := active / slots / targetSize, slots * targetSize;
    QuotientOfQuotient(active, slots, targetSize);
    MulKeepsOrder(m, n, if c < n then n else c);
    MulKeepsOrder(m, c + 1, if n < c then c + 1 else n + 1);
  }

  /** There are never 2^64 committees. */
  lemma CommitteesFit(active: nat, slots: nat, targetSize: nat, maxPerSlot: nat)
    requires active < TWO_64 && 0 < slots < TWO_64
    ensures slots * CommitteeCount(active, slots, targetSize, maxPerSlot) < TWO_64
  {
    var perSlot := CommitteeCount(active, slots, targetSize, maxPerSlot);
    if perSlot > 1 {
      var x := active / slots;
      assert perSlot <= x / targetSize;
      QuotientIsSmaller(x, targetSize);
      MulKeepsOrder(slots, perSlot, x);
      assert active == slots * x + active % slots;
    } else {
      MulKeepsOrder(slots, perSlot, 1);
    }
  }

  lemma QuotientIsSmaller(x: nat, t: nat)
    requires t > 0
    ensures x / t <= x
  {
    assert x == t * (x / t) + x % t;
    MulKeepsOrder(x / t, 1, t);
  }

  ghost function Slice<T>(s: seq<T>, g: nat, total: nat): (r: seq<T>)
    requires g < total
    ensures |r| == Start(|s|, g + 1, total) - Start(|s|, g, total)
  {
    SlicesAscend(|s|, g, g + 1, total);
    SlicesAscend(|s|, g + 1, total, total);
    SliceEnds(|s|, total);
    s[Start(|s|, g, total)..Start(|s|, g + 1, total)]
  }

  /** The members between the 64-bit bounds of slice `g`, if those ascend. */
  ghost function Cut<T>(s: seq<T>, g: nat, total: nat): (r: Option<seq<T>>)
    requires g < total
  {
    BoundWithin(|s|, g + 1, total);
    var start, end := WrappedStart(|s|, g, total), WrappedStart(|s|, g + 1, total);
    if start <= end then Some(s[start..end]) else None
  }

  lemma CutWhenFitting<T>(s: seq<T>, g: nat, total: nat)
    requires g < total && Fits(|s|, total)
    ensures Cut(s, g, total) == Some(Slice(s, g, total))
  {
    FittingBound(|s|, g, total);
    FittingBound(|s|, g + 1, total);
    SlicesAscend(|s|, g, g + 1, total);
  }

  lemma CutWhenAscending<T>(s: seq<T>, total: nat)
    ensures BoundsAscend(|s|, total) <==> forall g: nat :: g < total ==> Cut(s, g, total).Some?
  {
    hide WrappedStart;
    if BoundsAscend(|s|, total) {
      forall g: nat | g < total ensures Cut(s, g, total).Some? {}
    }
    if forall g: nat :: g < total ==> Cut(s, g, total).Some? {
      forall g: nat | g < total ensures WrappedStart(|s|, g, total) <= WrappedStart(|s|, g + 1, total) {
        assert Cut(s, g, total).Some?;
      }
    }
  }

  /** Shuffles positions `start` to `end` one by one. */
  method ShuffleSlice(active: seq<nat>, g: nat, total: nat, seed: Hash, hash: Digest)
    returns (r: Option<seq<nat>>)
    requires active != [] && g < total
    ensures r == Cut(ShuffledList(hash, seed, active), g, total)
  {
    hide Shuffled, WrappedStart;
    var count := |active|;
    var start, end := WrappedStart(count, g, total), WrappedStart(count, g + 1, total);
    BoundWithin(count, g + 1, total);
    if end < start {
      return None;
    }
    var members := [];
    for i := start to end
      invariant |members| == i - start && members == ShuffledList(hash, seed, active)[start..i]
    {
      var shuffled := SwapOrNotShuffle(i, count, seed, hash);
      members := members + [active[shuffled.value]];
    }
    return Some(members);
  }

  /** `NegativeCapacity` stands for the runtime panic. */
  datatype CommitteeError = NoValidators | InvalidCommittee | EpochNotComputed | NegativeCapacity

  const TARGET_COMMITTEE_SIZE: nat := 128
  const MAX_COMMITTEES_PER_SLOT: nat := 64

  /** One committee, computed for its slot alone. */
  method ComputeBeaconCommittee(active: seq<nat>, slotsPerEpoch: nat, slot: nat, committee: nat, seed: Hash,
                                hash: Digest)
    returns (r: Result<seq<nat>, CommitteeError>)
    requires 0 < slotsPerEpoch < TWO_64 && |active| < TWO_64
    ensures var perSlot := CommitteeCount(|active|, slotsPerEpoch, TARGET_COMMITTEE_SIZE, MAX_COMMITTEES_PER_SLOT);
            if active == [] then r == Err(NoValidators)
            else if committee >= perSlot then r == Err(InvalidCommittee)
            else
              var g, total := slot % slotsPerEpoch * perSlot + committee, perSlot * slotsPerEpoch;
              && g < total < TWO_64
              && r == match Cut(ShuffledList(hash, seed, active), g, total)
                      case Some(members) => Ok(members)
                      case None => Err(NegativeCapacity)
  {
    hide Cut;
    if active == [] {
      return Err(NoValidators);
    }
    var perSlot := CommitteeCount(|active|, slotsPerEpoch, TARGET_COMMITTEE_SIZE, MAX_COMMITTEES_PER_SLOT);
    if committee >= perSlot {
      return Err(InvalidCommittee);
    }
    GlobalIndexBound(slot % slotsPerEpoch, committee, slotsPerEpoch, perSlot);
    CommitteesFit(|active|, slotsPerEpoch, TARGET_COMMITTEE_SIZE, MAX_COMMITTEES_PER_SLOT);
    var g := slot % slotsPerEpoch * perSlot + committee;
    var members := ShuffleSlice(active, g, perSlot * slotsPerEpoch, seed, hash);
    return match members case Some(m) => Ok(m) case None => Err(NegativeCapacity);
  }

  // ----- a whole epoch -----

  datatype Assignment = Assignment(validator: nat, slot: nat, committee: nat, size: nat, position: nat)

  datatype EpochCommittees = EpochCommittees(
    epoch: nat,
    slotsPerEpoch: nat,
    committeesPerSlot: nat,
    totalValidators: nat,
    committees: seq<seq<seq<nat>>>,
    validatorMap: map<nat, Assignment>)

  function SlotAt(epoch: nat, slotsPerEpoch: nat, s: nat): nat {
    (epoch * slotsPerEpoch + s) % TWO_64
  }

  /** Where position `i` of the shuffled list ends up. */
  ghost function PlaceOf(shuffled: seq<nat>, epoch: nat, slots: nat, perSlot: nat, i: nat): Assignment
    requires slots * perSlot > 0 && i < |shuffled|
  {
    var g := SliceOf(|shuffled|, slots * perSlot, i);
    PlaceIn(shuffled, epoch, slots, perSlot, g, i)
  }

  ghost function PlaceIn(shuffled: seq<nat>, epoch: nat, slots: nat, perSlot: nat, g: nat, i: nat): Assignment
    requires slots * perSlot > 0 && i < |shuffled| && perSlot > 0 && InSlice(|shuffled|, slots * perSlot, g, i)
  {
    var count, total := |shuffled|, slots * perSlot;
    Assignment(shuffled[i], SlotAt(epoch, slots, g / perSlot), g % perSlot,
               Start(count, g + 1, total) - Start(count, g, total), i - Start(count, g, total))
  }

  /** Committee (s, c) is the slice with that global index. */
  ghost predicate Carved(row: seq<seq<nat>>, shuffled: seq<nat>, slots: nat, perSlot: nat, s: nat) {
    && s < slots && |row| == perSlot
    && (forall c :: 0 <= c < perSlot ==> IsSlice(row[c], shuffled, slots, perSlot, s, c))
  }

  ghost predicate AllCarved(committees: seq<seq<seq<nat>>>, shuffled: seq<nat>, slots: nat, perSlot: nat) {
    forall s :: 0 <= s < |committees| ==> Carved(committees[s], shuffled, slots, perSlot, s)
  }

  ghost predicate IsSlice(members: seq<nat>, shuffled: seq<nat>, slots: nat, perSlot: nat, s: nat, c: nat) {
    && s * perSlot + c < slots * perSlot
    && Cut(shuffled, s * perSlot + c, slots * perSlot) == Some(members)
  }

  lemma FittingSlice(members: seq<nat>, shuffled: seq<nat>, slots: nat, perSlot: nat, s: nat, c: nat)
    requires IsSlice(members, shuffled, slots, perSlot, s, c) && Fits(|shuffled|, slots * perSlot)
    ensures s * perSlot + c < slots * perSlot && members == Slice(shuffled, s * perSlot + c, slots * perSlot)
  {
    hide Slice, Cut;
    CutWhenFitting(shuffled, s * perSlot + c, slots * perSlot);
  }

  /** Different validators, and bounds that do not wrap. */
  ghost predicate Seatable(shuffled: seq<nat>, total: nat) {
    Distinct(shuffled) && Fits(|shuffled|, total)
  }

  /** The map names exactly the first `n` validators, each at its place. */
  ghost predicate Mapped(validatorMap: map<nat, Assignment>, shuffled: seq<nat>, epoch: nat, slots: nat, perSlot: nat,
                         n: nat)
    requires slots * perSlot > 0 && n <= |shuffled|
  {
    && validatorMap.Keys == Elems(shuffled[..n])
    && (forall i :: 0 <= i < n ==> shuffled[i] in validatorMap
                                   && validatorMap[shuffled[i]] == PlaceOf(shuffled, epoch, slots, perSlot, i))
  }

  lemma MapGrows(validatorMap: map<nat, Assignment>, shuffled: seq<nat>, epoch: nat, slots: nat, perSlot: nat, n: nat,
                 g: nat)
    requires slots * perSlot > 0 && perSlot > 0 && n < |shuffled|
    requires Mapped(validatorMap, shuffled, epoch, slots, perSlot, n)
    requires Distinct(shuffled) && InSlice(|shuffled|, slots * perSlot, g, n)
    ensures Mapped(validatorMap[shuffled[n] := PlaceIn(shuffled, epoch, slots, perSlot, g, n)], shuffled, epoch, slots,
                   perSlot, n + 1)
  {
    SliceIsUnique(|shuffled|, slots * perSlot, g, SliceOf(|shuffled|, slots * perSlot, n), n);
    hide PlaceIn, PlaceOf, InSlice;
    assert PlaceOf(shuffled, epoch, slots, perSlot, n) == PlaceIn(shuffled, epoch, slots, perSlot, g, n) by {
      PlaceIsPlaceIn(shuffled, epoch, slots, perSlot, n, g);
    }
    assert shuffled[..n + 1] == shuffled[..n] + [shuffled[n]];
  }

  lemma PlaceIsPlaceIn(shuffled: seq<nat>, epoch: nat, slots: nat, perSlot: nat, n: nat, g: nat)
    requires slots * perSlot > 0 && perSlot > 0 && n < |shuffled| && InSlice(|shuffled|, slots * perSlot, g, n)
    ensures PlaceOf(shuffled, epoch, slots, perSlot, n) == PlaceIn(shuffled, epoch, slots, perSlot, g, n)
  {
    hide InSlice, PlaceIn;
    SliceIsUnique(|shuffled|, slots * perSlot, g, SliceOf(|shuffled|, slots * perSlot, n), n);
  }

  lemma PlaceInSlot(shuffled: seq<nat>, epoch: nat, slots: nat, perSlot: nat, s: nat, c: nat, i: nat)
    requires slots * perSlot > 0 && c < perSlot && i < |shuffled|
    requires InSlice(|shuffled|, slots * perSlot, s * perSlot + c, i)
    ensures var g, total := s * perSlot + c, slots * perSlot;
            var start, end := Start(|shuffled|, g, total), Start(|shuffled|, g + 1, total);
            PlaceIn(shuffled, epoch, slots, perSlot, g, i) ==
            Assignment(shuffled[i], SlotAt(epoch, slots, s), c, end - start, i - start)
  {
    hide Start;
    GlobalIndex(s, c, perSlot);
  }

  /** Records the members of one committee. */
  method RecordMembers(before: map<nat, Assignment>, members: seq<nat>, shuffled: seq<nat>, epoch: nat, slots: nat,
                       perSlot: nat, s: nat, c: nat) returns (validatorMap: map<nat, Assignment>)
    requires slots * perSlot > 0 && c < perSlot && s < slots && IsSlice(members, shuffled, slots, perSlot, s, c)
    requires Start(|shuffled|, s * perSlot + c, slots * perSlot) <= |shuffled|
    requires Seatable(shuffled, slots * perSlot) ==>
               Mapped(before, shuffled, epoch, slots, perSlot, Start(|shuffled|, s * perSlot + c, slots * perSlot))
    ensures Start(|shuffled|, s * perSlot + c + 1, slots * perSlot) <= |shuffled|
    ensures Seatable(shuffled, slots * perSlot) ==>
              Mapped(validatorMap, shuffled, epoch, slots, perSlot,
                     Start(|shuffled|, s * perSlot + c + 1, slots * perSlot))
  {
    hide Mapped, Start, PlaceOf, PlaceIn, IsSlice, InSlice, Distinct, Fits;
    ghost var g, total := s * perSlot + c, slots * perSlot;
    ghost var start := Start(|shuffled|, g, total);
    BoundInside(|shuffled|, slots, perSlot, s, c);
    ghost var good := Seatable(shuffled, total);
    if good { MembersFit(members, shuffled, slots, perSlot, s, c); }
    validatorMap := before;
    for pos := 0 to |members|
      invariant good ==> start + pos <= |shuffled| && Mapped(validatorMap, shuffled, epoch, slots, perSlot, start + pos)
    {
      if good {
        ghost var i := start + pos;
        MemberAt(members, shuffled, slots, perSlot, s, c, pos);
        PlaceInSlot(shuffled, epoch, slots, perSlot, s, c, i);
        MapGrows(validatorMap, shuffled, epoch, slots, perSlot, i, g);
      }
      validatorMap := validatorMap[members[pos] :=
        Assignment(members[pos], SlotAt(epoch, slots, s), c, |members|, pos)];
    }
  }

  lemma BoundInside(count: nat, slots: nat, perSlot: nat, s: nat, c: nat)
    requires s < slots && c < perSlot && slots * perSlot > 0
    ensures s * perSlot + c < slots * perSlot && Start(count, s * perSlot + c + 1, slots * perSlot) <= count
  {
    hide Start;
    GlobalIndexBound(s, c, slots, perSlot);
    SlicesAscend(count, s * perSlot + c + 1, slots * perSlot, slots * perSlot);
    SliceEnds(count, slots * perSlot);
  }

  lemma MembersFit(members: seq<nat>, shuffled: seq<nat>, slots: nat, perSlot: nat, s: nat, c: nat)
    requires slots * perSlot > 0 && IsSlice(members, shuffled, slots, perSlot, s, c)
    requires Fits(|shuffled|, slots * perSlot)
    ensures var g, total := s * perSlot + c, slots * perSlot;
            Start(|shuffled|, g, total) + |members| == Start(|shuffled|, g + 1, total) <= |shuffled|
  {
    hide Start, IsSlice;
    FittingSlice(members, shuffled, slots, perSlot, s, c);
    SlicesAscend(|shuffled|, s * perSlot + c + 1, slots * perSlot, slots * perSlot);
    SliceEnds(|shuffled|, slots * perSlot);
  }

  lemma MemberAt(members: seq<nat>, shuffled: seq<nat>, slots: nat, perSlot: nat, s: nat, c: nat, pos: nat)
    requires slots * perSlot > 0 && IsSlice(members, shuffled, slots, perSlot, s, c) && pos < |members|
    requires Fits(|shuffled|, slots * perSlot)
    ensures var g, total := s * perSlot + c, slots * perSlot;
            var i := Start(|shuffled|, g, total) + pos;
            i < |shuffled| && shuffled[i] == members[pos] && InSlice(|shuffled|, total, g, i)
  {
    MembersFit(members, shuffled, slots, perSlot, s, c);
    hide Start, IsSlice;
    FittingSlice(members, shuffled, slots, perSlot, s, c);
  }

  /** Cuts the shuffled list into committees, slot by slot, and records where
      every validator sits; nothing if some slice would end before it starts. */
  method BuildCommittees(shuffled: seq<nat>, epoch: nat, slots: nat, perSlot: nat)
    returns (done: bool, committees: seq<seq<seq<nat>>>, validatorMap: map<nat, Assignment>)
    requires slots > 0 && perSlot > 0
    ensures slots * perSlot > 0 && (done <==> BoundsAscend(|shuffled|, slots * perSlot))
    ensures done ==> |committees| == slots && AllCarved(committees, shuffled, slots, perSlot)
    ensures done && Seatable(shuffled, slots * perSlot) ==>
              Mapped(validatorMap, shuffled, epoch, slots, perSlot, |shuffled|)
  {
    var total := slots * perSlot;
    assert total > 0 by { NextMultiple(perSlot, 0, slots); }
    SliceEnds(|shuffled|, total);
    hide Start, Mapped, IsSlice, Slice, Seatable, BoundsAscend, AllCarved;
    committees, validatorMap := [], map[];
    NoRows(shuffled, slots, perSlot);
    NothingMapped(shuffled, epoch, slots, perSlot);
    for s := 0 to slots
      invariant |committees| == s && AllCarved(committees, shuffled, slots, perSlot)
      invariant Start(|shuffled|, s * perSlot, total) <= |shuffled|
      invariant Seatable(shuffled, total) ==>
                  Mapped(validatorMap, shuffled, epoch, slots, perSlot, Start(|shuffled|, s * perSlot, total))
    {
      var row: seq<seq<nat>>;
      done, row, validatorMap := BuildSlot(validatorMap, shuffled, epoch, slots, perSlot, s);
      if !done {
        return false, committees, validatorMap;
      }
      OneMoreRow(committees, row, shuffled, slots, perSlot);
      committees := committees + [row];
    }
    CarvedMeansAscend(committees, shuffled, slots, perSlot);
    return true, committees, validatorMap;
  }

  lemma NothingMapped(shuffled: seq<nat>, epoch: nat, slots: nat, perSlot: nat)
    requires slots * perSlot > 0
    ensures Mapped(map[], shuffled, epoch, slots, perSlot, 0)
  {
  }

  lemma NoRows(shuffled: seq<nat>, slots: nat, perSlot: nat)
    ensures AllCarved([], shuffled, slots, perSlot)
  {
  }

  lemma OneMoreRow(committees: seq<seq<seq<nat>>>, row: seq<seq<nat>>, shuffled: seq<nat>, slots: nat, perSlot: nat)
    requires AllCarved(committees, shuffled, slots, perSlot) && Carved(row, shuffled, slots, perSlot, |committees|)
    ensures AllCarved(committees + [row], shuffled, slots, perSlot)
  {
  }

  /** A complete table has a slice for every global index. */
  lemma CarvedMeansAscend(committees: seq<seq<seq<nat>>>, shuffled: seq<nat>, slots: nat, perSlot: nat)
    requires |committees| == slots && perSlot > 0 && slots * perSlot > 0
    requires AllCarved(committees, shuffled, slots, perSlot)
    ensures BoundsAscend(|shuffled|, slots * perSlot)
  {
    hide Cut;
    var total := slots * perSlot;
    forall g: nat | g < total ensures Cut(shuffled, g, total).Some? {
      SlotInEpoch(g, slots, perSlot);
      var s, c := g / perSlot, g % perSlot;
      assert Carved(committees[s], shuffled, slots, perSlot, s);
      assert IsSlice(committees[s][c], shuffled, slots, perSlot, s, c);
    }
    CutWhenAscending(shuffled, total);
  }

  /** The committees of one slot. */
  method BuildSlot(before: map<nat, Assignment>, shuffled: seq<nat>, epoch: nat, slots: nat, perSlot: nat, s: nat)
    returns (done: bool, row: seq<seq<nat>>, validatorMap: map<nat, Assignment>)
    requires slots * perSlot > 0 && perSlot > 0 && s < slots
    requires Start(|shuffled|, s * perSlot, slots * perSlot) <= |shuffled|
    requires Seatable(shuffled, slots * perSlot) ==>
               Mapped(before, shuffled, epoch, slots, perSlot, Start(|shuffled|, s * perSlot, slots * perSlot))
    ensures !done ==> !BoundsAscend(|shuffled|, slots * perSlot)
    ensures done ==> Carved(row, shuffled, slots, perSlot, s)
    ensures Start(|shuffled|, (s + 1) * perSlot, slots * perSlot) <= |shuffled|
    ensures done && Seatable(shuffled, slots * perSlot) ==>
              Mapped(validatorMap, shuffled, epoch, slots, perSlot,
                     Start(|shuffled|, (s + 1) * perSlot, slots * perSlot))
  {
    hide Mapped, IsSlice, Seatable, Start, BoundsAscend;
    row, validatorMap := [], before;
    var count, total := |shuffled|, slots * perSlot;
    OneMore(perSlot, s);
    assert (s + 1) * perSlot == s * perSlot + perSlot;
    BoundInside(count, slots, perSlot, s, perSlot - 1);
    for c := 0 to perSlot
      invariant |row| == c && forall k :: 0 <= k < c ==> IsSlice(row[k], shuffled, slots, perSlot, s, k)
      invariant Start(count, s * perSlot + c, total) <= count
      invariant Seatable(shuffled, total) ==>
                  Mapped(validatorMap, shuffled, epoch, slots, perSlot, Start(count, s * perSlot + c, total))
    {
      var members := CutMembers(shuffled, slots, perSlot, s, c);
      if members.None? {
        return false, row, validatorMap;
      }
      row := row + [members.value];
      validatorMap := RecordMembers(validatorMap, members.value, shuffled, epoch, slots, perSlot, s, c);
    }
    done := true;
  }

  method CutMembers(shuffled: seq<nat>, slots: nat, perSlot: nat, s: nat, c: nat) returns (r: Option<seq<nat>>)
    requires slots * perSlot > 0 && s < slots && c < perSlot
    ensures r.Some? ==> IsSlice(r.value, shuffled, slots, perSlot, s, c)
    ensures r.None? ==> !BoundsAscend(|shuffled|, slots * perSlot)
  {
    var count, total := |shuffled|, slots * perSlot;
    GlobalIndexBound(s, c, slots, perSlot);
    var g := s * perSlot + c;
    var start, end := WrappedStart(count, g, total), WrappedStart(count, g + 1, total);
    BoundWithin(count, g + 1, total);
    hide WrappedStart;
    if end < start {
      return None;
    }
    var members := [];
    for i := start to end
      invariant members == shuffled[start..i]
    {
      members := members + [shuffled[i]];
    }
    return Some(members);
  }

  // ----- a partition -----

  /** Validator `v` is member `p` of committee `c` in slot offset `s`. */
  ghost predicate Sits(committees: seq<seq<seq<nat>>>, v: nat, s: nat, c: nat, p: nat) {
    s < |committees| && c < |committees[s]| && p < |committees[s][c]| && committees[s][c][p] == v
  }

  /** A seat is a position of the shuffled list. */
  lemma SeatIsPosition(committees: seq<seq<seq<nat>>>, shuffled: seq<nat>, slots: nat, perSlot: nat, v: nat, s: nat,
                       c: nat, p: nat) returns (i: nat)
    requires slots * perSlot > 0 && AllCarved(committees, shuffled, slots, perSlot) && Sits(committees, v, s, c, p)
    requires Fits(|shuffled|, slots * perSlot)
    ensures i < |shuffled| && shuffled[i] == v && InSlice(|shuffled|, slots * perSlot, s * perSlot + c, i)
    ensures i == Start(|shuffled|, s * perSlot + c, slots * perSlot) + p
  {
    var g, total := s * perSlot + c, slots * perSlot;
    assert Carved(committees[s], shuffled, slots, perSlot, s);
    assert IsSlice(committees[s][c], shuffled, slots, perSlot, s, c);
    hide IsSlice, Start;
    MemberAt(committees[s][c], shuffled, slots, perSlot, s, c, p);
    i := Start(|shuffled|, g, total) + p;
  }

  /** With distinct validators, each sits in exactly one seat, and the map names
      that seat. */
  lemma EverySeatIsUnique(ec: EpochCommittees, shuffled: seq<nat>, v: nat)
    requires v in shuffled && ec.slotsPerEpoch * ec.committeesPerSlot > 0 && ec.committeesPerSlot > 0
    requires Seatable(shuffled, ec.slotsPerEpoch * ec.committeesPerSlot)
    requires |ec.committees| == ec.slotsPerEpoch
    requires AllCarved(ec.committees, shuffled, ec.slotsPerEpoch, ec.committeesPerSlot)
    requires Mapped(ec.validatorMap, shuffled, ec.epoch, ec.slotsPerEpoch, ec.committeesPerSlot, |shuffled|)
    ensures v in ec.validatorMap
    ensures forall s: nat, c: nat, p: nat :: Sits(ec.committees, v, s, c, p) ==>
              ec.validatorMap[v] ==
              Assignment(v, SlotAt(ec.epoch, ec.slotsPerEpoch, s), c, |ec.committees[s][c]|, p)
    ensures exists s: nat, c: nat, p: nat :: Sits(ec.committees, v, s, c, p)
    ensures forall s: nat, c: nat, p: nat, s': nat, c': nat, p': nat ::
              Sits(ec.committees, v, s, c, p) && Sits(ec.committees, v, s', c', p') ==> s == s' && c == c' && p == p'
  {
    var slots, perSlot := ec.slotsPerEpoch, ec.committeesPerSlot;
    var i :| 0 <= i < |shuffled| && shuffled[i] == v;
    forall s: nat, c: nat, p: nat | Sits(ec.committees, v, s, c, p)
      ensures SeatOf(shuffled, slots, perSlot, i, s, c, p)
      ensures ec.validatorMap[v] == Assignment(v, SlotAt(ec.epoch, slots, s), c, |ec.committees[s][c]|, p)
    {
      SeatMatches(ec, shuffled, v, i, s, c, p);
    }
    var s, c, p := PositionHasSeat(ec, shuffled, i);
    forall s: nat, c: nat, p: nat, s': nat, c': nat, p': nat |
      Sits(ec.committees, v, s, c, p) && Sits(ec.committees, v, s', c', p')
      ensures s == s' && c == c' && p == p'
    {
      SeatsEqual(shuffled, slots, perSlot, i, s, c, p, s', c', p');
    }
  }

  ghost predicate SeatOf(shuffled: seq<nat>, slots: nat, perSlot: nat, i: nat, s: nat, c: nat, p: nat) {
    && slots * perSlot > 0 && c < perSlot
    && InSlice(|shuffled|, slots * perSlot, s * perSlot + c, i)
    && i == Start(|shuffled|, s * perSlot + c, slots * perSlot) + p
  }

  lemma SeatsEqual(shuffled: seq<nat>, slots: nat, perSlot: nat, i: nat, s: nat, c: nat, p: nat, s': nat, c': nat,
                   p': nat)
    requires SeatOf(shuffled, slots, perSlot, i, s, c, p) && SeatOf(shuffled, slots, perSlot, i, s', c', p')
    ensures s == s' && c == c' && p == p'
  {
    hide InSlice, Start;
    SliceIsUnique(|shuffled|, slots * perSlot, s * perSlot + c, s' * perSlot + c', i);
    GlobalIndex(s, c, perSlot);
    GlobalIndex(s', c', perSlot);
  }

  lemma SeatMatches(ec: EpochCommittees, shuffled: seq<nat>, v: nat, i: nat, s: nat, c: nat, p: nat)
    requires i < |shuffled| && shuffled[i] == v
    requires ec.slotsPerEpoch * ec.committeesPerSlot > 0 && ec.committeesPerSlot > 0
    requires Seatable(shuffled, ec.slotsPerEpoch * ec.committeesPerSlot)
    requires |ec.committees| == ec.slotsPerEpoch && s < ec.slotsPerEpoch
    requires AllCarved(ec.committees, shuffled, ec.slotsPerEpoch, ec.committeesPerSlot)
    requires Mapped(ec.validatorMap, shuffled, ec.epoch, ec.slotsPerEpoch, ec.committeesPerSlot, |shuffled|)
    requires Sits(ec.committees, v, s, c, p)
    ensures SeatOf(shuffled, ec.slotsPerEpoch, ec.committeesPerSlot, i, s, c, p)
    ensures v in ec.validatorMap
    ensures ec.validatorMap[v] == Assignment(v, SlotAt(ec.epoch, ec.slotsPerEpoch, s), c, |ec.committees[s][c]|, p)
  {
    hide Start, InSlice, PlaceOf;
    var slots, perSlot := ec.slotsPerEpoch, ec.committeesPerSlot;
    var j := SeatIsPosition(ec.committees, shuffled, slots, perSlot, v, s, c, p);
    assert j == i;
    assert IsSlice(ec.committees[s][c], shuffled, slots, perSlot, s, c);
    MembersFit(ec.committees[s][c], shuffled, slots, perSlot, s, c);
    hide IsSlice;
    PlaceIsPlaceIn(shuffled, ec.epoch, slots, perSlot, i, s * perSlot + c);
    GlobalIndex(s, c, perSlot);
  }

  lemma PositionHasSeat(ec: EpochCommittees, shuffled: seq<nat>, i: nat) returns (s: nat, c: nat, p: nat)
    requires i < |shuffled| && ec.slotsPerEpoch * ec.committeesPerSlot > 0 && ec.committeesPerSlot > 0
    requires |ec.committees| == ec.slotsPerEpoch && Fits(|shuffled|, ec.slotsPerEpoch * ec.committeesPerSlot)
    requires AllCarved(ec.committees, shuffled, ec.slotsPerEpoch, ec.committeesPerSlot)
    ensures Sits(ec.committees, shuffled[i], s, c, p)
  {
    var slots, perSlot := ec.slotsPerEpoch, ec.committeesPerSlot;
    hide Start, SliceOf;
    var g := SliceOf(|shuffled|, slots * perSlot, i);
    s, c := g / perSlot, g % perSlot;
    SlotInEpoch(g, slots, perSlot);
    assert g == s * perSlot + c && c < perSlot;
    p := i - Start(|shuffled|, g, slots * perSlot);
    assert Carved(ec.committees[s], shuffled, slots, perSlot, s);
    assert IsSlice(ec.committees[s][c], shuffled, slots, perSlot, s, c);
    MembersFit(ec.committees[s][c], shuffled, slots, perSlot, s, c);
    MemberAt(ec.committees[s][c], shuffled, slots, perSlot, s, c, p);
  }

  lemma SlotInEpoch(g: nat, slots: nat, perSlot: nat)
    requires perSlot > 0 && g < slots * perSlot
    ensures g / perSlot < slots && g == g / perSlot * perSlot + g % perSlot
  {
    var s := g / perSlot;
    assert g == perSlot * s + g % perSlot;
    if slots <= s { MulKeepsOrder(perSlot, slots, s); }
  }

  /** Committee sizes differ by at most one. */
  lemma SizesDifferByOne(committees: seq<seq<seq<nat>>>, shuffled: seq<nat>, slots: nat, perSlot: nat, s: nat, c: nat,
                         s': nat, c': nat)
    requires slots * perSlot > 0 && c < perSlot && c' < perSlot
    requires AllCarved(committees, shuffled, slots, perSlot) && s < |committees| && s' < |committees|
    requires Fits(|shuffled|, slots * perSlot)
    ensures -1 <= |committees[s][c]| - |committees[s'][c']| <= 1
  {
    hide Start;
    assert Carved(committees[s], shuffled, slots, perSlot, s) && Carved(committees[s'], shuffled, slots, perSlot, s');
    assert IsSlice(committees[s][c], shuffled, slots, perSlot, s, c);
    assert IsSlice(committees[s'][c'], shuffled, slots, perSlot, s', c');
    hide IsSlice;
    FittingSlice(committees[s][c], shuffled, slots, perSlot, s, c);
    FittingSlice(committees[s'][c'], shuffled, slots, perSlot, s', c');
    SliceSize(|shuffled|, s * perSlot + c, slots * perSlot);
    SliceSize(|shuffled|, s' * perSlot + c', slots * perSlot);
  }

  // ----- the flat form -----

  datatype BeaconCommittee = BeaconCommittee(slot: nat, committee: nat, members: seq<nat>)

  /** Entry `g` of the flat list is slice `g`. */
  ghost predicate Listed(results: seq<BeaconCommittee>, shuffled: seq<nat>, epoch: nat, slots: nat, perSlot: nat) {
    forall g :: 0 <= g < |results| ==> ListedAt(results[g], shuffled, epoch, slots, perSlot, g)
  }

  ghost predicate ListedAt(b: BeaconCommittee, shuffled: seq<nat>, epoch: nat, slots: nat, perSlot: nat, g: nat) {
    && perSlot > 0 && g < slots * perSlot
    && b.slot == SlotAt(epoch, slots, g / perSlot) && b.committee == g % perSlot
    && Cut(shuffled, g, slots * perSlot) == Some(b.members)
  }

  /** All committees of an epoch as one list, each position shuffled on its own. */
  method ListBeaconCommittees(epoch: nat, active: seq<nat>, slots: nat, perSlot: nat, seed: Hash, hash: Digest)
    returns (r: Option<seq<BeaconCommittee>>)
    requires active != []
    ensures r.Some? <==> BoundsAscend(|active|, slots * perSlot)
    ensures r.Some? ==> |r.value| == slots * perSlot
                        && Listed(r.value, ShuffledList(hash, seed, active), epoch, slots, perSlot)
  {
    hide Cut, ShuffledList, ListedAt, BoundsAscend;
    var results := [];
    for s := 0 to slots
      invariant |results| == s * perSlot
      invariant Listed(results, ShuffledList(hash, seed, active), epoch, slots, perSlot)
    {
      for c := 0 to perSlot
        invariant |results| == s * perSlot + c
        invariant Listed(results, ShuffledList(hash, seed, active), epoch, slots, perSlot)
      {
        GlobalIndexBound(s, c, slots, perSlot);
        var g := s * perSlot + c;
        var members := ShuffleSlice(active, g, slots * perSlot, seed, hash);
        CutWhenAscending(ShuffledList(hash, seed, active), slots * perSlot);
        if members.None? {
          return None;
        }
        var b := BeaconCommittee(SlotAt(epoch, slots, s), c, members.value);
        assert ListedAt(b, ShuffledList(hash, seed, active), epoch, slots, perSlot, g) by {
          EntryIsListed(b, ShuffledList(hash, seed, active), epoch, slots, perSlot, s, c);
        }
        results := results + [b];
      }
      assert (s + 1) * perSlot == s * perSlot + perSlot;
    }
    ListedMeansAscend(results, ShuffledList(hash, seed, active), epoch, slots, perSlot);
    return Some(results);
  }

  lemma ListedMeansAscend(results: seq<BeaconCommittee>, shuffled: seq<nat>, epoch: nat, slots: nat, perSlot: nat)
    requires |results| == slots * perSlot && Listed(results, shuffled, epoch, slots, perSlot)
    ensures BoundsAscend(|shuffled|, slots * perSlot)
  {
    hide Cut;
    forall g: nat | g < slots * perSlot ensures Cut(shuffled, g, slots * perSlot).Some? {
      assert ListedAt(results[g], shuffled, epoch, slots, perSlot, g);
    }
    CutWhenAscending(shuffled, slots * perSlot);
  }

  class CommitteeAssigner {
    const slotsPerEpoch: Word
    const targetSize: Word
    const maxPerSlot: Word
    var committeeCache: map<nat, seq<BeaconCommittee>>

    constructor (slotsPerEpoch: Word, targetSize: Word, maxPerSlot: Word)
      ensures this.slotsPerEpoch == slotsPerEpoch && this.targetSize == targetSize && this.maxPerSlot == maxPerSlot
      ensures committeeCache == map[]
    {
      this.slotsPerEpoch, this.targetSize, this.maxPerSlot := slotsPerEpoch, targetSize, maxPerSlot;
      committeeCache := map[];
    }

    /** The list of an epoch is fixed by its first computation, whatever is
        passed later, even no validators. */
    method ComputeBeaconCommittees(epoch: nat, active: seq<nat>, seed: Hash, hash: Digest)
      returns (r: Result<seq<BeaconCommittee>, CommitteeError>)
      requires targetSize > 0 && |active| < TWO_64
      modifies this
      ensures epoch in old(committeeCache) ==> r == Ok(old(committeeCache)[epoch])
      ensures epoch !in old(committeeCache) && active == [] ==> r == Err(NoValidators)
      ensures r.Err? || epoch in old(committeeCache) ==> committeeCache == old(committeeCache)
      ensures epoch !in old(committeeCache) && active != [] ==>
                var slots := if slotsPerEpoch == 0 then 32 else slotsPerEpoch;
                var perSlot := CommitteeCount(|active|, slots, targetSize, maxPerSlot);
                && slots * perSlot < TWO_64 && (r.Ok? <==> BoundsAscend(|active|, slots * perSlot))
                && (r.Err? ==> r.error == NegativeCapacity)
                && (r.Ok? ==>
                      && |r.value| == slots * perSlot
                      && Listed(r.value, ShuffledList(hash, seed, active), epoch, slots, perSlot)
                      && committeeCache == old(committeeCache)[epoch := r.value])
    {
      hide Listed, ShuffledList, BoundsAscend;
      if epoch in committeeCache {
        return Ok(committeeCache[epoch]);
      }
      if active == [] {
        return Err(NoValidators);
      }
      var slots := if slotsPerEpoch == 0 then 32 else slotsPerEpoch;
      var perSlot := CommitteeCount(|active|, slots, targetSize, maxPerSlot);
      CommitteesFit(|active|, slots, targetSize, maxPerSlot);
      var results := ListBeaconCommittees(epoch, active, slots, perSlot, seed, hash);
      if results.None? {
        return Err(NegativeCapacity);
      }
      committeeCache := committeeCache[epoch := results.value];
      return Ok(results.value);
    }
  }

  lemma EntryIsListed(b: BeaconCommittee, shuffled: seq<nat>, epoch: nat, slots: nat, perSlot: nat, s: nat, c: nat)
    requires c < perSlot && s * perSlot + c < slots * perSlot
    requires b.slot == SlotAt(epoch, slots, s) && b.committee == c
    requires Cut(shuffled, s * perSlot + c, slots * perSlot) == Some(b.members)
    ensures ListedAt(b, shuffled, epoch, slots, perSlot, s * perSlot + c)
  {
    hide Cut;
    GlobalIndex(s, c, perSlot);
  }

  /** The flat list, the epoch table and the per-slot form give the same
      committee for the same slot and index. */
  lemma FormsAgree(results: seq<BeaconCommittee>, committees: seq<seq<seq<nat>>>, shuffled: seq<nat>, epoch: nat,
                   slots: nat, perSlot: nat, s: nat, c: nat)
    requires s < slots == |committees| && c < perSlot && |results| == slots * perSlot && slots * perSlot > 0
    requires Listed(results, shuffled, epoch, slots, perSlot) && AllCarved(committees, shuffled, slots, perSlot)
    ensures s * perSlot + c < slots * perSlot
    ensures c < |committees[s]| && results[s * perSlot + c].members == committees[s][c]
    ensures Cut(shuffled, s * perSlot + c, slots * perSlot) == Some(committees[s][c])
  {
    hide Cut;
    GlobalIndexBound(s, c, slots, perSlot);
    assert Carved(committees[s], shuffled, slots, perSlot, s);
    assert IsSlice(committees[s][c], shuffled, slots, perSlot, s, c);
    assert ListedAt(results[s * perSlot + c], shuffled, epoch, slots, perSlot, s * perSlot + c);
  }

  // ----- the object -----

  datatype RotationConfig = RotationConfig(slotsPerEpoch: Word, targetSize: Word, maxPerSlot: Word, maxAttesters: nat)

  function WithDefaults(cfg: RotationConfig, ssf: bool): RotationConfig {
    RotationConfig(if ssf then 4 else if cfg.slotsPerEpoch == 0 then 32 else cfg.slotsPerEpoch,
                   if cfg.targetSize == 0 then TARGET_COMMITTEE_SIZE else cfg.targetSize,
                   if cfg.maxPerSlot == 0 then MAX_COMMITTEES_PER_SLOT else cfg.maxPerSlot,
                   if cfg.maxAttesters == 0 then 128_000 else cfg.maxAttesters)
  }

  function Capped(active: seq<nat>, maxAttesters: nat): (r: seq<nat>)
    ensures r <= active && |r| <= maxAttesters && (|r| < maxAttesters ==> r == active)
  {
    if |active| > maxAttesters then active[..maxAttesters] else active
  }

  /** The committees of an epoch, cut from the shuffled and capped validators. */
  ghost predicate Rotation(ec: EpochCommittees, cfg: RotationConfig, epoch: nat, shuffled: seq<nat>) {
    && ec.epoch == epoch && ec.slotsPerEpoch == cfg.slotsPerEpoch && ec.totalValidators == |shuffled|
    && ec.committeesPerSlot == CommitteeCount(|shuffled|, cfg.slotsPerEpoch, cfg.targetSize, cfg.maxPerSlot) > 0
    && ec.slotsPerEpoch * ec.committeesPerSlot > 0
    && |ec.committees| == ec.slotsPerEpoch
    && AllCarved(ec.committees, shuffled, ec.slotsPerEpoch, ec.committeesPerSlot)
    && (Seatable(shuffled, ec.slotsPerEpoch * ec.committeesPerSlot) ==>
          Mapped(ec.validatorMap, shuffled, epoch, ec.slotsPerEpoch, ec.committeesPerSlot, |shuffled|))
  }

  /** A validator sits in one place, and the map says where. */
  ghost predicate SitsOnce(ec: EpochCommittees, v: nat) {
    && v in ec.validatorMap
    && (exists s: nat, c: nat, p: nat :: Sits(ec.committees, v, s, c, p))
    && (forall s: nat, c: nat, p: nat :: Sits(ec.committees, v, s, c, p) ==>
          ec.validatorMap[v] == Assignment(v, SlotAt(ec.epoch, ec.slotsPerEpoch, s), c, |ec.committees[s][c]|, p))
    && (forall s: nat, c: nat, p: nat, s': nat, c': nat, p': nat ::
          Sits(ec.committees, v, s, c, p) && Sits(ec.committees, v, s', c', p') ==> s == s' && c == c' && p == p')
  }

  /** When the product does not fit the last of the list has no seat. */
  lemma LastIsLeftOut(ec: EpochCommittees, shuffled: seq<nat>, s: nat, c: nat, p: nat)
    requires shuffled != [] && Distinct(shuffled) && ec.slotsPerEpoch * ec.committeesPerSlot > 0
    requires AllCarved(ec.committees, shuffled, ec.slotsPerEpoch, ec.committeesPerSlot)
    requires !Fits(|shuffled|, ec.slotsPerEpoch * ec.committeesPerSlot)
    ensures !Sits(ec.committees, shuffled[|shuffled| - 1], s, c, p)
  {
    var slots, perSlot, n := ec.slotsPerEpoch, ec.committeesPerSlot, |shuffled|;
    hide Fits, WrappedStart, Distinct;
    if Sits(ec.committees, shuffled[n - 1], s, c, p) {
      assert Carved(ec.committees[s], shuffled, slots, perSlot, s);
      assert IsSlice(ec.committees[s][c], shuffled, slots, perSlot, s, c);
      var g := s * perSlot + c;
      BoundFallsShort(n, g + 1, slots * perSlot);
      LastIsOnlyLast(shuffled, WrappedStart(n, g, slots * perSlot) + p);
    }
  }

  lemma LastIsOnlyLast(s: seq<nat>, i: nat)
    requires Distinct(s) && i < |s| - 1
    ensures s[i] != s[|s| - 1]
  {
  }

  /** Distinct active validators: all under the cap have exactly one seat if and
      only if their number times the number of committees is below 2^64; then
      no others have one. */
  lemma CommitteesPartition(ec: EpochCommittees, cfg: RotationConfig, epoch: nat, active: seq<nat>, seed: Hash,
                            hash: Digest)
    requires Rotation(ec, cfg, epoch, ShuffledList(hash, seed, Capped(active, cfg.maxAttesters)))
    requires Distinct(active) && active != [] && cfg.maxAttesters > 0 && |active| <= TWO_63
    ensures (forall v :: v in Capped(active, cfg.maxAttesters) ==> SitsOnce(ec, v))
            <==> Fits(|Capped(active, cfg.maxAttesters)|, ec.slotsPerEpoch * ec.committeesPerSlot)
    ensures Fits(|Capped(active, cfg.maxAttesters)|, ec.slotsPerEpoch * ec.committeesPerSlot) ==>
              ec.validatorMap.Keys == Elems(Capped(active, cfg.maxAttesters))
  {
    hide AllCarved, Sits, Shuffled, Fits;
    var capped := Capped(active, cfg.maxAttesters);
    var shuffled := ShuffledList(hash, seed, capped);
    ShuffleIsPermutation(hash, seed, capped);
    DistinctPermutation(capped, shuffled);
    assert shuffled[..|shuffled|] == shuffled;
    if Fits(|capped|, ec.slotsPerEpoch * ec.committeesPerSlot) {
      forall v | v in capped ensures SitsOnce(ec, v) {
        assert v in Elems(shuffled);
        EverySeatIsUnique(ec, shuffled, v);
      }
    } else {
      var v := shuffled[|shuffled| - 1];
      assert v in Elems(shuffled) && v in capped;
      forall s: nat, c: nat, p: nat ensures !Sits(ec.committees, v, s, c, p) { LastIsLeftOut(ec, shuffled, s, c, p); }
    }
  }

  lemma SlotSplits(epoch: nat, slots: nat, s: nat)
    requires s < slots && epoch * slots + slots <= TWO_64
    ensures SlotAt(epoch, slots, s) / slots == epoch && SlotAt(epoch, slots, s) % slots == s
  {
    var x := epoch * slots + s;
    assert x % TWO_64 == x;
    assert x == slots * epoch + s;
    DivIs(x, slots, epoch, s);
    assert x == slots * (x / slots) + x % slots;
  }

  /** Looking a validator's assigned slot and committee up leads to its seat, as
      long as the epoch's slots fit in 64 bits. */
  lemma AssignmentLeadsToSeat(ec: EpochCommittees, v: nat)
    requires SitsOnce(ec, v) && |ec.committees| == ec.slotsPerEpoch
    requires ec.epoch * ec.slotsPerEpoch + ec.slotsPerEpoch <= TWO_64
    ensures ec.slotsPerEpoch > 0
    ensures var a := ec.validatorMap[v];
            var offset := a.slot % ec.slotsPerEpoch;
            && a.validator == v && a.slot / ec.slotsPerEpoch == ec.epoch
            && Sits(ec.committees, v, offset, a.committee, a.position)
            && a.size == |ec.committees[offset][a.committee]|
  {
    hide SlotAt;
    var s: nat, c: nat, p: nat :| Sits(ec.committees, v, s, c, p);
    SlotSplits(ec.epoch, ec.slotsPerEpoch, s);
  }

  /** The slice of the shuffled validators for a slot offset and index. */
  ghost predicate IsCommittee(members: seq<nat>, ec: EpochCommittees, cfg: RotationConfig, epoch: nat, offset: nat,
                              committee: nat) {
    exists shuffled: seq<nat> ::
      && Rotation(ec, cfg, epoch, shuffled)
      && IsSlice(members, shuffled, ec.slotsPerEpoch, ec.committeesPerSlot, offset, committee)
  }

  class CommitteeRotationManager {
    const cfg: RotationConfig
    var epochCache: map<nat, EpochCommittees>
    var lastComputedEpoch: nat
    var hasComputed: bool

    ghost predicate Valid()
      reads this
    {
      && cfg.slotsPerEpoch > 0 && cfg.targetSize > 0 && cfg.maxPerSlot > 0 && cfg.maxAttesters > 0
      && forall e :: e in epochCache ==> exists shuffled: seq<nat> :: Rotation(epochCache[e], cfg, e, shuffled)
    }

    constructor (config: RotationConfig, ssf: bool)
      ensures Valid() && epochCache == map[] && !hasComputed
      ensures cfg.slotsPerEpoch == if ssf then 4 else if config.slotsPerEpoch == 0 then 32 else config.slotsPerEpoch
      ensures cfg.targetSize == if config.targetSize == 0 then 128 else config.targetSize
      ensures cfg.maxPerSlot == if config.maxPerSlot == 0 then 64 else config.maxPerSlot
      ensures cfg.maxAttesters == if config.maxAttesters == 0 then 128_000 else config.maxAttesters
    {
      cfg := WithDefaults(config, ssf);
      epochCache, lastComputedEpoch, hasComputed := map[], 0, false;
    }

    /** The first computation of an epoch fixes its committees. */
    method ComputeEpochCommittees(epoch: nat, active: seq<nat>, seed: Hash, hash: Digest)
      returns (r: Result<EpochCommittees, CommitteeError>)
      requires Valid() && |active| < TWO_64
      modifies this
      ensures Valid() && (r.Err? ==> r.error == if active == [] then NoValidators else NegativeCapacity)
      ensures active == [] ==> r == Err(NoValidators)
      ensures active != [] && epoch in old(epochCache) ==> r == Ok(old(epochCache)[epoch])
      ensures r.Err? || epoch in old(epochCache) ==>
                epochCache == old(epochCache) && lastComputedEpoch == old(lastComputedEpoch)
                && hasComputed == old(hasComputed)
      ensures active != [] && epoch !in old(epochCache) ==>
                var capped := Capped(active, cfg.maxAttesters);
                var perSlot := CommitteeCount(|capped|, cfg.slotsPerEpoch, cfg.targetSize, cfg.maxPerSlot);
                && 0 < cfg.slotsPerEpoch * perSlot < TWO_64
                && (r.Ok? <==> BoundsAscend(|capped|, cfg.slotsPerEpoch * perSlot))
                && (r.Ok? ==>
                      && Rotation(r.value, cfg, epoch, ShuffledList(hash, seed, capped))
                      && epochCache == old(epochCache)[epoch := r.value] && lastComputedEpoch == epoch && hasComputed)
    {
      hide AllCarved, Mapped, ShuffledList, BoundsAscend;
      if active == [] {
        return Err(NoValidators);
      }
      var capped := Capped(active, cfg.maxAttesters);
      if epoch in epochCache {
        return Ok(epochCache[epoch]);
      }
      var perSlot := CommitteeCount(|capped|, cfg.slotsPerEpoch, cfg.targetSize, cfg.maxPerSlot);
      CommitteesFit(|capped|, cfg.slotsPerEpoch, cfg.targetSize, cfg.maxPerSlot);
      var list := ShuffleIndices(capped, seed, hash);
      var shuffled := list.value;
      var done, committees, validatorMap := BuildCommittees(shuffled, epoch, cfg.slotsPerEpoch, perSlot);
      if !done {
        return Err(NegativeCapacity);
      }
      var ec := EpochCommittees(epoch, cfg.slotsPerEpoch, perSlot, |capped|, committees, validatorMap);
      assert Rotation(ec, cfg, epoch, shuffled);
      epochCache := epochCache[epoch := ec];
      lastComputedEpoch, hasComputed := epoch, true;
      return Ok(ec);
    }

    /** A committee by absolute slot. */
    method GetCommitteeBySlot(slot: nat, committee: nat) returns (r: Result<seq<nat>, CommitteeError>)
      requires Valid()
      ensures var epoch := slot / cfg.slotsPerEpoch;
              if epoch !in epochCache then r == Err(EpochNotComputed)
              else if committee >= epochCache[epoch].committeesPerSlot then r == Err(InvalidCommittee)
              else
                r.Ok? && IsCommittee(r.value, epochCache[epoch], cfg, epoch, slot % cfg.slotsPerEpoch, committee)
    {
      hide Cut, Mapped;
      var epoch := slot / cfg.slotsPerEpoch;
      if epoch !in epochCache {
        return Err(EpochNotComputed);
      }
      var ec := epochCache[epoch];
      var offset := slot % cfg.slotsPerEpoch;
      ghost var shuffled: seq<nat> :| Rotation(ec, cfg, epoch, shuffled);
      if committee >= ec.committeesPerSlot {
        return Err(InvalidCommittee);
      }
      assert Carved(ec.committees[offset], shuffled, cfg.slotsPerEpoch, ec.committeesPerSlot, offset);
      var members := ec.committees[offset][committee];
      assert IsSlice(members, shuffled, cfg.slotsPerEpoch, ec.committeesPerSlot, offset, committee);
      assert IsCommittee(members, ec, cfg, epoch, offset, committee);
      return Ok(members);
    }
  }
}
