/** Casper FFG: the justification and finalization step, and what whole runs of
    it keep. */
module CasperFinality {
  import opened Collections
  import opened Hashes

  datatype Checkpoint = Checkpoint(epoch: nat, root: Hash)

  datatype Ffg = Ffg(
    justified: Checkpoint,
    previousJustified: Checkpoint,
    finalized: Checkpoint,
    bits: seq<bool>,
    checkpoints: map<nat, Checkpoint>)

  const SLOTS_PER_HISTORICAL_ROOT: nat := 8192

  // ----- the two-thirds test -----

  /** Both products are 64-bit. */
  predicate IsSuperMajority(vote: nat, total: nat) {
    total != 0 && vote * 3 % TWO_64 >= total * 2 % TWO_64
  }

  ghost predicate TwoThirds(vote: nat, total: nat) {
    total > 0 && 3 * vote >= 2 * total
  }

  /** A vote the test gets wrong, for a total too large for it. */
  ghost function Misjudged(total: nat): nat {
    if total * 2 < TWO_64 then total else (total * 2 - TWO_64 + 2) / 3
  }

  /** The test means two thirds of the total, for every vote up to it, exactly
      when three times the total fits in 64 bits. */
  lemma SuperMajorityIsTwoThirds(total: nat)
    requires total < TWO_64
    ensures (forall vote: nat :: vote <= total ==> (IsSuperMajority(vote, total) <==> TwoThirds(vote, total)))
            <==> 3 * total < TWO_64
  {
    if 3 * total >= TWO_64 {
      var vote := Misjudged(total);
      assert vote <= total && IsSuperMajority(vote, total) != TwoThirds(vote, total);
    } else {
      forall vote: nat | vote <= total ensures IsSuperMajority(vote, total) <==> TwoThirds(vote, total) {
        assert vote * 3 % TWO_64 == vote * 3 && total * 2 % TWO_64 == total * 2;
      }
    }
  }

  // ----- the step -----

  function Genesis(root: Hash): Ffg {
    var genesis := Checkpoint(0, root);
    Ffg(genesis, genesis, genesis, [true, false, false, false], map[0 := genesis])
  }

  function Rotated(s: Ffg, epoch: nat, previousOk: bool, currentOk: bool, root: nat -> Hash): (r: Ffg)
    requires |s.bits| == 4 && epoch > 1
    ensures |r.bits| == 4
  {
    var justified := if currentOk then Checkpoint(epoch, root(epoch))
                     else if previousOk then Checkpoint(epoch - 1, root(epoch - 1))
                     else s.justified;
    s.(justified := justified, previousJustified := s.justified,
       bits := [currentOk, s.bits[0] || previousOk, s.bits[1], s.bits[2]])
  }

  function Finalize(s: Ffg, c: Checkpoint): Ffg {
    s.(finalized := c, checkpoints := s.checkpoints[c.epoch := c])
  }

  /** The four finalization conditions, in order; `oldPJ` and `oldCJ` are the
      justified checkpoints before the rotation. */
  function Finalized(s: Ffg, epoch: nat, oldPJ: Checkpoint, oldCJ: Checkpoint): Ffg
    requires |s.bits| == 4
  {
    var b := s.bits;
    var s1 := if b[1] && b[2] && b[3] && oldPJ.epoch + 3 == epoch then Finalize(s, oldPJ) else s;
    var s2 := if b[1] && b[2] && oldPJ.epoch + 2 == epoch then Finalize(s1, oldPJ) else s1;
    var s3 := if b[0] && b[1] && b[2] && oldCJ.epoch + 2 == epoch then Finalize(s2, oldCJ) else s2;
    if b[0] && b[1] && oldCJ.epoch + 1 == epoch then Finalize(s3, oldCJ) else s3
  }

  ghost function Step(s: Ffg, epoch: nat, previousOk: bool, currentOk: bool, root: nat -> Hash): (r: Ffg)
    requires |s.bits| == 4
    ensures |r.bits| == 4
  {
    if epoch <= 1 then s
    else Finalized(Rotated(s, epoch, previousOk, currentOk, root), epoch, s.previousJustified, s.justified)
  }

  // ----- runs -----

  /** What one epoch brings: which of the two epochs reached two thirds, and the
      block roots as they are then. */
  datatype Input = Input(epoch: nat, previousOk: bool, currentOk: bool, root: nat -> Hash)

  ghost function Run(inputs: seq<Input>): (s: Ffg)
    ensures |s.bits| == 4
  {
    if inputs == [] then Genesis(ZERO_HASH)
    else
      var last := inputs[|inputs| - 1];
      Step(Run(inputs[..|inputs| - 1]), last.epoch, last.previousOk, last.currentOk, last.root)
  }

  ghost function LastEpoch(inputs: seq<Input>): nat {
    if inputs == [] then 0 else inputs[|inputs| - 1].epoch
  }

  ghost predicate EpochsIncrease(inputs: seq<Input>) {
    forall i, j :: 0 <= i < j < |inputs| ==> inputs[i].epoch < inputs[j].epoch
  }

  ghost predicate Ordered(s: Ffg, epoch: nat) {
    && s.finalized.epoch <= s.previousJustified.epoch <= s.justified.epoch <= epoch
    && s.finalized.epoch in s.checkpoints && s.checkpoints[s.finalized.epoch] == s.finalized
  }

  lemma StepKeepsOrder(s: Ffg, last: nat, i: Input)
    requires |s.bits| == 4 && Ordered(s, last) && last < i.epoch
    ensures var r := Step(s, i.epoch, i.previousOk, i.currentOk, i.root);
            && Ordered(r, i.epoch)
            && r.finalized.epoch >= s.finalized.epoch
            && r.previousJustified.epoch >= s.previousJustified.epoch
            && r.justified.epoch >= s.justified.epoch
  {
  }

  /** Over every run with increasing epochs: finalized <= previous justified <=
      justified <= current epoch. */
  lemma {:induction false} RunIsOrdered(inputs: seq<Input>)
    requires EpochsIncrease(inputs)
    ensures Ordered(Run(inputs), LastEpoch(inputs))
  {
    if inputs != [] {
      var front, last := inputs[..|inputs| - 1], inputs[|inputs| - 1];
      RunIsOrdered(front);
      if front == [] && last.epoch == 0 {
        assert Run(inputs) == Run(front);
      } else {
        hide Step, Ordered;
        StepKeepsOrder(Run(front), LastEpoch(front), last);
      }
    }
  }

  /** The three checkpoints never go back. */
  lemma {:induction false} RunIsMonotone(inputs: seq<Input>, n: nat)
    requires EpochsIncrease(inputs) && n <= |inputs|
    ensures var s, r := Run(inputs[..n]), Run(inputs);
            && s.finalized.epoch <= r.finalized.epoch
            && s.previousJustified.epoch <= r.previousJustified.epoch
            && s.justified.epoch <= r.justified.epoch
  {
    if n == |inputs| {
      assert inputs[..n] == inputs;
    } else {
      hide Step, Ordered;
      var front, last := inputs[..|inputs| - 1], inputs[|inputs| - 1];
      assert inputs[..n] == front[..n];
      RunIsMonotone(front, n);
      RunIsOrdered(front);
      if front == [] && last.epoch == 0 {
        assert Run(inputs) == Run(front) by { GenesisStays(last); }
      } else {
        StepKeepsOrder(Run(front), LastEpoch(front), last);
      }
    }
  }

  lemma GenesisStays(i: Input)
    requires i.epoch == 0
    ensures Run([i]) == Run([])
  {
    assert [i][..0] == [];
  }

  // ----- two thirds behind every finalized epoch -----

  /** Some step found two thirds behind `e`: the step of `e` itself, or the next. */
  ghost predicate Justified(inputs: seq<Input>, e: nat) {
    exists i :: 0 <= i < |inputs| && Backs(inputs[i], e)
  }

  ghost predicate Backs(i: Input, e: nat) {
    (i.epoch == e && i.currentOk) || (i.epoch == e + 1 && i.previousOk)
  }

  /** One input per epoch, from 2 on. */
  ghost predicate Consecutive(inputs: seq<Input>) {
    forall i :: 0 <= i < |inputs| ==> inputs[i].epoch == i + 2
  }

  /** Bit i set means epoch i back was justified; epochs 0 and 1 are exempt. */
  ghost predicate BitsAreBacked(inputs: seq<Input>, s: Ffg)
    requires |s.bits| == 4
  {
    && (forall i :: 0 <= i < 4 && s.bits[i] && |inputs| + 1 - i >= 2 ==> Justified(inputs, |inputs| + 1 - i))
    && (s.justified.epoch > 0 ==> Justified(inputs, s.justified.epoch))
    && (s.previousJustified.epoch > 0 ==> Justified(inputs, s.previousJustified.epoch))
  }

  lemma JustifiedStays(front: seq<Input>, last: Input, e: nat)
    requires Justified(front, e) || Backs(last, e)
    ensures Justified(front + [last], e)
  {
    var all := front + [last];
    if i :| 0 <= i < |front| && Backs(front[i], e) {
      assert Backs(all[i], e);
    } else {
      assert Backs(all[|front|], e);
    }
  }

  ghost predicate FinalizedIsBacked(inputs: seq<Input>, s: Ffg) {
    s.finalized.epoch > 0 ==> Justified(inputs, s.finalized.epoch) && Justified(inputs, s.finalized.epoch + 1)
  }

  lemma RotationIsBacked(front: seq<Input>, last: Input, s: Ffg)
    requires |s.bits| == 4 && BitsAreBacked(front, s) && last.epoch == |front| + 2
    ensures BitsAreBacked(front + [last], Rotated(s, last.epoch, last.previousOk, last.currentOk, last.root))
  {
    hide Justified;
    var all, e := front + [last], last.epoch;
    var r := Rotated(s, e, last.previousOk, last.currentOk, last.root);
    forall i | 0 <= i < 4 && r.bits[i] && |all| + 1 - i >= 2 ensures Justified(all, |all| + 1 - i) {
      assert i > 0 && s.bits[i - 1] ==> Justified(front, |front| + 1 - (i - 1));
      JustifiedStays(front, last, |all| + 1 - i);
    }
    if s.justified.epoch > 0 { JustifiedStays(front, last, s.justified.epoch); }
    if r.justified.epoch > 0 { JustifiedStays(front, last, r.justified.epoch); }
  }

  /** What the step can finalize, and the bit that stands for the next epoch. */
  lemma FinalizedOneOf(s: Ffg, i: Input)
    requires |s.bits| == 4 && i.epoch > 1
    ensures var f := Step(s, i.epoch, i.previousOk, i.currentOk, i.root).finalized;
            var b := Rotated(s, i.epoch, i.previousOk, i.currentOk, i.root).bits;
            || f == s.finalized
            || (f == s.previousJustified && ((f.epoch + 3 == i.epoch && b[2]) || (f.epoch + 2 == i.epoch && b[1])))
            || (f == s.justified && ((f.epoch + 2 == i.epoch && b[1]) || (f.epoch + 1 == i.epoch && b[0])))
  {
  }

  lemma FinalizationIsBacked(front: seq<Input>, last: Input, s: Ffg)
    requires |s.bits| == 4 && BitsAreBacked(front, s) && FinalizedIsBacked(front, s) && last.epoch == |front| + 2
    ensures FinalizedIsBacked(front + [last], Step(s, last.epoch, last.previousOk, last.currentOk, last.root))
  {
    hide Justified, Step, Rotated;
    RotationIsBacked(front, last, s);
    FinalizedOneOf(s, last);
    var all := front + [last];
    var f := Step(s, last.epoch, last.previousOk, last.currentOk, last.root).finalized;
    if f.epoch > 0 {
      if f == s.finalized { JustifiedStays(front, last, f.epoch + 1); }
      JustifiedStays(front, last, f.epoch);
      var r := Rotated(s, last.epoch, last.previousOk, last.currentOk, last.root);
      assert r.bits[0] ==> Justified(all, |all| + 1 - 0);
      assert r.bits[1] && |all| + 1 - 1 >= 2 ==> Justified(all, |all| + 1 - 1);
      assert r.bits[2] && |all| + 1 - 2 >= 2 ==> Justified(all, |all| + 1 - 2);
    }
  }

  /** Any finalized epoch after genesis, and the one after it, had two thirds. */
  lemma {:induction false} FinalizedHadTwoThirds(inputs: seq<Input>)
    requires Consecutive(inputs)
    ensures FinalizedIsBacked(inputs, Run(inputs)) && BitsAreBacked(inputs, Run(inputs))
  {
    if inputs != [] {
      var front, last := inputs[..|inputs| - 1], inputs[|inputs| - 1];
      FinalizedHadTwoThirds(front);
      hide FinalizedIsBacked, BitsAreBacked;
      assert inputs == front + [last];
      FinalizationIsBacked(front, last, Run(front));
      RotationIsBacked(front, last, Run(front));
      FinalizationKeepsBits(front + [last], Run(front), last);
    }
  }

  lemma FinalizationKeepsBits(inputs: seq<Input>, s: Ffg, last: Input)
    requires |s.bits| == 4 && last.epoch > 1
    requires BitsAreBacked(inputs, Rotated(s, last.epoch, last.previousOk, last.currentOk, last.root))
    ensures BitsAreBacked(inputs, Step(s, last.epoch, last.previousOk, last.currentOk, last.root))
  {
  }

  // ----- progress -----

  lemma StepJustifies(s: Ffg, i: Input)
    requires |s.bits| == 4 && i.epoch > 1 && i.currentOk
    ensures var r := Step(s, i.epoch, i.previousOk, i.currentOk, i.root);
            && r.justified == Checkpoint(i.epoch, i.root(i.epoch)) && r.bits[0]
            && (s.bits[0] && s.justified.epoch + 1 == i.epoch ==> r.finalized == s.justified)
  {
  }

  lemma RunStep(inputs: seq<Input>, n: nat)
    requires n < |inputs|
    ensures var i := inputs[n];
            Run(inputs[..n + 1]) == Step(Run(inputs[..n]), i.epoch, i.previousOk, i.currentOk, i.root)
  {
    var a := inputs[..n + 1];
    assert a[..|a| - 1] == inputs[..n] && a[|a| - 1] == inputs[n];
  }

  lemma ConsecutiveIncrease(inputs: seq<Input>)
    requires Consecutive(inputs)
    ensures EpochsIncrease(inputs)
  {
  }

  /** Two epochs in a row with two thirds at their own step finalize the first. */
  lemma TwoEpochsFinalize(inputs: seq<Input>, n: nat)
    requires Consecutive(inputs) && n + 1 < |inputs| && inputs[n].currentOk && inputs[n + 1].currentOk
    ensures Run(inputs[..n + 2]).finalized == Checkpoint(n + 2, inputs[n].root(n + 2))
    ensures Run(inputs).finalized.epoch >= n + 2
  {
    hide Step, Run, EpochsIncrease;
    RunStep(inputs, n);
    RunStep(inputs, n + 1);
    StepJustifies(Run(inputs[..n]), inputs[n]);
    StepJustifies(Run(inputs[..n + 1]), inputs[n + 1]);
    ConsecutiveIncrease(inputs);
    RunIsMonotone(inputs, n + 2);
  }

  // ----- runs over vote weights -----

  /** What one epoch brings to the object: the weight behind the previous and
      the current epoch, out of the total. */
  datatype Weighed = Weighed(epoch: nat, total: nat, previous: nat, current: nat, root: nat -> Hash)

  /** The two 64-bit tests of the weights. */
  function TestsOf(w: Weighed): Input {
    Input(w.epoch, IsSuperMajority(w.previous, w.total), IsSuperMajority(w.current, w.total), w.root)
  }

  ghost function AllTests(ws: seq<Weighed>): (r: seq<Input>)
    ensures |r| == |ws| && forall i :: 0 <= i < |ws| ==> r[i] == TestsOf(ws[i])
  {
    seq(|ws|, i requires 0 <= i < |ws| => TestsOf(ws[i]))
  }

  /** One input per epoch from 2 on, totals up to `most`, no weight above its
      total. */
  ghost predicate WeighedRun(ws: seq<Weighed>, most: nat) {
    forall i :: 0 <= i < |ws| ==>
                  && ws[i].epoch == i + 2 && ws[i].total <= most
                  && ws[i].previous <= ws[i].total && ws[i].current <= ws[i].total
  }

  ghost predicate HasTwoThirds(w: Weighed, e: nat) {
    (w.epoch == e && TwoThirds(w.current, w.total)) || (w.epoch == e + 1 && TwoThirds(w.previous, w.total))
  }

  /** Two thirds of the total weight stood behind epoch `e`. */
  ghost predicate HadTwoThirds(ws: seq<Weighed>, e: nat) {
    exists i :: 0 <= i < |ws| && HasTwoThirds(ws[i], e)
  }

  ghost predicate SafelyFinalized(ws: seq<Weighed>) {
    var e := Run(AllTests(ws)).finalized.epoch;
    e > 0 ==> HadTwoThirds(ws, e) && HadTwoThirds(ws, e + 1)
  }

  ghost predicate AlwaysSafe(most: nat) {
    forall ws :: WeighedRun(ws, most) ==> SafelyFinalized(ws)
  }

  /** Below 2^63 the test never passes without two thirds. */
  lemma TestIsSound(vote: nat, total: nat)
    requires total < TWO_63 && IsSuperMajority(vote, total)
    ensures TwoThirds(vote, total)
  {
    assert total * 2 % TWO_64 == total * 2;
  }

  lemma JustifiedHadTwoThirds(ws: seq<Weighed>, most: nat, e: nat)
    requires WeighedRun(ws, most) && most < TWO_63 && Justified(AllTests(ws), e)
    ensures HadTwoThirds(ws, e)
  {
    hide IsSuperMajority, TwoThirds;
    var i :| 0 <= i < |ws| && Backs(AllTests(ws)[i], e);
    if ws[i].epoch == e && IsSuperMajority(ws[i].current, ws[i].total) {
      TestIsSound(ws[i].current, ws[i].total);
    } else {
      TestIsSound(ws[i].previous, ws[i].total);
    }
    assert HasTwoThirds(ws[i], e);
  }

  /** Two epochs that nobody voted for, at a total of 2^63. */
  ghost function NobodyVotes(): seq<Weighed> {
    [Weighed(2, TWO_63, 0, 0, _ => ZERO_HASH), Weighed(3, TWO_63, 0, 0, _ => ZERO_HASH)]
  }

  lemma NobodyFinalizes()
    ensures WeighedRun(NobodyVotes(), TWO_63) && !SafelyFinalized(NobodyVotes())
  {
    var ws := NobodyVotes();
    TwoEpochsFinalize(AllTests(ws), 0);
    assert AllTests(ws)[..2] == AllTests(ws);
    hide Run;
    forall i | 0 <= i < |ws| ensures !HasTwoThirds(ws[i], 2) {}
  }

  /** Every finalized epoch, and the one after it, had two thirds of the total
      weight behind it, in every run with totals up to `most`, if and only if
      `most` is below 2^63. */
  lemma SafeExactlyBelow(most: nat)
    ensures AlwaysSafe(most) <==> most < TWO_63
  {
    hide Run, HadTwoThirds;
    if most < TWO_63 {
      forall ws: seq<Weighed> | WeighedRun(ws, most) ensures SafelyFinalized(ws) {
        FinalizedHadTwoThirds(AllTests(ws));
        var e := Run(AllTests(ws)).finalized.epoch;
        if e > 0 {
          JustifiedHadTwoThirds(ws, most, e);
          JustifiedHadTwoThirds(ws, most, e + 1);
        }
      }
    } else {
      NobodyFinalizes();
      assert WeighedRun(NobodyVotes(), most);
    }
  }

  /** Two epochs in a row with two thirds at their own step finalize the first. */
  ghost predicate FinalizesAt(ws: seq<Weighed>, n: nat) {
    n + 1 < |ws| && TwoThirds(ws[n].current, ws[n].total) && TwoThirds(ws[n + 1].current, ws[n + 1].total) ==>
      Run(AllTests(ws)[..n + 2]).finalized == Checkpoint(n + 2, ws[n].root(n + 2))
  }

  ghost predicate AlwaysLive(most: nat) {
    forall ws: seq<Weighed>, n: nat :: WeighedRun(ws, most) ==> FinalizesAt(ws, n)
  }

  /** The least total whose triple does not fit in 64 bits. */
  const THIRD: nat := 0x5555_5555_5555_5556

  /** Two epochs that everybody voted for, at that total. */
  ghost function EverybodyVotes(): seq<Weighed> {
    [Weighed(2, THIRD, 0, THIRD, _ => ZERO_HASH), Weighed(3, THIRD, 0, THIRD, _ => ZERO_HASH)]
  }

  lemma EverybodyFails()
    ensures WeighedRun(EverybodyVotes(), THIRD) && !FinalizesAt(EverybodyVotes(), 0)
  {
    var ws := EverybodyVotes();
    var inputs := AllTests(ws);
    assert !inputs[0].currentOk && !inputs[0].previousOk && !inputs[1].currentOk && !inputs[1].previousOk;
    RunStep(inputs, 0);
    RunStep(inputs, 1);
    assert inputs[..0] == [];
    assert Run(inputs[..2]).finalized.epoch == 0;
  }

  /** Two epochs in a row with two thirds finalize the first, in every run with
      totals up to `most`, if and only if three times `most` is below 2^64. */
  lemma LiveExactlyBelow(most: nat)
    ensures AlwaysLive(most) <==> 3 * most < TWO_64
  {
    hide Run;
    if 3 * most < TWO_64 {
      forall ws: seq<Weighed>, n: nat | WeighedRun(ws, most) ensures FinalizesAt(ws, n) {
        if n + 1 < |ws| && TwoThirds(ws[n].current, ws[n].total) && TwoThirds(ws[n + 1].current, ws[n + 1].total) {
          SuperMajorityIsTwoThirds(ws[n].total);
          SuperMajorityIsTwoThirds(ws[n + 1].total);
          TwoEpochsFinalize(AllTests(ws), n);
        }
      }
    } else {
      EverybodyFails();
      assert WeighedRun(EverybodyVotes(), most);
    }
  }

  // ----- the object -----

  datatype FinalityError = GenesisEpoch | InvalidWeight

  function RootAt(blockRoots: seq<Hash>, slotsPerEpoch: nat, epoch: nat): Hash
    requires |blockRoots| == SLOTS_PER_HISTORICAL_ROOT
  {
    blockRoots[epoch * slotsPerEpoch % TWO_64 % SLOTS_PER_HISTORICAL_ROOT]
  }

  class CasperFinalityTracker {
    var justified: Checkpoint
    var previousJustified: Checkpoint
    var finalized: Checkpoint
    var justificationBits: seq<bool>
    var finalizedCheckpoints: map<nat, Checkpoint>
    const slotsPerEpoch: nat

    ghost predicate Valid()
      reads this
    {
      |justificationBits| == 4
    }

    ghost function View(): Ffg
      reads this
    {
      Ffg(justified, previousJustified, finalized, justificationBits, finalizedCheckpoints)
    }

    constructor (slotsPerEpoch: nat)
      ensures Valid() && View() == Run([])
      ensures this.slotsPerEpoch == if slotsPerEpoch == 0 then 32 else slotsPerEpoch
    {
      var genesis := Checkpoint(0, ZERO_HASH);
      justified, finalized, previousJustified := genesis, genesis, genesis;
      justificationBits := [true, false, false, false];
      finalizedCheckpoints := map[0 := genesis];
      this.slotsPerEpoch := if slotsPerEpoch == 0 then 32 else slotsPerEpoch;
    }

    method ProcessJustificationAndFinalization(epoch: nat, blockRoots: seq<Hash>, previousWeight: nat,
                                               currentWeight: nat, totalWeight: nat)
      returns (err: Option<FinalityError>)
      requires Valid() && |blockRoots| == SLOTS_PER_HISTORICAL_ROOT
      modifies this
      ensures Valid()
      ensures err == if epoch <= 1 then Some(GenesisEpoch)
                     else if previousWeight > totalWeight || currentWeight > totalWeight then Some(InvalidWeight)
                     else None
      ensures View() == if err.Some? then old(View())
                        else
                          var i := TestsOf(Weighed(epoch, totalWeight, previousWeight, currentWeight,
                                                   e => RootAt(blockRoots, slotsPerEpoch, e)));
                          Step(old(View()), i.epoch, i.previousOk, i.currentOk, i.root)
      ensures justified != old(justified) ==>
                && epoch - 1 <= justified.epoch <= epoch
                && justified.root == blockRoots[justified.epoch * slotsPerEpoch % 0x1_0000_0000_0000_0000 % 8192]
    {
      if epoch <= 1 {
        return Some(GenesisEpoch);
      }
      if previousWeight > totalWeight || currentWeight > totalWeight {
        return Some(InvalidWeight);
      }
      var oldPJ, oldCJ := previousJustified, justified;
      previousJustified := justified;
      ghost var bits := justificationBits;
      ShiftBits();
      if IsSuperMajority(previousWeight, totalWeight) {
        justified := Checkpoint(epoch - 1, RootAt(blockRoots, slotsPerEpoch, epoch - 1));
        justificationBits := justificationBits[1 := true];
      }
      if IsSuperMajority(currentWeight, totalWeight) {
        justified := Checkpoint(epoch, RootAt(blockRoots, slotsPerEpoch, epoch));
        justificationBits := justificationBits[0 := true];
      }
      assert View() == Rotated(old(View()), epoch, IsSuperMajority(previousWeight, totalWeight),
                               IsSuperMajority(currentWeight, totalWeight), e => RootAt(blockRoots, slotsPerEpoch, e));
      ApplyFinalization(epoch, oldPJ, oldCJ);
      return None;
    }

    method ShiftBits()
      requires Valid()
      modifies this`justificationBits
      ensures var b := old(justificationBits); justificationBits == [false, b[0], b[1], b[2]]
    {
      var i := |justificationBits| - 1;
      while i > 0
        invariant 0 <= i <= 3 && |justificationBits| == 4
        invariant forall k :: 0 <= k <= i ==> justificationBits[k] == old(justificationBits)[k]
        invariant forall k :: i < k < 4 ==> justificationBits[k] == old(justificationBits)[k - 1]
      {
        justificationBits := justificationBits[i := justificationBits[i - 1]];
        i := i - 1;
      }
      justificationBits := justificationBits[0 := false];
    }

    method ApplyFinalization(epoch: nat, oldPJ: Checkpoint, oldCJ: Checkpoint)
      requires Valid()
      modifies this`finalized, this`finalizedCheckpoints
      ensures Valid() && View() == Finalized(old(View()), epoch, oldPJ, oldCJ)
    {
      var b := justificationBits;
      if b[1] && b[2] && b[3] && oldPJ.epoch + 3 == epoch {
        finalized := oldPJ;
        finalizedCheckpoints := finalizedCheckpoints[oldPJ.epoch := oldPJ];
      }
      if b[1] && b[2] && oldPJ.epoch + 2 == epoch {
        finalized := oldPJ;
        finalizedCheckpoints := finalizedCheckpoints[oldPJ.epoch := oldPJ];
      }
      if b[0] && b[1] && b[2] && oldCJ.epoch + 2 == epoch {
        finalized := oldCJ;
        finalizedCheckpoints := finalizedCheckpoints[oldCJ.epoch := oldCJ];
      }
      if b[0] && b[1] && oldCJ.epoch + 1 == epoch {
        finalized := oldCJ;
        finalizedCheckpoints := finalizedCheckpoints[oldCJ.epoch := oldCJ];
      }
    }
  }
}
