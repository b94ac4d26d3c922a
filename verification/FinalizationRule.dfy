/** Which checkpoint a run of Casper FFG has finalized, told from the epochs
    that reached two thirds and when, with no bits and no justified checkpoints. */
module FinalizationRule {
  import opened Hashes
  import opened CasperFinality

  /** Epoch `e` reached two thirds at its own step. */
  ghost predicate OwnStep(inputs: seq<Input>, e: int) {
    2 <= e < |inputs| + 2 && inputs[e - 2].currentOk
  }

  /** Epoch `e` reached two thirds at the step after its own. */
  ghost predicate NextStep(inputs: seq<Input>, e: int) {
    1 <= e < |inputs| + 1 && inputs[e - 1].previousOk
  }

  /** The checkpoint of `e` with the block roots of its own step. */
  ghost function OwnCheckpoint(inputs: seq<Input>, e: int): Checkpoint
    requires OwnStep(inputs, e)
  {
    Checkpoint(e, inputs[e - 2].root(e))
  }

  /** The checkpoint of `e` with the block roots of the step after. */
  ghost function NextCheckpoint(inputs: seq<Input>, e: int): Checkpoint
    requires NextStep(inputs, e)
  {
    Checkpoint(e, inputs[e - 1].root(e))
  }

  /** The last epoch to reach two thirds in the first `n` steps. */
  ghost function LastPassed(inputs: seq<Input>, n: nat): Checkpoint
    requires n <= |inputs|
  {
    if n == 0 then Checkpoint(0, ZERO_HASH)
    else if OwnStep(inputs, n + 1) then OwnCheckpoint(inputs, n + 1)
    else if NextStep(inputs, n) then NextCheckpoint(inputs, n)
    else LastPassed(inputs, n - 1)
  }

  /** What the first `n` steps have finalized. The step of epoch `e` finalizes

      - `e - 1` when it and `e` passed at their own steps;
      - `e - 2` when it and `e - 1` passed late and `e` at its own step, or it
        passed at its own step and `e - 1` at either;
      - `e - 3` when it passed at either step, `e - 2` late and `e - 1` at either. */
  ghost function LastFinalized(inputs: seq<Input>, n: nat): Checkpoint
    requires n <= |inputs|
  {
    var e := n + 1;
    if n == 0 then Checkpoint(0, ZERO_HASH)
    else if OwnStep(inputs, e) && OwnStep(inputs, e - 1) then OwnCheckpoint(inputs, e - 1)
    else if NextStep(inputs, e - 2) && NextStep(inputs, e - 1) && OwnStep(inputs, e) then
      NextCheckpoint(inputs, e - 2)
    else if OwnStep(inputs, e - 2) && (OwnStep(inputs, e - 1) || NextStep(inputs, e - 1)) then
      OwnCheckpoint(inputs, e - 2)
    else if (OwnStep(inputs, e - 3) || NextStep(inputs, e - 3)) && NextStep(inputs, e - 2)
            && (OwnStep(inputs, e - 1) || NextStep(inputs, e - 1)) then
      if NextStep(inputs, e - 3) then NextCheckpoint(inputs, e - 3) else OwnCheckpoint(inputs, e - 3)
    else LastFinalized(inputs, n - 1)
  }

  /** The bits after `n` steps; epoch 1 counts as passed. */
  ghost predicate BitsTell(inputs: seq<Input>, n: nat, bits: seq<bool>)
    requires |bits| == 4
  {
    && (bits[0] <==> n == 0 || OwnStep(inputs, n + 1))
    && (bits[1] <==> n >= 1 && (n == 1 || OwnStep(inputs, n) || NextStep(inputs, n)))
    && (bits[2] <==> n >= 2 && (n == 2 || OwnStep(inputs, n - 1) || NextStep(inputs, n - 1)))
  }

  /** The state after `n` steps. */
  ghost predicate Tells(inputs: seq<Input>, n: nat, s: Ffg)
    requires |s.bits| == 4 && n <= |inputs|
  {
    && BitsTell(inputs, n, s.bits)
    && s.justified == LastPassed(inputs, n)
    && s.previousJustified == LastPassed(inputs, if n == 0 then 0 else n - 1)
    && s.finalized == LastFinalized(inputs, n)
  }

  lemma {:induction false} LastPassedEpoch(inputs: seq<Input>, n: nat)
    requires n <= |inputs|
    ensures LastPassed(inputs, n).epoch <= if n == 0 then 0 else n + 1
    ensures LastPassed(inputs, n).epoch == n + 1 <==> OwnStep(inputs, n + 1)
    ensures OwnStep(inputs, n + 1) ==> LastPassed(inputs, n) == OwnCheckpoint(inputs, n + 1)
    ensures n > 0 ==> (LastPassed(inputs, n).epoch == n <==>
                       !OwnStep(inputs, n + 1) && (NextStep(inputs, n) || OwnStep(inputs, n)))
    ensures n > 0 && !OwnStep(inputs, n + 1) && NextStep(inputs, n) ==>
              LastPassed(inputs, n) == NextCheckpoint(inputs, n)
    ensures n > 0 && !OwnStep(inputs, n + 1) && !NextStep(inputs, n) && OwnStep(inputs, n) ==>
              LastPassed(inputs, n) == OwnCheckpoint(inputs, n)
  {
    if n > 0 { LastPassedEpoch(inputs, n - 1); }
  }

  lemma StepOf(inputs: seq<Input>, n: nat)
    requires Consecutive(inputs) && n < |inputs|
    ensures inputs[n].epoch == n + 2
    ensures OwnStep(inputs, n + 2) <==> inputs[n].currentOk
    ensures NextStep(inputs, n + 1) <==> inputs[n].previousOk
  {
  }

  /** The rotated bits are what the epochs tell. */
  lemma RotatedBits(inputs: seq<Input>, n: nat, s: Ffg)
    requires Consecutive(inputs) && n < |inputs| && |s.bits| == 4 && BitsTell(inputs, n, s.bits)
    ensures var i := inputs[n];
            var b := Rotated(s, i.epoch, i.previousOk, i.currentOk, i.root).bits;
            && BitsTell(inputs, n + 1, b)
            && (b[3] <==> n >= 2 && (n == 2 || OwnStep(inputs, n - 1) || NextStep(inputs, n - 1)))
  {
    hide OwnStep, NextStep, Consecutive;
    StepOf(inputs, n);
    var i := inputs[n];
    var b := Rotated(s, i.epoch, i.previousOk, i.currentOk, i.root).bits;
    assert b[0] == i.currentOk && b[1] == (s.bits[0] || i.previousOk) && b[2] == s.bits[1] && b[3] == s.bits[2];
    hide Rotated;
  }

  lemma RotatedCheckpoints(inputs: seq<Input>, n: nat, s: Ffg)
    requires Consecutive(inputs) && n < |inputs| && |s.bits| == 4 && s.justified == LastPassed(inputs, n)
    ensures var i := inputs[n];
            var r := Rotated(s, i.epoch, i.previousOk, i.currentOk, i.root);
            r.justified == LastPassed(inputs, n + 1) && r.previousJustified == LastPassed(inputs, n)
  {
    hide OwnStep, NextStep, Consecutive;
    StepOf(inputs, n);
  }

  /** The last of the four conditions to hold wins. */
  lemma LastConditionWins(s: Ffg, i: Input)
    requires |s.bits| == 4 && i.epoch > 1
    ensures var b, cj, pj := Rotated(s, i.epoch, i.previousOk, i.currentOk, i.root).bits, s.justified,
                             s.previousJustified;
            Step(s, i.epoch, i.previousOk, i.currentOk, i.root).finalized ==
            if b[0] && b[1] && cj.epoch + 1 == i.epoch then cj
            else if b[0] && b[1] && b[2] && cj.epoch + 2 == i.epoch then cj
            else if b[1] && b[2] && pj.epoch + 2 == i.epoch then pj
            else if b[1] && b[2] && b[3] && pj.epoch + 3 == i.epoch then pj
            else s.finalized
  {
    assert Rotated(s, i.epoch, i.previousOk, i.currentOk, i.root).finalized == s.finalized;
    hide Rotated;
  }

  /** The four conditions finalize what the epochs tell. */
  lemma FinalizationTells(inputs: seq<Input>, n: nat, s: Ffg)
    requires Consecutive(inputs) && n < |inputs| && |s.bits| == 4 && Tells(inputs, n, s)
    ensures var i := inputs[n];
            Step(s, i.epoch, i.previousOk, i.currentOk, i.root).finalized == LastFinalized(inputs, n + 1)
  {
    hide Rotated, Step, Finalized, LastPassed, OwnStep, NextStep;
    LastPassedEpoch(inputs, n);
    if n > 0 { LastPassedEpoch(inputs, n - 1); }
    RotatedBits(inputs, n, s);
    LastConditionWins(s, inputs[n]);
    EarlyEpochs(inputs);
    assert inputs[n].epoch == n + 2;
  }

  lemma EarlyEpochs(inputs: seq<Input>)
    ensures !OwnStep(inputs, 1) && !OwnStep(inputs, 0) && !OwnStep(inputs, -1)
    ensures !NextStep(inputs, 0) && !NextStep(inputs, -1)
  {
  }

  lemma StepKeepsTheRest(s: Ffg, i: Input)
    requires |s.bits| == 4 && i.epoch > 1
    ensures var r, t := Rotated(s, i.epoch, i.previousOk, i.currentOk, i.root),
                        Step(s, i.epoch, i.previousOk, i.currentOk, i.root);
            t.bits == r.bits && t.justified == r.justified && t.previousJustified == r.previousJustified
  {
  }

  lemma NothingPassed(inputs: seq<Input>)
    ensures Tells(inputs, 0, Run([]))
  {
  }

  /** After every run of consecutive epochs the justified checkpoint is the last
      epoch to pass and the finalized one is what `LastFinalized` tells. */
  lemma {:induction false} RunFinalizesExactly(inputs: seq<Input>, n: nat)
    requires Consecutive(inputs) && n <= |inputs|
    ensures Tells(inputs, n, Run(inputs[..n]))
  {
    hide Run, Step, Rotated, LastPassed, LastFinalized, OwnStep, NextStep;
    if n == 0 {
      assert inputs[..0] == [];
      NothingPassed(inputs);
    } else {
      RunFinalizesExactly(inputs, n - 1);
      var s, i := Run(inputs[..n - 1]), inputs[n - 1];
      RunStep(inputs, n - 1);
      RotatedBits(inputs, n - 1, s);
      RotatedCheckpoints(inputs, n - 1, s);
      FinalizationTells(inputs, n - 1, s);
      StepKeepsTheRest(s, i);
    }
  }

  /** How far the step of epoch `n + 1` gets. */
  lemma StepReaches(inputs: seq<Input>, n: nat)
    requires 0 < n <= |inputs|
    ensures var e, f := n + 1, LastFinalized(inputs, n).epoch;
            && (OwnStep(inputs, e - 2) && (OwnStep(inputs, e - 1) || NextStep(inputs, e - 1)) ==> f >= e - 2)
            && (NextStep(inputs, e - 2) && NextStep(inputs, e - 1) && OwnStep(inputs, e) ==> f >= e - 2)
            && (NextStep(inputs, e - 2) && (OwnStep(inputs, e - 1) || NextStep(inputs, e - 1)) ==>
                  (OwnStep(inputs, e - 3) || NextStep(inputs, e - 3) ==> f >= e - 3))
  {
    hide OwnStep, NextStep;
  }

  lemma ReachedIsKept(inputs: seq<Input>, n: nat)
    requires Consecutive(inputs) && n <= |inputs|
    ensures Run(inputs[..n]).finalized.epoch == LastFinalized(inputs, n).epoch <= Run(inputs).finalized.epoch
  {
    hide Run, LastPassed, LastFinalized, BitsTell;
    RunFinalizesExactly(inputs, n);
    ConsecutiveIncrease(inputs);
    RunIsMonotone(inputs, n);
  }

  /** An epoch that passed at its own step is final once the next has passed, be
      it a step late. */
  lemma LateSuccessorFinalizes(inputs: seq<Input>, n: nat)
    requires Consecutive(inputs) && n + 2 < |inputs| && inputs[n].currentOk && inputs[n + 2].previousOk
    ensures Run(inputs[..n + 3]).finalized.epoch >= n + 2 && Run(inputs).finalized.epoch >= n + 2
  {
    hide Run, LastFinalized, Consecutive;
    assert OwnStep(inputs, n + 2) && NextStep(inputs, n + 3);
    hide OwnStep, NextStep;
    StepReaches(inputs, n + 3);
    ReachedIsKept(inputs, n + 3);
  }

  /** Three epochs in a row, the first two a step late and the last in time,
      finalize the first. */
  lemma TwoLateEpochsFinalize(inputs: seq<Input>, n: nat)
    requires Consecutive(inputs) && n + 2 < |inputs|
    requires inputs[n + 1].previousOk && inputs[n + 2].previousOk && inputs[n + 2].currentOk
    ensures Run(inputs[..n + 3]).finalized.epoch >= n + 2 && Run(inputs).finalized.epoch >= n + 2
  {
    hide Run, LastFinalized, Consecutive;
    assert NextStep(inputs, n + 2) && NextStep(inputs, n + 3) && OwnStep(inputs, n + 4);
    hide OwnStep, NextStep;
    StepReaches(inputs, n + 3);
    ReachedIsKept(inputs, n + 3);
  }

  /** Three epochs in a row, the second a step late and the others at either,
      finalize the first within four steps. */
  lemma ThreeEpochsFinalize(inputs: seq<Input>, n: nat)
    requires Consecutive(inputs) && n + 3 < |inputs|
    requires inputs[n].currentOk || inputs[n + 1].previousOk
    requires inputs[n + 2].previousOk && (inputs[n + 2].currentOk || inputs[n + 3].previousOk)
    ensures Run(inputs[..n + 4]).finalized.epoch >= n + 2 && Run(inputs).finalized.epoch >= n + 2
  {
    hide Run, LastFinalized, Consecutive;
    assert OwnStep(inputs, n + 2) || NextStep(inputs, n + 2);
    assert NextStep(inputs, n + 3) && (OwnStep(inputs, n + 4) || NextStep(inputs, n + 4));
    hide OwnStep, NextStep;
    StepReaches(inputs, n + 4);
    ReachedIsKept(inputs, n + 4);
  }

  lemma StepKeepsListed(s: Ffg, i: Input)
    requires |s.bits| == 4
    ensures s.checkpoints.Keys <= Step(s, i.epoch, i.previousOk, i.currentOk, i.root).checkpoints.Keys
  {
  }

  /** Every checkpoint a run has finalized stays listed under its epoch. */
  lemma {:induction false} FinalizedStaysListed(inputs: seq<Input>, n: nat)
    requires Consecutive(inputs) && n <= |inputs|
    ensures Run(inputs[..n]).finalized.epoch in Run(inputs).checkpoints
  {
    hide Step;
    if n == |inputs| {
      assert inputs[..n] == inputs;
      ConsecutiveIncrease(inputs);
      RunIsOrdered(inputs);
    } else {
      var front := inputs[..|inputs| - 1];
      assert front[..n] == inputs[..n];
      FinalizedStaysListed(front, n);
      StepKeepsListed(Run(front), inputs[|inputs| - 1]);
    }
  }
}
