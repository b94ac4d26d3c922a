/** Two replicas that finalize different blocks for a slot expose more than a
    third of the validators to the equivocation detector. */
module AccountableSafety {
  import opened Collections
  import R = FinalityRounds
  import E = EquivocationDetector

  /** Two quorums out of n overlap in more than n/3. */
  lemma QuorumsOverlap(n: nat, a: set<nat>, b: set<nat>)
    requires n > 0 && |a| >= R.Quorum(n) && |b| >= R.Quorum(n)
    requires forall v :: v in a + b ==> v < n
    ensures 3 * |a * b| > n
  {
    SubsetCardinality(a + b, Below(n));
    assert |a + b| == |a| + |b| - |a * b|;
  }

  /** The detector was fed every vote of the slot, in some order, and nothing
      reached the slot when pruning. */
  ghost predicate FedAll<H(!new)>(calls: seq<R.EngineCall<H>>, events: seq<E.Event<H>>, slot: nat) {
    forall v, h :: R.Cast(slot, v, h) in calls ==> Fed(events, slot, v, h)
  }

  ghost predicate Fed<H(!new)>(events: seq<E.Event<H>>, slot: nat, v: nat, h: H) {
    exists i :: E.VoteAt(events, i, slot, v) && events[i].vote.root == h
  }

  ghost predicate Unpruned<H(!new)>(maxHistory: nat, events: seq<E.Event<H>>, slot: nat) {
    forall k :: 0 <= k < |events| ==> !E.Erases(events[k], maxHistory, slot)
  }

  ghost predicate Exposed<H(!new)>(maxHistory: nat, events: seq<E.Event<H>>, slot: nat, v: nat) {
    var d := E.Run(maxHistory, events);
    && E.OfSlot(E.ListAt(d.evidence, v), slot) != []
    && E.OfSlot(E.ListAt(d.evidence, v), slot) == E.OfValidator(E.ListAt(d.slotEvidence, slot), v)
  }

  lemma DoubleVoterIsExposed<H(!new)>(maxHistory: nat, events: seq<E.Event<H>>, slot: nat, v: nat, h: H, g: H)
    requires Fed(events, slot, v, h) && Fed(events, slot, v, g) && h != g && Unpruned(maxHistory, events, slot)
    ensures Exposed(maxHistory, events, slot, v)
  {
    hide E.Run, E.OfSlot, E.OfValidator;
    var i :| E.VoteAt(events, i, slot, v) && events[i].vote.root == h;
    var j :| E.VoteAt(events, j, slot, v) && events[j].vote.root == g;
    assert E.NotErasedSince(maxHistory, events, slot, i) && E.NotErasedSince(maxHistory, events, slot, j);
    assert E.TwoRoots(maxHistory, events, slot, v);
    E.EvidenceIffTwoRoots(maxHistory, events, slot, v);
  }

  /** A finalized round: a quorum of eligible validators cast its hash. */
  lemma FinalizedHasQuorum<H(!new)>(cfg: R.Config, calls: seq<R.EngineCall<H>>, slot: nat, h: H)
    requires R.FinalizedAt(R.Run(cfg, calls), slot, h)
    ensures var r := R.Run(cfg, calls).rounds[slot];
            var q := R.Voters(r.votes, h);
            && r.validatorCount > 0 && |q| >= R.Quorum(r.validatorCount)
            && forall v :: v in q ==> v < r.validatorCount && R.Cast(slot, v, h) in calls
  {
    hide R.Run;
    R.RunKeepsEngine(cfg, calls);
    R.RecordedVotesWereCast(cfg, calls);
    var e := R.Run(cfg, calls);
    assert R.RoundHolds(e, cfg, slot);
    var q := R.Voters(e.rounds[slot].votes, h);
    var v :| v in q;
    assert v in e.rounds[slot].votes;
  }

  /** If two replicas with n validators finalize different hashes for a slot,
      more than n/3 validators voted for both, and a detector fed all those
      votes in any order holds evidence against each of them. */
  lemma ConflictingFinalityIsAccountable<H(!new)>(
    cfgA: R.Config, callsA: seq<R.EngineCall<H>>, cfgB: R.Config, callsB: seq<R.EngineCall<H>>,
    slot: nat, a: H, b: H, maxHistory: nat, events: seq<E.Event<H>>)
    returns (guilty: set<nat>)
    requires R.FinalizedAt(R.Run(cfgA, callsA), slot, a) && R.FinalizedAt(R.Run(cfgB, callsB), slot, b) && a != b
    requires R.Run(cfgA, callsA).rounds[slot].validatorCount == R.Run(cfgB, callsB).rounds[slot].validatorCount
    requires FedAll(callsA, events, slot) && FedAll(callsB, events, slot) && Unpruned(maxHistory, events, slot)
    ensures 3 * |guilty| > R.Run(cfgA, callsA).rounds[slot].validatorCount
    ensures forall v :: v in guilty ==>
                          && v < R.Run(cfgA, callsA).rounds[slot].validatorCount
                          && R.Cast(slot, v, a) in callsA && R.Cast(slot, v, b) in callsB
                          && Exposed(maxHistory, events, slot, v)
  {
    hide R.Run, R.Quorum, R.Voters, Unpruned, Exposed;
    FinalizedHasQuorum(cfgA, callsA, slot, a);
    FinalizedHasQuorum(cfgB, callsB, slot, b);
    var n := R.Run(cfgA, callsA).rounds[slot].validatorCount;
    var qa := R.Voters(R.Run(cfgA, callsA).rounds[slot].votes, a);
    var qb := R.Voters(R.Run(cfgB, callsB).rounds[slot].votes, b);
    QuorumsOverlap(n, qa, qb);
    guilty := qa * qb;
    forall v | v in guilty ensures Exposed(maxHistory, events, slot, v) {
      DoubleVoterIsExposed(maxHistory, events, slot, v, a, b);
    }
  }
}
