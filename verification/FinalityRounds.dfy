/** One-round finality: votes are counted per block, a block that reaches the
    quorum finalizes its slot, and old rounds are pruned. */
module FinalityRounds {
  import opened Collections

  datatype Round<H> = Round(
    slot: nat,
    validatorCount: nat,
    threshold: nat,
    optimisticThreshold: nat,
    finalized: Option<H>,
    votes: map<nat, H>,
    hashVotes: map<H, nat>,
    totalVotes: nat)

  datatype Config = Config(supermajorityPct: nat, retainRounds: nat)

  function Quorum(n: nat): nat {
    var t := n * 2 / 3 + 1;
    if t > n then n else t
  }

  function NewRound<H>(slot: nat, n: nat, pct: nat): Round<H> {
    var optimistic := n * pct / 100;
    Round(slot, n, Quorum(n), if optimistic < Quorum(n) then Quorum(n) else optimistic, None, map[], map[], 0)
  }

  function CountFor<H(==)>(hashVotes: map<H, nat>, h: H): nat {
    if h in hashVotes then hashVotes[h] else 0
  }

  // ----- rounds -----

  ghost function Voters<H(!new)>(votes: map<nat, H>, h: H): set<nat> {
    set v | v in votes && votes[v] == h
  }

  /** Counters count the recorded votes, voters are eligible, and the round is
      finalized exactly when a block has reached the quorum. */
  ghost predicate RoundInvariant<H(!new)>(r: Round<H>) {
    && r.threshold == Quorum(r.validatorCount) <= r.optimisticThreshold
    && (forall v :: v in r.votes ==> v < r.validatorCount)
    && (forall h :: CountFor(r.hashVotes, h) == |Voters(r.votes, h)|)
    && r.totalVotes == |r.votes|
    && (forall h :: r.finalized == Some(h) <==> Voters(r.votes, h) != {} && |Voters(r.votes, h)| >= r.threshold)
  }

  function WithVote<H(==)>(r: Round<H>, v: nat, h: H): Round<H> {
    var counted := r.(votes := r.votes[v := h],
                      hashVotes := r.hashVotes[h := CountFor(r.hashVotes, h) + 1],
                      totalVotes := r.totalVotes + 1);
    if CountFor(counted.hashVotes, h) >= r.optimisticThreshold || CountFor(counted.hashVotes, h) >= r.threshold then
      counted.(finalized := Some(h))
    else counted
  }

  lemma NewRoundInvariant<H(!new)>(slot: nat, n: nat, pct: nat)
    ensures RoundInvariant<H>(NewRound(slot, n, pct))
  {
    forall h: H ensures Voters(map[], h) == {} {}
  }

  lemma VotersGrow<H(!new)>(votes: map<nat, H>, v: nat, h: H, x: H)
    requires v !in votes
    ensures Voters(votes[v := h], x) == Voters(votes, x) + if x == h then {v} else {}
    ensures |Voters(votes[v := h], x)| == |Voters(votes, x)| + if x == h then 1 else 0
  {
    assert Voters(votes[v := h], x) == Voters(votes, x) + if x == h then {v} else {};
  }

  /** A vote of an eligible validator that has not voted keeps the invariant. */
  lemma VoteKeepsRound<H(!new)>(r: Round<H>, v: nat, h: H)
    requires RoundInvariant(r) && r.finalized == None && v < r.validatorCount && v !in r.votes
    ensures RoundInvariant(WithVote(r, v, h))
  {
    hide Voters;
    var after := WithVote(r, v, h);
    forall x
      ensures CountFor(after.hashVotes, x) == |Voters(after.votes, x)|
      ensures after.finalized == Some(x) <==> Voters(after.votes, x) != {} && |Voters(after.votes, x)| >= r.threshold
    {
      VotersGrow(r.votes, v, h, x);
      assert CountFor(r.hashVotes, x) == |Voters(r.votes, x)|;
      assert r.finalized != Some(x);
    }
  }

  // ----- the engine -----

  datatype VoteError = RoundNotStarted | RoundFinalized | InvalidValidator | DuplicateVote

  datatype Engine<H> = Engine(rounds: map<nat, Round<H>>, history: seq<nat>, latest: nat)

  datatype EngineCall<H> =
    | Start(startSlot: nat, validatorCount: nat)
    | Cast(slot: nat, validator: nat, hash: H)
    | Cleanup(beforeSlot: nat)

  ghost function WithRound<H>(e: Engine<H>, cfg: Config, slot: nat, n: nat): Engine<H> {
    if slot in e.rounds then e else e.(rounds := e.rounds[slot := NewRound(slot, n, cfg.supermajorityPct)])
  }

  ghost function Verdict<H>(e: Engine<H>, slot: nat, v: nat): Option<VoteError> {
    if slot !in e.rounds then Some(RoundNotStarted)
    else if e.rounds[slot].finalized.Some? then Some(RoundFinalized)
    else if v >= e.rounds[slot].validatorCount then Some(InvalidValidator)
    else if v in e.rounds[slot].votes then Some(DuplicateVote)
    else None
  }

  /** History without its leading entries below the cutoff. */
  ghost function TrimBelow(history: seq<nat>, cutoff: nat): seq<nat> {
    if history == [] || history[0] >= cutoff then history else TrimBelow(history[1..], cutoff)
  }

  ghost function Pruned<H>(e: Engine<H>, cfg: Config): Engine<H> {
    if e.latest <= cfg.retainRounds then e
    else
      var cutoff := e.latest - cfg.retainRounds;
      e.(rounds := map s | s in e.rounds && s >= cutoff :: e.rounds[s], history := TrimBelow(e.history, cutoff))
  }

  ghost function Finalize<H>(e: Engine<H>, cfg: Config, slot: nat): Engine<H> {
    Pruned(e.(history := e.history + [slot], latest := if slot > e.latest then slot else e.latest), cfg)
  }

  ghost function AfterVote<H>(e: Engine<H>, cfg: Config, slot: nat, v: nat, h: H): Engine<H> {
    if Verdict(e, slot, v).Some? then e
    else
      var r := WithVote(e.rounds[slot], v, h);
      var recorded := e.(rounds := e.rounds[slot := r]);
      if r.finalized.Some? then Finalize(recorded, cfg, r.slot) else recorded
  }

  ghost function AfterCleanup<H>(e: Engine<H>, beforeSlot: nat): Engine<H> {
    e.(rounds := map s | s in e.rounds && !(s < beforeSlot && e.rounds[s].finalized.None?) :: e.rounds[s])
  }

  ghost function Step<H>(e: Engine<H>, cfg: Config, c: EngineCall<H>): Engine<H> {
    match c
    case Start(slot, n) => WithRound(e, cfg, slot, n)
    case Cast(slot, v, h) => AfterVote(e, cfg, slot, v, h)
    case Cleanup(before) => AfterCleanup(e, before)
  }

  ghost function Run<H>(cfg: Config, calls: seq<EngineCall<H>>): Engine<H> {
    if calls == [] then Engine(map[], [], 0) else Step(Run(cfg, calls[..|calls| - 1]), cfg, calls[|calls| - 1])
  }

  /** Every round is consistent, and every finalized one is in the history and
      within the retention window. */
  ghost predicate EngineInvariant<H(!new)>(e: Engine<H>, cfg: Config) {
    forall s :: s in e.rounds ==> RoundHolds(e, cfg, s)
  }

  ghost predicate RoundHolds<H(!new)>(e: Engine<H>, cfg: Config, s: nat)
    requires s in e.rounds
  {
    && RoundInvariant(e.rounds[s]) && e.rounds[s].slot == s
    && (e.rounds[s].finalized.Some? ==> s in e.history && s <= e.latest <= s + cfg.retainRounds)
  }

  lemma {:induction false} TrimKeeps(history: seq<nat>, cutoff: nat, s: nat)
    requires s in history && s >= cutoff
    ensures s in TrimBelow(history, cutoff)
  {
    if history[0] < cutoff { TrimKeeps(history[1..], cutoff, s); }
  }

  lemma StepKeepsEngine<H(!new)>(e: Engine<H>, cfg: Config, c: EngineCall<H>)
    requires EngineInvariant(e, cfg)
    ensures EngineInvariant(Step(e, cfg, c), cfg)
    ensures Step(e, cfg, c).latest >= e.latest
  {
    hide RoundInvariant, WithVote;
    match c
    case Start(slot, n) =>
      NewRoundInvariant<H>(slot, n, cfg.supermajorityPct);
    case Cast(slot, v, h) =>
      if Verdict(e, slot, v).None? { CastKeepsEngine(e, cfg, slot, v, h); }
    case Cleanup(before) =>
      forall s | s in Step(e, cfg, c).rounds ensures RoundHolds(Step(e, cfg, c), cfg, s) {
        assert RoundHolds(e, cfg, s);
      }
  }

  lemma WithVoteKeepsRest<H(!new)>(r: Round<H>, v: nat, h: H)
    ensures var a := WithVote(r, v, h);
            a.slot == r.slot && a.validatorCount == r.validatorCount && a.threshold == r.threshold
            && a.votes == r.votes[v := h] && (r.finalized.None? && a.finalized.Some? ==> a.finalized == Some(h))
  {
  }

  lemma CastKeepsEngine<H(!new)>(e: Engine<H>, cfg: Config, slot: nat, v: nat, h: H)
    requires EngineInvariant(e, cfg) && Verdict(e, slot, v).None?
    ensures EngineInvariant(AfterVote(e, cfg, slot, v, h), cfg) && AfterVote(e, cfg, slot, v, h).latest >= e.latest
  {
    hide RoundInvariant, WithVote, TrimBelow;
    assert RoundHolds(e, cfg, slot);
    VoteKeepsRound(e.rounds[slot], v, h);
    WithVoteKeepsRest(e.rounds[slot], v, h);
    var r, after := WithVote(e.rounds[slot], v, h), AfterVote(e, cfg, slot, v, h);
    var full := e.history + [slot];
    forall s | s in after.rounds ensures RoundHolds(after, cfg, s) {
      if s != slot { assert RoundHolds(e, cfg, s); }
      if r.finalized.Some? && after.latest > cfg.retainRounds && s in full {
        TrimKeeps(full, after.latest - cfg.retainRounds, s);
      }
    }
  }

  /** The invariant holds after every run. */
  lemma {:induction false} RunKeepsEngine<H(!new)>(cfg: Config, calls: seq<EngineCall<H>>)
    ensures EngineInvariant(Run(cfg, calls), cfg)
  {
    if calls != [] {
      RunKeepsEngine(cfg, calls[..|calls| - 1]);
      StepKeepsEngine(Run(cfg, calls[..|calls| - 1]), cfg, calls[|calls| - 1]);
    }
  }

  /** Over every run a round of one validator or more is finalized for `h` if
      and only if more than two thirds of its validators have voted for `h`. */
  lemma FinalizedAboveTwoThirds<H(!new)>(cfg: Config, calls: seq<EngineCall<H>>, slot: nat, h: H)
    requires slot in Run(cfg, calls).rounds && Run(cfg, calls).rounds[slot].validatorCount > 0
    ensures var r := Run(cfg, calls).rounds[slot];
            r.finalized == Some(h) <==> 3 * |Voters(r.votes, h)| > 2 * r.validatorCount
  {
    RunKeepsEngine(cfg, calls);
    assert RoundHolds(Run(cfg, calls), cfg, slot);
    hide Run, Voters;
  }

  // ----- the rounds and the history of a run -----

  /** Every round has the size it was started with, the history starts within
      the retention window, and the latest slot is its highest. */
  ghost predicate TracesCalls<H(!new)>(e: Engine<H>, cfg: Config, calls: seq<EngineCall<H>>) {
    && (forall s :: s in e.rounds ==> e.rounds[s].slot == s && Start(s, e.rounds[s].validatorCount) in calls)
    && (forall s :: s in e.history ==> s <= e.latest)
    && (e.latest > 0 ==> e.latest in e.history)
    && (e.history != [] ==> e.latest <= e.history[0] + cfg.retainRounds)
  }

  lemma {:induction false} TrimDrops(history: seq<nat>, cutoff: nat)
    ensures var t := TrimBelow(history, cutoff);
            (forall s :: s in t ==> s in history) && (t != [] ==> t[0] >= cutoff)
  {
    if history != [] && history[0] < cutoff { TrimDrops(history[1..], cutoff); }
  }

  lemma FinalizeTraces<H(!new)>(e: Engine<H>, cfg: Config, calls: seq<EngineCall<H>>, slot: nat)
    requires TracesCalls(e, cfg, calls)
    ensures TracesCalls(Finalize(e, cfg, slot), cfg, calls)
  {
    hide TrimBelow;
    var full, latest := e.history + [slot], if slot > e.latest then slot else e.latest;
    assert latest > 0 ==> latest in full;
    if latest > cfg.retainRounds {
      var cutoff := latest - cfg.retainRounds;
      TrimKeeps(full, cutoff, latest);
      TrimDrops(full, cutoff);
    }
  }

  lemma StepTraces<H(!new)>(e: Engine<H>, cfg: Config, calls: seq<EngineCall<H>>, c: EngineCall<H>)
    requires TracesCalls(e, cfg, calls)
    ensures TracesCalls(Step(e, cfg, c), cfg, calls + [c])
  {
    hide Finalize, WithVote;
    var more := calls + [c];
    assert TracesCalls(e, cfg, more) by {
      forall s | s in e.rounds ensures Start(s, e.rounds[s].validatorCount) in more {
        assert Start(s, e.rounds[s].validatorCount) in calls;
      }
    }
    if c.Cast? && Verdict(e, c.slot, c.validator).None? {
      WithVoteKeepsRest(e.rounds[c.slot], c.validator, c.hash);
      var r := WithVote(e.rounds[c.slot], c.validator, c.hash);
      FinalizeTraces(e.(rounds := e.rounds[c.slot := r]), cfg, more, r.slot);
    } else if c.Start? {
      assert more[|calls|] == c;
    }
  }

  lemma {:induction false} RunTracesCalls<H(!new)>(cfg: Config, calls: seq<EngineCall<H>>)
    ensures TracesCalls(Run(cfg, calls), cfg, calls)
  {
    if calls != [] {
      hide TracesCalls, Step;
      var front, last := calls[..|calls| - 1], calls[|calls| - 1];
      RunTracesCalls(cfg, front);
      StepTraces(Run(cfg, front), cfg, front, last);
      assert calls == front + [last];
    }
  }

  // ----- recorded votes were cast -----

  ghost predicate VotesWereCast<H(!new)>(e: Engine<H>, calls: seq<EngineCall<H>>) {
    forall s, v :: s in e.rounds && v in e.rounds[s].votes ==> Cast(s, v, e.rounds[s].votes[v]) in calls
  }

  lemma {:induction false} RecordedVotesWereCast<H(!new)>(cfg: Config, calls: seq<EngineCall<H>>)
    ensures VotesWereCast(Run(cfg, calls), calls)
  {
    hide EngineInvariant, Step;
    if calls != [] {
      hide VotesWereCast;
      var front, last := calls[..|calls| - 1], calls[|calls| - 1];
      RecordedVotesWereCast(cfg, front);
      RunKeepsEngine(cfg, front);
      assert calls == front + [last];
      StepRecordsCast(Run(cfg, front), cfg, front, last);
    }
  }

  lemma StepRecordsCast<H(!new)>(e: Engine<H>, cfg: Config, front: seq<EngineCall<H>>, last: EngineCall<H>)
    requires VotesWereCast(e, front) && EngineInvariant(e, cfg)
    ensures VotesWereCast(Step(e, cfg, last), front + [last])
  {
    hide RoundInvariant, WithVote, TrimBelow;
    var after := Step(e, cfg, last);
    if last.Cast? && last.slot in e.rounds { WithVoteKeepsRest(e.rounds[last.slot], last.validator, last.hash); }
    forall s, v | s in after.rounds && v in after.rounds[s].votes
      ensures Cast(s, v, after.rounds[s].votes[v]) in front + [last]
    {
      if last.Cast? && s == last.slot && s in e.rounds {
        if v != last.validator || v in e.rounds[s].votes {
          assert Cast(s, v, e.rounds[s].votes[v]) in front;
        } else {
          assert last == Cast(s, v, after.rounds[s].votes[v]);
        }
      } else {
        if s in e.rounds { assert Cast(s, v, e.rounds[s].votes[v]) in front; }
      }
    }
  }

  // ----- finality is kept -----

  ghost predicate FinalizedAt<H(!new)>(e: Engine<H>, slot: nat, h: H) {
    slot in e.rounds && e.rounds[slot].finalized == Some(h)
  }

  lemma StepKeepsFinalized<H(!new)>(e: Engine<H>, cfg: Config, c: EngineCall<H>, slot: nat, h: H)
    requires EngineInvariant(e, cfg) && FinalizedAt(e, slot, h) && Step(e, cfg, c).latest <= slot + cfg.retainRounds
    ensures FinalizedAt(Step(e, cfg, c), slot, h) && Step(e, cfg, c).rounds[slot] == e.rounds[slot]
  {
    hide RoundInvariant, TrimBelow;
  }

  ghost function RunFrom<H>(e: Engine<H>, cfg: Config, calls: seq<EngineCall<H>>): Engine<H> {
    if calls == [] then e else Step(RunFrom(e, cfg, calls[..|calls| - 1]), cfg, calls[|calls| - 1])
  }

  /** A finalized round never changes while it is within the retention window
      of the latest finalized slot. */
  lemma {:induction false} FinalityIsKept<H(!new)>(e: Engine<H>, cfg: Config, more: seq<EngineCall<H>>, slot: nat, h: H)
    requires EngineInvariant(e, cfg) && FinalizedAt(e, slot, h)
    requires RunFrom(e, cfg, more).latest <= slot + cfg.retainRounds
    ensures FinalizedAt(RunFrom(e, cfg, more), slot, h) && RunFrom(e, cfg, more).rounds[slot] == e.rounds[slot]
    ensures EngineInvariant(RunFrom(e, cfg, more), cfg)
  {
    if more != [] {
      var front, last := more[..|more| - 1], more[|more| - 1];
      RunFromKeepsEngine(e, cfg, front);
      StepKeepsEngine(RunFrom(e, cfg, front), cfg, last);
      FinalityIsKept(e, cfg, front, slot, h);
      StepKeepsFinalized(RunFrom(e, cfg, front), cfg, last, slot, h);
    }
  }

  /** It is there exactly as long as that. */
  lemma RetainedExactlyInWindow<H(!new)>(e: Engine<H>, cfg: Config, more: seq<EngineCall<H>>, slot: nat, h: H)
    requires EngineInvariant(e, cfg) && FinalizedAt(e, slot, h)
    ensures FinalizedAt(RunFrom(e, cfg, more), slot, h) <==> RunFrom(e, cfg, more).latest <= slot + cfg.retainRounds
  {
    hide RunFrom, RoundInvariant;
    RunFromKeepsEngine(e, cfg, more);
    if RunFrom(e, cfg, more).latest <= slot + cfg.retainRounds { FinalityIsKept(e, cfg, more, slot, h); }
    if FinalizedAt(RunFrom(e, cfg, more), slot, h) { assert RoundHolds(RunFrom(e, cfg, more), cfg, slot); }
  }

  lemma {:induction false} RunSplits<H(!new)>(cfg: Config, calls: seq<EngineCall<H>>, more: seq<EngineCall<H>>)
    ensures Run(cfg, calls + more) == RunFrom(Run(cfg, calls), cfg, more)
  {
    var all := calls + more;
    if more == [] {
      assert all == calls;
    } else {
      RunSplits(cfg, calls, more[..|more| - 1]);
      assert all[..|all| - 1] == calls + more[..|more| - 1];
    }
  }

  /** Whatever happens in between, also pruning and starting the slot again, a
      slot is never reported finalized with two hashes. */
  lemma OneHashPerSlot<H(!new)>(cfg: Config, calls: seq<EngineCall<H>>, more: seq<EngineCall<H>>, slot: nat, h: H, g: H)
    requires FinalizedAt(Run(cfg, calls), slot, h) && FinalizedAt(Run(cfg, calls + more), slot, g)
    ensures h == g
  {
    hide Run, RunFrom, RoundInvariant;
    RunKeepsEngine(cfg, calls);
    RunKeepsEngine(cfg, calls + more);
    RunSplits(cfg, calls, more);
    assert RoundHolds(Run(cfg, calls + more), cfg, slot);
    FinalityIsKept(Run(cfg, calls), cfg, more, slot, h);
  }

  lemma {:induction false} RunFromKeepsEngine<H(!new)>(e: Engine<H>, cfg: Config, calls: seq<EngineCall<H>>)
    requires EngineInvariant(e, cfg)
    ensures EngineInvariant(RunFrom(e, cfg, calls), cfg)
  {
    if calls != [] {
      RunFromKeepsEngine(e, cfg, calls[..|calls| - 1]);
      StepKeepsEngine(RunFrom(e, cfg, calls[..|calls| - 1]), cfg, calls[|calls| - 1]);
    }
  }

  // ----- the object -----

  class EndgameFinality<H(!new, ==)> {
    const cfg: Config
    var rounds: map<nat, Round<H>>
    var history: seq<nat>
    var latestFinalized: nat

    ghost function View(): Engine<H>
      reads this
    {
      Engine(rounds, history, latestFinalized)
    }

    constructor (supermajorityPct: int, retainRounds: int)
      ensures View() == Run(cfg, [])
      ensures cfg == Config(if 0 < supermajorityPct <= 100 then supermajorityPct else 90,
                            if retainRounds > 0 then retainRounds else 64)
    {
      cfg := Config(if supermajorityPct <= 0 || supermajorityPct > 100 then 90 else supermajorityPct,
                    if retainRounds <= 0 then 64 else retainRounds);
      rounds, history, latestFinalized := map[], [], 0;
    }

    method StartRound(slot: nat, validatorCount: nat) returns (r: Round<H>)
      modifies this`rounds
      ensures View() == Step(old(View()), cfg, Start(slot, validatorCount))
      ensures slot in rounds && r == rounds[slot]
      ensures slot in old(rounds) ==> rounds == old(rounds)
      ensures slot !in old(rounds) ==>
                && rounds == old(rounds)[slot := r] && r.slot == slot && r.validatorCount == validatorCount
                && r.finalized == None && r.votes == map[]
                && (validatorCount > 0 ==> 2 * validatorCount < 3 * r.threshold <= 2 * validatorCount + 3)
                && r.threshold <= r.optimisticThreshold
                && (r.optimisticThreshold > r.threshold ==>
                      r.optimisticThreshold == validatorCount * cfg.supermajorityPct / 100)
    {
      if slot !in rounds {
        rounds := rounds[slot := NewRound(slot, validatorCount, cfg.supermajorityPct)];
      }
      return rounds[slot];
    }

    method CastVote(slot: nat, validator: nat, hash: H) returns (err: Option<VoteError>)
      modifies this`rounds, this`history, this`latestFinalized
      ensures View() == Step(old(View()), cfg, Cast(slot, validator, hash))
      ensures err == if slot !in old(rounds) then Some(RoundNotStarted)
                     else if old(rounds)[slot].finalized.Some? then Some(RoundFinalized)
                     else if validator >= old(rounds)[slot].validatorCount then Some(InvalidValidator)
                     else if validator in old(rounds)[slot].votes then Some(DuplicateVote)
                     else None
      ensures err.Some? ==> View() == old(View())
      ensures err.None? && slot in rounds ==> rounds[slot].votes == old(rounds)[slot].votes[validator := hash]
    {
      hide Quorum;
      if slot !in rounds {
        return Some(RoundNotStarted);
      }
      var round := rounds[slot];
      if round.finalized.Some? {
        return Some(RoundFinalized);
      }
      if validator >= round.validatorCount {
        return Some(InvalidValidator);
      }
      if validator in round.votes {
        return Some(DuplicateVote);
      }
      var count := CountFor(round.hashVotes, hash) + 1;
      round := round.(votes := round.votes[validator := hash],
                      hashVotes := round.hashVotes[hash := count],
                      totalVotes := round.totalVotes + 1);
      rounds := rounds[slot := round];
      ghost var done := round.(finalized := Some(hash));
      assert rounds[slot := done] == old(rounds)[slot := done];
      if count >= round.optimisticThreshold {
        FinalizeRound(slot, hash);
        return None;
      }
      if count >= round.threshold {
        FinalizeRound(slot, hash);
        return None;
      }
      return None;
    }

    method FinalizeRound(slot: nat, hash: H)
      requires slot in rounds
      modifies this`rounds, this`history, this`latestFinalized
      ensures var round := old(rounds)[slot];
              View() == Finalize(old(View()).(rounds := old(rounds)[slot := round.(finalized := Some(hash))]), cfg,
                                 round.slot)
    {
      var round := rounds[slot].(finalized := Some(hash));
      rounds := rounds[slot := round];
      if round.slot > latestFinalized {
        latestFinalized := round.slot;
      }
      history := history + [round.slot];
      PruneOldRounds();
    }

    method PruneOldRounds()
      modifies this`rounds, this`history
      ensures View() == Pruned(old(View()), cfg)
    {
      if latestFinalized <= cfg.retainRounds {
        return;
      }
      var cutoff := latestFinalized - cfg.retainRounds;
      rounds := map s | s in rounds && s >= cutoff :: rounds[s];
      var trim := 0;
      while trim < |history| && history[trim] < cutoff
        invariant trim <= |history| && TrimBelow(history, cutoff) == TrimBelow(history[trim..], cutoff)
      {
        trim := trim + 1;
      }
      history := history[trim..];
    }

    method CleanUp(beforeSlot: nat) returns (removed: nat)
      modifies this`rounds
      ensures View() == Step(old(View()), cfg, Cleanup(beforeSlot))
      ensures forall s :: s in rounds <==> s in old(rounds) && (s >= beforeSlot || old(rounds)[s].finalized.Some?)
      ensures removed == |old(rounds)| - |rounds|
    {
      var before := rounds;
      rounds := map s | s in rounds && !(s < beforeSlot && rounds[s].finalized.None?) :: rounds[s];
      SubsetCardinality(rounds.Keys, before.Keys);
      removed := |before| - |rounds|;
    }
  }
}
