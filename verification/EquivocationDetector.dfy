/** The double-vote detector: the first vote of each validator in each slot is
    kept, and every later vote for another root becomes evidence, filed by
    validator and by slot. */
module EquivocationDetector {
  import opened Collections

  type Signature = seq<bv8>

  datatype FinalityVote<H> = FinalityVote(slot: nat, validator: nat, root: H, signature: Signature, timestamp: nat)

  datatype VoteKey = VoteKey(slot: nat, validator: nat)

  datatype VoteRecord<H> = VoteRecord(root: H, signature: Signature)

  datatype Evidence<H> = Evidence(
    validator: nat,
    slot: nat,
    root1: H,
    signature1: Signature,
    root2: H,
    signature2: Signature,
    detectedAt: nat)

  datatype Detector<H> = Detector(
    votes: map<VoteKey, VoteRecord<H>>,
    evidence: map<nat, seq<Evidence<H>>>,
    slotEvidence: map<nat, seq<Evidence<H>>>,
    total: nat)

  function ListAt<H>(m: map<nat, seq<Evidence<H>>>, k: nat): seq<Evidence<H>> {
    if k in m then m[k] else []
  }

  function EvidenceFor<H>(first: VoteRecord<H>, vote: FinalityVote<H>): Evidence<H> {
    Evidence(vote.validator, vote.slot, first.root, first.signature, vote.root, vote.signature, vote.timestamp)
  }

  // ----- the steps -----

  ghost function Found<H>(d: Detector<H>, vote: FinalityVote<H>): Option<Evidence<H>> {
    var key := VoteKey(vote.slot, vote.validator);
    if key !in d.votes || d.votes[key].root == vote.root then None else Some(EvidenceFor(d.votes[key], vote))
  }

  ghost function AfterVote<H>(d: Detector<H>, vote: FinalityVote<H>): Detector<H> {
    var key := VoteKey(vote.slot, vote.validator);
    if key !in d.votes then d.(votes := d.votes[key := VoteRecord(vote.root, vote.signature)])
    else match Found(d, vote)
      case None => d
      case Some(e) =>
        d.(evidence := d.evidence[vote.validator := ListAt(d.evidence, vote.validator) + [e]],
           slotEvidence := d.slotEvidence[vote.slot := ListAt(d.slotEvidence, vote.slot) + [e]],
           total := d.total + 1)
  }

  /** The entries at or after the cutoff, in order. */
  ghost function KeptFrom<H>(evs: seq<Evidence<H>>, cutoff: nat): seq<Evidence<H>> {
    if evs == [] then []
    else KeptFrom(evs[..|evs| - 1], cutoff) + if evs[|evs| - 1].slot >= cutoff then [evs[|evs| - 1]] else []
  }

  ghost function AfterPrune<H>(d: Detector<H>, maxHistory: nat, currentSlot: nat): Detector<H> {
    if currentSlot <= maxHistory then d
    else
      var cutoff := currentSlot - maxHistory;
      d.(votes := map k | k in d.votes && k.slot >= cutoff :: d.votes[k],
         slotEvidence := map s | s in d.slotEvidence && s >= cutoff :: d.slotEvidence[s],
         evidence := map v | v in d.evidence && KeptFrom(d.evidence[v], cutoff) != [] ::
                    KeptFrom(d.evidence[v], cutoff))
  }

  datatype Event<H> = Record(vote: FinalityVote<H>) | Prune(currentSlot: nat)

  ghost function Step<H>(d: Detector<H>, maxHistory: nat, e: Event<H>): Detector<H> {
    match e
    case Record(vote) => AfterVote(d, vote)
    case Prune(currentSlot) => AfterPrune(d, maxHistory, currentSlot)
  }

  ghost function Run<H>(maxHistory: nat, events: seq<Event<H>>): Detector<H> {
    if events == [] then Detector(map[], map[], map[], 0)
    else Step(Run(maxHistory, events[..|events| - 1]), maxHistory, events[|events| - 1])
  }

  // ----- what the detector knows after a run -----

  ghost predicate Erases<H>(e: Event<H>, maxHistory: nat, slot: nat) {
    e.Prune? && e.currentSlot > maxHistory && slot < e.currentSlot - maxHistory
  }

  /** The votes of `v` in `slot` since the last prune that reached the slot. */
  ghost function Heard<H>(maxHistory: nat, events: seq<Event<H>>, slot: nat, v: nat): seq<FinalityVote<H>> {
    if events == [] then []
    else
      var front, last := events[..|events| - 1], events[|events| - 1];
      if Erases(last, maxHistory, slot) then []
      else if last.Record? && last.vote.slot == slot && last.vote.validator == v then
        Heard(maxHistory, front, slot, v) + [last.vote]
      else Heard(maxHistory, front, slot, v)
  }

  /** The evidence a list of votes of one validator in one slot amounts to. */
  ghost function Proof<H>(heard: seq<FinalityVote<H>>): seq<Evidence<H>> {
    if |heard| <= 1 then []
    else
      var first, last := heard[0], heard[|heard| - 1];
      Proof(heard[..|heard| - 1])
      + if last.root != first.root then [EvidenceFor(VoteRecord(first.root, first.signature), last)] else []
  }

  ghost function OfSlot<H>(evs: seq<Evidence<H>>, slot: nat): seq<Evidence<H>> {
    if evs == [] then []
    else OfSlot(evs[..|evs| - 1], slot) + if evs[|evs| - 1].slot == slot then [evs[|evs| - 1]] else []
  }

  ghost function OfValidator<H>(evs: seq<Evidence<H>>, v: nat): seq<Evidence<H>> {
    if evs == [] then []
    else OfValidator(evs[..|evs| - 1], v) + if evs[|evs| - 1].validator == v then [evs[|evs| - 1]] else []
  }

  /** The record is the first vote heard, and both files hold exactly the
      evidence of the votes heard. */
  ghost predicate Knows<H>(d: Detector<H>, heard: seq<FinalityVote<H>>, slot: nat, v: nat) {
    var key := VoteKey(slot, v);
    && (key in d.votes <==> heard != [])
    && (key in d.votes ==> d.votes[key] == VoteRecord(heard[0].root, heard[0].signature))
    && OfSlot(ListAt(d.evidence, v), slot) == Proof(heard)
    && OfValidator(ListAt(d.slotEvidence, slot), v) == Proof(heard)
  }

  lemma FilesAppend<H>(evs: seq<Evidence<H>>, e: Evidence<H>, slot: nat, v: nat)
    ensures OfSlot(evs + [e], slot) == OfSlot(evs, slot) + if e.slot == slot then [e] else []
    ensures OfValidator(evs + [e], v) == OfValidator(evs, v) + if e.validator == v then [e] else []
  {
    assert (evs + [e])[..|evs|] == evs;
  }

  lemma ProofAppend<H>(heard: seq<FinalityVote<H>>, vote: FinalityVote<H>)
    ensures Proof(heard + [vote]) == Proof(heard)
              + if heard != [] && vote.root != heard[0].root then
                  [EvidenceFor(VoteRecord(heard[0].root, heard[0].signature), vote)]
                else []
  {
    var more := heard + [vote];
    if heard == [] {
      assert Proof(heard) == [];
    } else {
      assert more[..|heard|] == heard && more[0] == heard[0] && more[|more| - 1] == vote;
    }
  }

  /** The files after a vote: its evidence, if any, at the end of its validator's
      and its slot's. */
  lemma FilesAfterVote<H>(d: Detector<H>, vote: FinalityVote<H>, slot: nat, v: nat)
    ensures var new' := match Found(d, vote)
                        case None => []
                        case Some(e) => if vote.slot == slot && vote.validator == v then [e] else [];
            && OfSlot(ListAt(AfterVote(d, vote).evidence, v), slot) == OfSlot(ListAt(d.evidence, v), slot) + new'
            && OfValidator(ListAt(AfterVote(d, vote).slotEvidence, slot), v) ==
               OfValidator(ListAt(d.slotEvidence, slot), v) + new'
  {
    hide OfSlot, OfValidator;
    if e :| Found(d, vote) == Some(e) {
      FilesAppend(ListAt(d.evidence, v), e, slot, v);
      FilesAppend(ListAt(d.slotEvidence, slot), e, slot, v);
    }
  }

  lemma KnowsVote<H>(d: Detector<H>, heard: seq<FinalityVote<H>>, vote: FinalityVote<H>)
    requires Knows(d, heard, vote.slot, vote.validator)
    ensures Knows(AfterVote(d, vote), heard + [vote], vote.slot, vote.validator)
  {
    hide OfSlot, OfValidator, Proof, ListAt;
    FilesAfterVote(d, vote, vote.slot, vote.validator);
    ProofAppend(heard, vote);
    assert heard != [] ==> (heard + [vote])[0] == heard[0];
  }

  lemma KnowsOtherVote<H>(d: Detector<H>, heard: seq<FinalityVote<H>>, vote: FinalityVote<H>, slot: nat, v: nat)
    requires Knows(d, heard, slot, v) && !(vote.slot == slot && vote.validator == v)
    ensures Knows(AfterVote(d, vote), heard, slot, v)
  {
    hide OfSlot, OfValidator, Proof, ListAt;
    FilesAfterVote(d, vote, slot, v);
  }

  lemma {:induction false} KeptOfSlot<H>(evs: seq<Evidence<H>>, cutoff: nat, slot: nat)
    ensures OfSlot(KeptFrom(evs, cutoff), slot) == if slot >= cutoff then OfSlot(evs, slot) else []
  {
    if evs != [] {
      var front, last := evs[..|evs| - 1], evs[|evs| - 1];
      KeptOfSlot(front, cutoff, slot);
      var kept := KeptFrom(front, cutoff);
      assert (kept + [last])[..|kept|] == kept;
      assert kept + [] == kept;
    }
  }

  lemma KnowsPrune<H>(d: Detector<H>, heard: seq<FinalityVote<H>>, maxHistory: nat, currentSlot: nat, slot: nat, v: nat)
    requires Knows(d, heard, slot, v)
    ensures Knows(AfterPrune(d, maxHistory, currentSlot),
                  if Erases<H>(Prune(currentSlot), maxHistory, slot) then [] else heard, slot, v)
  {
    hide Proof;
    if currentSlot > maxHistory {
      KeptOfSlot(ListAt(d.evidence, v), currentSlot - maxHistory, slot);
      assert Proof<H>([]) == [] by { NoVotesNoProof<H>(); }
    }
  }

  lemma NoVotesNoProof<H>()
    ensures Proof<H>([]) == []
  {
  }

  /** After any run the detector knows exactly the votes heard, for every slot
      and validator. */
  lemma {:induction false} RunKnows<H>(maxHistory: nat, events: seq<Event<H>>, slot: nat, v: nat)
    ensures Knows(Run(maxHistory, events), Heard(maxHistory, events, slot, v), slot, v)
  {
    if events != [] {
      var front, last := events[..|events| - 1], events[|events| - 1];
      RunKnows(maxHistory, front, slot, v);
      hide Knows, AfterVote, AfterPrune;
      var d, heard := Run(maxHistory, front), Heard(maxHistory, front, slot, v);
      match last
      case Record(vote) =>
        if vote.slot == slot && vote.validator == v { KnowsVote(d, heard, vote); }
        else { KnowsOtherVote(d, heard, vote, slot, v); }
      case Prune(currentSlot) => KnowsPrune(d, heard, maxHistory, currentSlot, slot, v);
    }
  }

  // ----- evidence means two roots -----

  /** Two votes for different roots, the earlier one not erased since. */
  ghost predicate TwoRoots<H(!new)>(maxHistory: nat, events: seq<Event<H>>, slot: nat, v: nat) {
    exists i, j :: 0 <= i < j < |events|
                   && VoteAt(events, i, slot, v) && VoteAt(events, j, slot, v)
                   && events[i].vote.root != events[j].vote.root
                   && NotErasedSince(maxHistory, events, slot, i)
  }

  ghost predicate VoteAt<H>(events: seq<Event<H>>, i: int, slot: nat, v: nat) {
    0 <= i < |events| && events[i].Record? && events[i].vote.slot == slot && events[i].vote.validator == v
  }

  ghost predicate NotErasedSince<H(!new)>(maxHistory: nat, events: seq<Event<H>>, slot: nat, i: int)
    requires 0 <= i
  {
    forall k :: i < k < |events| ==> !Erases(events[k], maxHistory, slot)
  }

  lemma {:induction false} ProofMeansTwo<H>(heard: seq<FinalityVote<H>>)
    ensures Proof(heard) != [] <==> exists j :: 0 <= j < |heard| && heard[j].root != heard[0].root
  {
    if |heard| > 1 {
      var front := heard[..|heard| - 1];
      ProofMeansTwo(front);
      if j :| 0 <= j < |heard| && heard[j].root != heard[0].root {
        if j < |front| { assert front[j].root != front[0].root; }
      }
    }
  }

  /** A vote is heard exactly when it was recorded and not erased since. */
  lemma {:induction false} HeardWasRecorded<H(!new)>(maxHistory: nat, events: seq<Event<H>>, slot: nat, v: nat, j: int)
    returns (i: int)
    requires 0 <= j < |Heard(maxHistory, events, slot, v)|
    ensures VoteAt(events, i, slot, v) && events[i].vote == Heard(maxHistory, events, slot, v)[j]
    ensures NotErasedSince(maxHistory, events, slot, i)
    ensures j > 0 ==> exists h :: 0 <= h < i && VoteAt(events, h, slot, v)
                                  && events[h].vote == Heard(maxHistory, events, slot, v)[0]
                                  && NotErasedSince(maxHistory, events, slot, h)
  {
    var n := |events| - 1;
    var front, last := events[..n], events[n];
    var before := Heard(maxHistory, front, slot, v);
    if j < |before| {
      i := HeardWasRecorded(maxHistory, front, slot, v, j);
    } else {
      i := n;
      if j > 0 {
        var h := HeardWasRecorded(maxHistory, front, slot, v, 0);
        assert VoteAt(events, h, slot, v) && events[h].vote == before[0];
      }
    }
  }

  lemma {:induction false} RecordedIsHeard<H(!new)>(maxHistory: nat, events: seq<Event<H>>, slot: nat, v: nat, i: int)
    requires VoteAt(events, i, slot, v) && NotErasedSince(maxHistory, events, slot, i)
    ensures events[i].vote in Heard(maxHistory, events, slot, v)
  {
    var n := |events| - 1;
    if i < n {
      var front := events[..n];
      assert front[i] == events[i];
      forall k | i < k < |front| ensures !Erases(front[k], maxHistory, slot) { assert front[k] == events[k]; }
      RecordedIsHeard(maxHistory, front, slot, v, i);
    }
  }

  /** There is evidence exactly against the validators that voted for two roots,
      in both files. */
  lemma EvidenceIffTwoRoots<H(!new)>(maxHistory: nat, events: seq<Event<H>>, slot: nat, v: nat)
    ensures OfSlot(ListAt(Run(maxHistory, events).evidence, v), slot) != [] <==> TwoRoots(maxHistory, events, slot, v)
    ensures OfSlot(ListAt(Run(maxHistory, events).evidence, v), slot) ==
            OfValidator(ListAt(Run(maxHistory, events).slotEvidence, slot), v)
  {
    hide Run, Heard, Proof, OfSlot, OfValidator;
    RunKnows(maxHistory, events, slot, v);
    var heard := Heard(maxHistory, events, slot, v);
    ProofMeansTwo(heard);
    if j :| 0 <= j < |heard| && heard[j].root != heard[0].root {
      var i := HeardWasRecorded(maxHistory, events, slot, v, j);
      var h :| 0 <= h < i && VoteAt(events, h, slot, v) && events[h].vote == heard[0]
               && NotErasedSince(maxHistory, events, slot, h);
      assert events[h].vote.root != events[i].vote.root;
    }
    if TwoRoots(maxHistory, events, slot, v) {
      var i, j :| 0 <= i < j < |events| && VoteAt(events, i, slot, v) && VoteAt(events, j, slot, v)
                  && events[i].vote.root != events[j].vote.root && NotErasedSince(maxHistory, events, slot, i);
      RecordedIsHeard(maxHistory, events, slot, v, i);
      RecordedIsHeard(maxHistory, events, slot, v, j);
      var a :| 0 <= a < |heard| && heard[a] == events[i].vote;
      var b :| 0 <= b < |heard| && heard[b] == events[j].vote;
      assert heard[a].root != heard[0].root || heard[b].root != heard[0].root;
    }
  }

  // ----- what an entry says -----

  /** The entry names two votes of its validator in its slot, in the order they
      were recorded, each root with its own signature. */
  ghost predicate NamesTwoVotes<H(!new)>(events: seq<Event<H>>, e: Evidence<H>) {
    exists i, j :: && 0 <= i < j < |events|
                   && VoteAt(events, i, e.slot, e.validator) && VoteAt(events, j, e.slot, e.validator)
                   && e.root1 == events[i].vote.root && e.signature1 == events[i].vote.signature
                   && e.root2 == events[j].vote.root && e.signature2 == events[j].vote.signature
                   && e.root1 != e.root2 && e.detectedAt == events[j].vote.timestamp
  }

  lemma {:induction false} ProofEntry<H>(heard: seq<FinalityVote<H>>, e: Evidence<H>) returns (j: int)
    requires e in Proof(heard)
    ensures 0 < j < |heard| && heard[j].root != heard[0].root
    ensures e == Evidence(heard[j].validator, heard[j].slot, heard[0].root, heard[0].signature, heard[j].root,
                          heard[j].signature, heard[j].timestamp)
  {
    var n := |heard| - 1;
    if e in Proof(heard[..n]) { j := ProofEntry(heard[..n], e); } else { j := n; }
  }

  lemma {:induction false} EntryIsFiled<H>(evs: seq<Evidence<H>>, e: Evidence<H>)
    requires e in evs
    ensures e in OfSlot(evs, e.slot) && e in OfValidator(evs, e.validator)
  {
    if e in evs[..|evs| - 1] { EntryIsFiled(evs[..|evs| - 1], e); }
  }

  lemma ProofNamesVotes<H(!new)>(maxHistory: nat, events: seq<Event<H>>, slot: nat, v: nat, e: Evidence<H>)
    requires e in Proof(Heard(maxHistory, events, slot, v))
    ensures e.slot == slot && e.validator == v && NamesTwoVotes(events, e)
  {
    hide Proof, Heard, NotErasedSince;
    var heard := Heard(maxHistory, events, slot, v);
    var j := ProofEntry(heard, e);
    var i := HeardWasRecorded(maxHistory, events, slot, v, j);
    var h :| 0 <= h < i && VoteAt(events, h, slot, v) && events[h].vote == heard[0];
  }

  /** Every entry of both files, filed under its validator and its slot, names
      two recorded votes. */
  lemma EvidenceNamesVotes<H(!new)>(maxHistory: nat, events: seq<Event<H>>, k: nat, e: Evidence<H>)
    ensures e in ListAt(Run(maxHistory, events).evidence, k) ==> e.validator == k && NamesTwoVotes(events, e)
    ensures e in ListAt(Run(maxHistory, events).slotEvidence, k) ==> e.slot == k && NamesTwoVotes(events, e)
  {
    hide Run, Heard, Proof, OfSlot, OfValidator, NamesTwoVotes, ListAt;
    var d := Run(maxHistory, events);
    if e in ListAt(d.evidence, k) {
      EntryIsFiled(ListAt(d.evidence, k), e);
      RunKnows(maxHistory, events, e.slot, k);
      ProofNamesVotes(maxHistory, events, e.slot, k, e);
    }
    if e in ListAt(d.slotEvidence, k) {
      EntryIsFiled(ListAt(d.slotEvidence, k), e);
      RunKnows(maxHistory, events, k, e.validator);
      ProofNamesVotes(maxHistory, events, k, e.validator, e);
    }
  }

  /** The counter is the number of votes that brought evidence. */
  ghost function TimesFound<H>(maxHistory: nat, events: seq<Event<H>>): nat {
    if events == [] then 0
    else
      var front, last := events[..|events| - 1], events[|events| - 1];
      TimesFound(maxHistory, front)
      + if last.Record? && (var heard := Heard(maxHistory, front, last.vote.slot, last.vote.validator);
                            heard != [] && heard[0].root != last.vote.root) then 1 else 0
  }

  lemma {:induction false} TotalCountsFound<H>(maxHistory: nat, events: seq<Event<H>>)
    ensures Run(maxHistory, events).total == TimesFound(maxHistory, events)
  {
    hide Proof, OfSlot, OfValidator, Heard;
    if events != [] {
      var front, last := events[..|events| - 1], events[|events| - 1];
      TotalCountsFound(maxHistory, front);
      if last.Record? { RunKnows(maxHistory, front, last.vote.slot, last.vote.validator); }
    }
  }

  // ----- the object -----

  /** Moves the entries to keep to the front, in place, and cuts off the rest. */
  method Compact<H>(evs: seq<Evidence<H>>, cutoff: nat) returns (kept: seq<Evidence<H>>)
    ensures kept == KeptFrom(evs, cutoff)
  {
    kept := evs;
    var n := 0;
    for i := 0 to |evs|
      invariant 0 <= n <= i && |kept| == |evs|
      invariant kept[..n] == KeptFrom(evs[..i], cutoff) && kept[i..] == evs[i..]
    {
      assert evs[..i + 1][..i] == evs[..i] && kept[i] == evs[i];
      if kept[i].slot >= cutoff {
        ghost var before := kept;
        kept := kept[n := kept[i]];
        n := n + 1;
        assert kept[..n] == before[..n - 1] + [evs[i]];
      }
    }
    assert evs[..|evs|] == evs;
    kept := kept[..n];
  }

  /** The evidence of the validators in `done` has been cut. */
  ghost predicate Rebuilt<H(!new)>(before: map<nat, seq<Evidence<H>>>, after: map<nat, seq<Evidence<H>>>,
                                   done: set<nat>, cutoff: nat) {
    && (forall v :: v in before && v !in done ==> v in after && after[v] == before[v])
    && (forall v :: v in before && v in done ==>
          && (v in after <==> KeptFrom(before[v], cutoff) != [])
          && (v in after ==> after[v] == KeptFrom(before[v], cutoff)))
    && (forall v :: v in after ==> v in before)
  }

  lemma NothingRebuilt<H(!new)>(m: map<nat, seq<Evidence<H>>>, cutoff: nat)
    ensures Rebuilt(m, m, {}, cutoff)
  {
  }

  lemma RebuildOne<H(!new)>(before: map<nat, seq<Evidence<H>>>, after: map<nat, seq<Evidence<H>>>, done: set<nat>,
                            cutoff: nat, v: nat)
    requires Rebuilt(before, after, done, cutoff) && v in before && v !in done
    ensures v in after
    ensures var kept := KeptFrom(after[v], cutoff);
            Rebuilt(before, if kept == [] then after - {v} else after[v := kept], done + {v}, cutoff)
  {
    hide KeptFrom;
  }

  lemma AllRebuilt<H(!new)>(before: map<nat, seq<Evidence<H>>>, after: map<nat, seq<Evidence<H>>>, cutoff: nat)
    requires Rebuilt(before, after, before.Keys, cutoff)
    ensures after == map v | v in before && KeptFrom(before[v], cutoff) != [] :: KeptFrom(before[v], cutoff)
  {
    hide KeptFrom;
  }

  /** Each validator's evidence without the pruned slots; empty lists go. */
  method RebuildEvidence<H(!new)>(evidence: map<nat, seq<Evidence<H>>>, cutoff: nat)
    returns (r: map<nat, seq<Evidence<H>>>)
    ensures r == map v | v in evidence && KeptFrom(evidence[v], cutoff) != [] :: KeptFrom(evidence[v], cutoff)
  {
    hide Rebuilt, KeptFrom;
    r := evidence;
    var validators := Enumerate(evidence.Keys);
    ghost var done: set<nat> := {};
    NothingRebuilt(evidence, cutoff);
    for i := 0 to |validators|
      invariant done == Elems(validators[..i]) && Rebuilt(evidence, r, done, cutoff)
    {
      var v := validators[i];
      assert v in Elems(validators);
      RebuildOne(evidence, r, done, cutoff, v);
      var kept := Compact(r[v], cutoff);
      if |kept| == 0 {
        r := r - {v};
      } else {
        r := r[v := kept];
      }
      done := done + {v};
    }
    assert validators[..|validators|] == validators;
    AllRebuilt(evidence, r, cutoff);
  }

  class FinalityEquivocationDetector<H(!new, ==)> {
    const maxSlotHistory: nat
    var votes: map<VoteKey, VoteRecord<H>>
    var evidence: map<nat, seq<Evidence<H>>>
    var slotEvidence: map<nat, seq<Evidence<H>>>
    var totalEvidence: nat

    ghost function View(): Detector<H>
      reads this
    {
      Detector(votes, evidence, slotEvidence, totalEvidence)
    }

    constructor (maxSlotHistory: nat)
      ensures View() == Run(this.maxSlotHistory, [])
      ensures this.maxSlotHistory == if maxSlotHistory == 0 then 256 else maxSlotHistory
    {
      this.maxSlotHistory := if maxSlotHistory == 0 then 256 else maxSlotHistory;
      votes, evidence, slotEvidence, totalEvidence := map[], map[], map[], 0;
    }

    method RecordVote(vote: FinalityVote<H>) returns (found: Option<Evidence<H>>)
      modifies this`votes, this`evidence, this`slotEvidence, this`totalEvidence
      ensures View() == Step(old(View()), maxSlotHistory, Record(vote))
      ensures var key := VoteKey(vote.slot, vote.validator);
              found == if key !in old(votes) || old(votes)[key].root == vote.root then None
                       else Some(Evidence(vote.validator, vote.slot, old(votes)[key].root, old(votes)[key].signature,
                                          vote.root, vote.signature, vote.timestamp))
    {
      var key := VoteKey(vote.slot, vote.validator);
      if key !in votes {
        votes := votes[key := VoteRecord(vote.root, vote.signature)];
        return None;
      }
      var existing := votes[key];
      if existing.root == vote.root {
        return None;
      }
      var ev := EvidenceFor(existing, vote);
      evidence := evidence[vote.validator := ListAt(evidence, vote.validator) + [ev]];
      slotEvidence := slotEvidence[vote.slot := ListAt(slotEvidence, vote.slot) + [ev]];
      totalEvidence := totalEvidence + 1;
      return Some(ev);
    }

    method PruneOldSlots(currentSlot: nat)
      modifies this`votes, this`evidence, this`slotEvidence
      ensures View() == Step(old(View()), maxSlotHistory, Prune(currentSlot))
    {
      hide KeptFrom;
      if currentSlot <= maxSlotHistory {
        return;
      }
      var cutoff := currentSlot - maxSlotHistory;
      votes := map k | k in votes && k.slot >= cutoff :: votes[k];
      slotEvidence := map s | s in slotEvidence && s >= cutoff :: slotEvidence[s];
      evidence := RebuildEvidence(evidence, cutoff);
    }

    method SlashableValidators(slot: nat) returns (r: seq<int>)
      ensures StrictlyAscending(r)
      ensures forall v: nat :: v in r <==> OfValidator(ListAt(slotEvidence, slot), v) != []
    {
      var evs := ListAt(slotEvidence, slot);
      var seen: set<int> := {};
      for i := 0 to |evs|
        invariant forall v: nat :: v in seen <==> OfValidator(evs[..i], v) != []
        invariant forall v :: v in seen ==> v >= 0
      {
        assert evs[..i + 1][..i] == evs[..i];
        seen := seen + {evs[i].validator};
      }
      assert evs[..|evs|] == evs;
      var list := Enumerate(seen);
      r := SortInts(list);
      DistinctPermutation(list, r);
      forall v: nat ensures v in r <==> v in seen { assert v in list <==> v in Elems(list); }
    }
  }
}
