/** What a run of the fork choice store leaves behind, told from its calls, and
    what the head is, told from the epochs of the blocks. */
module ForkChoiceTraces {
  import opened Collections
  import opened Hashes
  import opened GhostRule
  import opened ForkChoiceStores

  // ----- checkpoints -----

  ghost function JustifiedGiven(calls: seq<Call>): seq<Checkpoint> {
    if calls == [] then []
    else
      var last := calls[|calls| - 1];
      JustifiedGiven(calls[..|calls| - 1]) + if last.UpdateJustified? then [last.justified] else []
  }

  ghost function FinalizedGiven(calls: seq<Call>): seq<Checkpoint> {
    if calls == [] then []
    else
      var last := calls[|calls| - 1];
      FinalizedGiven(calls[..|calls| - 1]) + if last.UpdateFinalized? then [last.finalized] else []
  }

  /** `given[i]` is the first of the given checkpoints with the highest epoch. */
  ghost predicate FirstHighest(given: seq<Checkpoint>, i: int) {
    && 0 <= i < |given|
    && (forall j :: 0 <= j < |given| ==> given[j].epoch <= given[i].epoch)
    && (forall j :: 0 <= j < i ==> given[j].epoch < given[i].epoch)
  }

  /** `cp` is the first of the highest among `start` and the given checkpoints. */
  ghost predicate IsHighest(start: Checkpoint, given: seq<Checkpoint>, cp: Checkpoint) {
    exists i :: FirstHighest([start] + given, i) && ([start] + given)[i] == cp
  }

  lemma StartIsHighest(start: Checkpoint)
    ensures IsHighest(start, [], start)
  {
    assert FirstHighest([start] + [], 0);
  }

  lemma NewerIsHighest(start: Checkpoint, given: seq<Checkpoint>, cp: Checkpoint, next: Checkpoint)
    requires IsHighest(start, given, cp)
    ensures IsHighest(start, given + [next], Newer(cp, next))
  {
    var all, more := [start] + given, [start] + (given + [next]);
    var i :| FirstHighest(all, i) && all[i] == cp;
    assert more == all + [next];
    if next.epoch > cp.epoch {
      assert FirstHighest(more, |all|) && more[|all|] == next;
    } else {
      assert FirstHighest(more, i) && more[i] == cp;
    }
  }

  lemma StepCheckpoints(s: Store, c: Call)
    ensures Step(s, c).justified == if c.UpdateJustified? then Newer(s.justified, c.justified) else s.justified
    ensures Step(s, c).finalized == if c.UpdateFinalized? then Newer(s.finalized, c.finalized) else s.finalized
  {
  }

  /** After every run the justified checkpoint is the first of the highest epoch
      among the one at the start and those given; so is the finalized one. */
  lemma {:induction false} CheckpointsAreHighest(justified: Checkpoint, finalized: Checkpoint, calls: seq<Call>)
    ensures IsHighest(justified, JustifiedGiven(calls), Run(Fresh(justified, finalized), calls).justified)
    ensures IsHighest(finalized, FinalizedGiven(calls), Run(Fresh(justified, finalized), calls).finalized)
  {
    hide Step, IsHighest, Newer;
    if calls == [] {
      StartIsHighest(justified);
      StartIsHighest(finalized);
    } else {
      var front, last := calls[..|calls| - 1], calls[|calls| - 1];
      CheckpointsAreHighest(justified, finalized, front);
      var s := Run(Fresh(justified, finalized), front);
      StepCheckpoints(s, last);
      if last.UpdateJustified? {
        NewerIsHighest(justified, JustifiedGiven(front), s.justified, last.justified);
      } else {
        assert JustifiedGiven(calls) == JustifiedGiven(front);
      }
      if last.UpdateFinalized? {
        NewerIsHighest(finalized, FinalizedGiven(front), s.finalized, last.finalized);
      } else {
        assert FinalizedGiven(calls) == FinalizedGiven(front);
      }
    }
  }

  // ----- blocks and balances -----

  /** Block `k` is the one that call `c` brought, below the parent it named
      unless that has been pruned. */
  ghost predicate GivenBy(t: Tree, k: int, c: Call)
    requires ParentsFirst(t) && 0 <= k < |t|
  {
    && c.OnBlock? && t[k].slot == c.slot && t[k].root == c.root
    && t[k].justifiedEpoch == c.justifiedEpoch && t[k].finalizedEpoch == c.finalizedEpoch
    && (t[k].parent >= 0 ==> t[t[k].parent].root == c.parentRoot)
  }

  ghost predicate WasGiven(t: Tree, k: int, calls: seq<Call>)
    requires ParentsFirst(t) && 0 <= k < |t|
  {
    exists i :: 0 <= i < |calls| && GivenBy(t, k, calls[i])
  }

  lemma StepGives(s: Store, calls: seq<Call>, c: Call, k: int)
    requires WellFormed(s.tree) && forall j :: 0 <= j < |s.tree| ==> WasGiven(s.tree, j, calls)
    requires WellFormed(Step(s, c).tree) && 0 <= k < |Step(s, c).tree|
    ensures WasGiven(Step(s, c).tree, k, calls + [c])
  {
    hide WasGiven;
    var t, more := Step(s, c).tree, calls + [c];
    if c.Prune? && IndexOf(s.tree, c.finalizedRoot) > 0 {
      var m := IndexOf(s.tree, c.finalizedRoot);
      GivenAgain(s.tree, k + m, calls, t, k, c);
    } else if k < |s.tree| {
      GivenAgain(s.tree, k, calls, t, k, c);
    } else {
      GivenNow(t, k, calls, c);
    }
  }

  lemma GivenNow(t: Tree, k: int, calls: seq<Call>, c: Call)
    requires ParentsFirst(t) && 0 <= k < |t| && GivenBy(t, k, c)
    ensures WasGiven(t, k, calls + [c])
  {
    assert (calls + [c])[|calls|] == c;
  }

  /** A block stays given while it keeps its fields and its parent's root. */
  lemma GivenAgain(t: Tree, j: int, calls: seq<Call>, r: Tree, k: int, c: Call)
    requires ParentsFirst(t) && ParentsFirst(r) && 0 <= j < |t| && 0 <= k < |r| && WasGiven(t, j, calls)
    requires r[k].(parent := t[j].parent) == t[j]
    requires r[k].parent >= 0 ==> t[j].parent >= 0 && r[r[k].parent].root == t[t[j].parent].root
    ensures WasGiven(r, k, calls + [c])
  {
    var i :| 0 <= i < |calls| && GivenBy(t, j, calls[i]);
    assert (calls + [c])[i] == calls[i];
  }

  /** Every block of a run's tree was brought by a call, with the slot, root,
      epochs and parent that call gave. */
  lemma {:induction false} BlocksWereGiven(justified: Checkpoint, finalized: Checkpoint, calls: seq<Call>, k: int)
    requires 0 <= k < |Run(Fresh(justified, finalized), calls).tree|
    ensures var t := Run(Fresh(justified, finalized), calls).tree; WellFormed(t) && WasGiven(t, k, calls)
  {
    hide Step, WasGiven;
    RunKeepsWellFormed(Fresh(justified, finalized), calls);
    if calls != [] {
      var front, last := calls[..|calls| - 1], calls[|calls| - 1];
      var s := Run(Fresh(justified, finalized), front);
      RunKeepsWellFormed(Fresh(justified, finalized), front);
      forall j | 0 <= j < |s.tree| ensures WasGiven(s.tree, j, front) {
        BlocksWereGiven(justified, finalized, front, j);
      }
      StepGives(s, front, last, k);
      assert calls == front + [last];
    }
  }

  /** Call `i` is the last to set the balance of `v`. */
  ghost predicate LastSet(calls: seq<Call>, v: nat, i: int) {
    && 0 <= i < |calls| && calls[i].SetBalance? && calls[i].owner == v
    && (forall j :: i < j < |calls| ==> !(calls[j].SetBalance? && calls[j].owner == v))
  }

  ghost predicate HoldsLastSet(calls: seq<Call>, balances: Balances, v: nat) {
    if v in balances then exists i :: LastSet(calls, v, i) && balances[v] == calls[i].balance
    else forall i :: 0 <= i < |calls| ==> !(calls[i].SetBalance? && calls[i].owner == v)
  }

  lemma StepSets(s: Store, calls: seq<Call>, c: Call, v: nat)
    requires HoldsLastSet(calls, s.balances, v)
    ensures HoldsLastSet(calls + [c], Step(s, c).balances, v)
  {
    var more := calls + [c];
    assert more[|calls|] == c;
    if c.SetBalance? && c.owner == v {
      assert LastSet(more, v, |calls|);
    } else if v in s.balances {
      var i :| LastSet(calls, v, i) && s.balances[v] == calls[i].balance;
      assert LastSet(more, v, i) && more[i] == calls[i];
    }
  }

  /** The balance of a validator after a run is the last one set. */
  lemma {:induction false} BalancesAreLastSet(justified: Checkpoint, finalized: Checkpoint, calls: seq<Call>, v: nat)
    ensures HoldsLastSet(calls, Run(Fresh(justified, finalized), calls).balances, v)
  {
    if calls != [] {
      hide Step, HoldsLastSet;
      var front, last := calls[..|calls| - 1], calls[|calls| - 1];
      BalancesAreLastSet(justified, finalized, front, v);
      StepSets(Run(Fresh(justified, finalized), front), front, last, v);
      assert calls == front + [last];
    }
  }

  // ----- the head by its epochs -----

  /** A block's justified epoch is the store's unless that is 0, and so is its
      finalized epoch. */
  ghost predicate EpochsMatch(s: Store, b: Block) {
    && (s.justified.epoch > 0 ==> b.justifiedEpoch == s.justified.epoch)
    && (s.finalized.epoch > 0 ==> b.finalizedEpoch == s.finalized.epoch)
  }

  /** The walk leaves `k` exactly when a block strictly below it is viable, and
      then ends at a viable block strictly below it. */
  lemma HeadLeaves(v: Scored, k: int)
    requires WellScored(v) && 0 <= k < |v.tree|
    ensures Head(v, k) != k ==> v.viable[Head(v, k)] && Ancestor(v.tree, k, Head(v, k))
    ensures Head(v, k) != k <==> exists x :: x != k && ViableBelow(v, k, x)
  {
    HeadIsViable(v, k);
    if d :| OpenChild(v, k, d) {
      var c := BestExists(v, k, 0);
      HeadStep(v, k, c);
      HeadIsViable(v, c);
      AncestorBelow(v.tree, c, Head(v, c));
      assert ViableBelow(v, k, Head(v, k));
    } else {
      HeadStops(v, k);
      forall x | x != k ensures !ViableBelow(v, k, x) {
        if ViableBelow(v, k, x) {
          var c := DescendsThroughChild(v.tree, k, x);
          assert ViableBelow(v, c, x);
          assert OpenChild(v, k, c);
        }
      }
    }
  }

  /** Block `x` is strictly below `j`, and its epochs match the store's. */
  ghost predicate MatchBelow(s: Store, j: int, x: int)
    requires WellFormed(s.tree)
  {
    0 <= x < |s.tree| && x != j && Ancestor(s.tree, j, x) && EpochsMatch(s, s.tree[x])
  }

  lemma MatchIsViable(s: Store, w: seq<nat>, j: int, x: int)
    requires WellFormed(s.tree) && |w| == |s.tree|
    ensures MatchBelow(s, j, x) <==> x != j && ViableBelow(ScoredBy(s, w), j, x)
  {
    hide Ancestor;
  }

  /** The walk from `j` ends at `h`: a block below `j` whose epochs match the
      store's whenever there is one, and else `j` itself. */
  ghost predicate EndsByEpochs(s: Store, j: int, h: int)
    requires WellFormed(s.tree)
  {
    if exists x :: MatchBelow(s, j, x) then MatchBelow(s, j, h) else h == j
  }

  lemma WalkByEpochs(s: Store, w: seq<nat>, j: int)
    requires WellFormed(s.tree) && |w| == |s.tree| && 0 <= j < |s.tree|
    ensures EndsByEpochs(s, j, Head(ScoredBy(s, w), j))
  {
    var v := ScoredBy(s, w);
    HeadLeaves(v, j);
    forall x ensures MatchBelow(s, j, x) <==> x != j && ViableBelow(v, j, x) {
      MatchIsViable(s, w, j, x);
    }
    hide Head, MatchBelow, ScoredBy;
  }

  /** Whatever the weights: without the justified root there is no head, and with
      it the head is the block where the walk by epochs ends. */
  lemma HeadByEpochs(s: Store, w: seq<nat>)
    requires WellFormed(s.tree) && |w| == |s.tree|
    ensures !Known(s.tree, s.justified.root) ==> HeadUnder(s, w) == None
    ensures Known(s.tree, s.justified.root) ==>
              exists j, h :: && 0 <= j < |s.tree| && s.tree[j].root == s.justified.root
                             && 0 <= h < |s.tree| && HeadUnder(s, w) == Some(s.tree[h].root)
                             && EndsByEpochs(s, j, h)
  {
    hide Head, EndsByEpochs;
    var j := IndexOf(s.tree, s.justified.root);
    if j >= 0 {
      WalkByEpochs(s, w, j);
      var h := Head(ScoredBy(s, w), j);
      assert HeadUnder(s, w) == Some(s.tree[h].root);
    }
  }
}
