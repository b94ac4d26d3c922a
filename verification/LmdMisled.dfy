/** A feed of blocks at one slot for which the map-based fork choice can return
    another head than the proto-array. */
module LmdMisled {
  import opened Collections
  import opened Hashes
  import opened GhostRule
  import opened ForkChoiceStores
  import opened ForkChoiceOverflow
  import opened LmdRule
  import opened LmdForkChoice
  import opened LmdHeads
  import opened LmdStores
  import opened LmdAgreement

  /** Every tree the feed builds is held by some block map. */
  lemma {:induction false} BlockMapExists(s: Store, feed: seq<Feed>, stake: nat -> nat)
    returns (blocks: map<Hash, LmdNode<Hash>>)
    requires s.tree == []
    ensures var t := LmdFed(s, feed, stake).tree; Represents(blocks, RootsIn(t), t, FirstParent(feed)) || t == []
    ensures LmdFed(s, feed, stake).tree == [] ==> blocks == map[]
  {
    if feed == [] {
      blocks := map[];
    } else {
      hide Represents, FirstParent, Known;
      var n := |feed| - 1;
      var f := feed[n];
      blocks := BlockMapExists(s, feed[..n], stake);
      assert feed[..n + 1] == feed;
      OneMoreItem(s, feed, stake, n);
      NextFirstParent(s, feed, stake, n);
      var l := LmdFed(s, feed[..n], stake);
      hide LmdFed;
      if f.NewVote? {
        VotesLeaveTree(l, f, stake);
      } else if BlockVerdict(l, f.root, f.parentRoot).None? {
        var b := Block(f.slot, f.root, if l.tree == [] then -1 else IndexOf(l.tree, f.parentRoot), 0, 0);
        MapTakesBlock(l, f, b, blocks, FirstParent(feed[..n]));
        blocks := WithChild(blocks, f.parentRoot, f.root, f.slot);
      }
    }
  }

  lemma MapTakesBlock(l: Store, f: Feed, b: Block, blocks: map<Hash, LmdNode<Hash>>, rootParent: Hash)
    requires f.NewBlock? && BlockVerdict(l, f.root, f.parentRoot).None?
    requires b == Block(f.slot, f.root, if l.tree == [] then -1 else IndexOf(l.tree, f.parentRoot), 0, 0)
    requires if l.tree == [] then blocks == map[] else Represents(blocks, RootsIn(l.tree), l.tree, rootParent)
    ensures Represents(WithChild(blocks, f.parentRoot, f.root, f.slot), RootsIn(l.tree + [b]), l.tree + [b],
                       if l.tree == [] then f.parentRoot else rootParent)
  {
    assert RootsIn(l.tree + [b]) == RootsIn(l.tree) + [f.root];
    if l.tree == [] { NothingRepresented(rootParent); }
    BlocksAreKnown(blocks, l.tree, rootParent, f.root);
    BlockAppended(blocks, RootsIn(l.tree), l.tree, rootParent, if l.tree == [] then f.parentRoot else rootParent,
                  f.parentRoot, f.root, b);
  }

  lemma NothingRepresented(rootParent: Hash)
    ensures Represents(map[], RootsIn([]), [], rootParent)
  {
  }

  // ----- the feed -----

  /** A first block, a chain of three on it and a sibling of that chain's first
      block, all at slot 1. */
  ghost function Five(): Tree {
    [Block(1, Filled(1), -1, 0, 0), Block(1, Filled(2), 0, 0, 0), Block(1, Filled(3), 1, 0, 0),
     Block(1, Filled(4), 2, 0, 0), Block(1, Filled(5), 0, 0, 0)]
  }

  ghost function ParentNamed(i: int): Hash
    requires 0 <= i < 5
  {
    if i == 0 then ZERO_HASH else Five()[Five()[i].parent].root
  }

  /** Two votes for the end of the chain and one for the sibling. */
  ghost function Target(v: nat): Hash {
    if v < 2 then Filled(4) else Filled(5)
  }

  ghost function Items(): (r: seq<Feed>)
    ensures |r| == 8
  {
    seq(8, i requires 0 <= i < 8 =>
      if i < 5 then NewBlock(1, Five()[i].root, ParentNamed(i), 0, 0) else NewVote(i - 5, Target(i - 5), 0))
  }

  ghost function Unit(): nat -> nat {
    v => 1
  }

  lemma FiveIsWellFormed()
    ensures WellFormed(Five())
  {
    var t := Five();
    forall i | 0 <= i < 5 ensures t[i].root[0] == i as byte + 1 {
      assert Filled(1)[0] == 1 && Filled(2)[0] == 2 && Filled(3)[0] == 3 && Filled(4)[0] == 4 && Filled(5)[0] == 5;
    }
    forall i, j | 0 <= i < j < |t| ensures t[i].root != t[j].root {
      assert t[i].root[0] != t[j].root[0];
    }
  }

  /** The store after the first `i` blocks. */
  ghost function WithBlocks(i: nat): Store
    requires i <= 5
  {
    Start(Filled(1)).(tree := Five()[..i])
  }

  lemma BlockTaken(i: nat)
    requires i < 5 && WellFormed(Five())
    ensures LmdTake(WithBlocks(i), Items()[i], Unit()) == WithBlocks(i + 1)
    ensures ProtoTake(WithBlocks(i), Items()[i], Unit()) == WithBlocks(i + 1)
  {
    hide Filled, ParentsFirst;
    var s, t := WithBlocks(i), Five();
    if i > 0 {
      forall k | 0 <= k < i ensures s.tree[k].root != t[i].root { assert t[k].root != t[i].root; }
      BlockGoesLast(s, 1, t[i].root, ParentNamed(i), t[i].parent);
    }
    assert t[..i] + [t[i]] == t[..i + 1];
  }

  lemma {:induction false} BlocksTaken(i: nat)
    requires i <= 5
    ensures LmdFed(Start(Filled(1)), Items()[..i], Unit()) == WithBlocks(i)
    ensures ProtoFed(Start(Filled(1)), Items()[..i], Unit()) == WithBlocks(i)
  {
    if i == 0 {
      NothingFed(Start(Filled(1)), Unit());
      assert Items()[..0] == [];
      assert Five()[..0] == [];
    } else {
      FiveIsWellFormed();
      hide LmdTake, ProtoTake, LmdFed, ProtoFed, WithBlocks, Items;
      BlocksTaken(i - 1);
      OneMoreItem(Start(Filled(1)), Items(), Unit(), i - 1);
      BlockTaken(i - 1);
    }
  }

  /** The votes of the first `n` validators. */
  ghost function VotesOf(n: nat): map<nat, LmdVote> {
    map v: nat | v < n :: LmdVote(Target(v), 0, 1)
  }

  ghost function WithVotes(n: nat): Store {
    WithBlocks(5).(votes := MessagesIn(VotesOf(n)), balances := WeightsIn(VotesOf(n)))
  }

  lemma TargetsAreKnown(v: nat)
    ensures Known(Five(), Target(v))
  {
    assert Five()[3].root == Filled(4) && Five()[4].root == Filled(5);
  }

  lemma VoteTaken(n: nat)
    requires n < 3
    ensures LmdTake(WithVotes(n), Items()[n + 5], Unit()) == WithVotes(n + 1)
    ensures ProtoTake(WithVotes(n), Items()[n + 5], Unit()) == WithVotes(n + 1)
    ensures Known(WithVotes(n).tree, Items()[n + 5].target)
  {
    TargetsAreKnown(n);
    hide Filled, Known, Target;
    assert Five()[..5] == Five();
    assert VotesOf(n + 1) == VotesOf(n)[n := LmdVote(Target(n), 0, 1)];
    VoteRecorded(VotesOf(n), n, LmdVote(Target(n), 0, 1));
  }

  lemma NoVotesYet()
    ensures WithVotes(0) == WithBlocks(5)
  {
    hide Five;
    assert VotesOf(0) == map[];
  }

  lemma {:induction false} VotesTaken(n: nat)
    requires n <= 3
    ensures LmdFed(Start(Filled(1)), Items()[..n + 5], Unit()) == WithVotes(n)
    ensures ProtoFed(Start(Filled(1)), Items()[..n + 5], Unit()) == WithVotes(n)
  {
    if n == 0 {
      BlocksTaken(5);
      NoVotesYet();
    } else {
      hide LmdTake, ProtoTake, LmdFed, ProtoFed, WithVotes, Items;
      VotesTaken(n - 1);
      OneMoreItem(Start(Filled(1)), Items(), Unit(), n + 4);
      VoteTaken(n - 1);
    }
  }

  lemma ItemsNameKnown()
    ensures VotesForKnown(Start(Filled(1)), Items(), Unit())
  {
    forall i | 0 <= i < 8 && Items()[i].NewVote?
      ensures Known(ProtoFed(Start(Filled(1)), Items()[..i], Unit()).tree, Items()[i].target)
    {
      hide ProtoFed, WithVotes, Known;
      VotesTaken(i - 5);
      VoteTaken(i - 5);
    }
  }

  // ----- the heads -----

  lemma VotersOf(r: Hash)
    ensures DirectVoters(TargetsOf(VotesOf(3)), r) ==
            if r == Filled(4) then {0, 1} else if r == Filled(5) then {2} else {}
  {
    FilledDiffer(4, 5);
    hide Filled;
  }

  lemma DirectIsTwo()
    ensures DirectWeights(Five(), TargetsOf(VotesOf(3)), WeightsIn(VotesOf(3))) == Two(5, 3, 4)
  {
    var t, b := Five(), WeightsIn(VotesOf(3));
    FiveIsWellFormed();
    BalanceSumSplit(b, {0, 1}, 0);
    assert {0, 1} - {0} == {1};
    BalanceSumSplit(b, {1}, 1);
    assert {1} - {1} == {};
    BalanceSumSplit(b, {2}, 2);
    assert {2} - {2} == {};
    hide Filled, BalanceSum, DirectVoters;
    forall k | 0 <= k < 5
      ensures BalanceSum(b, DirectVoters(TargetsOf(VotesOf(3)), t[k].root)) ==
              if k == 3 then 2 else if k == 4 then 1 else 0
    {
      VotersOf(t[k].root);
      assert t[3].root == Filled(4) && t[4].root == Filled(5);
      assert k != 3 ==> t[k].root != t[3].root;
      assert k != 4 ==> t[k].root != t[4].root;
    }
  }

  lemma RuleWeightsAreSums()
    requires WellFormed(Five())
    ensures RuleWeights(Five(), VotesOf(3)) == Sums(Five(), Two(5, 3, 4))
    ensures WellFormed(WithVotes(3).tree) && WrappedWeights(WithVotes(3)) == Sums(Five(), Two(5, 3, 4))
  {
    hide VoteWeight, SubtreeSum, DirectWeights, WellFormed;
    var t, votes := Five(), VotesOf(3);
    DirectIsTwo();
    forall k | 0 <= k < 5
      ensures VoteWeight(t, TargetsOf(votes), WeightsIn(votes), k) == SubtreeSum(t, Two(5, 3, 4), k, 5)
    {
      SumIsVoteWeight(t, TargetsOf(votes), WeightsIn(votes), k);
    }
    assert t[..5] == t;
    MessageRoots(votes);
    ViewWeights(WithVotes(3), votes);
  }

  lemma Lineage()
    requires ParentsFirst(Five())
    ensures var t := Five(); Ancestor(t, 0, 3) && Ancestor(t, 1, 3) && !Ancestor(t, 4, 3) && !Ancestor(t, 1, 4)
                             && Ancestor(t, 4, 4) && Ancestor(t, 0, 1) && Ancestor(t, 1, 1)
  {
    hide Filled;
    var t := Five();
    assert t[3].parent == 2 && t[2].parent == 1 && t[1].parent == 0 && t[0].parent == -1 && t[4].parent == 0;
    assert Ancestor(t, 1, 2) && Ancestor(t, 0, 1) && Ancestor(t, 0, 2);
    assert !Ancestor(t, 4, 0) && !Ancestor(t, 4, 1) && !Ancestor(t, 4, 2) && !Ancestor(t, 1, 0);
  }

  lemma SiblingsDiffer()
    requires ParentsFirst(Five())
    ensures NoSiblingTies(Five(), Sums(Five(), Two(5, 3, 4)))
  {
    hide Filled, Ancestor, SubtreeSum;
    var t := Five();
    Lineage();
    TwoSum(t, 3, 4, 1, 5);
    TwoSum(t, 3, 4, 4, 5);
    forall c, e | 0 <= c < e < 5 && t[c].parent == t[e].parent ensures c == 1 && e == 4 {}
  }

  lemma RuleTakesTheChain()
    requires ParentsFirst(Five())
    ensures LowHead(Five(), Sums(Five(), Two(5, 3, 4)), 0) == 3
  {
    hide Filled, Ancestor, Sums;
    var t := Five();
    Lineage();
    SelfIsAncestor(t, 3);
    RuleGoesDown(t, 3, 4, 0, 3);
    forall c ensures !Child(t, 3, c) {}
    LowHeadStops(t, Sums(t, Two(5, 3, 4)), 3);
  }

  lemma ChainIsMisplaced()
    requires ParentsFirst(Five())
    ensures StrictlyBelow(Five(), 0, 1) && Misplaced(Five(), 1, 3, 4)
  {
    hide Filled, Ancestor;
    Lineage();
  }

  lemma FirstParentOfItems()
    ensures FirstParent(Items()) == ZERO_HASH && !Known(Five(), ZERO_HASH)
  {
    assert Items()[0].NewBlock?;
    assert Filled(1)[0] == 1 && Filled(2)[0] == 2 && Filled(3)[0] == 3 && Filled(4)[0] == 4 && Filled(5)[0] == 5;
    forall k | 0 <= k < 5 ensures Five()[k].root != ZERO_HASH { assert Five()[k].root[0] != ZERO_HASH[0]; }
  }

  lemma TwoCounts(direct: map<Hash, nat>)
    requires Weighs(direct, RootsIn(Five()), Two(5, 3, 4))
    ensures Counted(direct, RootsIn(Five()), TargetsOf(VotesOf(3)), WeightsIn(VotesOf(3)), VotesOf(3).Keys)
  {
    var t, roots, b := Five(), TargetsOf(VotesOf(3)), WeightsIn(VotesOf(3));
    DirectIsTwo();
    hide Filled, BalanceSum, Two, VotesOf;
    var d := DirectWeights(t, roots, b);
    forall k | 0 <= k < 5
      ensures WeightOf(direct, RootsIn(t)[k]) == BalanceSum(b, VotersIn(roots, VotesOf(3).Keys, RootsIn(t)[k])) % TWO_64
    {
      assert VotersIn(roots, VotesOf(3).Keys, t[k].root) == DirectVoters(roots, t[k].root);
      assert d[k] == BalanceSum(b, DirectVoters(roots, t[k].root));
    }
  }

  lemma MisledHead(blocks: map<Hash, LmdNode<Hash>>, order: seq<Hash>, direct: map<Hash, nat>) returns (head: Hash)
    requires WellFormed(Five()) && Admissible(blocks, order) && Weighs(direct, RootsIn(Five()), Two(5, 3, 4))
    requires forall h :: h in order ==> h in blocks
    requires LowHead(Five(), Passed(blocks, RootsIn(Five()), order, direct), 0) != 3
    ensures HeadInOrder(blocks, VotesOf(3), Five(), order, 0, head) && head != Filled(4)
  {
    TwoCounts(direct);
    hide Filled, Two, VotesOf, AfterPass, LowHead, Counted, Admissible, Weighs, ParentsFirst;
    var t, weights := Five(), AfterPass(blocks, order, direct);
    assert PassOf(blocks, VotesOf(3), t, order, direct, weights);
    assert Observed(t, weights) == Passed(blocks, RootsIn(t), order, direct);
    var k := LowHead(t, Observed(t, weights), 0);
    head := t[k].root;
    assert t[3].root == Filled(4) && t[k].root != t[3].root;
  }

  /** The proto-array takes the end of the chain. In some order by descending
      slot the map-based object takes another block, though no siblings tie and
      every vote names a known block. */
  lemma EqualSlotsMislead() returns (blocks: map<Hash, LmdNode<Hash>>, order: seq<Hash>, head: Hash)
    ensures var s := Start(Filled(1));
            var l, p := LmdFed(s, Items(), Unit()), ProtoFed(s, Items(), Unit());
            && WellFormed(l.tree) && l.tree != [] && VotesForKnown(s, Items(), Unit())
            && WellFormed(p.tree) && NoSiblingTies(p.tree, WrappedWeights(p)) && Known(p.tree, Filled(1))
            && Represents(blocks, RootsIn(l.tree), l.tree, FirstParent(Items())) && Admissible(blocks, order)
            && l.votes == MessagesIn(VotesOf(3)) && l.balances == WeightsIn(VotesOf(3))
            && HeadInOrder(blocks, VotesOf(3), l.tree, order, StartOf(l), head)
            && MachineHead(p) == Some(Filled(4)) && head != Filled(4)
  {
    hide LmdFed, ProtoFed, Items, Sums, LowHead, Represents, Filled, Passed, Two, HeadInOrder, Misplaced, VotesOf,
         FirstParent, VotesForKnown, NoSiblingTies, DirectWeights, MachineHead, UntiedWalk;
    var t, s := Five(), Start(Filled(1));
    FiveIsWellFormed();
    VotesTaken(3);
    assert Items()[..8] == Items();
    ItemsNameKnown();
    RuleWeightsAreSums();
    SiblingsDiffer();
    assert t[..5] == t;
    IndexIsUnique(t, Filled(1), 0);
    NoTiesNoneOnWalk(t, Sums(t, Two(5, 3, 4)), 0);
    SameFeedSameHead(Filled(1), Items(), Unit());
    RuleTakesTheChain();
    blocks := BlockMapExists(s, Items(), Unit());
    FirstParentOfItems();
    ChainIsMisplaced();
    BlocksAreKnown(blocks, t, ZERO_HASH, ZERO_HASH);
    order := MisplacedMisleads(blocks, RootsIn(t), t, ZERO_HASH, 0, 1, 3, 4);
    head := MisledHead(blocks, order, map[RootsIn(t)[3] := 2, RootsIn(t)[4] := 1]);
  }
}
