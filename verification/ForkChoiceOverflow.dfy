/** How 64-bit weights bear on the head: it is the LMD-GHOST head after every run
    exactly as long as the balances add up to less than 2^64. */
module ForkChoiceOverflow {
  import opened Collections
  import opened Hashes
  import opened GhostRule
  import opened ForkChoiceStores

  ghost function BalanceTotal(s: Store): nat {
    BalanceSum(s.balances, s.balances.Keys)
  }

  /** Whatever the calls were, if the balances they leave add up to less than
      2^64 the head is the LMD-GHOST head. */
  lemma RunHeadIsGhost(justified: Checkpoint, finalized: Checkpoint, calls: seq<Call>)
    requires BalanceTotal(Run(Fresh(justified, finalized), calls)) < TWO_64
    ensures var s := Run(Fresh(justified, finalized), calls); WellFormed(s.tree) && MachineHead(s) == GhostHead(s)
  {
    hide Run, BalanceSum, MachineHead, GhostHead;
    var s := Run(Fresh(justified, finalized), calls);
    assert WellFormed(Fresh(justified, finalized).tree);
    RunKeepsWellFormed(Fresh(justified, finalized), calls);
    forall k | 0 <= k < |s.tree| && s.tree[k].parent < 0
      ensures VoteWeight(s.tree, VoteRoots(s.votes), s.balances, k) < TWO_64
    {
      OnlyBalancesCount(s.balances, Supporters(s.tree, VoteRoots(s.votes), k));
    }
    HeadIsGhostWhenWeightsFit(s);
  }

  /** Validators without a balance add nothing. */
  lemma OnlyBalancesCount(b: Balances, s: set<nat>)
    ensures BalanceSum(b, s) <= BalanceSum(b, b.Keys)
  {
    var known := s * b.Keys;
    assert s == known + (s - known);
    BalanceSumUnion(b, known, s - known);
    NoBalanceNoSum(b, s - known);
    BalanceSumMonotone(b, known, b.Keys);
  }

  lemma {:induction false} NoBalanceNoSum(b: Balances, s: set<nat>)
    requires s !! b.Keys
    ensures BalanceSum(b, s) == 0
  {
    if s != {} {
      var v :| v in s;
      BalanceSumSplit(b, s, v);
      NoBalanceNoSum(b, s - {v});
    }
  }

  // ----- a run whose head wraps -----

  ghost function Filled(x: byte): Hash {
    seq(32, _ => x)
  }

  /** A block with two viable leaves: the one that beats the other is the head. */
  lemma ForkHead(v: Scored, c: int, d: int)
    requires WellScored(v) && |v.tree| == 3 && v.viable == [true, true, true]
    requires v.tree[0].parent == -1 && v.tree[1].parent == 0 && v.tree[2].parent == 0
    requires (c == 1 && d == 2) || (c == 2 && d == 1)
    requires Beats(v, c, d)
    ensures Head(v, 0) == c
  {
    forall k | 0 <= k < 3 ensures Open(v, k) { assert ViableBelow(v, k, k); }
    assert OpenChild(v, 0, c);
    assert Best(v, 0, c);
    HeadStep(v, 0, c);
    HeadStops(v, c);
  }

  ghost function ForkTree(): Tree {
    [Block(0, Filled(0), -1, 0, 0), Block(1, Filled(1), 0, 0, 0), Block(2, Filled(2), 0, 0, 0)]
  }

  lemma ForkTreeIsWellFormed()
    ensures WellFormed(ForkTree())
  {
    var t := ForkTree();
    assert Filled(0)[0] == 0 && Filled(1)[0] == 1 && Filled(2)[0] == 2;
    forall i, j | 0 <= i < j < |t| ensures t[i].root != t[j].root {
      assert t[i].root[0] != t[j].root[0];
    }
  }

  const VOTES: map<nat, LatestVote> :=
    map[0 := LatestVote(seq(32, _ => 1), 0), 1 := LatestVote(seq(32, _ => 1), 0), 2 := LatestVote(seq(32, _ => 2), 0)]
  const BALANCES: Balances := map[0 := TWO_63, 1 := TWO_63, 2 := 0]

  lemma ForkWeights()
    requires WellFormed(ForkTree())
    ensures VoteWeight(ForkTree(), VoteRoots(VOTES), BALANCES, 1) == TWO_64
    ensures VoteWeight(ForkTree(), VoteRoots(VOTES), BALANCES, 2) == 0
  {
    var t, votes := ForkTree(), VoteRoots(VOTES);
    assert votes[0] == Filled(1) && votes[1] == Filled(1) && votes[2] == Filled(2);
    assert Filled(1)[0] == 1 && Filled(2)[0] == 2;
    assert t[1].root == Filled(1) && t[2].root == Filled(2);
    assert Ancestor(t, 1, 1) && Ancestor(t, 2, 2);
    assert !Ancestor(t, 1, 0) && !Ancestor(t, 2, 0) && !Ancestor(t, 1, 2) && !Ancestor(t, 2, 1);
    assert Supporters(t, votes, 1) == {0, 1};
    assert Supporters(t, votes, 2) == {2};
    BalanceSumSplit(BALANCES, {0, 1}, 0);
    assert {0, 1} - {0} == {1};
    BalanceSumSplit(BALANCES, {1}, 1);
    assert {1} - {1} == {};
    BalanceSumSplit(BALANCES, {2}, 2);
    assert {2} - {2} == {};
  }

  ghost function Genesis(): Checkpoint {
    Checkpoint(0, Filled(0))
  }

  /** Three blocks, three balances, three votes. */
  ghost function OverflowCalls(): seq<Call> {
    [OnBlock(0, Filled(0), ZERO_HASH, 0, 0), OnBlock(1, Filled(1), Filled(0), 0, 0),
     OnBlock(2, Filled(2), Filled(0), 0, 0)]
    + [SetBalance(0, TWO_63), SetBalance(1, TWO_63), SetBalance(2, 0)]
    + [OnAttestation(0, Filled(1), 0), OnAttestation(1, Filled(1), 0), OnAttestation(2, Filled(2), 0)]
  }

  lemma {:induction false} RunConcat(s: Store, a: seq<Call>, b: seq<Call>)
    ensures Run(s, a + b) == Run(Run(s, a), b)
  {
    hide Step;
    if b == [] {
      assert a + b == a;
    } else {
      RunConcat(s, a, b[..|b| - 1]);
      assert (a + b)[..|a + b| - 1] == a + b[..|b| - 1];
    }
  }

  lemma RunThree(s: Store, a: Call, b: Call, c: Call)
    ensures Run(s, [a, b, c]) == Step(Step(Step(s, a), b), c)
  {
    hide Step;
    assert [a, b, c][..2] == [a, b] && [a, b][..1] == [a] && [a][..0] == [];
    assert Run(s, [a]) == Step(s, a);
    assert Run(s, [a, b]) == Step(Step(s, a), b);
  }

  lemma FilledDiffer(x: byte, y: byte)
    requires x != y
    ensures Filled(x) != Filled(y)
  {
    assert Filled(x)[0] == x && Filled(y)[0] == y;
  }

  /** A new root under a known block goes to the end of the tree. */
  lemma BlockGoesLast(s: Store, slot: nat, root: Hash, parentRoot: Hash, p: int)
    requires s.tree != [] && DistinctRoots(s.tree) && 0 <= p < |s.tree| && s.tree[p].root == parentRoot
    requires forall k :: 0 <= k < |s.tree| ==> s.tree[k].root != root
    ensures Step(s, OnBlock(slot, root, parentRoot, 0, 0)) == s.(tree := s.tree + [Block(slot, root, p, 0, 0)])
  {
    IndexIsUnique(s.tree, parentRoot, p);
  }

  lemma FirstBlockArrives(s: Store, slot: nat, root: Hash, parentRoot: Hash)
    requires s.tree == []
    ensures Step(s, OnBlock(slot, root, parentRoot, 0, 0)) == s.(tree := [Block(slot, root, -1, 0, 0)])
  {
  }

  lemma ForkArrives(s: Store, p: Hash, q: Hash, r: Hash)
    requires s.tree == [] && p != q && p != r && q != r
    ensures Step(Step(Step(s, OnBlock(0, p, ZERO_HASH, 0, 0)), OnBlock(1, q, p, 0, 0)), OnBlock(2, r, p, 0, 0)) ==
            s.(tree := [Block(0, p, -1, 0, 0), Block(1, q, 0, 0, 0), Block(2, r, 0, 0, 0)])
  {
    hide Step;
    var one := s.(tree := [Block(0, p, -1, 0, 0)]);
    var two := s.(tree := [Block(0, p, -1, 0, 0), Block(1, q, 0, 0, 0)]);
    FirstBlockArrives(s, 0, p, ZERO_HASH);
    BlockGoesLast(one, 1, q, p, 0);
    assert one.tree + [Block(1, q, 0, 0, 0)] == two.tree;
    BlockGoesLast(two, 2, r, p, 0);
  }

  lemma FirstCalls()
    ensures OverflowCalls()[..3] ==
            [OnBlock(0, Filled(0), ZERO_HASH, 0, 0), OnBlock(1, Filled(1), Filled(0), 0, 0),
             OnBlock(2, Filled(2), Filled(0), 0, 0)]
  {
    hide Filled;
  }

  lemma BlocksArrive()
    ensures Run(Fresh(Genesis(), Genesis()), OverflowCalls()[..3]) ==
            Store(ForkTree(), map[], map[], Genesis(), Genesis())
  {
    FilledDiffer(0, 1);
    FilledDiffer(0, 2);
    FilledDiffer(1, 2);
    hide Filled, Run, Step, OverflowCalls;
    FirstCalls();
    var s := Fresh(Genesis(), Genesis());
    RunThree(s, OnBlock(0, Filled(0), ZERO_HASH, 0, 0), OnBlock(1, Filled(1), Filled(0), 0, 0),
             OnBlock(2, Filled(2), Filled(0), 0, 0));
    ForkArrives(s, Filled(0), Filled(1), Filled(2));
  }

  lemma BalancesAndVotesArrive(s: Store)
    requires s.votes == map[] && s.balances == map[]
    ensures Run(s, OverflowCalls()[3..]) == s.(votes := VOTES, balances := BALANCES)
  {
    hide Run;
    var balances, votes := OverflowCalls()[3..6], OverflowCalls()[6..];
    assert OverflowCalls()[3..] == balances + votes;
    RunConcat(s, balances, votes);
    RunThree(s, SetBalance(0, TWO_63), SetBalance(1, TWO_63), SetBalance(2, 0));
    var mid := s.(balances := BALANCES);
    assert Run(s, balances) == mid;
    RunThree(mid, OnAttestation(0, Filled(1), 0), OnAttestation(1, Filled(1), 0), OnAttestation(2, Filled(2), 0));
  }

  lemma ForkStoreHeads(s: Store)
    requires s == Store(ForkTree(), VOTES, BALANCES, Genesis(), Genesis())
    ensures WellFormed(s.tree) && MachineHead(s) == Some(Filled(2)) && GhostHead(s) == Some(Filled(1))
  {
    ForkTreeIsWellFormed();
    ForkWeights();
    assert Above(Filled(2), Filled(1)) by { assert AboveAt(Filled(2), Filled(1), 0); }
    hide VoteWeight, Head, WellFormed, Filled, Above;
    IndexIsUnique(s.tree, Filled(0), 0);
    assert ViableBlocks(s) == [true, true, true];
    ForkHead(ScoredBy(s, TrueWeights(s)), 1, 2);
    ForkHead(ScoredBy(s, WrappedWeights(s)), 2, 1);
  }

  /** A run whose head moves: two validators of 2^63 vote for one leaf, one
      without a balance for the other. The rule takes the first leaf; in 64 bits
      both weigh nothing, and the second has the higher root. */
  lemma OverflowMovesHead()
    ensures var s := Run(Fresh(Genesis(), Genesis()), OverflowCalls());
            && WellFormed(s.tree) && MachineHead(s) == Some(Filled(2)) && GhostHead(s) == Some(Filled(1))
            && Filled(1) != Filled(2) && s.balances == BALANCES
  {
    hide Run, WellFormed, MachineHead, GhostHead, OverflowCalls, ForkTree;
    var s, calls := Fresh(Genesis(), Genesis()), OverflowCalls();
    assert calls == calls[..3] + calls[3..] by { CallCount(); }
    RunConcat(s, calls[..3], calls[3..]);
    BlocksArrive();
    BalancesAndVotesArrive(Run(s, calls[..3]));
    ForkStoreHeads(Run(s, calls));
    FilledDiffer(1, 2);
  }

  lemma OverflowTotal()
    ensures BalanceSum(BALANCES, BALANCES.Keys) == TWO_64
  {
    assert BALANCES.Keys == {0, 1, 2};
    BalanceSumSplit(BALANCES, {0, 1, 2}, 0);
    assert {0, 1, 2} - {0} == {1, 2};
    BalanceSumSplit(BALANCES, {1, 2}, 1);
    assert {1, 2} - {1} == {2};
    BalanceSumSplit(BALANCES, {2}, 2);
    assert {2} - {2} == {};
  }

  // ----- the exact bound -----

  ghost predicate HeadIsGhost(s: Store) {
    WellFormed(s.tree) && MachineHead(s) == GhostHead(s)
  }

  /** After every run whose balances add up to at most `total` the head is the
      LMD-GHOST head. */
  ghost predicate AlwaysGhost(total: nat) {
    forall justified, finalized, calls | BalanceTotal(Run(Fresh(justified, finalized), calls)) <= total ::
      HeadIsGhost(Run(Fresh(justified, finalized), calls))
  }

  /** Which is the case if and only if `total` is below 2^64. */
  lemma HeadIsGhostExactlyBelow(total: nat)
    ensures AlwaysGhost(total) <==> total < TWO_64
  {
    hide Run, BalanceSum, MachineHead, GhostHead, WellFormed;
    if total < TWO_64 {
      forall justified, finalized, calls | BalanceTotal(Run(Fresh(justified, finalized), calls)) <= total
        ensures HeadIsGhost(Run(Fresh(justified, finalized), calls))
      {
        RunHeadIsGhost(justified, finalized, calls);
      }
    } else {
      OverflowMovesHead();
      OverflowTotal();
      assert !HeadIsGhost(Run(Fresh(Genesis(), Genesis()), OverflowCalls()));
    }
  }

  lemma CallCount()
    ensures |OverflowCalls()| == 9
  {
  }
}
