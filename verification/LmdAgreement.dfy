/** When the proto-array and the map-based fork choice, fed the same blocks and
    votes, return the same head. */
module LmdAgreement {
  import opened Collections
  import opened Hashes
  import opened GhostRule
  import opened ForkChoiceStores
  import opened ProtoArrays
  import opened ForkChoiceMachine
  import opened LmdRule
  import opened LmdForkChoice
  import opened LmdHeads
  import opened LmdStores

  lemma {:induction false} SameBalancesSameSum(b: Balances, c: Balances, s: set<nat>)
    requires forall v :: v in s ==> BalanceOf(b, v) == BalanceOf(c, v)
    ensures BalanceSum(b, s) == BalanceSum(c, s)
  {
    if s != {} {
      var v :| v in s;
      BalanceSumSplit(b, s, v);
      BalanceSumSplit(c, s, v);
      SameBalancesSameSum(b, c, s - {v});
    }
  }

  /** Same blocks up to their epochs, same votes, same balances of voters. */
  ghost predicate Matches(l: Store, s: Store) {
    && WellFormed(l.tree) && WellFormed(s.tree) && SameShape(l.tree, s.tree)
    && l.votes == s.votes
    && (forall v :: v in s.votes ==> BalanceOf(l.balances, v) == BalanceOf(s.balances, v))
    && l.justified.root == s.justified.root && s.justified.epoch == 0 && s.finalized.epoch == 0
  }

  lemma MatchingWeights(l: Store, s: Store)
    requires Matches(l, s)
    ensures WrappedWeights(l) == WrappedWeights(s)
  {
    hide BalanceSum, Supporters, ParentsFirst, DistinctRoots;
    forall k | 0 <= k < |s.tree| ensures WrappedWeights(l)[k] == WrappedWeights(s)[k] {
      var votes := VoteRoots(s.votes);
      SameShapeWeight(l.tree, s.tree, votes, s.balances, k);
      SupportersVote(l.tree, votes, k);
      SameBalancesSameSum(l.balances, s.balances, Supporters(l.tree, votes, k));
    }
  }

  lemma SupportersVote(t: Tree, votes: Votes, k: int)
    requires ParentsFirst(t)
    ensures Supporters(t, votes, k) <= votes.Keys
  {
  }

  lemma MatchingIndex(l: Store, s: Store, r: Hash)
    requires Matches(l, s)
    ensures IndexOf(l.tree, r) == IndexOf(s.tree, r)
  {
    if k :| 0 <= k < |s.tree| && s.tree[k].root == r {
      IndexIsUnique(s.tree, r, k);
      IndexIsUnique(l.tree, r, k);
    } else {
      forall k | 0 <= k < |l.tree| ensures l.tree[k].root != r { assert s.tree[k].root != r; }
    }
  }

  /** At no block of the walk two children tie for heaviest. */
  ghost predicate Untied(s: Store)
    requires WellFormed(s.tree) && s.tree != []
  {
    UntiedWalk(s.tree, WrappedWeights(s), StartOf(s))
  }

  lemma SameBlockSameRoot(t: Tree, a: int, b: int)
    requires DistinctRoots(t) && 0 <= a < |t| && 0 <= b < |t|
    ensures t[a].root == t[b].root <==> a == b
  {
  }

  /** When the justified block is there the rules of matching stores have the
      same head if and only if no tie lies on the walk; without it the
      proto-array has none. */
  lemma MatchingHeads(l: Store, s: Store)
    requires Matches(l, s)
    ensures !Known(s.tree, s.justified.root) ==> MachineHead(s) == None
    ensures Known(s.tree, s.justified.root) ==> (MachineHead(s) == Some(LmdHead(l)) <==> Untied(s))
  {
    hide LowHead, Head, VoteWeight, UntiedWalk, ParentsFirst, DistinctRoots;
    MatchingWeights(l, s);
    MatchingIndex(l, s, s.justified.root);
    var j := IndexOf(s.tree, s.justified.root);
    if j >= 0 {
      var w := WrappedWeights(s);
      RulesAgree(ScoredBy(s, w), j);
      SameShapeHead(l.tree, s.tree, w, j);
      SameBlockSameRoot(s.tree, Head(ScoredBy(s, w), j), LowHead(s.tree, w, j));
    }
  }

  // ----- the same feed -----

  datatype Feed =
    | NewBlock(slot: nat, root: Hash, parentRoot: Hash, justifiedEpoch: nat, finalizedEpoch: nat)
    | NewVote(validator: nat, target: Hash, epoch: nat)

  /** What the map-based object does with an item: a vote for an unknown block
      or older than the recorded one is refused. */
  ghost function LmdTake(l: Store, f: Feed, stake: nat -> nat): Store {
    match f
    case NewBlock(slot, root, parentRoot, je, fe) => Step(l, Call.OnBlock(slot, root, parentRoot, 0, 0))
    case NewVote(v, target, epoch) =>
      if !Known(l.tree, target) || (v in l.votes && l.votes[v].epoch > epoch) then l
      else Step(Step(l, Call.OnAttestation(v, target, epoch)), Call.SetBalance(v, stake(v)))
  }

  /** What the proto-array object does with it. */
  ghost function ProtoTake(s: Store, f: Feed, stake: nat -> nat): Store {
    match f
    case NewBlock(slot, root, parentRoot, je, fe) => Step(s, Call.OnBlock(slot, root, parentRoot, je, fe))
    case NewVote(v, target, epoch) => Step(Step(s, Call.SetBalance(v, stake(v))), Call.OnAttestation(v, target, epoch))
  }

  ghost function LmdFed(l: Store, feed: seq<Feed>, stake: nat -> nat): Store {
    if feed == [] then l else LmdTake(LmdFed(l, feed[..|feed| - 1], stake), feed[|feed| - 1], stake)
  }

  ghost function ProtoFed(s: Store, feed: seq<Feed>, stake: nat -> nat): Store {
    if feed == [] then s else ProtoTake(ProtoFed(s, feed[..|feed| - 1], stake), feed[|feed| - 1], stake)
  }

  /** Votes name blocks that are there when they arrive. */
  ghost predicate VotesForKnown(s: Store, feed: seq<Feed>, stake: nat -> nat) {
    forall i :: 0 <= i < |feed| && feed[i].NewVote? ==> Known(ProtoFed(s, feed[..i], stake).tree, feed[i].target)
  }

  ghost predicate StakesKept(l: Store, stake: nat -> nat) {
    && (forall v :: v in l.votes ==> v in l.balances)
    && (forall v :: v in l.balances ==> l.balances[v] == stake(v))
  }

  lemma MatchesBlock(l: Store, s: Store, f: Feed, stake: nat -> nat)
    requires Matches(l, s) && f.NewBlock?
    ensures Matches(LmdTake(l, f, stake), ProtoTake(s, f, stake))
  {
    hide WellFormed, SameShape, Known;
    MatchingKnown(l, s, f.root);
    MatchingKnown(l, s, f.parentRoot);
    StepKeepsWellFormed(l, Call.OnBlock(f.slot, f.root, f.parentRoot, 0, 0));
    StepKeepsWellFormed(s, Call.OnBlock(f.slot, f.root, f.parentRoot, f.justifiedEpoch, f.finalizedEpoch));
    SameShapeAppend(l.tree, s.tree, f);
  }

  lemma MatchingKnown(l: Store, s: Store, r: Hash)
    requires Matches(l, s)
    ensures Known(l.tree, r) <==> Known(s.tree, r)
    ensures IndexOf(l.tree, r) == IndexOf(s.tree, r)
  {
    MatchingIndex(l, s, r);
  }

  lemma SameShapeAppend(t: Tree, u: Tree, f: Feed)
    requires SameShape(t, u) && f.NewBlock?
    ensures |t| == |u|
    ensures forall p :: SameShape(t + [Block(f.slot, f.root, p, 0, 0)],
                                  u + [Block(f.slot, f.root, p, f.justifiedEpoch, f.finalizedEpoch)])
  {
  }

  lemma MatchesVote(l: Store, s: Store, f: Feed, stake: nat -> nat)
    requires Matches(l, s) && f.NewVote? && Known(s.tree, f.target)
    requires StakesKept(l, stake) && StakesKept(s, stake)
    ensures Matches(LmdTake(l, f, stake), ProtoTake(s, f, stake))
  {
    hide WellFormed, SameShape, Known;
    MatchingKnown(l, s, f.target);
  }

  lemma TakeKeepsStakes(l: Store, s: Store, f: Feed, stake: nat -> nat)
    requires StakesKept(l, stake) && StakesKept(s, stake)
    ensures StakesKept(LmdTake(l, f, stake), stake) && StakesKept(ProtoTake(s, f, stake), stake)
  {
    hide Known, IndexOf;
  }

  lemma {:induction false} FeedKeepsMatch(l: Store, s: Store, feed: seq<Feed>, stake: nat -> nat)
    requires Matches(l, s) && StakesKept(l, stake) && StakesKept(s, stake) && VotesForKnown(s, feed, stake)
    ensures Matches(LmdFed(l, feed, stake), ProtoFed(s, feed, stake))
    ensures StakesKept(LmdFed(l, feed, stake), stake) && StakesKept(ProtoFed(s, feed, stake), stake)
  {
    if feed != [] {
      hide Matches, StakesKept, Known, LmdTake, ProtoTake;
      var front, last := feed[..|feed| - 1], feed[|feed| - 1];
      forall i | 0 <= i < |front| ensures front[..i] == feed[..i] {}
      FeedKeepsMatch(l, s, front, stake);
      var a, b := LmdFed(l, front, stake), ProtoFed(s, front, stake);
      TakeKeepsStakes(a, b, last, stake);
      if last.NewBlock? { MatchesBlock(a, b, last, stake); } else { MatchesVote(a, b, last, stake); }
    }
  }

  // ----- what the feed says about slots -----

  /** The parent the first block names. */
  ghost function FirstParent(feed: seq<Feed>): Hash {
    if feed == [] then ZERO_HASH else if feed[0].NewBlock? then feed[0].parentRoot else FirstParent(feed[1..])
  }

  /** The walk over one-pass weights is never misled: the parent of the first
      block does not arrive, and blocks with a sibling are clean. */
  ghost predicate Unmisled(l: Store, feed: seq<Feed>) {
    l.tree != [] && ParentsFirst(l.tree) && !Known(l.tree, FirstParent(feed)) && Uncontested(l.tree, StartOf(l))
  }

  /** Every block is at a later slot than its parent. */
  ghost predicate LaterThanParents(feed: seq<Feed>) {
    forall i, j | 0 <= i < |feed| && 0 <= j < |feed| && feed[i].NewBlock? && feed[j].NewBlock? ::
      feed[j].parentRoot == feed[i].root ==> feed[i].slot < feed[j].slot
  }

  /** Item `i` brought block `k`. */
  ghost predicate Brought(feed: seq<Feed>, i: int, t: Tree, k: int)
    requires ParentsFirst(t) && 0 <= k < |t|
  {
    && 0 <= i < |feed| && feed[i].NewBlock? && feed[i].root == t[k].root && feed[i].slot == t[k].slot
    && feed[i].parentRoot == if t[k].parent < 0 then FirstParent(feed) else t[t[k].parent].root
  }

  ghost predicate WasBrought(feed: seq<Feed>, t: Tree, k: int)
    requires ParentsFirst(t) && 0 <= k < |t|
  {
    exists i :: Brought(feed, i, t, k)
  }

  ghost predicate AllBrought(feed: seq<Feed>, t: Tree)
    requires ParentsFirst(t)
  {
    && (forall k :: 0 <= k < |t| ==> WasBrought(feed, t, k))
    && (forall k :: 0 < k < |t| ==> t[k].parent >= 0)
    && (t == [] <==> forall i :: 0 <= i < |feed| ==> feed[i].NewVote?)
  }

  lemma {:induction false} FirstParentStays(feed: seq<Feed>, f: Feed)
    requires f.NewVote? || exists i :: 0 <= i < |feed| && feed[i].NewBlock?
    ensures FirstParent(feed + [f]) == FirstParent(feed)
  {
    var more := feed + [f];
    if feed == [] {
      assert more[1..] == [];
    } else if feed[0].NewVote? {
      assert more[1..] == feed[1..] + [f];
      if f.NewBlock? {
        var i :| 0 <= i < |feed| && feed[i].NewBlock?;
        assert feed[1..][i - 1].NewBlock?;
      }
      FirstParentStays(feed[1..], f);
    }
  }

  lemma {:induction false} FirstBlockSeen(feed: seq<Feed>, f: Feed)
    requires f.NewBlock? && forall i :: 0 <= i < |feed| ==> feed[i].NewVote?
    ensures FirstParent(feed + [f]) == f.parentRoot
  {
    if feed != [] {
      assert (feed + [f])[1..] == feed[1..] + [f];
      FirstBlockSeen(feed[1..], f);
    }
  }

  lemma BroughtStays(feed: seq<Feed>, f: Feed, t: Tree)
    requires ParentsFirst(t) && AllBrought(feed, t) && (f.NewVote? || t != [])
    ensures AllBrought(feed + [f], t)
  {
    var more := feed + [f];
    FirstParentStays(feed, f);
    forall i | 0 <= i < |feed| ensures more[i] == feed[i] {}
    assert more[|feed|] == f;
    forall k | 0 <= k < |t| ensures WasBrought(more, t, k) {
      assert WasBrought(feed, t, k);
      var i :| Brought(feed, i, t, k);
      assert Brought(more, i, t, k);
    }
  }

  lemma BroughtMore(feed: seq<Feed>, f: Feed, t: Tree, b: Block)
    requires ParentsFirst(t) && AllBrought(feed, t) && f.NewBlock? && b.root == f.root && b.slot == f.slot
    requires if t == [] then b.parent == -1 else 0 <= b.parent < |t| && t[b.parent].root == f.parentRoot
    ensures ParentsFirst(t + [b]) && AllBrought(feed + [f], t + [b])
  {
    var more, u := feed + [f], t + [b];
    forall i | 0 <= i < |feed| ensures more[i] == feed[i] {}
    assert more[|feed|] == f;
    if t == [] {
      FirstBlockSeen(feed, f);
    } else {
      FirstParentStays(feed, f);
    }
    assert Brought(more, |feed|, u, |t|);
    forall k | 0 <= k < |t| ensures WasBrought(more, u, k) {
      assert WasBrought(feed, t, k);
      var i :| Brought(feed, i, t, k);
      assert Brought(more, i, u, k);
    }
  }

  lemma {:induction false} TreeIsBrought(s: Store, feed: seq<Feed>, stake: nat -> nat)
    requires s.tree == []
    ensures ParentsFirst(LmdFed(s, feed, stake).tree) && AllBrought(feed, LmdFed(s, feed, stake).tree)
  {
    if feed != [] {
      hide AllBrought, Known;
      var front, f := feed[..|feed| - 1], feed[|feed| - 1];
      TreeIsBrought(s, front, stake);
      assert feed == front + [f];
      var l := LmdFed(s, front, stake);
      if f.NewBlock? && l.tree == [] { NoVerdictOnEmpty(l, f); }
      if f.NewBlock? && BlockVerdict(l, f.root, f.parentRoot).None? {
        var p := if l.tree == [] then -1 else IndexOf(l.tree, f.parentRoot);
        BroughtMore(front, f, l.tree, Block(f.slot, f.root, p, 0, 0));
      } else {
        if f.NewVote? { VotesLeaveTree(l, f, stake); }
        BroughtStays(front, f, l.tree);
      }
    }
  }

  lemma NoVerdictOnEmpty(l: Store, f: Feed)
    requires f.NewBlock? && l.tree == []
    ensures BlockVerdict(l, f.root, f.parentRoot).None?
  {
  }

  lemma {:induction false} SlotsRise(feed: seq<Feed>, t: Tree, k: int)
    requires ParentsFirst(t) && AllBrought(feed, t) && LaterThanParents(feed) && 0 <= k < |t|
    ensures t[0].slot <= t[k].slot
    ensures t[k].parent >= 0 ==> t[t[k].parent].slot < t[k].slot
    decreases k
  {
    hide FirstParent;
    if k > 0 {
      var p := t[k].parent;
      SlotsRise(feed, t, p);
      assert WasBrought(feed, t, p) && WasBrought(feed, t, k);
      var i :| Brought(feed, i, t, p);
      var j :| Brought(feed, j, t, k);
      assert feed[j].parentRoot == feed[i].root;
    }
  }

  lemma IsNotFirstParent(feed: seq<Feed>, t: Tree, k: int)
    requires ParentsFirst(t) && AllBrought(feed, t) && LaterThanParents(feed) && 0 <= k < |t|
    ensures t[k].root != FirstParent(feed)
  {
    hide FirstParent;
    SlotsRise(feed, t, k);
    assert WasBrought(feed, t, k) && WasBrought(feed, t, 0);
    var i :| Brought(feed, i, t, k);
    var j :| Brought(feed, j, t, 0);
  }

  lemma NoneEarly(feed: seq<Feed>, t: Tree, h: int)
    requires ParentsFirst(t) && AllBrought(feed, t) && LaterThanParents(feed)
    ensures !Early(t, h)
  {
    hide AllBrought, LaterThanParents;
    if 0 <= h < |t| { SlotsRise(feed, t, h); }
  }

  /** Later slots than the parents' keep the walk from being misled. */
  lemma LaterIsUnmisled(s: Store, feed: seq<Feed>, stake: nat -> nat)
    requires s.tree == [] && LaterThanParents(feed) && LmdFed(s, feed, stake).tree != []
    ensures Unmisled(LmdFed(s, feed, stake), feed)
  {
    TreeIsBrought(s, feed, stake);
    hide LmdFed, FirstParent, Ancestor, AllBrought, LaterThanParents, Early;
    var t := LmdFed(s, feed, stake).tree;
    forall h ensures !Early(t, h) { NoneEarly(feed, t, h); }
    forall k | 0 <= k < |t| ensures t[k].root != FirstParent(feed) { IsNotFirstParent(feed, t, k); }
  }

  // ----- both objects driven by one feed -----

  ghost function Start(root: Hash): Store {
    Fresh(Checkpoint(0, root), Checkpoint(0, ZERO_HASH))
  }

  lemma OneMoreItem(s: Store, feed: seq<Feed>, stake: nat -> nat, i: nat)
    requires i < |feed|
    ensures LmdFed(s, feed[..i + 1], stake) == LmdTake(LmdFed(s, feed[..i], stake), feed[i], stake)
    ensures ProtoFed(s, feed[..i + 1], stake) == ProtoTake(ProtoFed(s, feed[..i], stake), feed[i], stake)
  {
    assert feed[..i + 1][..i] == feed[..i];
  }

  lemma NothingFed(s: Store, stake: nat -> nat)
    ensures LmdFed(s, [], stake) == s && ProtoFed(s, [], stake) == s
  {
  }

  /** The first block settles the parent of the first block. */
  lemma NextFirstParent(s: Store, feed: seq<Feed>, stake: nat -> nat, i: nat)
    requires s.tree == [] && i < |feed|
    ensures var l := LmdFed(s, feed[..i], stake);
            && (l.tree != [] ==> FirstParent(feed[..i + 1]) == FirstParent(feed[..i]))
            && (l.tree == [] && feed[i].NewBlock? ==> FirstParent(feed[..i + 1]) == feed[i].parentRoot)
  {
    TreeIsBrought(s, feed[..i], stake);
    hide LmdFed, FirstParent, Brought;
    assert feed[..i + 1] == feed[..i] + [feed[i]];
    if LmdFed(s, feed[..i], stake).tree != [] {
      FirstParentStays(feed[..i], feed[i]);
    } else if feed[i].NewBlock? {
      FirstBlockSeen(feed[..i], feed[i]);
    }
  }

  lemma VotesLeaveTree(l: Store, f: Feed, stake: nat -> nat)
    requires f.NewVote?
    ensures LmdTake(l, f, stake).tree == l.tree
  {
    hide Known;
  }

  /** One item to the map-based object. */
  method GiveLmd(l: LmdGhostForkChoice, f: Feed, stake: nat -> nat)
    requires l.Valid()
    modifies l
    ensures l.Valid() && l.View() == LmdTake(old(l.View()), f, stake)
    ensures l.rootParent == if f.NewBlock? && old(l.tree) == [] then f.parentRoot else old(l.rootParent)
  {
    hide WellFormed, Represents;
    if f.NewBlock? {
      if l.tree == [] { NoVerdictOnEmpty(l.View(), f); }
      var err := l.OnBlock(f.root, f.parentRoot, f.slot);
    } else {
      var err := l.ProcessAttestation(f.validator, f.target, f.epoch, stake(f.validator));
    }
  }

  /** One item to the proto-array. */
  method GiveProto(p: ForkChoiceV2, f: Feed, stake: nat -> nat)
    requires p.Valid() && p.pruneCount == 0 && |p.nodes| < INVALID
    modifies p
    ensures p.Valid() && p.View() == ProtoTake(old(p.View()), f, stake)
    ensures p.pruneCount == 0 && |p.nodes| <= |old(p.nodes)| + 1
  {
    hide Layout, IndexesNodes;
    if f.NewBlock? {
      var err := p.OnBlock(f.slot, f.root, f.parentRoot, f.justifiedEpoch, f.finalizedEpoch);
      assert |p.nodes| == |p.View().tree|;
    } else {
      p.SetBalance(f.validator, stake(f.validator));
      p.OnAttestation(f.validator, f.target, f.epoch);
    }
  }

  /** A feed that brings the justified block, with votes for known blocks, gives
      both rules the same head if and only if no tie lies on the walk. */
  lemma SameFeedSameHead(root: Hash, feed: seq<Feed>, stake: nat -> nat)
    requires VotesForKnown(Start(root), feed, stake)
    ensures var l, p := LmdFed(Start(root), feed, stake), ProtoFed(Start(root), feed, stake);
            && WellFormed(l.tree) && WellFormed(p.tree) && (Known(l.tree, root) <==> Known(p.tree, root))
            && (!Known(p.tree, root) ==> MachineHead(p) == None)
            && (Known(p.tree, root) ==> (MachineHead(p) == Some(LmdHead(l)) <==> Untied(p)))
  {
    hide LmdFed, ProtoFed, Untied, LmdHead, MachineHead, VotesForKnown, Known;
    var s := Start(root);
    assert Matches(s, s) && StakesKept(s, stake);
    FeedKeepsMatch(s, s, feed, stake);
    var l, p := LmdFed(s, feed, stake), ProtoFed(s, feed, stake);
    MatchingHeads(l, p);
    MatchingKnown(l, p, root);
    JustifiedStays(s, feed, stake);
  }

  lemma {:induction false} JustifiedStays(s: Store, feed: seq<Feed>, stake: nat -> nat)
    ensures LmdFed(s, feed, stake).justified == s.justified && ProtoFed(s, feed, stake).justified == s.justified
  {
    hide Known, IndexOf;
    if feed != [] { JustifiedStays(s, feed[..|feed| - 1], stake); }
  }

  /** The heads the two objects return after the same feed. When the justified
      block is there, votes name known blocks and the walk is not misled, they
      are equal if and only if no tie lies on the walk. */
  method HeadsAfter(root: Hash, feed: seq<Feed>, stake: nat -> nat)
    returns (a: Result<Hash, LmdError>, b: Result<Hash, HeadError>)
    requires |feed| < INVALID
    ensures var l, p := LmdFed(Start(root), feed, stake), ProtoFed(Start(root), feed, stake);
            && WellFormed(p.tree) && (b.Ok? <==> Known(p.tree, root))
            && (Unmisled(l, feed) ==> (a.Ok? <==> Known(l.tree, root) || l.tree[0].root != ZERO_HASH))
            && (VotesForKnown(Start(root), feed, stake) && Unmisled(l, feed) && Known(p.tree, root) ==>
                  a.Ok? && b.Ok? && (a.value == b.value <==> Untied(p)))
  {
    hide LmdFed, ProtoFed, LmdTake, ProtoTake, WellFormed, Layout, IndexesNodes, Represents, FirstParent, VotesForKnown,
         Uncontested, Known, HeadInOrder, Untied;
    var l := new LmdGhostForkChoice(root);
    var p := new ForkChoiceV2(Checkpoint(0, root), Checkpoint(0, ZERO_HASH));
    NothingFed(Start(root), stake);
    assert feed[..0] == [];
    for i := 0 to |feed|
      invariant l.Valid() && l.View() == LmdFed(Start(root), feed[..i], stake)
      invariant p.Valid() && p.View() == ProtoFed(Start(root), feed[..i], stake)
      invariant p.pruneCount == 0 && |p.nodes| <= i
      invariant l.tree != [] ==> l.rootParent == FirstParent(feed[..i])
      invariant fresh(l) && fresh(p)
    {
      OneMoreItem(Start(root), feed, stake, i);
      NextFirstParent(Start(root), feed, stake, i);
      if feed[i].NewVote? { VotesLeaveTree(l.View(), feed[i], stake); }
      GiveLmd(l, feed[i], stake);
      GiveProto(p, feed[i], stake);
    }
    assert feed[..|feed|] == feed;
    JustifiedStays(Start(root), feed, stake);
    ghost var ls, ps := l.View(), p.View();
    var reorg;
    a, reorg := l.GetHead();
    b := p.GetHead();
    if VotesForKnown(Start(root), feed, stake) { SameFeedSameHead(root, feed, stake); }
  }
}
