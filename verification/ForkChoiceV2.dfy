/** The fork choice object over the proto-array: every call refines a step of
    the abstract store, and `GetHead` returns the head of that store. */
module ForkChoiceMachine {
  import opened Collections
  import opened Hashes
  import opened GhostRule
  import opened ForkChoiceStores
  import opened ProtoArrays

  // ----- weights and pointers together -----

  lemma DirectWeightsAt(nodes: Nodes, r: Nodes, off: nat, votes: Votes, b: Balances)
    requires WeighsVotes(nodes, r, votes, b, votes.Keys)
    ensures SameBlocks(nodes, r)
    ensures forall k :: 0 <= k < |r| ==> r[k].weight == DirectWeights(TreeOf(nodes, off), votes, b)[k] % TWO_64
  {
    hide BalanceSum;
    forall k | 0 <= k < |r| ensures r[k].weight == DirectWeights(TreeOf(nodes, off), votes, b)[k] % TWO_64 {
      assert VotersIn(votes, votes.Keys, nodes[k].root) == DirectVoters(votes, nodes[k].root);
    }
  }

  /** Recomputes all weights and pointers from the votes. */
  method PropagateWeights(nodes: Nodes, off: nat, indexMap: map<Hash, nat>, votes: map<nat, Vote>, b: Balances,
                          justified: Checkpoint, finalized: Checkpoint) returns (r: Nodes)
    requires Layout(nodes, off) && IndexesNodes(indexMap, nodes, off)
    ensures SameBlocks(nodes, r) && Layout(r, off)
    ensures WellFormed(TreeOf(r, off))
    ensures forall k :: 0 <= k < |r| ==>
                          r[k].weight == VoteWeight(TreeOf(nodes, off), CurrentRoots(votes), b, k) % TWO_64
    ensures AllPoint(ScoredNodes(r, off, justified, finalized), off, 0, r)
  {
    hide Layout, IndexesNodes, WeighsVotes, AllPoint, SubtreeSum, DirectWeights, VoteWeight, ScoredNodes;
    ghost var t, roots := TreeOf(nodes, off), CurrentRoots(votes);
    LayoutIsTree(nodes, off);
    var cleared := ClearWeights(nodes);
    SameBlocksSameTree(nodes, cleared, off);
    SameIndex(nodes, cleared, off, indexMap);
    var direct := AddVotes(cleared, off, indexMap, votes, b);
    ghost var d := DirectWeights(t, roots, b);
    assert roots.Keys == votes.Keys;
    DirectWeightsAt(cleared, direct, off, roots, b);
    SameBlocksSameTree(cleared, direct, off);
    DirectWeightsLength(t, roots, b);
    assert TreeOf(cleared, off) == t && TreeOf(direct, off) == t;
    var summed := PassWeights(direct, off, d);
    SameBlocksSameTree(direct, summed, off);
    forall k | 0 <= k < |summed| ensures summed[k].weight == VoteWeight(t, roots, b, k) % TWO_64 {
      SumIsVoteWeight(t, roots, b, k);
    }
    r := RebuildPointers(summed, off, justified, finalized);
    SameScores(summed, r, off, justified, finalized);
    SameBlocksTransitive(nodes, cleared, direct);
    SameBlocksTransitive(nodes, direct, summed);
    SameBlocksTransitive(nodes, summed, r);
    SameBlocksSameTree(summed, r, off);
    forall k | 0 <= k < |r| ensures r[k].weight == summed[k].weight { assert WeightsOf(r)[k] == WeightsOf(summed)[k]; }
  }

  lemma DirectWeightsLength(t: Tree, votes: Votes, b: Balances)
    ensures |DirectWeights(t, votes, b)| == |t|
  {
  }

  lemma SameIndex(a: Nodes, b: Nodes, off: nat, indexMap: map<Hash, nat>)
    requires SameBlocks(a, b) && IndexesNodes(indexMap, a, off)
    ensures IndexesNodes(indexMap, b, off)
  {
    hide Indexes;
    assert RootsOf(a) == RootsOf(b);
  }

  // ----- the walk over the pointers -----

  /** Best-child pointers lead to later nodes. */
  ghost predicate PointersAscend(nodes: Nodes, off: nat) {
    forall k :: 0 <= k < |nodes| && LocalIndex(off, nodes[k].bestChild) < |nodes| ==>
                  k < LocalIndex(off, nodes[k].bestChild)
  }

  /** The root the walk from an absolute index returns. */
  ghost function PointerWalk(nodes: Nodes, off: nat, justified: Checkpoint, finalized: Checkpoint, abs: nat)
    : Option<Hash>
    requires PointersAscend(nodes, off)
    decreases if LocalIndex(off, abs) < |nodes| then |nodes| - LocalIndex(off, abs) else 0
  {
    var li := LocalIndex(off, abs);
    if li >= |nodes| then None
    else if LeafViable(nodes, off, justified, finalized, nodes[li]) then
      Some(nodes[LocalIndex(off, nodes[li].bestDescendant)].root)
    else
      var c := LocalIndex(off, nodes[li].bestChild);
      if nodes[li].bestChild == INVALID || c >= |nodes| || !NodeViable(nodes[c], justified, finalized) then
        Some(nodes[li].root)
      else PointerWalk(nodes, off, justified, finalized, nodes[li].bestChild)
  }

  method WalkPointers(nodes: Nodes, off: nat, justified: Checkpoint, finalized: Checkpoint, start: nat)
    returns (r: Option<Hash>)
    requires PointersAscend(nodes, off)
    ensures r == PointerWalk(nodes, off, justified, finalized, start)
  {
    var best := start;
    while true
      invariant PointerWalk(nodes, off, justified, finalized, best) ==
                PointerWalk(nodes, off, justified, finalized, start)
      decreases if LocalIndex(off, best) < |nodes| then |nodes| - LocalIndex(off, best) else 0
    {
      var li := LocalIndex(off, best);
      if li >= |nodes| {
        return None;
      }
      var node := nodes[li];
      if node.bestDescendant != INVALID {
        var d := LocalIndex(off, node.bestDescendant);
        if d < |nodes| && NodeViable(nodes[d], justified, finalized) {
          return Some(nodes[d].root);
        }
      }
      if node.bestChild == INVALID {
        return Some(node.root);
      }
      var c := LocalIndex(off, node.bestChild);
      if c >= |nodes| || !NodeViable(nodes[c], justified, finalized) {
        return Some(node.root);
      }
      best := node.bestChild;
    }
  }

  /** Rebuilt pointers lead to later nodes. */
  lemma RebuiltPointersAscend(v: Scored, nodes: Nodes, off: nat, justified: Checkpoint, finalized: Checkpoint)
    requires Layout(nodes, off) && v == ScoredNodes(nodes, off, justified, finalized) && AllPoint(v, off, 0, nodes)
    ensures PointersAscend(nodes, off)
  {
    hide Head, Open;
    forall k | 0 <= k < |nodes| && LocalIndex(off, nodes[k].bestChild) < |nodes|
      ensures k < LocalIndex(off, nodes[k].bestChild)
    {
      assert PointsAt(v, off, 0, k, nodes[k]);
      assert nodes[k].bestChild != INVALID;
    }
  }

  /** The walk jumps to a viable best descendant, and stays where there is no
      best child. */
  lemma WalkEnds(nodes: Nodes, off: nat, justified: Checkpoint, finalized: Checkpoint, k: nat)
    requires PointersAscend(nodes, off) && k < |nodes|
    ensures LeafViable(nodes, off, justified, finalized, nodes[k]) ==>
              PointerWalk(nodes, off, justified, finalized, off + k) ==
              Some(nodes[LocalIndex(off, nodes[k].bestDescendant)].root)
    ensures !LeafViable(nodes, off, justified, finalized, nodes[k]) && nodes[k].bestChild == INVALID ==>
              PointerWalk(nodes, off, justified, finalized, off + k) == Some(nodes[k].root)
  {
  }

  /** On rebuilt pointers the walk from a block returns where the rule's walk
      from that block ends. */
  lemma PointerWalkIsHead(v: Scored, nodes: Nodes, off: nat, justified: Checkpoint, finalized: Checkpoint, k: int)
    requires Layout(nodes, off) && v == ScoredNodes(nodes, off, justified, finalized) && PointersAscend(nodes, off)
    requires 0 <= k < |nodes| && PointsAt(v, off, 0, k, nodes[k])
    ensures PointerWalk(nodes, off, justified, finalized, off + k) == Some(v.tree[Head(v, k)].root)
  {
    hide Layout, ScoredNodes, Head, Open, OpenChild, PointersAscend, NodeViable, Ancestor, PointerWalk, BestFrom;
    NodeAt(v, nodes, off, justified, finalized, k);
    WalkEnds(nodes, off, justified, finalized, k);
    if HasOpenFrom(v, k, 0) {
      var c :| 0 <= c < |v.tree| && BestFrom(v, k, 0, c) && nodes[k].bestDescendant == off + Head(v, c);
      BestIsOpen(v, k, c);
      HeadStep(v, k, c);
      HeadIsViable(v, c);
      NodeAt(v, nodes, off, justified, finalized, Head(v, c));
    } else {
      NoOpenChild(v, k);
      HeadStops(v, k);
    }
  }

  lemma BestIsOpen(v: Scored, k: int, c: int)
    requires WellScored(v) && BestFrom(v, k, 0, c)
    ensures Best(v, k, c) && Open(v, c)
  {
  }

  lemma NoOpenChild(v: Scored, k: int)
    requires WellScored(v) && !HasOpenFrom(v, k, 0)
    ensures forall c :: !OpenChild(v, k, c)
  {
    forall c ensures OpenChild(v, k, c) ==> HasOpenFrom(v, k, 0) {}
  }

  // ----- votes -----

  ghost function PendingVotes(votes: map<nat, Vote>): map<nat, LatestVote> {
    map v | v in votes :: LatestVote(votes[v].nextRoot, votes[v].nextEpoch)
  }

  /** The votes once those of `done` have been made current. */
  ghost predicate Applied(votes: map<nat, Vote>, r: map<nat, Vote>, done: set<nat>) {
    && r.Keys == votes.Keys
    && (forall v :: v in votes ==>
          r[v] == if v in done then Vote(votes[v].nextRoot, votes[v].nextEpoch, votes[v].nextRoot, votes[v].nextEpoch)
                  else votes[v])
  }

  lemma AllApplied(votes: map<nat, Vote>, r: map<nat, Vote>)
    requires Applied(votes, r, votes.Keys)
    ensures PendingVotes(r) == PendingVotes(votes) && CurrentRoots(r) == VoteRoots(PendingVotes(votes))
  {
  }

  lemma ApplyOne(votes: map<nat, Vote>, r: map<nat, Vote>, done: set<nat>, v: nat)
    requires Applied(votes, r, done) && v in votes && v !in done
    ensures v in r
    ensures Applied(votes, r[v := Vote(r[v].nextRoot, r[v].nextEpoch, r[v].nextRoot, r[v].nextEpoch)], done + {v})
    ensures r[v].currentRoot == r[v].nextRoot && r[v].currentEpoch == r[v].nextEpoch ==> Applied(votes, r, done + {v})
  {
    var vote := r[v];
    if vote.currentRoot == vote.nextRoot && vote.currentEpoch == vote.nextEpoch {
      assert vote == Vote(vote.nextRoot, vote.nextEpoch, vote.nextRoot, vote.nextEpoch);
    }
  }

  lemma NothingApplied(votes: map<nat, Vote>)
    ensures Applied(votes, votes, {})
  {
  }

  /** Makes every pending vote current. */
  method ApplyVoteDeltas(votes: map<nat, Vote>) returns (r: map<nat, Vote>)
    ensures PendingVotes(r) == PendingVotes(votes) && CurrentRoots(r) == VoteRoots(PendingVotes(votes))
  {
    hide Applied, PendingVotes, CurrentRoots, VoteRoots;
    r := votes;
    var keys := Enumerate(votes.Keys);
    ghost var done: set<nat> := {};
    NothingApplied(votes);
    for i := 0 to |keys|
      invariant done == Elems(keys[..i]) && Applied(votes, r, done)
    {
      var v := keys[i];
      assert v in Elems(keys);
      ApplyOne(votes, r, done, v);
      var vote := r[v];
      if !(vote.currentRoot == vote.nextRoot && vote.currentEpoch == vote.nextEpoch) {
        r := r[v := Vote(vote.nextRoot, vote.nextEpoch, vote.nextRoot, vote.nextEpoch)];
      }
      done := done + {v};
    }
    assert keys[..|keys|] == keys;
    AllApplied(votes, r);
  }

  // ----- the object -----

  /** The index map finds exactly the known blocks, at their positions. */
  lemma IndexIsKnown(nodes: Nodes, off: nat, indexMap: map<Hash, nat>, root: Hash)
    requires Layout(nodes, off) && IndexesNodes(indexMap, nodes, off)
    ensures root in indexMap <==> Known(TreeOf(nodes, off), root)
    ensures root in indexMap ==> indexMap[root] == off + IndexOf(TreeOf(nodes, off), root)
  {
    hide Layout, IndexesNodes;
    var t := TreeOf(nodes, off);
    IndexNames(nodes, off, indexMap, root);
    LayoutIsTree(nodes, off);
    if root in indexMap {
      IndexIsUnique(t, root, LocalIndex(off, indexMap[root]));
    }
  }

  lemma AppendLayout(nodes: Nodes, off: nat, node: ProtoNode)
    requires Layout(nodes, off) && off + |nodes| < INVALID
    requires forall k :: 0 <= k < |nodes| ==> nodes[k].root != node.root
    requires if nodes == [] then node.parent == INVALID else off <= node.parent < off + |nodes|
    ensures Layout(nodes + [node], off)
    ensures TreeOf(nodes + [node], off) == TreeOf(nodes, off) + [BlockOf(off, node)]
  {
    var r := nodes + [node];
    forall k | 0 <= k < |nodes| ensures r[k] == nodes[k] {}
    assert r[|nodes|] == node;
  }

  lemma AppendKey<K(!new)>(m: map<K, nat>, keys: seq<K>, off: nat, h: K)
    requires Indexes(m, keys, off) && h !in m
    ensures Indexes(m[h := off + |keys|], keys + [h], off)
  {
  }

  lemma AppendIndex(nodes: Nodes, off: nat, indexMap: map<Hash, nat>, node: ProtoNode)
    requires IndexesNodes(indexMap, nodes, off) && node.root !in indexMap
    ensures IndexesNodes(indexMap[node.root := off + |nodes|], nodes + [node], off)
    ensures forall k :: 0 <= k < |nodes| ==> nodes[k].root != node.root
  {
    hide Indexes;
    AppendKey(indexMap, RootsOf(nodes), off, node.root);
    assert RootsOf(nodes + [node]) == RootsOf(nodes) + [node.root];
    IndexNames(nodes, off, indexMap, node.root);
  }

  ghost function Cut(nodes: Nodes, m: nat): (r: Nodes)
    requires m < |nodes|
    ensures |r| == |nodes| - m && r[0] == nodes[m].(parent := INVALID)
    ensures forall k :: 0 < k < |r| ==> r[k] == nodes[k + m]
  {
    nodes[m..][0 := nodes[m].(parent := INVALID)]
  }

  lemma CutLayout(nodes: Nodes, off: nat, m: nat)
    requires Layout(nodes, off) && 0 < m < |nodes|
    ensures Layout(Cut(nodes, m), off + m)
    ensures TreeOf(Cut(nodes, m), off + m) == Dropped(TreeOf(nodes, off), m)
  {
    hide Cut;
    var r := Cut(nodes, m);
    forall k | 1 <= k < |r| ensures r[k].parent < off + m + k { assert r[k] == nodes[k + m]; }
    forall i, j | 0 <= i < j < |r| ensures r[i].root != r[j].root {
      assert nodes[i + m].root != nodes[j + m].root;
    }
    forall k | 0 <= k < |r| ensures BlockOf(off + m, r[k]) == Dropped(TreeOf(nodes, off), m)[k] {
      assert TreeOf(nodes, off)[k + m] == BlockOf(off, nodes[k + m]);
    }
  }

  /** `r` is `m` without the entries before position `cut`. */
  ghost predicate Tail<K(!new)>(m: map<K, nat>, r: map<K, nat>, cut: nat) {
    && (forall h :: h in r <==> h in m && m[h] >= cut)
    && (forall h :: h in r ==> r[h] == m[h])
  }

  lemma TailShrinks<K(!new)>(m: map<K, nat>, r: map<K, nat>, keys: seq<K>, off: nat, i: nat)
    requires Indexes(m, keys, off) && i < |keys| && Tail(m, r, off + i)
    ensures Tail(m, r - {keys[i]}, off + i + 1)
  {
  }

  lemma TailIndexes<K(!new)>(m: map<K, nat>, r: map<K, nat>, keys: seq<K>, off: nat, n: nat)
    requires Indexes(m, keys, off) && n <= |keys| && Tail(m, r, off + n)
    ensures Indexes(r, keys[n..], off + n)
  {
  }

  lemma TailStarts<K(!new)>(m: map<K, nat>, keys: seq<K>, off: nat)
    requires Indexes(m, keys, off)
    ensures Tail(m, m, off)
  {
  }

  /** Takes the roots of the first `n` nodes out of the index. */
  method RemoveRoots(indexMap: map<Hash, nat>, nodes: Nodes, n: nat, ghost off: nat) returns (r: map<Hash, nat>)
    requires IndexesNodes(indexMap, nodes, off) && n < |nodes|
    ensures IndexesNodes(r, Cut(nodes, n), off + n)
  {
    hide Indexes, Tail, Cut;
    r := indexMap;
    ghost var roots := RootsOf(nodes);
    TailStarts(indexMap, roots, off);
    for i := 0 to n
      invariant Tail(indexMap, r, off + i)
    {
      TailShrinks(indexMap, r, roots, off, i);
      r := r - {nodes[i].root};
    }
    TailIndexes(indexMap, r, roots, off, n);
    assert RootsOf(Cut(nodes, n)) == roots[n..];
  }

  lemma AllPointAt(v: Scored, off: nat, nodes: Nodes, k: int)
    requires WellScored(v) && AllPoint(v, off, 0, nodes) && 0 <= k < |nodes|
    ensures PointsAt(v, off, 0, k, nodes[k])
  {
  }

  /** With weights and pointers up to date, the walk finds the store's head. */
  lemma HeadFound(nodes: Nodes, off: nat, s: Store, abs: nat)
    requires Layout(nodes, off) && TreeOf(nodes, off) == s.tree && WellFormed(s.tree)
    requires forall k :: 0 <= k < |nodes| ==>
                           nodes[k].weight == VoteWeight(s.tree, VoteRoots(s.votes), s.balances, k) % TWO_64
    requires AllPoint(ScoredNodes(nodes, off, s.justified, s.finalized), off, 0, nodes)
    requires off <= abs < off + |nodes| && nodes[abs - off].root == s.justified.root
    ensures PointersAscend(nodes, off)
    ensures PointerWalk(nodes, off, s.justified, s.finalized, abs) == MachineHead(s)
  {
    hide AllPoint, VoteWeight, Head, PointersAscend, PointerWalk, Layout;
    var v := ScoredNodes(nodes, off, s.justified, s.finalized);
    RebuiltPointersAscend(v, nodes, off, s.justified, s.finalized);
    assert PointsAt(v, off, 0, abs - off, nodes[abs - off]) by { AllPointAt(v, off, nodes, abs - off); }
    PointerWalkIsHead(v, nodes, off, s.justified, s.finalized, abs - off);
    IndexIsUnique(s.tree, s.justified.root, abs - off);
    assert v.weight == WrappedWeights(s);
    assert v.viable == ViableBlocks(s);
  }

  datatype HeadError = NoViableHead

  class ForkChoiceV2 {
    var nodes: Nodes
    var indexMap: map<Hash, nat>
    var pruneCount: nat
    var votes: map<nat, Vote>
    var balances: Balances
    var justified: Checkpoint
    var finalized: Checkpoint

    ghost predicate Valid()
      reads this
    {
      Layout(nodes, pruneCount) && IndexesNodes(indexMap, nodes, pruneCount)
    }

    /** The store this object stands for. */
    ghost function View(): Store
      reads this
    {
      Store(TreeOf(nodes, pruneCount), PendingVotes(votes), balances, justified, finalized)
    }

    constructor (justified: Checkpoint, finalized: Checkpoint)
      ensures Valid() && View() == Fresh(justified, finalized) && pruneCount == 0
    {
      nodes, indexMap, pruneCount := [], map[], 0;
      votes, balances := map[], map[];
      this.justified, this.finalized := justified, finalized;
    }

    method SetBalance(v: nat, balance: nat)
      requires Valid()
      modifies this`balances
      ensures Valid() && View() == Step(old(View()), Call.SetBalance(v, balance))
      ensures balances == old(balances)[v := balance]
    {
      balances := balances[v := balance];
    }

    method OnBlock(slot: nat, root: Hash, parentRoot: Hash, justifiedEpoch: nat, finalizedEpoch: nat)
      returns (err: Option<BlockError>)
      requires Valid() && pruneCount + |nodes| < INVALID
      modifies this`nodes, this`indexMap
      ensures Valid()
      ensures err == if Known(old(View()).tree, root) then Some(DuplicateBlock)
                     else if old(View()).tree != [] && !Known(old(View()).tree, parentRoot) then Some(UnknownParent)
                     else None
      ensures err.Some? ==> View() == old(View())
      ensures err.None? ==> var t, was := View().tree, old(View()).tree;
                            && |t| == |was| + 1 && t[..|was|] == was
                            && t[|was|] == Block(slot, root, t[|was|].parent, justifiedEpoch, finalizedEpoch)
                            && if was == [] then t[|was|].parent == -1
                               else 0 <= t[|was|].parent < |was| && was[t[|was|].parent].root == parentRoot
      ensures View() == Step(old(View()), Call.OnBlock(slot, root, parentRoot, justifiedEpoch, finalizedEpoch))
    {
      hide Offer, Layout, IndexesNodes, SameBlocks;
      IndexIsKnown(nodes, pruneCount, indexMap, root);
      IndexIsKnown(nodes, pruneCount, indexMap, parentRoot);
      if root in indexMap {
        return Some(DuplicateBlock);
      }
      var parentIdx := INVALID;
      if |nodes| > 0 {
        if parentRoot !in indexMap {
          return Some(UnknownParent);
        }
        IndexNames(nodes, pruneCount, indexMap, parentRoot);
        parentIdx := indexMap[parentRoot];
      }
      var nodeIdx := |nodes| + pruneCount;
      var node := ProtoNode(slot, root, parentIdx, justifiedEpoch, finalizedEpoch, 0, INVALID, INVALID);
      AppendIndex(nodes, pruneCount, indexMap, node);
      AppendLayout(nodes, pruneCount, node);
      nodes := nodes + [node];
      indexMap := indexMap[root := nodeIdx];
      if parentIdx != INVALID {
        ghost var before := nodes;
        nodes := MaybeUpdateBest(nodes, pruneCount, justified, finalized, parentIdx, nodeIdx);
        OfferKeepsBlocks(before, pruneCount, justified, finalized, parentIdx, nodeIdx);
        SameBlocksSameTree(before, nodes, pruneCount);
        SameIndex(before, nodes, pruneCount, indexMap);
      }
      return None;
    }

    method OnAttestation(v: nat, root: Hash, epoch: nat)
      requires Valid()
      modifies this`votes
      ensures Valid() && View() == Step(old(View()), Call.OnAttestation(v, root, epoch))
    {
      if v !in votes {
        votes := votes[v := Vote(ZERO_HASH, 0, root, epoch)];
        return;
      }
      if epoch >= votes[v].nextEpoch {
        votes := votes[v := votes[v].(nextRoot := root, nextEpoch := epoch)];
      }
    }

    method UpdateJustifiedCheckpoint(cp: Checkpoint)
      requires Valid()
      modifies this`justified
      ensures Valid() && View() == Step(old(View()), UpdateJustified(cp))
      ensures justified.epoch >= cp.epoch && (justified == old(justified) || justified == cp)
      ensures justified != old(justified) <==> cp.epoch > old(justified).epoch
    {
      if cp.epoch > justified.epoch {
        justified := cp;
      }
    }

    method UpdateFinalizedCheckpoint(cp: Checkpoint)
      requires Valid()
      modifies this`finalized
      ensures Valid() && View() == Step(old(View()), UpdateFinalized(cp))
      ensures finalized.epoch >= cp.epoch && (finalized == old(finalized) || finalized == cp)
      ensures finalized != old(finalized) <==> cp.epoch > old(finalized).epoch
    {
      if cp.epoch > finalized.epoch {
        finalized := cp;
      }
    }

    method Prune(finalizedRoot: Hash) returns (n: nat)
      requires Valid()
      modifies this`nodes, this`indexMap, this`pruneCount
      ensures Valid() && View() == Step(old(View()), Call.Prune(finalizedRoot))
      ensures n == |old(nodes)| - |nodes|
    {
      hide Layout, IndexesNodes, TreeOf, Dropped;
      IndexIsKnown(nodes, pruneCount, indexMap, finalizedRoot);
      IndexNames(nodes, pruneCount, indexMap, finalizedRoot);
      if finalizedRoot !in indexMap {
        return 0;
      }
      var m := LocalIndex(pruneCount, indexMap[finalizedRoot]);
      if m == 0 {
        return 0;
      }
      indexMap := RemoveRoots(indexMap, nodes, m, pruneCount);
      CutLayout(nodes, pruneCount, m);
      nodes := nodes[m..];
      pruneCount := pruneCount + m;
      if |nodes| > 0 {
        nodes := nodes[0 := nodes[0].(parent := INVALID)];
      }
      return m;
    }

    method GetHead() returns (r: Result<Hash, HeadError>)
      requires Valid()
      modifies this`nodes, this`votes
      ensures Valid() && View() == Step(old(View()), Call.GetHead)
      ensures WellFormed(old(View()).tree)
      ensures r == match MachineHead(old(View())) case Some(h) => Ok(h) case None => Err(NoViableHead)
    {
      hide AllPoint, VoteWeight, Head, PointersAscend, ScoredNodes;
      LayoutIsTree(nodes, pruneCount);
      IndexIsKnown(nodes, pruneCount, indexMap, justified.root);
      if |nodes| == 0 {
        return Err(NoViableHead);
      }
      ghost var s := View();
      votes := ApplyVoteDeltas(votes);
      ghost var before := nodes;
      nodes := PropagateWeights(nodes, pruneCount, indexMap, votes, balances, justified, finalized);
      SameBlocksSameTree(before, nodes, pruneCount);
      SameIndex(before, nodes, pruneCount, indexMap);
      if justified.root !in indexMap {
        return Err(NoViableHead);
      }
      HeadFound(nodes, pruneCount, s, indexMap[justified.root]);
      var h := WalkPointers(nodes, pruneCount, justified, finalized, indexMap[justified.root]);
      return match h case Some(x) => Ok(x) case None => Err(NoViableHead);
    }
  }
}
