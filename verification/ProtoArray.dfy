/** The proto-array: blocks in a flat array with absolute indices, weights
    passed up in one reverse sweep, best-child and best-descendant pointers
    rebuilt in another, and pruning that shifts the offset. */
module ProtoArrays {
  import opened Collections
  import opened Hashes
  import opened GhostRule
  import opened ForkChoiceStores

  /** The sentinel for an unset index: the largest `uint64`. */
  const INVALID: nat := TWO_64 - 1

  datatype ProtoNode = ProtoNode(
    slot: nat,
    root: Hash,
    parent: nat,
    justifiedEpoch: nat,
    finalizedEpoch: nat,
    weight: nat,
    bestChild: nat,
    bestDescendant: nat)

  type Nodes = seq<ProtoNode>

  /** A validator's vote: the one already counted and the one pending. */
  datatype Vote = Vote(currentRoot: Hash, currentEpoch: nat, nextRoot: Hash, nextEpoch: nat)

  ghost function CurrentRoots(votes: map<nat, Vote>): Votes {
    map v | v in votes :: votes[v].currentRoot
  }

  /** An absolute index as a position in the array; pruned indices are invalid. */
  function LocalIndex(off: nat, abs: nat): nat {
    if abs < off then INVALID else abs - off
  }

  predicate NodeViable(n: ProtoNode, justified: Checkpoint, finalized: Checkpoint) {
    Viable(n.justifiedEpoch, n.finalizedEpoch, justified, finalized)
  }

  // ----- layout -----

  /** Parents come first, and only the first node has no parent index. */
  ghost predicate Layout(nodes: Nodes, off: nat) {
    && off + |nodes| <= INVALID
    && (nodes != [] ==> nodes[0].parent == INVALID)
    && (forall k :: 1 <= k < |nodes| ==> nodes[k].parent < off + k)
    && (forall i, j :: 0 <= i < j < |nodes| ==> nodes[i].root != nodes[j].root)
  }

  ghost function LocalParent(off: nat, parent: nat): int {
    if parent == INVALID || parent < off then -1 else parent - off
  }

  ghost function BlockOf(off: nat, n: ProtoNode): Block {
    Block(n.slot, n.root, LocalParent(off, n.parent), n.justifiedEpoch, n.finalizedEpoch)
  }

  /** The block tree the array stands for. */
  ghost function TreeOf(nodes: Nodes, off: nat): Tree {
    seq(|nodes|, k requires 0 <= k < |nodes| => BlockOf(off, nodes[k]))
  }

  lemma LayoutIsTree(nodes: Nodes, off: nat)
    requires Layout(nodes, off)
    ensures WellFormed(TreeOf(nodes, off))
  {
  }

  ghost function WeightsOf(nodes: Nodes): seq<nat> {
    seq(|nodes|, k requires 0 <= k < |nodes| => nodes[k].weight)
  }

  ghost function ViableOf(nodes: Nodes, justified: Checkpoint, finalized: Checkpoint): seq<bool> {
    seq(|nodes|, k requires 0 <= k < |nodes| => NodeViable(nodes[k], justified, finalized))
  }

  ghost function ScoredNodes(nodes: Nodes, off: nat, justified: Checkpoint, finalized: Checkpoint): (v: Scored)
    requires Layout(nodes, off)
    ensures WellScored(v) && |v.tree| == |nodes|
  {
    LayoutIsTree(nodes, off);
    Scored(TreeOf(nodes, off), WeightsOf(nodes), ViableOf(nodes, justified, finalized))
  }

  /** The two arrays differ at most in weights and pointers. */
  ghost predicate SameBlocks(a: Nodes, b: Nodes) {
    && |a| == |b|
    && (forall k :: 0 <= k < |a| ==>
          b[k] == a[k].(weight := b[k].weight, bestChild := b[k].bestChild, bestDescendant := b[k].bestDescendant))
  }

  lemma SameBlocksSameTree(a: Nodes, b: Nodes, off: nat)
    requires SameBlocks(a, b) && Layout(a, off)
    ensures Layout(b, off) && TreeOf(a, off) == TreeOf(b, off)
  {
    assert forall k :: 0 <= k < |a| ==> BlockOf(off, a[k]) == BlockOf(off, b[k]);
  }

  // ----- weights -----

  method ClearWeights(nodes: Nodes) returns (r: Nodes)
    ensures |r| == |nodes| && forall k :: 0 <= k < |nodes| ==> r[k] == nodes[k].(weight := 0)
  {
    r := nodes;
    for i := 0 to |r|
      invariant |r| == |nodes|
      invariant forall k :: 0 <= k < i ==> r[k] == nodes[k].(weight := 0)
      invariant forall k :: i <= k < |nodes| ==> r[k] == nodes[k]
    {
      r := r[i := r[i].(weight := 0)];
    }
  }

  /** `m` maps exactly the given keys to their absolute positions. */
  ghost predicate Indexes<K(!new)>(m: map<K, nat>, keys: seq<K>, off: nat) {
    && (forall k :: 0 <= k < |keys| ==> keys[k] in m && m[keys[k]] == off + k)
    && (forall h :: h in m ==> off <= m[h] < off + |keys| && keys[m[h] - off] == h)
  }

  ghost function RootsOf(nodes: Nodes): seq<Hash> {
    seq(|nodes|, k requires 0 <= k < |nodes| => nodes[k].root)
  }

  ghost predicate IndexesNodes(indexMap: map<Hash, nat>, nodes: Nodes, off: nat) {
    Indexes(indexMap, RootsOf(nodes), off)
  }

  ghost predicate WeighsVotes(nodes: Nodes, r: Nodes, votes: Votes, b: Balances, done: set<nat>) {
    && |r| == |nodes|
    && (forall k :: 0 <= k < |nodes| ==>
          r[k] == nodes[k].(weight := BalanceSum(b, VotersIn(votes, done, nodes[k].root)) % TWO_64))
  }

  /** Node `li` is the one the root names; none when `li` is past the end. */
  ghost predicate Names(nodes: Nodes, root: Hash, li: nat) {
    forall k :: 0 <= k < |nodes| ==> (nodes[k].root == root <==> k == li)
  }

  lemma IndexFinds<K(!new)>(m: map<K, nat>, keys: seq<K>, off: nat, h: K)
    requires Indexes(m, keys, off)
    ensures h !in m ==> forall k :: 0 <= k < |keys| ==> keys[k] != h
    ensures h in m ==>
              var li := LocalIndex(off, m[h]);
              li < |keys| && off + li == m[h] && forall k :: 0 <= k < |keys| ==> (keys[k] == h <==> k == li)
  {
  }

  lemma IndexNames(nodes: Nodes, off: nat, indexMap: map<Hash, nat>, root: Hash)
    requires IndexesNodes(indexMap, nodes, off)
    ensures root !in indexMap ==> Names(nodes, root, |nodes|)
    ensures root in indexMap ==>
              var li := LocalIndex(off, indexMap[root]);
              li < |nodes| && off + li == indexMap[root] && Names(nodes, root, li)
  {
    hide Indexes;
    IndexFinds(indexMap, RootsOf(nodes), off, root);
    forall k | 0 <= k < |nodes| ensures nodes[k].root == RootsOf(nodes)[k] {}
  }

  /** One validator's vote added to the node it names, if the node is there. */
  lemma VoteCounted(nodes: Nodes, r: Nodes, votes: Votes, b: Balances, done: set<nat>, v: nat, li: nat)
    requires WeighsVotes(nodes, r, votes, b, done) && v !in done && v in votes && Names(nodes, votes[v], li)
    ensures var after := if li < |r| then r[li := r[li].(weight := (r[li].weight + BalanceOf(b, v)) % TWO_64)] else r;
            WeighsVotes(nodes, after, votes, b, done + {v})
  {
    hide BalanceSum, VotersIn;
    forall k | 0 <= k < |nodes|
      ensures BalanceSum(b, VotersIn(votes, done + {v}, nodes[k].root)) ==
              BalanceSum(b, VotersIn(votes, done, nodes[k].root))
              + if k == li then BalanceOf(b, v) else 0
    {
      VotersInGrow(votes, b, done, v, nodes[k].root);
    }
    if li < |r| { AddWrapped(BalanceSum(b, VotersIn(votes, done, nodes[li].root)), BalanceOf(b, v)); }
  }

  /** Direct votes, validators taken in any order. */
  method AddVotes(nodes: Nodes, off: nat, indexMap: map<Hash, nat>, votes: map<nat, Vote>, b: Balances)
    returns (r: Nodes)
    requires Layout(nodes, off) && IndexesNodes(indexMap, nodes, off)
    requires forall k :: 0 <= k < |nodes| ==> nodes[k].weight == 0
    ensures WeighsVotes(nodes, r, CurrentRoots(votes), b, votes.Keys)
  {
    hide Layout, IndexesNodes, WeighsVotes, BalanceSum, Names;
    ghost var roots := CurrentRoots(votes);
    r := nodes;
    assert WeighsVotes(nodes, r, roots, b, {}) by { NoVotesYet(nodes, roots, b); }
    var keys := Enumerate(votes.Keys);
    ghost var done: set<nat> := {};
    for i := 0 to |keys|
      invariant done == Elems(keys[..i]) && |r| == |nodes|
      invariant WeighsVotes(nodes, r, roots, b, done)
    {
      var v := keys[i];
      assert v in Elems(keys);
      var root := votes[v].currentRoot;
      IndexNames(nodes, off, indexMap, root);
      if root in indexMap {
        var li := LocalIndex(off, indexMap[root]);
        VoteCounted(nodes, r, roots, b, done, v, li);
        if li < |r| {
          r := r[li := r[li].(weight := (r[li].weight + BalanceOf(b, v)) % TWO_64)];
        }
      } else {
        VoteCounted(nodes, r, roots, b, done, v, |nodes|);
      }
      done := done + {v};
    }
    assert keys[..|keys|] == keys;
  }

  lemma NoVotesYet(nodes: Nodes, votes: Votes, b: Balances)
    requires forall k :: 0 <= k < |nodes| ==> nodes[k].weight == 0
    ensures WeighsVotes(nodes, nodes, votes, b, {})
  {
    forall k | 0 <= k < |nodes| ensures BalanceSum(b, VotersIn(votes, {}, nodes[k].root)) == 0 {
      assert VotersIn(votes, {}, nodes[k].root) == {};
    }
  }

  /** Weights after the blocks in `done` have passed theirs up. */
  ghost predicate Passed(nodes: Nodes, r: Nodes, t: Tree, d: seq<nat>, done: set<int>)
    requires ParentsFirst(t) && |d| == |t|
  {
    && |r| == |nodes| == |t|
    && (forall k :: 0 <= k < |nodes| ==> r[k] == nodes[k].(weight := ReachedSum(t, d, done, k, |t|) % TWO_64))
  }

  lemma PassUp(nodes: Nodes, r: Nodes, off: nat, d: seq<nat>, done: set<int>, i: int)
    requires Layout(nodes, off) && WellFormed(TreeOf(nodes, off)) && |d| == |nodes|
    requires Passed(nodes, r, TreeOf(nodes, off), d, done)
    requires 0 <= i < |nodes| && forall j :: j in done ==> i < j
    ensures var p := LocalIndex(off, nodes[i].parent);
            if nodes[i].parent != INVALID && p < |r| then
              Passed(nodes, r[p := r[p].(weight := (r[p].weight + r[i].weight) % TWO_64)],
                     TreeOf(nodes, off), d, done + {i})
            else Passed(nodes, r, TreeOf(nodes, off), d, done + {i})
  {
    hide ReachedSum;
    var t := TreeOf(nodes, off);
    var q := t[i].parent;
    if q < 0 {
      forall k | 0 <= k < |t| ensures ReachedSum(t, d, done + {i}, k, |t|) == ReachedSum(t, d, done, k, |t|) {
        RootPassesNothing(t, d, done, i, k, |t|);
      }
    } else {
      assert q < i;
      forall k | 0 <= k < |t|
        ensures ReachedSum(t, d, done + {i}, k, |t|) ==
                ReachedSum(t, d, done, k, |t|) + if k == q then ReachedSum(t, d, done, i, |t|) else 0
      {
        PassSum(t, d, done, i, k, |t|);
      }
      AddWrapped(ReachedSum(t, d, done, q, |t|), ReachedSum(t, d, done, i, |t|));
    }
  }

  /** The reverse sweep that adds each node's weight to its parent's. */
  method PassWeights(nodes: Nodes, off: nat, ghost d: seq<nat>) returns (r: Nodes)
    requires Layout(nodes, off) && WellFormed(TreeOf(nodes, off)) && |d| == |nodes|
    requires forall k :: 0 <= k < |nodes| ==> nodes[k].weight == d[k] % TWO_64
    ensures |r| == |nodes|
    ensures forall k :: 0 <= k < |nodes| ==>
                          r[k] == nodes[k].(weight := SubtreeSum(TreeOf(nodes, off), d, k, |nodes|) % TWO_64)
  {
    hide Passed, Layout, ParentsFirst, DistinctRoots;
    ghost var t := TreeOf(nodes, off);
    ghost var done: set<int> := {};
    r := nodes;
    assert Passed(nodes, r, t, d, done) by { NothingPassedYet(nodes, off, d); }
    var i := |r| - 1;
    while i >= 1
      invariant |nodes| == 0 ==> i == -1
      invariant |nodes| > 0 ==> 0 <= i < |nodes|
      invariant forall j :: j in done <==> i < j < |nodes|
      invariant |r| == |nodes| && SameParents(nodes, r) && Passed(nodes, r, t, d, done)
    {
      PassUp(nodes, r, off, d, done, i);
      if r[i].parent != INVALID {
        var p := LocalIndex(off, r[i].parent);
        if p < |r| {
          r := r[p := r[p].(weight := (r[p].weight + r[i].weight) % TWO_64)];
        }
      }
      done := done + {i};
      i := i - 1;
      PassedShape(nodes, r, t, d, done);
    }
    EverythingPassed(nodes, r, off, d, done);
  }

  ghost predicate SameParents(a: Nodes, b: Nodes) {
    |a| == |b| && forall k :: 0 <= k < |a| ==> a[k].parent == b[k].parent
  }

  lemma PassedShape(nodes: Nodes, r: Nodes, t: Tree, d: seq<nat>, done: set<int>)
    requires ParentsFirst(t) && |d| == |t| && Passed(nodes, r, t, d, done)
    ensures SameParents(nodes, r)
  {
  }

  lemma NothingPassedYet(nodes: Nodes, off: nat, d: seq<nat>)
    requires WellFormed(TreeOf(nodes, off)) && |d| == |nodes|
    requires forall k :: 0 <= k < |nodes| ==> nodes[k].weight == d[k] % TWO_64
    ensures Passed(nodes, nodes, TreeOf(nodes, off), d, {})
  {
    forall k | 0 <= k < |nodes|
      ensures ReachedSum(TreeOf(nodes, off), d, {}, k, |nodes|) == d[k]
    {
      NothingPassed(TreeOf(nodes, off), d, k, |nodes|);
    }
  }

  lemma EverythingPassed(nodes: Nodes, r: Nodes, off: nat, d: seq<nat>, done: set<int>)
    requires Layout(nodes, off) && WellFormed(TreeOf(nodes, off)) && |d| == |nodes|
    requires Passed(nodes, r, TreeOf(nodes, off), d, done) && forall j :: 0 < j < |nodes| ==> j in done
    ensures forall k :: 0 <= k < |nodes| ==>
                          r[k] == nodes[k].(weight := SubtreeSum(TreeOf(nodes, off), d, k, |nodes|) % TWO_64)
  {
    hide ReachedSum, SubtreeSum;
    var t := TreeOf(nodes, off);
    forall k | 0 <= k < |nodes| ensures ReachedSum(t, d, done, k, |t|) == SubtreeSum(t, d, k, |t|) {
      AllPassed(t, d, done, k, |t|);
    }
  }

  // ----- pointers -----

  method ClearPointers(nodes: Nodes) returns (r: Nodes)
    ensures |r| == |nodes|
    ensures forall k :: 0 <= k < |nodes| ==> r[k] == nodes[k].(bestChild := INVALID, bestDescendant := INVALID)
  {
    r := nodes;
    var i := |r| - 1;
    while i >= 0
      invariant -1 <= i < |nodes| && |r| == |nodes|
      invariant forall k :: 0 <= k <= i ==> r[k] == nodes[k]
      invariant forall k :: i < k < |nodes| ==> r[k] == nodes[k].(bestChild := INVALID, bestDescendant := INVALID)
    {
      r := r[i := r[i].(bestChild := INVALID, bestDescendant := INVALID)];
      i := i - 1;
    }
  }

  ghost predicate Heavier(a: ProtoNode, b: ProtoNode) {
    a.weight > b.weight || (a.weight == b.weight && Above(a.root, b.root))
  }

  /** The child's best descendant is present and viable. */
  predicate LeafViable(nodes: Nodes, off: nat, justified: Checkpoint, finalized: Checkpoint, child: ProtoNode) {
    && child.bestDescendant != INVALID
    && LocalIndex(off, child.bestDescendant) < |nodes|
    && NodeViable(nodes[LocalIndex(off, child.bestDescendant)], justified, finalized)
  }

  /** The array after `child` has been offered to `parent` as best child. */
  ghost function Offer(nodes: Nodes, off: nat, justified: Checkpoint, finalized: Checkpoint, parentAbs: nat,
                       childAbs: nat)
    : (r: Nodes)
    ensures SameBlocks(nodes, r)
  {
    var p, c := LocalIndex(off, parentAbs), LocalIndex(off, childAbs);
    if p >= |nodes| || c >= |nodes| then nodes
    else
      var leaf := LeafViable(nodes, off, justified, finalized, nodes[c]);
      if !leaf && !NodeViable(nodes[c], justified, finalized) then nodes
      else
        var b := LocalIndex(off, nodes[p].bestChild);
        if nodes[p].bestChild == INVALID || b >= |nodes| || Heavier(nodes[c], nodes[b]) then
          nodes[p := nodes[p].(bestChild := childAbs,
                               bestDescendant := if leaf then nodes[c].bestDescendant else childAbs)]
        else nodes
  }

  /** `maybeUpdateBestChildAndDescendant`. */
  method MaybeUpdateBest(nodes: Nodes, off: nat, justified: Checkpoint, finalized: Checkpoint,
                         parentAbs: nat, childAbs: nat) returns (r: Nodes)
    ensures r == Offer(nodes, off, justified, finalized, parentAbs, childAbs)
  {
    r := nodes;
    var p, c := LocalIndex(off, parentAbs), LocalIndex(off, childAbs);
    if p >= |nodes| || c >= |nodes| {
      return;
    }
    var childViable := NodeViable(nodes[c], justified, finalized);
    var childLeaf := childAbs;
    if nodes[c].bestDescendant != INVALID {
      if LeafViable(nodes, off, justified, finalized, nodes[c]) {
        childLeaf := nodes[c].bestDescendant;
      } else if !childViable {
        return;
      }
    } else if !childViable {
      return;
    }
    var updated := nodes[p := nodes[p].(bestChild := childAbs, bestDescendant := childLeaf)];
    if nodes[p].bestChild == INVALID {
      return updated;
    }
    var b := LocalIndex(off, nodes[p].bestChild);
    if b >= |nodes| {
      return updated;
    }
    var higher := HashGreater(nodes[c].root, nodes[b].root);
    if nodes[c].weight > nodes[b].weight || (nodes[c].weight == nodes[b].weight && higher) {
      return updated;
    }
  }

  ghost predicate HasOpenFrom(v: Scored, k: int, i: int)
    requires WellScored(v)
  {
    exists d :: OpenChild(v, k, d) && i <= d
  }

  /** The pointers of node `k` describe the best of its open children from
      position `i` on. */
  ghost predicate PointsAt(v: Scored, off: nat, i: int, k: int, n: ProtoNode)
    requires WellScored(v)
  {
    if HasOpenFrom(v, k, i) then
      exists c :: && 0 <= c < |v.tree| && BestFrom(v, k, i, c)
                  && n.bestChild == off + c && n.bestDescendant == off + Head(v, c)
    else n.bestChild == INVALID && n.bestDescendant == INVALID
  }

  ghost predicate AllPoint(v: Scored, off: nat, i: int, nodes: Nodes)
    requires WellScored(v)
  {
    |nodes| == |v.tree| && forall k :: 0 <= k < |nodes| ==> PointsAt(v, off, i, k, nodes[k])
  }

  lemma NoneFromEnd(v: Scored, off: nat, nodes: Nodes)
    requires WellScored(v) && |nodes| == |v.tree|
    requires forall k :: 0 <= k < |nodes| ==> nodes[k].bestChild == INVALID && nodes[k].bestDescendant == INVALID
    ensures AllPoint(v, off, |nodes|, nodes)
  {
  }

  lemma NodeAt(v: Scored, nodes: Nodes, off: nat, justified: Checkpoint, finalized: Checkpoint, k: int)
    requires Layout(nodes, off) && v == ScoredNodes(nodes, off, justified, finalized) && 0 <= k < |nodes|
    ensures v.viable[k] == NodeViable(nodes[k], justified, finalized)
    ensures v.weight[k] == nodes[k].weight && v.tree[k].root == nodes[k].root
    ensures off + k != INVALID && LocalIndex(off, off + k) == k
  {
  }

  /** Children of `i` come after it, so once they are done its pointers say
      whether it is open and where its walk ends. */
  lemma PointersAreFinal(v: Scored, nodes: Nodes, off: nat, justified: Checkpoint, finalized: Checkpoint, i: int)
    requires Layout(nodes, off) && v == ScoredNodes(nodes, off, justified, finalized)
    requires 0 <= i < |nodes| && PointsAt(v, off, i + 1, i, nodes[i])
    ensures LeafViable(nodes, off, justified, finalized, nodes[i]) || NodeViable(nodes[i], justified, finalized)
            <==> Open(v, i)
    ensures (if LeafViable(nodes, off, justified, finalized, nodes[i]) then nodes[i].bestDescendant else off + i)
            == off + Head(v, i)
  {
    hide Head, Open, Layout, ScoredNodes, OpenChild, BestFrom, Ancestor, NodeViable;
    OpenSplits(v, i);
    NodeAt(v, nodes, off, justified, finalized, i);
    if HasOpenFrom(v, i, i + 1) {
      var c :| 0 <= c < |v.tree| && BestFrom(v, i, i + 1, c) && nodes[i].bestChild == off + c
               && nodes[i].bestDescendant == off + Head(v, c);
      BestFromChildren(v, i, c);
      HeadStep(v, i, c);
      HeadIsViable(v, c);
      NodeAt(v, nodes, off, justified, finalized, Head(v, c));
    } else {
      forall d ensures !OpenChild(v, i, d) {
        if OpenChild(v, i, d) { OpenChildIsLater(v, i, d); }
      }
      HeadStops(v, i);
    }
  }

  lemma BestFromChildren(v: Scored, k: int, c: int)
    requires WellScored(v) && BestFrom(v, k, k + 1, c)
    ensures Best(v, k, c) && OpenChild(v, k, c) && Open(v, c) && 0 <= c < |v.tree|
  {
    OpenChildIsLater(v, k, c);
    forall d | OpenChild(v, k, d) ensures k + 1 <= d { OpenChildIsLater(v, k, d); }
  }

  /** Offering node `i` to its parent moves every node's pointers from "children
      after i" to "children from i on". */
  lemma OfferMovesOn(v: Scored, nodes: Nodes, off: nat, justified: Checkpoint, finalized: Checkpoint, i: int)
    requires Layout(nodes, off) && v == ScoredNodes(nodes, off, justified, finalized)
    requires AllPoint(v, off, i + 1, nodes) && 0 <= i < |nodes| && nodes[i].parent != INVALID
    ensures AllPoint(v, off, i, Offer(nodes, off, justified, finalized, nodes[i].parent, off + i))
  {
    hide Offer, Layout, ScoredNodes, Head;
    var r := Offer(nodes, off, justified, finalized, nodes[i].parent, off + i);
    ParentPosition(v, nodes, off, justified, finalized, i);
    OfferShape(nodes, off, justified, finalized, nodes[i].parent, off + i);
    forall k | 0 <= k < |r| ensures PointsAt(v, off, i, k, r[k]) {
      assert PointsAt(v, off, i + 1, k, nodes[k]);
      if v.tree[i].parent == k && Open(v, i) {
        OfferToParent(v, nodes, off, justified, finalized, i);
      } else {
        OfferElsewhere(v, nodes, off, justified, finalized, i, k);
        SkipAll(v, off, i, k, nodes[k]);
      }
    }
  }

  lemma ParentPosition(v: Scored, nodes: Nodes, off: nat, justified: Checkpoint, finalized: Checkpoint, i: int)
    requires Layout(nodes, off) && v == ScoredNodes(nodes, off, justified, finalized) && 0 <= i < |nodes|
    ensures |v.tree| == |nodes|
    ensures v.tree[i].parent == LocalParent(off, nodes[i].parent)
    ensures v.tree[i].parent >= 0 ==> v.tree[i].parent == LocalIndex(off, nodes[i].parent) < i
    ensures nodes[i].parent != INVALID && v.tree[i].parent < 0 ==> LocalIndex(off, nodes[i].parent) >= |nodes|
    ensures LocalIndex(off, off + i) == i
  {
  }

  lemma OfferShape(nodes: Nodes, off: nat, justified: Checkpoint, finalized: Checkpoint, parentAbs: nat, childAbs: nat)
    ensures |Offer(nodes, off, justified, finalized, parentAbs, childAbs)| == |nodes|
  {
  }

  /** Nodes that are not the open child's parent keep their pointers. */
  lemma OfferElsewhere(v: Scored, nodes: Nodes, off: nat, justified: Checkpoint, finalized: Checkpoint, i: int, k: int)
    requires Layout(nodes, off) && v == ScoredNodes(nodes, off, justified, finalized)
    requires AllPoint(v, off, i + 1, nodes) && 0 <= i < |nodes| && nodes[i].parent != INVALID
    requires 0 <= k < |nodes| && !(v.tree[i].parent == k && Open(v, i))
    ensures Offer(nodes, off, justified, finalized, nodes[i].parent, off + i)[k] == nodes[k]
  {
    hide Open, Head;
    ParentPosition(v, nodes, off, justified, finalized, i);
    if v.tree[i].parent == k { PointersAreFinal(v, nodes, off, justified, finalized, i); }
  }

  lemma SkipAll(v: Scored, off: nat, i: int, k: int, n: ProtoNode)
    requires WellScored(v) && !OpenChild(v, k, i) && PointsAt(v, off, i + 1, k, n)
    ensures PointsAt(v, off, i, k, n)
  {
    hide Head, OpenChild;
    if HasOpenFrom(v, k, i) {
      var d :| OpenChild(v, k, d) && i <= d;
      assert HasOpenFrom(v, k, i + 1);
      var c :| 0 <= c < |v.tree| && BestFrom(v, k, i + 1, c) && n.bestChild == off + c
               && n.bestDescendant == off + Head(v, c);
      SkipCandidate(v, k, i, c);
    }
  }

  lemma OfferToParent(v: Scored, nodes: Nodes, off: nat, justified: Checkpoint, finalized: Checkpoint, i: int)
    requires Layout(nodes, off) && v == ScoredNodes(nodes, off, justified, finalized)
    requires 0 <= i < |nodes| && nodes[i].parent != INVALID && v.tree[i].parent >= 0 && Open(v, i)
    requires PointsAt(v, off, i + 1, i, nodes[i])
    requires PointsAt(v, off, i + 1, v.tree[i].parent, nodes[v.tree[i].parent])
    ensures var k := v.tree[i].parent;
            0 <= k < |nodes|
            && PointsAt(v, off, i, k, Offer(nodes, off, justified, finalized, nodes[i].parent, off + i)[k])
  {
    hide Open, Head, BestFrom, Layout, ScoredNodes, LeafViable, NodeViable, Above;
    ParentPosition(v, nodes, off, justified, finalized, i);
    PointersAreFinal(v, nodes, off, justified, finalized, i);
    NodeAt(v, nodes, off, justified, finalized, i);
    var k := v.tree[i].parent;
    var r := Offer(nodes, off, justified, finalized, nodes[i].parent, off + i);
    assert OpenChild(v, k, i);
    assert HasOpenFrom(v, k, i);
    if HasOpenFrom(v, k, i + 1) {
      var c :| 0 <= c < |v.tree| && BestFrom(v, k, i + 1, c) && nodes[k].bestChild == off + c
               && nodes[k].bestDescendant == off + Head(v, c);
      BetterCandidate(v, k, i, c);
      NodeAt(v, nodes, off, justified, finalized, c);
      assert Heavier(nodes[i], nodes[c]) <==> Beats(v, i, c);
      if Beats(v, i, c) {
        assert BestFrom(v, k, i, i) && r[k].bestChild == off + i && r[k].bestDescendant == off + Head(v, i);
      } else {
        assert BestFrom(v, k, i, c) && r[k] == nodes[k];
      }
    } else {
      assert forall d :: OpenChild(v, k, d) ==> d <= i;
      FirstCandidate(v, k, i);
      assert BestFrom(v, k, i, i) && r[k].bestChild == off + i && r[k].bestDescendant == off + Head(v, i);
    }
  }

  /** The reverse sweep that rebuilds all pointers. */
  method RebuildPointers(nodes: Nodes, off: nat, justified: Checkpoint, finalized: Checkpoint) returns (r: Nodes)
    requires Layout(nodes, off)
    ensures SameBlocks(nodes, r) && WeightsOf(r) == WeightsOf(nodes)
    ensures AllPoint(ScoredNodes(nodes, off, justified, finalized), off, 0, r)
  {
    hide AllPoint, Offer, ScoredNodes;
    ghost var v := ScoredNodes(nodes, off, justified, finalized);
    r := ClearPointers(nodes);
    NoneFromEnd(v, off, r);
    var i := |r| - 1;
    while i >= 0
      invariant -1 <= i < |nodes|
      invariant SameBlocks(nodes, r) && WeightsOf(r) == WeightsOf(nodes)
      invariant AllPoint(v, off, i + 1, r)
    {
      SameScores(nodes, r, off, justified, finalized);
      if r[i].parent != INVALID {
        OfferMovesOn(v, r, off, justified, finalized, i);
        ghost var before := r;
        r := MaybeUpdateBest(r, off, justified, finalized, r[i].parent, off + i);
        OfferKeepsBlocks(before, off, justified, finalized, before[i].parent, off + i);
        SameBlocksTransitive(nodes, before, r);
      } else {
        SkipParentless(v, r, off, justified, finalized, i);
      }
      i := i - 1;
    }
  }

  lemma SameScores(a: Nodes, b: Nodes, off: nat, justified: Checkpoint, finalized: Checkpoint)
    requires Layout(a, off) && SameBlocks(a, b) && WeightsOf(a) == WeightsOf(b)
    ensures Layout(b, off)
    ensures ScoredNodes(a, off, justified, finalized) == ScoredNodes(b, off, justified, finalized)
  {
    SameBlocksSameTree(a, b, off);
    assert ViableOf(a, justified, finalized) == ViableOf(b, justified, finalized);
  }

  lemma OfferKeepsBlocks(nodes: Nodes, off: nat, justified: Checkpoint, finalized: Checkpoint, p: nat, c: nat)
    ensures var r := Offer(nodes, off, justified, finalized, p, c);
            SameBlocks(nodes, r) && WeightsOf(r) == WeightsOf(nodes)
  {
  }

  lemma SameBlocksTransitive(a: Nodes, b: Nodes, c: Nodes)
    requires SameBlocks(a, b) && SameBlocks(b, c)
    ensures SameBlocks(a, c)
  {
  }

  /** A node without a parent is nobody's child. */
  lemma SkipParentless(v: Scored, nodes: Nodes, off: nat, justified: Checkpoint, finalized: Checkpoint, i: int)
    requires Layout(nodes, off) && v == ScoredNodes(nodes, off, justified, finalized)
    requires AllPoint(v, off, i + 1, nodes) && 0 <= i < |nodes| && nodes[i].parent == INVALID
    ensures AllPoint(v, off, i, nodes)
  {
    hide Head, Open;
    ParentPosition(v, nodes, off, justified, finalized, i);
    forall k | 0 <= k < |nodes| ensures PointsAt(v, off, i, k, nodes[k]) {
      SkipAll(v, off, i, k, nodes[k]);
    }
  }
}
