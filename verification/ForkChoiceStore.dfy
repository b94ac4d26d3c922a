/** What a fork choice store remembers, what each call does to it, and what the
    head is: the abstract state machine the proto-array implements. */
module ForkChoiceStores {
  import opened Collections
  import opened Hashes
  import opened GhostRule

  datatype Checkpoint = Checkpoint(epoch: nat, root: Hash)

  datatype LatestVote = LatestVote(root: Hash, epoch: nat)

  datatype Store = Store(
    tree: Tree,
    votes: map<nat, LatestVote>,
    balances: Balances,
    justified: Checkpoint,
    finalized: Checkpoint)

  ghost predicate Known(t: Tree, r: Hash) {
    exists k :: 0 <= k < |t| && t[k].root == r
  }

  /** The position of a root, or -1. */
  ghost function IndexOf(t: Tree, r: Hash): (i: int)
    ensures -1 <= i < |t| && (i >= 0 <==> Known(t, r)) && (i >= 0 ==> t[i].root == r)
  {
    if k :| 0 <= k < |t| && t[k].root == r then k else -1
  }

  lemma IndexIsUnique(t: Tree, r: Hash, k: int)
    requires DistinctRoots(t) && 0 <= k < |t| && t[k].root == r
    ensures IndexOf(t, r) == k
  {
    assert Known(t, r);
    var i := IndexOf(t, r);
    if i != k { assert t[i].root == t[k].root; }
  }

  /** A block is viable when the store's checkpoints are genesis or its own. */
  predicate Viable(justifiedEpoch: nat, finalizedEpoch: nat, justified: Checkpoint, finalized: Checkpoint) {
    && (justifiedEpoch == justified.epoch || justified.epoch == 0)
    && (finalizedEpoch == finalized.epoch || finalized.epoch == 0)
  }

  ghost function VoteRoots(votes: map<nat, LatestVote>): Votes {
    map v | v in votes :: votes[v].root
  }

  ghost function ViableBlocks(s: Store): seq<bool> {
    seq(|s.tree|, k requires 0 <= k < |s.tree| =>
      Viable(s.tree[k].justifiedEpoch, s.tree[k].finalizedEpoch, s.justified, s.finalized))
  }

  /** The exact vote weight of every block. */
  ghost function TrueWeights(s: Store): seq<nat>
    requires WellFormed(s.tree)
  {
    seq(|s.tree|, k requires 0 <= k < |s.tree| => VoteWeight(s.tree, VoteRoots(s.votes), s.balances, k))
  }

  /** The weights as 64-bit sums hold them. */
  ghost function WrappedWeights(s: Store): seq<nat>
    requires WellFormed(s.tree)
  {
    seq(|s.tree|, k requires 0 <= k < |s.tree| => VoteWeight(s.tree, VoteRoots(s.votes), s.balances, k) % TWO_64)
  }

  ghost function ScoredBy(s: Store, w: seq<nat>): (v: Scored)
    requires WellFormed(s.tree) && |w| == |s.tree|
    ensures WellScored(v)
  {
    Scored(s.tree, w, ViableBlocks(s))
  }

  /** The end of the walk from the justified root under the given weights. */
  ghost function HeadUnder(s: Store, w: seq<nat>): Option<Hash>
    requires WellFormed(s.tree) && |w| == |s.tree|
  {
    var j := IndexOf(s.tree, s.justified.root);
    if j < 0 then None else Some(s.tree[Head(ScoredBy(s, w), j)].root)
  }

  /** The LMD-GHOST head. */
  ghost function GhostHead(s: Store): Option<Hash>
    requires WellFormed(s.tree)
  {
    HeadUnder(s, TrueWeights(s))
  }

  /** The head with weights added in 64 bits. */
  ghost function MachineHead(s: Store): Option<Hash>
    requires WellFormed(s.tree)
  {
    HeadUnder(s, WrappedWeights(s))
  }

  /** No block without a parent carries 2^64 or more. */
  ghost predicate WeightsFit(s: Store)
    requires WellFormed(s.tree)
  {
    forall k :: 0 <= k < |s.tree| && s.tree[k].parent < 0 ==>
                  VoteWeight(s.tree, VoteRoots(s.votes), s.balances, k) < TWO_64
  }

  lemma {:induction false} RootsBoundWeights(s: Store, k: int)
    requires WellFormed(s.tree) && WeightsFit(s) && 0 <= k < |s.tree|
    ensures VoteWeight(s.tree, VoteRoots(s.votes), s.balances, k) < TWO_64
    decreases k
  {
    hide VoteWeight;
    if s.tree[k].parent >= 0 {
      ParentIsHeavier(s.tree, VoteRoots(s.votes), s.balances, k);
      RootsBoundWeights(s, s.tree[k].parent);
    }
  }

  /** The 64-bit weights are the true weights exactly when the weight of every
      parentless block fits in 64 bits. */
  lemma WeightsExactWhenTheyFit(s: Store)
    requires WellFormed(s.tree)
    ensures WrappedWeights(s) == TrueWeights(s) <==> WeightsFit(s)
  {
    hide VoteWeight;
    if WeightsFit(s) {
      forall k | 0 <= k < |s.tree| ensures WrappedWeights(s)[k] == TrueWeights(s)[k] {
        RootsBoundWeights(s, k);
      }
    } else {
      var k :| 0 <= k < |s.tree| && s.tree[k].parent < 0
               && VoteWeight(s.tree, VoteRoots(s.votes), s.balances, k) >= TWO_64;
      assert WrappedWeights(s)[k] != TrueWeights(s)[k];
    }
  }

  lemma HeadIsGhostWhenWeightsFit(s: Store)
    requires WellFormed(s.tree) && WeightsFit(s)
    ensures MachineHead(s) == GhostHead(s)
  {
    hide VoteWeight;
    WeightsExactWhenTheyFit(s);
  }

  // ----- the calls -----

  datatype BlockError = DuplicateBlock | UnknownParent

  ghost function BlockVerdict(s: Store, root: Hash, parentRoot: Hash): Option<BlockError> {
    if Known(s.tree, root) then Some(DuplicateBlock)
    else if s.tree != [] && !Known(s.tree, parentRoot) then Some(UnknownParent)
    else None
  }

  ghost function WithBlock(s: Store, slot: nat, root: Hash, parentRoot: Hash, je: nat, fe: nat): Store {
    if BlockVerdict(s, root, parentRoot).Some? then s
    else
      var parent := if s.tree == [] then -1 else IndexOf(s.tree, parentRoot);
      s.(tree := s.tree + [Block(slot, root, parent, je, fe)])
  }

  /** A newer or equally new vote replaces the recorded one. */
  function WithVote(votes: map<nat, LatestVote>, v: nat, root: Hash, epoch: nat): map<nat, LatestVote> {
    if v !in votes || epoch >= votes[v].epoch then votes[v := LatestVote(root, epoch)] else votes
  }

  function Newer(old': Checkpoint, cp: Checkpoint): Checkpoint {
    if cp.epoch > old'.epoch then cp else old'
  }

  /** The blocks from position `m` on; parents before it are gone. */
  ghost function Dropped(t: Tree, m: nat): (r: Tree)
    requires m <= |t|
    ensures |r| == |t| - m
  {
    seq(|t| - m, k requires 0 <= k < |t| - m =>
      t[k + m].(parent := if t[k + m].parent < m then -1 else t[k + m].parent - m))
  }

  ghost function Pruned(s: Store, root: Hash): Store {
    var m := IndexOf(s.tree, root);
    if m <= 0 then s else s.(tree := Dropped(s.tree, m))
  }

  datatype Call =
    | OnBlock(slot: nat, root: Hash, parentRoot: Hash, justifiedEpoch: nat, finalizedEpoch: nat)
    | OnAttestation(validator: nat, target: Hash, epoch: nat)
    | SetBalance(owner: nat, balance: nat)
    | UpdateJustified(justified: Checkpoint)
    | UpdateFinalized(finalized: Checkpoint)
    | Prune(finalizedRoot: Hash)
    | GetHead

  ghost function Step(s: Store, c: Call): Store {
    match c
    case OnBlock(slot, root, parentRoot, je, fe) => WithBlock(s, slot, root, parentRoot, je, fe)
    case OnAttestation(v, root, epoch) => s.(votes := WithVote(s.votes, v, root, epoch))
    case SetBalance(v, b) => s.(balances := s.balances[v := b])
    case UpdateJustified(cp) => s.(justified := Newer(s.justified, cp))
    case UpdateFinalized(cp) => s.(finalized := Newer(s.finalized, cp))
    case Prune(root) => Pruned(s, root)
    case GetHead => s
  }

  ghost function Run(s: Store, calls: seq<Call>): Store {
    if calls == [] then s else Step(Run(s, calls[..|calls| - 1]), calls[|calls| - 1])
  }

  ghost function Fresh(justified: Checkpoint, finalized: Checkpoint): Store {
    Store([], map[], map[], justified, finalized)
  }

  lemma DroppedIsWellFormed(t: Tree, m: nat)
    requires WellFormed(t) && m <= |t|
    ensures WellFormed(Dropped(t, m))
  {
    var r := Dropped(t, m);
    forall i, j | 0 <= i < j < |r| ensures r[i].root != r[j].root {
      assert t[i + m].root != t[j + m].root;
    }
  }

  lemma StepKeepsWellFormed(s: Store, c: Call)
    requires WellFormed(s.tree)
    ensures WellFormed(Step(s, c).tree)
  {
    match c
    case OnBlock(slot, root, parentRoot, je, fe) =>
      var t := Step(s, c).tree;
      if t != s.tree {
        forall i, j | 0 <= i < j < |t| ensures t[i].root != t[j].root {
          if j == |s.tree| { assert !Known(s.tree, root); }
        }
      }
    case Prune(root) =>
      var m := IndexOf(s.tree, root);
      if m > 0 { DroppedIsWellFormed(s.tree, m); }
    case _ =>
  }

  /** Over every run the tree keeps parents first and roots apart. */
  lemma {:induction false} RunKeepsWellFormed(s: Store, calls: seq<Call>)
    requires WellFormed(s.tree)
    ensures WellFormed(Run(s, calls).tree)
  {
    if calls != [] {
      RunKeepsWellFormed(s, calls[..|calls| - 1]);
      StepKeepsWellFormed(Run(s, calls[..|calls| - 1]), calls[|calls| - 1]);
    }
  }

  // ----- votes over a run -----

  /** Call `i` is an attestation of `v`, none before or after it is for a newer
      epoch, and none after it is for the same epoch. */
  ghost predicate LatestAt(calls: seq<Call>, v: nat, i: int) {
    && 0 <= i < |calls| && calls[i].OnAttestation? && calls[i].validator == v
    && (forall j :: 0 <= j < |calls| && calls[j].OnAttestation? && calls[j].validator == v ==>
          calls[j].epoch <= calls[i].epoch && (j > i ==> calls[j].epoch < calls[i].epoch))
  }

  ghost predicate Attested(calls: seq<Call>, v: nat) {
    exists i :: 0 <= i < |calls| && calls[i].OnAttestation? && calls[i].validator == v
  }

  /** Votes hold exactly the latest message of every validator that sent one. */
  ghost predicate HoldsLatest(calls: seq<Call>, votes: map<nat, LatestVote>, v: nat) {
    && (v in votes <==> Attested(calls, v))
    && (v in votes ==> exists i :: LatestAt(calls, v, i) && votes[v] == LatestVote(calls[i].target, calls[i].epoch))
  }

  lemma OwnMessage(front: seq<Call>, last: Call, votes: map<nat, LatestVote>, v: nat)
    requires HoldsLatest(front, votes, v) && last.OnAttestation? && last.validator == v
    ensures HoldsLatest(front + [last], WithVote(votes, v, last.target, last.epoch), v)
  {
    var calls, n := front + [last], |front|;
    assert calls[n] == last;
    if v !in votes {
      forall j | 0 <= j < n ensures !(calls[j].OnAttestation? && calls[j].validator == v) {
        assert calls[j] == front[j];
      }
      assert LatestAt(calls, v, n);
    } else {
      var i :| LatestAt(front, v, i) && votes[v] == LatestVote(front[i].target, front[i].epoch);
      if last.epoch >= votes[v].epoch {
        assert LatestAt(calls, v, n);
      } else {
        assert LatestAt(calls, v, i) && calls[i] == front[i];
      }
    }
  }

  lemma OtherMessage(front: seq<Call>, last: Call, votes: map<nat, LatestVote>, after: map<nat, LatestVote>, v: nat)
    requires HoldsLatest(front, votes, v) && !(last.OnAttestation? && last.validator == v)
    requires (v in after <==> v in votes) && (v in votes ==> after[v] == votes[v])
    ensures HoldsLatest(front + [last], after, v)
  {
    var calls := front + [last];
    if Attested(calls, v) {
      var i :| 0 <= i < |calls| && calls[i].OnAttestation? && calls[i].validator == v;
      assert front[i] == calls[i];
    }
    if v in votes {
      var i :| LatestAt(front, v, i) && votes[v] == LatestVote(front[i].target, front[i].epoch);
      assert calls[i] == front[i];
      assert LatestAt(calls, v, i);
    }
  }

  lemma StepVotes(s: Store, c: Call)
    ensures Step(s, c).votes == if c.OnAttestation? then WithVote(s.votes, c.validator, c.target, c.epoch) else s.votes
  {
  }

  lemma NoMessages(v: nat)
    ensures HoldsLatest([], map[], v)
  {
  }

  /** The vote a run leaves for a validator is its latest message. */
  lemma {:induction false} VotesAreLatestMessages(justified: Checkpoint, finalized: Checkpoint, calls: seq<Call>,
                                                  v: nat)
    ensures HoldsLatest(calls, Run(Fresh(justified, finalized), calls).votes, v)
  {
    hide HoldsLatest, Step;
    if calls == [] {
      NoMessages(v);
    } else {
      var front, last := calls[..|calls| - 1], calls[|calls| - 1];
      VotesAreLatestMessages(justified, finalized, front, v);
      assert calls == front + [last];
      var s := Run(Fresh(justified, finalized), front);
      StepVotes(s, last);
      if last.OnAttestation? && last.validator == v {
        OwnMessage(front, last, s.votes, v);
      } else {
        OtherMessage(front, last, s.votes, Step(s, last).votes, v);
      }
    }
  }

  // ----- a tree that keeps part of another -----

  /** Block `k` of `r` is block `e[k]` of `t`, with its parent if that is kept. */
  ghost predicate KeptAs(t: Tree, r: Tree, e: seq<int>, k: int)
    requires ParentsFirst(r) && |e| == |r| && 0 <= k < |r| && 0 <= e[k] < |t|
  {
    && r[k] == t[e[k]].(parent := r[k].parent)
    && if r[k].parent >= 0 then e[r[k].parent] == t[e[k]].parent else t[e[k]].parent !in e
  }

  /** `r` is the blocks `e` of `t`, in order, and with a block all blocks below
      it are kept. */
  ghost predicate Keeps(t: Tree, r: Tree, e: seq<int>) {
    && WellFormed(t) && WellFormed(r) && |e| == |r|
    && (forall k :: 0 <= k < |e| ==> 0 <= e[k] < |t|)
    && (forall i, j :: 0 <= i < j < |e| ==> e[i] < e[j])
    && (forall k :: 0 <= k < |r| ==> KeptAs(t, r, e, k))
    && (forall x :: 0 <= x < |t| && t[x].parent in e ==> x in e)
  }

  lemma KeptAt(t: Tree, r: Tree, e: seq<int>, k: int)
    requires Keeps(t, r, e) && 0 <= k < |r|
    ensures |e| == |r| && ParentsFirst(t) && ParentsFirst(r) && 0 <= e[k] < |t| && KeptAs(t, r, e, k)
  {
  }

  lemma KeptOnce(t: Tree, r: Tree, e: seq<int>, a: int, b: int)
    requires Keeps(t, r, e) && 0 <= a < |r| && 0 <= b < |r|
    ensures |e| == |r| && (e[a] == e[b] <==> a == b) && (e[a] < e[b] <==> a < b)
  {
    if b < a { assert e[b] < e[a]; }
  }

  lemma {:induction false} BelowIsKept(t: Tree, r: Tree, e: seq<int>, x: int, y: int) returns (k: int)
    requires Keeps(t, r, e) && x in e && Ancestor(t, x, y)
    ensures |e| == |r| && 0 <= k < |r| && e[k] == y
    decreases y
  {
    if x != y {
      var p := BelowIsKept(t, r, e, x, t[y].parent);
      assert e[p] in e;
    }
    k :| 0 <= k < |e| && e[k] == y;
  }

  lemma {:induction false} KeptAncestor(t: Tree, r: Tree, e: seq<int>, a: int, b: int)
    requires Keeps(t, r, e) && 0 <= a < |r| && 0 <= b < |r|
    ensures Ancestor(r, a, b) <==> Ancestor(t, e[a], e[b])
    decreases b
  {
    KeptAt(t, r, e, a);
    KeptAt(t, r, e, b);
    KeptOnce(t, r, e, a, b);
    var p := r[b].parent;
    hide Keeps;
    if p >= 0 {
      KeptAncestor(t, r, e, a, p);
    } else if t[e[b]].parent >= 0 && Ancestor(t, e[a], t[e[b]].parent) {
      var k := BelowIsKept(t, r, e, e[a], t[e[b]].parent);
    }
  }

  lemma KeptSupports(t: Tree, r: Tree, e: seq<int>, root: Hash, k: int)
    requires Keeps(t, r, e) && 0 <= k < |r|
    ensures |e| == |r| && (Supports(r, root, k) <==> Supports(t, root, e[k]))
  {
    KeptAt(t, r, e, k);
    hide Ancestor, Keeps;
    if Supports(r, root, k) {
      var j :| 0 <= j < |r| && r[j].root == root && Ancestor(r, k, j);
      KeptAncestor(t, r, e, k, j);
      KeptAt(t, r, e, j);
      assert t[e[j]].root == root;
    }
    if Supports(t, root, e[k]) {
      var y :| 0 <= y < |t| && t[y].root == root && Ancestor(t, e[k], y);
      var j := BelowIsKept(t, r, e, e[k], y);
      KeptAncestor(t, r, e, k, j);
      KeptAt(t, r, e, j);
      assert r[j].root == root;
    }
  }

  lemma KeptSupporters(t: Tree, r: Tree, e: seq<int>, votes: Votes, k: int)
    requires Keeps(t, r, e) && 0 <= k < |r|
    ensures |e| == |r| && Supporters(r, votes, k) == Supporters(t, votes, e[k])
  {
    KeptAt(t, r, e, k);
    hide Supports, Keeps;
    forall v | v in votes ensures Supports(r, votes[v], k) <==> Supports(t, votes[v], e[k]) {
      KeptSupports(t, r, e, votes[v], k);
    }
  }

  // ----- and its head -----

  ghost predicate ScoredPart(v: Scored, r: Scored, e: seq<int>) {
    && WellScored(v) && WellScored(r) && Keeps(v.tree, r.tree, e)
    && (forall k :: 0 <= k < |e| ==> r.weight[k] == v.weight[e[k]] && r.viable[k] == v.viable[e[k]])
  }

  lemma PartOpen(v: Scored, r: Scored, e: seq<int>, k: int)
    requires ScoredPart(v, r, e) && 0 <= k < |r.tree|
    ensures |e| == |r.tree| && (Open(r, k) <==> Open(v, e[k]))
  {
    hide Ancestor, KeptAs;
    if Open(r, k) {
      var j :| ViableBelow(r, k, j);
      KeptAncestor(v.tree, r.tree, e, k, j);
      assert ViableBelow(v, e[k], e[j]);
    }
    if Open(v, e[k]) {
      var y :| ViableBelow(v, e[k], y);
      var j := BelowIsKept(v.tree, r.tree, e, e[k], y);
      KeptAncestor(v.tree, r.tree, e, k, j);
      assert ViableBelow(r, k, j);
    }
  }

  lemma PartOpenChild(v: Scored, r: Scored, e: seq<int>, k: int, c: int)
    requires ScoredPart(v, r, e) && 0 <= k < |r.tree| && 0 <= c < |r.tree|
    ensures |e| == |r.tree| && (OpenChild(r, k, c) <==> OpenChild(v, e[k], e[c]))
  {
    PartOpen(v, r, e, c);
    hide Open;
    KeptAt(v.tree, r.tree, e, c);
    if r.tree[c].parent >= 0 { KeptOnce(v.tree, r.tree, e, k, r.tree[c].parent); }
  }

  lemma OpenChildIsKept(v: Scored, r: Scored, e: seq<int>, k: int, x: int) returns (c: int)
    requires ScoredPart(v, r, e) && 0 <= k < |r.tree| && |e| == |r.tree| && OpenChild(v, e[k], x)
    ensures 0 <= c < |r.tree| && e[c] == x && k < c && OpenChild(r, k, c)
  {
    hide Open, KeptAs;
    assert e[k] in e && x in e;
    c :| 0 <= c < |e| && e[c] == x;
    OpenChildIsLater(v, e[k], x);
    KeptOnce(v.tree, r.tree, e, k, c);
    PartOpenChild(v, r, e, k, c);
  }

  lemma OpenChildIsLater(v: Scored, k: int, c: int)
    requires WellScored(v) && OpenChild(v, k, c)
    ensures k < c < |v.tree|
  {
    assert v.tree[c].parent < c;
  }

  lemma PartBest(v: Scored, r: Scored, e: seq<int>, k: int, c: int)
    requires ScoredPart(v, r, e) && 0 <= k < |r.tree| && 0 <= c < |r.tree| && |e| == |r.tree| && Best(v, e[k], e[c])
    ensures Best(r, k, c)
  {
    hide OpenChild;
    PartOpenChild(v, r, e, k, c);
    forall d | OpenChild(r, k, d) && d != c ensures 0 <= d < |r.tree| && Beats(r, c, d) {
      OpenChildIsLater(r, k, d);
      PartOpenChild(v, r, e, k, d);
      KeptOnce(v.tree, r.tree, e, c, d);
      OpenChildIsLater(v, e[k], e[d]);
      assert Beats(v, e[c], e[d]);
      KeptAt(v.tree, r.tree, e, c);
      KeptAt(v.tree, r.tree, e, d);
    }
  }

  lemma {:induction false} PartHead(v: Scored, r: Scored, e: seq<int>, k: int)
    requires ScoredPart(v, r, e) && 0 <= k < |r.tree| && |e| == |r.tree| && 0 <= e[k] < |v.tree|
    ensures e[Head(r, k)] == Head(v, e[k])
    decreases |r.tree| - k
  {
    hide Head, OpenChild, ScoredPart, BestFrom;
    PartShape(v, r, e);
    if d :| OpenChild(v, e[k], d) {
      OpenChildIsLater(v, e[k], d);
      var x := BestExists(v, e[k], 0);
      HeadStep(v, e[k], x);
      BestIsOpen(v, e[k], x);
      var c := OpenChildIsKept(v, r, e, k, x);
      PartBest(v, r, e, k, c);
      HeadStep(r, k, c);
      PartHead(v, r, e, c);
    } else {
      HeadStops(v, e[k]);
      forall c ensures !OpenChild(r, k, c) {
        if OpenChild(r, k, c) {
          OpenChildIsLater(r, k, c);
          PartOpenChild(v, r, e, k, c);
        }
      }
      HeadStops(r, k);
    }
  }

  lemma BestIsOpen(v: Scored, k: int, c: int)
    requires WellScored(v) && Best(v, k, c)
    ensures OpenChild(v, k, c)
  {
  }

  lemma PartShape(v: Scored, r: Scored, e: seq<int>)
    requires ScoredPart(v, r, e)
    ensures WellScored(v) && WellScored(r) && |e| == |r.tree| && forall k :: 0 <= k < |e| ==> 0 <= e[k] < |v.tree|
  {
  }

  /** `r` is `s` but for the blocks it keeps. */
  ghost predicate KeptFrom(s: Store, r: Store, e: seq<int>) {
    r == s.(tree := r.tree) && Keeps(s.tree, r.tree, e)
  }

  lemma KeptIndex(s: Store, r: Store, e: seq<int>, root: Hash)
    requires KeptFrom(s, r, e)
    ensures |e| == |r.tree| && (Known(r.tree, root) <==> IndexOf(s.tree, root) in e)
    ensures Known(r.tree, root) ==> e[IndexOf(r.tree, root)] == IndexOf(s.tree, root)
  {
    if Known(r.tree, root) {
      var k := IndexOf(r.tree, root);
      KeptAt(s.tree, r.tree, e, k);
      IndexIsUnique(s.tree, root, e[k]);
    }
    var i := IndexOf(s.tree, root);
    if i in e {
      var k :| 0 <= k < |e| && e[k] == i;
      KeptAt(s.tree, r.tree, e, k);
      assert r.tree[k].root == root;
    }
  }

  lemma KeptScores(s: Store, r: Store, e: seq<int>)
    requires KeptFrom(s, r, e)
    ensures ScoredPart(ScoredBy(s, WrappedWeights(s)), ScoredBy(r, WrappedWeights(r)), e)
  {
    hide Supporters, BalanceSum;
    forall k | 0 <= k < |e|
      ensures WrappedWeights(r)[k] == WrappedWeights(s)[e[k]] && ViableBlocks(r)[k] == ViableBlocks(s)[e[k]]
    {
      KeptSupporters(s.tree, r.tree, e, VoteRoots(s.votes), k);
      KeptAt(s.tree, r.tree, e, k);
    }
  }

  /** The head is the same exactly while the justified root is kept. */
  lemma KeptHeads(s: Store, r: Store, e: seq<int>)
    requires KeptFrom(s, r, e)
    ensures MachineHead(r) == MachineHead(s) <==> (Known(s.tree, s.justified.root) ==> Known(r.tree, s.justified.root))
  {
    hide WrappedWeights, ViableBlocks, Head, ScoredPart;
    KeptIndex(s, r, e, s.justified.root);
    if Known(r.tree, s.justified.root) {
      KeptScores(s, r, e);
      var j := IndexOf(r.tree, s.justified.root);
      var v, w := ScoredBy(s, WrappedWeights(s)), ScoredBy(r, WrappedWeights(r));
      PartHead(v, w, e, j);
      KeptAt(s.tree, r.tree, e, Head(w, j));
    }
  }

  // ----- pruning is invisible -----

  /** Dropping the first `n` blocks of what is kept keeps the others. */
  lemma DroppedIsKept(t: Tree, r: Tree, e: seq<int>, n: nat)
    requires Keeps(t, r, e) && n <= |r|
    ensures n <= |e| && Keeps(t, Dropped(r, n), e[n..])
  {
    DroppedIsWellFormed(r, n);
    var u, f := Dropped(r, n), e[n..];
    forall k | 0 <= k < |u| ensures KeptAs(t, u, f, k) {
      KeptAt(t, r, e, k + n);
      var p := r[k + n].parent;
      if 0 <= p < n {
        assert e[p] !in f;
      } else if p < 0 {
        assert t[e[k + n]].parent !in f;
      }
    }
    forall x | 0 <= x < |t| && t[x].parent in f ensures x in f {
      var p :| 0 <= p < |f| && f[p] == t[x].parent;
      assert e[p + n] in e;
      var k :| 0 <= k < |e| && e[k] == x;
      assert t[x].parent < x;
      KeptOnce(t, r, e, p + n, k);
      assert f[k - n] == x;
    }
  }

  ghost function Positions(n: nat): (e: seq<int>)
    ensures |e| == n && forall k :: 0 <= k < n ==> e[k] == k
  {
    seq(n, k => k)
  }

  lemma KeepsItself(t: Tree)
    requires WellFormed(t)
    ensures Keeps(t, t, Positions(|t|))
  {
    var e := Positions(|t|);
    forall x | 0 <= x < |t| ensures x in e { assert e[x] == x; }
  }

  /** Pruning changes the head exactly when the justified root sits before the
      block pruned to. */
  lemma PruningIsInvisible(s: Store, root: Hash)
    requires WellFormed(s.tree)
    ensures WellFormed(Pruned(s, root).tree)
    ensures MachineHead(Pruned(s, root)) == MachineHead(s) <==>
            !(0 <= IndexOf(s.tree, s.justified.root) < IndexOf(s.tree, root))
  {
    hide WrappedWeights, ViableBlocks, Head, MachineHead;
    StepKeepsWellFormed(s, Prune(root));
    var r := Pruned(s, root);
    var m := IndexOf(s.tree, root);
    if m > 0 {
      KeepsItself(s.tree);
      var e := Positions(|s.tree|);
      DroppedIsKept(s.tree, s.tree, e, m);
      KeptHeads(s, r, e[m..]);
      KeptIndex(s, r, e[m..], s.justified.root);
      var i := IndexOf(s.tree, s.justified.root);
      if i >= m { assert e[m..][i - m] == i; }
    }
  }

  // ----- pruning stays invisible -----

  /** The calls without the pruning among them. */
  function Unpruned(calls: seq<Call>): seq<Call> {
    if calls == [] then []
    else Unpruned(calls[..|calls| - 1]) + if calls[|calls| - 1].Prune? then [] else [calls[|calls| - 1]]
  }

  lemma UnprunedRun(s: Store, calls: seq<Call>)
    requires calls != []
    ensures var front, last := calls[..|calls| - 1], calls[|calls| - 1];
            Run(s, Unpruned(calls)) ==
            if last.Prune? then Run(s, Unpruned(front)) else Step(Run(s, Unpruned(front)), last)
  {
    hide Step;
    var front, last := calls[..|calls| - 1], calls[|calls| - 1];
    var u := Unpruned(calls);
    if last.Prune? {
      assert u == Unpruned(front);
    } else {
      assert u[..|u| - 1] == Unpruned(front) && u[|u| - 1] == last;
    }
  }

  /** A block that builds on a kept block is not one that was discarded. Blocks
      on discarded ones may arrive; the pruned store refuses them. */
  ghost predicate NotDiscarded(s: Store, r: Store, c: Call) {
    c.OnBlock? && Known(r.tree, c.parentRoot) && Known(s.tree, c.root) ==> Known(r.tree, c.root)
  }

  /** `r` keeps the blocks `e` of `s`, and at least one if `s` has any. */
  ghost predicate Behind(s: Store, r: Store, e: seq<int>) {
    KeptFrom(s, r, e) && (s.tree != [] ==> r.tree != [])
  }

  /** A block both stores take. */
  lemma BlockKept(t: Tree, r: Tree, e: seq<int>, b: Block, c: Block)
    requires Keeps(t, r, e) && WellFormed(t + [b]) && WellFormed(r + [c])
    requires c == b.(parent := c.parent) && c.parent < |e|
    requires if c.parent >= 0 then e[c.parent] == b.parent else b.parent !in e
    ensures Keeps(t + [b], r + [c], e + [|t|])
  {
    var u, v, f := t + [b], r + [c], e + [|t|];
    forall k | 0 <= k < |v| ensures KeptAs(u, v, f, k) {
      if k < |r| { KeptAt(t, r, e, k); }
    }
    forall x | 0 <= x < |u| && u[x].parent in f ensures x in f {
      if x < |t| { assert t[x].parent in e; } else { assert f[|e|] == x; }
    }
  }

  /** A block only the full store takes. */
  lemma BlockPassedOver(t: Tree, r: Tree, e: seq<int>, b: Block)
    requires Keeps(t, r, e) && WellFormed(t + [b]) && b.parent !in e
    ensures Keeps(t + [b], r, e)
  {
    var u := t + [b];
    forall k | 0 <= k < |r| ensures KeptAs(u, r, e, k) { KeptAt(t, r, e, k); }
  }

  lemma BehindBlock(s: Store, r: Store, e: seq<int>, c: Call) returns (after: seq<int>)
    requires Behind(s, r, e) && NotDiscarded(s, r, c) && c.OnBlock?
    ensures Behind(Step(s, c), Step(r, c), after)
  {
    StepKeepsWellFormed(s, c);
    StepKeepsWellFormed(r, c);
    KeptIndex(s, r, e, c.root);
    KeptIndex(s, r, e, c.parentRoot);
    hide WellFormed, Keeps;
    after := e;
    var b := Block(c.slot, c.root, if s.tree == [] then -1 else IndexOf(s.tree, c.parentRoot), c.justifiedEpoch,
                   c.finalizedEpoch);
    if BlockVerdict(r, c.root, c.parentRoot).None? {
      after := e + [|s.tree|];
      NothingIsKept(s.tree, r.tree, e);
      BlockKept(s.tree, r.tree, e, b, b.(parent := if r.tree == [] then -1 else IndexOf(r.tree, c.parentRoot)));
    } else if BlockVerdict(s, c.root, c.parentRoot).None? {
      BlockPassedOver(s.tree, r.tree, e, b);
    }
  }

  lemma NothingIsKept(t: Tree, r: Tree, e: seq<int>)
    requires Keeps(t, r, e)
    ensures |e| == |r| && -1 !in e
  {
  }

  lemma BehindPrune(s: Store, r: Store, e: seq<int>, root: Hash) returns (after: seq<int>)
    requires Behind(s, r, e)
    ensures Behind(s, Step(r, Prune(root)), after)
  {
    hide Keeps, Dropped;
    var n := IndexOf(r.tree, root);
    after := e;
    if n > 0 {
      DroppedIsKept(s.tree, r.tree, e, n);
      after := e[n..];
    }
  }

  ghost predicate NoneDiscarded(s: Store, calls: seq<Call>) {
    forall i :: 0 <= i < |calls| ==> NotDiscarded(Run(s, Unpruned(calls[..i])), Run(s, calls[..i]), calls[i])
  }

  lemma {:induction false} BehindRun(s: Store, calls: seq<Call>) returns (e: seq<int>)
    requires WellFormed(s.tree) && NoneDiscarded(s, calls)
    ensures Behind(Run(s, Unpruned(calls)), Run(s, calls), e)
  {
    hide Behind, NotDiscarded, Step;
    if calls == [] {
      e := Positions(|s.tree|);
      BehindItself(s);
    } else {
      var front, last := calls[..|calls| - 1], calls[|calls| - 1];
      forall i | 0 <= i < |front| ensures NotDiscarded(Run(s, Unpruned(front[..i])), Run(s, front[..i]), front[i]) {
        assert front[..i] == calls[..i];
      }
      e := BehindRun(s, front);
      UnprunedRun(s, calls);
      var u, r := Run(s, Unpruned(front)), Run(s, front);
      assert NotDiscarded(u, r, last) by { assert calls[..|front|] == front; }
      if last.Prune? {
        e := BehindPrune(u, r, e, last.finalizedRoot);
      } else if last.OnBlock? {
        e := BehindBlock(u, r, e, last);
      } else {
        BehindOther(u, r, e, last);
      }
    }
  }

  lemma BehindOther(s: Store, r: Store, e: seq<int>, c: Call)
    requires Behind(s, r, e) && !c.Prune? && !c.OnBlock?
    ensures Behind(Step(s, c), Step(r, c), e)
  {
    hide Keeps;
  }

  lemma BehindItself(s: Store)
    requires WellFormed(s.tree)
    ensures Behind(s, s, Positions(|s.tree|))
  {
    hide Keeps;
    KeepsItself(s.tree);
  }

  /** Any calls, pruning at any point among them, end with the head of the run
      that never pruned, exactly when pruning has not discarded the justified
      root. Late blocks on discarded forks are allowed: they are refused. */
  lemma PruningStaysInvisible(s: Store, calls: seq<Call>)
    requires WellFormed(s.tree) && NoneDiscarded(s, calls)
    ensures var full, r := Run(s, Unpruned(calls)), Run(s, calls);
            && WellFormed(full.tree) && WellFormed(r.tree) && r.justified == full.justified
            && (MachineHead(r) == MachineHead(full) <==>
                (Known(full.tree, r.justified.root) ==> Known(r.tree, r.justified.root)))
  {
    hide MachineHead, NoneDiscarded;
    var e := BehindRun(s, calls);
    KeptHeads(Run(s, Unpruned(calls)), Run(s, calls), e);
  }
}
