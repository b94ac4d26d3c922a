/** The map-based fork choice object and its head. */
module LmdStores {
  import opened Collections
  import opened Hashes
  import opened GhostRule
  import opened ForkChoiceStores
  import opened LmdRule
  import opened LmdForkChoice
  import opened LmdHeads

  ghost function RootsIn(t: Tree): (r: seq<Hash>)
    ensures |r| == |t| && forall k :: 0 <= k < |t| ==> r[k] == t[k].root
  {
    seq(|t|, k requires 0 <= k < |t| => t[k].root)
  }

  lemma BlocksAreKnown(blocks: map<Hash, LmdNode<Hash>>, t: Tree, rootParent: Hash, h: Hash)
    requires Represents(blocks, RootsIn(t), t, rootParent)
    ensures h in blocks <==> Known(t, h)
  {
    hide HoldsBlock, Distinct;
    var keys := RootsIn(t);
    if h in keys {
      var k :| 0 <= k < |keys| && keys[k] == h;
      assert t[k].root == h;
    }
    if k :| 0 <= k < |t| && t[k].root == h { assert keys[k] in keys; }
  }

  // ----- weights -----

  ghost function TargetsOf(votes: map<nat, LmdVote>): Votes {
    map v | v in votes :: votes[v].target
  }

  ghost function WeightsIn(votes: map<nat, LmdVote>): Balances {
    map v | v in votes :: votes[v].weight
  }

  ghost function MessagesIn(votes: map<nat, LmdVote>): map<nat, LatestVote> {
    map v | v in votes :: LatestVote(votes[v].target, votes[v].epoch)
  }

  lemma VoteRecorded(votes: map<nat, LmdVote>, v: nat, x: LmdVote)
    ensures MessagesIn(votes[v := x]) == MessagesIn(votes)[v := LatestVote(x.target, x.epoch)]
    ensures WeightsIn(votes[v := x]) == WeightsIn(votes)[v := x.weight]
    ensures v in votes ==> v in MessagesIn(votes) && MessagesIn(votes)[v].epoch == votes[v].epoch
    ensures v !in votes ==> v !in MessagesIn(votes)
  {
  }

  lemma MessageRoots(votes: map<nat, LmdVote>)
    ensures VoteRoots(MessagesIn(votes)) == TargetsOf(votes)
  {
  }

  /** The direct weights of the known roots, from the votes of `done`. */
  ghost predicate Counted(weights: map<Hash, nat>, keys: seq<Hash>, roots: Votes, b: Balances, done: set<nat>) {
    forall k :: 0 <= k < |keys| ==> WeightOf(weights, keys[k]) == BalanceSum(b, VotersIn(roots, done, keys[k])) % TWO_64
  }

  lemma CountVote(weights: map<Hash, nat>, keys: seq<Hash>, roots: Votes, b: Balances, done: set<nat>, v: nat)
    requires Counted(weights, keys, roots, b, done) && v in roots && v !in done
    ensures roots[v] !in keys ==> Counted(weights, keys, roots, b, done + {v})
    ensures var h := roots[v];
            Counted(weights[h := (WeightOf(weights, h) + BalanceOf(b, v)) % TWO_64], keys, roots, b, done + {v})
  {
    hide BalanceSum, VotersIn;
    var h := roots[v];
    var after := weights[h := (WeightOf(weights, h) + BalanceOf(b, v)) % TWO_64];
    forall k | 0 <= k < |keys|
      ensures WeightOf(after, keys[k]) == BalanceSum(b, VotersIn(roots, done + {v}, keys[k])) % TWO_64
      ensures keys[k] != h ==>
                WeightOf(weights, keys[k]) == BalanceSum(b, VotersIn(roots, done + {v}, keys[k])) % TWO_64
    {
      VotersInGrow(roots, b, done, v, keys[k]);
      AddWrapped(BalanceSum(b, VotersIn(roots, done, keys[k])), BalanceOf(b, v));
    }
  }

  lemma NothingCounted(keys: seq<Hash>, roots: Votes, b: Balances)
    ensures Counted(map[], keys, roots, b, {})
  {
    forall k | 0 <= k < |keys| ensures VotersIn(roots, {}, keys[k]) == {} {}
  }

  method DirectVotes(blocks: map<Hash, LmdNode<Hash>>, votes: map<nat, LmdVote>, ghost keys: seq<Hash>)
    returns (weights: map<Hash, nat>)
    requires forall h :: h in blocks <==> h in keys
    ensures Counted(weights, keys, TargetsOf(votes), WeightsIn(votes), votes.Keys)
  {
    hide Counted, BalanceSum;
    ghost var roots, b := TargetsOf(votes), WeightsIn(votes);
    weights := map[];
    NothingCounted(keys, roots, b);
    var all := Enumerate(votes.Keys);
    ghost var done: set<nat> := {};
    for i := 0 to |all|
      invariant done == Elems(all[..i]) && Counted(weights, keys, roots, b, done)
    {
      var v := all[i];
      assert v in Elems(all);
      CountVote(weights, keys, roots, b, done, v);
      var target := votes[v].target;
      if target in blocks {
        weights := weights[target := (WeightOf(weights, target) + votes[v].weight) % TWO_64];
      }
      done := done + {v};
    }
    assert all[..|all|] == all;
  }

  lemma DirectIsDirect(t: Tree, weights: map<Hash, nat>, roots: Votes, b: Balances)
    requires Counted(weights, RootsIn(t), roots, b, roots.Keys)
    ensures |DirectWeights(t, roots, b)| == |t|
    ensures forall k :: 0 <= k < |t| ==> WeightOf(weights, RootsIn(t)[k]) == DirectWeights(t, roots, b)[k] % TWO_64
  {
    hide BalanceSum;
    forall k | 0 <= k < |t| ensures WeightOf(weights, RootsIn(t)[k]) == DirectWeights(t, roots, b)[k] % TWO_64 {
      assert VotersIn(roots, roots.Keys, t[k].root) == DirectVoters(roots, t[k].root);
    }
  }

  /** The weights the walk reads, by position. */
  ghost function Observed(t: Tree, weights: map<Hash, nat>): (w: seq<nat>)
    ensures |w| == |t| && forall k :: 0 <= k < |t| ==> w[k] == WeightOf(weights, t[k].root)
  {
    seq(|t|, k requires 0 <= k < |t| => WeightOf(weights, t[k].root))
  }

  ghost function RuleWeights(t: Tree, votes: map<nat, LmdVote>): (w: seq<nat>)
    requires ParentsFirst(t)
    ensures |w| == |t|
  {
    seq(|t|, k requires 0 <= k < |t| => VoteWeight(t, TargetsOf(votes), WeightsIn(votes), k) % TWO_64)
  }

  /** `weights` is what the pass in some order makes of the votes. */
  ghost predicate PassOf(blocks: map<Hash, LmdNode<Hash>>, votes: map<nat, LmdVote>, t: Tree, order: seq<Hash>,
                         direct: map<Hash, nat>, weights: map<Hash, nat>) {
    && Admissible(blocks, order) && Counted(direct, RootsIn(t), TargetsOf(votes), WeightsIn(votes), votes.Keys)
    && (forall h :: h in order ==> h in blocks) && weights == AfterPass(blocks, order, direct)
  }

  /** One pass from the highest slot down: when grandchildren are later than
      their parents every block gets the weight of the votes at and below it. */
  method ComputeSubtreeWeights(blocks: map<Hash, LmdNode<Hash>>, votes: map<nat, LmdVote>, ghost t: Tree,
                               ghost rootParent: Hash) returns (weights: map<Hash, nat>)
    requires Represents(blocks, RootsIn(t), t, rootParent) && WellFormed(t)
    ensures exists order, direct :: PassOf(blocks, votes, t, order, direct, weights)
    ensures LaterGrandchildren(blocks) ==> Observed(t, weights) == RuleWeights(t, votes)
  {
    hide Counted, Represents, Admissible, LaterGrandchildren, Observed, RuleWeights, AfterPass;
    BlocksAreKeys(blocks, t, rootParent);
    var direct := DirectVotes(blocks, votes, RootsIn(t));
    var order := BlocksBySlot(blocks);
    AdmissibleCovers(blocks, order);
    weights := PassWeights(blocks, order, direct);
    assert PassOf(blocks, votes, t, order, direct, weights);
    if LaterGrandchildren(blocks) { PassGivesRuleWeights(blocks, order, votes, direct, t, rootParent); }
  }

  /** All blocks, highest slot first. */
  method BlocksBySlot(blocks: map<Hash, LmdNode<Hash>>) returns (order: seq<Hash>)
    ensures Admissible(blocks, order)
  {
    var slots := map h | h in blocks :: blocks[h].slot;
    var hashes := Enumerate(blocks.Keys);
    order := SortBySlot(hashes, slots);
    assert slots == SlotsOf(blocks);
    forall h ensures h in order <==> h in blocks { assert h in hashes <==> h in Elems(hashes); }
  }

  lemma AdmissibleCovers(blocks: map<Hash, LmdNode<Hash>>, order: seq<Hash>)
    requires Admissible(blocks, order)
    ensures forall h :: h in order ==> h in blocks
  {
  }

  lemma BlocksAreKeys(blocks: map<Hash, LmdNode<Hash>>, t: Tree, rootParent: Hash)
    requires Represents(blocks, RootsIn(t), t, rootParent)
    ensures forall h :: h in blocks <==> h in RootsIn(t)
  {
    hide HoldsBlock, Distinct, RootsIn;
  }

  lemma PassGivesRuleWeights(blocks: map<Hash, LmdNode<Hash>>, order: seq<Hash>, votes: map<nat, LmdVote>,
                             direct: map<Hash, nat>, t: Tree, rootParent: Hash)
    requires Represents(blocks, RootsIn(t), t, rootParent) && WellFormed(t) && LaterGrandchildren(blocks)
    requires Admissible(blocks, order)
    requires Counted(direct, RootsIn(t), TargetsOf(votes), WeightsIn(votes), votes.Keys)
    ensures forall h :: h in order ==> h in blocks
    ensures Observed(t, AfterPass(blocks, order, direct)) == RuleWeights(t, votes)
  {
    hide Counted, HoldsBlock, DirectWeights, VoteWeight, LaterGrandchildren, SubtreeSum, RootsIn, Observed, AfterPass,
         Descending, Distinct;
    var roots, b, keys := TargetsOf(votes), WeightsIn(votes), RootsIn(t);
    assert roots.Keys == votes.Keys;
    DirectIsDirect(t, direct, roots, b);
    PassSumsSubtrees(blocks, order, keys, direct, t, rootParent, DirectWeights(t, roots, b));
    forall k | 0 <= k < |t| ensures Observed(t, AfterPass(blocks, order, direct))[k] == RuleWeights(t, votes)[k] {
      SumIsVoteWeight(t, roots, b, k);
    }
  }

  /** Where every block with a sibling is clean the walk ends at the rule's head,
      even if some weights are not right. */
  lemma PassGivesRuleHead(blocks: map<Hash, LmdNode<Hash>>, order: seq<Hash>, votes: map<nat, LmdVote>,
                          direct: map<Hash, nat>, weights: map<Hash, nat>, t: Tree, rootParent: Hash, s: int)
    requires Represents(blocks, RootsIn(t), t, rootParent) && WellFormed(t) && rootParent !in blocks
    requires PassOf(blocks, votes, t, order, direct, weights) && 0 <= s < |t| && Uncontested(t, s)
    ensures LowHead(t, Observed(t, weights), s) == LowHead(t, RuleWeights(t, votes), s)
  {
    hide Counted, HoldsBlock, DirectWeights, VoteWeight, SubtreeSum, RootsIn, AfterPass, Descending, Distinct,
         Uncontested, LowHead, Represents;
    var roots, b, keys := TargetsOf(votes), WeightsIn(votes), RootsIn(t);
    assert roots.Keys == votes.Keys;
    DirectIsDirect(t, direct, roots, b);
    var d := DirectWeights(t, roots, b);
    UncontestedWalk(blocks, order, keys, direct, t, rootParent, d, s);
    assert Passed(blocks, keys, order, direct) == Observed(t, weights);
    forall k | 0 <= k < |t| ensures Sums(t, d)[k] == RuleWeights(t, votes)[k] { SumIsVoteWeight(t, roots, b, k); }
    assert Sums(t, d) == RuleWeights(t, votes);
  }

  /** Later grandchildren leave every block clean. */
  lemma LaterIsUncontested(blocks: map<Hash, LmdNode<Hash>>, t: Tree, rootParent: Hash, s: int)
    requires Represents(blocks, RootsIn(t), t, rootParent) && LaterGrandchildren(blocks) && t != [] && ParentsFirst(t)
    ensures rootParent !in blocks && Uncontested(t, s)
  {
    RootParentIsUnknown(blocks, RootsIn(t), t, rootParent);
    hide RootsIn, Represents, Ancestor, LaterGrandchildren;
    forall h ensures !Early(t, h) { NoneIsEarly(blocks, t, rootParent, h); }
  }

  lemma NoneIsEarly(blocks: map<Hash, LmdNode<Hash>>, t: Tree, rootParent: Hash, h: int)
    requires Represents(blocks, RootsIn(t), t, rootParent) && LaterGrandchildren(blocks) && ParentsFirst(t)
    ensures !Early(t, h)
  {
    hide Represents, RootsIn;
    if Early(t, h) {
      var p := t[h].parent;
      NodeOf(blocks, t, rootParent, h);
      NodeOf(blocks, t, rootParent, p);
      NodeOf(blocks, t, rootParent, t[p].parent);
    }
  }

  /** The weights of the pass are those of the recursive subtree weight. */
  lemma OnePassIsRecursive(t: Tree, votes: map<nat, LmdVote>, k: int)
    requires WellFormed(t) && 0 <= k < |t|
    ensures var d := DirectWeights(t, TargetsOf(votes), WeightsIn(votes));
            |d| == |t| && RuleWeights(t, votes)[k] == RecursiveWeight(t, d, k, |t|)
  {
    hide VoteWeight, RecursiveWeight, SubtreeSum;
    RecursiveIsSubtree(t, DirectWeights(t, TargetsOf(votes), WeightsIn(votes)), k);
    SumIsVoteWeight(t, TargetsOf(votes), WeightsIn(votes), k);
  }

  // ----- the walk -----

  ghost predicate Prefers(weights: map<Hash, nat>, a: Hash, b: Hash) {
    WeightOf(weights, a) > WeightOf(weights, b) || (WeightOf(weights, a) == WeightOf(weights, b) && Above(b, a))
  }

  lemma PrefersIsTotal(weights: map<Hash, nat>, a: Hash, b: Hash)
    requires a != b
    ensures Prefers(weights, a, b) || Prefers(weights, b, a)
  {
    AboveIsTotal(a, b);
  }

  lemma PrefersIsTransitive(weights: map<Hash, nat>, a: Hash, b: Hash, c: Hash)
    requires Prefers(weights, a, b) && Prefers(weights, b, c)
    ensures Prefers(weights, a, c)
  {
    if Above(b, a) && Above(c, b) { AboveIsTransitive(c, b, a); }
  }

  /** The child at `at` is preferred to all others. */
  ghost predicate PreferredAt(children: seq<Hash>, weights: map<Hash, nat>, at: int) {
    0 <= at < |children|
    && forall i :: 0 <= i < |children| && i != at ==> Prefers(weights, children[at], children[i])
  }

  /** The heaviest child, the lowest root among equals. */
  method PickChild(children: seq<Hash>, weights: map<Hash, nat>) returns (best: Hash)
    requires children != [] && Distinct(children)
    ensures exists at :: PreferredAt(children, weights, at) && children[at] == best
  {
    hide Prefers;
    best := children[0];
    ghost var at := 0;
    var bestW := WeightOf(weights, best);
    for i := 1 to |children|
      invariant at < i && children[at] == best && bestW == WeightOf(weights, best)
      invariant forall j :: 0 <= j < i && j != at ==> Prefers(weights, best, children[j])
    {
      var child := children[i];
      var w := WeightOf(weights, child);
      assert child != best;
      var lower := HashGreater(best, child);
      CompareChild(weights, best, child);
      if w > bestW || (w == bestW && lower) {
        forall j | 0 <= j < i ensures Prefers(weights, child, children[j]) {
          if j != at { PrefersIsTransitive(weights, child, best, children[j]); }
        }
        best, bestW := child, w;
        at := i;
      }
    }
    assert PreferredAt(children, weights, at);
  }

  lemma CompareChild(weights: map<Hash, nat>, best: Hash, child: Hash)
    requires child != best
    ensures var w, bestW := WeightOf(weights, child), WeightOf(weights, best);
            if w > bestW || (w == bestW && Above(best, child)) then Prefers(weights, child, best)
            else Prefers(weights, best, child)
  {
    PrefersIsTotal(weights, best, child);
  }

  lemma {:induction false} ChildListAscends(t: Tree, k: int, n: nat)
    requires n <= |t|
    ensures forall i, j :: 0 <= i < j < |ChildList(t, k, n)| ==> ChildList(t, k, n)[i] < ChildList(t, k, n)[j]
  {
    if n > 0 {
      ChildListAscends(t, k, n - 1);
      var front := ChildList(t, k, n - 1);
      forall i | 0 <= i < |front| ensures front[i] < n - 1 { assert front[i] in front; }
    }
  }

  lemma ChildrenAreUnique(t: Tree, k: int)
    requires DistinctRoots(t)
    ensures Distinct(Pick(RootsIn(t), ChildList(t, k, |t|)))
  {
    var list := ChildList(t, k, |t|);
    ChildListAscends(t, k, |t|);
    hide ChildList;
    var r := Pick(RootsIn(t), list);
    forall i, j | 0 <= i < j < |r| ensures r[i] != r[j] {
      assert list[i] in list && list[j] in list;
      assert t[list[i]].root != t[list[j]].root;
    }
  }

  /** The child picked from the list is the rule's best child. */
  lemma PickedIsBest(t: Tree, weights: map<Hash, nat>, k: int, at: int)
    requires WellFormed(t) && 0 <= at < |ChildList(t, k, |t|)|
    requires PreferredAt(Pick(RootsIn(t), ChildList(t, k, |t|)), weights, at)
    ensures LowBest(t, Observed(t, weights), k, ChildList(t, k, |t|)[at])
  {
    hide WellFormed;
    var list := ChildList(t, k, |t|);
    var r, c := Pick(RootsIn(t), list), list[at];
    assert c in list && r[at] == t[c].root;
    forall d | Child(t, k, d) && d != c ensures LowBeats(t, Observed(t, weights), c, d) {
      assert d in list;
      var i :| 0 <= i < |list| && list[i] == d;
      assert r[i] == t[d].root;
    }
  }

  /** The walk from `start` over the best children. */
  method Walk(blocks: map<Hash, LmdNode<Hash>>, weights: map<Hash, nat>, start: Hash, ghost t: Tree,
              ghost rootParent: Hash, ghost from: int) returns (head: Hash)
    requires Represents(blocks, RootsIn(t), t, rootParent) && WellFormed(t)
    requires 0 <= from < |t| && t[from].root == start
    ensures head == t[LowHead(t, Observed(t, weights), from)].root
  {
    hide LowHead, ChildList, Pick, RootsIn, Observed, ParentsFirst, DistinctRoots, LowBest, Represents;
    head := start;
    ghost var k, w := from, Observed(t, weights);
    while true
      invariant 0 <= k < |t| && t[k].root == head && LowHead(t, w, k) == LowHead(t, w, from)
      decreases |t| - k
    {
      NodeOf(blocks, t, rootParent, k);
      if head !in blocks || blocks[head].children == [] {
        NoChildren(t, w, k);
        break;
      }
      ChildrenAreUnique(t, k);
      ghost var children := blocks[head].children;
      head := PickChild(blocks[head].children, weights);
      ghost var at :| PreferredAt(children, weights, at) && children[at] == head;
      PickedIsBest(t, weights, k, at);
      ghost var c := ChildList(t, k, |t|)[at];
      LowHeadStep(t, w, k, c);
      k := c;
    }
  }

  lemma NodeOf(blocks: map<Hash, LmdNode<Hash>>, t: Tree, rootParent: Hash, k: int)
    requires Represents(blocks, RootsIn(t), t, rootParent) && 0 <= k < |t|
    ensures t[k].root in blocks && blocks[t[k].root].children == Pick(RootsIn(t), ChildList(t, k, |t|))
    ensures blocks[t[k].root].parentRoot == if t[k].parent < 0 then rootParent else t[t[k].parent].root
    ensures blocks[t[k].root].slot == t[k].slot
    ensures k > 0 ==> t[k].parent >= 0
  {
    assert HoldsBlock(blocks, RootsIn(t), t, rootParent, k);
  }

  lemma NoChildren(t: Tree, w: seq<nat>, k: int)
    requires WellFormed(t) && |w| == |t| && 0 <= k < |t| && Pick(RootsIn(t), ChildList(t, k, |t|)) == []
    ensures LowHead(t, w, k) == k
  {
    assert ChildList(t, k, |t|) == [];
    forall c ensures Child(t, k, c) ==> c in ChildList(t, k, |t|) {}
    LowHeadStops(t, w, k);
  }

  // ----- the object -----

  lemma SizesAgree(blocks: map<Hash, LmdNode<Hash>>, t: Tree, rootParent: Hash)
    requires Represents(blocks, RootsIn(t), t, rootParent)
    ensures |blocks| == 0 <==> t == []
  {
    hide HoldsBlock, Distinct;
    var keys := RootsIn(t);
    if t == [] {
      assert blocks.Keys == {};
    } else {
      assert keys[0] in keys;
      assert keys[0] in blocks.Keys;
    }
  }

  /** The parentless block, or the zero hash when there is none. */
  method FindAnyRoot(blocks: map<Hash, LmdNode<Hash>>, ghost t: Tree, ghost rootParent: Hash) returns (r: Hash)
    requires Represents(blocks, RootsIn(t), t, rootParent) && t != []
    ensures r == if rootParent in blocks then ZERO_HASH else t[0].root
  {
    hide Represents;
    var hashes := Enumerate(blocks.Keys);
    for i := 0 to |hashes|
      invariant rootParent !in blocks ==> t[0].root !in hashes[..i]
    {
      var h := hashes[i];
      assert h in Elems(hashes);
      OnlyFirstIsParentless(blocks, t, rootParent, h);
      if blocks[h].parentRoot !in blocks {
        return h;
      }
    }
    NodeOf(blocks, t, rootParent, 0);
    assert hashes[..|hashes|] == hashes;
    assert t[0].root in Elems(hashes);
    r := ZERO_HASH;
  }

  lemma OnlyFirstIsParentless(blocks: map<Hash, LmdNode<Hash>>, t: Tree, rootParent: Hash, h: Hash)
    requires Represents(blocks, RootsIn(t), t, rootParent) && t != [] && h in blocks
    ensures blocks[h].parentRoot !in blocks <==> h == t[0].root && rootParent !in blocks
  {
    BlocksAreKnown(blocks, t, rootParent, h);
    hide Represents;
    var k :| 0 <= k < |t| && t[k].root == h;
    NodeOf(blocks, t, rootParent, k);
    NodeOf(blocks, t, rootParent, 0);
    if k > 0 { NodeOf(blocks, t, rootParent, t[k].parent); }
  }

  lemma ViewWeights(s: Store, votes: map<nat, LmdVote>)
    requires WellFormed(s.tree) && s.balances == WeightsIn(votes) && VoteRoots(s.votes) == TargetsOf(votes)
    ensures WrappedWeights(s) == RuleWeights(s.tree, votes)
  {
    hide VoteWeight;
  }

  datatype LmdError = EmptyTree | UnknownBlock | StaleAttestation

  /** The justified block, or the first block when that is not there. */
  ghost function StartOf(s: Store): (i: int)
    requires s.tree != []
    ensures 0 <= i < |s.tree|
  {
    if Known(s.tree, s.justified.root) then IndexOf(s.tree, s.justified.root) else 0
  }

  /** The head of the map-based rule. */
  ghost function LmdHead(s: Store): Hash
    requires WellFormed(s.tree) && s.tree != []
  {
    s.tree[LowHead(s.tree, WrappedWeights(s), StartOf(s))].root
  }

  /** The head found with the weights of a pass in the given order. */
  ghost predicate HeadInOrder(blocks: map<Hash, LmdNode<Hash>>, votes: map<nat, LmdVote>, t: Tree, order: seq<Hash>,
                              s: int, h: Hash)
    requires ParentsFirst(t) && 0 <= s < |t|
  {
    exists direct, weights ::
      PassOf(blocks, votes, t, order, direct, weights) && h == t[LowHead(t, Observed(t, weights), s)].root
  }

  method WeighAndWalk(blocks: map<Hash, LmdNode<Hash>>, votes: map<nat, LmdVote>, start: Hash, ghost t: Tree,
                      ghost rootParent: Hash, ghost from: int) returns (head: Hash)
    requires Represents(blocks, RootsIn(t), t, rootParent) && WellFormed(t)
    requires 0 <= from < |t| && t[from].root == start
    ensures exists order :: HeadInOrder(blocks, votes, t, order, from, head)
    ensures rootParent !in blocks && Uncontested(t, from) ==> head == t[LowHead(t, RuleWeights(t, votes), from)].root
  {
    hide Represents, LowHead, RuleWeights, Observed, Uncontested, PassOf, LaterGrandchildren;
    var weights := ComputeSubtreeWeights(blocks, votes, t, rootParent);
    head := Walk(blocks, weights, start, t, rootParent, from);
    ghost var order, direct :| PassOf(blocks, votes, t, order, direct, weights);
    assert HeadInOrder(blocks, votes, t, order, from, head);
    if rootParent !in blocks && Uncontested(t, from) {
      PassGivesRuleHead(blocks, order, votes, direct, weights, t, rootParent, from);
    }
  }

  class LmdGhostForkChoice {
    var blocks: map<Hash, LmdNode<Hash>>
    var votes: map<nat, LmdVote>
    var justifiedRoot: Hash
    var prevHead: Hash
    ghost var tree: Tree
    ghost var rootParent: Hash

    ghost predicate Valid()
      reads this
    {
      WellFormed(tree) && Represents(blocks, RootsIn(tree), tree, rootParent)
    }

    /** The store this object stands for, with genesis checkpoints. */
    ghost function View(): Store
      reads this
    {
      Store(tree, MessagesIn(votes), WeightsIn(votes), Checkpoint(0, justifiedRoot), Checkpoint(0, ZERO_HASH))
    }

    constructor (justifiedRoot: Hash)
      ensures Valid() && View() == Fresh(Checkpoint(0, justifiedRoot), Checkpoint(0, ZERO_HASH))
      ensures prevHead == ZERO_HASH
    {
      blocks, votes, tree := map[], map[], [];
      this.justifiedRoot, prevHead, rootParent := justifiedRoot, ZERO_HASH, ZERO_HASH;
    }

    method OnBlock(root: Hash, parentRoot: Hash, slot: nat) returns (err: Option<BlockError>)
      requires Valid()
      modifies this`blocks, this`tree, this`rootParent
      ensures Valid()
      ensures err == if Known(old(tree), root) then Some(DuplicateBlock)
                     else if old(tree) != [] && !Known(old(tree), parentRoot) then Some(UnknownParent)
                     else None
      ensures blocks == if err.Some? then old(blocks) else WithChild(old(blocks), parentRoot, root, slot)
      ensures rootParent == if err.Some? || old(tree) != [] then old(rootParent) else parentRoot
      ensures View() == Step(old(View()), Call.OnBlock(slot, root, parentRoot, 0, 0))
    {
      hide Represents, RootsIn, WellFormed;
      BlocksAreKnown(blocks, tree, rootParent, root);
      BlocksAreKnown(blocks, tree, rootParent, parentRoot);
      StepKeepsWellFormed(View(), Call.OnBlock(slot, root, parentRoot, 0, 0));
      SizesAgree(blocks, tree, rootParent);
      if root in blocks {
        return Some(DuplicateBlock);
      }
      ghost var p, first := -1, parentRoot;
      if |blocks| > 0 {
        if parentRoot !in blocks {
          return Some(UnknownParent);
        }
        p, first := IndexOf(tree, parentRoot), rootParent;
      }
      ghost var b := Block(slot, root, p, 0, 0);
      BlockAppended(blocks, RootsIn(tree), tree, rootParent, first, parentRoot, root, b);
      assert RootsIn(tree + [b]) == RootsIn(tree) + [root];
      blocks := WithChild(blocks, parentRoot, root, slot);
      tree := tree + [b];
      rootParent := first;
      return None;
    }

    method ProcessAttestation(v: nat, target: Hash, epoch: nat, weight: nat) returns (err: Option<LmdError>)
      requires Valid()
      modifies this`votes
      ensures Valid()
      ensures err == if !Known(tree, target) then Some(UnknownBlock)
                     else if v in old(votes) && old(votes)[v].epoch > epoch then Some(StaleAttestation)
                     else None
      ensures View() == if err.Some? then old(View())
                        else Step(Step(old(View()), Call.OnAttestation(v, target, epoch)), Call.SetBalance(v, weight))
    {
      BlocksAreKnown(blocks, tree, rootParent, target);
      hide Represents, WellFormed, Known, MessagesIn, WeightsIn;
      if target !in blocks {
        return Some(UnknownBlock);
      }
      if v in votes && votes[v].epoch > epoch {
        return Some(StaleAttestation);
      }
      VoteRecorded(votes, v, LmdVote(target, epoch, weight));
      votes := votes[v := LmdVote(target, epoch, weight)];
      return None;
    }

    method GetHead() returns (r: Result<Hash, LmdError>, reorg: bool)
      requires Valid()
      modifies this`prevHead
      ensures Valid() && View() == old(View())
      ensures r.Err? <==> tree == [] || (!Known(tree, justifiedRoot)
                                         && (Known(tree, rootParent) || tree[0].root == ZERO_HASH))
      ensures r.Err? ==> r.error == EmptyTree && !reorg && prevHead == old(prevHead)
      ensures r.Ok? ==> prevHead == r.value && (reorg <==> old(prevHead) != ZERO_HASH && old(prevHead) != r.value)
      ensures r.Ok? ==> exists order :: HeadInOrder(blocks, votes, tree, order, StartOf(View()), r.value)
      ensures r.Ok? && !Known(tree, rootParent) && Uncontested(tree, StartOf(View())) ==> r.value == LmdHead(View())
    {
      hide Represents, LowHead, ParentsFirst, DistinctRoots, VoteWeight, MessagesIn, WeightsIn, RuleWeights,
           Uncontested, HeadInOrder;
      SizesAgree(blocks, tree, rootParent);
      BlocksAreKnown(blocks, tree, rootParent, justifiedRoot);
      BlocksAreKnown(blocks, tree, rootParent, rootParent);
      if |blocks| == 0 {
        return Err(EmptyTree), false;
      }
      var start := justifiedRoot;
      ghost var from := IndexOf(tree, justifiedRoot);
      if justifiedRoot !in blocks {
        start := FindAnyRoot(blocks, tree, rootParent);
        from := 0;
        if start == ZERO_HASH {
          return Err(EmptyTree), false;
        }
      }
      var current := WeighAndWalk(blocks, votes, start, tree, rootParent, from);
      MessageRoots(votes);
      ViewWeights(View(), votes);
      ghost var s := View();
      reorg := prevHead != ZERO_HASH && prevHead != current;
      prevHead := current;
      assert View() == s && StartOf(s) == from;
      r := Ok(current);
    }
  }
}
