/** The map-based fork choice object: blocks and votes in maps, weights summed
    in one pass from the highest slot down. */
module LmdForkChoice {
  import opened Collections
  import opened Hashes
  import opened GhostRule
  import opened ForkChoiceStores
  import opened LmdRule

  datatype LmdNode<K> = LmdNode(parentRoot: K, slot: nat, children: seq<K>)

  datatype LmdVote = LmdVote(target: Hash, epoch: nat, weight: nat)

  // ----- the block map stands for a tree -----

  ghost function ChildList(t: Tree, k: int, n: nat): (r: seq<int>)
    requires n <= |t|
    ensures forall c :: c in r <==> 0 <= c < n && t[c].parent == k
  {
    if n == 0 then []
    else if t[n - 1].parent == k then ChildList(t, k, n - 1) + [n - 1]
    else ChildList(t, k, n - 1)
  }

  /** Keys in insertion order. */
  ghost function Pick<K>(keys: seq<K>, at: seq<int>): (r: seq<K>)
    requires forall c :: c in at ==> 0 <= c < |keys|
    ensures |r| == |at| && forall i :: 0 <= i < |at| ==> at[i] in at && r[i] == keys[at[i]]
  {
    seq(|at|, i requires 0 <= i < |at| => assert at[i] in at; keys[at[i]])
  }

  ghost predicate HoldsBlock<K(!new)>(blocks: map<K, LmdNode<K>>, keys: seq<K>, t: Tree, rootParent: K, k: int)
    requires ParentsFirst(t) && |keys| == |t| && 0 <= k < |t|
  {
    && keys[k] in blocks
    && blocks[keys[k]].slot == t[k].slot
    && blocks[keys[k]].parentRoot == (if t[k].parent < 0 then rootParent else keys[t[k].parent])
    && blocks[keys[k]].children == Pick(keys, ChildList(t, k, |t|))
  }

  /** The map holds exactly the blocks of `t`, whose only parentless block is
      the first and names `rootParent` as its parent. */
  ghost predicate Represents<K(!new)>(blocks: map<K, LmdNode<K>>, keys: seq<K>, t: Tree, rootParent: K) {
    && ParentsFirst(t) && |keys| == |t| && Distinct(keys)
    && (forall h :: h in blocks <==> h in keys)
    && (forall k :: 0 < k < |t| ==> t[k].parent >= 0)
    && (forall k :: 0 <= k < |t| ==> HoldsBlock(blocks, keys, t, rootParent, k))
  }

  /** Every block is at a later slot than its parent, where the parent is there. */
  ghost predicate StrictSlots<K(!new)>(blocks: map<K, LmdNode<K>>) {
    forall h :: h in blocks && blocks[h].parentRoot in blocks ==>
                  blocks[blocks[h].parentRoot].slot < blocks[h].slot
  }

  /** As far as it matters to the pass: a block whose parent also has a parent
      is at a later slot than its parent. */
  ghost predicate LaterGrandchildren<K(!new)>(blocks: map<K, LmdNode<K>>) {
    forall h :: h in blocks && HasGrandparent(blocks, h) ==> blocks[blocks[h].parentRoot].slot < blocks[h].slot
  }

  ghost predicate HasGrandparent<K(!new)>(blocks: map<K, LmdNode<K>>, h: K)
    requires h in blocks
  {
    blocks[h].parentRoot in blocks && blocks[blocks[h].parentRoot].parentRoot in blocks
  }

  lemma {:induction false} SlotsAscend<K(!new)>(blocks: map<K, LmdNode<K>>, keys: seq<K>, t: Tree, rootParent: K,
                                                k: int)
    requires Represents(blocks, keys, t, rootParent) && StrictSlots(blocks) && 0 <= k < |t|
    ensures t[0].slot <= t[k].slot
    decreases k
  {
    hide Pick, ChildList;
    if k > 0 {
      SlotsAscend(blocks, keys, t, rootParent, t[k].parent);
      assert HoldsBlock(blocks, keys, t, rootParent, k);
      assert HoldsBlock(blocks, keys, t, rootParent, t[k].parent);
    }
  }

  /** Later grandchildren leave the first block without a parent: with one,
      every block would have a grandparent. */
  lemma RootParentIsUnknown<K(!new)>(blocks: map<K, LmdNode<K>>, keys: seq<K>, t: Tree, rootParent: K)
    requires Represents(blocks, keys, t, rootParent) && LaterGrandchildren(blocks) && |t| > 0
    ensures rootParent !in blocks
  {
    hide HoldsBlock, LaterGrandchildren, StrictSlots, HasGrandparent, Represents;
    if rootParent in blocks {
      EveryBlockHasParent(blocks, keys, t, rootParent);
      StrictRootIsAlone(blocks, keys, t, rootParent);
    }
  }

  lemma StrictRootIsAlone<K(!new)>(blocks: map<K, LmdNode<K>>, keys: seq<K>, t: Tree, rootParent: K)
    requires Represents(blocks, keys, t, rootParent) && StrictSlots(blocks) && |t| > 0
    ensures rootParent !in blocks
  {
    hide Pick, ChildList;
    assert HoldsBlock(blocks, keys, t, rootParent, 0);
    if rootParent in blocks {
      var k :| 0 <= k < |keys| && keys[k] == rootParent;
      assert HoldsBlock(blocks, keys, t, rootParent, k);
      SlotsAscend(blocks, keys, t, rootParent, k);
    }
  }

  lemma EveryBlockHasParent<K(!new)>(blocks: map<K, LmdNode<K>>, keys: seq<K>, t: Tree, rootParent: K)
    requires Represents(blocks, keys, t, rootParent) && rootParent in blocks
    ensures forall h :: h in blocks ==> HasGrandparent(blocks, h)
    ensures LaterGrandchildren(blocks) ==> StrictSlots(blocks)
  {
    hide Pick, ChildList;
    forall h | h in blocks ensures blocks[h].parentRoot in blocks {
      var k :| 0 <= k < |keys| && keys[k] == h;
      assert HoldsBlock(blocks, keys, t, rootParent, k);
      if t[k].parent >= 0 { assert HoldsBlock(blocks, keys, t, rootParent, t[k].parent); }
    }
  }

  // ----- the pass -----

  ghost predicate Descending<K(!new)>(order: seq<K>, slot: map<K, nat>) {
    && (forall i :: 0 <= i < |order| ==> order[i] in slot)
    && (forall i, j :: 0 <= i < j < |order| ==> slot[order[i]] >= slot[order[j]])
  }

  /** `order` is sorted up to `i`, and nothing after beats what is before. */
  ghost predicate SortedUpTo<K(!new)>(order: seq<K>, slot: map<K, nat>, i: int) {
    && (forall a :: 0 <= a < |order| ==> order[a] in slot)
    && (forall a, b :: 0 <= a < b < |order| && a < i ==> slot[order[a]] >= slot[order[b]])
  }

  lemma SwapKeeps<K(!new)>(s: seq<K>, i: int, j: int)
    requires 0 <= i < j < |s| && Distinct(s)
    ensures var r := s[i := s[j]][j := s[i]]; Distinct(r) && forall h :: h in r <==> h in s
  {
    var r := s[i := s[j]][j := s[i]];
    assert r[i] == s[j] && r[j] == s[i];
    forall h | h in s ensures h in r {
      var a :| 0 <= a < |s| && s[a] == h;
      if a != i && a != j { assert r[a] == h; }
    }
  }

  /** The exchange sort: descending by slot. What is in such an order already
      stays as it is, so any such order may come out. */
  method SortBySlot<K(!new, ==)>(items: seq<K>, slot: map<K, nat>) returns (order: seq<K>)
    requires Distinct(items) && forall h :: h in items ==> h in slot
    ensures Distinct(order) && (forall h :: h in order <==> h in items) && Descending(order, slot)
    ensures Descending(items, slot) ==> order == items
  {
    order := items;
    var i := 0;
    while i < |order|
      invariant 0 <= i <= |order| && |order| == |items|
      invariant Distinct(order) && forall h :: h in order <==> h in items
      invariant SortedUpTo(order, slot, i)
      invariant Descending(items, slot) ==> order == items
    {
      order := FloatUp(order, slot, i);
      i := i + 1;
    }
  }

  /** One round: the highest slot from `i` on ends at `i`. */
  method FloatUp<K(!new, ==)>(items: seq<K>, slot: map<K, nat>, i: nat) returns (order: seq<K>)
    requires i < |items| && Distinct(items) && SortedUpTo(items, slot, i)
    ensures |order| == |items| && Distinct(order) && (forall h :: h in order <==> h in items)
    ensures SortedUpTo(order, slot, i + 1)
    ensures Descending(items, slot) ==> order == items
  {
    order := items;
    var j := i + 1;
    while j < |order|
      invariant i < j <= |order| == |items|
      invariant Distinct(order) && forall h :: h in order <==> h in items
      invariant SortedUpTo(order, slot, i)
      invariant forall b :: i < b < j ==> slot[order[i]] >= slot[order[b]]
      invariant Descending(items, slot) ==> order == items
    {
      if slot[order[i]] < slot[order[j]] {
        SwapKeeps(order, i, j);
        SwapSorted(order, slot, i, j);
        order := order[i := order[j]][j := order[i]];
      }
      j := j + 1;
    }
  }

  lemma SwapSorted<K(!new)>(s: seq<K>, slot: map<K, nat>, i: int, j: int)
    requires 0 <= i < j < |s| && SortedUpTo(s, slot, i) && slot[s[i]] < slot[s[j]]
    requires forall b :: i < b < j ==> slot[s[i]] >= slot[s[b]]
    ensures var r := s[i := s[j]][j := s[i]];
            SortedUpTo(r, slot, i) && forall b :: i < b < j + 1 ==> slot[r[i]] >= slot[r[b]]
  {
  }

  function WeightOf<K(==)>(weights: map<K, nat>, h: K): nat {
    if h in weights then weights[h] else 0
  }

  /** Weights after the blocks in `done` have passed theirs up. */
  ghost predicate PassedBy<K(!new)>(weights: map<K, nat>, keys: seq<K>, t: Tree, d: seq<nat>, done: set<int>)
    requires ParentsFirst(t) && |d| == |t|
  {
    |keys| == |t| && forall k :: 0 <= k < |t| ==> WeightOf(weights, keys[k]) == ReachedSum(t, d, done, k, |t|) % TWO_64
  }

  /** `done` are the positions of the first `i` keys of `order` that have a parent. */
  ghost predicate Taken<K(!new)>(order: seq<K>, keys: seq<K>, t: Tree, i: int, done: set<int>)
    requires 0 <= i <= |order| && |keys| == |t|
  {
    && (forall k :: k in done ==> 0 <= k < |keys| && t[k].parent >= 0 && keys[k] in order[..i])
    && (forall k :: 0 <= k < |keys| && t[k].parent >= 0 && keys[k] in order[..i] ==> k in done)
  }

  lemma TakenGrows<K(!new)>(order: seq<K>, keys: seq<K>, t: Tree, i: int, done: set<int>, a: int)
    requires 0 <= i < |order| && |keys| == |t| && Taken(order, keys, t, i, done) && Distinct(order) && Distinct(keys)
    requires 0 <= a < |keys| && keys[a] == order[i]
    ensures a !in done && Taken(order, keys, t, i + 1, if t[a].parent >= 0 then done + {a} else done)
  {
    assert order[..i + 1] == order[..i] + [order[i]];
  }

  /** In descending order the parent of the next block has not been taken, or
      has no parent itself. */
  lemma ParentNotTaken<K(!new)>(blocks: map<K, LmdNode<K>>, order: seq<K>, keys: seq<K>, t: Tree, rootParent: K, i: int,
                                done: set<int>, a: int)
    requires Represents(blocks, keys, t, rootParent) && LaterGrandchildren(blocks)
    requires 0 <= i < |order| && Taken(order, keys, t, i, done) && Descending(order, SlotsOf(blocks))
    requires 0 <= a < |keys| && keys[a] == order[i]
    ensures t[a].parent !in done
    ensures if t[a].parent >= 0 then
              blocks[order[i]].parentRoot in blocks && blocks[order[i]].parentRoot == keys[t[a].parent]
            else blocks[order[i]].parentRoot !in blocks
  {
    hide Pick, ChildList;
    assert HoldsBlock(blocks, keys, t, rootParent, a);
    RootParentIsUnknown(blocks, keys, t, rootParent);
    if t[a].parent >= 0 {
      var p, slot := t[a].parent, SlotsOf(blocks);
      assert HoldsBlock(blocks, keys, t, rootParent, p);
      if t[p].parent >= 0 { assert HoldsBlock(blocks, keys, t, rootParent, t[p].parent); }
      forall j | 0 <= j < i && order[j] == keys[p] ensures slot[order[j]] >= slot[order[i]] {}
    }
  }

  lemma PassToParent<K(!new)>(weights: map<K, nat>, keys: seq<K>, t: Tree, d: seq<nat>, done: set<int>, a: int)
    requires ParentsFirst(t) && |d| == |t| && PassedBy(weights, keys, t, d, done) && Distinct(keys)
    requires 0 <= a < |t| && a !in done && t[a].parent !in done && t[a].parent >= 0
    ensures var p := keys[t[a].parent];
            PassedBy(weights[p := (WeightOf(weights, p) + WeightOf(weights, keys[a])) % TWO_64], keys, t, d, done + {a})
  {
    hide ReachedSum;
    var q := t[a].parent;
    var p := keys[q];
    var after := weights[p := (WeightOf(weights, p) + WeightOf(weights, keys[a])) % TWO_64];
    AddWrapped(ReachedSum(t, d, done, q, |t|), ReachedSum(t, d, done, a, |t|));
    forall k | 0 <= k < |t| ensures WeightOf(after, keys[k]) == ReachedSum(t, d, done + {a}, k, |t|) % TWO_64 {
      PassSum(t, d, done, a, k, |t|);
      if k != q { assert keys[k] != p; }
    }
  }

  ghost function SlotsOf<K(!new)>(blocks: map<K, LmdNode<K>>): map<K, nat> {
    map h | h in blocks :: blocks[h].slot
  }

  /** The state of the pass after the first `i` blocks of `order`. */
  ghost predicate PassState<K(!new)>(order: seq<K>, i: int, keys: seq<K>, weights: map<K, nat>, t: Tree, d: seq<nat>,
                                     done: set<int>)
    requires ParentsFirst(t) && |d| == |t| == |keys| && 0 <= i <= |order|
  {
    Taken(order, keys, t, i, done) && PassedBy(weights, keys, t, d, done)
  }

  lemma PassStarts<K(!new)>(order: seq<K>, keys: seq<K>, weights: map<K, nat>, t: Tree, d: seq<nat>)
    requires ParentsFirst(t) && |d| == |t| == |keys| && Weighs(weights, keys, d)
    ensures PassState(order, 0, keys, weights, t, d, {})
  {
    forall k | 0 <= k < |t| ensures ReachedSum(t, d, {}, k, |t|) == d[k] { NothingPassed(t, d, k, |t|); }
  }

  /** What the pass does with one block. */
  function AfterBlock<K(!new, ==)>(blocks: map<K, LmdNode<K>>, weights: map<K, nat>, h: K): map<K, nat>
    requires h in blocks
  {
    var p := blocks[h].parentRoot;
    if p in blocks then weights[p := (WeightOf(weights, p) + WeightOf(weights, h)) % TWO_64] else weights
  }

  /** The weights after the blocks of `order`, one after the other. */
  ghost function AfterPass<K(!new)>(blocks: map<K, LmdNode<K>>, order: seq<K>, weights: map<K, nat>): map<K, nat>
    requires forall h :: h in order ==> h in blocks
  {
    if order == [] then weights
    else AfterBlock(blocks, AfterPass(blocks, order[..|order| - 1], weights), order[|order| - 1])
  }

  lemma AfterOneMore<K(!new)>(blocks: map<K, LmdNode<K>>, order: seq<K>, weights: map<K, nat>, n: nat)
    requires n < |order| && forall h :: h in order ==> h in blocks
    ensures AfterPass(blocks, order[..n + 1], weights) ==
            AfterBlock(blocks, AfterPass(blocks, order[..n], weights), order[n])
  {
    assert order[..n + 1][..n] == order[..n];
  }

  ghost predicate Weighs<K(!new)>(weights: map<K, nat>, keys: seq<K>, d: seq<nat>) {
    |d| == |keys| && forall k :: 0 <= k < |keys| ==> WeightOf(weights, keys[k]) == d[k] % TWO_64
  }

  /** Every block once, highest slot first. */
  ghost predicate Admissible<K(!new)>(blocks: map<K, LmdNode<K>>, order: seq<K>) {
    Distinct(order) && (forall h :: h in order <==> h in blocks) && Descending(order, SlotsOf(blocks))
  }

  lemma PassAdvances<K(!new)>(blocks: map<K, LmdNode<K>>, order: seq<K>, i: int, keys: seq<K>, weights: map<K, nat>,
                              t: Tree, rootParent: K, d: seq<nat>, done: set<int>) returns (more: set<int>)
    requires Represents(blocks, keys, t, rootParent) && LaterGrandchildren(blocks) && |d| == |t|
    requires Admissible(blocks, order) && 0 <= i < |order| && PassState(order, i, keys, weights, t, d, done)
    ensures order[i] in blocks && PassState(order, i + 1, keys, AfterBlock(blocks, weights, order[i]), t, d, more)
  {
    hide Taken, PassedBy, Descending, HoldsBlock, LaterGrandchildren;
    assert order[i] in order;
    var a :| 0 <= a < |keys| && keys[a] == order[i];
    ParentNotTaken(blocks, order, keys, t, rootParent, i, done, a);
    TakenGrows(order, keys, t, i, done, a);
    more := if t[a].parent >= 0 then done + {a} else done;
    if t[a].parent >= 0 { PassToParent(weights, keys, t, d, done, a); }
  }

  lemma {:induction false} PassSoFar<K(!new)>(blocks: map<K, LmdNode<K>>, order: seq<K>, n: nat, keys: seq<K>,
                                              direct: map<K, nat>, t: Tree, rootParent: K, d: seq<nat>)
    returns (done: set<int>)
    requires Represents(blocks, keys, t, rootParent) && LaterGrandchildren(blocks) && Weighs(direct, keys, d)
    requires Admissible(blocks, order) && n <= |order|
    ensures PassState(order, n, keys, AfterPass(blocks, order[..n], direct), t, d, done)
  {
    hide PassState, HoldsBlock, LaterGrandchildren, AfterPass, AfterBlock, Descending;
    if n == 0 {
      done := {};
      PassStarts(order, keys, direct, t, d);
      assert order[..0] == [];
      AfterNothing(blocks, direct);
    } else {
      done := PassSoFar(blocks, order, n - 1, keys, direct, t, rootParent, d);
      AfterOneMore(blocks, order, direct, n - 1);
      var weights := AfterPass(blocks, order[..n - 1], direct);
      done := PassAdvances(blocks, order, n - 1, keys, weights, t, rootParent, d, done);
    }
  }

  lemma AfterNothing<K(!new)>(blocks: map<K, LmdNode<K>>, weights: map<K, nat>)
    ensures AfterPass(blocks, [], weights) == weights
  {
  }

  lemma PassEnds<K(!new)>(order: seq<K>, keys: seq<K>, weights: map<K, nat>, t: Tree, d: seq<nat>, done: set<int>)
    requires ParentsFirst(t) && |d| == |t| == |keys| && PassState(order, |order|, keys, weights, t, d, done)
    requires forall k :: 0 <= k < |keys| ==> keys[k] in order
    ensures forall k :: 0 <= k < |t| ==> WeightOf(weights, keys[k]) == SubtreeSum(t, d, k, |t|) % TWO_64
  {
    hide ReachedSum, SubtreeSum;
    assert order[..|order|] == order;
    forall k | 0 <= k < |t| ensures ReachedSum(t, d, done, k, |t|) == SubtreeSum(t, d, k, |t|) {
      AllPassed(t, d, done, k, |t|);
    }
  }

  /** In any order by descending slot, each block ends with its subtree's sum. */
  lemma PassSumsSubtrees<K(!new)>(blocks: map<K, LmdNode<K>>, order: seq<K>, keys: seq<K>, direct: map<K, nat>, t: Tree,
                                  rootParent: K, d: seq<nat>)
    requires Represents(blocks, keys, t, rootParent) && LaterGrandchildren(blocks) && Weighs(direct, keys, d)
    requires Admissible(blocks, order)
    ensures forall k :: 0 <= k < |t| ==>
                          WeightOf(AfterPass(blocks, order, direct), keys[k]) == SubtreeSum(t, d, k, |t|) % TWO_64
  {
    hide PassState, HoldsBlock, LaterGrandchildren, AfterPass, Descending, SubtreeSum;
    var done := PassSoFar(blocks, order, |order|, keys, direct, t, rootParent, d);
    assert order[..|order|] == order;
    PassEnds(order, keys, AfterPass(blocks, order, direct), t, d, done);
  }

  /** Adds every block's weight to its parent's, in the given order. */
  method PassWeights<K(!new, ==)>(blocks: map<K, LmdNode<K>>, order: seq<K>, direct: map<K, nat>)
    returns (weights: map<K, nat>)
    requires forall h :: h in order ==> h in blocks
    ensures weights == AfterPass(blocks, order, direct)
  {
    weights := direct;
    for i := 0 to |order|
      invariant weights == AfterPass(blocks, order[..i], direct)
    {
      var h := order[i];
      assert h in order;
      AfterOneMore(blocks, order, direct, i);
      var p := blocks[h].parentRoot;
      if p in blocks {
        weights := weights[p := (WeightOf(weights, p) + WeightOf(weights, h)) % TWO_64];
      }
    }
    assert order[..|order|] == order;
  }

  // ----- a new block -----

  lemma {:induction false} ChildListAppend(t: Tree, b: Block, k: int, n: nat)
    requires n <= |t|
    ensures ChildList(t + [b], k, n) == ChildList(t, k, n)
  {
    if n > 0 { ChildListAppend(t, b, k, n - 1); }
  }

  lemma PickAppend<K>(keys: seq<K>, h: K, at: seq<int>)
    requires forall c :: c in at ==> 0 <= c < |keys|
    ensures Pick(keys + [h], at) == Pick(keys, at)
  {
    forall i | 0 <= i < |at| ensures Pick(keys + [h], at)[i] == Pick(keys, at)[i] { assert at[i] in at; }
  }

  lemma {:induction false} NoChildrenYet(t: Tree, k: int, n: nat)
    requires n <= |t| && forall c :: 0 <= c < n ==> t[c].parent != k
    ensures ChildList(t, k, n) == []
  {
    if n > 0 { NoChildrenYet(t, k, n - 1); }
  }

  /** The new block joins its parent's children and has none itself. */
  lemma ChildrenAppend<K>(keys: seq<K>, t: Tree, h: K, b: Block, k: int)
    requires ParentsFirst(t) && |keys| == |t| && -1 <= b.parent < |t| && 0 <= k <= |t|
    ensures Pick(keys + [h], ChildList(t + [b], k, |t| + 1)) ==
            if k == |t| then [] else Pick(keys, ChildList(t, k, |t|)) + if b.parent == k then [h] else []
  {
    var u := t + [b];
    ChildListAppend(t, b, k, |t|);
    var list := ChildList(t, k, |t|);
    PickAppend(keys, h, list);
    if k == |t| {
      NoChildrenYet(t, k, |t|);
    } else if b.parent == k {
      assert ChildList(u, k, |t| + 1) == list + [|t|];
      assert Pick(keys + [h], list + [|t|]) == Pick(keys + [h], list) + [h];
    }
  }

  /** The block map after a block has been added under its parent. */
  function WithChild<K(!new, ==)>(blocks: map<K, LmdNode<K>>, parentRoot: K, h: K, slot: nat): map<K, LmdNode<K>> {
    (if parentRoot in blocks then
       blocks[parentRoot := blocks[parentRoot].(children := blocks[parentRoot].children + [h])]
     else blocks)[h := LmdNode(parentRoot, slot, [])]
  }

  lemma BlockAppended<K(!new)>(blocks: map<K, LmdNode<K>>, keys: seq<K>, t: Tree, rootParent: K, first: K,
                               parentRoot: K, h: K, b: Block)
    requires Represents(blocks, keys, t, rootParent) && h !in blocks
    requires if t == [] then b.parent == -1 && first == parentRoot
             else 0 <= b.parent < |t| && keys[b.parent] == parentRoot && first == rootParent
    ensures Represents(WithChild(blocks, parentRoot, h, b.slot), keys + [h], t + [b], first)
  {
    hide ChildList, Pick;
    var u, ks, after := t + [b], keys + [h], WithChild(blocks, parentRoot, h, b.slot);
    assert Distinct(ks) by {
      forall i | 0 <= i < |keys| ensures keys[i] != h { assert keys[i] in keys; }
    }
    forall k | 0 <= k < |u| ensures HoldsBlock(after, ks, u, first, k) {
      ChildrenAppend(keys, t, h, b, k);
      if k < |t| {
        assert HoldsBlock(blocks, keys, t, rootParent, k);
        assert keys[k] == parentRoot <==> k == b.parent;
      }
    }
    forall x ensures x in after <==> x in ks {
      if t != [] { assert keys[b.parent] in keys; }
    }
  }
}
