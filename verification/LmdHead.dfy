/** Exactly when the head found with one-pass weights is right: for every order
    by descending slot and all votes, if and only if no weight that gets stuck
    is missing from a block that competes with a sibling below the start. */
module LmdHeads {
  import opened Collections
  import opened GhostRule
  import opened LmdRule
  import opened LmdForkChoice
  import opened LmdExact

  /** A block no later than its parent, which has a parent itself: its weight
      may reach the parent only after the parent's has gone up. */
  ghost predicate Early(t: Tree, h: int)
    requires ParentsFirst(t)
  {
    0 <= h < |t| && var p := t[h].parent; p >= 0 && t[p].parent >= 0 && t[p].slot >= t[h].slot
  }

  /** No weight is lost on the way to `c`. */
  ghost predicate Clean(t: Tree, c: int)
    requires ParentsFirst(t)
  {
    forall h :: Early(t, h) ==> !Ancestor(t, c, t[t[h].parent].parent)
  }

  ghost predicate Siblings(t: Tree, c: int, e: int) {
    0 <= c < |t| && 0 <= e < |t| && c != e && t[c].parent == t[e].parent
  }

  /** Every block below `s` that has a sibling is clean. */
  ghost predicate Uncontested(t: Tree, s: int)
    requires ParentsFirst(t)
  {
    forall c, e :: Siblings(t, c, e) && c != s && Ancestor(t, s, c) ==> Clean(t, c)
  }

  // ----- a clean block gets its full weight -----

  ghost predicate StrictlyBelow(t: Tree, c: int, k: int)
    requires ParentsFirst(t)
  {
    k != c && Ancestor(t, c, k)
  }

  /** `done` are the blocks strictly below `c` among the first `i` of `order`. */
  ghost predicate TakenBelow<K(!new)>(order: seq<K>, keys: seq<K>, t: Tree, c: int, i: int, done: set<int>)
    requires ParentsFirst(t) && 0 <= i <= |order| && |keys| == |t|
  {
    forall k :: k in done <==> 0 <= k < |t| && StrictlyBelow(t, c, k) && keys[k] in order[..i]
  }

  ghost predicate HeldBelow<K(!new)>(w: map<K, nat>, keys: seq<K>, t: Tree, d: seq<nat>, c: int, done: set<int>)
    requires ParentsFirst(t) && |d| == |t| == |keys|
  {
    forall k :: 0 <= k < |t| && Ancestor(t, c, k) ==> WeightOf(w, keys[k]) == ReachedSum(t, d, done, k, |t|) % TWO_64
  }

  lemma HeldStarts<K(!new)>(order: seq<K>, w: map<K, nat>, keys: seq<K>, t: Tree, d: seq<nat>, c: int)
    requires ParentsFirst(t) && Weighs(w, keys, d) && |d| == |t|
    ensures TakenBelow(order, keys, t, c, 0, {}) && HeldBelow(w, keys, t, d, c, {})
  {
    hide ReachedSum, Ancestor;
    forall k | 0 <= k < |t| ensures ReachedSum(t, d, {}, k, |t|) == d[k] { NothingPassed(t, d, k, |t|); }
  }

  lemma TakenBelowGrows<K(!new)>(order: seq<K>, keys: seq<K>, t: Tree, c: int, i: int, done: set<int>, a: int)
    requires ParentsFirst(t) && 0 <= i < |order| && |keys| == |t| && Distinct(order) && Distinct(keys)
    requires TakenBelow(order, keys, t, c, i, done) && 0 <= a < |t| && keys[a] == order[i]
    ensures a !in done
    ensures TakenBelow(order, keys, t, c, i + 1, if StrictlyBelow(t, c, a) then done + {a} else done)
  {
    hide StrictlyBelow;
    assert order[..i + 1] == order[..i] + [order[i]];
    forall k | 0 <= k < |t| && keys[k] == order[i] ensures k == a {}
  }

  /** Strictly below `c`, a block's parent is `c` or strictly below it. */
  lemma ParentBelow(t: Tree, c: int, a: int)
    requires ParentsFirst(t) && 0 <= a < |t|
    ensures StrictlyBelow(t, c, a) <==> t[a].parent >= 0 && Ancestor(t, c, t[a].parent)
  {
    if a == c && t[a].parent >= 0 && Ancestor(t, c, t[a].parent) { AncestorBelow(t, c, t[a].parent); }
  }

  /** A parent taken before its child makes the child early. */
  lemma TakenParentIsEarly<K(!new)>(blocks: map<K, LmdNode<K>>, order: seq<K>, keys: seq<K>, t: Tree, rootParent: K,
                                    c: int, i: int, done: set<int>, a: int)
    requires Represents(blocks, keys, t, rootParent) && Descending(order, SlotsOf(blocks))
    requires 0 <= i < |order| && TakenBelow(order, keys, t, c, i, done)
    requires 0 <= a < |t| && keys[a] == order[i] && t[a].parent in done
    ensures Early(t, a) && Ancestor(t, c, t[t[a].parent].parent)
  {
    hide Pick, ChildList, Ancestor, StrictlyBelow;
    var q := t[a].parent;
    ParentBelow(t, c, q);
    var j :| 0 <= j < i && order[j] == keys[q];
    assert HoldsBlock(blocks, keys, t, rootParent, a) && HoldsBlock(blocks, keys, t, rootParent, q);
    assert SlotsOf(blocks)[order[j]] >= SlotsOf(blocks)[order[i]];
  }

  /** Below a clean block the parent has not been taken. */
  lemma CleanParentNotTaken<K(!new)>(blocks: map<K, LmdNode<K>>, order: seq<K>, keys: seq<K>, t: Tree, rootParent: K,
                                     c: int, i: int, done: set<int>, a: int)
    requires Represents(blocks, keys, t, rootParent) && Clean(t, c) && Descending(order, SlotsOf(blocks))
    requires 0 <= i < |order| && TakenBelow(order, keys, t, c, i, done)
    requires 0 <= a < |t| && keys[a] == order[i] && StrictlyBelow(t, c, a)
    ensures t[a].parent !in done
  {
    hide HoldsBlock, Ancestor, StrictlyBelow, Early, Descending;
    if t[a].parent in done { TakenParentIsEarly(blocks, order, keys, t, rootParent, c, i, done, a); }
  }

  lemma PassBelow<K(!new)>(w: map<K, nat>, after: map<K, nat>, keys: seq<K>, t: Tree, d: seq<nat>, c: int,
                           done: set<int>, a: int)
    requires ParentsFirst(t) && |d| == |t| == |keys| && Distinct(keys) && HeldBelow(w, keys, t, d, c, done)
    requires 0 <= a < |t| && a !in done && StrictlyBelow(t, c, a) && t[a].parent !in done && t[a].parent >= 0
    requires var p := keys[t[a].parent]; after == w[p := (WeightOf(w, p) + WeightOf(w, keys[a])) % TWO_64]
    ensures HeldBelow(after, keys, t, d, c, done + {a})
  {
    hide ReachedSum, Ancestor;
    var q := t[a].parent;
    ParentBelow(t, c, a);
    AddWrapped(ReachedSum(t, d, done, q, |t|), ReachedSum(t, d, done, a, |t|));
    forall k | 0 <= k < |t| && Ancestor(t, c, k)
      ensures WeightOf(after, keys[k]) == ReachedSum(t, d, done + {a}, k, |t|) % TWO_64
    {
      PassSum(t, d, done, a, k, |t|);
      if k != q { assert keys[k] != keys[q]; }
    }
  }

  /** A block that is not below `c` passes nothing into its subtree. */
  lemma PassOutside<K(!new)>(blocks: map<K, LmdNode<K>>, w: map<K, nat>, keys: seq<K>, t: Tree, rootParent: K,
                             d: seq<nat>, c: int, done: set<int>, a: int)
    requires Represents(blocks, keys, t, rootParent) && rootParent !in blocks && |d| == |t|
    requires HeldBelow(w, keys, t, d, c, done) && 0 <= a < |t| && !StrictlyBelow(t, c, a)
    ensures keys[a] in blocks && HeldBelow(AfterBlock(blocks, w, keys[a]), keys, t, d, c, done)
  {
    hide Pick, ChildList, Ancestor, ReachedSum, StrictlyBelow;
    assert HoldsBlock(blocks, keys, t, rootParent, a);
    ParentBelow(t, c, a);
    if t[a].parent >= 0 {
      var q := t[a].parent;
      forall k | 0 <= k < |t| && Ancestor(t, c, k) ensures keys[k] != keys[q] { assert k != q; }
    }
  }

  lemma {:induction false} HeldSoFar<K(!new)>(blocks: map<K, LmdNode<K>>, order: seq<K>, keys: seq<K>,
                                              direct: map<K, nat>, t: Tree, rootParent: K, d: seq<nat>, c: int, n: nat)
      returns (done: set<int>)
    requires Represents(blocks, keys, t, rootParent) && rootParent !in blocks && Admissible(blocks, order)
    requires Weighs(direct, keys, d) && |d| == |t| && Clean(t, c) && n <= |order|
    ensures TakenBelow(order, keys, t, c, n, done)
    ensures HeldBelow(AfterPass(blocks, order[..n], direct), keys, t, d, c, done)
  {
    hide HoldsBlock, Clean, AfterPass, AfterBlock, Descending, TakenBelow, HeldBelow, StrictlyBelow, Weighs;
    if n == 0 {
      done := {};
      HeldStarts(order, direct, keys, t, d, c);
      assert order[..0] == [];
      AfterNothing(blocks, direct);
    } else {
      var i := n - 1;
      var before := HeldSoFar(blocks, order, keys, direct, t, rootParent, d, c, i);
      AfterOneMore(blocks, order, direct, i);
      var w := AfterPass(blocks, order[..i], direct);
      assert order[i] in order;
      var a :| 0 <= a < |keys| && keys[a] == order[i];
      TakenBelowGrows(order, keys, t, c, i, before, a);
      if StrictlyBelow(t, c, a) {
        done := before + {a};
        CleanParentNotTaken(blocks, order, keys, t, rootParent, c, i, before, a);
        PassIsToParent(blocks, keys, t, rootParent, c, w, a);
        PassBelow(w, AfterBlock(blocks, w, keys[a]), keys, t, d, c, before, a);
      } else {
        done := before;
        PassOutside(blocks, w, keys, t, rootParent, d, c, before, a);
      }
    }
  }

  lemma PassIsToParent<K(!new)>(blocks: map<K, LmdNode<K>>, keys: seq<K>, t: Tree, rootParent: K, c: int,
                                w: map<K, nat>, a: int)
    requires Represents(blocks, keys, t, rootParent) && 0 <= a < |t| && StrictlyBelow(t, c, a)
    ensures t[a].parent >= 0 && keys[a] in blocks
    ensures var p := keys[t[a].parent];
            AfterBlock(blocks, w, keys[a]) == w[p := (WeightOf(w, p) + WeightOf(w, keys[a])) % TWO_64]
  {
    hide Pick, ChildList, Ancestor;
    ParentBelow(t, c, a);
    assert HoldsBlock(blocks, keys, t, rootParent, a) && HoldsBlock(blocks, keys, t, rootParent, t[a].parent);
  }

  lemma {:induction false} AllTakenReaches(t: Tree, done: set<int>, c: int, j: int)
    requires ParentsFirst(t) && forall i :: 0 <= i < |t| && StrictlyBelow(t, c, i) ==> i in done
    ensures Reached(t, done, c, j) <==> Ancestor(t, c, j)
    decreases j
  {
    if 0 <= j < |t| && t[j].parent >= 0 { AllTakenReaches(t, done, c, t[j].parent); }
  }

  lemma {:induction false} AllTakenSum(t: Tree, d: seq<nat>, done: set<int>, c: int, n: nat)
    requires ParentsFirst(t) && n <= |t| && |d| == |t|
    requires forall i :: 0 <= i < |t| && StrictlyBelow(t, c, i) ==> i in done
    ensures ReachedSum(t, d, done, c, n) == SubtreeSum(t, d, c, n)
  {
    if n > 0 {
      AllTakenSum(t, d, done, c, n - 1);
      AllTakenReaches(t, done, c, n - 1);
    }
  }

  /** In any order by descending slot a clean block ends with its subtree's sum. */
  lemma CleanIsRight<K(!new)>(blocks: map<K, LmdNode<K>>, order: seq<K>, keys: seq<K>, direct: map<K, nat>, t: Tree,
                              rootParent: K, d: seq<nat>, c: int)
    requires Represents(blocks, keys, t, rootParent) && rootParent !in blocks && Admissible(blocks, order)
    requires Weighs(direct, keys, d) && 0 <= c < |t| && Clean(t, c)
    ensures WeightOf(AfterPass(blocks, order, direct), keys[c]) == SubtreeSum(t, d, c, |t|) % TWO_64
  {
    hide HoldsBlock, Clean, AfterPass, Descending, StrictlyBelow, ReachedSum, SubtreeSum;
    var done := HeldSoFar(blocks, order, keys, direct, t, rootParent, d, c, |order|);
    assert order[..|order|] == order;
    forall i | 0 <= i < |t| && StrictlyBelow(t, c, i) ensures i in done { assert keys[i] in keys; }
    AllTakenSum(t, d, done, c, |t|);
  }

  // ----- the walk needs no more -----

  /** The weights of the pass, by position. */
  ghost function Passed<K(!new)>(blocks: map<K, LmdNode<K>>, keys: seq<K>, order: seq<K>,
                                 direct: map<K, nat>): (w: seq<nat>)
    requires forall h :: h in order ==> h in blocks
    ensures |w| == |keys| && forall k :: 0 <= k < |w| ==> w[k] == WeightOf(AfterPass(blocks, order, direct), keys[k])
  {
    seq(|keys|, k requires 0 <= k < |keys| => WeightOf(AfterPass(blocks, order, direct), keys[k]))
  }

  /** The subtree sums in 64 bits. */
  ghost function Sums(t: Tree, d: seq<nat>): (w: seq<nat>)
    requires ParentsFirst(t) && |d| == |t|
    ensures |w| == |t| && forall k :: 0 <= k < |w| ==> w[k] == SubtreeSum(t, d, k, |t|) % TWO_64
  {
    seq(|t|, k requires 0 <= k < |t| => SubtreeSum(t, d, k, |t|) % TWO_64)
  }

  /** The weights agree on every block below `s` that has a sibling. */
  ghost predicate SameWhereContested(t: Tree, v: seq<nat>, w: seq<nat>, s: int)
    requires ParentsFirst(t) && |v| == |w| == |t|
  {
    forall c, e :: Siblings(t, c, e) && c != s && Ancestor(t, s, c) ==> v[c] == w[c]
  }

  lemma ChildIsBelow(t: Tree, s: int, k: int, c: int)
    requires ParentsFirst(t) && 0 <= s && Ancestor(t, s, k) && Child(t, k, c)
    ensures Ancestor(t, s, c) && c != s
  {
    AncestorBelow(t, s, k);
  }

  lemma SameBestChild(t: Tree, v: seq<nat>, w: seq<nat>, s: int, k: int, c: int)
    requires ParentsFirst(t) && |v| == |w| == |t| && SameWhereContested(t, v, w, s)
    requires 0 <= s && Ancestor(t, s, k) && LowBest(t, v, k, c)
    ensures LowBest(t, w, k, c)
  {
    hide Ancestor;
    forall e | Child(t, k, e) && e != c ensures LowBeats(t, w, c, e) {
      ChildIsBelow(t, s, k, c);
      ChildIsBelow(t, s, k, e);
      assert Siblings(t, c, e) && Siblings(t, e, c);
      assert LowBeats(t, v, c, e);
    }
  }

  lemma {:induction false} SameWalk(t: Tree, v: seq<nat>, w: seq<nat>, s: int, k: int)
    requires ParentsFirst(t) && |v| == |w| == |t| && SameWhereContested(t, v, w, s)
    requires 0 <= s && 0 <= k < |t| && Ancestor(t, s, k)
    ensures LowHead(t, v, k) == LowHead(t, w, k)
    decreases |t| - k
  {
    hide LowHead, Ancestor, LowBest, SameWhereContested;
    SameTheOtherWay(t, v, w, s);
    if c :| LowBest(t, v, k, c) {
      SameBestChild(t, v, w, s, k, c);
      LowHeadStep(t, v, k, c);
      LowHeadStep(t, w, k, c);
      BestIsChild(t, v, k, c);
      ChildIsBelow(t, s, k, c);
      SameWalk(t, v, w, s, c);
    } else {
      forall c ensures !LowBest(t, w, k, c) { if LowBest(t, w, k, c) { SameBestChild(t, w, v, s, k, c); } }
      NoBestStops(t, v, k);
      NoBestStops(t, w, k);
    }
  }

  lemma SameTheOtherWay(t: Tree, v: seq<nat>, w: seq<nat>, s: int)
    requires ParentsFirst(t) && |v| == |w| == |t| && SameWhereContested(t, v, w, s)
    ensures SameWhereContested(t, w, v, s)
  {
  }

  lemma UncontestedWalk<K(!new)>(blocks: map<K, LmdNode<K>>, order: seq<K>, keys: seq<K>, direct: map<K, nat>, t: Tree,
                                 rootParent: K, d: seq<nat>, s: int)
    requires Represents(blocks, keys, t, rootParent) && rootParent !in blocks && Admissible(blocks, order)
    requires Weighs(direct, keys, d) && |d| == |t| && 0 <= s < |t| && Uncontested(t, s)
    ensures forall h :: h in order ==> h in blocks
    ensures LowHead(t, Passed(blocks, keys, order, direct), s) == LowHead(t, Sums(t, d), s)
  {
    hide HoldsBlock, Clean, AfterPass, Descending, SubtreeSum, LowHead, Ancestor, Distinct, Weighs;
    var v, w := Passed(blocks, keys, order, direct), Sums(t, d);
    forall c, e | Siblings(t, c, e) && c != s && Ancestor(t, s, c) ensures v[c] == w[c] {
      assert Clean(t, c);
      CleanIsRight(blocks, order, keys, direct, t, rootParent, d, c);
    }
    SelfIsAncestor(t, s);
    SameWalk(t, v, w, s, s);
  }

  // ----- a contested block that is not clean misleads the walk -----

  /** A walk that ends below `c` took `c`. */
  lemma {:induction false} WalkTook(t: Tree, w: seq<nat>, k: int, c: int)
    requires ParentsFirst(t) && |w| == |t| && 0 <= k < |t| && StrictlyBelow(t, k, c) && Ancestor(t, c, LowHead(t, w, k))
    ensures t[c].parent >= 0 && LowBest(t, w, t[c].parent, c)
    decreases |t| - k
  {
    hide LowHead, Ancestor, LowBest;
    AncestorBelow(t, k, c);
    ParentBelow(t, k, c);
    var x := DescendsThroughChild(t, k, c);
    AncestorTransitive(t, x, c, LowHead(t, w, k));
    if y :| LowBest(t, w, k, y) {
      LowHeadStep(t, w, k, y);
      BestIsChild(t, w, k, y);
      LowHeadIsBelow(t, w, y);
      OneChildAbove(t, k, x, y, LowHead(t, w, k));
      if y != c { WalkTook(t, w, y, c); }
    } else {
      NoBestStops(t, w, k);
      AncestorBelow(t, c, k);
    }
  }

  /** Two units at `h`, one at `e`. */
  ghost function Two(n: nat, h: nat, e: nat): (d: seq<nat>)
    ensures |d| == n && forall k :: 0 <= k < n ==> d[k] == if k == h then 2 else if k == e then 1 else 0
  {
    seq(n, k requires 0 <= k < n => if k == h then 2 else if k == e then 1 else 0)
  }

  lemma {:induction false} TwoSum(t: Tree, h: nat, e: nat, k: int, n: nat)
    requires ParentsFirst(t) && h < |t| && e < |t| && h != e && n <= |t|
    ensures SubtreeSum(t, Two(|t|, h, e), k, n) ==
            (if h < n && Ancestor(t, k, h) then 2 else 0) + (if e < n && Ancestor(t, k, e) then 1 else 0)
  {
    hide Ancestor;
    if n > 0 { TwoSum(t, h, e, k, n - 1); }
  }

  lemma TwoWeighs<K(!new)>(keys: seq<K>, h: nat, e: nat)
    requires Distinct(keys) && h < |keys| && e < |keys| && h != e
    ensures Weighs(map[keys[h] := 2, keys[e] := 1], keys, Two(|keys|, h, e))
  {
    forall k | 0 <= k < |keys| ensures (keys[k] == keys[h]) == (k == h) && (keys[k] == keys[e]) == (k == e) {}
  }

  /** With those weights the rule walks from any block above `h` down to it. */
  lemma {:induction false} RuleGoesDown(t: Tree, h: nat, e: nat, k: int, c: int)
    requires ParentsFirst(t) && h < |t| && e < |t| && h != e && 0 <= k && Ancestor(t, k, c) && Ancestor(t, c, h)
    requires 0 <= c < |t|
    ensures k < |t| && LowHead(t, Sums(t, Two(|t|, h, e)), k) == LowHead(t, Sums(t, Two(|t|, h, e)), c)
    decreases |t| - k
  {
    hide LowHead, Ancestor, Two, SubtreeSum;
    AncestorBelow(t, k, c);
    if k != c {
      var w := Sums(t, Two(|t|, h, e));
      var x := DescendsThroughChild(t, k, c);
      AncestorTransitive(t, x, c, h);
      forall y | Child(t, k, y) && y != x ensures LowBeats(t, w, x, y) {
        if Ancestor(t, y, h) { OneChildAbove(t, k, x, y, h); }
        TwoSum(t, h, e, x, |t|);
        TwoSum(t, h, e, y, |t|);
      }
      LowHeadStep(t, w, k, x);
      RuleGoesDown(t, h, e, x, c);
    }
  }

  /** What the blocks at and below `c` and `e` hold while the two units of `h`
      are stuck at its parent. */
  ghost function StuckAt(t: Tree, h: int, e: int, k: int, passed: bool): nat
    requires 0 <= h < |t|
  {
    if k == h || (passed && k == t[h].parent) then 2 else if k == e then 1 else 0
  }

  ghost predicate StuckBelow<K(!new)>(w: map<K, nat>, keys: seq<K>, t: Tree, c: int, h: int, e: int, passed: bool)
    requires ParentsFirst(t) && |keys| == |t| && 0 <= h < |t|
  {
    forall k :: 0 <= k < |t| && (Ancestor(t, c, k) || Ancestor(t, e, k)) ==>
                  WeightOf(w, keys[k]) == StuckAt(t, h, e, k, passed)
  }

  /** `h` lies two levels below `c`, and `e` is a sibling of `c`. */
  ghost predicate Misplaced(t: Tree, c: int, h: int, e: int)
    requires ParentsFirst(t)
  {
    Siblings(t, c, e) && Early(t, h) && Ancestor(t, c, t[t[h].parent].parent)
  }

  lemma MisplacedShape(t: Tree, c: int, h: int, e: int)
    requires ParentsFirst(t) && Misplaced(t, c, h, e)
    ensures 0 <= h < |t| && 0 <= e < |t| && 0 <= c < |t| && 0 <= t[h].parent
    ensures var p := t[h].parent;
            && StrictlyBelow(t, c, p) && StrictlyBelow(t, c, h) && h != e && p != e
            && !Ancestor(t, e, c) && !Ancestor(t, c, e)
  {
    hide Ancestor;
    var p := t[h].parent;
    ParentBelow(t, c, p);
    ParentBelow(t, c, h);
    SiblingsAreApart(t, c, e);
  }

  lemma SiblingsAreApart(t: Tree, c: int, e: int)
    requires ParentsFirst(t) && Siblings(t, c, e)
    ensures !Ancestor(t, e, c) && !Ancestor(t, c, e)
  {
    var q := t[c].parent;
    if q >= 0 {
      if Ancestor(t, e, q) { AncestorBelow(t, e, q); }
      if Ancestor(t, c, q) { AncestorBelow(t, c, q); }
    }
  }

  lemma StuckBelowStep<K(!new)>(blocks: map<K, LmdNode<K>>, keys: seq<K>, t: Tree, rootParent: K, w: map<K, nat>,
                                c: int, h: int, e: int, a: int, passed: bool)
    requires Represents(blocks, keys, t, rootParent) && rootParent !in blocks && Misplaced(t, c, h, e) && 0 <= a < |t|
    requires 0 <= h < |t| && StuckBelow(w, keys, t, c, h, e, passed) && (passed ==> a != h && a != t[h].parent)
    ensures keys[a] in blocks && StuckBelow(AfterBlock(blocks, w, keys[a]), keys, t, c, h, e, passed || a == h)
  {
    hide Pick, ChildList, Ancestor, Misplaced;
    MisplacedShape(t, c, h, e);
    assert HoldsBlock(blocks, keys, t, rootParent, a);
    ParentBelow(t, c, a);
    ParentBelow(t, e, a);
    var q := t[a].parent;
    if q >= 0 {
      assert HoldsBlock(blocks, keys, t, rootParent, q);
      forall k | 0 <= k < |t| && (Ancestor(t, c, k) || Ancestor(t, e, k))
        ensures WeightOf(AfterBlock(blocks, w, keys[a]), keys[k]) == StuckAt(t, h, e, k, passed || a == h)
      {
        if k != q { assert keys[k] != keys[q]; } else { MoverIsLight(t, c, h, e, a, passed); }
      }
    }
  }

  lemma MoverIsLight(t: Tree, c: int, h: int, e: int, a: int, passed: bool)
    requires ParentsFirst(t) && 0 <= h < |t| && Misplaced(t, c, h, e) && 0 <= a < |t| && t[a].parent >= 0
    requires Ancestor(t, c, t[a].parent) || Ancestor(t, e, t[a].parent)
    requires passed ==> a != h && a != t[h].parent
    ensures Ancestor(t, c, a) || Ancestor(t, e, a)
    ensures StuckAt(t, h, e, a, passed) + StuckAt(t, h, e, t[a].parent, passed) ==
            StuckAt(t, h, e, t[a].parent, passed || a == h)
  {
    hide Ancestor;
    MisplacedShape(t, c, h, e);
    ParentBelow(t, c, a);
    ParentBelow(t, e, a);
    if a == e { SiblingsAreApart(t, c, e); }
  }

  lemma {:induction false} StuckSoFar<K(!new)>(blocks: map<K, LmdNode<K>>, order: seq<K>, keys: seq<K>, t: Tree,
                                               rootParent: K, c: int, h: int, e: int, n: nat)
    requires Represents(blocks, keys, t, rootParent) && rootParent !in blocks && Misplaced(t, c, h, e) && n <= |order|
    requires Distinct(order) && (forall x :: x in order <==> x in blocks) && Before(order, keys[t[h].parent], keys[h])
    ensures StuckBelow(AfterPass(blocks, order[..n], map[keys[h] := 2, keys[e] := 1]), keys, t, c, h, e,
                       keys[h] in order[..n])
  {
    hide HoldsBlock, Misplaced, StuckBelow, AfterPass, AfterBlock, Before, StrictlyBelow;
    MisplacedShape(t, c, h, e);
    var direct := map[keys[h] := 2, keys[e] := 1];
    if n == 0 {
      assert order[..0] == [];
      AfterNothing(blocks, direct);
      NothingStuckYet(keys, t, c, h, e);
    } else {
      StuckSoFar(blocks, order, keys, t, rootParent, c, h, e, n - 1);
      AfterOneMore(blocks, order, direct, n - 1);
      var y := order[n - 1];
      assert y in order;
      assert order[..n] == order[..n - 1] + [y];
      var a :| 0 <= a < |keys| && keys[a] == y;
      if a == t[h].parent { FirstComesFirst(order, keys[a], keys[h], n - 1); }
      StuckBelowStep(blocks, keys, t, rootParent, AfterPass(blocks, order[..n - 1], direct), c, h, e, a,
                     keys[h] in order[..n - 1]);
      assert y == keys[h] <==> a == h;
    }
  }

  lemma NothingStuckYet<K(!new)>(keys: seq<K>, t: Tree, c: int, h: int, e: int)
    requires ParentsFirst(t) && |keys| == |t| && Distinct(keys) && 0 <= h < |t| && 0 <= e < |t| && h != e
    ensures StuckBelow(map[keys[h] := 2, keys[e] := 1], keys, t, c, h, e, false)
  {
    TwoWeighs(keys, h, e);
  }

  /** Votes and an order for which the walk goes wrong. */
  lemma MisplacedMisleads<K(!new)>(blocks: map<K, LmdNode<K>>, keys: seq<K>, t: Tree, rootParent: K, s: int, c: int,
                                   h: int, e: int) returns (order: seq<K>)
    requires Represents(blocks, keys, t, rootParent) && rootParent !in blocks
    requires 0 <= s < |t| && StrictlyBelow(t, s, c) && Misplaced(t, c, h, e)
    ensures 0 <= h < |t| && 0 <= e < |t| && Admissible(blocks, order) && forall x :: x in order ==> x in blocks
    ensures var direct, d := map[keys[h] := 2, keys[e] := 1], Two(|t|, h, e);
            Weighs(direct, keys, d)
            && LowHead(t, Passed(blocks, keys, order, direct), s) != LowHead(t, Sums(t, d), s)
  {
    hide Pick, ChildList, AfterPass, Ancestor, Before, Descending, LowHead, Sums, Two;
    MisplacedShape(t, c, h, e);
    var p := t[h].parent;
    assert HoldsBlock(blocks, keys, t, rootParent, h) && HoldsBlock(blocks, keys, t, rootParent, p);
    order := OrderWithFirst(keys, SlotsOf(blocks), h, p);
    TwoWeighs(keys, h, e);
    StuckSoFar(blocks, order, keys, t, rootParent, c, h, e, |order|);
    assert order[..|order|] == order;
    hide HoldsBlock, Misplaced;
    RuleEndsBelow(t, s, c, h, e);
    var w := Passed(blocks, keys, order, map[keys[h] := 2, keys[e] := 1]);
    SelfIsAncestor(t, c);
    SelfIsAncestor(t, e);
    assert w[c] == 0 && w[e] == 1;
    WalkAvoids(t, w, s, c, e);
  }

  /** A walk never ends below a block with a heavier sibling. */
  lemma WalkAvoids(t: Tree, w: seq<nat>, s: int, c: int, e: int)
    requires ParentsFirst(t) && |w| == |t| && 0 <= s < |t| && StrictlyBelow(t, s, c) && Siblings(t, c, e) && w[c] < w[e]
    ensures !Ancestor(t, c, LowHead(t, w, s))
  {
    hide LowHead, Ancestor, StrictlyBelow;
    if Ancestor(t, c, LowHead(t, w, s)) {
      WalkTook(t, w, s, c);
      NotBest(t, w, c, e);
    }
  }

  lemma NotBest(t: Tree, w: seq<nat>, c: int, e: int)
    requires |w| == |t| && Siblings(t, c, e) && w[c] < w[e]
    ensures !LowBest(t, w, t[c].parent, c)
  {
    assert Child(t, t[c].parent, e);
  }

  lemma RuleEndsBelow(t: Tree, s: int, c: int, h: int, e: int)
    requires ParentsFirst(t) && 0 <= s < |t| && StrictlyBelow(t, s, c) && 0 <= h < |t| && Misplaced(t, c, h, e)
    ensures 0 <= e < |t| && Ancestor(t, c, LowHead(t, Sums(t, Two(|t|, h, e)), s))
  {
    hide Ancestor, LowHead, Sums, Two;
    MisplacedShape(t, c, h, e);
    RuleGoesDown(t, h, e, s, c);
    LowHeadIsBelow(t, Sums(t, Two(|t|, h, e)), c);
  }

  // ----- the exact condition -----

  ghost predicate WalkGives<K(!new)>(blocks: map<K, LmdNode<K>>, keys: seq<K>, t: Tree, order: seq<K>,
                                     direct: map<K, nat>, d: seq<nat>, s: int)
    requires ParentsFirst(t) && |keys| == |t| && 0 <= s < |t|
  {
    Admissible(blocks, order) && Weighs(direct, keys, d) ==>
      LowHead(t, Passed(blocks, keys, order, direct), s) == LowHead(t, Sums(t, d), s)
  }

  ghost predicate HeadAlwaysRight<K(!new)>(blocks: map<K, LmdNode<K>>, keys: seq<K>, t: Tree, s: int)
    requires ParentsFirst(t) && |keys| == |t| && 0 <= s < |t|
  {
    forall order, direct, d :: WalkGives(blocks, keys, t, order, direct, d, s)
  }

  /** The walk over one-pass weights ends at the rule's head, for every order
      and all votes, if and only if every block with a sibling is clean. */
  lemma HeadIsRightExactlyWhen<K(!new)>(blocks: map<K, LmdNode<K>>, keys: seq<K>, t: Tree, rootParent: K, s: int)
    requires Represents(blocks, keys, t, rootParent) && rootParent !in blocks && 0 <= s < |t|
    ensures HeadAlwaysRight(blocks, keys, t, s) <==> Uncontested(t, s)
  {
    hide LowHead, Ancestor, Sums, Passed, HoldsBlock, Descending;
    if Uncontested(t, s) {
      hide Uncontested;
      forall order, direct, d ensures WalkGives(blocks, keys, t, order, direct, d, s) {
        if Admissible(blocks, order) && Weighs(direct, keys, d) {
          UncontestedWalk(blocks, order, keys, direct, t, rootParent, d, s);
        }
      }
    } else {
      var c, e :| Siblings(t, c, e) && c != s && Ancestor(t, s, c) && !Clean(t, c);
      var h :| Early(t, h) && Ancestor(t, c, t[t[h].parent].parent);
      var order := MisplacedMisleads(blocks, keys, t, rootParent, s, c, h, e);
      assert !WalkGives(blocks, keys, t, order, map[keys[h] := 2, keys[e] := 1], Two(|t|, h, e), s);
    }
  }
}
