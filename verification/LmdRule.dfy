/** The map-based LMD-GHOST rule: every child counts, ties go to the lower
    root. With genesis checkpoints it picks the same head as the rule of the
    proto-array exactly when no tie for heaviest lies on the walk. */
module LmdRule {
  import opened Collections
  import opened Hashes
  import opened GhostRule
  import opened ForkChoiceStores

  ghost predicate Child(t: Tree, k: int, c: int) {
    0 <= c < |t| && t[c].parent == k
  }

  /** Heavier, or as heavy with the lower root. */
  ghost predicate LowBeats(t: Tree, w: seq<nat>, c: int, d: int)
    requires |w| == |t| && 0 <= c < |t| && 0 <= d < |t|
  {
    w[c] > w[d] || (w[c] == w[d] && Above(t[d].root, t[c].root))
  }

  ghost predicate LowBest(t: Tree, w: seq<nat>, k: int, c: int)
    requires |w| == |t|
  {
    Child(t, k, c) && forall d :: Child(t, k, d) && d != c ==> LowBeats(t, w, c, d)
  }

  /** Where the walk over best children ends. */
  ghost function LowHead(t: Tree, w: seq<nat>, k: int): (h: int)
    requires ParentsFirst(t) && |w| == |t| && 0 <= k < |t|
    ensures 0 <= h < |t|
    decreases |t| - k
  {
    if c :| LowBest(t, w, k, c) then
      assert t[c].parent < c;
      LowHead(t, w, c)
    else k
  }

  lemma LowBestIsUnique(t: Tree, w: seq<nat>, k: int, c: int, d: int)
    requires |w| == |t| && LowBest(t, w, k, c) && LowBest(t, w, k, d)
    ensures c == d
  {
    if c != d && Above(t[d].root, t[c].root) { AboveIsAsymmetric(t[d].root, t[c].root); }
  }

  lemma LowHeadStep(t: Tree, w: seq<nat>, k: int, c: int)
    requires ParentsFirst(t) && |w| == |t| && 0 <= k < |t| && LowBest(t, w, k, c)
    ensures k < c < |t| && LowHead(t, w, k) == LowHead(t, w, c)
  {
    assert t[c].parent < c;
    forall d | LowBest(t, w, k, d) ensures d == c { LowBestIsUnique(t, w, k, c, d); }
  }

  lemma LowHeadStops(t: Tree, w: seq<nat>, k: int)
    requires ParentsFirst(t) && |w| == |t| && 0 <= k < |t| && forall c :: !Child(t, k, c)
    ensures LowHead(t, w, k) == k
  {
  }

  // ----- a best child exists -----

  lemma LowBeatsIsTransitive(t: Tree, w: seq<nat>, c: int, d: int, e: int)
    requires |w| == |t| && 0 <= c < |t| && 0 <= d < |t| && 0 <= e < |t| && LowBeats(t, w, c, d) && LowBeats(t, w, d, e)
    ensures LowBeats(t, w, c, e)
  {
    hide Above;
    if w[c] == w[d] == w[e] { AboveIsTransitive(t[e].root, t[d].root, t[c].root); }
  }

  /** `c` beats every other child of `k` before position `n`. */
  ghost predicate LowBestBelow(t: Tree, w: seq<nat>, k: int, n: int, c: int)
    requires |w| == |t|
  {
    Child(t, k, c) && c < n && forall d :: Child(t, k, d) && d < n && d != c ==> LowBeats(t, w, c, d)
  }

  lemma {:induction false} LowBestExists(t: Tree, w: seq<nat>, k: int, n: nat) returns (c: int)
    requires DistinctRoots(t) && |w| == |t| && n <= |t| && exists d :: Child(t, k, d) && d < n
    ensures LowBestBelow(t, w, k, n, c)
  {
    hide LowBeats;
    var x := n - 1;
    if exists d :: Child(t, k, d) && d < x {
      c := LowBestExists(t, w, k, x);
      if Child(t, k, x) {
        LowBeatsOneWay(t, w, c, x);
        if LowBeats(t, w, x, c) {
          forall d | Child(t, k, d) && d < x && d != c ensures LowBeats(t, w, x, d) {
            LowBeatsIsTransitive(t, w, x, c, d);
          }
          c := x;
        }
      }
    } else {
      c := x;
    }
  }

  lemma LowBeatsOneWay(t: Tree, w: seq<nat>, c: int, d: int)
    requires DistinctRoots(t) && |w| == |t| && 0 <= c < d < |t|
    ensures LowBeats(t, w, c, d) || LowBeats(t, w, d, c)
  {
    AboveIsTotal(t[c].root, t[d].root);
  }

  lemma {:induction false} LowHeadIsBelow(t: Tree, w: seq<nat>, k: int)
    requires ParentsFirst(t) && |w| == |t| && 0 <= k < |t|
    ensures Ancestor(t, k, LowHead(t, w, k))
    decreases |t| - k
  {
    hide LowHead, Ancestor, LowBest;
    if c :| LowBest(t, w, k, c) {
      LowHeadStep(t, w, k, c);
      BestIsChild(t, w, k, c);
      LowHeadIsBelow(t, w, c);
      ParentIsAncestor(t, c);
      AncestorTransitive(t, k, c, LowHead(t, w, c));
    } else {
      NoBestStops(t, w, k);
      SelfIsAncestor(t, k);
    }
  }

  lemma BestIsChild(t: Tree, w: seq<nat>, k: int, c: int)
    requires |w| == |t| && LowBest(t, w, k, c)
    ensures Child(t, k, c)
  {
  }

  // ----- the two rules agree exactly without ties on the walk -----

  /** Two children of `x` are the heaviest. */
  ghost predicate TiedAt(t: Tree, w: seq<nat>, x: int)
    requires |w| == |t|
  {
    exists c, d :: Tied(t, w, x, c, d)
  }

  ghost predicate Tied(t: Tree, w: seq<nat>, x: int, c: int, d: int)
    requires |w| == |t|
  {
    && Child(t, x, c) && Child(t, x, d) && c != d && w[c] == w[d]
    && (forall e :: Child(t, x, e) ==> w[e] <= w[c])
  }

  /** The walk from `k` passes `x`. */
  ghost predicate OnWalk(t: Tree, w: seq<nat>, k: int, x: int)
    requires ParentsFirst(t) && |w| == |t| && 0 <= k < |t|
  {
    Ancestor(t, k, x) && Ancestor(t, x, LowHead(t, w, k))
  }

  ghost predicate UntiedWalk(t: Tree, w: seq<nat>, k: int)
    requires ParentsFirst(t) && |w| == |t| && 0 <= k < |t|
  {
    forall x :: OnWalk(t, w, k, x) ==> !TiedAt(t, w, x)
  }

  ghost predicate AllViable(v: Scored) {
    forall k :: 0 <= k < |v.viable| ==> v.viable[k]
  }

  lemma EveryChildIsOpen(v: Scored, k: int, c: int)
    requires WellScored(v) && AllViable(v)
    ensures OpenChild(v, k, c) <==> Child(v.tree, k, c)
  {
    if Child(v.tree, k, c) { assert ViableBelow(v, c, c); }
  }

  /** After the first step the walk from `k` is the walk from its best child. */
  lemma WalkGoesOn(t: Tree, w: seq<nat>, k: int, c: int, x: int)
    requires ParentsFirst(t) && |w| == |t| && 0 <= k < |t| && LowBest(t, w, k, c) && 0 <= c < |t|
    ensures OnWalk(t, w, k, x) <==> x == k || OnWalk(t, w, c, x)
  {
    hide LowHead, Ancestor, LowBest;
    LowHeadStep(t, w, k, c);
    BestIsChild(t, w, k, c);
    LowHeadIsBelow(t, w, c);
    LowHeadIsBelow(t, w, k);
    ParentIsAncestor(t, c);
    SelfIsAncestor(t, k);
    var h := LowHead(t, w, c);
    if Ancestor(t, k, x) && x != k && Ancestor(t, x, h) {
      var y := DescendsThroughChild(t, k, x);
      AncestorTransitive(t, y, x, h);
      OneChildAbove(t, k, y, c, h);
    }
    if Ancestor(t, c, x) { AncestorTransitive(t, k, c, x); }
  }

  lemma WalkFromLeaf(t: Tree, w: seq<nat>, k: int)
    requires ParentsFirst(t) && |w| == |t| && 0 <= k < |t| && forall c :: !Child(t, k, c)
    ensures LowHead(t, w, k) == k && UntiedWalk(t, w, k)
  {
    LowHeadStops(t, w, k);
    hide LowHead;
    forall x | OnWalk(t, w, k, x) ensures x == k {
      AncestorBelow(t, k, x);
      AncestorBelow(t, x, k);
    }
  }

  /** A child both rules take is heavier than all others. */
  lemma CommonBestIsAlone(v: Scored, k: int, c: int)
    requires WellScored(v) && AllViable(v) && Best(v, k, c) && LowBest(v.tree, v.weight, k, c)
    ensures !TiedAt(v.tree, v.weight, k)
  {
    hide Above, Open;
    forall e | Child(v.tree, k, e) && e != c ensures v.weight[e] < v.weight[c] {
      EveryChildIsOpen(v, k, e);
      assert Beats(v, c, e) && LowBeats(v.tree, v.weight, c, e);
      if Above(v.tree[c].root, v.tree[e].root) { AboveIsAsymmetric(v.tree[c].root, v.tree[e].root); }
    }
  }

  /** Different choices are a tie. */
  lemma DifferentBestsTie(v: Scored, k: int, c: int, l: int)
    requires WellScored(v) && AllViable(v) && Best(v, k, c) && LowBest(v.tree, v.weight, k, l) && c != l
    ensures TiedAt(v.tree, v.weight, k)
  {
    hide Above, Open;
    EveryChildIsOpen(v, k, c);
    EveryChildIsOpen(v, k, l);
    assert Beats(v, c, l) && LowBeats(v.tree, v.weight, l, c);
    forall e | Child(v.tree, k, e) ensures v.weight[e] <= v.weight[c] {
      EveryChildIsOpen(v, k, e);
      assert e != c ==> Beats(v, c, e);
    }
    assert Tied(v.tree, v.weight, k, c, l);
  }

  /** With all blocks viable the two rules end at the same block if and only if
      at no block of the walk two children tie for heaviest. */
  lemma {:induction false} RulesAgree(v: Scored, k: int)
    requires WellScored(v) && AllViable(v) && 0 <= k < |v.tree|
    ensures Head(v, k) == LowHead(v.tree, v.weight, k) <==> UntiedWalk(v.tree, v.weight, k)
    decreases |v.tree| - k
  {
    hide Head, LowHead, Open, OnWalk, TiedAt, Ancestor, DistinctRoots;
    var t, w := v.tree, v.weight;
    forall c ensures OpenChild(v, k, c) <==> Child(t, k, c) { EveryChildIsOpen(v, k, c); }
    if d :| OpenChild(v, k, d) {
      var c := BestExists(v, k, 0);
      var l := LowBestExists(t, w, k, |t|);
      assert LowBest(t, w, k, l);
      HeadStep(v, k, c);
      LowHeadStep(t, w, k, l);
      forall x ensures OnWalk(t, w, k, x) <==> x == k || OnWalk(t, w, l, x) { WalkGoesOn(t, w, k, l, x); }
      if c == l {
        CommonBestIsAlone(v, k, c);
        RulesAgree(v, c);
      } else {
        DifferentBestsTie(v, k, c, l);
        HeadIsViable(v, c);
        LowHeadIsBelow(t, w, l);
        if Head(v, c) == LowHead(t, w, l) { OneChildAbove(t, k, c, l, Head(v, c)); }
      }
    } else {
      HeadStops(v, k);
      WalkFromLeaf(t, w, k);
    }
  }

  // ----- no ties at all -----

  ghost predicate NoSiblingTies(t: Tree, w: seq<nat>)
    requires |w| == |t|
  {
    forall c, d :: 0 <= c < d < |t| && t[c].parent == t[d].parent ==> w[c] != w[d]
  }

  lemma NoTiesNoneOnWalk(t: Tree, w: seq<nat>, k: int)
    requires ParentsFirst(t) && |w| == |t| && 0 <= k < |t| && NoSiblingTies(t, w)
    ensures UntiedWalk(t, w, k)
  {
    hide OnWalk;
    forall x, c, d ensures !Tied(t, w, x, c, d) {}
  }

  // ----- only parents and roots matter -----

  ghost predicate SameShape(t: Tree, u: Tree) {
    |t| == |u| && forall k :: 0 <= k < |t| ==> t[k].parent == u[k].parent && t[k].root == u[k].root
  }

  lemma {:induction false} SameShapeAncestor(t: Tree, u: Tree, a: int, b: int)
    requires SameShape(t, u) && ParentsFirst(t) && ParentsFirst(u)
    ensures Ancestor(t, a, b) <==> Ancestor(u, a, b)
    decreases b
  {
    if 0 <= b < |t| && t[b].parent >= 0 { SameShapeAncestor(t, u, a, t[b].parent); }
  }

  lemma SameShapeWeight(t: Tree, u: Tree, votes: Votes, b: Balances, k: int)
    requires SameShape(t, u) && ParentsFirst(t) && ParentsFirst(u)
    ensures VoteWeight(t, votes, b, k) == VoteWeight(u, votes, b, k)
  {
    hide Ancestor, BalanceSum;
    forall r ensures Supports(t, r, k) <==> Supports(u, r, k) { SameShapeSupports(t, u, r, k); }
    assert Supporters(t, votes, k) == Supporters(u, votes, k);
  }

  lemma SameShapeSupports(t: Tree, u: Tree, r: Hash, k: int)
    requires SameShape(t, u) && ParentsFirst(t) && ParentsFirst(u)
    ensures Supports(t, r, k) <==> Supports(u, r, k)
  {
    hide Ancestor;
    forall j | 0 <= j < |t| ensures Ancestor(t, k, j) <==> Ancestor(u, k, j) { SameShapeAncestor(t, u, k, j); }
    if j :| 0 <= j < |t| && t[j].root == r && Ancestor(t, k, j) { assert u[j].root == r; }
    if j :| 0 <= j < |u| && u[j].root == r && Ancestor(u, k, j) { assert t[j].root == r; }
  }

  lemma {:induction false} SameShapeHead(t: Tree, u: Tree, w: seq<nat>, k: int)
    requires SameShape(t, u) && ParentsFirst(t) && ParentsFirst(u) && |w| == |t| && 0 <= k < |t|
    ensures LowHead(t, w, k) == LowHead(u, w, k)
    decreases |t| - k
  {
    hide LowHead;
    if c :| LowBest(t, w, k, c) {
      assert LowBest(u, w, k, c) by { SameShapeBest(t, u, w, k, c); }
      LowHeadStep(t, w, k, c);
      LowHeadStep(u, w, k, c);
      SameShapeHead(t, u, w, c);
    } else {
      forall c ensures !LowBest(u, w, k, c) { if LowBest(u, w, k, c) { SameShapeBest(u, t, w, k, c); } }
      NoBestStops(t, w, k);
      NoBestStops(u, w, k);
    }
  }

  lemma SameShapeBest(t: Tree, u: Tree, w: seq<nat>, k: int, c: int)
    requires SameShape(t, u) && |w| == |t| && LowBest(t, w, k, c)
    ensures LowBest(u, w, k, c)
  {
    forall d | Child(u, k, d) && d != c ensures LowBeats(u, w, c, d) { assert Child(t, k, d); }
  }

  lemma NoBestStops(t: Tree, w: seq<nat>, k: int)
    requires ParentsFirst(t) && |w| == |t| && 0 <= k < |t| && forall c :: !LowBest(t, w, k, c)
    ensures LowHead(t, w, k) == k
  {
  }

  // ----- the recursive subtree weight -----

  /** Wrapped weight of `k`: its own plus its children's, children in order. */
  ghost function RecursiveWeight(t: Tree, d: seq<nat>, k: int, n: nat): nat
    requires ParentsFirst(t) && |d| == |t| && 0 <= k < |t| && n <= |t|
    decreases |t| - k, n
  {
    if n == 0 then d[k] % TWO_64
    else if t[n - 1].parent == k then
      (RecursiveWeight(t, d, k, n - 1) + RecursiveWeight(t, d, n - 1, |t|)) % TWO_64
    else RecursiveWeight(t, d, k, n - 1)
  }

  /** The subtree sums of the children of `k` before position `m`. */
  ghost function ChildrenSum(t: Tree, d: seq<nat>, k: int, m: nat, n: nat): nat
    requires ParentsFirst(t) && |d| == |t| && m <= |t| && n <= |t|
  {
    if m == 0 then 0
    else ChildrenSum(t, d, k, m - 1, n) + if t[m - 1].parent == k then SubtreeSum(t, d, m - 1, n) else 0
  }

  /** Block `j` lies below exactly one child of a proper ancestor. */
  lemma {:induction false} OneChildAbove(t: Tree, k: int, c: int, e: int, j: int)
    requires ParentsFirst(t) && Child(t, k, c) && Child(t, k, e) && Ancestor(t, c, j) && Ancestor(t, e, j)
    ensures c == e
    decreases j
  {
    if c != j && e != j {
      OneChildAbove(t, k, c, e, t[j].parent);
    } else if c != e {
      if c == j { AncestorBelow(t, e, k); } else { AncestorBelow(t, c, k); }
    }
  }

  /** One more block adds itself to at most one child's sum. */
  lemma {:induction false} ChildrenSumGrows(t: Tree, d: seq<nat>, k: int, m: nat, n: nat)
    requires ParentsFirst(t) && |d| == |t| && m <= |t| && 0 < n <= |t|
    ensures ChildrenSum(t, d, k, m, n) == ChildrenSum(t, d, k, m, n - 1)
              + if exists c :: c < m && Child(t, k, c) && Ancestor(t, c, n - 1) then d[n - 1] else 0
  {
    hide Ancestor;
    if m > 0 {
      ChildrenSumGrows(t, d, k, m - 1, n);
      if Child(t, k, m - 1) && Ancestor(t, m - 1, n - 1) {
        forall c | c < m - 1 && Child(t, k, c) ensures !Ancestor(t, c, n - 1) {
          if Ancestor(t, c, n - 1) { OneChildAbove(t, k, c, m - 1, n - 1); }
        }
      }
    }
  }

  lemma {:induction false} ChildrenSumZero(t: Tree, d: seq<nat>, k: int, m: nat)
    requires ParentsFirst(t) && |d| == |t| && m <= |t|
    ensures ChildrenSum(t, d, k, m, 0) == 0
  {
    if m > 0 { ChildrenSumZero(t, d, k, m - 1); }
  }

  lemma {:induction false} SubtreeSplits(t: Tree, d: seq<nat>, k: int, n: nat)
    requires ParentsFirst(t) && |d| == |t| && 0 <= k < |t| && n <= |t|
    ensures SubtreeSum(t, d, k, n) == (if k < n then d[k] else 0) + ChildrenSum(t, d, k, |t|, n)
  {
    if n == 0 {
      ChildrenSumZero(t, d, k, |t|);
    } else {
      SubtreeSplits(t, d, k, n - 1);
      ChildrenSumGrows(t, d, k, |t|, n);
      BelowOneChild(t, k, n - 1);
    }
  }

  lemma BelowOneChild(t: Tree, k: int, j: int)
    requires ParentsFirst(t) && 0 <= k < |t| && 0 <= j < |t|
    ensures Ancestor(t, k, j) <==> k == j || exists c :: c < |t| && Child(t, k, c) && Ancestor(t, c, j)
    ensures (exists c :: c < |t| && Child(t, k, c) && Ancestor(t, c, j)) ==> k != j
  {
    hide Ancestor;
    if c :| c < |t| && Child(t, k, c) && Ancestor(t, c, j) {
      assert Ancestor(t, k, c) by { ParentIsAncestor(t, c); }
      AncestorTransitive(t, k, c, j);
      AncestorBelow(t, c, j);
    }
    assert Ancestor(t, j, j) by { SelfIsAncestor(t, j); }
    if Ancestor(t, k, j) && k != j {
      var c := DescendsThroughChild(t, k, j);
      assert c < |t| && Child(t, k, c) && Ancestor(t, c, j);
    }
  }

  lemma ParentIsAncestor(t: Tree, c: int)
    requires ParentsFirst(t) && 0 <= c < |t| && t[c].parent >= 0
    ensures Ancestor(t, t[c].parent, c)
  {
  }

  lemma SelfIsAncestor(t: Tree, j: int)
    requires ParentsFirst(t) && 0 <= j < |t|
    ensures Ancestor(t, j, j)
  {
  }

  lemma {:induction false} RecursiveSumsChildren(t: Tree, d: seq<nat>, k: int, n: nat)
    requires ParentsFirst(t) && |d| == |t| && 0 <= k < |t| && n <= |t|
    ensures RecursiveWeight(t, d, k, n) == (d[k] + ChildrenSum(t, d, k, n, |t|)) % TWO_64
    decreases |t| - k, n
  {
    hide SubtreeSum;
    if n > 0 {
      RecursiveSumsChildren(t, d, k, n - 1);
      if t[n - 1].parent == k {
        RecursiveIsSubtree(t, d, n - 1);
        AddWrapped(d[k] + ChildrenSum(t, d, k, n - 1, |t|), SubtreeSum(t, d, n - 1, |t|));
      }
    }
  }

  /** The recursive weight is the subtree sum. */
  lemma {:induction false} RecursiveIsSubtree(t: Tree, d: seq<nat>, k: int)
    requires ParentsFirst(t) && |d| == |t| && 0 <= k < |t|
    ensures RecursiveWeight(t, d, k, |t|) == SubtreeSum(t, d, k, |t|) % TWO_64
    decreases |t| - k, |t| + 1
  {
    RecursiveSumsChildren(t, d, k, |t|);
    SubtreeSplits(t, d, k, |t|);
  }
}
