/** Exactly when the one-pass weights are right: for every order by descending
    slot and all votes, if and only if every block whose parent has a parent is
    at a later slot than its parent. */
module LmdExact {
  import opened Collections
  import opened GhostRule
  import opened LmdForkChoice
  import opened LmdRule

  /** With these direct weights and in this order the pass sums every subtree. */
  ghost predicate PassGives<K(!new)>(blocks: map<K, LmdNode<K>>, keys: seq<K>, t: Tree, order: seq<K>,
                                     direct: map<K, nat>, d: seq<nat>)
    requires ParentsFirst(t) && |keys| == |t|
  {
    Admissible(blocks, order) && Weighs(direct, keys, d) ==>
      forall k :: 0 <= k < |t| ==>
                    WeightOf(AfterPass(blocks, order, direct), keys[k]) == SubtreeSum(t, d, k, |t|) % TWO_64
  }

  ghost predicate AlwaysRight<K(!new)>(blocks: map<K, LmdNode<K>>, keys: seq<K>, t: Tree)
    requires ParentsFirst(t) && |keys| == |t|
  {
    forall order, direct, d :: PassGives(blocks, keys, t, order, direct, d)
  }

  // ----- one unit of weight -----

  ghost function Unit(n: nat, a: nat): (d: seq<nat>)
    ensures |d| == n && forall k :: 0 <= k < n ==> d[k] == if k == a then 1 else 0
  {
    seq(n, k requires 0 <= k < n => if k == a then 1 else 0)
  }

  lemma {:induction false} UnitSum(t: Tree, a: nat, k: int, n: nat)
    requires ParentsFirst(t) && a < |t| && n <= |t|
    ensures SubtreeSum(t, Unit(|t|, a), k, n) == if a < n && Ancestor(t, k, a) then 1 else 0
  {
    if n > 0 { UnitSum(t, a, k, n - 1); }
  }

  lemma UnitWeighs<K(!new)>(keys: seq<K>, a: nat)
    requires Distinct(keys) && a < |keys|
    ensures Weighs(map[keys[a] := 1], keys, Unit(|keys|, a))
  {
    forall k | 0 <= k < |keys| ensures (keys[k] == keys[a]) == (k == a) {}
  }

  /** Processing a block that holds nothing changes no weight. */
  lemma NothingToPass<K(!new)>(blocks: map<K, LmdNode<K>>, w: map<K, nat>, h: K, x: K)
    requires h in blocks && WeightOf(w, h) == 0 && forall y :: WeightOf(w, y) < TWO_64
    ensures WeightOf(AfterBlock(blocks, w, h), x) == WeightOf(w, x)
  {
  }

  lemma PassedOn<K(!new)>(blocks: map<K, LmdNode<K>>, w: map<K, nat>, h: K, x: K)
    requires h in blocks && blocks[h].parentRoot in blocks
    ensures var p := blocks[h].parentRoot;
            WeightOf(AfterBlock(blocks, w, h), x) ==
            if x == p then (WeightOf(w, p) + WeightOf(w, h)) % TWO_64 else WeightOf(w, x)
  {
  }

  // ----- a parent that goes before its child -----

  ghost predicate Before<K(!new)>(order: seq<K>, p: K, h: K) {
    exists i, j :: 0 <= i < j < |order| && order[i] == p && order[j] == h
  }

  /** A unit at `h` whose parent `p` went first: it reaches `p` and stays there. */
  ghost predicate Stuck<K(!new)>(w: map<K, nat>, h: K, p: K, passed: bool) {
    forall x :: WeightOf(w, x) == if x == h || (passed && x == p) then 1 else 0
  }

  lemma {:induction false} UnitGetsStuck<K(!new)>(blocks: map<K, LmdNode<K>>, order: seq<K>, h: K, p: K, n: nat)
    requires Distinct(order) && (forall x :: x in order ==> x in blocks) && n <= |order|
    requires h in blocks && blocks[h].parentRoot == p && p in blocks && p != h && Before(order, p, h)
    ensures Stuck(AfterPass(blocks, order[..n], map[h := 1]), h, p, h in order[..n])
  {
    hide Before, AfterBlock;
    if n == 0 {
      assert order[..0] == [];
    } else {
      hide Stuck, AfterPass;
      UnitGetsStuck(blocks, order, h, p, n - 1);
      AfterOneMore(blocks, order, map[h := 1], n - 1);
      var w, y, passed := AfterPass(blocks, order[..n - 1], map[h := 1]), order[n - 1], h in order[..n - 1];
      assert y in order;
      assert order[..n] == order[..n - 1] + [y];
      if y == p { FirstComesFirst(order, p, h, n - 1); }
      StuckStep(blocks, w, h, p, y, passed);
    }
  }

  lemma StuckStep<K(!new)>(blocks: map<K, LmdNode<K>>, w: map<K, nat>, h: K, p: K, y: K, passed: bool)
    requires h in blocks && blocks[h].parentRoot == p && p in blocks && p != h && y in blocks
    requires Stuck(w, h, p, passed) && (passed ==> y != h && y != p)
    ensures Stuck(AfterBlock(blocks, w, y), h, p, passed || y == h)
  {
    hide AfterBlock, WeightOf;
    if y == h {
      forall x ensures WeightOf(AfterBlock(blocks, w, h), x) == if x == h || x == p then 1 else 0 {
        PassedOn(blocks, w, h, x);
      }
    } else {
      forall x ensures WeightOf(AfterBlock(blocks, w, y), x) == WeightOf(w, x) { NothingToPass(blocks, w, y, x); }
    }
  }

  lemma FirstComesFirst<K(!new)>(order: seq<K>, p: K, h: K, n: nat)
    requires Distinct(order) && Before(order, p, h) && n < |order| && order[n] == p
    ensures h !in order[..n]
  {
    var i, j :| 0 <= i < j < |order| && order[i] == p && order[j] == h;
    assert i == n;
  }

  // ----- orders -----

  ghost function PutIn<K(!new)>(x: K, s: seq<K>, slot: map<K, nat>): (r: seq<K>)
    requires x in slot && forall y :: y in s ==> y in slot
  {
    if s == [] then [x]
    else if slot[s[0]] <= slot[x] then [x] + s
    else
      assert forall y :: y in s[1..] ==> y in s;
      [s[0]] + PutIn(x, s[1..], slot)
  }

  lemma {:induction false} PutInSorts<K(!new)>(x: K, s: seq<K>, slot: map<K, nat>)
    requires x in slot && x !in s && Distinct(s) && Descending(s, slot) && forall y :: y in s ==> y in slot
    ensures var r := PutIn(x, s, slot);
            Distinct(r) && Descending(r, slot) && (forall y :: y in r <==> y == x || y in s)
            && forall h :: h in s && slot[h] <= slot[x] ==> Before(r, x, h)
  {
    hide Before;
    if s == [] {
      assert PutIn(x, s, slot) == [x];
    } else if slot[s[0]] <= slot[x] {
      var r := [x] + s;
      forall h | h in s ensures Before(r, x, h) { HeadIsBefore(x, s, h); }
    } else {
      var rest := s[1..];
      assert s == [s[0]] + rest;
      PutInSorts(x, rest, slot);
      var r := PutIn(x, rest, slot);
      HeadKeepsOrder(s[0], r, slot);
      forall h | h in s && slot[h] <= slot[x] ensures Before([s[0]] + r, x, h) { BeforeStays(s[0], r, x, h); }
    }
  }

  lemma HeadIsBefore<K(!new)>(x: K, s: seq<K>, h: K)
    requires h in s
    ensures Before([x] + s, x, h)
  {
    var j :| 0 <= j < |s| && s[j] == h;
    assert ([x] + s)[0] == x && ([x] + s)[j + 1] == h;
  }

  lemma BeforeStays<K(!new)>(y: K, r: seq<K>, x: K, h: K)
    requires Before(r, x, h)
    ensures Before([y] + r, x, h)
  {
    var i, j :| 0 <= i < j < |r| && r[i] == x && r[j] == h;
    assert ([y] + r)[i + 1] == x && ([y] + r)[j + 1] == h;
  }

  lemma HeadKeepsOrder<K(!new)>(x: K, r: seq<K>, slot: map<K, nat>)
    requires x in slot && Distinct(r) && Descending(r, slot) && x !in r && forall y :: y in r ==> slot[y] <= slot[x]
    ensures Distinct([x] + r) && Descending([x] + r, slot)
  {
  }

  lemma {:induction false} SomeOrder<K(!new)>(keys: seq<K>, slot: map<K, nat>) returns (order: seq<K>)
    requires Distinct(keys) && forall h :: h in keys ==> h in slot
    ensures Distinct(order) && Descending(order, slot) && forall h :: h in order <==> h in keys
  {
    if keys == [] {
      order := [];
    } else {
      var rest := SomeOrder(keys[1..], slot);
      assert keys == [keys[0]] + keys[1..];
      PutInSorts(keys[0], rest, slot);
      order := PutIn(keys[0], rest, slot);
    }
  }

  /** An order with `p` before `h`, when its slot allows. */
  lemma OrderWithFirst<K(!new)>(keys: seq<K>, slot: map<K, nat>, a: int, b: int) returns (order: seq<K>)
    requires Distinct(keys) && (forall h :: h in keys ==> h in slot) && 0 <= a < |keys| && 0 <= b < |keys| && a != b
    requires slot[keys[a]] <= slot[keys[b]]
    ensures Distinct(order) && Descending(order, slot) && (forall h :: h in order <==> h in keys)
    ensures Before(order, keys[b], keys[a])
  {
    var others := keys[..b] + keys[b + 1..];
    assert keys == keys[..b] + [keys[b]] + keys[b + 1..];
    assert Distinct(others) && keys[b] !in others && keys[a] in others by { Without(keys, a, b); }
    var rest := SomeOrder(others, slot);
    PutInSorts(keys[b], rest, slot);
    order := PutIn(keys[b], rest, slot);
  }

  lemma Without<K(!new)>(keys: seq<K>, a: int, b: int)
    requires Distinct(keys) && 0 <= a < |keys| && 0 <= b < |keys| && a != b
    ensures var others := keys[..b] + keys[b + 1..]; Distinct(others) && keys[b] !in others && keys[a] in others
  {
    var others := keys[..b] + keys[b + 1..];
    forall i | 0 <= i < |others| ensures others[i] == keys[if i < b then i else i + 1] {}
    assert others[if a < b then a else a - 1] == keys[a];
  }

  // ----- an early parent with a parent spoils the pass -----

  lemma EarlyParentSpoils<K(!new)>(blocks: map<K, LmdNode<K>>, keys: seq<K>, t: Tree, rootParent: K, a: int)
    requires Represents(blocks, keys, t, rootParent) && 0 <= a < |t|
    requires var b := t[a].parent; b >= 0 && t[b].parent >= 0 && t[b].slot >= t[a].slot
    ensures !AlwaysRight(blocks, keys, t)
  {
    hide Pick, ChildList, AfterPass, SubtreeSum, Ancestor, Before, Descending;
    var b := t[a].parent;
    var c := t[b].parent;
    assert HoldsBlock(blocks, keys, t, rootParent, a) && HoldsBlock(blocks, keys, t, rootParent, b)
           && HoldsBlock(blocks, keys, t, rootParent, c);
    var h, p := keys[a], keys[b];
    var order := OrderWithFirst(keys, SlotsOf(blocks), a, b);
    UnitGetsStuck(blocks, order, h, p, |order|);
    assert order[..|order|] == order;
    UnitWeighs(keys, a);
    UnitSum(t, a, c, |t|);
    ParentIsAncestor(t, b);
    ParentIsAncestor(t, a);
    AncestorTransitive(t, c, b, a);
    assert keys[c] != h && keys[c] != p;
    assert !PassGives(blocks, keys, t, order, map[h := 1], Unit(|keys|, a));
  }

  // ----- a known parent of the first block spoils the pass -----

  /** Weight lies only at the block `j` and above it, one unit at `j`. */
  ghost predicate Climbs<K(!new)>(w: map<K, nat>, keys: seq<K>, t: Tree, j: int)
    requires ParentsFirst(t) && |keys| == |t| && 0 <= j < |t|
  {
    && WeightOf(w, keys[j]) == 1
    && (forall k :: 0 <= k < |t| && WeightOf(w, keys[k]) != 0 ==> Ancestor(t, k, j))
    && (forall x :: WeightOf(w, x) < TWO_64)
  }

  /** Before the first block has passed its unit, and after. */
  ghost predicate RootState<K(!new)>(w: map<K, nat>, keys: seq<K>, t: Tree, j: int, passed: bool)
    requires ParentsFirst(t) && |keys| == |t| && 0 <= j < |t|
  {
    if !passed then forall x :: WeightOf(w, x) == if x == keys[0] then 1 else 0
    else if j == 0 then forall x :: WeightOf(w, x) == if x == keys[0] then 2 else 0
    else Climbs(w, keys, t, j)
  }

  lemma ClimbStep<K(!new)>(blocks: map<K, LmdNode<K>>, keys: seq<K>, t: Tree, rootParent: K, w: map<K, nat>, j: int,
                           k: int)
    requires Represents(blocks, keys, t, rootParent) && 0 < j < |t| && 0 < k < |t| && Climbs(w, keys, t, j)
    ensures keys[k] in blocks && Climbs(AfterBlock(blocks, w, keys[k]), keys, t, j)
  {
    hide Pick, ChildList, Ancestor, AfterBlock, WeightOf;
    assert HoldsBlock(blocks, keys, t, rootParent, k);
    var m := t[k].parent;
    assert HoldsBlock(blocks, keys, t, rootParent, m);
    var after := AfterBlock(blocks, w, keys[k]);
    forall x ensures WeightOf(after, x) == if x == keys[m] then (WeightOf(w, x) + WeightOf(w, keys[k])) % TWO_64
                                           else WeightOf(w, x)
    {
      PassedOn(blocks, w, keys[k], x);
    }
    if WeightOf(w, keys[k]) != 0 {
      AncestorBelow(t, k, j);
      ParentIsAncestor(t, k);
      AncestorTransitive(t, m, k, j);
      assert keys[m] != keys[j];
    }
    forall i | 0 <= i < |t| && WeightOf(after, keys[i]) != 0 ensures Ancestor(t, i, j) {
      if keys[i] == keys[m] { assert i == m; }
    }
  }

  lemma RootStep<K(!new)>(blocks: map<K, LmdNode<K>>, keys: seq<K>, t: Tree, rootParent: K, w: map<K, nat>, j: int)
    requires Represents(blocks, keys, t, rootParent) && 0 <= j < |t| && keys[j] == rootParent
    requires RootState(w, keys, t, j, false)
    ensures keys[0] in blocks && RootState(AfterBlock(blocks, w, keys[0]), keys, t, j, true)
  {
    hide Pick, ChildList, Ancestor, AfterBlock, WeightOf;
    assert HoldsBlock(blocks, keys, t, rootParent, 0) && HoldsBlock(blocks, keys, t, rootParent, j);
    var after := AfterBlock(blocks, w, keys[0]);
    forall x ensures WeightOf(after, x) == if x == keys[j] then (WeightOf(w, x) + 1) % TWO_64 else WeightOf(w, x) {
      PassedOn(blocks, w, keys[0], x);
    }
    if j > 0 {
      FirstIsAncestor(blocks, keys, t, rootParent, j);
      SelfIsAncestor(t, j);
      assert keys[j] != keys[0];
      forall k | 0 <= k < |t| && WeightOf(after, keys[k]) != 0 ensures Ancestor(t, k, j) {
        assert k == 0 || k == j;
      }
    }
  }

  lemma {:induction false} FirstIsAncestor<K(!new)>(blocks: map<K, LmdNode<K>>, keys: seq<K>, t: Tree, rootParent: K,
                                                    k: int)
    requires Represents(blocks, keys, t, rootParent) && 0 <= k < |t|
    ensures Ancestor(t, 0, k)
    decreases k
  {
    hide HoldsBlock;
    if k > 0 { FirstIsAncestor(blocks, keys, t, rootParent, t[k].parent); }
  }

  lemma {:induction false} RootCycleState<K(!new)>(blocks: map<K, LmdNode<K>>, keys: seq<K>, t: Tree, rootParent: K,
                                                   order: seq<K>, j: int, n: nat)
    requires Represents(blocks, keys, t, rootParent) && 0 <= j < |t| && keys[j] == rootParent
    requires Distinct(order) && (forall x :: x in order <==> x in blocks) && n <= |order|
    ensures RootState(AfterPass(blocks, order[..n], map[keys[0] := 1]), keys, t, j, keys[0] in order[..n])
  {
    hide HoldsBlock, Climbs;
    if n == 0 {
      assert order[..0] == [];
    } else {
      RootCycleState(blocks, keys, t, rootParent, order, j, n - 1);
      AfterOneMore(blocks, order, map[keys[0] := 1], n - 1);
      hide AfterPass, AfterBlock;
      var w, y := AfterPass(blocks, order[..n - 1], map[keys[0] := 1]), order[n - 1];
      assert y in order;
      assert order[..n] == order[..n - 1] + [y];
      var k :| 0 <= k < |keys| && keys[k] == y;
      if k == 0 {
        assert y !in order[..n - 1];
        RootStep(blocks, keys, t, rootParent, w, j);
      } else {
        assert y != keys[0];
        OtherStep(blocks, keys, t, rootParent, w, j, k, keys[0] in order[..n - 1]);
      }
    }
  }

  lemma OtherStep<K(!new)>(blocks: map<K, LmdNode<K>>, keys: seq<K>, t: Tree, rootParent: K, w: map<K, nat>, j: int,
                           k: int, passed: bool)
    requires Represents(blocks, keys, t, rootParent) && 0 <= j < |t| && 0 < k < |t| && RootState(w, keys, t, j, passed)
    ensures keys[k] in blocks && RootState(AfterBlock(blocks, w, keys[k]), keys, t, j, passed)
  {
    hide Pick, ChildList, Climbs;
    assert HoldsBlock(blocks, keys, t, rootParent, k);
    if passed && j > 0 {
      ClimbStep(blocks, keys, t, rootParent, w, j, k);
    } else {
      assert keys[k] != keys[0];
      forall x ensures WeightOf(AfterBlock(blocks, w, keys[k]), x) == WeightOf(w, x) {
        NothingToPass(blocks, w, keys[k], x);
      }
    }
  }

  lemma KnownRootParentSpoils<K(!new)>(blocks: map<K, LmdNode<K>>, keys: seq<K>, t: Tree, rootParent: K)
    requires Represents(blocks, keys, t, rootParent) && |t| > 0 && rootParent in blocks
    ensures !AlwaysRight(blocks, keys, t)
  {
    hide HoldsBlock, AfterPass, SubtreeSum;
    var j :| 0 <= j < |keys| && keys[j] == rootParent;
    var order := SomeOrder(keys, SlotsOf(blocks));
    RootCycleState(blocks, keys, t, rootParent, order, j, |order|);
    assert order[..|order|] == order;
    assert keys[0] in keys;
    UnitWeighs(keys, 0);
    UnitSum(t, 0, j, |t|);
    assert j > 0 ==> !Ancestor(t, j, 0);
    assert !PassGives(blocks, keys, t, order, map[keys[0] := 1], Unit(|keys|, 0));
  }

  /** The exact condition. */
  lemma OnePassIsRightExactlyWhen<K(!new)>(blocks: map<K, LmdNode<K>>, keys: seq<K>, t: Tree, rootParent: K)
    requires Represents(blocks, keys, t, rootParent)
    ensures AlwaysRight(blocks, keys, t) <==> LaterGrandchildren(blocks)
  {
    hide AfterPass, SubtreeSum, Pick, ChildList;
    if LaterGrandchildren(blocks) {
      forall order, direct, d ensures PassGives(blocks, keys, t, order, direct, d) {
        if Admissible(blocks, order) && Weighs(direct, keys, d) {
          PassSumsSubtrees(blocks, order, keys, direct, t, rootParent, d);
        }
      }
    } else {
      var h :| h in blocks && HasGrandparent(blocks, h) && blocks[blocks[h].parentRoot].slot >= blocks[h].slot;
      var a :| 0 <= a < |keys| && keys[a] == h;
      if rootParent in blocks {
        KnownRootParentSpoils(blocks, keys, t, rootParent);
      } else {
        ViolationInTree(blocks, keys, t, rootParent, a);
        EarlyParentSpoils(blocks, keys, t, rootParent, a);
      }
    }
  }

  lemma ViolationInTree<K(!new)>(blocks: map<K, LmdNode<K>>, keys: seq<K>, t: Tree, rootParent: K, a: int)
    requires Represents(blocks, keys, t, rootParent) && rootParent !in blocks && 0 <= a < |t| && keys[a] in blocks
    requires HasGrandparent(blocks, keys[a]) && blocks[blocks[keys[a]].parentRoot].slot >= blocks[keys[a]].slot
    ensures var b := t[a].parent; b >= 0 && t[b].parent >= 0 && t[b].slot >= t[a].slot
  {
    hide Pick, ChildList;
    assert HoldsBlock(blocks, keys, t, rootParent, a);
    if t[a].parent >= 0 { assert HoldsBlock(blocks, keys, t, rootParent, t[a].parent); }
  }
}
