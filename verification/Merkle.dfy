/** Merkle roots and branches over any pair hash: the sparse root equals the root
    of the full padded tree, branches lead back to the root, and a second way to
    the root is a collision of the pair hash. */
module Merkle {
  import opened Arithmetic
  import opened Collections

  // ----- the full tree -----

  function LeafAt<H>(leaves: seq<H>, zero: H, i: nat): H {
    if i < |leaves| then leaves[i] else zero
  }

  /** Node `k` of level `d` of the tree whose missing leaves are zero. */
  ghost function Node<H>(pair: (H, H) -> H, leaves: seq<H>, zero: H, d: nat, k: nat): H {
    if d == 0 then LeafAt(leaves, zero, k)
    else pair(Node(pair, leaves, zero, d - 1, 2 * k), Node(pair, leaves, zero, d - 1, 2 * k + 1))
  }

  /** The first 2^depth leaves, filled up with zeros. */
  ghost function Padded<H>(leaves: seq<H>, zero: H, depth: nat): (r: seq<H>)
    ensures |r| == Pow2(depth) && forall i :: 0 <= i < |r| ==> r[i] == if i < |leaves| then leaves[i] else zero
  {
    seq(Pow2(depth), i requires 0 <= i < Pow2(depth) => LeafAt(leaves, zero, i))
  }

  /** The root of a complete tree, half by half. */
  ghost function FullRoot<H>(pair: (H, H) -> H, s: seq<H>, depth: nat): H
    requires |s| == Pow2(depth)
  {
    if depth == 0 then s[0]
    else
      var half := Pow2(depth - 1);
      pair(FullRoot(pair, s[..half], depth - 1), FullRoot(pair, s[half..], depth - 1))
  }

  /** The leaves below node `k` of level `d`. */
  ghost predicate LeavesBelow<H(!new)>(s: seq<H>, leaves: seq<H>, zero: H, d: nat, k: nat) {
    |s| == Pow2(d) && forall i: nat :: i < |s| ==> s[i] == LeafAt(leaves, zero, k * Pow2(d) + i)
  }

  lemma HalvesBelow<H(!new)>(s: seq<H>, leaves: seq<H>, zero: H, d: nat, k: nat)
    requires d > 0 && LeavesBelow(s, leaves, zero, d, k)
    ensures var half := Pow2(d - 1);
            LeavesBelow(s[..half], leaves, zero, d - 1, 2 * k) && LeavesBelow(s[half..], leaves, zero, d - 1, 2 * k + 1)
  {
    hide LeafAt;
    var half := Pow2(d - 1);
    assert k * Pow2(d) == 2 * k * half && (2 * k + 1) * half == 2 * k * half + half;
    forall i: nat | i < half ensures s[half..][i] == LeafAt(leaves, zero, (2 * k + 1) * half + i) {
      assert s[half..][i] == s[half + i];
    }
  }

  lemma {:induction false} FullRootIsNode<H(!new)>(pair: (H, H) -> H, s: seq<H>, leaves: seq<H>, zero: H, d: nat,
                                                   k: nat)
    requires LeavesBelow(s, leaves, zero, d, k)
    ensures FullRoot(pair, s, d) == Node(pair, leaves, zero, d, k)
  {
    if d > 0 {
      HalvesBelow(s, leaves, zero, d, k);
      hide LeavesBelow;
      var half := Pow2(d - 1);
      FullRootIsNode(pair, s[..half], leaves, zero, d - 1, 2 * k);
      FullRootIsNode(pair, s[half..], leaves, zero, d - 1, 2 * k + 1);
    }
  }

  /** The root of the padded tree is node 0 of the top level. */
  lemma PaddedRoot<H(!new)>(pair: (H, H) -> H, leaves: seq<H>, zero: H, depth: nat)
    ensures FullRoot(pair, Padded(leaves, zero, depth), depth) == Node(pair, leaves, zero, depth, 0)
  {
    FullRootIsNode(pair, Padded(leaves, zero, depth), leaves, zero, depth, 0);
  }

  // ----- the sparse root -----

  ghost function ZeroNode<H>(pair: (H, H) -> H, zero: H, d: nat): H {
    if d == 0 then zero else pair(ZeroNode(pair, zero, d - 1), ZeroNode(pair, zero, d - 1))
  }

  ghost predicate ZeroLadder<H(!new)>(pair: (H, H) -> H, zh: seq<H>) {
    zh != [] && forall i: nat :: i < |zh| ==> zh[i] == ZeroNode(pair, zh[0], i)
  }

  /** `layer` holds the nodes of level `d` that have leaves; the others are zero. */
  ghost predicate Layer<H(!new)>(pair: (H, H) -> H, leaves: seq<H>, zero: H, d: nat, layer: seq<H>) {
    && (forall i: nat :: i < |layer| ==> layer[i] == Node(pair, leaves, zero, d, i))
    && (forall i: nat :: i >= |layer| ==> Node(pair, leaves, zero, d, i) == ZeroNode(pair, zero, d))
  }

  /** The next layer, pair by pair; a missing right node is zero. */
  method NextLayer<H(!new)>(pair: (H, H) -> H, ghost leaves: seq<H>, ghost zero: H, layer: seq<H>, ghost d: nat,
                            zeroNode: H)
    returns (next: seq<H>)
    requires Layer(pair, leaves, zero, d, layer) && zeroNode == ZeroNode(pair, zero, d)
    ensures |next| == (|layer| + 1) / 2 && Layer(pair, leaves, zero, d + 1, next)
  {
    var ns := (|layer| + 1) / 2;
    next := [];
    for i := 0 to ns
      invariant |next| == i && forall j: nat :: j < i ==> next[j] == Node(pair, leaves, zero, d + 1, j)
    {
      var right := zeroNode;
      if 2 * i + 1 < |layer| {
        right := layer[2 * i + 1];
      }
      next := next + [pair(layer[2 * i], right)];
    }
    ghost var up := d + 1;
    forall i: nat | i >= ns ensures Node(pair, leaves, zero, up, i) == ZeroNode(pair, zero, up) {
      assert Node(pair, leaves, zero, d, 2 * i) == ZeroNode(pair, zero, d);
      assert Node(pair, leaves, zero, d, 2 * i + 1) == ZeroNode(pair, zero, d);
    }
  }

  /** The root of the tree padded to 2^depth leaves, without building it. */
  method MerkleizeVirtual<H(!new)>(pair: (H, H) -> H, chunks: seq<H>, depth: nat, zh: seq<H>) returns (root: H)
    requires ZeroLadder(pair, zh) && |zh| == depth + 1
    ensures root == FullRoot(pair, Padded(chunks, zh[0], depth), depth)
  {
    hide Node, ZeroNode, FullRoot, Padded;
    ghost var zero := zh[0];
    PaddedRoot(pair, chunks, zero, depth);
    LeavesAreLayer(pair, chunks, zero);
    if depth == 0 {
      if |chunks| > 0 {
        return chunks[0];
      }
      return zh[0];
    }
    if |chunks| == 0 {
      EmptyTree(pair, chunks, zero, depth, 0);
      return zh[depth];
    }
    var layer := chunks;
    for d := 0 to depth
      invariant |layer| > 0 && Layer(pair, chunks, zero, d, layer)
    {
      layer := NextLayer(pair, chunks, zero, layer, d, zh[d]);
    }
    return layer[0];
  }

  lemma LeavesAreLayer<H(!new)>(pair: (H, H) -> H, leaves: seq<H>, zero: H)
    ensures Layer(pair, leaves, zero, 0, leaves)
  {
  }

  lemma {:induction false} EmptyTree<H>(pair: (H, H) -> H, leaves: seq<H>, zero: H, d: nat, k: nat)
    requires leaves == []
    ensures Node(pair, leaves, zero, d, k) == ZeroNode(pair, zero, d)
  {
    if d > 0 {
      EmptyTree(pair, leaves, zero, d - 1, 2 * k);
      EmptyTree(pair, leaves, zero, d - 1, 2 * k + 1);
    }
  }

  // ----- the depth for a capacity -----

  /** The least depth whose tree holds `n` leaves. */
  ghost predicate LeastDepth(n: nat, depth: nat) {
    n <= Pow2(depth) && (depth > 0 ==> Pow2(depth - 1) < n)
  }

  ghost function DepthFrom(n: nat, d: nat): (r: nat)
    requires d > 0 ==> Pow2(d - 1) < n
    ensures r >= d && LeastDepth(n, r)
    decreases n - Pow2(d)
  {
    if n <= Pow2(d) then d else DepthFrom(n, d + 1)
  }

  ghost function DepthOf(n: nat): (r: nat)
    ensures LeastDepth(n, r)
  {
    DepthFrom(n, 0)
  }

  /** The 64-bit power after `k` doublings. */
  ghost function Doubled(k: nat): nat {
    if k == 0 then 1 else Doubled(k - 1) * 2 % TWO_64
  }

  lemma {:induction false} DoubledValue(k: nat)
    ensures Doubled(k) == if k < 64 then Pow2(k) else 0
    ensures k < 64 ==> Pow2(k) * Pow2(63 - k) == TWO_63
  {
    if k == 0 {
      TopPower();
    } else {
      DoubledValue(k - 1);
      if k < 64 { Halve(Pow2(k - 1), Pow2(63 - k)); }
    }
  }

  lemma TopPower()
    ensures Pow2(63) == TWO_63
  {
    assert Pow2(3) == 8 && Pow2(4) == 16;
    hide Pow2;
    PowAdds(4, 3);
    PowAdds(4, 4);
    PowAdds(8, 7);
    PowAdds(8, 8);
    PowAdds(16, 15);
    PowAdds(16, 16);
    PowAdds(32, 31);
  }

  lemma {:induction false} PowAdds(a: nat, b: nat)
    ensures Pow2(a + b) == Pow2(a) * Pow2(b)
  {
    if b > 0 {
      PowAdds(a, b - 1);
      Halve(Pow2(a), Pow2(b - 1));
    }
  }

  /** Moving a factor of two. */
  lemma Halve(a: nat, b: nat)
    ensures a * (2 * b) == 2 * (a * b) && (2 * a) * b == 2 * (a * b)
  {
  }

  lemma FactorIsSmaller(a: nat, b: nat)
    requires b > 0
    ensures a <= a * b
  {
  }

  /** The doubling loop reaches `n` exactly when `n` is at most 2^63; past that
      the power wraps to zero and the loop never ends. */
  lemma DoublingEndsExactlyWhen(n: nat)
    ensures (exists k: nat :: Doubled(k) >= n) <==> n <= TWO_63
  {
    hide Doubled, Pow2;
    DoubledValue(63);
    TopPower();
    forall k: nat ensures Doubled(k) <= TWO_63 {
      DoubledValue(k);
      if k < 64 { FactorIsSmaller(Pow2(k), Pow2(63 - k)); }
    }
    assert n <= TWO_63 ==> Doubled(63) >= n;
  }

  /** Doubles a 64-bit power until it covers `n`. */
  method DepthFor(n: nat) returns (depth: nat)
    requires n <= TWO_63
    ensures depth == DepthOf(n)
  {
    depth := 0;
    var p := 1;
    while p < n
      invariant p == Pow2(depth) && (depth > 0 ==> Pow2(depth - 1) < n)
      invariant p < TWO_64 && DepthFrom(n, depth) == DepthOf(n)
      decreases n - p
    {
      p := p * 2 % TWO_64;
      depth := depth + 1;
    }
  }

  /** The root of a list of at most `maxLen` items, with its length mixed in. */
  method VirtualListRoot<H(!new)>(pair: (H, H) -> H, mixInLength: (H, nat) -> H, roots: seq<H>, maxLen: nat, zero: H)
    returns (r: H)
    requires maxLen <= TWO_63
    ensures var depth := DepthOf(maxLen);
            r == mixInLength(FullRoot(pair, Padded(roots, zero, depth), depth), |roots|)
  {
    var depth := DepthFor(maxLen);
    var zh := [zero];
    for i := 1 to depth + 1
      invariant |zh| == i && zh[0] == zero && ZeroLadder(pair, zh)
    {
      zh := zh + [pair(zh[i - 1], zh[i - 1])];
    }
    var root := MerkleizeVirtual(pair, roots, depth, zh);
    r := mixInLength(root, |roots|);
  }

  // ----- branches -----

  function Sibling(i: nat): nat {
    if i % 2 == 0 then i + 1 else i - 1
  }

  /** Position of the ancestor `d` levels up. */
  ghost function Up(i: nat, d: nat): nat {
    if d == 0 then i else Up(i, d - 1) / 2
  }

  /** Recomputes the node above `leaf` after the first `n` siblings. */
  ghost function Climb<H>(pair: (H, H) -> H, leaf: H, branch: seq<H>, index: nat, n: nat): H
    requires n <= |branch|
  {
    if n == 0 then leaf
    else
      var below := Climb(pair, leaf, branch, index, n - 1);
      if Up(index, n - 1) % 2 == 0 then pair(below, branch[n - 1]) else pair(branch[n - 1], below)
  }

  lemma {:induction false} UpIsShift(i: nat, d: nat)
    ensures Up(i, d) == i / Pow2(d)
  {
    if d > 0 {
      UpIsShift(i, d - 1);
      ShiftOnce(i, Pow2(d - 1));
    }
  }

  method WalkBranch<H>(pair: (H, H) -> H, leaf: H, branch: seq<H>, leafIndex: nat) returns (root: H)
    ensures root == Climb(pair, leaf, branch, leafIndex, |branch|)
  {
    root := leaf;
    for i := 0 to |branch|
      invariant root == Climb(pair, leaf, branch, leafIndex, i)
    {
      UpIsShift(leafIndex, i);
      if leafIndex / Pow2(i) % 2 == 0 {
        root := pair(root, branch[i]);
      } else {
        root := pair(branch[i], root);
      }
    }
  }

  /** The siblings on the way up, where the layers have them. */
  ghost predicate BranchOf<H(!new)>(pair: (H, H) -> H, leaves: seq<H>, zero: H, width: nat, index: nat,
                                    branch: seq<H>) {
    forall d: nat :: d < |branch| ==> SiblingAt(pair, leaves, zero, width, index, d, branch[d])
  }

  ghost predicate SiblingAt<H(!new)>(pair: (H, H) -> H, leaves: seq<H>, zero: H, width: nat, index: nat, d: nat, h: H) {
    var s := Sibling(Up(index, d));
    h == if d <= width && s < Pow2(width - d) then Node(pair, leaves, zero, d, s) else zero
  }

  /** `layer` is all of level `d` of a tree of 2^width leaves. */
  ghost predicate WholeLayer<H(!new)>(pair: (H, H) -> H, leaves: seq<H>, zero: H, width: nat, d: nat, layer: seq<H>) {
    && d <= width && |layer| == Pow2(width - d)
    && forall i: nat :: i < |layer| ==> layer[i] == Node(pair, leaves, zero, d, i)
  }

  method HalveLayer<H(!new)>(pair: (H, H) -> H, ghost leaves: seq<H>, zero: H, ghost width: nat, layer: seq<H>,
                             ghost d: nat)
    returns (next: seq<H>)
    requires WholeLayer(pair, leaves, zero, width, d, layer) && |layer| > 1
    ensures WholeLayer(pair, leaves, zero, width, d + 1, next)
  {
    var nextLen := (|layer| + 1) / 2;
    assert nextLen == Pow2(width - d - 1) by { assert Pow2(width - d) == 2 * Pow2(width - d - 1); }
    next := [];
    for i := 0 to nextLen
      invariant |next| == i && forall j: nat :: j < i ==> next[j] == Node(pair, leaves, zero, d + 1, j)
    {
      var left, right := layer[2 * i], zero;
      if 2 * i + 1 < |layer| {
        right := layer[2 * i + 1];
      }
      next := next + [pair(left, right)];
    }
  }

  /** The branch of a leaf and the root it belongs to. */
  method BuildBranch<H(!new)>(pair: (H, H) -> H, zero: H, leaves: seq<H>, leafIndex: nat, depth: nat)
    returns (branch: seq<H>, root: H)
    ensures |branch| == if depth < DepthOf(|leaves|) then depth else DepthOf(|leaves|)
    ensures BranchOf(pair, leaves, zero, DepthOf(|leaves|), leafIndex, branch)
    ensures root == Node(pair, leaves, zero, |branch|, 0)
  {
    hide Node, SiblingAt, BranchOf, DepthOf;
    ghost var width := DepthOf(|leaves|);
    var padded := PadLeaves(pair, zero, leaves);
    branch := [];
    NoBranch(pair, leaves, zero, width, leafIndex);
    var idx, layer, d := leafIndex, padded, 0;
    while d < depth && |layer| > 1
      invariant |branch| == d <= depth && idx == Up(leafIndex, d)
      invariant BranchOf(pair, leaves, zero, width, leafIndex, branch)
      invariant WholeLayer(pair, leaves, zero, width, d, layer)
      decreases depth - d
    {
      var sibling := Sibling(idx);
      var h := zero;
      if sibling < |layer| {
        h := layer[sibling];
      }
      assert SiblingAt(pair, leaves, zero, width, leafIndex, d, h) by {
        FoundSibling(pair, leaves, zero, width, leafIndex, d, layer, h);
      }
      BranchGrows(pair, leaves, zero, width, leafIndex, branch, h);
      branch := branch + [h];
      assert Pow2(0) == 1;
      layer := HalveLayer(pair, leaves, zero, width, layer, d);
      idx := idx / 2;
      d := d + 1;
    }
    OneNodeLeft(width, d, |layer|, depth);
    root := layer[0];
  }

  lemma NoBranch<H(!new)>(pair: (H, H) -> H, leaves: seq<H>, zero: H, width: nat, index: nat)
    ensures BranchOf(pair, leaves, zero, width, index, [])
  {
  }

  lemma FoundSibling<H(!new)>(pair: (H, H) -> H, leaves: seq<H>, zero: H, width: nat, index: nat, d: nat, layer: seq<H>,
                              h: H)
    requires WholeLayer(pair, leaves, zero, width, d, layer)
    requires var s := Sibling(Up(index, d)); h == if s < |layer| then layer[s] else zero
    ensures SiblingAt(pair, leaves, zero, width, index, d, h)
  {
    hide Node;
  }

  lemma BranchGrows<H(!new)>(pair: (H, H) -> H, leaves: seq<H>, zero: H, width: nat, index: nat, branch: seq<H>, h: H)
    requires BranchOf(pair, leaves, zero, width, index, branch)
    requires SiblingAt(pair, leaves, zero, width, index, |branch|, h)
    ensures BranchOf(pair, leaves, zero, width, index, branch + [h])
  {
    hide SiblingAt;
  }

  lemma OneNodeLeft(width: nat, d: nat, size: nat, depth: nat)
    requires d <= width && d <= depth && size == Pow2(width - d) && (d >= depth || size <= 1)
    ensures d == if depth < width then depth else width
  {
    if d < width { assert Pow2(width - d) == 2 * Pow2(width - d - 1); }
  }

  /** The leaves filled up with zeros to the next power of two. */
  method PadLeaves<H(!new)>(ghost pair: (H, H) -> H, zero: H, leaves: seq<H>) returns (padded: seq<H>)
    ensures WholeLayer(pair, leaves, zero, DepthOf(|leaves|), 0, padded)
  {
    var n := 1;
    ghost var width := 0;
    while n < |leaves|
      invariant n == Pow2(width) && (width > 0 ==> Pow2(width - 1) < |leaves|)
      invariant DepthFrom(|leaves|, width) == DepthOf(|leaves|)
      decreases |leaves| - n
    {
      n := n * 2;
      width := width + 1;
    }
    padded := seq(n, i requires 0 <= i => LeafAt(leaves, zero, i));
  }

  // ----- the branch leads to the root -----

  lemma SiblingPair(i: nat)
    ensures if i % 2 == 0 then i == 2 * (i / 2) && Sibling(i) == 2 * (i / 2) + 1
            else i == 2 * (i / 2) + 1 && Sibling(i) == 2 * (i / 2)
  {
  }

  lemma PowerDoubles(n: nat)
    requires n > 0
    ensures Pow2(n) == 2 * Pow2(n - 1)
  {
  }

  lemma {:induction false} UpInRange(i: nat, d: nat, width: nat)
    requires d <= width && i < Pow2(width)
    ensures Up(i, d) < Pow2(width - d) && (d < width ==> Sibling(Up(i, d)) < Pow2(width - d))
  {
    hide Pow2, Sibling;
    if d > 0 {
      UpInRange(i, d - 1, width);
      PowerDoubles(width - (d - 1));
    }
    if d < width {
      PowerDoubles(width - d);
      SiblingPair(Up(i, d));
    }
  }

  /** Climbing a built branch passes through the nodes above the leaf. */
  lemma {:induction false} ClimbIsNode<H(!new)>(pair: (H, H) -> H, leaves: seq<H>, zero: H, width: nat, index: nat,
                                                branch: seq<H>, n: nat)
    requires BranchOf(pair, leaves, zero, width, index, branch) && index < Pow2(width)
    requires n <= |branch| <= width
    ensures Climb(pair, LeafAt(leaves, zero, index), branch, index, n) == Node(pair, leaves, zero, n, Up(index, n))
  {
    if n > 0 {
      ClimbIsNode(pair, leaves, zero, width, index, branch, n - 1);
      UpInRange(index, n - 1, width);
      SiblingPair(Up(index, n - 1));
      assert SiblingAt(pair, leaves, zero, width, index, n - 1, branch[n - 1]);
    }
  }

  /** Walking the built branch from the leaf gives the built root, for every
      index below the padded width and below 2^depth. */
  lemma BranchRoundTrip<H(!new)>(pair: (H, H) -> H, leaves: seq<H>, zero: H, width: nat, index: nat, branch: seq<H>)
    requires BranchOf(pair, leaves, zero, width, index, branch) && |branch| <= width
    requires index < Pow2(width) && index < Pow2(|branch|)
    ensures Climb(pair, LeafAt(leaves, zero, index), branch, index, |branch|) == Node(pair, leaves, zero, |branch|, 0)
  {
    ClimbIsNode(pair, leaves, zero, width, index, branch, |branch|);
    UpInRange(index, |branch|, |branch|);
  }

  // ----- a second way up is a collision -----

  ghost predicate Collision<H(!new)>(pair: (H, H) -> H, a: H, b: H, c: H, d: H) {
    (a != c || b != d) && pair(a, b) == pair(c, d)
  }

  /** Two different leaves or branches of the same length that reach the same
      root contain a collision of the pair hash. */
  lemma {:induction false} SecondWayUpCollides<H(!new)>(pair: (H, H) -> H, x: H, y: H, bx: seq<H>, by': seq<H>,
                                                        index: nat, n: nat) returns (a: H, b: H, c: H, d: H)
    requires n <= |bx| && n <= |by'| && (x != y || bx[..n] != by'[..n])
    requires Climb(pair, x, bx, index, n) == Climb(pair, y, by', index, n)
    ensures Collision(pair, a, b, c, d)
  {
    var cx, cy := Climb(pair, x, bx, index, n - 1), Climb(pair, y, by', index, n - 1);
    if cx == cy && bx[n - 1] == by'[n - 1] {
      assert bx[..n] == bx[..n - 1] + [bx[n - 1]] && by'[..n] == by'[..n - 1] + [by'[n - 1]];
      a, b, c, d := SecondWayUpCollides(pair, x, y, bx, by', index, n - 1);
    } else if Up(index, n - 1) % 2 == 0 {
      a, b, c, d := cx, bx[n - 1], cy, by'[n - 1];
    } else {
      a, b, c, d := bx[n - 1], cx, by'[n - 1], cy;
    }
  }

  ghost predicate Injective<H(!new)>(pair: (H, H) -> H) {
    forall a, b, c, d :: pair(a, b) == pair(c, d) ==> a == c && b == d
  }

  /** With an injective pair hash no other leaf reaches the built root along a
      branch of the same length at the same index. */
  lemma OnlyTheLeafReachesTheRoot<H(!new)>(pair: (H, H) -> H, leaves: seq<H>, zero: H, width: nat, index: nat,
                                           branch: seq<H>, other: H, otherBranch: seq<H>)
    requires Injective(pair) && BranchOf(pair, leaves, zero, width, index, branch) && |otherBranch| == |branch| <= width
    requires index < Pow2(width) && index < Pow2(|branch|)
    requires Climb(pair, other, otherBranch, index, |branch|) == Node(pair, leaves, zero, |branch|, 0)
    ensures other == LeafAt(leaves, zero, index) && otherBranch == branch
  {
    BranchRoundTrip(pair, leaves, zero, width, index, branch);
    var leaf := LeafAt(leaves, zero, index);
    assert branch[..|branch|] == branch && otherBranch[..|branch|] == otherBranch;
    if other != leaf || otherBranch != branch {
      var a, b, c, d := SecondWayUpCollides(pair, other, leaf, otherBranch, branch, index, |branch|);
    }
  }
}
