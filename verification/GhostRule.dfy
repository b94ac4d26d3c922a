/** The LMD-GHOST rule on a plain block tree: the reference the proto-array and
    the map-based fork choice are compared with. */
module GhostRule {
  import opened Collections
  import opened Hashes

  /** A block in insertion order; `parent` is a position in the same sequence,
      or -1 for a block whose parent is not there. */
  datatype Block = Block(slot: nat, root: Hash, parent: int, justifiedEpoch: nat, finalizedEpoch: nat)

  type Tree = seq<Block>

  ghost predicate ParentsFirst(t: Tree) {
    forall k :: 0 <= k < |t| ==> -1 <= t[k].parent < k
  }

  ghost predicate DistinctRoots(t: Tree) {
    forall i, j :: 0 <= i < j < |t| ==> t[i].root != t[j].root
  }

  ghost predicate WellFormed(t: Tree) {
    ParentsFirst(t) && DistinctRoots(t)
  }

  /** `a` is `b` or one of its ancestors. */
  ghost predicate Ancestor(t: Tree, a: int, b: int)
    requires ParentsFirst(t)
    decreases b
  {
    0 <= b < |t| && (a == b || (t[b].parent >= 0 && Ancestor(t, a, t[b].parent)))
  }

  lemma {:induction false} AncestorBelow(t: Tree, a: int, b: int)
    requires ParentsFirst(t) && 0 <= a && Ancestor(t, a, b)
    ensures a <= b < |t|
    decreases b
  {
    if a != b { AncestorBelow(t, a, t[b].parent); }
  }

  lemma {:induction false} AncestorTransitive(t: Tree, a: int, b: int, c: int)
    requires ParentsFirst(t) && Ancestor(t, a, b) && Ancestor(t, b, c)
    ensures Ancestor(t, a, c)
    decreases c
  {
    if b != c { AncestorTransitive(t, a, b, t[c].parent); }
  }

  /** A proper descendant descends from exactly the child on the way down. */
  lemma {:induction false} DescendsThroughChild(t: Tree, k: int, j: int) returns (c: int)
    requires ParentsFirst(t) && 0 <= k && k != j && Ancestor(t, k, j)
    ensures 0 <= c < |t| && t[c].parent == k && Ancestor(t, c, j)
    decreases j
  {
    if t[j].parent == k {
      c := j;
    } else {
      c := DescendsThroughChild(t, k, t[j].parent);
    }
  }

  // ----- the walk -----

  /** A tree with the weight and viability of each block. */
  datatype Scored = Scored(tree: Tree, weight: seq<nat>, viable: seq<bool>)

  ghost predicate WellScored(v: Scored) {
    WellFormed(v.tree) && |v.weight| == |v.tree| && |v.viable| == |v.tree|
  }

  ghost predicate ViableBelow(v: Scored, k: int, j: int)
    requires WellScored(v)
  {
    0 <= j < |v.tree| && Ancestor(v.tree, k, j) && v.viable[j]
  }

  /** The subtree of `k` holds a viable block. */
  ghost predicate Open(v: Scored, k: int)
    requires WellScored(v)
  {
    exists j :: ViableBelow(v, k, j)
  }

  ghost predicate OpenChild(v: Scored, k: int, c: int)
    requires WellScored(v)
  {
    0 <= c < |v.tree| && v.tree[c].parent == k && Open(v, c)
  }

  /** Heavier, or as heavy with the higher root. */
  ghost predicate Beats(v: Scored, c: int, d: int)
    requires WellScored(v) && 0 <= c < |v.tree| && 0 <= d < |v.tree|
  {
    v.weight[c] > v.weight[d] || (v.weight[c] == v.weight[d] && Above(v.tree[c].root, v.tree[d].root))
  }

  /** `c` beats every other open child of `k` from position `i` on. */
  ghost predicate BestFrom(v: Scored, k: int, i: int, c: int)
    requires WellScored(v)
  {
    && OpenChild(v, k, c) && i <= c
    && (forall d :: OpenChild(v, k, d) && i <= d && d != c ==> Beats(v, c, d))
  }

  /** The child the rule descends to. */
  ghost predicate Best(v: Scored, k: int, c: int)
    requires WellScored(v)
  {
    BestFrom(v, k, 0, c)
  }

  lemma BeatsIsTotal(v: Scored, c: int, d: int)
    requires WellScored(v) && 0 <= c < |v.tree| && 0 <= d < |v.tree| && c != d
    ensures Beats(v, c, d) || Beats(v, d, c)
  {
    AboveIsTotal(v.tree[c].root, v.tree[d].root);
  }

  lemma BeatsIsTransitive(v: Scored, c: int, d: int, e: int)
    requires WellScored(v) && 0 <= c < |v.tree| && 0 <= d < |v.tree| && 0 <= e < |v.tree|
    requires Beats(v, c, d) && Beats(v, d, e)
    ensures Beats(v, c, e)
  {
    if Above(v.tree[c].root, v.tree[d].root) && Above(v.tree[d].root, v.tree[e].root) {
      AboveIsTransitive(v.tree[c].root, v.tree[d].root, v.tree[e].root);
    }
  }

  lemma BeatsIsAsymmetric(v: Scored, c: int, d: int)
    requires WellScored(v) && 0 <= c < |v.tree| && 0 <= d < |v.tree| && Beats(v, c, d)
    ensures !Beats(v, d, c)
  {
    if Above(v.tree[c].root, v.tree[d].root) { AboveIsAsymmetric(v.tree[c].root, v.tree[d].root); }
  }

  lemma BestIsUnique(v: Scored, k: int, i: int, c: int, d: int)
    requires WellScored(v) && BestFrom(v, k, i, c) && BestFrom(v, k, i, d)
    ensures c == d
  {
    if c != d { BeatsIsAsymmetric(v, c, d); }
  }

  /** Where the walk from `k` ends: it descends to the best open child until
      there is none. */
  ghost function Head(v: Scored, k: int): (h: int)
    requires WellScored(v) && 0 <= k < |v.tree|
    ensures 0 <= h < |v.tree|
    decreases |v.tree| - k
  {
    if exists c :: Best(v, k, c) then
      var c :| Best(v, k, c);
      assert v.tree[c].parent < c;
      Head(v, c)
    else k
  }

  lemma HeadStep(v: Scored, k: int, c: int)
    requires WellScored(v) && 0 <= k < |v.tree| && Best(v, k, c)
    ensures k < c < |v.tree| && Head(v, k) == Head(v, c)
  {
    assert v.tree[c].parent < c;
    forall d | Best(v, k, d) ensures d == c { BestIsUnique(v, k, 0, c, d); }
  }

  lemma HeadStops(v: Scored, k: int)
    requires WellScored(v) && 0 <= k < |v.tree| && forall c :: !OpenChild(v, k, c)
    ensures Head(v, k) == k
  {
    forall c ensures !Best(v, k, c) {}
  }

  /** A subtree is open through its root or through a child. */
  lemma OpenSplits(v: Scored, k: int)
    requires WellScored(v) && 0 <= k < |v.tree|
    ensures Open(v, k) <==> v.viable[k] || exists c :: OpenChild(v, k, c)
  {
    if v.viable[k] { assert ViableBelow(v, k, k); }
    if c :| OpenChild(v, k, c) {
      var j :| ViableBelow(v, c, j);
      assert Ancestor(v.tree, k, c);
      AncestorTransitive(v.tree, k, c, j);
      assert ViableBelow(v, k, j);
    }
    if Open(v, k) && !v.viable[k] {
      var j :| ViableBelow(v, k, j);
      var c := DescendsThroughChild(v.tree, k, j);
      assert ViableBelow(v, c, j);
      assert OpenChild(v, k, c);
    }
  }

  // ----- the best child, one candidate at a time -----

  /** Counting down, candidate `i` is not an open child of `k`. */
  lemma SkipCandidate(v: Scored, k: int, i: int, c: int)
    requires WellScored(v) && !OpenChild(v, k, i)
    ensures BestFrom(v, k, i, c) <==> BestFrom(v, k, i + 1, c)
  {
  }

  lemma FirstCandidate(v: Scored, k: int, i: int)
    requires WellScored(v) && OpenChild(v, k, i)
    requires forall d :: OpenChild(v, k, d) ==> d <= i
    ensures BestFrom(v, k, i, i)
  {
  }

  lemma BetterCandidate(v: Scored, k: int, i: int, c: int)
    requires WellScored(v) && OpenChild(v, k, i) && BestFrom(v, k, i + 1, c)
    ensures Beats(v, i, c) ==> BestFrom(v, k, i, i)
    ensures !Beats(v, i, c) ==> BestFrom(v, k, i, c)
  {
    if Beats(v, i, c) {
      forall d | OpenChild(v, k, d) && i <= d && d != i ensures Beats(v, i, d) {
        if d != c { BeatsIsTransitive(v, i, c, d); }
      }
    } else {
      BeatsIsTotal(v, i, c);
    }
  }

  /** Among finitely many open children one is best. */
  lemma {:induction false} BestExists(v: Scored, k: int, i: int) returns (c: int)
    requires WellScored(v) && 0 <= i <= |v.tree|
    requires exists d :: OpenChild(v, k, d) && i <= d
    ensures BestFrom(v, k, i, c)
    decreases |v.tree| - i
  {
    if exists d :: OpenChild(v, k, d) && i + 1 <= d {
      c := BestExists(v, k, i + 1);
      if OpenChild(v, k, i) {
        BetterCandidate(v, k, i, c);
        if Beats(v, i, c) { c := i; }
      } else {
        SkipCandidate(v, k, i, c);
      }
    } else {
      FirstCandidate(v, k, i);
      c := i;
    }
  }

  /** The walk from an open subtree ends at a viable block below it that has no
      open child. */
  lemma {:induction false} HeadIsViable(v: Scored, k: int)
    requires WellScored(v) && 0 <= k < |v.tree|
    ensures Open(v, k) ==> v.viable[Head(v, k)]
    ensures Ancestor(v.tree, k, Head(v, k)) && forall c :: !OpenChild(v, Head(v, k), c)
    decreases |v.tree| - k
  {
    OpenSplits(v, k);
    if d :| OpenChild(v, k, d) {
      var c := BestExists(v, k, 0);
      HeadStep(v, k, c);
      HeadIsViable(v, c);
      assert Ancestor(v.tree, k, c);
      AncestorTransitive(v.tree, k, c, Head(v, c));
    } else {
      HeadStops(v, k);
    }
  }

  // ----- weights -----

  /** `d` summed over the blocks at and below `k`. */
  ghost function SubtreeSum(t: Tree, d: seq<nat>, k: int, n: nat): nat
    requires ParentsFirst(t) && n <= |t| && |d| == |t|
  {
    if n == 0 then 0
    else SubtreeSum(t, d, k, n - 1) + if Ancestor(t, k, n - 1) then d[n - 1] else 0
  }

  /** `d[j]` has reached `k` when it has been passed up from `j` through
      blocks in `done` only. */
  ghost predicate Reached(t: Tree, done: set<int>, k: int, j: int)
    requires ParentsFirst(t)
    decreases j
  {
    0 <= j < |t| && (k == j || (j in done && t[j].parent >= 0 && Reached(t, done, k, t[j].parent)))
  }

  ghost function ReachedSum(t: Tree, d: seq<nat>, done: set<int>, k: int, n: nat): nat
    requires ParentsFirst(t) && n <= |t| && |d| == |t|
  {
    if n == 0 then 0
    else ReachedSum(t, d, done, k, n - 1) + if Reached(t, done, k, n - 1) then d[n - 1] else 0
  }

  /** Nothing has moved yet. */
  lemma {:induction false} NothingPassed(t: Tree, d: seq<nat>, k: int, n: nat)
    requires ParentsFirst(t) && n <= |t| && |d| == |t|
    ensures ReachedSum(t, d, {}, k, n) == if 0 <= k < n then d[k] else 0
  {
    if n > 0 { NothingPassed(t, d, k, n - 1); }
  }

  lemma {:induction false} AllPassedReaches(t: Tree, done: set<int>, k: int, j: int)
    requires ParentsFirst(t) && forall i :: 0 <= i < |t| && t[i].parent >= 0 ==> i in done
    ensures Reached(t, done, k, j) <==> Ancestor(t, k, j)
    decreases j
  {
    if 0 <= j < |t| && t[j].parent >= 0 { AllPassedReaches(t, done, k, t[j].parent); }
  }

  /** Once every block has passed its weight up, each holds its subtree's sum. */
  lemma {:induction false} AllPassed(t: Tree, d: seq<nat>, done: set<int>, k: int, n: nat)
    requires ParentsFirst(t) && n <= |t| && |d| == |t|
    requires forall i :: 0 <= i < |t| && t[i].parent >= 0 ==> i in done
    ensures ReachedSum(t, d, done, k, n) == SubtreeSum(t, d, k, n)
  {
    if n > 0 {
      AllPassed(t, d, done, k, n - 1);
      AllPassedReaches(t, done, k, n - 1);
    }
  }

  /** What one more pass adds: `i` hands its weight to its parent, which has
      itself not passed yet. */
  lemma {:induction false} PassReaches(t: Tree, done: set<int>, i: int, k: int, j: int)
    requires ParentsFirst(t) && 0 <= i < |t| && i !in done
    requires t[i].parent !in done
    ensures Reached(t, done + {i}, k, j) <==>
            Reached(t, done, k, j) || (k == t[i].parent && k >= 0 && Reached(t, done, i, j))
    ensures k == t[i].parent ==> !(Reached(t, done, k, j) && Reached(t, done, i, j))
    decreases j
  {
    if 0 <= j < |t| && t[j].parent >= 0 { PassReaches(t, done, i, k, t[j].parent); }
  }

  lemma {:induction false} PassSum(t: Tree, d: seq<nat>, done: set<int>, i: int, k: int, n: nat)
    requires ParentsFirst(t) && n <= |t| && |d| == |t| && 0 <= i < |t| && i !in done
    requires t[i].parent !in done
    ensures ReachedSum(t, d, done + {i}, k, n) ==
            ReachedSum(t, d, done, k, n) + if k == t[i].parent && k >= 0 then ReachedSum(t, d, done, i, n) else 0
  {
    if n > 0 {
      PassSum(t, d, done, i, k, n - 1);
      PassReaches(t, done, i, k, n - 1);
    }
  }

  /** A block without a parent passes nothing. */
  lemma {:induction false} RootPassesNothing(t: Tree, d: seq<nat>, done: set<int>, i: int, k: int, n: nat)
    requires ParentsFirst(t) && n <= |t| && |d| == |t| && 0 <= i < |t| && t[i].parent < 0
    ensures ReachedSum(t, d, done + {i}, k, n) == ReachedSum(t, d, done, k, n)
  {
    if n > 0 {
      RootPassesNothing(t, d, done, i, k, n - 1);
      RootReachesSame(t, done, i, k, n - 1);
    }
  }

  lemma {:induction false} RootReachesSame(t: Tree, done: set<int>, i: int, k: int, j: int)
    requires ParentsFirst(t) && 0 <= i < |t| && t[i].parent < 0
    ensures Reached(t, done + {i}, k, j) <==> Reached(t, done, k, j)
    decreases j
  {
    if 0 <= j < |t| && t[j].parent >= 0 { RootReachesSame(t, done, i, k, t[j].parent); }
  }

  // ----- votes -----

  /** Latest vote of each validator: the root it names. */
  type Votes = map<nat, Hash>

  /** Effective balances; a validator without one counts as 0. */
  type Balances = map<nat, nat>

  function BalanceOf(b: Balances, v: nat): nat {
    if v in b then b[v] else 0
  }

  /** The balances of a set of validators, added up. */
  ghost function BalanceSum(b: Balances, s: set<nat>): nat {
    if s == {} then 0
    else
      var v :| v in s;
      BalanceOf(b, v) + BalanceSum(b, s - {v})
  }

  /** The sum does not depend on which validator is counted first. */
  lemma {:induction false} BalanceSumSplit(b: Balances, s: set<nat>, x: nat)
    requires x in s
    ensures BalanceSum(b, s) == BalanceOf(b, x) + BalanceSum(b, s - {x})
  {
    var v :| v in s && BalanceSum(b, s) == BalanceOf(b, v) + BalanceSum(b, s - {v});
    if v != x {
      BalanceSumSplit(b, s - {v}, x);
      BalanceSumSplit(b, s - {x}, v);
      assert s - {v} - {x} == s - {x} - {v};
    }
  }

  /** A validator without a balance adds nothing, any other adds its balance. */
  lemma {:induction false} OnlyBalancesCount(b: Balances, s: set<nat>)
    ensures BalanceSum(b, s) == BalanceSum(b, s * b.Keys)
    ensures forall v :: v in s && v in b ==> BalanceSum(b, s) == b[v] + BalanceSum(b, s - {v})
  {
    forall v | v in s && v in b ensures BalanceSum(b, s) == b[v] + BalanceSum(b, s - {v}) { BalanceSumSplit(b, s, v); }
    if s != {} {
      var v :| v in s;
      BalanceSumSplit(b, s, v);
      OnlyBalancesCount(b, s - {v});
      if v in b {
        BalanceSumSplit(b, s * b.Keys, v);
        assert (s - {v}) * b.Keys == s * b.Keys - {v};
      } else {
        assert (s - {v}) * b.Keys == s * b.Keys;
      }
    }
  }

  lemma {:induction false} BalanceSumUnion(b: Balances, s: set<nat>, r: set<nat>)
    requires s !! r
    ensures BalanceSum(b, s + r) == BalanceSum(b, s) + BalanceSum(b, r)
  {
    if s == {} {
      assert s + r == r;
    } else {
      var x :| x in s;
      BalanceSumSplit(b, s, x);
      BalanceSumSplit(b, s + r, x);
      assert s + r - {x} == (s - {x}) + r;
      BalanceSumUnion(b, s - {x}, r);
    }
  }

  lemma BalanceSumMonotone(b: Balances, s: set<nat>, r: set<nat>)
    requires s <= r
    ensures BalanceSum(b, s) <= BalanceSum(b, r)
  {
    assert r == s + (r - s);
    BalanceSumUnion(b, s, r - s);
  }

  /** Validators whose latest vote is block `j` itself. */
  ghost function DirectVoters(votes: Votes, r: Hash): set<nat> {
    set v | v in votes && votes[v] == r
  }

  /** Of the validators in `done`, those voting for `r`. */
  ghost function VotersIn(votes: Votes, done: set<nat>, r: Hash): set<nat> {
    set v | v in done && v in votes && votes[v] == r
  }

  lemma VotersInGrow(votes: Votes, b: Balances, done: set<nat>, v: nat, r: Hash)
    requires v !in done && v in votes
    ensures BalanceSum(b, VotersIn(votes, done + {v}, r)) ==
            BalanceSum(b, VotersIn(votes, done, r)) + if votes[v] == r then BalanceOf(b, v) else 0
  {
    if votes[v] == r {
      assert VotersIn(votes, done + {v}, r) - {v} == VotersIn(votes, done, r);
      BalanceSumSplit(b, VotersIn(votes, done + {v}, r), v);
    } else {
      assert VotersIn(votes, done + {v}, r) == VotersIn(votes, done, r);
    }
  }

  ghost predicate Supports(t: Tree, r: Hash, k: int)
    requires ParentsFirst(t)
  {
    exists j :: 0 <= j < |t| && t[j].root == r && Ancestor(t, k, j)
  }

  /** Validators whose latest vote is at or below `k`. */
  ghost function Supporters(t: Tree, votes: Votes, k: int): set<nat>
    requires ParentsFirst(t)
  {
    set v | v in votes && Supports(t, votes[v], k)
  }

  /** The rule's weight of `k`: the balances of its supporters. */
  ghost function VoteWeight(t: Tree, votes: Votes, b: Balances, k: int): nat
    requires ParentsFirst(t)
  {
    BalanceSum(b, Supporters(t, votes, k))
  }

  /** The votes for each block itself. */
  ghost function DirectWeights(t: Tree, votes: Votes, b: Balances): seq<nat> {
    seq(|t|, j requires 0 <= j < |t| => BalanceSum(b, DirectVoters(votes, t[j].root)))
  }

  ghost function SupportersUpTo(t: Tree, votes: Votes, k: int, n: nat): set<nat>
    requires ParentsFirst(t) && n <= |t|
  {
    set v | v in votes && exists j :: 0 <= j < n && t[j].root == votes[v] && Ancestor(t, k, j)
  }

  /** Adding up block by block counts every supporter once. */
  lemma {:induction false} SumCountsSupporters(t: Tree, votes: Votes, b: Balances, k: int, n: nat)
    requires WellFormed(t) && n <= |t|
    ensures SubtreeSum(t, DirectWeights(t, votes, b), k, n) == BalanceSum(b, SupportersUpTo(t, votes, k, n))
  {
    if n == 0 {
      assert SupportersUpTo(t, votes, k, 0) == {};
    } else {
      SumCountsSupporters(t, votes, b, k, n - 1);
      SupportersGrow(t, votes, k, n);
      hide Ancestor, BalanceSum, SupportersUpTo, DirectVoters;
      var direct := DirectVoters(votes, t[n - 1].root);
      assert DirectWeights(t, votes, b)[n - 1] == BalanceSum(b, direct);
      if Ancestor(t, k, n - 1) {
        BalanceSumUnion(b, SupportersUpTo(t, votes, k, n - 1), direct);
      } else {
        assert SupportersUpTo(t, votes, k, n) == SupportersUpTo(t, votes, k, n - 1);
      }
    }
  }

  lemma SupportersGrow(t: Tree, votes: Votes, k: int, n: nat)
    requires WellFormed(t) && 0 < n <= |t|
    ensures SupportersUpTo(t, votes, k, n) ==
            SupportersUpTo(t, votes, k, n - 1)
              + if Ancestor(t, k, n - 1) then DirectVoters(votes, t[n - 1].root) else {}
    ensures SupportersUpTo(t, votes, k, n - 1) !! DirectVoters(votes, t[n - 1].root)
  {
    forall v ensures v in SupportersUpTo(t, votes, k, n) <==>
                     v in SupportersUpTo(t, votes, k, n - 1)
                     || (Ancestor(t, k, n - 1) && v in DirectVoters(votes, t[n - 1].root))
    {
      if v in votes && Ancestor(t, k, n - 1) && votes[v] == t[n - 1].root {
        assert 0 <= n - 1 < n && t[n - 1].root == votes[v] && Ancestor(t, k, n - 1);
      }
    }
  }

  /** The subtree sum of the direct votes is the rule's weight. */
  lemma SumIsVoteWeight(t: Tree, votes: Votes, b: Balances, k: int)
    requires WellFormed(t)
    ensures SubtreeSum(t, DirectWeights(t, votes, b), k, |t|) == VoteWeight(t, votes, b, k)
  {
    SumCountsSupporters(t, votes, b, k, |t|);
    assert SupportersUpTo(t, votes, k, |t|) == Supporters(t, votes, k);
  }

  /** A parent is at least as heavy as its child. */
  lemma ParentIsHeavier(t: Tree, votes: Votes, b: Balances, c: int)
    requires WellFormed(t) && 0 <= c < |t| && t[c].parent >= 0
    ensures VoteWeight(t, votes, b, c) <= VoteWeight(t, votes, b, t[c].parent)
  {
    var p := t[c].parent;
    forall v | v in Supporters(t, votes, c) ensures v in Supporters(t, votes, p) {
      var j :| 0 <= j < |t| && t[j].root == votes[v] && Ancestor(t, c, j);
      assert Ancestor(t, p, c);
      AncestorTransitive(t, p, c, j);
    }
    BalanceSumMonotone(b, Supporters(t, votes, c), Supporters(t, votes, p));
  }
}
