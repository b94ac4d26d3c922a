/** Dependency graphs over transaction indices: chains, cycles and the length
    of the longest chain, the reference every scheduler in the package is
    compared with. */
module DependencyGraphs {
  import opened Collections

  /** Maps each transaction to the transactions it must wait for. */
  type Graph = map<int, seq<int>>

  /** A Go map lookup: a missing transaction has no dependencies. */
  function Deps(g: Graph, n: int): seq<int> {
    if n in g then g[n] else []
  }

  /** Some transaction in `among` waits for `n`. */
  ghost predicate Mentioned(g: Graph, among: set<int>, n: int) {
    exists m :: m in among && n in Deps(g, m)
  }

  /** The keys together with everything they mention. */
  ghost function Nodes(g: Graph): (r: set<int>)
    ensures forall n {:trigger n in r} :: n in r <==> n in g || Mentioned(g, g.Keys, n)
  {
    var r := g.Keys + (set m, i | m in g && 0 <= i < |g[m]| :: g[m][i]);
    assert forall n :: Mentioned(g, g.Keys, n) ==> n in r by {
      forall n | Mentioned(g, g.Keys, n) ensures n in r {
        var m :| m in g && n in Deps(g, m);
        var i :| 0 <= i < |g[m]| && g[m][i] == n;
      }
    }
    r
  }

  lemma DependencyIsNode(g: Graph, n: int, d: int)
    requires d in Deps(g, n)
    ensures d in Nodes(g) && n in Nodes(g)
  {
    assert Mentioned(g, g.Keys, d);
  }

  ghost predicate Link(g: Graph, p: seq<int>, i: int)
    requires 0 <= i < |p| - 1
  {
    p[i] in Deps(g, p[i + 1])
  }

  /** A chain lists nodes so that each waits for the one before it. */
  ghost predicate Chain(g: Graph, p: seq<int>) {
    && p != []
    && (forall i :: 0 <= i < |p| ==> p[i] in Nodes(g))
    && (forall i :: 0 <= i < |p| - 1 ==> Link(g, p, i))
  }

  lemma ChainSingle(g: Graph, n: int)
    requires n in Nodes(g)
    ensures Chain(g, [n]) && ChainTo(g, [n], n)
  {
  }

  lemma ChainHead(g: Graph, p: seq<int>)
    requires Chain(g, p)
    ensures p != [] && p[0] in Nodes(g)
  {
  }

  ghost predicate ChainTo(g: Graph, p: seq<int>, n: int) {
    Chain(g, p) && p[|p| - 1] == n
  }

  /** Some chain runs from `a` to `b`. */
  ghost predicate Leads(g: Graph, a: int, b: int) {
    exists p :: ChainTo(g, p, b) && p != [] && p[0] == a
  }

  lemma LeadsToItself(g: Graph, n: int)
    requires n in Nodes(g)
    ensures Leads(g, n, n)
  {
    ChainSingle(g, n);
    assert [n][0] == n;
  }

  lemma LeadsOn(g: Graph, a: int, d: int, n: int)
    requires Leads(g, a, d) && d in Deps(g, n)
    ensures Leads(g, a, n)
  {
    hide ChainTo;
    var p :| ChainTo(g, p, d) && p != [] && p[0] == a;
    ChainAppend(g, p, d, n);
    assert (p + [n])[0] == a;
  }

  /** A set that holds the dependencies of its members holds every beginning
      of a chain into it. */
  lemma {:induction false} ClosedHoldsChains(g: Graph, all: set<int>, p: seq<int>)
    requires forall x, d :: x in all && d in Deps(g, x) ==> d in all
    requires Chain(g, p) && p[|p| - 1] in all
    ensures p[0] in all
  {
    if |p| > 1 {
      ChainWithoutLast(g, p, p[|p| - 1]);
      ClosedHoldsChains(g, all, p[..|p| - 1]);
    }
  }

  /** No chain closes on itself. */
  ghost predicate Acyclic(g: Graph) {
    forall p :: Chain(g, p) ==> p[|p| - 1] !in Deps(g, p[0])
  }

  /** The longest chain ending at `n` has `k` edges. */
  ghost predicate Longest(g: Graph, n: int, k: nat) {
    && (exists p :: ChainTo(g, p, n) && |p| == k + 1)
    && (forall p :: ChainTo(g, p, n) ==> |p| <= k + 1)
  }

  lemma LongestIsUnique(g: Graph, n: int, k: nat, m: nat)
    requires Longest(g, n, k) && Longest(g, n, m)
    ensures k == m
  {
  }

  lemma ChainAppend(g: Graph, p: seq<int>, d: int, n: int)
    requires ChainTo(g, p, d) && d in Deps(g, n)
    ensures ChainTo(g, p + [n], n)
  {
    DependencyIsNode(g, n, d);
    var q := p + [n];
    forall i | 0 <= i < |q| - 1 ensures Link(g, q, i) {
      if i < |p| - 1 { assert Link(g, p, i); }
    }
  }

  lemma ChainWithoutLast(g: Graph, p: seq<int>, n: int)
    requires ChainTo(g, p, n) && |p| > 1
    ensures ChainTo(g, p[..|p| - 1], p[|p| - 2]) && p[|p| - 2] in Deps(g, n)
  {
    var q := p[..|p| - 1];
    assert Link(g, p, |p| - 2);
    forall i | 0 <= i < |q| - 1 ensures Link(g, q, i) {
      assert Link(g, p, i);
    }
  }

  /** The level recurrence: one more than the best dependency, or zero. */
  lemma LongestStep(g: Graph, n: int, level: map<int, nat>, k: nat)
    requires n in Nodes(g)
    requires forall d :: d in Deps(g, n) ==> d in level && Longest(g, d, level[d])
    requires forall d :: d in Deps(g, n) ==> level[d] < k
    requires k == 0 || exists d :: d in Deps(g, n) && level[d] == k - 1
    ensures Longest(g, n, k)
  {
    hide ChainTo, Mentioned;
    if k == 0 {
      ChainSingle(g, n);
    } else {
      var d :| d in Deps(g, n) && level[d] == k - 1;
      var p :| ChainTo(g, p, d) && |p| == k;
      ChainAppend(g, p, d, n);
      assert |p + [n]| == k + 1;
    }
    forall p | ChainTo(g, p, n) ensures |p| <= k + 1 {
      if |p| > 1 {
        ChainWithoutLast(g, p, n);
        var d := p[|p| - 2];
        assert Longest(g, d, level[d]);
      }
    }
  }

  /** A dependency's longest chain is shorter. */
  lemma DependencyIsDeeper(g: Graph, d: int, n: int, i: nat, j: nat)
    requires d in Deps(g, n) && Longest(g, d, i) && Longest(g, n, j)
    ensures i < j
  {
    hide ChainTo;
    var p :| ChainTo(g, p, d) && |p| == i + 1;
    ChainAppend(g, p, d, n);
  }

  /** Any contiguous part of a chain is a chain. */
  lemma SubChain(g: Graph, p: seq<int>, i: nat, j: nat)
    requires Chain(g, p) && i < j <= |p|
    ensures Chain(g, p[i..j])
  {
    var q := p[i..j];
    forall k | 0 <= k < |q| - 1 ensures Link(g, q, k) {
      assert Link(g, p, i + k);
    }
  }

  lemma ChainLink(g: Graph, p: seq<int>, i: nat)
    requires Chain(g, p) && i < |p| - 1
    ensures p[i] in Deps(g, p[i + 1])
  {
    assert Link(g, p, i);
  }

  /** Without cycles, chains never repeat a node. */
  lemma ChainIsDistinct(g: Graph, p: seq<int>)
    requires Acyclic(g) && Chain(g, p)
    ensures Distinct(p)
  {
    hide Chain, Deps;
    forall i, j | 0 <= i < j < |p| ensures p[i] != p[j] {
      SubChain(g, p, i, j);
      ChainLink(g, p, j - 1);
      var q := p[i..j];
      assert q[0] == p[i] && q[|q| - 1] == p[j - 1];
    }
  }

  /** So they are no longer than the graph is large. */
  lemma ChainBound(g: Graph, p: seq<int>)
    requires Acyclic(g) && Chain(g, p)
    ensures Distinct(p) && |p| <= |Nodes(g)|
  {
    hide Acyclic;
    ChainIsDistinct(g, p);
    assert Elems(p) <= Nodes(g);
    hide Chain, Distinct;
    DistinctCardinality(p);
    SubsetCardinality(Elems(p), Nodes(g));
  }

  ghost predicate WaitsInside(g: Graph, u: set<int>, n: int) {
    exists d :: d in Deps(g, n) && d in u
  }

  lemma ChainExtend(g: Graph, d: int, q: seq<int>)
    requires Chain(g, q) && d in Deps(g, q[0])
    ensures Chain(g, [d] + q)
  {
    DependencyIsNode(g, q[0], d);
    var p := [d] + q;
    forall i | 0 <= i < |p| - 1 ensures Link(g, p, i) {
      if i > 0 { assert Link(g, q, i - 1); }
    }
  }

  /** In a set where every node waits for a member, chains grow at will. */
  lemma {:induction false} ChainInside(g: Graph, u: set<int>, n: int, k: nat) returns (p: seq<int>)
    requires n in u && u <= Nodes(g)
    requires forall m :: m in u ==> WaitsInside(g, u, m)
    ensures Chain(g, p) && |p| == k + 1 && p[0] in u
  {
    hide Chain, Deps, Mentioned;
    if k == 0 {
      ChainSingle(g, n);
      p := [n];
    } else {
      var q := ChainInside(g, u, n, k - 1);
      assert WaitsInside(g, u, q[0]);
      var d :| d in Deps(g, q[0]) && d in u;
      p := [d] + q;
      ChainExtend(g, d, q);
    }
  }

  /** Such a set can only exist in a graph with a cycle. */
  lemma StuckSetHasCycle(g: Graph, u: set<int>, n: int)
    requires n in u && u <= Nodes(g)
    requires forall m :: m in u ==> WaitsInside(g, u, m)
    ensures !Acyclic(g)
  {
    if Acyclic(g) {
      var p := ChainInside(g, u, n, |Nodes(g)|);
      ChainBound(g, p);
    }
  }

  /** Everything `n` waits for is in `done`. */
  ghost predicate Settled(g: Graph, n: int, done: seq<int>) {
    forall d :: d in Deps(g, n) ==> d in done
  }

  /** An order lists every node once, after all its dependencies. */
  ghost predicate TopologicalOrder(g: Graph, order: seq<int>) {
    && Distinct(order)
    && Elems(order) == Nodes(g)
    && (forall i :: 0 <= i < |order| ==> Settled(g, order[i], order[..i]))
  }

  /** Position along a chain rises with position in a topological order. */
  lemma {:induction false} ChainFollowsOrder(g: Graph, order: seq<int>, p: seq<int>, i: nat, j: nat)
    requires TopologicalOrder(g, order) && Chain(g, p)
    requires i < |order| && j < |order| && order[i] == p[0] && order[j] == p[|p| - 1]
    ensures i <= j
  {
    if |p| > 1 {
      var m := p[|p| - 2];
      assert Link(g, p, |p| - 2);
      assert Settled(g, order[j], order[..j]);
      var k :| 0 <= k < j && order[k] == m;
      SubChain(g, p, 0, |p| - 1);
      ChainFollowsOrder(g, order, p[..|p| - 1], i, k);
    }
  }

  lemma OrderedIsAcyclic(g: Graph, order: seq<int>)
    requires TopologicalOrder(g, order)
    ensures Acyclic(g)
  {
    forall p | Chain(g, p) ensures p[|p| - 1] !in Deps(g, p[0]) {
      if p[|p| - 1] in Deps(g, p[0]) {
        assert p[0] in Elems(order) && p[|p| - 1] in Elems(order);
        var i :| 0 <= i < |order| && order[i] == p[0];
        assert Settled(g, order[i], order[..i]);
        var j :| 0 <= j < i && order[j] == p[|p| - 1];
        ChainFollowsOrder(g, order, p, i, j);
      }
    }
  }

  /** Edges always point from a later transaction to an earlier one. */
  ghost predicate PointsBack(g: Graph) {
    forall n, d :: d in Deps(g, n) ==> d < n
  }

  lemma {:induction false} ChainAscends(g: Graph, p: seq<int>)
    requires PointsBack(g) && Chain(g, p)
    ensures p[0] <= p[|p| - 1]
  {
    if |p| > 1 {
      SubChain(g, p, 0, |p| - 1);
      ChainAscends(g, p[..|p| - 1]);
      assert Link(g, p, |p| - 2);
    }
  }

  lemma PointsBackIsAcyclic(g: Graph)
    requires PointsBack(g)
    ensures Acyclic(g)
  {
    forall p | Chain(g, p) ensures p[|p| - 1] !in Deps(g, p[0]) {
      ChainAscends(g, p);
    }
  }

  /** A schedule gives every node a wave, later than those it waits for. */
  ghost predicate RespectsDependencies(g: Graph, wave: map<int, nat>) {
    && Nodes(g) <= wave.Keys
    && (forall n, d :: n in Nodes(g) && d in Deps(g, n) && d in wave ==> wave[d] < wave[n])
  }

  lemma {:induction false} ChainNeedsWaves(g: Graph, wave: map<int, nat>, p: seq<int>)
    requires RespectsDependencies(g, wave) && Chain(g, p)
    ensures p[|p| - 1] in wave && wave[p[|p| - 1]] >= |p| - 1
  {
    if |p| > 1 {
      SubChain(g, p, 0, |p| - 1);
      ChainNeedsWaves(g, wave, p[..|p| - 1]);
      var d, n := p[|p| - 2], p[|p| - 1];
      assert Link(g, p, |p| - 2);
      assert n in Nodes(g) && d in Deps(g, n) && d in wave;
    }
  }

  /** No dependency-respecting schedule runs a node before its level. */
  lemma LevelsAreOptimal(g: Graph, wave: map<int, nat>, n: int, k: nat)
    requires RespectsDependencies(g, wave) && Longest(g, n, k)
    ensures n in wave && wave[n] >= k
  {
    var p :| ChainTo(g, p, n) && |p| == k + 1;
    ChainNeedsWaves(g, wave, p);
  }

  /** Another way to reach a chain's middle can replace its beginning. */
  lemma ChainSplice(g: Graph, q: seq<int>, p: seq<int>, m: nat)
    requires Chain(g, p) && m < |p| && ChainTo(g, q, p[m])
    ensures ChainTo(g, q + p[m + 1..], p[|p| - 1])
  {
    var r := q + p[m + 1..];
    forall i | 0 <= i < |r| - 1 ensures Link(g, r, i) {
      if i < |q| - 1 {
        assert Link(g, q, i);
      } else {
        var j := i - |q| + 1 + m;
        assert Link(g, p, j);
      }
    }
  }

  /** Below every level there is a node of each smaller level. */
  lemma LevelsAreContiguous(g: Graph, n: int, k: nat, m: nat) returns (x: int)
    requires Longest(g, n, k) && m <= k
    ensures x in Nodes(g) && Longest(g, x, m)
  {
    var p :| ChainTo(g, p, n) && |p| == k + 1;
    x := p[m];
    SubChain(g, p, 0, m + 1);
    assert ChainTo(g, p[0..m + 1], x);
    forall q | ChainTo(g, q, x) ensures |q| <= m + 1 {
      ChainSplice(g, q, p, m);
    }
  }
}
