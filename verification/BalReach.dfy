/** Transitive dependencies and dependents: depth-first searches with a shared
    visited set, on graphs with or without cycles. */
module Reachability {
  import opened Collections
  import opened DependencyGraphs

  /** `n` waits for `d`, directly or through others. */
  ghost predicate Waits(g: Graph, n: int, d: int) {
    exists p :: ChainTo(g, p, n) && |p| > 1 && p[0] == d
  }

  lemma WaitsForDependency(g: Graph, n: int, d: int)
    requires d in Deps(g, n)
    ensures Waits(g, n, d)
  {
    DependencyIsNode(g, n, d);
    ChainSingle(g, d);
    ChainAppend(g, [d], d, n);
    assert ChainTo(g, [d, n], n);
  }

  lemma WaitsThrough(g: Graph, n: int, d: int, e: int)
    requires d in Deps(g, n) && Waits(g, d, e)
    ensures Waits(g, n, e)
  {
    var p :| ChainTo(g, p, d) && |p| > 1 && p[0] == e;
    ChainAppend(g, p, d, n);
    assert (p + [n])[0] == e;
  }

  /** A set that holds the dependencies of `n` and of its own members holds all
      that `n` waits for. */
  lemma {:induction false} ClosedHoldsAll(g: Graph, n: int, all: set<int>, p: seq<int>)
    requires forall d :: d in Deps(g, n) ==> d in all
    requires forall x, d :: x in all && d in Deps(g, x) ==> d in all
    requires ChainTo(g, p, n) && |p| > 1
    ensures p[0] in all
    decreases |p|
  {
    ChainWithoutLast(g, p, n);
    if |p| > 2 {
      var m := p[|p| - 2];
      ClosedHoldsAll(g, m, all, p[..|p| - 1]);
    }
  }

  /** What a visit of `n` adds. */
  ghost predicate Visited(g: Graph, n: int, before: set<int>, after: set<int>, done: seq<int>) {
    && before <= after <= Nodes(g)
    && (forall d :: d in after ==> d in before || Waits(g, n, d))
    && (forall d :: d in done ==> d in after)
    && (forall x, d :: x in after && x !in before && d in Deps(g, x) ==> d in after)
  }

  lemma VisitMore(g: Graph, n: int, before: set<int>, mid: set<int>, after: set<int>, done: seq<int>, d: int)
    requires Visited(g, n, before, mid, done) && d in Deps(g, n) && d !in mid
    requires Visited(g, d, mid + {d}, after, Deps(g, d))
    ensures Visited(g, n, before, after, done + [d])
  {
    hide Waits;
    WaitsForDependency(g, n, d);
    forall e | e in after && e !in mid && e != d ensures Waits(g, n, e) { WaitsThrough(g, n, d, e); }
  }

  method Visit(g: Graph, n: int, before: set<int>) returns (visited: set<int>)
    requires before <= Nodes(g)
    ensures Visited(g, n, before, visited, Deps(g, n))
    decreases Nodes(g) - before
  {
    hide Visited, Nodes, Waits;
    visited := before;
    NothingVisited(g, n, before);
    var deps := Deps(g, n);
    for i := 0 to |deps|
      invariant before <= visited <= Nodes(g) && Visited(g, n, before, visited, deps[..i])
    {
      var d := deps[i];
      assert d in deps && deps[..i + 1] == deps[..i] + [d];
      if d !in visited {
        DependencyIsNode(g, n, d);
        ghost var mid := visited;
        assert d in Nodes(g) - before && d !in Nodes(g) - (visited + {d});
        visited := Visit(g, d, visited + {d});
        VisitMore(g, n, before, mid, visited, deps[..i], d);
      } else {
        SeenAlready(g, n, before, visited, deps[..i], d);
      }
      VisitedGrows(g, n, before, visited, deps[..i + 1]);
    }
    assert deps[..|deps|] == deps;
  }

  lemma NothingVisited(g: Graph, n: int, before: set<int>)
    requires before <= Nodes(g)
    ensures Visited(g, n, before, before, [])
  {
  }

  lemma SeenAlready(g: Graph, n: int, before: set<int>, after: set<int>, done: seq<int>, d: int)
    requires Visited(g, n, before, after, done) && d in after
    ensures Visited(g, n, before, after, done + [d])
  {
    hide Waits;
  }

  lemma VisitedGrows(g: Graph, n: int, before: set<int>, after: set<int>, done: seq<int>)
    requires Visited(g, n, before, after, done)
    ensures before <= after <= Nodes(g)
  {
  }

  lemma VisitFindsAll(g: Graph, n: int, all: set<int>)
    requires Visited(g, n, {}, all, Deps(g, n))
    ensures forall d :: d in all <==> Waits(g, n, d)
  {
    forall d ensures d in all <==> Waits(g, n, d) {
      if Waits(g, n, d) {
        var p :| ChainTo(g, p, n) && |p| > 1 && p[0] == d;
        ClosedHoldsAll(g, n, all, p);
      }
    }
  }

  method SortedSet(s: set<int>) returns (r: seq<int>)
    ensures StrictlyAscending(r) && forall d :: d in r <==> d in s
  {
    var list := Enumerate(s);
    r := SortInts(list);
    DistinctPermutation(list, r);
    forall d ensures d in r <==> d in s { assert d in list <==> d in Elems(list); }
  }

  /** Everything `tx` waits for, in ascending order. */
  method TransitiveDeps(g: Graph, tx: int) returns (r: seq<int>)
    ensures StrictlyAscending(r) && forall d :: d in r <==> Waits(g, tx, d)
  {
    hide Visited, Waits;
    var visited := Visit(g, tx, {});
    VisitFindsAll(g, tx, visited);
    r := SortedSet(visited);
  }

  // ----- dependents -----

  ghost predicate Mirrors(g: Graph, reverse: Graph, nodes: set<int>) {
    forall n, d :: n in Deps(reverse, d) <==> n in nodes && d in Deps(g, n)
  }

  method AddReverse(g: Graph, n: int, before: Graph) returns (reverse: Graph)
    ensures forall x, d :: x in Deps(reverse, d) <==> x in Deps(before, d) || (x == n && d in Deps(g, n))
  {
    reverse := before;
    var deps := Deps(g, n);
    for i := 0 to |deps|
      invariant forall x, d :: x in Deps(reverse, d) <==> x in Deps(before, d) || (x == n && d in deps[..i])
    {
      assert deps[..i + 1] == deps[..i] + [deps[i]];
      reverse := reverse[deps[i] := Deps(reverse, deps[i]) + [n]];
    }
    assert deps[..|deps|] == deps;
  }

  method ReverseGraph(g: Graph) returns (reverse: Graph)
    ensures Mirrors(g, reverse, g.Keys)
  {
    reverse := map[];
    var keys := Enumerate(g.Keys);
    ghost var done: set<int> := {};
    for i := 0 to |keys|
      invariant done == Elems(keys[..i]) && Mirrors(g, reverse, done)
    {
      reverse := AddReverse(g, keys[i], reverse);
      done := done + {keys[i]};
    }
    assert keys[..|keys|] == keys;
  }

  ghost function Backwards(p: seq<int>): (r: seq<int>)
    ensures |r| == |p| && forall i :: 0 <= i < |p| ==> r[i] == p[|p| - 1 - i]
  {
    seq(|p|, i requires 0 <= i < |p| => p[|p| - 1 - i])
  }

  lemma MirroredChain(g: Graph, reverse: Graph, p: seq<int>)
    requires Chain(g, p) && |p| > 1 && forall n, d :: d in Deps(g, n) ==> n in Deps(reverse, d)
    ensures Chain(reverse, Backwards(p))
  {
    var q, last := Backwards(p), |p| - 1;
    forall i | 0 <= i < last ensures Link(reverse, q, i) {
      assert Link(g, p, last - 1 - i);
    }
    forall i | 0 <= i <= last ensures q[i] in Nodes(reverse) {
      if i < last {
        assert Link(reverse, q, i);
        DependencyIsNode(reverse, q[i + 1], q[i]);
      } else {
        assert Link(reverse, q, i - 1);
        DependencyIsNode(reverse, q[i], q[i - 1]);
      }
    }
  }

  lemma MirroredWaits(g: Graph, reverse: Graph, n: int, d: int)
    requires Waits(g, n, d) && forall a, b :: b in Deps(g, a) ==> a in Deps(reverse, b)
    ensures Waits(reverse, d, n)
  {
    var p :| ChainTo(g, p, n) && |p| > 1 && p[0] == d;
    MirroredChain(g, reverse, p);
    assert ChainTo(reverse, Backwards(p), d);
  }

  /** Everything that waits for `tx`, in ascending order. */
  method TransitiveDependents(g: Graph, tx: int) returns (r: seq<int>)
    ensures StrictlyAscending(r) && forall n :: n in r <==> Waits(g, n, tx)
  {
    hide Visited, Waits;
    var reverse := ReverseGraph(g);
    var visited := Visit(reverse, tx, {});
    VisitFindsAll(reverse, tx, visited);
    forall n ensures n in visited <==> Waits(g, n, tx) {
      if Waits(g, n, tx) { MirroredWaits(g, reverse, n, tx); }
      if Waits(reverse, tx, n) { MirroredWaits(reverse, g, tx, n); }
    }
    r := SortedSet(visited);
  }

  /** Nothing waits for itself exactly when the graph has no cycle. */
  lemma AcyclicIffNothingWaitsForItself(g: Graph)
    ensures Acyclic(g) <==> forall n :: !Waits(g, n, n)
  {
    hide Acyclic, Waits;
    forall n ensures Waits(g, n, n) ==> !Acyclic(g) {
      if Waits(g, n, n) { SelfWaitCloses(g, n); }
    }
    if !Acyclic(g) {
      var n := CycleWaits(g);
    }
  }

  lemma CycleWaits(g: Graph) returns (n: int)
    requires !Acyclic(g)
    ensures Waits(g, n, n)
  {
    hide Nodes, Deps, Link;
    var p :| Chain(g, p) && p[|p| - 1] in Deps(g, p[0]);
    n := p[|p| - 1];
    ChainExtend(g, n, p);
    var q := [n] + p;
    assert ChainTo(g, q, n) && |q| > 1 && q[0] == n;
  }

  lemma SelfWaitCloses(g: Graph, n: int)
    requires Waits(g, n, n)
    ensures !Acyclic(g)
  {
    var p :| ChainTo(g, p, n) && |p| > 1 && p[0] == n;
    ChainWithoutLast(g, p, n);
    var q := p[..|p| - 1];
    assert Chain(g, q) && q[0] == n && q[|q| - 1] in Deps(g, q[0]);
  }
}
