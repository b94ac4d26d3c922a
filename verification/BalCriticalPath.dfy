/** The critical path of a dependency graph: its own memoised recursion, which
    also remembers the dependency that realises each depth, and the trace back
    from the deepest transaction. */
module CriticalPaths {
  import opened Collections
  import opened DependencyGraphs
  import opened WaveLevels

  /** -1 marks "no parent", and a node of that index ends the trace too. */
  const NO_PARENT: int := -1

  /** What follows the last -1. */
  ghost function AfterMarker(q: seq<int>): seq<int> {
    if q == [] || q[|q| - 1] == NO_PARENT then [] else AfterMarker(q[..|q| - 1]) + [q[|q| - 1]]
  }

  /** Nothing is cut off exactly when -1 is not there. */
  lemma {:induction false} MarkerCuts(q: seq<int>)
    ensures AfterMarker(q) == q <==> NO_PARENT !in q
    ensures |AfterMarker(q)| == |q| <==> NO_PARENT !in q
    ensures |AfterMarker(q)| <= |q|
  {
    if q != [] {
      var front, last := q[..|q| - 1], q[|q| - 1];
      assert q == front + [last];
      if last != NO_PARENT { MarkerCuts(front); }
    }
  }

  lemma {:induction false} AfterMarkerConcat(p: seq<int>, r: seq<int>)
    requires p != [] && p[|p| - 1] == NO_PARENT && NO_PARENT !in r
    ensures AfterMarker(p + r) == r
  {
    if r == [] {
      assert p + r == p;
    } else {
      var front, last := r[..|r| - 1], r[|r| - 1];
      assert r == front + [last];
      AfterMarkerConcat(p, front);
      assert (p + r)[..|p + r| - 1] == p + front;
    }
  }

  lemma ChainConcat(g: Graph, p: seq<int>, r: seq<int>, d: int, n: int)
    requires ChainTo(g, p, d) && ChainTo(g, r, n) && d in Deps(g, r[0])
    ensures ChainTo(g, p + r, n)
  {
    var q := p + r;
    forall i | 0 <= i < |q| - 1 ensures Link(g, q, i) {
      if i < |p| - 1 { assert Link(g, p, i); } else if i >= |p| { assert Link(g, r, i - |p|); }
    }
  }

  /** Every computed node names a dependency one level below it, if any. */
  ghost predicate BestParents(g: Graph, depth: map<int, nat>, parent: map<int, int>) {
    forall n :: n in depth ==> n in parent && ParentFits(g, depth, n, parent[n])
  }

  ghost predicate ParentFits(g: Graph, depth: map<int, nat>, n: int, p: int)
    requires n in depth
  {
    if depth[n] == 0 then p == NO_PARENT
    else p in Deps(g, n) && p in depth && depth[p] == depth[n] - 1
  }

  method ComputeDepth(g: Graph, n: int, depth0: map<int, nat>, parent0: map<int, int>, ghost path: seq<int>)
    returns (d: nat, depth: map<int, nat>, parent: map<int, int>)
    requires Acyclic(g) && Chain(g, path) && path != [] && path[0] == n
    requires LevelsOf(g, depth0) && BestParents(g, depth0, parent0)
    ensures LevelsOf(g, depth) && BestParents(g, depth, parent)
    ensures Extends(depth0, depth) && n in depth && depth[n] == d
    decreases |Nodes(g)| - |path|
  {
    hide Longest, Chain, Acyclic, Distinct, BestParents, ParentFits;
    if n in depth0 {
      return depth0[n], depth0, parent0;
    }
    depth, parent := depth0, parent0;
    ChainBound(g, path);
    ChainHead(g, path);
    var maxD: nat, best := 0, NO_PARENT;
    var deps := Deps(g, n);
    for i := 0 to |deps|
      invariant LevelsOf(g, depth) && BestParents(g, depth, parent) && Extends(depth0, depth)
      invariant forall j :: 0 <= j < i ==> deps[j] in depth && depth[deps[j]] < maxD
      invariant if maxD == 0 then best == NO_PARENT
                else best in deps && best in depth && depth[best] == maxD - 1
    {
      assert deps[i] in deps;
      ChainExtend(g, deps[i], path);
      ChainBound(g, [deps[i]] + path);
      ghost var before := depth;
      var dd;
      dd, depth, parent := ComputeDepth(g, deps[i], depth, parent, [deps[i]] + path);
      forall j | 0 <= j < i ensures deps[j] in depth && depth[deps[j]] < maxD {
        var x := deps[j];
        assert x in before;
      }
      if dd + 1 > maxD {
        maxD, best := dd + 1, deps[i];
      }
    }
    LongestStep(g, n, depth, maxD);
    d := maxD;
    depth, parent := RecordDepth(g, n, depth, parent, d, best);
  }

  /** Writes the two memo entries for `n`, which the recursion cannot have set
      to anything else. */
  method RecordDepth(g: Graph, n: int, depth0: map<int, nat>, parent0: map<int, int>, d: nat, best: int)
    returns (depth: map<int, nat>, parent: map<int, int>)
    requires LevelsOf(g, depth0) && BestParents(g, depth0, parent0) && Longest(g, n, d)
    requires if d == 0 then best == NO_PARENT else best in Deps(g, n) && best in depth0 && depth0[best] == d - 1
    ensures depth == depth0[n := d] && parent == parent0[n := best]
    ensures LevelsOf(g, depth) && BestParents(g, depth, parent) && Extends(depth0, depth)
  {
    hide Longest;
    depth, parent := depth0[n := d], parent0[n := best];
    if n in depth0 { LongestIsUnique(g, n, d, depth0[n]); }
    if d > 0 { assert Longest(g, best, depth0[best]); }
    forall m | m in depth ensures m in parent && ParentFits(g, depth, m, parent[m]) {
      if m != n {
        assert ParentFits(g, depth0, m, parent0[m]);
      }
    }
  }

  /** `a` read backwards. */
  method ReverseInPlace(a: seq<int>) returns (r: seq<int>)
    ensures |r| == |a| && forall k :: 0 <= k < |a| ==> r[k] == a[|a| - 1 - k]
  {
    r := a;
    var i, j := 0, |r| - 1;
    while i < j
      invariant |r| == |a| && 0 <= i && j == |a| - 1 - i && i <= j + 1
      invariant forall k :: 0 <= k < i ==> r[k] == a[|a| - 1 - k] && r[|a| - 1 - k] == a[k]
      invariant forall k :: i <= k <= j ==> r[k] == a[k]
    {
      r := r[i := r[j]][j := r[i]];
      i, j := i + 1, j - 1;
    }
  }

  /** Each entry waits for the next. */
  ghost predicate Trace(g: Graph, path: seq<int>) {
    && (forall i :: 0 <= i < |path| ==> path[i] in Nodes(g))
    && (forall i :: 0 <= i < |path| - 1 ==> Step(g, path, i))
  }

  ghost predicate Step(g: Graph, path: seq<int>, i: int)
    requires 0 <= i < |path| - 1
  {
    path[i + 1] in Deps(g, path[i])
  }

  lemma TraceAppend(g: Graph, path: seq<int>, n: int)
    requires Trace(g, path) && n in Nodes(g) && (path != [] ==> n in Deps(g, path[|path| - 1]))
    ensures Trace(g, path + [n])
  {
    var q := path + [n];
    forall i | 0 <= i < |q| - 1 ensures Step(g, q, i) {
      if i < |path| - 1 { assert Step(g, path, i); }
    }
  }

  lemma TraceReversed(g: Graph, path: seq<int>, r: seq<int>)
    requires Trace(g, path) && path != []
    requires |r| == |path| && forall k :: 0 <= k < |path| ==> r[k] == path[|path| - 1 - k]
    ensures ChainTo(g, r, path[0])
  {
    forall i | 0 <= i < |r| - 1 ensures Link(g, r, i) {
      assert Step(g, path, |path| - 2 - i);
    }
  }

  /** `path` is what is left of a longest chain to `n` after the last -1. */
  ghost predicate TracedTo(g: Graph, n: int, k: nat, path: seq<int>) {
    exists q :: ChainTo(g, q, n) && |q| == k + 1 && path == AfterMarker(q)
  }

  lemma TraceStopsAtRoot(g: Graph, r: seq<int>, n: int)
    requires ChainTo(g, r, n) && NO_PARENT !in r
    ensures TracedTo(g, n, |r| - 1, r)
  {
    MarkerCuts(r);
  }

  lemma TraceStopsAtMarker(g: Graph, r: seq<int>, n: int, k: nat)
    requires Longest(g, NO_PARENT, k) && NO_PARENT !in r
    requires if r == [] then n == NO_PARENT else ChainTo(g, r, n) && NO_PARENT in Deps(g, r[0])
    ensures TracedTo(g, n, k + |r|, r)
  {
    hide Chain, Deps;
    var p :| ChainTo(g, p, NO_PARENT) && |p| == k + 1;
    assert p != [];
    AfterMarkerConcat(p, r);
    if r == [] { assert p + r == p; } else { ChainConcat(g, p, r, NO_PARENT, n); }
  }

  /** Follows the remembered parents from `start` until the next is -1. */
  method TraceBack(g: Graph, depth: map<int, nat>, parent: map<int, int>, start: int) returns (path: seq<int>)
    requires LevelsOf(g, depth) && BestParents(g, depth, parent) && start in depth
    ensures TracedTo(g, start, depth[start], path)
  {
    hide ChainTo, Trace, Deps, Nodes, Longest, TracedTo;
    path := [];
    var current := start;
    assert Trace(g, path) by { EmptyTrace(g); }
    ghost var ended := false;
    while current != NO_PARENT
      invariant Trace(g, path) && NO_PARENT !in path
      invariant !ended ==> current in depth && |path| + depth[current] == depth[start]
      invariant !ended && path != [] ==> current in Deps(g, path[|path| - 1])
      invariant ended ==> current == NO_PARENT && |path| == depth[start] + 1
      invariant if path == [] then current == start && !ended else path[0] == start
      decreases depth[start] + 1 - |path|
    {
      LongestIsNode(g, current, depth[current]);
      TraceAppend(g, path, current);
      path := path + [current];
      assert ParentFits(g, depth, current, parent[current]);
      ended := depth[current] == 0;
      current := parent[current];
    }
    var r := ReverseInPlace(path);
    assert NO_PARENT !in r;
    if path != [] { TraceReversed(g, path, r); }
    if ended {
      TraceStopsAtRoot(g, r, start);
    } else {
      assert path != [] ==> r[0] == path[|path| - 1];
      TraceStopsAtMarker(g, r, start, depth[NO_PARENT]);
    }
    path := r;
  }

  lemma EmptyTrace(g: Graph)
    ensures Trace(g, [])
  {
  }

  method AllDepths(g: Graph, nodes: seq<int>) returns (depth: map<int, nat>, parent: map<int, int>)
    requires Acyclic(g) && forall n :: n in nodes ==> n in Nodes(g)
    ensures LevelsOf(g, depth) && BestParents(g, depth, parent)
    ensures forall n :: n in nodes ==> n in depth
  {
    hide Longest, Acyclic, ParentFits;
    depth, parent := map[], map[];
    for i := 0 to |nodes|
      invariant LevelsOf(g, depth) && BestParents(g, depth, parent)
      invariant forall n :: n in nodes[..i] ==> n in depth
    {
      ghost var before := depth;
      var n := nodes[i];
      assert n in nodes;
      ChainSingle(g, n);
      var d;
      d, depth, parent := ComputeDepth(g, n, depth, parent, [n]);
      forall m | m in nodes[..i + 1] ensures m in depth {
        if m != n { assert m in nodes[..i] && m in before; }
      }
    }
    assert nodes[..|nodes|] == nodes;
  }

  method Deepest(nodes: seq<int>, depth: map<int, nat>) returns (x: int)
    requires nodes != [] && forall n :: n in nodes ==> n in depth
    ensures x in nodes && forall n :: n in nodes ==> depth[n] <= depth[x]
  {
    x := nodes[0];
    for i := 0 to |nodes|
      invariant x in nodes
      invariant forall j :: 0 <= j < i ==> nodes[j] in depth && depth[nodes[j]] <= depth[x]
    {
      var n := nodes[i];
      assert n in nodes;
      if depth[n] > depth[x] {
        x := n;
      }
    }
  }

  /** A chain no other chain exceeds. */
  ghost predicate LongestChain(g: Graph, q: seq<int>) {
    Chain(g, q) && forall p :: Chain(g, p) ==> |p| <= |q|
  }

  /** `CriticalPath`: a longest chain of the whole graph, or what follows -1 in
      one when that is a node. */
  method CriticalPath(g: Graph) returns (path: seq<int>)
    requires Acyclic(g) && Closed(g)
    ensures g == map[] ==> path == []
    ensures g != map[] ==> exists q :: LongestChain(g, q) && path == AfterMarker(q)
    ensures g != map[] && NO_PARENT !in g ==> LongestChain(g, path)
  {
    hide Acyclic, Nodes, LongestChain, AfterMarker, TracedTo, Longest;
    ClosedNodes(g);
    if |g| == 0 {
      assert g.Keys == {};
      return [];
    }
    var nodes := SortedNodes(g);
    assert forall n :: n in nodes <==> n in Elems(nodes);
    var depth, parent := AllDepths(g, nodes);
    assert nodes != [] by {
      assert |g.Keys| == |g|;
      var k :| k in g;
      assert k in Elems(nodes);
    }
    var deepest := Deepest(nodes, depth);
    path := TraceBack(g, depth, parent, deepest);
    DeepestIsLongest(g, nodes, depth, deepest);
    TracedIsLongest(g, deepest, depth[deepest], path);
  }

  lemma TracedIsLongest(g: Graph, x: int, k: nat, path: seq<int>)
    requires TracedTo(g, x, k, path) && (forall p :: Chain(g, p) ==> |p| <= k + 1) && Closed(g)
    ensures exists q :: LongestChain(g, q) && path == AfterMarker(q)
    ensures NO_PARENT !in g ==> LongestChain(g, path)
  {
    hide AfterMarker;
    var q :| ChainTo(g, q, x) && |q| == k + 1 && path == AfterMarker(q);
    assert LongestChain(g, q);
    if NO_PARENT !in g {
      ClosedNodes(g);
      MarkerCuts(q);
    }
  }

  lemma LongestIsNode(g: Graph, n: int, k: nat)
    requires Longest(g, n, k)
    ensures n in Nodes(g)
  {
    var p :| ChainTo(g, p, n) && |p| == k + 1;
  }

  lemma DeepestIsLongest(g: Graph, nodes: seq<int>, depth: map<int, nat>, x: int)
    requires Elems(nodes) == Nodes(g) && LevelsOf(g, depth) && forall n :: n in nodes ==> n in depth
    requires x in nodes && forall n :: n in nodes ==> depth[n] <= depth[x]
    ensures forall p :: Chain(g, p) ==> |p| <= depth[x] + 1
  {
    forall p | Chain(g, p) ensures |p| <= depth[x] + 1 {
      var n := p[|p| - 1];
      assert n in Elems(nodes);
      assert ChainTo(g, p, n) && Longest(g, n, depth[n]);
    }
  }

  /** The number of waves equals the length of the critical path. */
  lemma WavesMatchCriticalPath(g: Graph, waves: seq<seq<int>>, path: seq<int>)
    requires LevelWaves(g, waves) && g != map[]
    requires Chain(g, path) && forall p :: Chain(g, p) ==> |p| <= |path|
    ensures |waves| == |path|
  {
    var n := path[|path| - 1];
    assert InSomeWave(waves, n);
    var k :| 0 <= k < |waves| && n in waves[k];
    assert Longest(g, n, k) && ChainTo(g, path, n);
    var top := waves[|waves| - 1][0];
    assert top in waves[|waves| - 1];
    assert Longest(g, top, |waves| - 1);
    var p :| ChainTo(g, p, top) && |p| == |waves|;
  }
}
