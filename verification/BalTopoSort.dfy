/** Kahn's algorithm as the BAL scheduler runs it, with its in-degree and
    forward-edge maps and its re-sorted work queue. */
module TopologicalSort {
  import opened Collections
  import opened DependencyGraphs

  /** How many entries of a dependency list are still outstanding. */
  ghost function Waiting(s: seq<int>, done: set<int>): nat {
    if s == [] then 0
    else Waiting(s[..|s| - 1], done) + if s[|s| - 1] in done then 0 else 1
  }

  lemma {:induction false} WaitingZero(s: seq<int>, done: set<int>)
    ensures Waiting(s, done) == 0 <==> forall x :: x in s ==> x in done
  {
    if s != [] {
      var front := s[..|s| - 1];
      WaitingZero(front, done);
      assert forall x :: x in s <==> x in front || x == s[|s| - 1];
    }
  }

  lemma {:induction false} WaitingNone(s: seq<int>)
    ensures Waiting(s, {}) == |s|
  {
    if s != [] { WaitingNone(s[..|s| - 1]); }
  }

  /** Finishing `x` clears each of its occurrences, duplicates included. */
  lemma {:induction false} WaitingDrops(s: seq<int>, done: set<int>, x: int)
    requires x !in done
    ensures Waiting(s, done + {x}) == Waiting(s, done) - Count(s, x)
  {
    if s != [] {
      var front := s[..|s| - 1];
      WaitingDrops(front, done, x);
    }
  }

  /** `n` has not run and everything it waits for has. */
  ghost predicate Ready(g: Graph, n: int, done: seq<int>) {
    n in Nodes(g) && n !in done && Settled(g, n, done)
  }

  ghost predicate LeastReady(g: Graph, n: int, done: seq<int>) {
    Ready(g, n, done) && forall m :: Ready(g, m, done) ==> n <= m
  }

  /** Every position holds the smallest transaction that could run there;
      this leaves one possible order, whatever order the maps are ranged in. */
  ghost predicate SmallestFirst(g: Graph, order: seq<int>) {
    forall i :: 0 <= i < |order| ==> LeastReady(g, order[i], order[..i])
  }

  lemma {:induction false} SmallestFirstIsUnique(g: Graph, a: seq<int>, b: seq<int>)
    requires SmallestFirst(g, a) && SmallestFirst(g, b) && |a| <= |b|
    ensures a == b[..|a|]
  {
    if a != [] {
      var i := |a| - 1;
      var front := a[..i];
      forall j | 0 <= j < i ensures LeastReady(g, front[j], front[..j]) {
        assert front[..j] == a[..j];
        assert LeastReady(g, a[j], a[..j]);
      }
      SmallestFirstIsUnique(g, front, b);
      assert LeastReady(g, a[i], a[..i]) && LeastReady(g, b[i], b[..i]);
      assert b[..|a|] == b[..i] + [b[i]];
    }
  }

  /** How often `n` lists `d` as a dependency. */
  ghost function Edges(g: Graph, n: int, d: int): nat {
    Count(Deps(g, n), d)
  }

  ghost predicate EdgesReversed(g: Graph, forward: Graph, done: set<int>) {
    forall n, d {:trigger Edges(forward, d, n)} :: Edges(forward, d, n) == if n in done then Edges(g, n, d) else 0
  }

  lemma AppendEdge(forward: Graph, dep: int, node: int)
    ensures var f := forward[dep := Deps(forward, dep) + [node]];
            forall n, d :: Edges(f, d, n) == Edges(forward, d, n) + if d == dep && n == node then 1 else 0
  {
    var f := forward[dep := Deps(forward, dep) + [node]];
    assert Deps(f, dep) == Deps(forward, dep) + [node];
    forall n, d ensures Edges(f, d, n) == Edges(forward, d, n) + if d == dep && n == node then 1 else 0 {
      if d == dep {
        CountAppend(Deps(forward, dep), node, n);
      } else {
        assert Deps(f, d) == Deps(forward, d);
      }
    }
  }

  ghost predicate DegreesAfter(g: Graph, inDegree: map<int, int>, done: set<int>) {
    && (forall n {:trigger n in inDegree} :: n in inDegree <==> n in g || Mentioned(g, done, n))
    && (forall n :: n in inDegree ==> inDegree[n] == if n in done then |Deps(g, n)| else 0)
  }

  /** Adds one node's dependency edges to both maps. */
  method AddEdges(g: Graph, node: int, ghost done: set<int>, inDegree0: map<int, int>, forward0: Graph)
    returns (inDegree: map<int, int>, forward: Graph)
    requires node in g && node !in done && done <= g.Keys
    requires EdgesReversed(g, forward0, done) && DegreesAfter(g, inDegree0, done)
    ensures EdgesReversed(g, forward, done + {node})
    ensures DegreesAfter(g, inDegree, done + {node})
  {
    inDegree, forward := inDegree0, forward0;
    var deps := g[node];
    for i := 0 to |deps|
      invariant forall n, d {:trigger Edges(forward, d, n)} ::
                  Edges(forward, d, n) == if n == node then Count(deps[..i], d) else Edges(forward0, d, n)
      invariant forall n :: n in inDegree <==> n in inDegree0 || n in deps[..i]
      invariant forall n :: n in inDegree ==>
                              inDegree[n] == if n == node then i else if n in inDegree0 then inDegree0[n] else 0
    {
      var dep := deps[i];
      assert deps[..i + 1] == deps[..i] + [dep];
      forall d ensures Count(deps[..i + 1], d) == Count(deps[..i], d) + if dep == d then 1 else 0 {
        CountAppend(deps[..i], dep, d);
      }
      AppendEdge(forward, dep, node);
      forward := forward[dep := Deps(forward, dep) + [node]];
      inDegree := inDegree[node := inDegree[node] + 1];
      if dep !in inDegree {
        inDegree := inDegree[dep := 0];
      }
    }
    assert deps[..|deps|] == deps;
    assert forall n :: Mentioned(g, done + {node}, n) <==> Mentioned(g, done, n) || n in Deps(g, node);
  }

  /** The degree and forward-edge maps, whatever order the graph is ranged in. */
  method BuildDegrees(g: Graph) returns (inDegree: map<int, int>, forward: Graph)
    ensures inDegree.Keys == Nodes(g)
    ensures forall n :: n in inDegree ==> inDegree[n] == |Deps(g, n)|
    ensures EdgesReversed(g, forward, g.Keys)
  {
    inDegree := map n | n in g :: 0;
    forward := map[];
    var keys := Enumerate(g.Keys);
    ghost var done: set<int> := {};
    for i := 0 to |keys|
      invariant done == Elems(keys[..i])
      invariant EdgesReversed(g, forward, done) && DegreesAfter(g, inDegree, done)
    {
      assert keys[i] in Elems(keys) && Elems(keys[..i]) <= Elems(keys);
      inDegree, forward := AddEdges(g, keys[i], done, inDegree, forward);
      done := done + {keys[i]};
    }
    assert keys[..|keys|] == keys;
  }

  /** The bookkeeping between pops: counters and queue agree with `order`. */
  ghost predicate Counters(g: Graph, order: seq<int>, inDegree: map<int, int>) {
    && inDegree.Keys == Nodes(g)
    && (forall n :: n in inDegree ==> inDegree[n] == Waiting(Deps(g, n), Elems(order)))
  }

  ghost predicate Queued(nodes: set<int>, done: set<int>, inDegree: map<int, int>, queue: seq<int>) {
    && nodes <= inDegree.Keys
    && Distinct(queue)
    && (forall n :: n in queue <==> n in nodes && n !in done && inDegree[n] == 0)
  }

  lemma NothingCounted(s: seq<int>)
    ensures forall n :: Count(s[..0], n) == 0
  {
  }

  /** Popping a node decrements each dependent once per edge and enqueues
      exactly those whose counter reaches zero. */
  method Release(neighbors: seq<int>, inDegree0: map<int, int>, queue0: seq<int>, ghost done: set<int>)
    returns (inDegree: map<int, int>, queue: seq<int>)
    requires forall n :: n in neighbors ==> n in inDegree0 && n !in done
    requires forall n :: n in inDegree0 ==> inDegree0[n] >= Count(neighbors, n)
    requires Queued(inDegree0.Keys, done, inDegree0, queue0)
    ensures inDegree.Keys == inDegree0.Keys
    ensures forall n :: n in inDegree ==> inDegree[n] == inDegree0[n] - Count(neighbors, n)
    ensures Queued(inDegree.Keys, done, inDegree, queue)
  {
    hide Count;
    inDegree, queue := inDegree0, queue0;
    assert forall n :: Count(neighbors[..0], n) == 0 by { NothingCounted(neighbors); }
    for i := 0 to |neighbors|
      invariant inDegree.Keys == inDegree0.Keys
      invariant forall n :: n in inDegree ==> inDegree[n] == inDegree0[n] - Count(neighbors[..i], n)
      invariant Queued(inDegree.Keys, done, inDegree, queue)
    {
      var n := neighbors[i];
      assert neighbors[..i + 1] == neighbors[..i] + [n];
      CountPrefix(neighbors, i + 1, n);
      forall m ensures Count(neighbors[..i + 1], m) == Count(neighbors[..i], m) + if n == m then 1 else 0 {
        CountAppend(neighbors[..i], n, m);
      }
      inDegree := inDegree[n := inDegree[n] - 1];
      if inDegree[n] == 0 {
        queue := queue + [n];
      }
    }
    assert neighbors[..|neighbors|] == neighbors;
  }

  /** A zero counter is readiness. */
  lemma QueueIsReady(g: Graph, order: seq<int>, inDegree: map<int, int>, queue: seq<int>, n: int)
    requires Counters(g, order, inDegree) && Queued(Nodes(g), Elems(order), inDegree, queue)
    ensures n in queue <==> Ready(g, n, order)
  {
    WaitingZero(Deps(g, n), Elems(order));
  }

  /** What popping `node` does to the counters of its dependents. */
  lemma PoppingFacts(g: Graph, order: seq<int>, node: int, neighbors: seq<int>, inDegree: map<int, int>, n: int)
    requires Counters(g, order, inDegree) && SmallestFirst(g, order)
    requires LeastReady(g, node, order)
    requires Count(neighbors, n) == Edges(g, n, node)
    ensures n in neighbors ==> n in inDegree && n !in order + [node]
    ensures n in inDegree ==> Waiting(Deps(g, n), Elems(order + [node])) == inDegree[n] - Count(neighbors, n)
  {
    CountIsMultiplicity(neighbors, n);
    CountIsMultiplicity(Deps(g, n), node);
    if n in neighbors {
      DependencyIsNode(g, n, node);
      SmallestFirstFacts(g, order);
    }
    assert Elems(order + [node]) == Elems(order) + {node};
    WaitingDrops(Deps(g, n), Elems(order), node);
  }

  lemma FirstIsLeast(g: Graph, order: seq<int>, inDegree: map<int, int>, queue: seq<int>)
    requires Counters(g, order, inDegree) && Queued(Nodes(g), Elems(order), inDegree, queue)
    requires queue != [] && Ascending(queue)
    ensures LeastReady(g, queue[0], order)
  {
    forall m ensures m in queue <==> Ready(g, m, order) { QueueIsReady(g, order, inDegree, queue, m); }
    hide Ready, Queued, Counters;
    assert queue[0] in queue;
  }

  lemma RestIsQueued(nodes: set<int>, order: seq<int>, inDegree: map<int, int>, queue: seq<int>)
    requires Queued(nodes, Elems(order), inDegree, queue) && queue != []
    ensures Queued(nodes, Elems(order + [queue[0]]), inDegree, queue[1..])
  {
    assert Elems(order + [queue[0]]) == Elems(order) + {queue[0]};
    assert queue == [queue[0]] + queue[1..];
    forall n ensures n in queue[1..] <==> n in queue && n != queue[0] {
      if n in queue[1..] {
        var i :| 0 <= i < |queue| - 1 && queue[1..][i] == n;
        assert queue[i + 1] == n && queue[0] != queue[i + 1];
      }
    }
    forall i, j | 0 <= i < j < |queue| - 1 ensures queue[1..][i] != queue[1..][j] {
      assert queue[i + 1] != queue[j + 1];
    }
  }

  lemma NeighborsDrop(g: Graph, forward: Graph, order: seq<int>, node: int, neighbors: seq<int>,
                      inDegree: map<int, int>)
    requires Counters(g, order, inDegree) && SmallestFirst(g, order) && LeastReady(g, node, order)
    requires EdgesReversed(g, forward, g.Keys) && multiset(neighbors) == multiset(Deps(forward, node))
    ensures forall n :: n in neighbors ==> n in inDegree && n !in Elems(order + [node])
    ensures forall n :: n in inDegree ==>
                          Waiting(Deps(g, n), Elems(order + [node])) == inDegree[n] - Count(neighbors, n)
  {
    hide Waiting, Count, Counters, SmallestFirst, LeastReady, Deps;
    forall n
      ensures n in neighbors ==> n in inDegree && n !in Elems(order + [node])
      ensures n in inDegree ==> Waiting(Deps(g, n), Elems(order + [node])) == inDegree[n] - Count(neighbors, n)
    {
      CountIsMultiplicity(neighbors, n);
      CountIsMultiplicity(Deps(forward, node), n);
      assert Edges(forward, node, n) == if n in g then Edges(g, n, node) else 0;
      assert n !in g ==> Edges(g, n, node) == 0 by { NoEdges(g, n, node); }
      PoppingFacts(g, order, node, neighbors, inDegree, n);
    }
  }

  lemma NoEdges(g: Graph, n: int, d: int)
    ensures n !in g ==> Edges(g, n, d) == 0
  {
  }

  lemma ExtendOrder(g: Graph, order: seq<int>, node: int)
    requires SmallestFirst(g, order) && LeastReady(g, node, order)
    ensures SmallestFirst(g, order + [node])
  {
    var next := order + [node];
    forall i | 0 <= i < |next| ensures LeastReady(g, next[i], next[..i]) {
      if i < |order| {
        assert next[..i] == order[..i];
      } else {
        assert next[..i] == order;
      }
    }
  }

  lemma SmallestFirstFacts(g: Graph, order: seq<int>)
    requires SmallestFirst(g, order)
    ensures Distinct(order) && Elems(order) <= Nodes(g) && |order| <= |Nodes(g)|
    ensures forall i :: 0 <= i < |order| ==> Settled(g, order[i], order[..i]) && Settled(g, order[i], order)
  {
    forall i | 0 <= i < |order|
      ensures order[i] in Nodes(g) && order[i] !in order[..i]
      ensures Settled(g, order[i], order[..i]) && Settled(g, order[i], order)
    {
      assert LeastReady(g, order[i], order[..i]);
    }
    forall i, j | 0 <= i < j < |order| ensures order[i] != order[j] {
      assert order[j] !in order[..j] && order[..j][i] == order[i];
    }
    DistinctCardinality(order);
    SubsetCardinality(Elems(order), Nodes(g));
  }

  /** A queue that runs dry early leaves a set that waits on itself. */
  lemma DryQueueHasCycle(g: Graph, order: seq<int>, inDegree: map<int, int>, n: int)
    requires Counters(g, order, inDegree) && Queued(Nodes(g), Elems(order), inDegree, [])
    requires n in Nodes(g) && n !in order
    ensures !Acyclic(g)
  {
    var u := Nodes(g) - Elems(order);
    forall m | m in u ensures WaitsInside(g, u, m) {
      QueueIsReady(g, order, inDegree, [], m);
      var d :| d in Deps(g, m) && d !in order;
      DependencyIsNode(g, m, d);
    }
    StuckSetHasCycle(g, u, n);
  }

  /** An order of full length lists every node, so there is no cycle. */
  lemma FullOrderIsTopological(g: Graph, order: seq<int>)
    requires SmallestFirst(g, order) && |order| == |Nodes(g)|
    ensures TopologicalOrder(g, order) && Acyclic(g)
  {
    SmallestFirstFacts(g, order);
    DistinctCardinality(order);
    EqualCardinality(Elems(order), Nodes(g));
    OrderedIsAcyclic(g, order);
  }

  lemma ShortOrderMissesNode(g: Graph, order: seq<int>) returns (n: int)
    requires SmallestFirst(g, order) && |order| != |Nodes(g)|
    ensures n in Nodes(g) && n !in order
  {
    SmallestFirstFacts(g, order);
    DistinctCardinality(order);
    n := LargerHasMore(Elems(order), Nodes(g));
  }

  /** The queue before the first pop holds the nodes without dependencies. */
  method InitialQueue(g: Graph, inDegree: map<int, int>) returns (queue: seq<int>)
    requires inDegree.Keys == Nodes(g)
    requires forall n :: n in inDegree ==> inDegree[n] == |Deps(g, n)|
    ensures Counters(g, [], inDegree)
    ensures Queued(Nodes(g), {}, inDegree, queue) && Ascending(queue)
  {
    var start := Enumerate(set n | n in inDegree && inDegree[n] == 0);
    queue := SortInts(start);
    DistinctPermutation(start, queue);
    assert forall n :: n in queue <==> n in Elems(start);
    assert Elems<int>([]) == {};
    forall n | n in inDegree ensures inDegree[n] == Waiting(Deps(g, n), Elems([])) {
      WaitingNone(Deps(g, n));
    }
  }

  /** One pop: the smallest ready node moves from the queue to the order. */
  method Pop(g: Graph, forward: Graph, order: seq<int>, inDegree0: map<int, int>, queue0: seq<int>)
    returns (next: seq<int>, inDegree: map<int, int>, queue: seq<int>)
    requires EdgesReversed(g, forward, g.Keys)
    requires SmallestFirst(g, order) && Counters(g, order, inDegree0)
    requires queue0 != [] && Ascending(queue0) && Queued(Nodes(g), Elems(order), inDegree0, queue0)
    ensures next == order + [queue0[0]]
    ensures SmallestFirst(g, next) && Counters(g, next, inDegree)
    ensures Ascending(queue) && Queued(Nodes(g), Elems(next), inDegree, queue)
  {
    hide Count, Waiting, SmallestFirst, EdgesReversed, Deps;
    var node := queue0[0];
    next := order + [node];
    FirstIsLeast(g, order, inDegree0, queue0);
    ExtendOrder(g, order, node);
    var neighbors := SortInts(Deps(forward, node));
    NeighborsDrop(g, forward, order, node, neighbors, inDegree0);
    var rest := queue0[1..];
    RestIsQueued(Nodes(g), order, inDegree0, queue0);
    var unsorted;
    inDegree, unsorted := Release(neighbors, inDegree0, rest, Elems(next));
    queue := SortInts(unsorted);
    DistinctPermutation(unsorted, queue);
  }

  datatype SchedulerError = NoTransactions | CyclicDependency

  /** Kahn's algorithm both ways: an order exactly when there is no cycle,
      and then the smallest-first topological order. */
  method TopoSort(g: Graph) returns (r: Result<seq<int>, SchedulerError>)
    ensures r.Ok? <==> Acyclic(g)
    ensures r.Ok? ==> TopologicalOrder(g, r.value) && SmallestFirst(g, r.value)
    ensures r.Err? ==> r.error == CyclicDependency
  {
    hide Acyclic;
    var inDegree, forward := BuildDegrees(g);
    var queue := InitialQueue(g, inDegree);
    var order: seq<int> := [];
    assert Elems(order) == {};
    while queue != []
      invariant SmallestFirst(g, order) && Counters(g, order, inDegree)
      invariant Ascending(queue) && Queued(Nodes(g), Elems(order), inDegree, queue)
      decreases |Nodes(g)| - |order|
    {
      order, inDegree, queue := Pop(g, forward, order, inDegree, queue);
      SmallestFirstFacts(g, order);
    }
    assert |inDegree| == |inDegree.Keys|;
    if |order| != |inDegree| {
      ghost var n := ShortOrderMissesNode(g, order);
      DryQueueHasCycle(g, order, inDegree, n);
      return Err(CyclicDependency);
    }
    FullOrderIsTopological(g, order);
    return Ok(order);
  }
}
