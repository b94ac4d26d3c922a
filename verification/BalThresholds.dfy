/** Exactly how far the bounds on the worker assignment reach once 64-bit sums
    wrap. The stages that break them are of different transactions and of a size
    quadratic in the number of workers. */
module WorkerThresholds {
  import opened Collections
  import opened Arithmetic
  import opened WorkerAssignment

  /** At most `most` tasks, of different transactions. */
  ghost predicate RealStage(tasks: seq<PipelineTask>, most: nat) {
    |tasks| <= most && forall i, j :: 0 <= i < j < |tasks| ==> tasks[i].txIndex != tasks[j].txIndex
  }

  /** Transactions 0, 1, 2 and so on with the given gas. */
  ghost function Numbered(gas: seq<Gas>): (r: seq<PipelineTask>)
    ensures |r| == |gas| && RealStage(r, |gas|)
  {
    seq(|gas|, i requires 0 <= i < |gas| => PipelineTask(i, gas[i], 0))
  }

  lemma NumberedAppend(gas: seq<Gas>, g: Gas)
    ensures Numbered(gas + [g]) == Numbered(gas) + [PipelineTask(|gas|, g, 0)]
  {
  }

  ghost function Repeat(g: Gas, n: nat): (r: seq<Gas>)
    ensures |r| == n
  {
    seq(n, _ => g)
  }

  lemma RepeatMore(gas: seq<Gas>, g: Gas, n: nat)
    ensures gas + Repeat(g, n + 1) == (gas + Repeat(g, n)) + [g]
  {
  }

  /** One more greedy step. */
  lemma GreedyTakes(tasks: seq<PipelineTask>, f: seq<nat>, workers: nat, t: PipelineTask, k: nat)
    requires Greedy(tasks, f, workers) && LeastLoaded(tasks, f, workers, k)
    ensures Greedy(tasks + [t], f + [k], workers)
    ensures forall w: nat {:trigger Load(tasks, f, w)} ::
              Load(tasks + [t], f + [k], w) == Load(tasks, f, w) + if w == k then t.gasLimit else 0
    ensures TotalGas(tasks + [t]) == TotalGas(tasks) + t.gasLimit
  {
    ExtendGreedy(tasks, f, workers, t, k);
    TotalAppend(tasks, t);
    hide Load, Greedy, LeastLoaded, TotalGas;
    GreedyLength(tasks, f, workers);
    assert (tasks + [t])[..|tasks|] == tasks && (f + [k])[..|tasks|] == f;
    forall w: nat ensures Load(tasks + [t], f + [k], w) == Load(tasks, f, w) + if w == k then t.gasLimit else 0 {
      LoadStep(tasks + [t], f + [k], w);
    }
  }

  /** A worker that shows as little as any other takes the next task. */
  lemma FirstIsLeast(tasks: seq<PipelineTask>, f: seq<nat>, workers: nat)
    requires |f| == |tasks| && workers > 0
    requires forall w :: 0 <= w < workers ==> Load(tasks, f, 0) % TWO_64 <= Load(tasks, f, w) % TWO_64
    ensures LeastLoaded(tasks, f, workers, 0)
  {
    hide Load;
  }

  // ----- dealing in turn -----

  /** Greedy, the first `j` workers at `x + g` and the others at `x`. */
  ghost predicate Dealt(gas: seq<Gas>, f: seq<nat>, workers: nat, x: nat, g: nat, j: nat) {
    && |f| == |gas| && Greedy(Numbered(gas), f, workers)
    && forall w :: 0 <= w < workers ==> Load(Numbered(gas), f, w) == x + if w < j then g else 0
  }

  /** All workers at `x`. */
  ghost predicate Level(gas: seq<Gas>, f: seq<nat>, workers: nat, x: nat) {
    && |f| == |gas| && Greedy(Numbered(gas), f, workers)
    && forall w :: 0 <= w < workers ==> Load(Numbered(gas), f, w) == x
  }

  lemma TakesGas(gas: seq<Gas>, f: seq<nat>, workers: nat, g: Gas, k: nat)
    requires |f| == |gas| && Greedy(Numbered(gas), f, workers) && LeastLoaded(Numbered(gas), f, workers, k)
    ensures Greedy(Numbered(gas + [g]), f + [k], workers)
    ensures forall w: nat {:trigger Load(Numbered(gas), f, w)} ::
              Load(Numbered(gas + [g]), f + [k], w) == Load(Numbered(gas), f, w) + if w == k then g else 0
    ensures TotalGas(Numbered(gas + [g])) == TotalGas(Numbered(gas)) + g
  {
    hide Greedy, LeastLoaded, Load, TotalGas, Numbered;
    NumberedAppend(gas, g);
    GreedyTakes(Numbered(gas), f, workers, PipelineTask(|gas|, g, 0), k);
  }

  lemma NextIsLeast(gas: seq<Gas>, f: seq<nat>, workers: nat, x: nat, g: nat, j: nat)
    requires Dealt(gas, f, workers, x, g, j) && j < workers && 0 < g && x + g < TWO_64
    ensures LeastLoaded(Numbered(gas), f, workers, j)
  {
    hide Load, Greedy, Numbered;
    forall w | 0 <= w < workers ensures Shown(Numbered(gas), f, w) == x + if w < j then g else 0 {
      assert Load(Numbered(gas), f, w) == x + if w < j then g else 0;
    }
  }

  lemma {:induction false} DealSome(gas: seq<Gas>, f: seq<nat>, workers: nat, x: nat, g: Gas, j: nat)
    returns (h: seq<nat>)
    requires Level(gas, f, workers, x) && 0 < g && x + g < TWO_64 && j <= workers
    ensures Dealt(gas + Repeat(g, j), h, workers, x, g, j)
  {
    hide Greedy, Load, Numbered, LeastLoaded;
    if j == 0 {
      h := f;
      assert gas + Repeat(g, 0) == gas;
    } else {
      var before := DealSome(gas, f, workers, x, g, j - 1);
      var list := gas + Repeat(g, j - 1);
      NextIsLeast(list, before, workers, x, g, j - 1);
      RepeatMore(gas, g, j - 1);
      hide Repeat;
      h := before + [j - 1];
      TakesGas(list, before, workers, g, j - 1);
      forall w | 0 <= w < workers ensures Load(Numbered(list + [g]), h, w) == x + if w < j then g else 0 {
        assert Load(Numbered(list), before, w) == x + if w < j - 1 then g else 0;
      }
    }
  }

  /** `n` rounds of one task for each worker. */
  lemma {:induction false} DealRounds(gas: seq<Gas>, f: seq<nat>, workers: nat, x: nat, g: Gas, n: nat)
    returns (h: seq<nat>)
    requires Level(gas, f, workers, x) && 0 < g && x + n * g < TWO_64
    ensures Level(gas + Repeat(g, n * workers), h, workers, x + n * g)
  {
    if n == 0 {
      h := f;
      assert gas + Repeat(g, 0) == gas;
    } else {
      hide Level, Dealt;
      Peel(n, g);
      Peel(n, workers);
      var before := DealRounds(gas, f, workers, x, g, n - 1);
      var list := gas + Repeat(g, (n - 1) * workers);
      h := DealSome(list, before, workers, x + (n - 1) * g, g, workers);
      assert list + Repeat(g, workers) == gas + Repeat(g, n * workers);
      AllDealt(list + Repeat(g, workers), h, workers, x + (n - 1) * g, g);
    }
  }

  lemma AllDealt(gas: seq<Gas>, f: seq<nat>, workers: nat, x: nat, g: nat)
    requires Dealt(gas, f, workers, x, g, workers)
    ensures Level(gas, f, workers, x + g)
  {
    hide Greedy, Load, Numbered;
  }

  lemma NothingDealt(workers: nat)
    ensures Level([], [], workers, 0)
  {
    forall w: nat ensures Load(Numbered([]), [], w) == 0 { assert TasksOf(Numbered([]), [], w) == []; }
  }

  lemma {:induction false} EqualLoadSum(tasks: seq<PipelineTask>, f: seq<nat>, m: nat, x: nat)
    requires |f| == |tasks| && forall w :: 0 <= w < m ==> Load(tasks, f, w) == x
    ensures LoadSum(tasks, f, m) == m * x
  {
    hide Load;
    if m > 0 {
      EqualLoadSum(tasks, f, m - 1, x);
      Peel(m, x);
    }
  }

  lemma LevelTotal(gas: seq<Gas>, f: seq<nat>, workers: nat, x: nat)
    requires Level(gas, f, workers, x)
    ensures TotalGas(Numbered(gas)) == workers * x
  {
    EqualLoadSum(Numbered(gas), f, workers, x);
    GasIsConserved(Numbered(gas), f, workers);
  }

  // ----- stages that wrap -----

  /** Workers - 1 rounds of as much as fits, and rounds of one for the rest. */
  ghost function Even(workers: nat, low: Gas): (gas: seq<Gas>)
    requires workers >= 2
  {
    var q, r := low / (workers - 1), low % (workers - 1);
    (if q > 0 then Repeat(q, (workers - 1) * workers) else []) + Repeat(1, r * workers)
  }

  lemma Division(low: nat, d: nat)
    requires d > 0
    ensures low == d * (low / d) + low % d && low / d <= low && low % d < d
  {
    FactorBound(d, low / d);
  }

  lemma FactorBound(d: nat, q: nat)
    requires d > 0
    ensures q <= d * q
  {
  }

  lemma EvenIsLevel(workers: nat, low: Gas) returns (f: seq<nat>)
    requires workers >= 2
    ensures Level(Even(workers, low), f, workers, low)
  {
    hide Level;
    var d := workers - 1;
    var q, r := low / d, low % d;
    Division(low, d);
    NothingDealt(workers);
    f := [];
    var list: seq<Gas> := [];
    if q > 0 {
      f := DealRounds(list, f, workers, 0, q, d);
      list := list + Repeat(q, d * workers);
      assert list == Repeat(q, d * workers);
    }
    f := DealRounds(list, f, workers, d * q, 1, r);
  }

  lemma EvenLength(workers: nat, low: Gas)
    requires workers >= 2
    ensures var q, r := low / (workers - 1), low % (workers - 1);
            |Even(workers, low)| == (if q > 0 then (workers - 1) * workers else 0) + r * workers
  {
  }

  lemma ShortRounds(m: nat, r: nat)
    requires m >= 2 && r < m - 1
    ensures (m - 1) * m + r * m + 3 <= 2 * m * m
  {
    MulKeepsOrder(m, r, m - 2);
    Scale(m, m, 1);
    Scale(m, m, 2);
    assert 2 * m * m == m * m + m * m;
  }

  lemma EvenIsShort(workers: nat, low: Gas)
    requires workers >= 2
    ensures |Even(workers, low)| + 3 <= 2 * workers * workers
    ensures low == 1 ==> |Even(workers, low)| == workers
  {
    hide Even;
    var d := workers - 1;
    EvenLength(workers, low);
    Division(low, d);
    ShortRounds(workers, low % d);
    if low == 1 { OneDivided(d); }
  }

  lemma OneDivided(d: nat)
    requires d > 0
    ensures 1 / d == (if d == 1 then 1 else 0) && 1 % d == (if d == 1 then 0 else 1)
  {
    if d == 1 { DivIs(1, 1, 1, 0); } else { DivIs(1, d, 0, 1); }
  }

  /** All workers at `low`, worker 0 raised to 2^64, and `k` more tasks of 1:
      worker 0 shows 0 and takes them too. */
  ghost function WrapGas(workers: nat, low: Gas, k: nat): seq<Gas>
    requires workers >= 2 && 0 < low
  {
    Even(workers, low) + [TWO_64 - low] + Repeat(1, k)
  }

  /** Worker 0 at `top`, all others at `low`. */
  ghost predicate OneAhead(gas: seq<Gas>, f: seq<nat>, workers: nat, top: nat, low: nat) {
    && |f| == |gas| && Greedy(Numbered(gas), f, workers)
    && forall w :: 0 <= w < workers ==> Load(Numbered(gas), f, w) == if w == 0 then top else low
  }

  lemma FirstTakes(gas: seq<Gas>, f: seq<nat>, workers: nat, top: nat, low: nat, g: Gas)
    requires workers >= 2 && OneAhead(gas, f, workers, top, low) && top % TWO_64 <= low < TWO_64
    ensures OneAhead(gas + [g], f + [0], workers, top + g, low)
    ensures TotalGas(Numbered(gas + [g])) == TotalGas(Numbered(gas)) + g
  {
    hide Greedy, Load, LeastLoaded, TotalGas, Numbered;
    FirstIsLeast(Numbered(gas), f, workers);
    TakesGas(gas, f, workers, g, 0);
    forall w | 0 <= w < workers
      ensures Load(Numbered(gas + [g]), f + [0], w) == if w == 0 then top + g else low
    {
      assert Load(Numbered(gas), f, w) == if w == 0 then top else low;
    }
  }

  lemma WrapIsGreedy(workers: nat, low: Gas, k: nat) returns (f: seq<nat>)
    requires workers >= 2 && 0 < low && 1 <= k <= 2
    ensures OneAhead(WrapGas(workers, low, k), f, workers, TWO_64 + k, low)
    ensures TotalGas(Numbered(WrapGas(workers, low, k))) == workers * low + (TWO_64 - low) + k
  {
    hide Greedy, Load, TotalGas, Numbered, Even;
    var even, big: Gas := Even(workers, low), TWO_64 - low;
    f := EvenIsLevel(workers, low);
    LevelTotal(even, f, workers, low);
    assert OneAhead(even, f, workers, low, low);
    hide OneAhead;
    FirstTakes(even, f, workers, low, low, big);
    f := f + [0];
    FirstTakes(even + [big], f, workers, TWO_64, low, 1);
    f := f + [0];
    if k == 2 {
      FirstTakes(even + [big] + [1], f, workers, TWO_64 + 1, low, 1);
      f := f + [0];
    }
    assert WrapGas(workers, low, k) == if k == 1 then even + [big] + [1] else even + [big] + [1] + [1];
  }

  // ----- balance -----

  /** Every real stage of at most `total` gas is balanced. */
  ghost predicate AlwaysBalanced(workers: nat, total: nat, most: nat) {
    forall tasks, f | RealStage(tasks, most) && Greedy(tasks, f, workers) && TotalGas(tasks) <= total ::
      |f| == |tasks| && Balanced(tasks, f, workers)
  }

  lemma {:induction false} LargestWithin(tasks: seq<PipelineTask>, most: nat)
    requires forall i :: 0 <= i < |tasks| ==> tasks[i].gasLimit <= most
    ensures LargestGas(tasks) <= most
  {
    if tasks != [] { LargestWithin(tasks[..|tasks| - 1], most); }
  }

  lemma OneWrapIsUnbalanced(workers: nat) returns (tasks: seq<PipelineTask>, f: seq<nat>)
    requires workers >= 2
    ensures RealStage(tasks, workers + 2) && Greedy(tasks, f, workers) && |f| == |tasks|
    ensures TotalGas(tasks) == TWO_64 + workers && !Balanced(tasks, f, workers)
  {
    hide Greedy, Load, TotalGas, LargestGas, Even;
    f := WrapIsGreedy(workers, 1, 1);
    tasks := Numbered(WrapGas(workers, 1, 1));
    EvenIsShort(workers, 1);
    LargestWithin(tasks, TWO_64 - 1);
    assert Load(tasks, f, 0) == TWO_64 + 1 && Load(tasks, f, 1) == 1;
  }

  /** The exact threshold: with two workers or more, the greedy assignment of
      every stage of at most `total` gas is balanced if and only if `total` is
      below 2^64 plus the number of workers. Stages of workers + 2 different
      transactions are enough to show it. */
  lemma BalancedExactlyBelow(workers: nat, total: nat, most: nat)
    requires workers >= 2 && most >= workers + 2
    ensures AlwaysBalanced(workers, total, most) <==> total < TWO_64 + workers
  {
    hide Greedy, Balanced, TotalGas;
    if total < TWO_64 + workers {
      forall tasks, f | RealStage(tasks, most) && Greedy(tasks, f, workers) && TotalGas(tasks) <= total
        ensures |f| == |tasks| && Balanced(tasks, f, workers)
      {
        GreedyLength(tasks, f, workers);
        GreedyIsBalanced(tasks, f, workers);
      }
    } else {
      var tasks, f := OneWrapIsUnbalanced(workers);
    }
  }

  // ----- packing -----

  ghost function CapSum(caps: seq<nat>, m: nat): nat
    requires m <= |caps|
  {
    if m == 0 then 0 else CapSum(caps, m - 1) + caps[m - 1]
  }

  lemma {:induction false} RoomLeft(tasks: seq<PipelineTask>, h: seq<nat>, caps: seq<nat>, m: nat) returns (w: nat)
    requires |h| == |tasks| && m <= |caps| && LoadSum(tasks, h, m) < CapSum(caps, m)
    ensures w < m && Load(tasks, h, w) < caps[w]
  {
    hide Load;
    if Load(tasks, h, m - 1) < caps[m - 1] { w := m - 1; } else { w := RoomLeft(tasks, h, caps, m - 1); }
  }

  ghost predicate Packed(tasks: seq<PipelineTask>, h: seq<nat>, caps: seq<nat>) {
    Assignment(tasks, h, |caps|) && forall w :: 0 <= w < |caps| ==> Load(tasks, h, w) <= caps[w]
  }

  lemma PackOne(tasks: seq<PipelineTask>, h: seq<nat>, caps: seq<nat>, more: seq<nat>, t: PipelineTask, k: nat)
    requires Packed(tasks, h, caps) && |more| == |caps| && k < |caps|
    requires forall w :: 0 <= w < |caps| ==> Load(tasks, h, w) + (if w == k then t.gasLimit else 0) <= more[w]
    ensures Packed(tasks + [t], h + [k], more)
  {
    hide Load;
    assert (tasks + [t])[..|tasks|] == tasks && (h + [k])[..|tasks|] == h;
    forall w | 0 <= w < |caps| ensures Load(tasks + [t], h + [k], w) <= more[w] { LoadStep(tasks + [t], h + [k], w); }
  }

  lemma PackGas(gas: seq<Gas>, h: seq<nat>, caps: seq<nat>, more: seq<nat>, g: Gas, k: nat)
    requires Packed(Numbered(gas), h, caps) && |more| == |caps| && k < |caps|
    requires |h| == |gas| && forall w :: 0 <= w < |caps| ==>
               Load(Numbered(gas), h, w) + (if w == k then g else 0) <= more[w]
    ensures Packed(Numbered(gas + [g]), h + [k], more)
  {
    hide Load;
    NumberedAppend(gas, g);
    PackOne(Numbered(gas), h, caps, more, PipelineTask(|gas|, g, 0), k);
  }

  /** Tasks of 1 fit as long as there is any room. */
  lemma {:induction false} FitUnits(gas: seq<Gas>, h: seq<nat>, caps: seq<nat>, n: nat) returns (more: seq<nat>)
    requires Packed(Numbered(gas), h, caps) && |h| == |gas|
    requires TotalGas(Numbered(gas)) + n <= CapSum(caps, |caps|)
    ensures Packed(Numbered(gas + Repeat(1, n)), more, caps) && |more| == |gas| + n
    ensures TotalGas(Numbered(gas + Repeat(1, n))) == TotalGas(Numbered(gas)) + n
  {
    hide Load, Numbered, TotalGas, CapSum;
    if n == 0 {
      more := h;
      assert gas + Repeat(1, 0) == gas;
    } else {
      var before := FitUnits(gas, h, caps, n - 1);
      var list := gas + Repeat(1, n - 1);
      GasIsConserved(Numbered(list), before, |caps|);
      var w := RoomLeft(Numbered(list), before, caps, |caps|);
      RepeatMore(gas, 1, n - 1);
      hide Repeat;
      PackGas(list, before, caps, caps, 1, w);
      NumberedTotal(list, 1);
      more := before + [w];
    }
  }

  lemma NumberedTotal(gas: seq<Gas>, g: Gas)
    ensures TotalGas(Numbered(gas + [g])) == TotalGas(Numbered(gas)) + g
  {
    hide TotalGas;
    NumberedAppend(gas, g);
    TotalAppend(Numbered(gas), PipelineTask(|gas|, g, 0));
  }

  lemma RepeatStep(g: Gas, m: nat)
    ensures Repeat(g, m + 1) == Repeat(g, m) + [g]
    ensures Numbered(Repeat(g, m + 1))[..m] == Numbered(Repeat(g, m))
    ensures Numbered(Repeat(g, m + 1))[m].gasLimit == g
  {
  }

  lemma RepeatLoad(g: Gas, m: nat, h: seq<nat>, w: nat)
    requires |h| == m + 1
    ensures Load(Numbered(Repeat(g, m + 1)), h, w) ==
            Load(Numbered(Repeat(g, m)), h[..m], w) + if h[m] == w then g else 0
  {
    hide Load;
    RepeatStep(g, m);
    hide Repeat, Numbered;
    LoadStep(Numbered(Repeat(g, m + 1)), h, w);
  }

  /** Tasks of `g` load a worker `g` times what tasks of 1 do. */
  lemma {:induction false} ScaledLoad(g: Gas, n: nat, h: seq<nat>, w: nat)
    requires |h| == n
    ensures Load(Numbered(Repeat(g, n)), h, w) == g * Load(Numbered(Repeat(1, n)), h, w)
  {
    if n == 0 {
      assert TasksOf(Numbered(Repeat(g, n)), h, w) == [] && TasksOf(Numbered(Repeat(1, n)), h, w) == [];
    } else {
      hide Load, Repeat, Numbered;
      var m := n - 1;
      ScaledLoad(g, m, h[..m], w);
      RepeatLoad(g, m, h, w);
      RepeatLoad(1, m, h, w);
      Spread(g, Load(Numbered(Repeat(1, m)), h[..m], w), 1);
    }
  }

  lemma {:induction false} ScaledTotal(g: Gas, n: nat)
    ensures TotalGas(Numbered(Repeat(g, n))) == g * n
  {
    if n > 0 {
      ScaledTotal(g, n - 1);
      RepeatStep(g, n - 1);
      hide TotalGas, Repeat, Numbered;
      NumberedTotal(Repeat(g, n - 1), g);
      Spread(g, n - 1, 1);
    }
  }

  /** Nothing for worker 0, `x` for each of the others. */
  ghost function Others(workers: nat, x: nat): (r: seq<nat>)
    ensures |r| == workers
  {
    seq(workers, w => if w == 0 then 0 else x)
  }

  lemma {:induction false} OthersTotal(workers: nat, x: nat, m: nat)
    requires 1 <= m <= workers
    ensures CapSum(Others(workers, x), m) == (m - 1) * x
  {
    if m > 1 {
      OthersTotal(workers, x, m - 1);
      Peel(m - 1, x);
    }
  }

  lemma {:induction false} AllTotal(workers: nat, x: nat, m: nat)
    requires m <= workers
    ensures CapSum(seq(workers, _ => x), m) == m * x
  {
    if m > 0 {
      AllTotal(workers, x, m - 1);
      Peel(m, x);
    }
  }

  lemma NothingPacked(caps: seq<nat>)
    ensures Packed(Numbered([]), [], caps) && TotalGas(Numbered([])) == 0
  {
    forall w: nat ensures Load(Numbered([]), [], w) == 0 { assert TasksOf(Numbered([]), [], w) == []; }
  }

  /** The large rounds go to the other workers, as many tasks to each. */
  lemma PackRounds(workers: nat, q: Gas, best: nat) returns (h: seq<nat>)
    requires workers >= 2 && q * workers <= best
    ensures var list := Repeat(q, (workers - 1) * workers);
            && |h| == |list| && Packed(Numbered(list), h, Others(workers, best))
            && TotalGas(Numbered(list)) == q * ((workers - 1) * workers)
  {
    hide Load, TotalGas, Numbered, CapSum;
    var n, counts := (workers - 1) * workers, Others(workers, workers);
    NothingPacked(counts);
    OthersTotal(workers, workers, workers);
    h := FitUnits([], [], counts, n);
    assert [] + Repeat(1, n) == Repeat(1, n);
    forall w | 0 <= w < workers ensures Load(Numbered(Repeat(q, n)), h, w) <= Others(workers, best)[w] {
      ScaledLoad(q, n, h, w);
      MulKeepsOrder(q, Load(Numbered(Repeat(1, n)), h, w), counts[w]);
    }
    ScaledTotal(q, n);
  }

  lemma PackEven(workers: nat, low: Gas, best: nat) returns (h: seq<nat>)
    requires workers >= 2 && workers * low <= (workers - 1) * best
    ensures |h| == |Even(workers, low)| && Packed(Numbered(Even(workers, low)), h, Others(workers, best))
    ensures TotalGas(Numbered(Even(workers, low))) == workers * low
  {
    var d := workers - 1;
    var q, r := low / d, low % d;
    Division(low, d);
    RoundsFit(workers, d, q, r, low, best);
    h := PackParts(workers, q, r, best, workers * low);
  }

  lemma PackParts(workers: nat, q: Gas, r: nat, best: nat, total: nat) returns (h: seq<nat>)
    requires workers >= 2 && q * workers <= best && q * ((workers - 1) * workers) + r * workers == total
    requires total <= (workers - 1) * best
    ensures var list := (if q > 0 then Repeat(q, (workers - 1) * workers) else []) + Repeat(1, r * workers);
            |h| == |list| && Packed(Numbered(list), h, Others(workers, best)) && TotalGas(Numbered(list)) == total
  {
    hide Packed, TotalGas, CapSum, Numbered, Others, Repeat;
    var list: seq<Gas> := [];
    NothingPacked(Others(workers, best));
    h := [];
    if q > 0 {
      list := Repeat(q, (workers - 1) * workers);
      h := PackRounds(workers, q, best);
    }
    OthersTotal(workers, best, workers);
    h := FitUnits(list, h, Others(workers, best), r * workers);
  }

  lemma RoundsFit(m: nat, d: nat, q: nat, r: nat, low: nat, best: nat)
    requires d > 0 && low == d * q + r && m * low <= d * best
    ensures q * m <= best && q * (d * m) + r * m == m * low
  {
    assert m * low == m * (d * q) + m * r;
    assert m * (d * q) == d * (q * m) == q * (d * m);
    if q * m > best {
      NextMultiple(d, best, q * m);
    }
  }

  lemma WrapIsDoable(workers: nat, best: Gas, k: nat)
    requires workers >= 2 && 0 < best && workers * (TWO_64 - best) + k <= (workers - 1) * best
    ensures Doable(Numbered(WrapGas(workers, TWO_64 - best, k)), workers, best)
  {
    hide Load, TotalGas, CapSum, Numbered, Even;
    var low: Gas := TWO_64 - best;
    var even, all := Even(workers, low), seq(workers, _ => best);
    var h := PackEven(workers, low, best);
    PackGas(even, h, Others(workers, best), all, best, 0);
    NumberedTotal(even, best);
    AllTotal(workers, best, workers);
    Peel(workers, best);
    h := FitUnits(even + [best], h + [0], all, k);
    assert WrapGas(workers, low, k) == even + [best] + Repeat(1, k);
  }

  // ----- how far from the best -----

  /** Every real stage that can be done within some `b` up to `best` is done
      within (2 - 1/m) times `b`. */
  ghost predicate AlwaysNearlyOptimal(workers: nat, best: nat, most: nat) {
    forall tasks, f, b: nat |
      RealStage(tasks, most) && Greedy(tasks, f, workers) && b <= best && Doable(tasks, workers, b) ::
      |f| == |tasks| && NearlyOptimal(tasks, f, workers, b)
  }

  /** The least `b` whose bound passes 2^64, and by how much. */
  lemma FirstPast(m: nat, best: nat) returns (b: nat, e: nat)
    requires m >= 2 && (2 * m - 1) * best > m * TWO_64
    ensures TWO_64 < 2 * b && b < TWO_64 - 1 && b <= best
    ensures (2 * m - 1) * b == m * TWO_64 + e && 0 < e < 2 * m
  {
    var d, x := 2 * m - 1, m * TWO_64;
    b := x / d + 1;
    assert x == d * (x / d) + x % d;
    OneMore(d, x / d);
    e := d - x % d;
    if b > best { MulKeepsOrder(d, best, x / d); }
    HalfBelow(m, b, e);
    BelowAll(m, x / d);
  }

  lemma HalfBelow(m: nat, b: nat, e: nat)
    requires m >= 2 && e > 0 && (2 * m - 1) * b == m * TWO_64 + e
    ensures TWO_64 < 2 * b
  {
    DoubleAndDrop(m - 1, b);
    Spread(m, b, b);
    Peel(m, b);
    if b + b <= TWO_64 { MulKeepsOrder(m, b + b, TWO_64); }
  }

  lemma BelowAll(m: nat, q: nat)
    requires m >= 2 && (2 * m - 1) * q <= m * TWO_64
    ensures q < TWO_64 - 2
  {
    DoubleAndDrop(m - 1, q);
    Scale(m - 1, 2, q);
    Peel(m, q);
    if q >= TWO_64 - 2 { MulKeepsOrder(m, TWO_64, q + 2); }
    Spread(m, q, 2);
  }

  lemma PastTheBound(m: nat, b: nat, e: nat, k: nat)
    requires m >= 2 && b < TWO_64 && (2 * m - 1) * b == m * TWO_64 + e && 0 < e < 2 * m
    requires k == if e == 1 then 1 else 2
    ensures m * (TWO_64 - b) + k <= (m - 1) * b
    ensures m * (TWO_64 + k) > (2 * m - 1) * b
  {
    DoubleAndDrop(m - 1, b);
    Peel(m, b);
    Scale(m, TWO_64, b);
    Spread(m, TWO_64, k);
  }

  lemma WrapPassesBound(workers: nat, best: nat) returns (tasks: seq<PipelineTask>, f: seq<nat>, b: nat)
    requires workers >= 2 && (2 * workers - 1) * best > workers * TWO_64
    ensures RealStage(tasks, 2 * workers * workers) && Greedy(tasks, f, workers) && |f| == |tasks|
    ensures b <= best && Doable(tasks, workers, b) && !NearlyOptimal(tasks, f, workers, b)
  {
    hide Greedy, Load, Doable, Even;
    var e;
    b, e := FirstPast(workers, best);
    var k := if e == 1 then 1 else 2;
    PastTheBound(workers, b, e, k);
    WrapIsDoable(workers, b, k);
    f := WrapIsGreedy(workers, TWO_64 - b, k);
    tasks := Numbered(WrapGas(workers, TWO_64 - b, k));
    EvenIsShort(workers, TWO_64 - b);
    assert Load(tasks, f, 0) == TWO_64 + k;
  }

  /** The exact threshold of Graham's bound: with two workers or more it holds
      for every stage that can be done within `best` or less if and only if the
      bound for `best` is itself at most 2^64. Stages of 2 * workers * workers
      different transactions are enough to show it. */
  lemma NearlyOptimalExactlyBelow(workers: nat, best: nat, most: nat)
    requires workers >= 2 && most >= 2 * workers * workers
    ensures AlwaysNearlyOptimal(workers, best, most) <==> (2 * workers - 1) * best <= workers * TWO_64
  {
    hide Greedy, Doable, NearlyOptimal;
    if (2 * workers - 1) * best <= workers * TWO_64 {
      forall tasks, f, b: nat |
        RealStage(tasks, most) && Greedy(tasks, f, workers) && b <= best && Doable(tasks, workers, b)
        ensures |f| == |tasks| && NearlyOptimal(tasks, f, workers, b)
      {
        GreedyLength(tasks, f, workers);
        MulKeepsOrder(2 * workers - 1, b, best);
        GreedyIsNearlyOptimal(tasks, f, workers, b);
      }
    } else {
      var tasks, f, b := WrapPassesBound(workers, best);
    }
  }
}
