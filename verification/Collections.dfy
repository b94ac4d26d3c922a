/** Facts about finite sequences and sets used throughout, the two library
    calls the Go code leans on (`sort.Ints` and ranging over a map), and the
    machine widths the model makes explicit. */
module Collections {

  datatype Option<+T> = None | Some(value: T)

  datatype Result<+T, +E> = Ok(value: T) | Err(error: E)

  /** One more than the largest value of Go's `uint64`. */
  const TWO_64: nat := 0x1_0000_0000_0000_0000

  const TWO_63: nat := 0x8000_0000_0000_0000

  /** Sums may be wrapped at any point. */
  lemma AddWrapped(a: nat, b: nat)
    ensures (a % TWO_64 + b) % TWO_64 == (a + b) % TWO_64
    ensures (a % TWO_64 + b % TWO_64) % TWO_64 == (a + b) % TWO_64
  {
  }

  ghost function Elems<T>(s: seq<T>): set<T> {
    set x | x in s
  }

  ghost predicate Distinct<T>(s: seq<T>) {
    forall i, j :: 0 <= i < j < |s| ==> s[i] != s[j]
  }

  predicate Ascending(s: seq<int>) {
    forall i, j :: 0 <= i < j < |s| ==> s[i] <= s[j]
  }

  ghost predicate StrictlyAscending(s: seq<int>) {
    forall i, j :: 0 <= i < j < |s| ==> s[i] < s[j]
  }

  /** A sequence without repetitions is as long as its set of elements. */
  lemma {:induction false} DistinctCardinality<T>(s: seq<T>)
    requires Distinct(s)
    ensures |Elems(s)| == |s|
  {
    if s != [] {
      var front, last := s[..|s| - 1], s[|s| - 1];
      DistinctCardinality(front);
      assert s == front + [last];
      assert last !in Elems(front);
      assert Elems(s) == Elems(front) + {last};
    }
  }

  lemma {:induction false} SubsetCardinality<T>(a: set<T>, b: set<T>)
    requires a <= b
    ensures |a| <= |b|
  {
    if a != {} {
      var x :| x in a;
      SubsetCardinality(a - {x}, b - {x});
    }
  }

  /** The naturals below `n`. */
  ghost function Below(n: nat): (r: set<nat>)
    ensures |r| == n && forall v: nat :: v in r <==> v < n
  {
    if n == 0 then {} else Below(n - 1) + {n - 1}
  }

  /** A larger set has an element outside the smaller one. */
  lemma LargerHasMore<T>(a: set<T>, b: set<T>) returns (x: T)
    requires |a| < |b|
    ensures x in b && x !in a
  {
    assert !(b <= a) by {
      if b <= a { SubsetCardinality(b, a); }
    }
    x :| x in b && x !in a;
  }

  lemma EqualCardinality<T>(a: set<T>, b: set<T>)
    requires a <= b && |a| == |b|
    ensures a == b
  {
    if x :| x in b && x !in a {
      SubsetCardinality(a + {x}, b);
    }
  }

  /** The number of occurrences of `x` in `s`. */
  ghost function Count<T>(s: seq<T>, x: T): nat {
    if s == [] then 0 else Count(s[..|s| - 1], x) + if s[|s| - 1] == x then 1 else 0
  }

  lemma {:induction false} CountIsMultiplicity<T>(s: seq<T>, x: T)
    ensures Count(s, x) == multiset(s)[x]
    ensures Count(s, x) > 0 <==> x in s
  {
    if s != [] {
      var front := s[..|s| - 1];
      CountIsMultiplicity(front, x);
      assert s == front + [s[|s| - 1]];
    }
  }

  lemma CountAppend<T>(s: seq<T>, y: T, x: T)
    ensures Count(s + [y], x) == Count(s, x) + if y == x then 1 else 0
  {
    assert (s + [y])[..|s|] == s;
  }

  lemma {:induction false} CountPrefix<T>(s: seq<T>, i: nat, x: T)
    requires i <= |s|
    ensures Count(s[..i], x) <= Count(s, x)
    decreases |s|
  {
    if i < |s| {
      CountPrefix(s[..|s| - 1], i, x);
      assert s[..|s| - 1][..i] == s[..i];
    } else {
      assert s[..i] == s;
    }
  }

  /** Counting an element of a repetition-free sequence gives 0 or 1. */
  lemma {:induction false} DistinctMultiplicity<T>(s: seq<T>, x: T)
    requires Distinct(s)
    ensures multiset(s)[x] == if x in s then 1 else 0
  {
    if s != [] {
      var front := s[..|s| - 1];
      DistinctMultiplicity(front, x);
      assert s == front + [s[|s| - 1]];
    }
  }

  /** A rearrangement of a repetition-free sequence is repetition-free. */
  lemma DistinctPermutation<T>(s: seq<T>, r: seq<T>)
    requires Distinct(s) && multiset(r) == multiset(s)
    ensures Distinct(r) && |r| == |s| && Elems(r) == Elems(s)
  {
    assert |multiset(r)| == |multiset(s)|;
    forall x ensures x in r <==> x in s {
      assert x in multiset(r) <==> x in multiset(s);
    }
    forall i, j | 0 <= i < j < |r| ensures r[i] != r[j] {
      DistinctMultiplicity(s, r[j]);
      assert r == r[..j] + [r[j]] + r[j + 1..];
      assert r[i] in r[..j];
    }
  }

  lemma InsertKeepsOrder(s: seq<int>, k: nat, x: int)
    requires Ascending(s) && k <= |s|
    requires forall j :: 0 <= j < k ==> s[j] <= x
    requires forall j :: k <= j < |s| ==> x <= s[j]
    ensures Ascending(s[..k] + [x] + s[k..])
  {
  }

  lemma InsertAddsOne(s: seq<int>, k: nat, x: int)
    requires k <= |s|
    ensures multiset(s[..k] + [x] + s[k..]) == multiset(s) + multiset{x}
  {
    assert s == s[..k] + s[k..];
  }

  method Insert(s: seq<int>, x: int) returns (r: seq<int>)
    requires Ascending(s)
    ensures Ascending(r) && multiset(r) == multiset(s) + multiset{x} && |r| == |s| + 1
  {
    var k := 0;
    while k < |s| && s[k] <= x
      invariant 0 <= k <= |s|
      invariant forall j :: 0 <= j < k ==> s[j] <= x
    {
      k := k + 1;
    }
    InsertKeepsOrder(s, k, x);
    InsertAddsOne(s, k, x);
    r := s[..k] + [x] + s[k..];
  }

  /** `sort.Ints`: an ascending rearrangement of the input. */
  method SortInts(s: seq<int>) returns (r: seq<int>)
    ensures Ascending(r) && multiset(r) == multiset(s) && |r| == |s|
    ensures forall x :: x in r <==> x in s
  {
    r := [];
    for i := 0 to |s|
      invariant Ascending(r) && multiset(r) == multiset(s[..i]) && |r| == i
    {
      assert s[..i + 1] == s[..i] + [s[i]];
      r := Insert(r, s[i]);
    }
    assert s[..|s|] == s;
    forall x ensures x in r <==> x in s {
      assert x in multiset(r) <==> x in multiset(s);
    }
  }

  lemma SameLeast(a: seq<int>, b: seq<int>)
    requires Ascending(a) && Ascending(b) && multiset(a) == multiset(b) && a != [] && b != []
    ensures a[0] == b[0]
  {
    assert a[0] in multiset(b) && b[0] in multiset(a);
    var i :| 0 <= i < |b| && b[i] == a[0];
    var j :| 0 <= j < |a| && a[j] == b[0];
  }

  lemma WithoutFirst<T>(a: seq<T>)
    requires a != []
    ensures a == [a[0]] + a[1..] && multiset(a[1..]) == multiset(a) - multiset{a[0]}
  {
    assert a == [a[0]] + a[1..];
  }

  /** Two ascending rearrangements of the same integers are equal. */
  lemma {:induction false} SortedIsUnique(a: seq<int>, b: seq<int>)
    requires Ascending(a) && Ascending(b) && multiset(a) == multiset(b)
    ensures a == b
  {
    assert |multiset(a)| == |multiset(b)|;
    if a != [] {
      SameLeast(a, b);
      WithoutFirst(a);
      WithoutFirst(b);
      SortedIsUnique(a[1..], b[1..]);
    }
  }

  /** A strictly ascending list is determined by its members. */
  lemma AscendingIsDetermined(a: seq<int>, b: seq<int>)
    requires StrictlyAscending(a) && StrictlyAscending(b) && forall x :: x in a <==> x in b
    ensures a == b
  {
    forall x ensures multiset(a)[x] == multiset(b)[x] {
      DistinctMultiplicity(a, x);
      DistinctMultiplicity(b, x);
    }
    SortedIsUnique(a, b);
  }

  /** Ranging over a Go map or set: every key once, in some order. */
  method Enumerate<T(==)>(s: set<T>) returns (r: seq<T>)
    ensures Distinct(r) && Elems(r) == s && |r| == |s|
  {
    r := [];
    var rest := s;
    while rest != {}
      invariant Distinct(r) && Elems(r) !! rest && Elems(r) + rest == s
      invariant |r| + |rest| == |s|
      decreases rest
    {
      var x :| x in rest;
      rest := rest - {x};
      assert x !in Elems(r);
      r := r + [x];
    }
  }
}
