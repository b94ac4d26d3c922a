/** The integer square root by Newton's method, in 64-bit arithmetic that never
    overflows. */
module SquareRoot {
  import opened Collections

  newtype uint64 = x: int | 0 <= x < TWO_64

  const MAX_UINT64: uint64 := 0xFFFF_FFFF_FFFF_FFFF

  /** One Newton step from `x`. */
  function NewtonStep(n: int, x: int): int
    requires x > 0
  {
    (x + n / x) / 2
  }

  lemma SumSquare(a: int, b: int)
    ensures (a + b) * (a + b) >= 4 * (a * b)
  {
    assert (a + b) * (a + b) == 4 * (a * b) + (a - b) * (a - b);
  }

  lemma SquaresAscend(a: int, b: int)
    requires 0 <= a <= b
    ensures a * a <= b * b
  {
  }

  lemma DivBounds(n: int, x: int)
    requires 0 <= n && 0 < x
    ensures n / x * x <= n < (n / x + 1) * x
  {
    assert n == x * (n / x) + n % x;
  }

  /** A step never falls below the root. */
  lemma StepStaysAbove(n: int, x: int)
    requires 0 <= n && 0 < x
    ensures n < (NewtonStep(n, x) + 1) * (NewtonStep(n, x) + 1)
  {
    var q, y := n / x, NewtonStep(n, x);
    DivBounds(n, x);
    SumSquare(x, q + 1);
    SquaresAscend(x + (q + 1), 2 * (y + 1));
    FourTimes(y + 1);
    assert x * (q + 1) == (q + 1) * x;
  }

  lemma FourTimes(a: int)
    ensures 2 * a * (2 * a) == 4 * (a * a)
  {
  }

  /** If a step does not decrease, the root is reached. */
  lemma StepStops(n: int, x: int)
    requires 0 <= n && 0 < x <= NewtonStep(n, x)
    ensures x * x <= n
  {
    var q := n / x;
    assert q >= x;
    DivBounds(n, x);
    Times(x, q, x);
  }

  lemma Times(a: int, b: int, x: int)
    requires a <= b && 0 <= x
    ensures a * x <= b * x
  {
  }

  /** The sum in a step is at most n + 1. */
  lemma StepFits(n: int, x: int)
    requires 1 <= x <= n
    ensures x + n / x <= n + 1
  {
    var q := n / x;
    DivBounds(n, x);
    if q >= 1 { Product(x, q); }
  }

  lemma Product(x: int, q: int)
    requires 1 <= x && 1 <= q
    ensures x + q <= q * x + 1
  {
    assert (x - 1) * (q - 1) >= 0;
    assert (x - 1) * (q - 1) == q * x - x - q + 1;
  }

  /** The largest r with r * r <= n. */
  method IntegerSquareRoot(n: uint64) returns (r: uint64)
    ensures r as int * r as int <= n as int < (r as int + 1) * (r as int + 1)
  {
    if n == MAX_UINT64 {
      return 4294967295;
    }
    var x, y := n, (n + 1) / 2;
    if n > 0 { StepOfOne(n as int); }
    while y < x
      invariant y <= n && x <= n
      invariant n > 0 ==> 0 < x && y as int == NewtonStep(n as int, x as int)
      invariant n as int < (x as int + 1) * (x as int + 1)
      decreases x
    {
      StepStaysAbove(n as int, x as int);
      x := y;
      PositiveRoot(n as int, x as int);
      StepFits(n as int, x as int);
      y := (x + n / x) / 2;
    }
    if n > 0 { StepStops(n as int, x as int); }
    return x;
  }

  lemma StepOfOne(n: int)
    requires n > 0
    ensures NewtonStep(n, n) == (n + 1) / 2 && n < (n + 1) * (n + 1)
  {
    assert n / n == 1;
    assert (n + 1) * (n + 1) == n * n + 2 * n + 1;
  }

  lemma PositiveRoot(n: int, x: int)
    requires n > 0 && x >= 0 && n < (x + 1) * (x + 1)
    ensures x > 0
  {
  }
}
