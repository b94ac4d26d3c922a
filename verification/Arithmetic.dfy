/** Powers of two and integer division. */
module Arithmetic {

  function Pow2(n: nat): (r: nat)
    ensures r > 0
  {
    if n == 0 then 1 else 2 * Pow2(n - 1)
  }

  lemma DivAdds(a: nat, b: nat, t: nat)
    requires t > 0
    ensures a / t + b / t <= (a + b) / t <= a / t + b / t + 1
  {
    Regroup(a, b, t);
    NearlyDiv(a + b, t, a / t + b / t, a % t + b % t);
  }

  lemma NearlyDiv(x: nat, t: nat, q: nat, r: nat)
    requires t > 0 && x == t * q + r && r < 2 * t
    ensures q <= x / t <= q + 1
  {
    if r < t {
      DivIs(x, t, q, r);
    } else {
      OneMore(t, q);
      DivIs(x, t, q + 1, r - t);
    }
  }

  lemma Regroup(a: nat, b: nat, t: nat)
    requires t > 0
    ensures a + b == t * (a / t + b / t) + (a % t + b % t)
  {
    assert a == t * (a / t) + a % t && b == t * (b / t) + b % t;
    assert t * (a / t + b / t) == t * (a / t) + t * (b / t);
  }

  lemma OneMore(t: nat, q: nat)
    ensures t * (q + 1) == t * q + t
  {
  }

  lemma DivIs(x: nat, t: nat, q: nat, r: nat)
    requires t > 0 && x == t * q + r && r < t
    ensures x / t == q
  {
    if x / t < q { NextMultiple(t, x / t, q); } else if x / t > q { NextMultiple(t, q, x / t); }
  }

  lemma NextMultiple(t: nat, a: nat, b: nat)
    requires a < b
    ensures t * (a + 1) <= t * b && t * (a + 1) == t * a + t
  {
    OneMore(t, a);
    MulKeepsOrder(t, a + 1, b);
  }

  lemma MulKeepsOrder(t: nat, a: nat, b: nat)
    requires a <= b
    ensures t * a <= t * b
  {
  }

  lemma Distribute(p: nat, a: nat, b: nat)
    ensures p * (2 * a + b) == 2 * p * a + p * b
  {
  }

  lemma SmallRest(p: nat, b: nat, r: nat)
    requires r < p && b < 2
    ensures p * b + r < 2 * p
  {
  }

  /** Halving after dividing by `p` divides by `2 * p`. */
  lemma ShiftOnce(i: nat, p: nat)
    requires p > 0
    ensures i / p / 2 == i / (2 * p)
  {
    var q, r := i / p, i % p;
    Distribute(p, q / 2, q % 2);
    SmallRest(p, q % 2, r);
    assert i == p * q + r;
    DivIs(i, 2 * p, q / 2, p * (q % 2) + r);
  }
}
