/** Bitfields as bytes, and the set of positions they stand for. */
module Bitfields {
  import opened Collections

  type Bits = seq<bv8>

  // ----- one byte -----

  ghost function Mask(k: nat): bv8
    requires k < 8
  {
    if k == 0 then 1 else if k == 1 then 2 else if k == 2 then 4 else if k == 3 then 8
    else if k == 4 then 16 else if k == 5 then 32 else if k == 6 then 64 else 128
  }

  ghost predicate BitAt(b: bv8, k: nat)
    requires k < 8
  {
    b & Mask(k) != 0
  }

  ghost function Ones(b: bv8): (r: set<nat>)
    ensures forall k :: k in r <==> k < 8 && BitAt(b, k)
  {
    set k: nat | k in {0, 1, 2, 3, 4, 5, 6, 7} && BitAt(b, k)
  }

  lemma OrOnes(a: bv8, b: bv8)
    ensures Ones(a | b) == Ones(a) + Ones(b)
  {
    forall k: nat | k < 8 ensures BitAt(a | b, k) <==> BitAt(a, k) || BitAt(b, k) {}
  }

  lemma AndOnes(a: bv8, b: bv8)
    ensures a & b != 0 <==> Ones(a) * Ones(b) != {}
  {
    forall k: nat | k < 8 ensures BitAt(a & b, k) <==> BitAt(a, k) && BitAt(b, k) {}
    NonZeroHasBit(a & b);
    if a & b != 0 {
      var k :| k < 8 && BitAt(a & b, k);
      assert k in Ones(a) * Ones(b);
    }
    if k :| k in Ones(a) * Ones(b) { assert BitAt(a & b, k); }
  }

  lemma NonZeroHasBit(b: bv8)
    ensures b != 0 <==> exists k: nat :: k < 8 && BitAt(b, k)
  {
    if b != 0 {
      assert BitAt(b, 0) || BitAt(b, 1) || BitAt(b, 2) || BitAt(b, 3) || BitAt(b, 4) || BitAt(b, 5) || BitAt(b, 6)
             || BitAt(b, 7);
    }
  }

  /** `v & (v - 1)` clears exactly the lowest set bit. */
  lemma ClearsLowest(v: bv8) returns (low: nat)
    requires v != 0
    ensures low < 8 && BitAt(v, low) && Ones(v & (v - 1)) == Ones(v) - {low}
  {
    low := if BitAt(v, 0) then 0 else if BitAt(v, 1) then 1 else if BitAt(v, 2) then 2 else if BitAt(v, 3) then 3
           else if BitAt(v, 4) then 4 else if BitAt(v, 5) then 5 else if BitAt(v, 6) then 6 else 7;
    forall k: nat | k < 8 ensures BitAt(v & (v - 1), k) <==> BitAt(v, k) && k != low {}
  }

  /** Kernighan's loop counts the set bits of a byte. */
  method CountByte(b: bv8) returns (count: nat)
    ensures count == |Ones(b)|
  {
    count := 0;
    var v := b;
    while v != 0
      invariant count + |Ones(v)| == |Ones(b)|
      decreases |Ones(v)|
    {
      ghost var low := ClearsLowest(v);
      count := count + 1;
      v := v & (v - 1);
    }
    assert Ones(0) == {};
  }

  // ----- whole bitfields -----

  ghost predicate InByte(s: set<nat>, n: nat, p: nat) {
    p >= 8 * n && p - 8 * n in s
  }

  /** Positions within byte `n`, counted from the start of the field. */
  ghost function Shift(s: set<nat>, n: nat): (r: set<nat>)
    requires forall k :: k in s ==> k < 8
    ensures forall p: nat :: p in r <==> InByte(s, n, p)
  {
    set p: nat | 8 * n <= p < 8 * n + 8 && InByte(s, n, p)
  }

  /** The positions of the set bits, byte by byte. */
  ghost function Members(s: Bits): (r: set<nat>)
    ensures forall p :: p in r <==> InField(s, p)
  {
    if s == [] then {}
    else
      var n := |s| - 1;
      Members(s[..n]) + Shift(Ones(s[n]), n)
  }

  ghost predicate InField(s: Bits, p: nat) {
    p / 8 < |s| && BitAt(s[p / 8], p % 8)
  }

  /** The bitwise or, as long as the longer field. */
  method BitfieldOr(a: Bits, b: Bits) returns (r: Bits)
    ensures |r| == if |a| > |b| then |a| else |b|
    ensures Members(r) == Members(a) + Members(b)
  {
    hide Ones, BitAt, Members;
    var maxLen := |a|;
    if |b| > maxLen {
      maxLen := |b|;
    }
    r := a + seq(maxLen - |a|, _ => 0);
    NoOnes();
    for i := 0 to |b|
      invariant |r| == maxLen
      invariant forall j :: 0 <= j < maxLen ==>
                              Ones(r[j]) == (if j < |a| then Ones(a[j]) else {}) + (if j < i then Ones(b[j]) else {})
    {
      OrOnes(r[i], b[i]);
      r := r[i := r[i] | b[i]];
    }
    forall p: nat ensures InField(r, p) <==> InField(a, p) || InField(b, p) {
      if p / 8 < maxLen { FieldOnes(r, p); FieldOnes(a, p); FieldOnes(b, p); }
    }
  }

  lemma NoOnes()
    ensures Ones(0) == {}
  {
    forall k: nat | k < 8 ensures !BitAt(0, k) {}
  }

  lemma FieldOnes(s: Bits, p: nat)
    ensures InField(s, p) <==> p / 8 < |s| && p % 8 in Ones(s[p / 8])
  {
  }

  /** Whether some position is set in both. */
  method BitfieldOverlaps(a: Bits, b: Bits) returns (r: bool)
    ensures r <==> Members(a) * Members(b) != {}
  {
    hide Ones, BitAt, Members;
    var minLen := |a|;
    if |b| < minLen {
      minLen := |b|;
    }
    for i := 0 to minLen
      invariant forall j :: 0 <= j < i ==> Ones(a[j]) * Ones(b[j]) == {}
    {
      AndOnes(a[i], b[i]);
      if a[i] & b[i] != 0 {
        ghost var k :| k in Ones(a[i]) * Ones(b[i]);
        ghost var p := 8 * i + k;
        assert p / 8 == i && p % 8 == k;
        FieldOnes(a, p);
        FieldOnes(b, p);
        assert p in Members(a) * Members(b);
        return true;
      }
    }
    forall p: nat ensures !(p in Members(a) && p in Members(b)) {
      FieldOnes(a, p);
      FieldOnes(b, p);
      var i, k := p / 8, p % 8;
      if i < minLen { assert k in Ones(a[i]) * Ones(b[i]) <==> k in Ones(a[i]) && k in Ones(b[i]); }
    }
    return false;
  }

  lemma {:induction false} ShiftedSize(s: set<nat>, n: nat)
    requires forall k :: k in s ==> k < 8
    ensures |Shift(s, n)| == |s|
  {
    hide Shift;
    if |s| > 0 {
      var x := LargerHasMore({}, s);
      ShiftedSize(s - {x}, n);
      var p := 8 * n + x;
      assert p in Shift(s, n);
      assert Shift(s, n) - {p} == Shift(s - {x}, n);
    } else {
      assert s == {};
      assert Shift(s, n) == {};
    }
  }

  /** The bytes before `n` and the last byte have no position in common. */
  lemma MembersSplit(s: Bits)
    requires s != []
    ensures |Members(s)| == |Members(s[..|s| - 1])| + |Ones(s[|s| - 1])|
  {
    var n := |s| - 1;
    var shifted := Shift(Ones(s[n]), n);
    ShiftedSize(Ones(s[n]), n);
    forall p | p in Members(s[..n]) ensures p !in shifted { assert p / 8 < n; }
    assert Members(s) == Members(s[..n]) + shifted;
  }

  lemma NoMembers()
    ensures Members([]) == {}
  {
  }

  /** The number of positions. */
  method CountBits(s: Bits) returns (count: nat)
    ensures count == |Members(s)|
  {
    hide Ones, Members, BitAt;
    NoMembers();
    count := 0;
    for i := 0 to |s|
      invariant count == |Members(s[..i])|
    {
      var c := CountByte(s[i]);
      MembersSplit(s[..i + 1]);
      assert s[..i + 1][..i] == s[..i];
      count := count + c;
    }
    assert s[..|s|] == s;
  }
}
