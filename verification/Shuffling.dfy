/** The swap-or-not shuffle, for any hash function: each round undoes itself, so
    the rounds in reverse order undo the shuffle. */
module Shuffling {
  import opened Arithmetic
  import opened Collections
  import opened Hashes

  const ROUNDS: nat := 90

  /** The digest of a message. */
  type Digest = seq<byte> -> Hash

  function LittleEndian(b: seq<byte>): nat {
    if b == [] then 0 else b[0] as nat + 256 * LittleEndian(b[1..])
  }

  /** The low 32 bits, least significant byte first. */
  function Bytes32(n: nat): seq<byte> {
    [(n % 256) as byte, (n / 0x100 % 256) as byte, (n / 0x1_0000 % 256) as byte, (n / 0x100_0000 % 256) as byte]
  }

  function RoundByte(round: nat): byte {
    (round % 256) as byte
  }

  function Pivot(hash: Digest, seed: Hash, round: nat, count: nat): (p: nat)
    requires count > 0
    ensures p < count
  {
    LittleEndian(hash(seed + [RoundByte(round)])[..8]) % count
  }

  /** Whether the pair whose higher position is `position` is swapped. */
  predicate SwapBit(hash: Digest, seed: Hash, round: nat, position: nat) {
    var source := hash(seed + [RoundByte(round)] + Bytes32(position / 256));
    source[position % 256 / 8] as nat / Pow2(position % 8) % 2 == 1
  }

  /** The partner of `cur`, in 64-bit arithmetic. */
  function Flip(pivot: nat, count: nat, cur: nat): (f: nat)
    requires pivot < count
    ensures f < count
  {
    (pivot + count - cur) % TWO_64 % count
  }

  function ShuffleRound(hash: Digest, seed: Hash, count: nat, round: nat, cur: nat): (r: nat)
    requires cur < count
    ensures r < count
  {
    var flip := Flip(Pivot(hash, seed, round, count), count, cur);
    if SwapBit(hash, seed, round, if cur > flip then cur else flip) then flip else cur
  }

  /** The position after the first `rounds` rounds. */
  ghost function Shuffled(hash: Digest, seed: Hash, count: nat, rounds: nat, index: nat): (r: nat)
    requires index < count
    ensures r < count
  {
    if rounds == 0 then index
    else ShuffleRound(hash, seed, count, rounds - 1, Shuffled(hash, seed, count, rounds - 1, index))
  }

  /** The rounds in reverse order. */
  ghost function Unshuffled(hash: Digest, seed: Hash, count: nat, rounds: nat, index: nat): (r: nat)
    requires index < count
    ensures r < count
  {
    if rounds == 0 then index
    else Unshuffled(hash, seed, count, rounds - 1, ShuffleRound(hash, seed, count, rounds - 1, index))
  }

  // ----- a round undoes itself -----

  lemma SmallMod(x: int, n: int)
    requires 0 < n && 0 <= x < 2 * n
    ensures x % n == if x < n then x else x - n
  {
  }

  lemma FlipValue(pivot: nat, count: nat, cur: nat)
    requires pivot < count <= TWO_63 && cur < count
    ensures Flip(pivot, count, cur) == if cur <= pivot then pivot - cur else pivot + count - cur
  {
    SmallMod(pivot + count - cur, count);
    SmallMod(pivot + count - cur, TWO_64);
  }

  ghost predicate FlipsBack(count: nat, pivot: nat, cur: nat)
    requires pivot < count && cur < count
  {
    Flip(pivot, count, Flip(pivot, count, cur)) == cur
  }

  /** Flipping is an involution, for every pivot, exactly for counts up to 2^63. */
  lemma FlipIsInvolution(count: nat)
    requires 0 < count < TWO_64
    ensures (forall pivot: nat, cur: nat :: pivot < count && cur < count ==> FlipsBack(count, pivot, cur))
            <==> count <= TWO_63
  {
    if count <= TWO_63 {
      forall pivot: nat, cur: nat | pivot < count && cur < count ensures FlipsBack(count, pivot, cur) {
        FlipValue(pivot, count, cur);
        FlipValue(pivot, count, Flip(pivot, count, cur));
      }
    } else {
      WideFlipCollides(count);
      var pivot, low := count - 1, 2 * count - 1 - TWO_64;
      assert FlipsBack(count, pivot, low) && FlipsBack(count, pivot, pivot) ==> low == pivot;
    }
  }

  /** Past 2^63 the sum wraps and two positions get the same partner. */
  lemma WideFlipCollides(count: nat)
    requires TWO_63 < count < TWO_64
    ensures var pivot, low := count - 1, 2 * count - 1 - TWO_64;
            0 <= low < pivot && Flip(pivot, count, low) == 0 && Flip(pivot, count, pivot) == 0
  {
    SmallMod(count, TWO_64);
    SmallMod(TWO_64, TWO_64);
    SmallMod(count, count);
  }

  lemma RoundUndoesItself(hash: Digest, seed: Hash, count: nat, round: nat, cur: nat)
    requires cur < count <= TWO_63
    ensures ShuffleRound(hash, seed, count, round, ShuffleRound(hash, seed, count, round, cur)) == cur
  {
    hide SwapBit, Pivot;
    var pivot := Pivot(hash, seed, round, count);
    FlipValue(pivot, count, cur);
    FlipValue(pivot, count, Flip(pivot, count, cur));
  }

  /** The shuffle and its reverse undo each other: it is a bijection on the
      positions. */
  lemma {:induction false} ShuffleRoundTrip(hash: Digest, seed: Hash, count: nat, rounds: nat, index: nat)
    requires index < count <= TWO_63
    ensures Unshuffled(hash, seed, count, rounds, Shuffled(hash, seed, count, rounds, index)) == index
  {
    hide ShuffleRound;
    if rounds > 0 {
      ShuffleRoundTrip(hash, seed, count, rounds - 1, index);
      RoundUndoesItself(hash, seed, count, rounds - 1, Shuffled(hash, seed, count, rounds - 1, index));
    }
  }

  lemma {:induction false} UnshuffleRoundTrip(hash: Digest, seed: Hash, count: nat, rounds: nat, index: nat)
    requires index < count <= TWO_63
    ensures Shuffled(hash, seed, count, rounds, Unshuffled(hash, seed, count, rounds, index)) == index
  {
    hide ShuffleRound;
    if rounds > 0 {
      UnshuffleRoundTrip(hash, seed, count, rounds - 1, ShuffleRound(hash, seed, count, rounds - 1, index));
      RoundUndoesItself(hash, seed, count, rounds - 1, index);
    }
  }

  // ----- exactly for counts up to 2^63 -----

  /** The low `n` bytes, least significant first. */
  ghost function BytesOf(x: nat, n: nat): (r: seq<byte>)
    ensures |r| == n
  {
    if n == 0 then [] else [(x % 256) as byte] + BytesOf(x / 256, n - 1)
  }

  lemma {:induction false} BytesRoundTrip(x: nat, n: nat)
    requires x < Pow2(8 * n)
    ensures LittleEndian(BytesOf(x, n)) == x
  {
    if n > 0 {
      EightMore(n - 1);
      BytesRoundTrip(x / 256, n - 1);
      assert BytesOf(x, n)[1..] == BytesOf(x / 256, n - 1);
    }
  }

  lemma EightMore(n: nat)
    ensures Pow2(8 * (n + 1)) == 256 * Pow2(8 * n)
  {
    var k := 8 * n;
    assert Pow2(k + 8) == 2 * Pow2(k + 7) && Pow2(k + 7) == 2 * Pow2(k + 6) && Pow2(k + 6) == 2 * Pow2(k + 5)
           && Pow2(k + 5) == 2 * Pow2(k + 4);
    assert Pow2(k + 4) == 2 * Pow2(k + 3) && Pow2(k + 3) == 2 * Pow2(k + 2) && Pow2(k + 2) == 2 * Pow2(k + 1)
           && Pow2(k + 1) == 2 * Pow2(k);
  }

  lemma EightBytes(x: nat)
    requires x < TWO_64
    ensures LittleEndian(BytesOf(x, 8)) == x
  {
    hide Pow2;
    SixtyFour();
    BytesRoundTrip(x, 8);
  }

  lemma SixtyFour()
    ensures Pow2(64) == TWO_64
  {
    EightMore(0);
    assert Pow2(8) == 0x100;
    hide Pow2;
    EightMore(1);
    assert Pow2(16) == 0x1_0000;
    EightMore(2);
    EightMore(3);
    assert Pow2(32) == 0x1_0000_0000;
    EightMore(4);
    EightMore(5);
    assert Pow2(48) == 0x1_0000_0000_0000;
    EightMore(6);
    EightMore(7);
  }

  /** A digest whose pivot is always `x` and whose bits are all set. */
  ghost function Steering(x: nat): Digest {
    m => if |m| == 33 then BytesOf(x, 8) + seq(24, _ => 0) else seq(32, _ => 255)
  }

  lemma SteeredBytes(x: nat, m: seq<byte>)
    requires |m| == 33
    ensures Steering(x)(m)[..8] == BytesOf(x, 8)
  {
    hide BytesOf;
  }

  lemma SteeredPivot(seed: Hash, round: nat, count: nat)
    requires 0 < count <= TWO_64
    ensures Pivot(Steering(count - 1), seed, round, count) == count - 1
  {
    hide BytesOf, LittleEndian, Steering;
    SteeredBytes(count - 1, seed + [RoundByte(round)]);
    EightBytes(count - 1);
    SmallMod(count - 1, count);
  }

  lemma AllBitsSet(k: nat)
    requires k < 8
    ensures 255 / Pow2(k) % 2 == 1
  {
    assert Pow2(1) == 2 && Pow2(2) == 4 && Pow2(3) == 8;
    assert Pow2(4) == 16 && Pow2(5) == 32 && Pow2(6) == 64 && Pow2(7) == 128;
  }

  lemma SteeredSwap(seed: Hash, round: nat, count: nat, position: nat)
    requires count > 0
    ensures SwapBit(Steering(count - 1), seed, round, position)
  {
    var m := seed + [RoundByte(round)] + Bytes32(position / 256);
    assert |m| == 37;
    AllBitsSet(position % 8);
  }

  /** Every round then sends both colliding positions to 0. */
  lemma SteeredRound(seed: Hash, round: nat, count: nat)
    requires TWO_63 < count < TWO_64
    ensures var hash, low := Steering(count - 1), 2 * count - 1 - TWO_64;
            && 0 <= low < count - 1 && ShuffleRound(hash, seed, count, round, low) == 0
            && ShuffleRound(hash, seed, count, round, count - 1) == 0
  {
    WideFlipCollides(count);
    SteeredPivot(seed, round, count);
    hide Pivot, SwapBit, Flip, Steering;
    var low := 2 * count - 1 - TWO_64;
    SteeredSwap(seed, round, count, low);
    SteeredSwap(seed, round, count, count - 1);
  }

  lemma {:induction false} ShuffledTogether(hash: Digest, seed: Hash, count: nat, rounds: nat, i: nat, j: nat)
    requires i < count && j < count && rounds > 0
    requires ShuffleRound(hash, seed, count, 0, i) == ShuffleRound(hash, seed, count, 0, j)
    ensures Shuffled(hash, seed, count, rounds, i) == Shuffled(hash, seed, count, rounds, j)
  {
    hide ShuffleRound;
    if rounds > 1 { ShuffledTogether(hash, seed, count, rounds - 1, i, j); }
  }

  lemma UnshuffledTogether(hash: Digest, seed: Hash, count: nat, rounds: nat, i: nat, j: nat)
    requires i < count && j < count && rounds > 0
    requires ShuffleRound(hash, seed, count, rounds - 1, i) == ShuffleRound(hash, seed, count, rounds - 1, j)
    ensures Unshuffled(hash, seed, count, rounds, i) == Unshuffled(hash, seed, count, rounds, j)
  {
    hide ShuffleRound;
  }

  /** So two positions share their image, and their preimage. */
  lemma WideShuffleCollides(seed: Hash, count: nat)
    requires TWO_63 < count < TWO_64
    ensures var hash, low, top := Steering(count - 1), 2 * count - 1 - TWO_64, count - 1;
            && 0 <= low < top
            && Shuffled(hash, seed, count, ROUNDS, low) == Shuffled(hash, seed, count, ROUNDS, top)
            && Unshuffled(hash, seed, count, ROUNDS, low) == Unshuffled(hash, seed, count, ROUNDS, top)
  {
    hide Shuffled, Unshuffled, Steering, ShuffleRound;
    var hash, low, top := Steering(count - 1), 2 * count - 1 - TWO_64, count - 1;
    SteeredRound(seed, 0, count);
    ShuffledTogether(hash, seed, count, ROUNDS, low, top);
    SteeredRound(seed, ROUNDS - 1, count);
    UnshuffledTogether(hash, seed, count, ROUNDS, low, top);
  }

  ghost predicate ComesBack(hash: Digest, seed: Hash, count: nat, index: nat)
    requires index < count
  {
    Unshuffled(hash, seed, count, ROUNDS, Shuffled(hash, seed, count, ROUNDS, index)) == index
  }

  ghost predicate GoesBack(hash: Digest, seed: Hash, count: nat, index: nat)
    requires index < count
  {
    Shuffled(hash, seed, count, ROUNDS, Unshuffled(hash, seed, count, ROUNDS, index)) == index
  }

  /** The reversed rounds undo the shuffle, and the shuffle undoes them, for
      every hash function, seed and position, if and only if the count is at
      most 2^63. */
  lemma ShuffleIsBijectionExactlyWhen(count: nat)
    requires 0 < count < TWO_64
    ensures (forall hash: Digest, seed: Hash, i: nat | i < count :: ComesBack(hash, seed, count, i))
            <==> count <= TWO_63
    ensures (forall hash: Digest, seed: Hash, i: nat | i < count :: GoesBack(hash, seed, count, i))
            <==> count <= TWO_63
  {
    hide Shuffled, Unshuffled;
    if count <= TWO_63 {
      forall hash: Digest, seed: Hash, i: nat | i < count
        ensures ComesBack(hash, seed, count, i) && GoesBack(hash, seed, count, i)
      {
        ShuffleRoundTrip(hash, seed, count, ROUNDS, i);
        UnshuffleRoundTrip(hash, seed, count, ROUNDS, i);
      }
    } else {
      WideShuffleCollides(ZERO_HASH, count);
      var hash, seed, low, top := Steering(count - 1), ZERO_HASH, 2 * count - 1 - TWO_64, count - 1;
      hide Steering;
      assert !(ComesBack(hash, seed, count, low) && ComesBack(hash, seed, count, top));
      assert !(GoesBack(hash, seed, count, low) && GoesBack(hash, seed, count, top));
    }
  }

  // ----- a round on the digest as a number -----

  /** The digest of the seed, the round and the position's block of 256, read as
      a number, has bit `position % 256` set. */
  ghost predicate Swaps(hash: Digest, seed: Hash, round: nat, position: nat)
    requires round < 256
  {
    exists four: seq<byte> ::
      && |four| == 4 && LittleEndian(four) == position / 256 % 0x1_0000_0000
      && LittleEndian(hash(seed + [round as byte] + four)) / Pow2(position % 256) % 2 == 1
  }

  /** The two positions add up to the pivot, modulo the count; past 2^63 the
      difference wraps before it is reduced. */
  ghost predicate Partners(count: nat, pivot: nat, x: nat, y: nat)
    requires 0 < count
  {
    && x < count && y < count
    && if count <= TWO_63 then (x + y) % count == pivot else y == (pivot + count - x) % TWO_64 % count
  }

  /** A round takes `x` to its partner if their higher position swaps, and
      leaves it otherwise. */
  ghost predicate RoundMoves(hash: Digest, seed: Hash, count: nat, round: nat, x: nat, y: nat)
    requires 0 < count && round < 256
  {
    var pivot := LittleEndian(hash(seed + [round as byte])) % TWO_64 % count;
    exists p: nat :: && Partners(count, pivot, x, p)
                     && y == if Swaps(hash, seed, round, if x > p then x else p) then p else x
  }

  /** The positions a shuffle passes through, round 0 first. */
  ghost predicate NinetyRounds(hash: Digest, seed: Hash, count: nat, trail: seq<nat>)
    requires 0 < count
  {
    |trail| == 91 && forall k :: 0 <= k < 90 ==> RoundMoves(hash, seed, count, k, trail[k], trail[k + 1])
  }

  /** Ninety rounds in ascending order take `index` to `r`. */
  ghost predicate ShufflesTo(hash: Digest, seed: Hash, count: nat, index: nat, r: nat)
    requires 0 < count
  {
    exists trail :: NinetyRounds(hash, seed, count, trail) && trail[0] == index && trail[90] == r
  }

  /** The positions with round 89 first. */
  ghost predicate NinetyRoundsBack(hash: Digest, seed: Hash, count: nat, trail: seq<nat>)
    requires 0 < count
  {
    |trail| == 91 && forall k :: 0 <= k < 90 ==> RoundMoves(hash, seed, count, 89 - k, trail[k], trail[k + 1])
  }

  /** Ninety rounds in descending order take `index` to `r`. */
  ghost predicate UnshufflesTo(hash: Digest, seed: Hash, count: nat, index: nat, r: nat)
    requires 0 < count
  {
    exists trail :: NinetyRoundsBack(hash, seed, count, trail) && trail[0] == index && trail[90] == r
  }

  lemma LowBit(low: nat, x: nat, t: nat, u: nat)
    requires t * u == 128
    ensures t > 0 && (low + 256 * x) / t % 2 == low / t % 2
  {
    var q, r := low / t, low % t;
    assert low == t * q + r;
    assert t * (2 * (u * x)) == 2 * (t * u) * x;
    assert t * (q + 2 * (u * x)) == t * q + t * (2 * (u * x));
    DivIs(low + 256 * x, t, q + 2 * (u * x), r);
  }

  lemma LowBits(low: nat, x: nat, p: nat)
    requires p < 8
    ensures (low + 256 * x) / Pow2(p) % 2 == low / Pow2(p) % 2
  {
    assert Pow2(0) == 1 && Pow2(1) == 2 && Pow2(2) == 4 && Pow2(3) == 8;
    assert Pow2(4) == 16 && Pow2(5) == 32 && Pow2(6) == 64 && Pow2(7) == 128;
    hide Pow2;
    assert Pow2(p) * Pow2(7 - p) == 128;
    LowBit(low, x, Pow2(p), Pow2(7 - p));
  }

  lemma {:induction false} ByteShift(n: nat, q: nat)
    ensures n / 256 / Pow2(q) == n / Pow2(q + 8)
  {
    if q == 0 {
      EightMore(0);
    } else {
      ByteShift(n, q - 1);
      ShiftOnce(n / 256, Pow2(q - 1));
      ShiftOnce(n, Pow2(q + 7));
    }
  }

  lemma NextByte(p: nat)
    requires p >= 8
    ensures (p - 8) / 8 == p / 8 - 1 && (p - 8) % 8 == p % 8
  {
  }

  /** Bit `p` of the number is bit `p % 8` of byte `p / 8`. */
  lemma {:induction false} BitOfNumber(b: seq<byte>, p: nat)
    requires p < 8 * |b|
    ensures LittleEndian(b) / Pow2(p) % 2 == b[p / 8] as nat / Pow2(p % 8) % 2
  {
    var rest := LittleEndian(b[1..]);
    assert LittleEndian(b) == b[0] as nat + 256 * rest;
    hide LittleEndian, Pow2;
    if p < 8 {
      LowBits(b[0] as nat, rest, p);
    } else {
      BitOfNumber(b[1..], p - 8);
      NextByte(p);
      assert b[1..][(p - 8) / 8] == b[p / 8];
      ByteShift(LittleEndian(b), p - 8);
      assert LittleEndian(b) / 256 == rest;
    }
  }

  lemma {:induction false} SameNumberSameBytes(a: seq<byte>, b: seq<byte>)
    requires |a| == |b| && LittleEndian(a) == LittleEndian(b)
    ensures a == b
  {
    if a != [] {
      assert a[0] == b[0];
      SameNumberSameBytes(a[1..], b[1..]);
      assert a == [a[0]] + a[1..] && b == [b[0]] + b[1..];
    }
  }

  lemma LowPart(low: nat, x: nat, m: nat)
    requires low < 256 && 0 < m
    ensures (low + 256 * x) % (256 * m) == low + 256 * (x % m)
  {
    var q, r := x / m, x % m;
    assert x == m * q + r;
    assert 256 * x == (256 * m) * q + 256 * r;
    DivIs(low + 256 * x, 256 * m, q, low + 256 * r);
  }

  lemma LowByte(n: nat, m: nat)
    requires 0 < m
    ensures n % (256 * m) == n % 256 + 256 * (n / 256 % m)
  {
    LowPart(n % 256, n / 256, m);
  }

  lemma OfFour(a: byte, b: byte, c: byte, d: byte)
    ensures LittleEndian([a, b, c, d]) == a as nat + 256 * (b as nat + 256 * (c as nat + 256 * d as nat))
  {
    var s := [a, b, c, d];
    assert s[1..][1..] == s[2..] && s[2..][1..] == s[3..] && s[3..][1..] == [];
    assert LittleEndian(s[3..]) == d as nat;
    assert LittleEndian(s[2..]) == c as nat + 256 * d as nat;
  }

  lemma NestedBytes(n: nat)
    ensures n % 0x1_0000_0000 ==
            n % 256 + 256 * (n / 0x100 % 256 + 256 * (n / 0x1_0000 % 256 + 256 * (n / 0x100_0000 % 256)))
  {
    var a := n / 0x100;
    var b := a / 256;
    assert b == n / 0x1_0000 && b / 256 == n / 0x100_0000;
    LowByte(n, 0x100_0000);
    LowByte(a, 0x1_0000);
    LowByte(b, 0x100);
  }

  lemma FourBytes(n: nat)
    ensures LittleEndian(Bytes32(n)) == n % 0x1_0000_0000
  {
    hide LittleEndian;
    var b := Bytes32(n);
    OfFour(b[0], b[1], b[2], b[3]);
    NestedBytes(n);
  }

  lemma BitInByte(position: nat)
    ensures position % 256 % 8 == position % 8
  {
  }

  lemma SwapBitIsBit(hash: Digest, seed: Hash, round: nat, position: nat)
    requires round < 256
    ensures var source := hash(seed + [round as byte] + Bytes32(position / 256));
            SwapBit(hash, seed, round, position) <==> LittleEndian(source) / Pow2(position % 256) % 2 == 1
  {
    hide LittleEndian, Bytes32, Pow2;
    var source := hash(seed + [round as byte] + Bytes32(position / 256));
    assert RoundByte(round) == round as byte;
    BitInByte(position);
    BitOfNumber(source, position % 256);
  }

  lemma SwapBitMeaning(hash: Digest, seed: Hash, round: nat, position: nat)
    requires round < 256
    ensures SwapBit(hash, seed, round, position) <==> Swaps(hash, seed, round, position)
  {
    hide LittleEndian, Bytes32, Pow2, SwapBit;
    var four := Bytes32(position / 256);
    assert |four| == 4 by { FourLong(position / 256); }
    FourBytes(position / 256);
    SwapBitIsBit(hash, seed, round, position);
    forall other: seq<byte> | |other| == 4 && LittleEndian(other) == position / 256 % 0x1_0000_0000
      ensures other == four
    {
      SameNumberSameBytes(other, four);
    }
  }

  lemma FourLong(n: nat)
    ensures |Bytes32(n)| == 4
  {
  }

  /** The first bytes are the low bits of the number. */
  lemma {:induction false} PrefixIsLowBits(b: seq<byte>, k: nat)
    requires k <= |b|
    ensures LittleEndian(b[..k]) == LittleEndian(b) % Pow2(8 * k)
  {
    if k > 0 {
      EightMore(k - 1);
      PrefixIsLowBits(b[1..], k - 1);
      assert b[..k][1..] == b[1..][..k - 1];
      LowPart(b[0] as nat, LittleEndian(b[1..]), Pow2(8 * (k - 1)));
    }
  }

  lemma PivotMeaning(hash: Digest, seed: Hash, round: nat, count: nat)
    requires 0 < count && round < 256
    ensures Pivot(hash, seed, round, count) == LittleEndian(hash(seed + [round as byte])) % TWO_64 % count
  {
    PrefixIsLowBits(hash(seed + [round as byte]), 8);
    SixtyFour();
    hide Pow2, LittleEndian;
  }

  lemma FlipMeaning(pivot: nat, count: nat, x: nat, p: nat)
    requires pivot < count && x < count
    ensures Partners(count, pivot, x, p) <==> p == Flip(pivot, count, x)
  {
    if count <= TWO_63 {
      FlipValue(pivot, count, x);
      SmallMod(x + Flip(pivot, count, x), count);
      if p < count { SmallMod(x + p, count); }
    }
  }

  /** What one round of the code decides. */
  lemma RoundMeaning(hash: Digest, seed: Hash, count: nat, round: nat, x: nat, y: nat)
    requires x < count && round < 256
    ensures ShuffleRound(hash, seed, count, round, x) == y <==> RoundMoves(hash, seed, count, round, x, y)
  {
    PivotMeaning(hash, seed, round, count);
    var pivot := Pivot(hash, seed, round, count);
    hide LittleEndian, Pivot;
    var flip := Flip(pivot, count, x);
    forall p: nat ensures Partners(count, pivot, x, p) <==> p == flip { FlipMeaning(pivot, count, x, p); }
    hide Partners, Flip;
    SwapBitMeaning(hash, seed, round, if x > flip then x else flip);
    hide Swaps, SwapBit;
    assert Partners(count, pivot, x, flip);
  }

  ghost function TrailOf(hash: Digest, seed: Hash, count: nat, rounds: nat, index: nat): (t: seq<nat>)
    requires index < count
    ensures |t| == rounds + 1
    ensures forall k :: 0 <= k <= rounds ==> t[k] == Shuffled(hash, seed, count, k, index)
  {
    seq(rounds + 1, k requires 0 <= k <= rounds => Shuffled(hash, seed, count, k, index))
  }

  /** The shuffle takes `index` through ninety rounds in ascending order. */
  lemma ShuffleIsNinetyRounds(hash: Digest, seed: Hash, count: nat, index: nat)
    requires index < count
    ensures forall r: nat ::
              ShufflesTo(hash, seed, count, index, r) <==> r == Shuffled(hash, seed, count, ROUNDS, index)
  {
    var trail := TrailOf(hash, seed, count, ROUNDS, index);
    hide RoundMoves, ShuffleRound;
    forall k | 0 <= k < 90 ensures RoundMoves(hash, seed, count, k, trail[k], trail[k + 1]) {
      RoundMeaning(hash, seed, count, k, trail[k], trail[k + 1]);
    }
    assert NinetyRounds(hash, seed, count, trail);
    forall other | NinetyRounds(hash, seed, count, other) && other[0] == index ensures other[90] == trail[90] {
      NinetyRoundsDecide(hash, seed, count, other);
    }
  }

  lemma NinetyRoundsDecide(hash: Digest, seed: Hash, count: nat, trail: seq<nat>)
    requires 0 < count && NinetyRounds(hash, seed, count, trail) && trail[0] < count
    ensures trail[90] == Shuffled(hash, seed, count, ROUNDS, trail[0])
  {
    hide RoundMoves, ShuffleRound;
    for k := 0 to 90
      invariant trail[k] == Shuffled(hash, seed, count, k, trail[0])
    {
      RoundMeaning(hash, seed, count, k, trail[k], trail[k + 1]);
    }
  }

  lemma {:induction false} TrailBack(hash: Digest, seed: Hash, count: nat, rounds: nat, index: nat)
    returns (t: seq<nat>)
    requires index < count && rounds <= 90
    ensures |t| == rounds + 1 && t[0] == index && t[rounds] == Unshuffled(hash, seed, count, rounds, index)
    ensures forall k :: 0 <= k < rounds ==> RoundMoves(hash, seed, count, rounds - 1 - k, t[k], t[k + 1])
  {
    hide RoundMoves, ShuffleRound;
    t := [index];
    if rounds > 0 {
      var next := ShuffleRound(hash, seed, count, rounds - 1, index);
      RoundMeaning(hash, seed, count, rounds - 1, index, next);
      var rest := TrailBack(hash, seed, count, rounds - 1, next);
      t := [index] + rest;
      forall k | 0 <= k < rounds ensures RoundMoves(hash, seed, count, rounds - 1 - k, t[k], t[k + 1]) {
        if k > 0 { assert t[k] == rest[k - 1] && t[k + 1] == rest[k]; }
      }
    }
  }

  /** The reverse takes it through the same rounds in descending order. */
  lemma UnshuffleIsNinetyRounds(hash: Digest, seed: Hash, count: nat, index: nat)
    requires index < count
    ensures UnshufflesTo(hash, seed, count, index, Unshuffled(hash, seed, count, ROUNDS, index))
  {
    hide RoundMoves;
    var trail := TrailBack(hash, seed, count, ROUNDS, index);
    assert NinetyRoundsBack(hash, seed, count, trail);
  }

  // ----- the loop -----

  datatype ShuffleError = ZeroCount | InvalidIndex

  method SwapOrNotShuffle(index: nat, count: nat, seed: Hash, hash: Digest) returns (r: Result<nat, ShuffleError>)
    ensures r == if count == 0 then Err(ZeroCount)
                 else if index >= count then Err(InvalidIndex)
                 else Ok(Shuffled(hash, seed, count, ROUNDS, index))
    ensures r.Ok? ==> ShufflesTo(hash, seed, count, index, r.value)
  {
    hide SwapBit, Pivot, Flip, ShufflesTo, Shuffled;
    if count == 0 {
      return Err(ZeroCount);
    }
    if index >= count {
      return Err(InvalidIndex);
    }
    ShuffleIsNinetyRounds(hash, seed, count, index);
    if count == 1 {
      return Ok(0);
    }
    var cur := SwapRounds(index, count, seed, hash);
    return Ok(cur);
  }

  /** The rounds, for any index: out of range the 64-bit difference wraps. */
  method SwapRounds(index: nat, count: nat, seed: Hash, hash: Digest) returns (cur: nat)
    requires count > 0
    ensures index < count ==> cur == Shuffled(hash, seed, count, ROUNDS, index)
  {
    hide SwapBit, Pivot, Flip;
    cur := index;
    for round := 0 to ROUNDS
      invariant index < count ==> cur == Shuffled(hash, seed, count, round, index)
    {
      var pivot := Pivot(hash, seed, round, count);
      var flip := Flip(pivot, count, cur);
      var position := flip;
      if cur > flip {
        position := cur;
      }
      if SwapBit(hash, seed, round, position) {
        cur := flip;
      }
    }
  }

  /** The copy in the committee rotation: no range check, 0 for a count of 0 or
      1. On every index below the count it agrees with `SwapOrNotShuffle`. */
  method RotationShuffle(index: nat, count: nat, seed: Hash, hash: Digest) returns (cur: nat)
    ensures index < count ==> cur == Shuffled(hash, seed, count, ROUNDS, index)
    ensures index < count ==> ShufflesTo(hash, seed, count, index, cur)
    ensures count <= 1 ==> cur == 0
  {
    hide ShufflesTo, Shuffled;
    if index < count { ShuffleIsNinetyRounds(hash, seed, count, index); }
    if count <= 1 {
      return 0;
    }
    cur := SwapRounds(index, count, seed, hash);
  }

  /** The copies in the beacon state, the proposer election and the sync
      committee: no range check, the index itself for a count of 0 or 1. */
  method StateShuffle(index: nat, count: nat, seed: Hash, hash: Digest) returns (cur: nat)
    ensures index < count ==> cur == Shuffled(hash, seed, count, ROUNDS, index)
    ensures index < count ==> ShufflesTo(hash, seed, count, index, cur)
    ensures count <= 1 ==> cur == index
  {
    hide ShufflesTo, Shuffled;
    if index < count { ShuffleIsNinetyRounds(hash, seed, count, index); }
    if count <= 1 {
      return index;
    }
    cur := SwapRounds(index, count, seed, hash);
  }

  /** The rounds from the last to the first. */
  method UnshuffleIndex(index: nat, count: nat, seed: Hash, hash: Digest) returns (r: Result<nat, ShuffleError>)
    ensures r == if count == 0 then Err(ZeroCount)
                 else if index >= count then Err(InvalidIndex)
                 else Ok(Unshuffled(hash, seed, count, ROUNDS, index))
    ensures r.Ok? ==> UnshufflesTo(hash, seed, count, index, r.value)
  {
    hide SwapBit, Pivot, Flip, UnshufflesTo;
    if count == 0 {
      return Err(ZeroCount);
    }
    if index >= count {
      return Err(InvalidIndex);
    }
    UnshuffleIsNinetyRounds(hash, seed, count, index);
    if count == 1 {
      return Ok(0);
    }
    var cur: nat := index;
    for round := ROUNDS downto 0
      invariant cur < count
      invariant Unshuffled(hash, seed, count, round, cur) == Unshuffled(hash, seed, count, ROUNDS, index)
    {
      var pivot := Pivot(hash, seed, round, count);
      var flip := Flip(pivot, count, cur);
      var position := flip;
      if cur > flip {
        position := cur;
      }
      if SwapBit(hash, seed, round, position) {
        cur := flip;
      }
    }
    return Ok(cur);
  }

  // ----- shuffling a list -----

  ghost function ShuffledList<T>(hash: Digest, seed: Hash, s: seq<T>): (r: seq<T>)
    ensures |r| == |s| && forall i :: 0 <= i < |s| ==> r[i] == s[Shuffled(hash, seed, |s|, ROUNDS, i)]
  {
    seq(|s|, i requires 0 <= i < |s| => s[Shuffled(hash, seed, |s|, ROUNDS, i)])
  }

  lemma ListedByRounds<T>(hash: Digest, seed: Hash, s: seq<T>, i: nat, j: nat)
    requires i < |s| && ShufflesTo(hash, seed, |s|, i, j)
    ensures j < |s| && ShuffledList(hash, seed, s)[i] == s[j]
  {
    hide Shuffled, ShufflesTo;
    ShuffleIsNinetyRounds(hash, seed, |s|, i);
  }

  /** Positions holding `x`. */
  ghost function Places<T>(s: seq<T>, x: T): set<int> {
    set i | 0 <= i < |s| && s[i] == x
  }

  lemma {:induction false} PlacesCount<T>(s: seq<T>, x: T)
    ensures multiset(s)[x] == |Places(s, x)|
  {
    if s == [] {
      assert Places(s, x) == {};
    } else {
      var n := |s| - 1;
      var front := s[..n];
      PlacesCount(front, x);
      assert s == front + [s[n]];
      assert Places(s, x) == Places(front, x) + if s[n] == x then {n} else {};
    }
  }

  /** A function that can be undone does not shrink a set. */
  lemma {:induction false} ImageIsNoSmaller(s: set<int>, r: set<int>, f: int -> int, g: int -> int)
    requires forall i :: i in s ==> f(i) in r && g(f(i)) == i
    ensures |s| <= |r|
  {
    if |s| > 0 {
      var i := LargerHasMore({}, s);
      var j := f(i);
      assert j in r;
      ImageIsNoSmaller(s - {i}, r - {j}, f, g);
    }
  }

  /** The shuffled list is a rearrangement of the list. */
  lemma ShuffleIsPermutation<T>(hash: Digest, seed: Hash, s: seq<T>)
    requires |s| <= TWO_63
    ensures multiset(ShuffledList(hash, seed, s)) == multiset(s)
  {
    hide Shuffled, Unshuffled;
    var r, n := ShuffledList(hash, seed, s), |s|;
    forall x ensures multiset(r)[x] == multiset(s)[x] {
      PlacesCount(s, x);
      PlacesCount(r, x);
      forall i | 0 <= i < n
        ensures Unshuffled(hash, seed, n, ROUNDS, Shuffled(hash, seed, n, ROUNDS, i)) == i
        ensures Shuffled(hash, seed, n, ROUNDS, Unshuffled(hash, seed, n, ROUNDS, i)) == i
      {
        ShuffleRoundTrip(hash, seed, n, ROUNDS, i);
        UnshuffleRoundTrip(hash, seed, n, ROUNDS, i);
      }
      var f := (i: int) => if 0 <= i < n then Shuffled(hash, seed, n, ROUNDS, i) else i;
      var g := (i: int) => if 0 <= i < n then Unshuffled(hash, seed, n, ROUNDS, i) else i;
      ImageIsNoSmaller(Places(r, x), Places(s, x), f, g);
      ImageIsNoSmaller(Places(s, x), Places(r, x), g, f);
    }
  }

  datatype ListError = EmptyList

  method ShuffleIndices(indices: seq<nat>, seed: Hash, hash: Digest) returns (r: Result<seq<nat>, ListError>)
    ensures r == if indices == [] then Err(EmptyList) else Ok(ShuffledList(hash, seed, indices))
    ensures r.Ok? ==>
              && |r.value| == |indices|
              && forall i: nat, j: nat :: i < |indices| && ShufflesTo(hash, seed, |indices|, i, j) ==>
                                            j < |indices| && r.value[i] == indices[j]
    ensures r.Ok? && |indices| <= TWO_63 ==> multiset(r.value) == multiset(indices)
  {
    hide Shuffled, ShufflesTo;
    var n := |indices|;
    if n == 0 {
      return Err(EmptyList);
    }
    var result := [];
    for i := 0 to n
      invariant |result| == i && result == ShuffledList(hash, seed, indices)[..i]
    {
      var shuffled := SwapOrNotShuffle(i, n, seed, hash);
      result := result + [indices[shuffled.value]];
    }
    assert result == ShuffledList(hash, seed, indices);
    forall i: nat, j: nat | i < n && ShufflesTo(hash, seed, n, i, j) ensures j < n && result[i] == indices[j] {
      ListedByRounds(hash, seed, indices, i, j);
    }
    if |indices| <= TWO_63 { ShuffleIsPermutation(hash, seed, indices); }
    return Ok(result);
  }
}
