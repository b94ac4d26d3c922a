/** 32-byte hashes and the lexicographic order fork choice breaks ties with. */
module Hashes {

  newtype byte = x: int | 0 <= x < 256

  const HASH_LENGTH: nat := 32

  type Hash = h: seq<byte> | |h| == HASH_LENGTH witness seq(HASH_LENGTH, _ => 0)

  const ZERO_HASH: Hash :=
    [0, 0, 0, 0, 0, 0, 0, 0, 0, 0, 0, 0, 0, 0, 0, 0, 0, 0, 0, 0, 0, 0, 0, 0, 0, 0, 0, 0, 0, 0, 0, 0]

  /** `a` is larger at byte `i`, the first where they differ. */
  ghost predicate AboveAt(a: Hash, b: Hash, i: nat) {
    i < HASH_LENGTH && a[..i] == b[..i] && a[i] > b[i]
  }

  /** `a` comes after `b` in lexicographic byte order. */
  ghost predicate Above(a: Hash, b: Hash) {
    exists i: nat :: AboveAt(a, b, i)
  }

  lemma AboveIsTotal(a: Hash, b: Hash)
    requires a != b
    ensures Above(a, b) || Above(b, a)
  {
    var i: nat := 0;
    while i < HASH_LENGTH && a[i] == b[i]
      invariant i <= HASH_LENGTH && a[..i] == b[..i]
    {
      assert a[..i + 1] == a[..i] + [a[i]] && b[..i + 1] == b[..i] + [b[i]];
      i := i + 1;
    }
    assert a == a[..HASH_LENGTH] && b == b[..HASH_LENGTH];
    assert AboveAt(a, b, i) || AboveAt(b, a, i);
  }

  lemma AboveIsTransitive(a: Hash, b: Hash, c: Hash)
    requires Above(a, b) && Above(b, c)
    ensures Above(a, c)
  {
    var i: nat :| AboveAt(a, b, i);
    var j: nat :| AboveAt(b, c, j);
    var k := if i < j then i else j;
    assert a[..k] == a[..i][..k] && b[..k] == b[..i][..k] && b[..k] == b[..j][..k] && c[..k] == c[..j][..k];
    if i < j {
      assert b[i] == b[..j][i] && c[i] == c[..j][i];
    } else if j < i {
      assert a[j] == a[..i][j] && b[j] == b[..i][j];
    }
    assert AboveAt(a, c, k);
  }

  lemma AboveIsAsymmetric(a: Hash, b: Hash)
    requires Above(a, b)
    ensures !Above(b, a) && a != b
  {
    var i: nat :| AboveAt(a, b, i);
    forall j: nat ensures !AboveAt(b, a, j) {
      if j < i { assert a[j] == a[..i][j] && b[j] == b[..i][j]; }
      if i < j < HASH_LENGTH { assert a[..j][i] == a[i] && b[..j][i] == b[i]; }
    }
  }

  /** The bytes as a number, the first byte highest. */
  ghost function BigEndian(b: seq<byte>): nat {
    if b == [] then 0 else 256 * BigEndian(b[..|b| - 1]) + b[|b| - 1] as nat
  }

  lemma {:induction false} FirstDifferenceDecides(a: seq<byte>, b: seq<byte>, i: nat)
    requires |a| == |b| && i < |a| && a[..i] == b[..i] && a[i] > b[i]
    ensures BigEndian(a) > BigEndian(b)
  {
    var n := |a| - 1;
    if i < n {
      assert a[..n][..i] == a[..i] && b[..n][..i] == b[..i];
      FirstDifferenceDecides(a[..n], b[..n], i);
    }
  }

  /** The order is that of the hashes read as numbers. */
  lemma AboveIsBigger(a: Hash, b: Hash)
    ensures Above(a, b) <==> BigEndian(a) > BigEndian(b)
  {
    hide BigEndian;
    if i: nat :| AboveAt(a, b, i) {
      FirstDifferenceDecides(a, b, i);
    } else if a != b {
      AboveIsTotal(a, b);
      var i: nat :| AboveAt(b, a, i);
      FirstDifferenceDecides(b, a, i);
    }
  }

  /** `hashGreater`: the byte loop decides the order. */
  method HashGreater(a: Hash, b: Hash) returns (r: bool)
    ensures r == Above(a, b) == (BigEndian(a) > BigEndian(b))
  {
    AboveIsBigger(a, b);
    for i := 0 to HASH_LENGTH
      invariant a[..i] == b[..i]
    {
      if a[i] > b[i] {
        assert AboveAt(a, b, i);
        return true;
      }
      if a[i] < b[i] {
        assert AboveAt(b, a, i);
        AboveIsAsymmetric(b, a);
        return false;
      }
      assert a[..i + 1] == a[..i] + [a[i]] && b[..i + 1] == b[..i] + [b[i]];
    }
    assert a == a[..HASH_LENGTH] && b == b[..HASH_LENGTH];
    return false;
  }
}
