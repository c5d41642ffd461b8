/**
  Hamming distance between perceptual hashes.

  A hash is held as its sequence of hexadecimal digit values (most significant
  first); the empty sequence stands for a missing hash. The similarity service
  parses both hashes as integers, XORs them and counts the one bits; the glossary
  defines the distance as the number of differing bits of two equal-length bit
  strings. `XorPopCountIsMismatchCount` proves the two agree.
 */
module Hamming {

  type Nibble = bv4
  type Hash = seq<Nibble>

  /** Returned for a missing or length-mismatched hash: larger than any real distance of a 64-bit hash. */
  const INCOMPATIBLE: nat := 999

  /** A 64-bit hash is written with 16 hexadecimal digits. */
  const HASH_HEX_LENGTH: nat := 16

  /** The four bits of one hexadecimal digit, most significant first. */
  function DigitBits(x: Nibble): seq<bool> {
    [x & 8 != 0, x & 4 != 0, x & 2 != 0, x & 1 != 0]
  }

  /** The bit string a hash encodes. */
  function Bits(h: Hash): (r: seq<bool>)
    ensures |r| == 4 * |h|
  {
    if |h| == 0 then [] else DigitBits(h[0]) + Bits(h[1..])
  }

  /** Number of positions where two equal-length bit strings differ. */
  function Mismatches(a: seq<bool>, b: seq<bool>): nat
    requires |a| == |b|
  {
    if |a| == 0 then 0 else (if a[0] != b[0] then 1 else 0) + Mismatches(a[1..], b[1..])
  }

  /** Number of one bits of a digit. */
  function PopCount(x: Nibble): nat {
    (if x & 1 != 0 then 1 else 0) + (if x & 2 != 0 then 1 else 0)
    + (if x & 4 != 0 then 1 else 0) + (if x & 8 != 0 then 1 else 0)
  }

  /** `bin(int(a, 16) ^ int(b, 16)).count('1')` for hashes of the same length. */
  function XorPopCount(a: Hash, b: Hash): nat
    requires |a| == |b|
  {
    if |a| == 0 then 0 else PopCount(a[0] ^ b[0]) + XorPopCount(a[1..], b[1..])
  }

  /** The similarity service's `hamming_distance`. */
  function Distance(a: Hash, b: Hash): (d: nat)
    ensures |a| == 0 || |b| == 0 || |a| != |b| ==> d == INCOMPATIBLE
    ensures |a| > 0 && |a| == |b| ==> d == Mismatches(Bits(a), Bits(b)) && d <= 4 * |a|
  {
    if |a| == 0 || |b| == 0 then INCOMPATIBLE
    else if |a| != |b| then INCOMPATIBLE
    else
      XorPopCountIsMismatchCount(a, b);
      MismatchesBound(Bits(a), Bits(b));
      XorPopCount(a, b)
  }

  /** Both hashes are present and have the same length, so `Distance` is a real bit count. */
  predicate Comparable(a: Hash, b: Hash) {
    |a| > 0 && |a| == |b|
  }

  lemma {:induction false} MismatchesConcat(a1: seq<bool>, a2: seq<bool>, b1: seq<bool>, b2: seq<bool>)
    requires |a1| == |b1| && |a2| == |b2|
    ensures Mismatches(a1 + a2, b1 + b2) == Mismatches(a1, b1) + Mismatches(a2, b2)
  {
    if |a1| == 0 {
      assert a1 + a2 == a2 && b1 + b2 == b2;
    } else {
      assert (a1 + a2)[1..] == a1[1..] + a2;
      assert (b1 + b2)[1..] == b1[1..] + b2;
      MismatchesConcat(a1[1..], a2, b1[1..], b2);
    }
  }

  lemma {:induction false} MismatchesBound(a: seq<bool>, b: seq<bool>)
    requires |a| == |b|
    ensures Mismatches(a, b) <= |a|
  {
    if |a| > 0 {
      MismatchesBound(a[1..], b[1..]);
    }
  }

  lemma DigitXor(x: Nibble, y: Nibble)
    ensures PopCount(x ^ y) == Mismatches(DigitBits(x), DigitBits(y))
  {
    var bx, bY := DigitBits(x), DigitBits(y);
    var m3 := Mismatches(bx[3..], bY[3..]);
    assert bx[3..][1..] == [] && bY[3..][1..] == [];
    assert m3 == (if bx[3] != bY[3] then 1 else 0) + Mismatches(bx[3..][1..], bY[3..][1..]);
    var m2 := Mismatches(bx[2..], bY[2..]);
    assert bx[2..][1..] == bx[3..] && bY[2..][1..] == bY[3..];
    assert m2 == (if bx[2] != bY[2] then 1 else 0) + m3;
    var m1 := Mismatches(bx[1..], bY[1..]);
    assert bx[1..][1..] == bx[2..] && bY[1..][1..] == bY[2..];
    assert m1 == (if bx[1] != bY[1] then 1 else 0) + m2;
    assert Mismatches(bx, bY) == (if bx[0] != bY[0] then 1 else 0) + m1;
    assert ((x ^ y) & 8 != 0) == (bx[0] != bY[0]);
    assert ((x ^ y) & 4 != 0) == (bx[1] != bY[1]);
    assert ((x ^ y) & 2 != 0) == (bx[2] != bY[2]);
    assert ((x ^ y) & 1 != 0) == (bx[3] != bY[3]);
  }

  /** Counting the one bits of the XOR counts exactly the differing bits. */
  lemma {:induction false} XorPopCountIsMismatchCount(a: Hash, b: Hash)
    requires |a| == |b|
    ensures XorPopCount(a, b) == Mismatches(Bits(a), Bits(b))
  {
    if |a| > 0 {
      XorPopCountIsMismatchCount(a[1..], b[1..]);
      DigitXor(a[0], b[0]);
      MismatchesConcat(DigitBits(a[0]), Bits(a[1..]), DigitBits(b[0]), Bits(b[1..]));
    }
  }

  lemma {:induction false} MismatchesSymmetric(a: seq<bool>, b: seq<bool>)
    requires |a| == |b|
    ensures Mismatches(a, b) == Mismatches(b, a)
  {
    if |a| > 0 {
      MismatchesSymmetric(a[1..], b[1..]);
    }
  }

  lemma {:induction false} MismatchesSelf(a: seq<bool>)
    ensures Mismatches(a, a) == 0
  {
    if |a| > 0 {
      MismatchesSelf(a[1..]);
    }
  }

  /** The distance is symmetric, also in its sentinel cases. */
  lemma DistanceSymmetric(a: Hash, b: Hash)
    ensures Distance(a, b) == Distance(b, a)
  {
    if Comparable(a, b) {
      MismatchesSymmetric(Bits(a), Bits(b));
    }
  }

  /** A present hash is at distance 0 from itself. */
  lemma DistanceSelf(a: Hash)
    requires |a| > 0
    ensures Distance(a, a) == 0
  {
    MismatchesSelf(Bits(a));
  }

  /** Two 64-bit hashes are at most 64 bits apart. */
  lemma DistanceOf64BitHashes(a: Hash, b: Hash)
    requires |a| == HASH_HEX_LENGTH && |b| == HASH_HEX_LENGTH
    ensures Distance(a, b) <= 64
  {
  }
}
