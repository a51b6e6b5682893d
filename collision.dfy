/** The collision test applied to two ciphertext bytes at the same position
    (src/bin/week1.rs:36-41). Ciphertexts are byte sequences; byte i of two
    ciphertexts encrypted under the same keystream XORs to the XOR of the two
    plaintext bytes, so a space (0x20) against a letter gives a letter. */
module Collision {

  /** The ASCII space character, `b' '`. */
  const Space: bv8 := 0x20

  /** `char::from(b).is_alphabetic()`: the byte read as a Latin-1 code point
      and tested for the Unicode Alphabetic property. Besides A-Z and a-z this
      holds for U+00AA, U+00B5, U+00BA, U+00C0-U+00D6, U+00D8-U+00F6 and
      U+00F8-U+00FF. */
  predicate IsLatin1Alphabetic(b: bv8) {
    || (0x41 <= b <= 0x5A)
    || (0x61 <= b <= 0x7A)
    || b == 0xAA || b == 0xB5 || b == 0xBA
    || (0xC0 <= b <= 0xD6)
    || (0xD8 <= b <= 0xF6)
    || 0xF8 <= b
  }

  /** An ASCII letter, A-Z or a-z. */
  predicate IsAsciiLetter(b: bv8) {
    (0x41 <= b <= 0x5A) || (0x61 <= b <= 0x7A)
  }

  /** The test of line 41 on the XOR of two ciphertext bytes. */
  predicate IsSpaceCollision(x: bv8, y: bv8) {
    IsLatin1Alphabetic(x ^ y) || x ^ y == 0
  }

  /** Ciphertexts `i` and `j` are flagged at position `p`: `p` lies inside the
      `zip(...).take(len)` window of both ciphertexts, and the XOR of their
      bytes there is Latin-1 alphabetic or zero. */
  predicate Flagged(cs: seq<seq<bv8>>, len: nat, i: nat, j: nat, p: nat) {
    && i < |cs| && j < |cs|
    && p < len && p < |cs[i]| && p < |cs[j]|
    && IsSpaceCollision(cs[i][p], cs[j][p])
  }

  /** The test is symmetric in the two ciphertexts: the order in which
      `tuple_combinations` presents a pair does not matter. */
  lemma FlaggedSymmetric(cs: seq<seq<bv8>>, len: nat, i: nat, j: nat, p: nat)
    ensures Flagged(cs, len, i, j, p) == Flagged(cs, len, j, i, p)
  {
  }

  /** Every ASCII letter is Latin-1 alphabetic, but the test also accepts
      bytes that are not ASCII letters. */
  lemma AlphabeticWiderThanAscii()
    ensures forall b: bv8 :: IsAsciiLetter(b) ==> IsLatin1Alphabetic(b)
    ensures IsLatin1Alphabetic(0xE9) && !IsAsciiLetter(0xE9)
  {
  }

  /** The rationale of lines 37-40: when one plaintext byte is a space and the
      other an ASCII letter, or both are spaces, the two ciphertext bytes under
      any shared key byte are flagged. */
  lemma SpaceCollisionDetected(m1: bv8, m2: bv8, k: bv8)
    requires m1 == Space
    requires IsAsciiLetter(m2) || m2 == Space
    ensures IsSpaceCollision(m1 ^ k, m2 ^ k)
    ensures IsSpaceCollision(m2 ^ k, m1 ^ k)
  {
    assert (m1 ^ k) ^ (m2 ^ k) == m1 ^ m2;
    assert (m2 ^ k) ^ (m1 ^ k) == m1 ^ m2;
    assert IsAsciiLetter(m2) ==> IsAsciiLetter(m1 ^ m2);
  }

  /** A zero XOR only says that the two plaintext bytes are equal: two equal
      letters are flagged just like two spaces. */
  lemma EqualBytesFlagged(m: bv8, k: bv8)
    ensures IsSpaceCollision(m ^ k, m ^ k)
  {
  }
}
