/** The decoder of src/bin/week1.rs:89-93: the target XOR the key, byte by
    byte, over the shorter of the two (`zip`). Each resulting byte is one
    Latin-1 character of the decoded text. */
module Decoder {

  /** `target.into_iter().zip(key).map(|(c, k)| c ^ k)`. */
  function Decode(target: seq<bv8>, key: seq<bv8>): (decoded: seq<bv8>)
    ensures |decoded| == if |target| <= |key| then |target| else |key|
    ensures forall p :: 0 <= p < |decoded| ==> decoded[p] ^ key[p] == target[p]
  {
    var n := if |target| <= |key| then |target| else |key|;
    seq(n, p requires 0 <= p < n => target[p] ^ key[p])
  }

  /** Decoding with the same key twice gives the target back. */
  lemma DecodeInvolutive(target: seq<bv8>, key: seq<bv8>)
    requires |target| == |key|
    ensures Decode(Decode(target, key), key) == target
  {
    var once := Decode(target, key);
    forall p | 0 <= p < |target|
      ensures Decode(once, key)[p] == target[p]
    {
      assert once[p] ^ key[p] == target[p];
    }
  }

  /** A zero key byte leaves the target byte unchanged: an unresolved position
      decodes to the ciphertext byte itself. */
  lemma ZeroKeyByteKeepsTarget(target: seq<bv8>, key: seq<bv8>, p: nat)
    requires p < |target| && p < |key| && key[p] == 0
    ensures Decode(target, key)[p] == target[p]
  {
  }

  /** Where the recovered key byte is the true key byte, the decoded byte is
      the plaintext byte. */
  lemma DecodeRecoversPlaintext(plain: seq<bv8>, trueKey: seq<bv8>, target: seq<bv8>, key: seq<bv8>, p: nat)
    requires |plain| == |target| && |trueKey| >= |target| && |key| >= |target|
    requires forall i :: 0 <= i < |target| ==> target[i] == plain[i] ^ trueKey[i]
    requires p < |target| && key[p] == trueKey[p]
    ensures Decode(target, key)[p] == plain[p]
  {
    assert Decode(target, key)[p] ^ key[p] == target[p];
  }
}
