/** The whole recovery of src/bin/week1.rs:24-93: the last ciphertext is the
    target, votes are gathered over its length, the key is assembled from
    the votes and the target is decoded with it. Reading the file, hex
    decoding and printing are not part of the model. */
module Recovery {
  import opened Collision
  import opened VoteCounting
  import opened Analyzer
  import opened Resolver
  import opened KeyAssembly
  import opened Decoder

  /** Recovers a key of the target's length from the votes of all pairs, and
      decodes the target with it. The `unwrap` of line 25 is the requirement
      that there is at least one ciphertext. */
  method RecoverKey(cs: seq<seq<bv8>>) returns (key: seq<bv8>, decoded: seq<bv8>)
    requires |cs| > 0
    ensures IsAssembledKey(cs, |cs[|cs| - 1]|, VoteTable(cs, |cs[|cs| - 1]|), key)
    ensures |decoded| == |key| == |cs[|cs| - 1]|
    ensures forall p :: 0 <= p < |decoded| ==> decoded[p] ^ key[p] == cs[|cs| - 1][p]
  {
    var target := cs[|cs| - 1];
    var table := BuildTable(cs, |target|);
    key := AssembleKey(cs, |target|, table);
    decoded := Decode(target, key);
  }

  /** Where every most-voted ciphertext at a position of the table holds an
      encrypted space, the assembled key decodes the target to its plaintext
      at that position. */
  lemma SpaceLeadersDecodeToPlaintext(cs: seq<seq<bv8>>, table: map<nat, map<nat, nat>>, key: seq<bv8>,
                                      plain: seq<bv8>, trueKey: seq<bv8>, p: nat)
    requires |cs| > 0
    requires IsAssembledKey(cs, |cs[|cs| - 1]|, table, key)
    requires |plain| == |cs[|cs| - 1]| && |trueKey| >= |plain|
    requires forall i :: 0 <= i < |plain| ==> cs[|cs| - 1][i] == plain[i] ^ trueKey[i]
    requires p in table
    requires forall k :: k in Leaders(table[p], TopVotes(table[p])) ==> cs[k][p] == Space ^ trueKey[p]
    ensures Decode(cs[|cs| - 1], key)[p] == plain[p]
  {
    AssembledByteIsTrueKey(cs, |cs[|cs| - 1]|, table, key, p, trueKey[p]);
    DecodeRecoversPlaintext(plain, trueKey, cs[|cs| - 1], key, p);
  }

  // ---- a worked example ----

  /** Key [0x05, 0x3A, 0x99]; plaintexts "AB ", "C D" and the target "EFG". */
  const ExampleCiphertexts: seq<seq<bv8>> := [[0x44, 0x78, 0xB9], [0x46, 0x1A, 0xDD], [0x40, 0x7C, 0xDE]]

  /** No pair collides at position 0; pairs (0, 1) and (1, 2) collide at
      position 1, and pairs (0, 1) and (0, 2) at position 2. */
  lemma ExampleFlags()
    ensures forall i: nat, j: nat :: i < j < 3 ==> !Flagged(ExampleCiphertexts, 3, i, j, 0)
    ensures forall i: nat, j: nat :: i < j < 3 ==>
      (Flagged(ExampleCiphertexts, 3, i, j, 1) <==> (i, j) == (0, 1) || (i, j) == (1, 2))
    ensures forall i: nat, j: nat :: i < j < 3 ==>
      (Flagged(ExampleCiphertexts, 3, i, j, 2) <==> (i, j) == (0, 1) || (i, j) == (0, 2))
  {
  }

  /** The vote counts of the example: none at position 0, {0: 1, 1: 2, 2: 1}
      at position 1 and {0: 2, 1: 1, 2: 1} at position 2. */
  lemma ExampleVotes()
    ensures forall k: nat :: k < 3 ==> Votes(ExampleCiphertexts, 3, 0, k) == 0
    ensures Votes(ExampleCiphertexts, 3, 1, 0) == 1 && Votes(ExampleCiphertexts, 3, 1, 1) == 2
    ensures Votes(ExampleCiphertexts, 3, 1, 2) == 1
    ensures Votes(ExampleCiphertexts, 3, 2, 0) == 2 && Votes(ExampleCiphertexts, 3, 2, 1) == 1
    ensures Votes(ExampleCiphertexts, 3, 2, 2) == 1
  {
    var cs := ExampleCiphertexts;
    ExampleFlags();
    forall p: nat, k: nat | p < 3 && k < 3
      ensures Votes(cs, 3, p, k) == Partners(cs, 3, p, k, 3)
      ensures Partners(cs, 3, p, k, 3) == (if 0 != k && Flagged(cs, 3, k, 0, p) then 1 else 0)
        + (if 1 != k && Flagged(cs, 3, k, 1, p) then 1 else 0) + (if 2 != k && Flagged(cs, 3, k, 2, p) then 1 else 0)
    {
      VotesArePartners(cs, 3, p, k);
      assert Partners(cs, 3, p, k, 1) == if 0 != k && Flagged(cs, 3, k, 0, p) then 1 else 0;
    }
    forall i: nat, j: nat | i < 3 && j < 3
      ensures Flagged(cs, 3, i, j, 0) == Flagged(cs, 3, j, i, 0)
      ensures Flagged(cs, 3, i, j, 1) == Flagged(cs, 3, j, i, 1)
      ensures Flagged(cs, 3, i, j, 2) == Flagged(cs, 3, j, i, 2)
    {
      FlaggedSymmetric(cs, 3, i, j, 0);
      FlaggedSymmetric(cs, 3, i, j, 1);
      FlaggedSymmetric(cs, 3, i, j, 2);
    }
  }

  /** The inner maps of the example at positions 1 and 2. */
  lemma ExampleColumns()
    ensures VoteColumn(ExampleCiphertexts, 3, 1) == map[0 := 1, 1 := 2, 2 := 1]
    ensures VoteColumn(ExampleCiphertexts, 3, 2) == map[0 := 2, 1 := 1, 2 := 1]
  {
    ExampleVotes();
    var cs := ExampleCiphertexts;
    assert VoteColumn(cs, 3, 1).Keys == {0, 1, 2};
    assert VoteColumn(cs, 3, 2).Keys == {0, 1, 2};
  }

  /** The vote table of the example: nothing at position 0, votes
      {0: 1, 1: 2, 2: 1} at position 1 and {0: 2, 1: 1, 2: 1} at position 2. */
  lemma ExampleTable()
    ensures VoteTable(ExampleCiphertexts, 3) == map[1 := map[0 := 1, 1 := 2, 2 := 1], 2 := map[0 := 2, 1 := 1, 2 := 1]]
  {
    var cs := ExampleCiphertexts;
    ExampleFlags();
    ExampleColumns();
    assert !AnyFlagged(cs, 3, 0);
    assert AnyFlagged(cs, 3, 1) by { assert Flagged(cs, 3, 0, 1, 1); }
    assert AnyFlagged(cs, 3, 2) by { assert Flagged(cs, 3, 0, 1, 2); }
    assert VoteTable(cs, 3).Keys == {1, 2};
  }

  /** The top count of a column whose counts are at most 2 and which has a
      count of 2 is 2. */
  lemma TopVotesIsTwo(column: map<nat, nat>, k: nat)
    requires k in column && column[k] == 2
    requires forall j :: j in column ==> column[j] <= 2
    ensures TopVotes(column) == 2
  {
    assert column[k] in column.Values;
    var m := TopVotes(column);
    var j :| j in column && column[j] == m;
  }

  /** A column with a single most-voted ciphertext resolves to its byte. */
  lemma SingleLeaderForcesPick(cs: seq<seq<bv8>>, p: nat, column: map<nat, nat>, k: nat, c: bv8)
    requires ReadableColumn(cs, p, column)
    requires Leaders(column, TopVotes(column)) == {k}
    requires IsResolution(cs, p, column, c)
    ensures k < |cs| && p < |cs[k]| && c == cs[k][p]
  {
  }

  /** At position 1 the only most-voted ciphertext is 1. */
  lemma ExampleLeader1(column: map<nat, nat>)
    requires column == map[0 := 1, 1 := 2, 2 := 1]
    ensures 1 in column && Leaders(column, TopVotes(column)) == {1}
  {
    TopVotesIsTwo(column, 1);
    assert Leaders(column, 2) == {1};
  }

  /** At position 2 the only most-voted ciphertext is 0. */
  lemma ExampleLeader2(column: map<nat, nat>)
    requires column == map[0 := 2, 1 := 1, 2 := 1]
    ensures 0 in column && Leaders(column, TopVotes(column)) == {0}
  {
    TopVotesIsTwo(column, 0);
    assert Leaders(column, 2) == {0};
  }

  /** Since each voted position has a single leader, the pick is forced
      whatever the iteration order: 0x1A at position 1, 0xB9 at position 2. */
  lemma ExamplePicks(key: seq<bv8>)
    requires IsAssembledKey(ExampleCiphertexts, 3, VoteTable(ExampleCiphertexts, 3), key)
    ensures key[1] ^ Space == 0x1A && key[2] ^ Space == 0xB9
  {
    var cs := ExampleCiphertexts;
    ExampleTable();
    var table := VoteTable(cs, 3);
    assert 1 in table && 2 in table;
    assert IsResolution(cs, 1, table[1], key[1] ^ Space);
    assert IsResolution(cs, 2, table[2], key[2] ^ Space);
    ExampleLeader1(table[1]);
    ExampleLeader2(table[2]);
    SingleLeaderForcesPick(cs, 1, table[1], 1, key[1] ^ Space);
    SingleLeaderForcesPick(cs, 2, table[2], 0, key[2] ^ Space);
  }

  /** Whatever the iteration order, the example recovers the key [0x00, 0x3A,
      0x99]: the true key bytes at positions 1 and 2, where the single
      most-voted ciphertext holds an encrypted space, and 0 at the unvoted
      position 0. */
  lemma ExampleKey(key: seq<bv8>)
    requires IsAssembledKey(ExampleCiphertexts, 3, VoteTable(ExampleCiphertexts, 3), key)
    ensures key == [0x00, 0x3A, 0x99]
  {
    ExampleKeyZero(key);
    ExampleKeyByte1(key);
    ExampleKeyByte2(key);
  }

  /** Ciphertext 1, the only leader at position 1, holds 0x1A = 0x20 ^ 0x3A. */
  lemma ExampleKeyByte1(key: seq<bv8>)
    requires IsAssembledKey(ExampleCiphertexts, 3, VoteTable(ExampleCiphertexts, 3), key)
    ensures key[1] == 0x3A
  {
    var cs := ExampleCiphertexts;
    ExampleTable();
    var table := VoteTable(cs, 3);
    assert 1 in table;
    ExampleLeader1(table[1]);
    assert cs[1][1] == Space ^ 0x3A;
    AssembledByteIsTrueKey(cs, 3, table, key, 1, 0x3A);
  }

  /** Ciphertext 0, the only leader at position 2, holds 0xB9 = 0x20 ^ 0x99. */
  lemma ExampleKeyByte2(key: seq<bv8>)
    requires IsAssembledKey(ExampleCiphertexts, 3, VoteTable(ExampleCiphertexts, 3), key)
    ensures key[2] == 0x99
  {
    var cs := ExampleCiphertexts;
    ExampleTable();
    var table := VoteTable(cs, 3);
    assert 2 in table;
    ExampleLeader2(table[2]);
    assert cs[0][2] == Space ^ 0x99;
    AssembledByteIsTrueKey(cs, 3, table, key, 2, 0x99);
  }

  /** With that key the target "EFG" decodes to "@FG": the plaintext at the
      two voted positions, and the target's own byte 0x40 at the unvoted
      position 0. */
  lemma ExampleRecovery(key: seq<bv8>)
    requires IsAssembledKey(ExampleCiphertexts, 3, VoteTable(ExampleCiphertexts, 3), key)
    ensures Decode(ExampleCiphertexts[2], key) == [0x40, 0x46, 0x47]
  {
    ExampleKey(key);
    var d := Decode(ExampleCiphertexts[2], key);
    assert d[0] == 0x40 && d[1] == 0x46 && d[2] == 0x47;
  }

  /** Position 0 of the example gets no vote, so its key byte stays 0. */
  lemma ExampleKeyZero(key: seq<bv8>)
    requires IsAssembledKey(ExampleCiphertexts, 3, VoteTable(ExampleCiphertexts, 3), key)
    ensures |key| == 3 && key[0] == 0
  {
    ExampleTable();
    assert 0 !in VoteTable(ExampleCiphertexts, 3);
  }
}
