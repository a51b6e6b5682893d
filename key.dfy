/** The key assembler of src/bin/week1.rs:50-82: a zero-filled key of the
    target's length, in which every position of the vote table is overwritten
    with the resolved byte XOR a space. The table is visited in an arbitrary
    order, as the source's `HashMap` is. */
module KeyAssembly {
  import opened Collision
  import opened VoteCounting
  import opened Resolver

  /** `key` is a key the loop of lines 52-82 can produce from `table`: it has
      length `len`, positions missing from the table keep the 0 of line 50,
      and every position of the table holds a resolution XOR a space
      (line 81). */
  ghost predicate IsAssembledKey(cs: seq<seq<bv8>>, len: nat, table: map<nat, map<nat, nat>>, key: seq<bv8>) {
    && WellFormed(cs, len, table)
    && |key| == len
    && (forall p: nat :: p < len && p !in table ==> key[p] == 0)
    && (forall p: nat :: p in table ==> IsResolution(cs, p, table[p], key[p] ^ Space))
  }

  /** Builds the key: `vec![0; len]`, then `key[p] = c ^ b' '` for the byte `c`
      resolved at every position `p` of the table. */
  method AssembleKey(cs: seq<seq<bv8>>, len: nat, table: map<nat, map<nat, nat>>) returns (key: seq<bv8>)
    requires WellFormed(cs, len, table)
    ensures IsAssembledKey(cs, len, table, key)
  {
    var slots := new bv8[len](_ => 0);
    var rest := table.Keys;
    while rest != {}
      invariant rest <= table.Keys
      invariant forall p: nat :: p < len && (p !in table || p in rest) ==> slots[p] == 0
      invariant forall p: nat :: p in table && p !in rest ==> IsResolution(cs, p, table[p], slots[p] ^ Space)
      decreases rest
    {
      var p :| p in rest;
      var c := ResolvePosition(cs, p, table[p]);
      slots[p] := c ^ Space;
      rest := rest - {p};
    }
    key := slots[..];
  }

  /** The reasoning of lines 78-81: when every most-voted ciphertext at a
      position of the table holds a space encrypted under the key byte
      `trueKey` there, the assembled key holds `trueKey` at that position,
      whichever of them the resolver picked. */
  lemma AssembledByteIsTrueKey(cs: seq<seq<bv8>>, len: nat, table: map<nat, map<nat, nat>>, key: seq<bv8>,
                               p: nat, trueKey: bv8)
    requires IsAssembledKey(cs, len, table, key) && p in table
    requires forall k :: k in Leaders(table[p], TopVotes(table[p])) ==> cs[k][p] == Space ^ trueKey
    ensures key[p] == trueKey
  {
    var c := key[p] ^ Space;
    var k :| k in Leaders(table[p], TopVotes(table[p])) && cs[k][p] == c;
    assert key[p] == c ^ Space;
  }

  /** Running the key assembly twice gives the same key unless the iteration
      order matters: when at every position of the table one byte occurs
      strictly more often than any other among the most-voted ciphertexts,
      every key the loop can produce is the same. */
  lemma AssembledKeyDeterminedWithoutTies(cs: seq<seq<bv8>>, len: nat, table: map<nat, map<nat, nat>>,
                                          key1: seq<bv8>, key2: seq<bv8>)
    requires IsAssembledKey(cs, len, table, key1) && IsAssembledKey(cs, len, table, key2)
    requires forall p: nat :: p in table ==> HasStrictMode(cs, p, table[p])
    ensures key1 == key2
  {
    forall p: nat | p < len
      ensures key1[p] == key2[p]
    {
      if p in table {
        StrictModeForcesResolution(cs, p, table[p], key1[p] ^ Space, key2[p] ^ Space);
        assert key1[p] == (key1[p] ^ Space) ^ Space;
      }
    }
  }
}
