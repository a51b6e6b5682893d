/** The position resolver of src/bin/week1.rs:58-76: at one position, take the
    highest vote count, keep the ciphertexts that reach it, tally their bytes
    at that position and pick a most frequent byte. The source iterates over
    `HashMap`s, whose order is randomised per run; the model iterates in an
    arbitrary order (a `:|` choice), so ties are broken by an unspecified
    choice and the contracts only say "some maximal element". */
module Resolver {
  import opened VoteCounting

  /** The largest value of a non-empty set of counts. */
  ghost function MaxOf(s: set<nat>): (m: nat)
    requires s != {}
    ensures m in s
    ensures forall x :: x in s ==> x <= m
  {
    var x :| x in s;
    if s == {x} then x
    else
      var r := MaxOf(s - {x});
      assert forall y :: y in s ==> y == x || y in s - {x};
      if x < r then r else x
  }

  /** `subtable.values().max()`, the top vote count of a column (line 58). */
  ghost function TopVotes(column: map<nat, nat>): nat
    requires column != map[]
  {
    MaxOf(column.Values)
  }

  /** The ciphertexts whose count equals `top` (the filter of line 63). */
  function Leaders(column: map<nat, nat>, top: nat): set<nat> {
    set k: nat | k in column && column[k] == top
  }

  /** How many of the ciphertexts in `ks` have byte `b` at position `p`
      (the entry for `b` in the tally folded at lines 65-68). */
  function Occurrences(cs: seq<seq<bv8>>, p: nat, ks: set<nat>, b: bv8): nat
    requires forall k: nat :: k in ks ==> HasByte(cs, k, p)
  {
    |set k: nat | k in ks && HasByte(cs, k, p) && cs[k][p] == b|
  }

  /** `c` is a byte the resolver may pick at `p`: the byte of some ciphertext
      with the top count, occurring among those ciphertexts at least as often
      as any other byte. */
  ghost predicate IsResolution(cs: seq<seq<bv8>>, p: nat, column: map<nat, nat>, c: bv8)
    requires ReadableColumn(cs, p, column)
  {
    var leaders := Leaders(column, TopVotes(column));
    && (exists k :: k in leaders && cs[k][p] == c)
    && (forall b: bv8 :: Occurrences(cs, p, leaders, b) <= Occurrences(cs, p, leaders, c))
  }

  /** Adding one ciphertext to a set adds its byte to the tally. */
  lemma OccurrencesAdd(cs: seq<seq<bv8>>, p: nat, ks: set<nat>, k: nat, b: bv8)
    requires forall x: nat :: x in ks ==> HasByte(cs, x, p)
    requires HasByte(cs, k, p) && k !in ks
    ensures Occurrences(cs, p, ks + {k}, b) == Occurrences(cs, p, ks, b) + (if cs[k][p] == b then 1 else 0)
  {
    var before := set x: nat | x in ks && HasByte(cs, x, p) && cs[x][p] == b;
    var after := set x: nat | x in ks + {k} && HasByte(cs, x, p) && cs[x][p] == b;
    if cs[k][p] == b {
      assert after == before + {k};
    } else {
      assert after == before;
    }
  }

  /** `subtable.values().max()` (line 58), visiting the column in an
      arbitrary order. */
  method TopCount(column: map<nat, nat>) returns (max: nat)
    requires column != map[]
    ensures max in column.Values
    ensures forall k :: k in column ==> column[k] <= max
  {
    var rest := column.Keys;
    var first :| first in rest;
    max := column[first];
    rest := rest - {first};
    while rest != {}
      invariant rest <= column.Keys
      invariant max in column.Values
      invariant forall k :: k in column && k !in rest ==> column[k] <= max
      decreases rest
    {
      var k :| k in rest;
      if column[k] > max {
        max := column[k];
      }
      rest := rest - {k};
    }
  }

  /** A byte used as a key of the tally. */
  datatype ByteKey = ByteKey(value: bv8)

  /** `tally` maps each byte held at `p` by some ciphertext of `ks` to the
      number of those ciphertexts that hold it, and has no other entry. */
  ghost predicate IsTally(cs: seq<seq<bv8>>, p: nat, ks: set<nat>, tally: map<ByteKey, nat>)
    requires forall k: nat :: k in ks ==> HasByte(cs, k, p)
  {
    && (forall b: bv8 :: ByteKey(b) in tally <==> Occurrences(cs, p, ks, b) > 0)
    && (forall b: bv8 :: ByteKey(b) in tally ==> tally[ByteKey(b)] == Occurrences(cs, p, ks, b))
  }

  /** One step of the fold of lines 65-68: `*acc.entry(c).or_default() += 1`. */
  function AddToTally(tally: map<ByteKey, nat>, b: bv8): map<ByteKey, nat> {
    tally[ByteKey(b) := (if ByteKey(b) in tally then tally[ByteKey(b)] else 0) + 1]
  }

  lemma TallyAdd(cs: seq<seq<bv8>>, p: nat, ks: set<nat>, k: nat, tally: map<ByteKey, nat>)
    requires forall x: nat :: x in ks ==> HasByte(cs, x, p)
    requires HasByte(cs, k, p) && k !in ks
    requires IsTally(cs, p, ks, tally)
    ensures IsTally(cs, p, ks + {k}, AddToTally(tally, cs[k][p]))
  {
    var t := AddToTally(tally, cs[k][p]);
    forall b: bv8
      ensures ByteKey(b) in t <==> Occurrences(cs, p, ks + {k}, b) > 0
      ensures ByteKey(b) in t ==> t[ByteKey(b)] == Occurrences(cs, p, ks + {k}, b)
    {
      OccurrencesAdd(cs, p, ks, k, b);
    }
  }

  /** The `filter`/`map`/`fold` of lines 61-68: for each ciphertext whose
      count is `top`, add one to the tally of its byte at `p`. */
  method TallyLeaders(cs: seq<seq<bv8>>, p: nat, column: map<nat, nat>, top: nat) returns (tally: map<ByteKey, nat>)
    requires ReadableColumn(cs, p, column)
    ensures IsTally(cs, p, Leaders(column, top), tally)
  {
    tally := map[];
    ghost var seen: set<nat> := {};
    var rest := column.Keys;
    while rest != {}
      invariant rest <= column.Keys
      invariant seen == Leaders(column, top) - rest
      invariant IsTally(cs, p, seen, tally)
      decreases rest
    {
      var k :| k in rest;
      if column[k] == top {
        TallyAdd(cs, p, seen, k, tally);
        tally := AddToTally(tally, cs[k][p]);
        seen := seen + {k};
      }
      rest := rest - {k};
    }
    assert seen == Leaders(column, top);
  }

  /** `max_by` on the counts (lines 71-74): the last maximal entry in an
      arbitrary iteration order, so some key of maximal count. */
  method MostFrequent<K>(tally: map<K, nat>) returns (v: K)
    requires tally != map[]
    ensures v in tally
    ensures forall u :: u in tally ==> tally[u] <= tally[v]
  {
    var keys := tally.Keys;
    v :| v in keys;
    keys := keys - {v};
    while keys != {}
      invariant keys <= tally.Keys
      invariant v in tally
      invariant forall u :: u in tally && u !in keys ==> tally[u] <= tally[v]
      decreases keys
    {
      var u :| u in keys;
      if tally[u] >= tally[v] {
        v := u;
      }
      keys := keys - {u};
    }
  }

  /** Resolves one position of the table: the byte that the most-voted
      ciphertexts most often hold there, with ties broken by iteration order. */
  method ResolvePosition(cs: seq<seq<bv8>>, p: nat, column: map<nat, nat>) returns (c: bv8)
    requires ReadableColumn(cs, p, column)
    ensures IsResolution(cs, p, column, c)
  {
    var max := TopCount(column);
    assert max == TopVotes(column);
    var tally := TallyLeaders(cs, p, column, max);
    LeadersTallied(cs, p, column, tally);
    var v := MostFrequent(tally);
    TallyMaxIsResolution(cs, p, column, tally, v);
    c := v.value;
  }

  /** The tally of the top-count ciphertexts is not empty: at least one
      ciphertext reaches the top count. */
  lemma LeadersTallied(cs: seq<seq<bv8>>, p: nat, column: map<nat, nat>, tally: map<ByteKey, nat>)
    requires ReadableColumn(cs, p, column)
    requires IsTally(cs, p, Leaders(column, TopVotes(column)), tally)
    ensures tally != map[]
  {
    var leaders := Leaders(column, TopVotes(column));
    var leader :| leader in column && column[leader] == TopVotes(column);
    assert leader in leaders;
    var holders := set k: nat | k in leaders && HasByte(cs, k, p) && cs[k][p] == cs[leader][p];
    assert leader in holders;
    assert Occurrences(cs, p, leaders, cs[leader][p]) > 0;
    assert ByteKey(cs[leader][p]) in tally;
  }

  /** A most frequent entry of the tally of the top-count ciphertexts is a
      resolution of the position. */
  lemma TallyMaxIsResolution(cs: seq<seq<bv8>>, p: nat, column: map<nat, nat>, tally: map<ByteKey, nat>, v: ByteKey)
    requires ReadableColumn(cs, p, column)
    requires IsTally(cs, p, Leaders(column, TopVotes(column)), tally)
    requires v in tally
    requires forall u :: u in tally ==> tally[u] <= tally[v]
    ensures IsResolution(cs, p, column, v.value)
  {
    var leaders := Leaders(column, TopVotes(column));
    var c := v.value;
    assert ByteKey(c) == v;
    OccurrenceWitness(cs, p, leaders, c);
    forall b: bv8
      ensures Occurrences(cs, p, leaders, b) <= Occurrences(cs, p, leaders, c)
    {
      if Occurrences(cs, p, leaders, b) > 0 {
        assert tally[ByteKey(b)] <= tally[v];
      }
    }
  }

  /** A byte with a positive tally is held by some ciphertext of the set. */
  lemma OccurrenceWitness(cs: seq<seq<bv8>>, p: nat, ks: set<nat>, b: bv8)
    requires forall x: nat :: x in ks ==> HasByte(cs, x, p)
    requires Occurrences(cs, p, ks, b) > 0
    ensures exists k :: k in ks && cs[k][p] == b
  {
    var holders := set k: nat | k in ks && HasByte(cs, k, p) && cs[k][p] == b;
    var k :| k in holders;
  }

  /** Two ciphertext collections that agree at position `p` on every
      ciphertext of the column tally the same bytes. */
  lemma OccurrencesSameColumn(cs: seq<seq<bv8>>, cs': seq<seq<bv8>>, p: nat, ks: set<nat>, b: bv8)
    requires forall k: nat :: k in ks ==> HasByte(cs, k, p) && HasByte(cs', k, p) && cs[k][p] == cs'[k][p]
    ensures Occurrences(cs, p, ks, b) == Occurrences(cs', p, ks, b)
  {
    assert (set k: nat | k in ks && HasByte(cs, k, p) && cs[k][p] == b)
        == (set k: nat | k in ks && HasByte(cs', k, p) && cs'[k][p] == b);
  }

  /** Positions are independent: what may be chosen at `p` depends only on the
      column of the table at `p` and on the bytes at index `p`, whatever the
      rest of the ciphertexts hold and whatever the other positions resolve to. */
  lemma ResolutionIsLocal(cs: seq<seq<bv8>>, cs': seq<seq<bv8>>, p: nat, column: map<nat, nat>, c: bv8)
    requires ReadableColumn(cs, p, column) && ReadableColumn(cs', p, column)
    requires forall k :: k in column ==> cs[k][p] == cs'[k][p]
    ensures IsResolution(cs, p, column, c) <==> IsResolution(cs', p, column, c)
  {
    var leaders := Leaders(column, TopVotes(column));
    forall b: bv8
      ensures Occurrences(cs, p, leaders, b) == Occurrences(cs', p, leaders, b)
    {
      OccurrencesSameColumn(cs, cs', p, leaders, b);
    }
    if IsResolution(cs, p, column, c) {
      var k :| k in leaders && cs[k][p] == c;
      assert cs'[k][p] == c;
    }
    if IsResolution(cs', p, column, c) {
      var k :| k in leaders && cs'[k][p] == c;
      assert cs[k][p] == c;
    }
  }

  /** Among the most-voted ciphertexts at `p`, one byte occurs strictly more
      often than every other byte. */
  ghost predicate HasStrictMode(cs: seq<seq<bv8>>, p: nat, column: map<nat, nat>)
    requires ReadableColumn(cs, p, column)
  {
    var leaders := Leaders(column, TopVotes(column));
    exists c: bv8 :: forall b: bv8 :: b != c ==> Occurrences(cs, p, leaders, b) < Occurrences(cs, p, leaders, c)
  }

  /** The only freedom left by the iteration order: any two bytes the
      resolver may pick at a position occur equally often among the leaders,
      and when one byte occurs strictly more often than every other, it is the
      only possible pick. */
  lemma ResolutionUpToTies(cs: seq<seq<bv8>>, p: nat, column: map<nat, nat>, c1: bv8, c2: bv8)
    requires ReadableColumn(cs, p, column)
    requires IsResolution(cs, p, column, c1) && IsResolution(cs, p, column, c2)
    ensures var leaders := Leaders(column, TopVotes(column));
      Occurrences(cs, p, leaders, c1) == Occurrences(cs, p, leaders, c2)
    ensures var leaders := Leaders(column, TopVotes(column));
      (forall b: bv8 :: b != c1 ==> Occurrences(cs, p, leaders, b) < Occurrences(cs, p, leaders, c1)) ==> c1 == c2
  {
  }

  /** With a strict mode there is a single possible pick. */
  lemma StrictModeForcesResolution(cs: seq<seq<bv8>>, p: nat, column: map<nat, nat>, c1: bv8, c2: bv8)
    requires ReadableColumn(cs, p, column)
    requires HasStrictMode(cs, p, column)
    requires IsResolution(cs, p, column, c1) && IsResolution(cs, p, column, c2)
    ensures c1 == c2
  {
    var leaders := Leaders(column, TopVotes(column));
    var c :| forall b: bv8 :: b != c ==> Occurrences(cs, p, leaders, b) < Occurrences(cs, p, leaders, c);
    assert Occurrences(cs, p, leaders, c) <= Occurrences(cs, p, leaders, c1);
    assert Occurrences(cs, p, leaders, c) <= Occurrences(cs, p, leaders, c2);
  }
}
