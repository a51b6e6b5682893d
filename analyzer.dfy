/** The collision analyzer: the nested loop of src/bin/week1.rs:28-48 that
    fills the `SpaceTable`, a map from position to a map from ciphertext index
    to vote count. */
module Analyzer {
  import opened Collision
  import opened VoteCounting

  /** `table.get(p).and_then(|s| s.get(k))`, with 0 for a missing entry. */
  function Count(table: map<nat, map<nat, nat>>, p: nat, k: nat): nat {
    if p in table && k in table[p] then table[p][k] else 0
  }

  /** `*table.entry(p).or_default().entry(k).or_default() += 1`: adds one vote
      for `k` at `p`, creating the entries when they are missing. */
  function Bump(table: map<nat, map<nat, nat>>, p: nat, k: nat): (t: map<nat, map<nat, nat>>)
    ensures t.Keys == table.Keys + {p}
    ensures p in t && k in t[p] && t[p].Keys == (if p in table then table[p].Keys else {}) + {k}
    ensures forall q :: q in table && q != p ==> t[q] == table[q]
    ensures forall q, m :: Count(t, q, m) == Count(table, q, m) + (if q == p && m == k then 1 else 0)
  {
    var column: map<nat, nat> := if p in table then table[p] else map[];
    table[p := column[k := (if k in column then column[k] else 0) + 1]]
  }

  /** A vote for a ciphertext that can be read at a position inside the
      window keeps the table well formed. */
  lemma BumpWellFormed(cs: seq<seq<bv8>>, len: nat, table: map<nat, map<nat, nat>>, p: nat, k: nat)
    requires WellFormed(cs, len, table)
    requires p < len && k < |cs| && p < |cs[k]|
    ensures WellFormed(cs, len, Bump(table, p, k))
  {
    var t := Bump(table, p, k);
    forall q: nat, m: nat | q in t && m in t[q]
      ensures m < |cs| && q < |cs[m]| && t[q][m] > 0
    {
      if q != p || m != k {
        assert m in table[q];
        assert Count(table, q, m) == table[q][m];
        assert Count(t, q, m) == t[q][m];
      }
    }
  }

  /** The votes once the pairs before `(i, j)` have been visited, and the
      positions of `(i, j)` below `q`. */
  function VotesSoFar(cs: seq<seq<bv8>>, len: nat, i: nat, j: nat, q: nat, p: nat, k: nat): nat {
    PrefixVotes(cs, len, i, p, k) + RowVotes(cs, len, i, j, p, k) + (if p < q then Hit(cs, len, i, j, p, k) else 0)
  }

  /** Visiting position `q` of the pair `(i, j)` adds its hit to the counts. */
  lemma VisitStep(cs: seq<seq<bv8>>, len: nat, i: nat, j: nat, q: nat,
                  before: map<nat, map<nat, nat>>, after: map<nat, map<nat, nat>>)
    requires i < j < |cs| && q < len && q < |cs[i]| && q < |cs[j]|
    requires forall p: nat, k: nat :: Count(before, p, k) == VotesSoFar(cs, len, i, j, q, p, k)
    requires after == if IsSpaceCollision(cs[i][q], cs[j][q]) then Bump(Bump(before, q, i), q, j) else before
    ensures forall p: nat, k: nat :: Count(after, p, k) == VotesSoFar(cs, len, i, j, q + 1, p, k)
  {
    forall p: nat, k: nat
      ensures Count(after, p, k) == VotesSoFar(cs, len, i, j, q + 1, p, k)
    {
      assert Count(before, p, k) == VotesSoFar(cs, len, i, j, q, p, k);
    }
  }

  /** Past the window no position of `(i, j)` is flagged: the pair is done. */
  lemma PairDone(cs: seq<seq<bv8>>, len: nat, i: nat, j: nat, window: nat)
    requires i < j < |cs|
    requires window == if |cs[i]| < |cs[j]| && |cs[i]| < len then |cs[i]| else if |cs[j]| < len then |cs[j]| else len
    ensures forall p: nat, k: nat :: VotesSoFar(cs, len, i, j, window, p, k) == VotesSoFar(cs, len, i, j + 1, 0, p, k)
  {
  }

  /** Once every partner of `i` has been visited, row `i` is done. */
  lemma RowDone(cs: seq<seq<bv8>>, len: nat, i: nat)
    requires i < |cs|
    ensures forall p: nat, k: nat :: VotesSoFar(cs, len, i, |cs|, 0, p, k) == PrefixVotes(cs, len, i + 1, p, k)
  {
  }

  /** Builds the vote table: for every pair `i < j` and every position `p` in
      `zip(c_i, c_j).take(len)`, a flagged pair adds one vote for `i` and one
      for `j` at `p`. The result is exactly the table of `Votes`. */
  method BuildTable(cs: seq<seq<bv8>>, len: nat) returns (table: map<nat, map<nat, nat>>)
    ensures table == VoteTable(cs, len)
    ensures WellFormed(cs, len, table)
    ensures forall p: nat :: p in table <==> p < len && AnyFlagged(cs, len, p)
  {
    table := map[];
    var i := 0;
    while i < |cs|
      invariant i <= |cs|
      invariant WellFormed(cs, len, table)
      invariant forall p: nat, k: nat :: Count(table, p, k) == PrefixVotes(cs, len, i, p, k)
    {
      var j := i + 1;
      assert forall p: nat, k: nat :: VotesSoFar(cs, len, i, j, 0, p, k) == PrefixVotes(cs, len, i, p, k);
      while j < |cs|
        invariant i < j <= |cs|
        invariant WellFormed(cs, len, table)
        invariant forall p: nat, k: nat :: Count(table, p, k) == VotesSoFar(cs, len, i, j, 0, p, k)
      {
        var window := if |cs[i]| < |cs[j]| then |cs[i]| else |cs[j]|;
        window := if window < len then window else len;
        var q := 0;
        while q < window
          invariant q <= window
          invariant WellFormed(cs, len, table)
          invariant forall p: nat, k: nat :: Count(table, p, k) == VotesSoFar(cs, len, i, j, q, p, k)
        {
          ghost var before := table;
          if IsSpaceCollision(cs[i][q], cs[j][q]) {
            BumpWellFormed(cs, len, table, q, i);
            BumpWellFormed(cs, len, Bump(table, q, i), q, j);
            table := Bump(Bump(table, q, i), q, j);
          }
          VisitStep(cs, len, i, j, q, before, table);
          q := q + 1;
        }
        PairDone(cs, len, i, j, window);
        j := j + 1;
      }
      RowDone(cs, len, i);
      i := i + 1;
    }
    TableMatchesVotes(cs, len, table);
  }

  /** A well-formed table whose counts are the votes is the vote table. */
  lemma TableMatchesVotes(cs: seq<seq<bv8>>, len: nat, table: map<nat, map<nat, nat>>)
    requires WellFormed(cs, len, table)
    requires forall p: nat, k: nat :: Count(table, p, k) == Votes(cs, len, p, k)
    ensures table == VoteTable(cs, len)
    ensures forall p: nat :: p in table <==> p < len && AnyFlagged(cs, len, p)
  {
    var spec := VoteTable(cs, len);
    forall p: nat
      ensures p in table <==> p in spec
    {
      if p in table {
        var k :| k in table[p];
        assert Count(table, p, k) > 0;
        VotedInBounds(cs, len, p, k);
      }
      if p in spec {
        ColumnNonEmpty(cs, len, p);
        var k: nat :| k < |cs| && Votes(cs, len, p, k) > 0;
        assert Count(table, p, k) > 0;
      }
    }
    forall p: nat | p in table
      ensures table[p] == spec[p]
    {
      assert spec[p] == VoteColumn(cs, len, p);
      forall k: nat
        ensures k in table[p] <==> k in spec[p]
      {
        assert Count(table, p, k) == Votes(cs, len, p, k);
        if k in table[p] {
          assert p in table;
          assert k < |cs|;
          assert Votes(cs, len, p, k) > 0;
          assert k in VoteColumn(cs, len, p);
        }
        if k in spec[p] {
          assert k in table[p];
        }
      }
      assert table[p].Keys == spec[p].Keys;
      forall k | k in table[p] ensures table[p][k] == spec[p][k] {
        assert Count(table, p, k) == Votes(cs, len, p, k);
      }
    }
  }
}
