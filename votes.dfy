/** What the vote table of src/bin/week1.rs:28-48 holds, stated without the
    loop: pairs `i < j` are visited in the `tuple_combinations` order, and each
    flagged pair at position `p` adds one vote for `i` and one for `j`. */
module VoteCounting {
  import opened Collision

  /** The vote that the visit of pair `(i, j)` at position `p` adds for
      ciphertext `k` (lines 43-45). */
  function Hit(cs: seq<seq<bv8>>, len: nat, i: nat, j: nat, p: nat, k: nat): nat {
    if (k == i || k == j) && Flagged(cs, len, i, j, p) then 1 else 0
  }

  /** Votes for `k` at `p` from the pairs `(i, j)` with `i < j < hi`. */
  function RowVotes(cs: seq<seq<bv8>>, len: nat, i: nat, hi: nat, p: nat, k: nat): nat
    decreases hi
  {
    if hi <= i + 1 then 0
    else RowVotes(cs, len, i, hi - 1, p, k) + Hit(cs, len, i, hi - 1, p, k)
  }

  /** Votes for `k` at `p` from every pair whose first index is below `m`. */
  function PrefixVotes(cs: seq<seq<bv8>>, len: nat, m: nat, p: nat, k: nat): nat {
    if m == 0 then 0
    else PrefixVotes(cs, len, m - 1, p, k) + RowVotes(cs, len, m - 1, |cs|, p, k)
  }

  /** `table[p][k]` once every pair has been visited (0 when absent). */
  function Votes(cs: seq<seq<bv8>>, len: nat, p: nat, k: nat): nat {
    PrefixVotes(cs, len, |cs|, p, k)
  }

  /** The number of partners `j < m`, `j != k`, whose pair with `k` is flagged
      at `p`: the meaning of a vote count. */
  function Partners(cs: seq<seq<bv8>>, len: nat, p: nat, k: nat, m: nat): nat {
    if m == 0 then 0
    else Partners(cs, len, p, k, m - 1) + (if m - 1 != k && Flagged(cs, len, k, m - 1, p) then 1 else 0)
  }

  /** Some pair of ciphertexts is flagged at `p`. */
  predicate AnyFlagged(cs: seq<seq<bv8>>, len: nat, p: nat) {
    exists i: nat, j: nat :: i < j < |cs| && Flagged(cs, len, i, j, p)
  }

  /** The inner map of the table at `p`: every ciphertext with a vote there. */
  function VoteColumn(cs: seq<seq<bv8>>, len: nat, p: nat): map<nat, nat> {
    map k: nat | k < |cs| && Votes(cs, len, p, k) > 0 :: Votes(cs, len, p, k)
  }

  /** The whole table: the positions below `len` where some pair is flagged. */
  function VoteTable(cs: seq<seq<bv8>>, len: nat): map<nat, map<nat, nat>> {
    map p: nat | p < len && AnyFlagged(cs, len, p) :: VoteColumn(cs, len, p)
  }

  /** What the resolver relies on when it reads a column of the table: the
      column is non-empty (the `unwrap` of line 58), every index in it is a
      ciphertext long enough to be read at `p` (the indexing of line 64),
      every count is positive. */
  predicate ReadableColumn(cs: seq<seq<bv8>>, p: nat, column: map<nat, nat>) {
    && column != map[]
    && forall k: nat :: k in column ==> HasByte(cs, k, p) && column[k] > 0
  }

  /** Ciphertext `k` exists and has a byte at position `p`. */
  predicate HasByte(cs: seq<seq<bv8>>, k: nat, p: nat) {
    k < |cs| && p < |cs[k]|
  }

  /** Every position of the table is inside the window (the indexing of
      `key` at line 81) and has a readable column. */
  predicate WellFormed(cs: seq<seq<bv8>>, len: nat, table: map<nat, map<nat, nat>>) {
    forall p: nat :: p in table ==> p < len && ReadableColumn(cs, p, table[p])
  }

  // ---- vote counts are partner counts ----

  lemma {:induction false} RowVotesBefore(cs: seq<seq<bv8>>, len: nat, i: nat, hi: nat, p: nat, k: nat)
    requires i < k
    ensures RowVotes(cs, len, i, hi, p, k) == if k < hi && Flagged(cs, len, i, k, p) then 1 else 0
    decreases hi
  {
    if hi > i + 1 {
      RowVotesBefore(cs, len, i, hi - 1, p, k);
    }
  }

  lemma {:induction false} RowVotesAfter(cs: seq<seq<bv8>>, len: nat, i: nat, hi: nat, p: nat, k: nat)
    requires k < i
    ensures RowVotes(cs, len, i, hi, p, k) == 0
    decreases hi
  {
    if hi > i + 1 {
      RowVotesAfter(cs, len, i, hi - 1, p, k);
    }
  }

  lemma {:induction false} RowVotesAt(cs: seq<seq<bv8>>, len: nat, hi: nat, p: nat, k: nat)
    requires k < hi
    ensures RowVotes(cs, len, k, hi, p, k) + Partners(cs, len, p, k, k + 1) == Partners(cs, len, p, k, hi)
    decreases hi
  {
    if hi > k + 1 {
      RowVotesAt(cs, len, hi - 1, p, k);
    }
  }

  lemma {:induction false} PrefixVotesBelow(cs: seq<seq<bv8>>, len: nat, m: nat, p: nat, k: nat)
    requires m <= k < |cs|
    ensures PrefixVotes(cs, len, m, p, k) == Partners(cs, len, p, k, m)
  {
    if m > 0 {
      PrefixVotesBelow(cs, len, m - 1, p, k);
      RowVotesBefore(cs, len, m - 1, |cs|, p, k);
      FlaggedSymmetric(cs, len, m - 1, k, p);
    }
  }

  lemma {:induction false} PrefixVotesAbove(cs: seq<seq<bv8>>, len: nat, m: nat, p: nat, k: nat)
    requires k < m <= |cs|
    ensures PrefixVotes(cs, len, m, p, k) == Partners(cs, len, p, k, |cs|)
  {
    if m == k + 1 {
      PrefixVotesBelow(cs, len, k, p, k);
      RowVotesAt(cs, len, |cs|, p, k);
    } else {
      PrefixVotesAbove(cs, len, m - 1, p, k);
      RowVotesAfter(cs, len, m - 1, |cs|, p, k);
    }
  }

  /** Lines 30-34 visit each unordered pair once, so `table[p][k]` counts the
      other ciphertexts whose pair with `k` is flagged at `p`. */
  lemma VotesArePartners(cs: seq<seq<bv8>>, len: nat, p: nat, k: nat)
    requires k < |cs|
    ensures Votes(cs, len, p, k) == Partners(cs, len, p, k, |cs|)
  {
    PrefixVotesAbove(cs, len, |cs|, p, k);
  }

  lemma {:induction false} PartnersBound(cs: seq<seq<bv8>>, len: nat, p: nat, k: nat, m: nat)
    ensures Partners(cs, len, p, k, m) + (if k < m then 1 else 0) <= m
  {
    if m > 0 {
      PartnersBound(cs, len, p, k, m - 1);
    }
  }

  lemma {:induction false} PartnersPositive(cs: seq<seq<bv8>>, len: nat, p: nat, k: nat, m: nat)
    ensures Partners(cs, len, p, k, m) > 0 <==> exists j: nat :: j < m && j != k && Flagged(cs, len, k, j, p)
  {
    if m > 0 {
      PartnersPositive(cs, len, p, k, m - 1);
    }
  }

  /** A count never exceeds the number of other ciphertexts, and it is
      positive exactly when some pair with `k` is flagged at `p`. */
  lemma VoteBounds(cs: seq<seq<bv8>>, len: nat, p: nat, k: nat)
    requires k < |cs|
    ensures Votes(cs, len, p, k) <= |cs| - 1
    ensures Votes(cs, len, p, k) > 0 <==> exists j: nat :: j < |cs| && j != k && Flagged(cs, len, k, j, p)
  {
    VotesArePartners(cs, len, p, k);
    PartnersBound(cs, len, p, k, |cs|);
    PartnersPositive(cs, len, p, k, |cs|);
  }

  /** A vote for `k` at `p` implies that `p` lies inside the window and inside
      ciphertext `k`, so indexing `cs[k][p]` at line 64 is safe. */
  lemma VotedInBounds(cs: seq<seq<bv8>>, len: nat, p: nat, k: nat)
    requires k < |cs| && Votes(cs, len, p, k) > 0
    ensures p < len && p < |cs[k]|
    ensures AnyFlagged(cs, len, p)
  {
    VoteBounds(cs, len, p, k);
    var j: nat :| j < |cs| && j != k && Flagged(cs, len, k, j, p);
    FlaggedSymmetric(cs, len, k, j, p);
    if k < j {
      assert Flagged(cs, len, k, j, p);
    } else {
      assert Flagged(cs, len, j, k, p);
    }
  }

  /** A position is in the table exactly when some ciphertext has a vote there;
      its inner map is then non-empty, so the `unwrap` of line 58 cannot fail. */
  lemma ColumnNonEmpty(cs: seq<seq<bv8>>, len: nat, p: nat)
    requires AnyFlagged(cs, len, p)
    ensures VoteColumn(cs, len, p) != map[]
    ensures exists k: nat :: k < |cs| && Votes(cs, len, p, k) > 0
  {
    var i: nat, j: nat :| i < j < |cs| && Flagged(cs, len, i, j, p);
    VoteBounds(cs, len, p, i);
    assert i in VoteColumn(cs, len, p);
  }

  /** The table is well formed and every count lies between 1 and
      `|cs| - 1`, so the `u64` counts of the source never overflow. */
  lemma VoteTableShape(cs: seq<seq<bv8>>, len: nat)
    ensures WellFormed(cs, len, VoteTable(cs, len))
    ensures forall p: nat, k: nat :: p in VoteTable(cs, len) && k in VoteTable(cs, len)[p] ==>
      VoteTable(cs, len)[p][k] <= |cs| - 1
  {
    var table := VoteTable(cs, len);
    forall p: nat | p in table
      ensures p < len && ReadableColumn(cs, p, table[p])
    {
      ColumnNonEmpty(cs, len, p);
      forall k: nat | k in table[p]
        ensures HasByte(cs, k, p) && table[p][k] > 0
      {
        VotedInBounds(cs, len, p, k);
      }
    }
    forall p: nat, k: nat | p in table && k in table[p]
      ensures table[p][k] <= |cs| - 1
    {
      VoteBounds(cs, len, p, k);
    }
  }

  // ---- the votes at a position sum to twice the flagged pairs ----

  /** Flagged pairs `(i, j)` with `i < j < hi`. */
  function RowPairs(cs: seq<seq<bv8>>, len: nat, i: nat, hi: nat, p: nat): nat
    decreases hi
  {
    if hi <= i + 1 then 0
    else RowPairs(cs, len, i, hi - 1, p) + (if Flagged(cs, len, i, hi - 1, p) then 1 else 0)
  }

  /** Flagged pairs at `p` whose first index is below `m`. */
  function FlaggedPairs(cs: seq<seq<bv8>>, len: nat, m: nat, p: nat): nat {
    if m == 0 then 0 else FlaggedPairs(cs, len, m - 1, p) + RowPairs(cs, len, m - 1, |cs|, p)
  }

  function HitTotal(cs: seq<seq<bv8>>, len: nat, i: nat, j: nat, p: nat, n: nat): nat {
    if n == 0 then 0 else HitTotal(cs, len, i, j, p, n - 1) + Hit(cs, len, i, j, p, n - 1)
  }

  function RowTotal(cs: seq<seq<bv8>>, len: nat, i: nat, hi: nat, p: nat, n: nat): nat {
    if n == 0 then 0 else RowTotal(cs, len, i, hi, p, n - 1) + RowVotes(cs, len, i, hi, p, n - 1)
  }

  function PrefixTotal(cs: seq<seq<bv8>>, len: nat, m: nat, p: nat, n: nat): nat {
    if n == 0 then 0 else PrefixTotal(cs, len, m, p, n - 1) + PrefixVotes(cs, len, m, p, n - 1)
  }

  /** The sum of the counts at `p` over all ciphertexts. */
  function TotalVotes(cs: seq<seq<bv8>>, len: nat, p: nat): nat {
    PrefixTotal(cs, len, |cs|, p, |cs|)
  }

  lemma {:induction false} HitTotalPair(cs: seq<seq<bv8>>, len: nat, i: nat, j: nat, p: nat, n: nat)
    requires i < j
    ensures HitTotal(cs, len, i, j, p, n) ==
      if Flagged(cs, len, i, j, p) then (if i < n then 1 else 0) + (if j < n then 1 else 0) else 0
  {
    if n > 0 {
      HitTotalPair(cs, len, i, j, p, n - 1);
    }
  }

  lemma {:induction false} RowTotalStep(cs: seq<seq<bv8>>, len: nat, i: nat, hi: nat, p: nat, n: nat)
    requires hi > i
    ensures RowTotal(cs, len, i, hi + 1, p, n) == RowTotal(cs, len, i, hi, p, n) + HitTotal(cs, len, i, hi, p, n)
  {
    if n > 0 {
      RowTotalStep(cs, len, i, hi, p, n - 1);
    }
  }

  lemma {:induction false} RowTotalEmpty(cs: seq<seq<bv8>>, len: nat, i: nat, hi: nat, p: nat, n: nat)
    requires hi <= i + 1
    ensures RowTotal(cs, len, i, hi, p, n) == 0
  {
    if n > 0 {
      RowTotalEmpty(cs, len, i, hi, p, n - 1);
    }
  }

  lemma {:induction false} RowTotalTwice(cs: seq<seq<bv8>>, len: nat, i: nat, hi: nat, p: nat)
    requires hi <= |cs|
    ensures RowTotal(cs, len, i, hi, p, |cs|) == 2 * RowPairs(cs, len, i, hi, p)
    decreases hi
  {
    if hi <= i + 1 {
      RowTotalEmpty(cs, len, i, hi, p, |cs|);
    } else {
      RowTotalTwice(cs, len, i, hi - 1, p);
      RowTotalStep(cs, len, i, hi - 1, p, |cs|);
      HitTotalPair(cs, len, i, hi - 1, p, |cs|);
      if Flagged(cs, len, i, hi - 1, p) {
        assert i < |cs|;
      }
    }
  }

  lemma {:induction false} PrefixTotalStep(cs: seq<seq<bv8>>, len: nat, m: nat, p: nat, n: nat)
    ensures PrefixTotal(cs, len, m + 1, p, n) == PrefixTotal(cs, len, m, p, n) + RowTotal(cs, len, m, |cs|, p, n)
  {
    if n > 0 {
      PrefixTotalStep(cs, len, m, p, n - 1);
    }
  }

  lemma {:induction false} PrefixTotalZero(cs: seq<seq<bv8>>, len: nat, p: nat, n: nat)
    ensures PrefixTotal(cs, len, 0, p, n) == 0
  {
    if n > 0 {
      PrefixTotalZero(cs, len, p, n - 1);
    }
  }

  lemma {:induction false} PrefixTotalTwice(cs: seq<seq<bv8>>, len: nat, m: nat, p: nat)
    ensures PrefixTotal(cs, len, m, p, |cs|) == 2 * FlaggedPairs(cs, len, m, p)
  {
    if m == 0 {
      PrefixTotalZero(cs, len, p, |cs|);
    } else {
      PrefixTotalTwice(cs, len, m - 1, p);
      PrefixTotalStep(cs, len, m - 1, p, |cs|);
      RowTotalTwice(cs, len, m - 1, |cs|, p);
    }
  }

  /** Every flagged pair adds exactly one vote to each side (lines 43-45), so
      the counts at a position add up to twice the flagged pairs there, an
      even number. */
  lemma TotalVotesEven(cs: seq<seq<bv8>>, len: nat, p: nat)
    ensures TotalVotes(cs, len, p) == 2 * FlaggedPairs(cs, len, |cs|, p)
    ensures TotalVotes(cs, len, p) % 2 == 0
  {
    PrefixTotalTwice(cs, len, |cs|, p);
  }
}
