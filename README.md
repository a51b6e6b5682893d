# Many-time-pad key recovery

This project models the key recovery of `src/bin/week1.rs`. Several
ciphertexts were encrypted with one stream-cipher keystream. XORing two
ciphertexts cancels the key and leaves the XOR of the two plaintexts. When
that XOR is a letter, one of the two plaintext bytes was probably a space.
The program runs in four stages:

1. **Vote table.** Every unordered pair `(i, j)`, `i < j`, is compared at
   each position `p` below the shorter of the two lengths and the target's
   length. If `c_i[p] ^ c_j[p]` is Latin-1 alphabetic or zero, the pair is
   flagged. A flag adds one vote for `i` and one for `j` at `p`.
2. **Resolution.** At each position of the table, take the highest count.
   Keep the ciphertexts that reach it and tally their bytes at `p`. Pick a
   most frequent byte.
3. **Key assembly.** Start from a zero key of the target's length. Each
   resolved byte XOR a space becomes the key byte at its position.
4. **Decoding.** XOR the target, the last ciphertext, with the key.

Modules:

- `Collision`: the flag test (`char::from(x).is_alphabetic() || x == 0`),
  with the Latin-1 alphabetic set written out.
- `VoteCounting`: what the table holds, defined without the loop, and its
  properties.
- `Analyzer`: `BuildTable`, the nested loop over pairs and positions that
  updates a `map<nat, map<nat, nat>>`. It is proved equal to the vote table.
- `Resolver`: `ResolvePosition` with its max, filter, tally and `max_by`
  steps, specified by `IsResolution`.
- `KeyAssembly`: `AssembleKey`, the loop that writes a zero-filled key array.
- `Decoder`: the XOR decode.
- `Recovery`: the whole pipeline, and a worked example.

Rust's `HashMap` iteration order is random on every run. The loops over
the table, over a column and over the tally therefore visit their entries
in an arbitrary order. The model expresses that order with `:|` choices, and
the contracts only promise "some maximal element". For this reason the
resolution steps are methods rather than functions. An order-independent
key is proved only when no tie remains.

Worked example. Take the key `[0x05, 0x3A, 0x99]`, the plaintexts "AB " and
"C D", and the target "EFG". The example ciphertexts are `[0x44, 0x78, 0xB9]`,
`[0x46, 0x1A, 0xDD]` and `[0x40, 0x7C, 0xDE]`.

- Position 0 is never flagged, so key byte 0 stays 0.
- At position 1, pairs (0, 1) and (1, 2) are flagged. The votes are
  {0: 1, 1: 2, 2: 1}.
- At position 2, pairs (0, 1) and (0, 2) are flagged, because
  `0xB9 ^ 0xDD = 0x64` ('d') and `0xB9 ^ 0xDE = 0x67` ('g'). The votes are
  {0: 2, 1: 1, 2: 1}.

Position 2 has the single leader 0, so the true key byte 0x99 is
recovered. Whatever the iteration order, the key is `[0x00, 0x3A, 0x99]` and the target decodes to "@FG".

## Model

| member | source | states |
|---|---|---|
| Collision.FlaggedSymmetric | src/bin/week1.rs:30-41 | Whether a pair is flagged at a position does not depend on the order of the two ciphertexts. |
| Collision.AlphabeticWiderThanAscii | src/bin/week1.rs:41 | `is_alphabetic` on a Latin-1 byte accepts every ASCII letter, and also accepts bytes that are not ASCII letters, such as 0xE9. |
| Collision.SpaceCollisionDetected | src/bin/week1.rs:37-41 | If one plaintext byte is a space and the other is an ASCII letter or a space, the two ciphertext bytes under any shared key byte are flagged, in either order. |
| Collision.EqualBytesFlagged | src/bin/week1.rs:40-41 | Any two equal plaintext bytes under the same key byte are flagged, not only two spaces. |
| VoteCounting.VotesArePartners | src/bin/week1.rs:30-46 | The count for `k` at `p` equals the number of other ciphertexts whose pair with `k` is flagged at `p`. Each unordered pair is visited once. |
| VoteCounting.VoteBounds | src/bin/week1.rs:30-46 | A count is at most `n - 1`. It is positive if and only if some pair involving `k` is flagged at `p`. |
| VoteCounting.VotedInBounds | src/bin/week1.rs:36-45 | A vote for `k` at `p` implies `p < target_len` and `p` below the length of `c_k`. Some pair is then flagged at `p`. |
| VoteCounting.ColumnNonEmpty | src/bin/week1.rs:43-45 | A position where some pair is flagged has a non-empty inner map. |
| VoteCounting.VoteTableShape | src/bin/week1.rs:28-48 | Every position of the table is below the target length. Its inner map is non-empty. Every index in it can be read at that position. Every count lies between 1 and `n - 1`, so the `u64` counts cannot overflow. |
| VoteCounting.TotalVotesEven | src/bin/week1.rs:43-45 | The counts at a position add up to twice the number of flagged pairs there, so the total is even. |
| Analyzer.Bump | src/bin/week1.rs:43-45 | `entry(p).or_default().entry(k).or_default() += 1` adds `p` and `k` as keys if missing. It raises the count of `(p, k)` by one and leaves every other count and column unchanged. |
| Analyzer.BumpWellFormed | src/bin/week1.rs:43-45 | A vote for an index readable at a position inside the window keeps the table well formed. |
| Analyzer.VisitStep | src/bin/week1.rs:36-46 | Visiting one position of one pair adds that position's votes to the running counts and nothing else. |
| Analyzer.BuildTable | src/bin/week1.rs:28-48 | The nested loop builds exactly the vote table. The table is well formed, and a position is present if and only if it is below the target length and some pair is flagged there. |
| Analyzer.TableMatchesVotes | src/bin/week1.rs:28-48 | A well-formed table whose counts are the vote counts is the vote table. |
| Resolver.MaxOf | src/bin/week1.rs:58 | The maximum of a non-empty set of counts belongs to the set and bounds every element. |
| Resolver.TopCount | src/bin/week1.rs:58 | `values().max().unwrap()` on a non-empty column returns one of its counts, and no count exceeds it. |
| Resolver.TallyLeaders | src/bin/week1.rs:61-68 | For each byte, the tally holds the number of top-count ciphertexts that have that byte at `p`. It holds exactly the bytes that occur. |
| Resolver.TallyAdd | src/bin/week1.rs:65-67 | Folding one more ciphertext into the tally keeps it the exact tally of the larger set. |
| Resolver.OccurrencesAdd | src/bin/week1.rs:65-67 | Adding a ciphertext to a set raises the occurrence count of its own byte by one and no other. |
| Resolver.LeadersTallied | src/bin/week1.rs:58-74 | The tally of the top-count ciphertexts is non-empty, so the `unwrap` of line 74 cannot fail. |
| Resolver.MostFrequent | src/bin/week1.rs:71-74 | `max_by` on counts returns an entry of the tally whose count is at least every other count. |
| Resolver.TallyMaxIsResolution | src/bin/week1.rs:61-74 | A most frequent tally entry is a valid resolution of the position. |
| Resolver.ResolvePosition | src/bin/week1.rs:58-76 | The chosen byte is the byte at `p` of some ciphertext with the top count. Among those ciphertexts, no byte occurs more often. |
| Resolver.OccurrenceWitness | src/bin/week1.rs:64-68 | A byte with a positive tally is held by some ciphertext of the set. |
| Resolver.OccurrencesSameColumn | src/bin/week1.rs:61-68 | The tally depends only on the bytes at position `p` of the ciphertexts in the set. |
| Resolver.ResolutionIsLocal | src/bin/week1.rs:52-82 | The bytes that may be chosen at `p` depend only on the column at `p` and on the ciphertext bytes at `p`. |
| Resolver.ResolutionUpToTies | src/bin/week1.rs:71-74 | Two possible picks at a position occur equally often among the leaders. A byte that occurs strictly more often than every other is the only possible pick. |
| Resolver.StrictModeForcesResolution | src/bin/week1.rs:71-74 | When a strict most-frequent byte exists among the leaders, any two resolutions coincide. |
| KeyAssembly.AssembleKey | src/bin/week1.rs:50-82 | The key has the target's length. Positions absent from the table keep 0. Every present position holds a resolution of its column XOR 0x20, whatever order the positions are visited in. |
| KeyAssembly.AssembledByteIsTrueKey | src/bin/week1.rs:78-81 | Suppose every top-voted ciphertext at a position of the table holds a space encrypted under a key byte. Then the assembled key holds that key byte there, whichever ciphertext was picked. |
| KeyAssembly.AssembledKeyDeterminedWithoutTies | src/bin/week1.rs:52-82 | When every position has a strict most-frequent byte among its leaders, all keys the loop can produce are equal, so iteration order does not matter. |
| Decoder.Decode | src/bin/week1.rs:89-93 | The result has the length of the shorter of target and key. Each decoded byte XOR the key byte is the target byte. |
| Decoder.DecodeInvolutive | src/bin/week1.rs:89-93 | Decoding twice with the same key gives the target back. |
| Decoder.ZeroKeyByteKeepsTarget | src/bin/week1.rs:89-93 | A zero key byte leaves the target byte unchanged. |
| Decoder.DecodeRecoversPlaintext | src/bin/week1.rs:89-93 | Where the recovered key byte equals the true key byte, the decoded byte is the plaintext byte. |
| Recovery.RecoverKey | src/bin/week1.rs:24-93 | Given at least one ciphertext, the key is an assembled key for the vote table over the last ciphertext's length. The decoded text has the target's length, and each decoded byte XOR the key byte is the target byte. |
| Recovery.SpaceLeadersDecodeToPlaintext | src/bin/week1.rs:78-93 | At a table position where every top-voted ciphertext holds an encrypted space, the target decodes to its plaintext byte. |
| Recovery.ExampleFlags | src/bin/week1.rs:36-41 | In the worked example, the flagged pairs are none at position 0, (0, 1) and (1, 2) at position 1, and (0, 1) and (0, 2) at position 2. |
| Recovery.ExampleVotes | src/bin/week1.rs:43-45 | The example's counts are 0 at position 0, {0: 1, 1: 2, 2: 1} at position 1 and {0: 2, 1: 1, 2: 1} at position 2. |
| Recovery.ExampleTable | src/bin/week1.rs:28-48 | The example's table has exactly positions 1 and 2, with those inner maps. |
| Recovery.ExamplePicks | src/bin/week1.rs:58-76 | In the example, the only possible picks are 0x1A at position 1 and 0xB9 at position 2. |
| Recovery.ExampleKey | src/bin/week1.rs:50-82 | Every key the example can produce is `[0x00, 0x3A, 0x99]`. |
| Recovery.ExampleKeyByte1 | src/bin/week1.rs:78-81 | In the example, the only leader at position 1 holds an encrypted space, so key byte 1 is the true 0x3A. |
| Recovery.ExampleKeyByte2 | src/bin/week1.rs:78-81 | In the example, the only leader at position 2 holds an encrypted space, so key byte 2 is the true 0x99. |
| Recovery.ExampleRecovery | src/bin/week1.rs:89-93 | The example's target decodes to "@FG". |

## Left out

- Reading the command-line argument and the file, skipping `#` lines and
  hex-decoding each line (`src/bin/week1.rs:13-22`) are I/O and an external
  crate. The model takes the ciphertexts as a `seq<seq<bv8>>`. The `unwrap`
  of line 25 becomes the requirement that there is at least one ciphertext.
- All `println!` output and the `tap` calls are output only.
- `hex::encode` of the key (line 84) is a foreign library call.
- The decoded `String` (line 92) is modelled as bytes. Each byte is one
  Latin-1 `char`.
- The concrete `HashMap` iteration order is not modelled. It is random, so
  each loop over a map visits its entries in an arbitrary order.
- Counts are unbounded `nat`s instead of `u64`. `VoteCounting.VoteTableShape`
  bounds them by `n - 1`, so no overflow can occur.
- KeyAssembly.AssembleKey: says only that the key is some key the loop can
  produce. The key is a single definite key only when no position has a
  tie; `KeyAssembly.AssembledKeyDeterminedWithoutTies` proves that.
