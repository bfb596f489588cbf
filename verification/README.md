# Byte-pair encoding trainer, decoder and sampler in Dafny

This project models the two byte-pair-encoding (BPE) trainers of a small Rust
program and proves what they compute. The trainers are `main.rs` (incremental)
and `slowBep.rs` (reference).

Training starts from a table of 256 byte leaves and the input bytes as tokens.
Each round picks the most frequent adjacent pair of tokens (ties go to the
smallest left id). It appends that pair to the table as a new token and
replaces every greedy, left-to-right, non-overlapping occurrence of the pair by
the new token's id. Training stops when no pair occurs twice.

- The reference trainer (`slowBep.rs`) recounts all adjacent pairs on every
  round.
- The incremental trainer (`main.rs`) counts once. Its `tokenize_fast` then
  edits only the boundaries each replacement touches.
- A decoder (`render_text`) expands a token back into bytes.
- A sampler walks the table from a random token, printing up to 100 tokens.

Modules, one per concern:

- `BpeTypes` (types.dfy): `Pair`, table entries (`Rule`, where a leaf's right
  child is `None`), and bytes.
- `PairCounts` (counts.dfy): the pair-count index and the full recount.
- `Merge` (merge.dfy): the greedy replacement `Merged` as a function, the
  reference `tokenize` proved against it, and the length, identity,
  self-pair-run and round-trip lemmas.
- `FastMerge` (fast_merge.dfy): `tokenize_fast`, with the index edits proved to
  turn the input's exact counts into the output's.
- `Vocabulary` (vocabulary.dfy): table seeding, the table invariant, and
  decoding.
- `Selection` (selection.dfy): `max_pair_freq`.
- `Training` (training.dfy): both training loops.
- `Generator` (generator.dfy): the sampler.

Rust functions that take `&mut` parameters become methods that return the
updated value. The sentinels `u32::MAX` (main.rs) and `555` (slowBep.rs) mark a
leaf's missing right child, so they become `None`.

The two merges are tied together through their contracts.
- Both `Merge.Tokenize` and `FastMerge.TokenizeFast` ensure the same
  `Merged(...)` output.
- `FastMerge.TokenizeFast` also ensures that a consistent index stays
  consistent.
- `PairCounts.ConsistentIsCountsOf` shows that a consistent index is exactly
  the recount that `slowBep.rs` builds.

So given the same selected pair, the incremental and the reference trainer
take the same step.

## Model

| member | source | states |
|---|---|---|
| PairCounts.CountsOf | slowBep.rs:93-100 | the rebuilt index gives every adjacent pair its number of occurrences, holds no zero entry, and has exactly the occurring pairs as keys |
| PairCounts.CountTokenPairs | main.rs:145-152 | the single scan that seeds the incremental trainer's index (and the identical per-round rebuild at slowBep.rs:93-100) yields exactly the full recount of the tokens |
| PairCounts.ConsistentIsCountsOf | slowBep.rs:93-100 | a positive index that agrees with the occurrence counts pair by pair is the same map as the full recount, in both directions |
| PairCounts.Decrement | main.rs:43-49 | decrementing a count (when the key is present) keeps the index free of zero entries, because an entry reaching 0 is removed |
| PairCounts.DecrementCounts | main.rs:43-49 | a decrement lowers only the given pair's count, by one and only if it is present; every other count is unchanged |
| PairCounts.Increment | main.rs:51 | `entry(..).or_insert(0) += 1` keeps the index free of zero entries |
| PairCounts.IncrementCounts | main.rs:51 | an increment raises only the given pair's count, by one, inserting it at 1 when absent |
| Merge.Tokenize | slowBep.rs:30-51 | the output is the greedy, left-to-right, non-overlapping replacement of the pair by the newest id `pairs.len()-1`; all other tokens are copied in order; the table is read, not changed |
| Merge.MergedLength | slowBep.rs:34-49 | the output length is the input length minus the number of matches |
| Merge.MatchesBound | slowBep.rs:36-38 | each match consumes two positions, so at most half the positions match |
| Merge.MatchesIffOccurs | slowBep.rs:36-47 | the scan matches at least once exactly when the pair occurs, and never more often than the pair occurs |
| Merge.MergedAbsent | slowBep.rs:36-47 | when the pair never occurs the output equals the input |
| Merge.MergedShrinks | main.rs:59-60 | when the pair occurs the output is strictly shorter than the input |
| Merge.TwiceLeavesTwo | main.rs:159 | if the merged pair occurs at least twice, at least two tokens remain, so the index stays non-empty and the lookup of the selected pair cannot miss |
| Merge.ExpandMerged | main.rs:59 | when the new id is unused in the input, writing it back as its pair restores the input exactly |
| Merge.MergedTokens | slowBep.rs:37-46 | every output token is an input token or the new id |
| Merge.SelfPairRun | slowBep.rs:36-38 | a run of 2k copies of `a` merged on (a, a) becomes k new ids; a run of 2k+1 becomes k new ids followed by one `a`; no token is used twice |
| FastMerge.LeftBoundaryMoved | main.rs:40-52 | moving the boundary before a match onto the new id takes one occurrence from (prev, l) and gives one to (prev, T) |
| FastMerge.PairConsumed | main.rs:53-58 | consuming the match takes one occurrence from the merged pair |
| FastMerge.RightBoundaryMoved | main.rs:62-73 | moving the boundary after a match onto the new id takes one occurrence from (r, next) and gives one to (T, next); the result is the exact index of the rewritten sequence |
| FastMerge.MergeStepKeepsCounts | main.rs:39-73 | the three edits of one replacement turn the exact index of the sequence before it into the exact index of the sequence after it |
| FastMerge.TokenizeFast | main.rs:32-86 | the output equals the reference merge's; the index never holds a zero entry; if it held exactly the input's pair counts it afterwards holds exactly the output's |
| Vocabulary.SeedVocabulary | main.rs:132-138 | the seeded table has 256 entries, entry i is the leaf for byte i, and the table satisfies the trainer's invariant |
| Vocabulary.AppendKeepsValid | main.rs:25-27 | appending a merge of two existing ids keeps every entry at index 256 or above referring to two smaller ids |
| Vocabulary.Render | main.rs:88-103 | decoding a token gives a non-empty byte string exactly when the token is in the table |
| Vocabulary.RenderText | main.rs:88-103 | `render_text` appends to the text exactly the decoding of the token: a leaf's own byte, a merge's left then right expansion, nothing for an unknown id |
| Vocabulary.RenderSeed | main.rs:133-143 | decoding the initial tokens with the seeded table gives back the input bytes |
| Vocabulary.RenderExtend | main.rs:26 | appending an entry does not change how an existing token decodes |
| Vocabulary.RenderAllExtend | main.rs:26 | appending an entry does not change how a sequence of existing tokens decodes |
| Vocabulary.RenderAllMerged | main.rs:88-103 | when the new entry is the merged pair, decoding the merged sequence gives the same bytes as decoding the input |
| Selection.MaxPairFreq | main.rs:13-29 | the result has the highest count, and among equal counts the smallest left id; `(0, 0)` on an empty index; the pair is appended to the table exactly when its count is above 1, otherwise the table is unchanged; slowBep.rs:12-28 is the same function |
| Training.CountsNonEmpty | main.rs:159 | the index of two or more tokens is not empty |
| Training.InitialState | main.rs:140-143 | the byte sequence and the seeded table start the loop in its invariant |
| Training.MergeKeepsState | main.rs:158-170 | one round grows the table by exactly one valid entry, uses that entry's index as the merge token, strictly shortens the tokens, and keeps the decoding equal to the input |
| Training.BestOneConverged | main.rs:159 | when the selected count is 1, no adjacent pair occurs twice |
| Training.TrainFast | main.rs:132-177 | the loop ends with no repeated pair; the table is valid with one entry per round; the tokens decode to the input; tokens plus rounds never exceed the input length; no round happens exactly when the input already has no repeated pair |
| Training.TrainSlow | slowBep.rs:79-114 | the same guarantees for the reference loop, which recounts the index every round |
| Generator.CandidatesExactly | main.rs:199-203 | x is a candidate of a token exactly when the table holds an entry whose left child is the token and whose right child is x |
| Generator.CandidatesInRange | main.rs:199-203 | in a valid table every candidate is an existing id |
| Generator.LeavesNoCandidates | main.rs:199-203 | the 256 byte leaves never contribute a candidate |
| Generator.CollectCandidates | main.rs:199-203 | the for loop appends exactly the candidates of the token, in table order, to the list it is given |
| Generator.Descend | main.rs:204-212 | following right children never increases the id, and it stops at a token that has candidates or is a byte leaf |
| Generator.NextCandidates | main.rs:198-213 | the inner loop terminates; it descends only when the carried-over list is empty, and ends holding that list followed by the candidates of the token it stopped at |
| Generator.Draw | main.rs:218 | the chosen token is an element of the candidate list |
| Generator.Generate | main.rs:186-220 | the printed texts are the decodings of the tokens of the as-written walk, in order |
| Generator.WalkShape | main.rs:189-219 | the sampler prints at least the start token and at most 100 tokens, all of them table ids |
| Generator.LeavesOnlyPrintsStart | main.rs:199-215 | with a table of only byte leaves the sampler prints the start byte once and stops |
| Generator.AccumulatedCandidateBreaksRule | main.rs:188-218 | as written, on a table with merges (97, 98) and (98, 99), starting at 97 with draws 0 and 0, the sampler visits 97, 98, 98 although 98 is not a candidate of 98 |
| Generator.WalkFreshFollowsRules | main.rs:198-218 | with the list cleared each round, every printed token after the first is a candidate of the previous one, and at most 100 table ids are printed |
| Generator.GenerateFresh | main.rs:186-220 | the sampler with the list cleared before each inner loop prints the decodings of the corrected walk |

## Left out

- File reading (main.rs:125-126) and the fixed input string (slowBep.rs:71-75) are I/O and constants. The input bytes are a parameter.
- All printing is left out: `render_tokens`, the progress and compression reports (whose percentages use `f64`), and the out-of-range message in `render_text`. The trainers return their final tokens and table. The sampler returns the list of texts it would print.
- Random numbers are oracle parameters. The sampler's start token is a parameter below the table size. Each draw is a caller-supplied function `choose` of the iteration number, reduced below the list length.
- The `as u8 as char` push in `render_text` (main.rs:91) re-encodes bytes at or above 128 as UTF-8. Texts are modelled as byte sequences instead.
- `IndexMap` iteration order and `swap_remove` reordering are left out. The index is an abstract map, and `max_pair_freq` scans its keys in an arbitrary order.
- Selection.MaxPairFreq: among keys with the same count and the same left id, the one returned depends on insertion order, and the contract leaves it open.
- FastMerge.TokenizeFast: exact counts are promised only for an incoming index that is exact. The trainer always passes one. For any other index the contract says only that no zero entry appears.
- Integer width is not modelled. Ids and counts are unbounded naturals, so the `as u32` casts and `u32` counters cannot overflow in the model. They cannot overflow in the source either for inputs shorter than 2^32 - 256 bytes.
- Training.TrainFast and Training.TrainSlow require at least two input bytes. On shorter inputs the source crashes: `tokens_in.len()-1` underflows on empty input (main.rs:146, slowBep.rs:94), and the index lookup panics on one byte (main.rs:159, slowBep.rs:102).
- Merge.Tokenize and FastMerge.TokenizeFast require a non-empty table. `pairs.len()-1` underflows otherwise, and the trainers always pass at least 256 entries.
- PairCounts.Decrement requires an index with no zero entry, which the trainer always keeps. A stored zero would make the source's `*count -= 1` underflow.
- The sampler's `token == u32::MAX` exit (main.rs:191-193) is not modelled. Every sampled token is a table id, so that exit is never taken.
- The sampler's descent has no branch for a merge entry without a right child (main.rs:209). In a valid table every entry at index 256 or above has one. Without it the source loops forever.

## Findings

| source | as written | input that shows it | evidently intended | confidence | as-written member | corrected member |
|---|---|---|---|---|---|---|
| main.rs:188-218 | `next_tokens` is created once before the outer loop and cleared only on descent, so candidates collected for earlier tokens stay in the list and can be drawn later | table of 256 byte leaves plus (97, 98) and (98, 99); start token 97; first two draws 0: prints "a", "b", "b", although no rule continues 98 with 98 | each draw picks a right child of a rule whose left child is the current token (after descent), so the list is cleared at the start of every outer iteration | medium, not executed | Generator.AccumulatedCandidateBreaksRule | Generator.WalkFreshFollowsRules |
