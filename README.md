# Wordle feedback and solver core, in Dafny

This project models the core of a Wordle solver written in Rust. That core has three parts. The first is the feedback mask a guess earns against a hidden answer (green Correct, yellow Misplaced, gray Wrong), with Wordle's duplicate-letter rule. The second is the fast consistency check, which decides whether a candidate word could have produced an observed mask without building the candidate's mask. The third is the solver's turn: narrow the weighted candidate list by the newest observation, open with "tares" on the first turn, and otherwise pick the first candidate of least expected score.

Modules, one per component:

- `Wordle` (`wordle.dfy`): bytes, words, `Correctness`, `Mask`. It holds `Feedback`, a declarative statement of the duplicate-letter rule, and `Compute`, the source's two-pass algorithm over a 5-slot mask array and a 26-slot tally array, proved to produce `Feedback`. Lemmas state what the rule means: all green on the word itself; green exactly where the letters agree; no double credit. For every letter, the green and yellow positions holding it number the smaller of its occurrences in the answer and in the guess.
- `Consistency` (`consistency.dfy`): the `Guess` record, `IsMisplaced`, which mutates a `used` array in place, and `Matches`. `Matches` is proved to answer exactly whether `Feedback(word, guess) == mask`, for all 5-byte words and all masks. That equivalence is the claim in the source's own comment.
- `Packing` (`packing.dfy`): `PackedCorrectness`, the base-3 fold stored plus one in a non-zero byte, with its range, the round trip, injectivity and surjectivity onto 0..242.
- `Solver` (`solver.dfy`): the `Solver` class, whose `remaining` field `Guess` narrows in place. It also holds the in-place insertion sort used by the constructor, the `totals` pattern partition, and the first-minimum selection loop.

Rust panics are modelled as preconditions. These are: the length-5 assertions of `compute` and `matches`; the tally indexing of `compute`, which needs lowercase letters wherever the two words differ; and `best.unwrap()` on an empty candidate list. The floating-point parts of the solver are parameters. `prior: (nat, nat) -> real` stands for `sigmoid(count / sum)`. `score: ScoreFn` stands for the expected-score formula, applied to the turn number, the remaining candidates, the word's weight and its 243 pattern totals.

The solver keeps no feedback cache: `compute` is called afresh for every pair of candidates (src/solver.rs:108). It does no rank truncation either: every remaining entry is scored (src/solver.rs:105). The `totals` slots are indexed by `enumerate_mask` (src/solver.rs:108), which is not part of this model; the model uses the `PackedCorrectness` fold (`Packing.Index`) in its place. `Packing.Unfold`, the inverse of the fold, exists only in the model, to prove that the packing is a bijection.

## Model

| member | source | states |
|---|---|---|
| `Wordle.Compute` | src/lib.rs:91-119 | For two 5-byte words that are lowercase wherever they differ, the two-pass tally algorithm returns exactly `Feedback(answer, guess)`: position i is Correct iff the letters agree; otherwise it is Misplaced iff fewer earlier non-matching guess positions hold that letter than non-matching answer positions do, and Wrong otherwise |
| `Wordle.FeedbackOfSelf` | src/lib.rs:100-108 | Any 5-letter word checked against itself is all Correct |
| `Wordle.CorrectExactlyWhenEqual` | src/lib.rs:101-108 | Position i is Correct exactly when `answer[i] == guess[i]`; otherwise it is Misplaced or Wrong |
| `Wordle.DuplicateLetterExamples` | src/lib.rs:98-116 | Duplicate-letter cases: "aaccc" vs "aabbb" is CCWWW, "ccaac" vs "aabbb" is WWMMW, "aacde" vs "abcde" is CWCCC, "bcdea" vs "abcde" is all Misplaced |
| `Wordle.MisplacedIsMin` | src/lib.rs:98-116 | Among positions below n holding letter x, the Misplaced ones number min(answer's unmatched x's, guess's unmatched x's below n). So they never exceed the answer's unmatched count: no double credit |
| `Wordle.CreditIsMinOfOccurrences` | src/lib.rs:98-116 | For every letter, the guess positions holding it that are Correct or Misplaced number exactly min(occurrences in answer, occurrences in guess) |
| `Wordle.OccurrencesSplit` | src/lib.rs:101-107 | Each occurrence of a letter is either matched in place or counted in the unmatched tally of the first pass |
| `Wordle.CorrectIsExact` | src/lib.rs:101-104 | Correct positions holding x are exactly the positions where both words hold x |
| `Consistency.FirstUnused` | src/lib.rs:81-89 | The index `is_misplaced` claims: the first j with `answer[j] == letter && !used[j]`, or none when no such j exists |
| `Consistency.IsMisplaced` | src/lib.rs:81-89 | Returns true iff an unused occurrence of the letter exists; if so, it sets exactly the first such `used[j]` and nothing else; otherwise `used` is unchanged |
| `Consistency.FoundIffUnused` | src/lib.rs:81-89 | `is_misplaced` succeeds exactly when the count of unused occurrences of the letter is positive |
| `Consistency.ClaimCount` | src/lib.rs:83-85 | Claiming one position lowers the unused count of its own letter by one and leaves every other letter's count unchanged |
| `Consistency.UnusedIsUnmatched` | src/lib.rs:164-176 | After the green pass marks exactly the matching positions used, a letter's unused occurrences are its unmatched occurrences in the answer |
| `Consistency.ClaimStep` | src/lib.rs:178-186 | At a yellow-or-gray position, the claim succeeds iff the feedback there is Misplaced, and it keeps the unused counts equal to the still-outstanding tallies |
| `Consistency.Matches` | src/lib.rs:157-190 | `matches(word)` returns exactly whether `Feedback(word, guess.word) == guess.mask`, for all 5-byte words and all masks, including every early-return path |
| `Consistency.RecordTurn` | src/lib.rs:44-50 | The record a driver builds, a guess with the mask `compute` gives against the answer, holds exactly `Feedback(answer, guess)`, and `matches` on the answer against it returns true |
| `Packing.Fold` | src/lib.rs:133-140 | The fold `acc * 3 + digit`, position 0 most significant, is below 3^length; for a mask that is below 243, so the byte accumulator never overflows |
| `Packing.Pack` | src/lib.rs:131-142 | The stored byte is the fold plus one, in 1..243, so `NonZeroU8::new(...).unwrap()` never fails |
| `Packing.Index` | src/lib.rs:122-149 | The pattern index of a mask, `u8::from(PackedCorrectness::from(mask))`, is exactly the fold and lies below `MAX_MASK_ENUM` = 243 |
| `Packing.UnfoldFold` | src/lib.rs:133-140 | Reading the fold's base-3 digits back gives the original symbols |
| `Packing.FoldUnfold` | src/lib.rs:133-140 | Every value below 3^len is the fold of some symbol sequence of that length |
| `Packing.PackInjective` | src/lib.rs:131-142 | Distinct masks pack to distinct values |
| `Packing.IndexSurjective` | src/lib.rs:122-149 | Every index in 0..242 is the index of some mask: the packing is a bijection onto 0..242 |
| `Solver.Filter` | src/solver.rs:74-88 | The narrowed list contains an entry exactly when the old list has it and the last guess `matches` its word; it is never longer |
| `Solver.FilterMultiplicity` | src/solver.rs:74-88 | Narrowing keeps every copy of an entry whose word is consistent with the last guess and removes every copy of one that is not |
| `Solver.FilterIsSubsequence` | src/solver.rs:74-88 | Narrowing only deletes entries; order and weights of the survivors are kept |
| `Solver.NarrowByLast` | src/solver.rs:74-86 | Consulting only the last history entry suffices: narrowing the candidates consistent with a history by one more guess gives those consistent with the whole longer history |
| `Solver.HonestHistoryKeepsAnswer` | src/solver.rs:74-88 | If every history mask was computed against the true answer, the answer's entry survives narrowing, so the list is not empty |
| `Solver.Solver.Narrow` | src/solver.rs:75-87 | The `retain`/`filter` step: `remaining` becomes exactly `Filter(old remaining, last)`, through `matches` on each entry |
| `Solver.OpenerIsWord` | src/solver.rs:89-91 | The opener "tares" is a five-letter lowercase word |
| `Solver.PatternTotals` | src/solver.rs:106-110 | The `totals` loop: slot k holds the summed weight of the remaining candidates whose feedback against the word has index k |
| `Solver.TotalsPartitionWeight` | src/solver.rs:106-110 | The sum of the 243 slots of `Totals`, the sequence the `totals` loop builds, is the total remaining weight: every candidate lands in exactly one slot |
| `Solver.FirstArgMin` | src/solver.rs:125-131 | The index of a least score that every earlier score strictly exceeds |
| `Solver.Select` | src/solver.rs:104-133 | The strict-`<` loop returns the word of the first remaining candidate whose score is minimal |
| `Solver.Solver.Guess` | src/solver.rs:71-134 | The returned word is always five lowercase letters, as the driver's dictionary assertion expects. With an empty history it returns "tares" and leaves `remaining` unchanged. Otherwise `remaining` becomes the old list narrowed by the last entry, and the answer is its first least-score word. An empty narrowed list is excluded, as `unwrap` panics on it |
| `Solver.SwapAdjacent` | src/solver.rs:50 | Exchanges two neighbouring entries and keeps the multiset of entries |
| `Solver.InsertIntoSorted` | src/solver.rs:50 | Inserting the next entry makes the prefix through it sorted by non-increasing count, permutes the array and leaves the entries after it unchanged |
| `Solver.SortByCountDescending` | src/solver.rs:50 | The in-place sort leaves the entries in non-increasing count order and is a permutation |
| `Solver.Solver.constructor` | src/solver.rs:38-61 | `remaining` is the dictionary sorted by non-increasing count, as a permutation, with each word weighted by the prior of its count against the sum of all counts |

## Left out

- `Wordle::play`, `Wordle::new` and `display_guess` (src/lib.rs:11-67): the game driver, its `HashSet` membership assertion and ANSI terminal output are I/O around the core. `Consistency.RecordTurn` keeps the one fact the driver relies on.
- src/main.rs: a batch loop over an included answers file with a `println!`.
- Floating point: `sigmoid`, `est_steps_left`, the `log2` entropy sums, `remaining_entropy` and the `e_score` formula are not modelled. They are replaced by the caller-supplied `prior` and `score` functions. The model does not capture rounding, or comparisons with NaN in the strict `<` of the selection loop.
- `Solver.PatternTotals`: accumulates exact reals, not `f64`, so the rounding of the source's additions is not modelled.
- The `entropy` vector (src/solver.rs:14, 102) is write-only and never read.
- The dictionary text injected with `include!` and its line parsing with `expect` (src/lib.rs:9, src/solver.rs:42-49). The constructor takes the parsed (word, count) pairs and requires them to be five-letter lowercase words. The `usize` sum of counts is unbounded here.
- `OnceCell` initialisation and the `Cow` Borrowed/Owned split of `remaining`. `remaining` is one owned sequence, and both branches are the single `Solver.Solver.Narrow`.
- `enumerate_mask` and the `Guesser` trait are referenced but not part of this model. The pattern index used for `totals` is the `PackedCorrectness` fold (`Packing.Index`).
- `Solver.SortByCountDescending`: `sort_unstable_by_key` promises only a non-increasing permutation. The model is an insertion sort and states only that promise; how entries of equal count are ordered is not modelled.
- `Consistency.IsMisplaced`: requires the answer to be as long as `used`. Its only caller passes a 5-letter word, and `used` is a 5-slot array.
