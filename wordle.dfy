/**
 * Words, feedback symbols and the feedback mask of a guess against an answer
 * (src/lib.rs, `Correctness` and `Correctness::compute`).
 *
 * `Feedback` is the declarative statement of Wordle's duplicate-letter rule;
 * `Compute` is the two-pass array algorithm of the source, proved to produce it.
 */
module Wordle {

  /** An unsigned 8-bit value: the source works on the bytes of its `&str` words. */
  newtype byte = x: int | 0 <= x < 256

  /** A word as the source sees it: its bytes. Lengths are checked where the source checks them. */
  type Word = seq<byte>

  /** The byte values of 'a' and 'z', and the size of the per-letter tally (`b'z' - b'a' + 1`). */
  const LowerA: byte := 97
  const LowerZ: byte := 122
  const Alphabet: nat := 26

  /** One feedback symbol: green, yellow or gray. */
  datatype Correctness = Correct | Misplaced | Wrong

  /** A mask is always exactly five symbols, one per letter position (`[Correctness; 5]`). */
  type Mask = m: seq<Correctness> | |m| == 5 witness [Wrong, Wrong, Wrong, Wrong, Wrong]

  predicate IsLower(b: byte) {
    LowerA <= b <= LowerZ
  }

  /** A dictionary word: five lowercase ASCII letters. */
  predicate IsWord(w: Word) {
    |w| == 5 && forall i :: 0 <= i < 5 ==> IsLower(w[i])
  }

  /**
   * What `compute` needs of its arguments: both five bytes long, and a lowercase
   * letter on both sides wherever they differ (only those bytes index the tally).
   */
  predicate Comparable(answer: Word, guess: Word) {
    && |answer| == 5 && |guess| == 5
    && forall i :: 0 <= i < 5 && answer[i] != guess[i] ==> IsLower(answer[i]) && IsLower(guess[i])
  }

  function Min(a: nat, b: nat): nat {
    if a <= b then a else b
  }

  /** The number of positions below `n` where `s` holds `x` and `t` holds another byte. */
  function Unmatched(s: Word, t: Word, x: byte, n: nat): nat
    requires n <= |s| && n <= |t|
  {
    if n == 0 then 0
    else Unmatched(s, t, x, n - 1) + (if s[n - 1] == x && t[n - 1] != x then 1 else 0)
  }

  /** The number of positions below `n` where both `s` and `t` hold `x`. */
  function Exact(s: Word, t: Word, x: byte, n: nat): nat
    requires n <= |s| && n <= |t|
  {
    if n == 0 then 0
    else Exact(s, t, x, n - 1) + (if s[n - 1] == x && t[n - 1] == x then 1 else 0)
  }

  /** The number of positions below `n` where `s` holds `x`. */
  function Occurrences(s: Word, x: byte, n: nat): nat
    requires n <= |s|
  {
    if n == 0 then 0
    else Occurrences(s, x, n - 1) + (if s[n - 1] == x then 1 else 0)
  }

  /**
   * The feedback for `guess` when the hidden word is `answer`, stated declaratively.
   * Position i is Correct exactly when the letters agree. Otherwise, with x the
   * guessed letter, it is Misplaced exactly when fewer earlier non-matching guess
   * positions hold x than there are non-matching answer positions holding x, and
   * Wrong otherwise: each unmatched answer letter is credited at most once, to the
   * leftmost guess positions that want it.
   */
  function Feedback(answer: Word, guess: Word): Mask
    requires |answer| == 5 && |guess| == 5
  {
    seq(5, i requires 0 <= i < 5 =>
      if answer[i] == guess[i] then Correct
      else if Unmatched(guess, answer, guess[i], i) < Unmatched(answer, guess, guess[i], 5) then Misplaced
      else Wrong)
  }

  /**
   * How many unmatched answer letters x are still unclaimed once the guess
   * positions below `i` have been scored.
   */
  function Outstanding(answer: Word, guess: Word, x: byte, i: nat): nat
    requires |answer| == 5 && |guess| == 5 && i <= 5
  {
    var wanted := Unmatched(guess, answer, x, i);
    var supply := Unmatched(answer, guess, x, 5);
    if wanted < supply then supply - wanted else 0
  }

  /**
   * `Correctness::compute`: the first pass marks exact matches and tallies the
   * answer's unmatched letters per letter; the second pass, left to right, turns a
   * non-Correct position Misplaced while its letter's tally is positive, and uses
   * one unit of that tally.
   */
  method Compute(answer: Word, guess: Word) returns (mask: Mask)
    requires Comparable(answer, guess)
    ensures mask == Feedback(answer, guess)
  {
    var c := new Correctness[5](_ => Wrong);
    var misplaced := new nat[Alphabet](_ => 0);

    // Find all correct letters, tallying the others.
    for i := 0 to 5
      invariant forall j :: 0 <= j < i ==> c[j] == (if answer[j] == guess[j] then Correct else Wrong)
      invariant forall j :: i <= j < 5 ==> c[j] == Wrong
      invariant forall k :: 0 <= k < Alphabet ==> misplaced[k] == Unmatched(answer, guess, (k + 97) as byte, i)
    {
      if answer[i] == guess[i] {
        c[i] := Correct;
      } else {
        var k := (answer[i] - LowerA) as int;
        misplaced[k] := misplaced[k] + 1;
      }
    }

    // Credit the remaining guess letters against the tally.
    for i := 0 to 5
      invariant forall j :: 0 <= j < i ==> c[j] == Feedback(answer, guess)[j]
      invariant forall j :: i <= j < 5 ==> c[j] == (if answer[j] == guess[j] then Correct else Wrong)
      invariant forall k :: 0 <= k < Alphabet ==> misplaced[k] == Outstanding(answer, guess, (k + 97) as byte, i)
    {
      if c[i] == Wrong {
        var k := (guess[i] - LowerA) as int;
        assert (k + 97) as byte == guess[i];
        if misplaced[k] > 0 {
          c[i] := Misplaced;
          misplaced[k] := misplaced[k] - 1;
        }
      }
    }
    mask := c[..];
  }

  /** A word checked against itself is all green. */
  lemma FeedbackOfSelf(w: Word)
    requires |w| == 5
    ensures Feedback(w, w) == [Correct, Correct, Correct, Correct, Correct]
  {
  }

  /**
   * Duplicate letters, on "aabbb", "ccaac", "abcde", "aacde" and "bcdea": a repeated
   * guess letter is credited only as often as the answer still holds it.
   */
  lemma DuplicateLetterExamples()
    ensures Feedback([97, 97, 98, 98, 98], [97, 97, 99, 99, 99]) == [Correct, Correct, Wrong, Wrong, Wrong]
    ensures Feedback([97, 97, 98, 98, 98], [99, 99, 97, 97, 99]) == [Wrong, Wrong, Misplaced, Misplaced, Wrong]
    ensures Feedback([97, 98, 99, 100, 101], [97, 97, 99, 100, 101]) == [Correct, Wrong, Correct, Correct, Correct]
    ensures Feedback([97, 98, 99, 100, 101], [98, 99, 100, 101, 97])
            == [Misplaced, Misplaced, Misplaced, Misplaced, Misplaced]
  {
  }

  /**
   * The credit of the first pass: a position is Correct exactly when the letters agree,
   * and then it is neither Misplaced nor Wrong.
   */
  lemma CorrectExactlyWhenEqual(answer: Word, guess: Word, i: nat)
    requires |answer| == 5 && |guess| == 5 && i < 5
    ensures Feedback(answer, guess)[i] == Correct <==> answer[i] == guess[i]
    ensures answer[i] != guess[i] ==> Feedback(answer, guess)[i] in {Misplaced, Wrong}
  {
  }

  /** The number of positions below `n` where `guess` holds `x` and the feedback is `sym`. */
  function Marked(answer: Word, guess: Word, x: byte, sym: Correctness, n: nat): nat
    requires |answer| == 5 && |guess| == 5 && n <= 5
  {
    if n == 0 then 0
    else Marked(answer, guess, x, sym, n - 1)
         + (if guess[n - 1] == x && Feedback(answer, guess)[n - 1] == sym then 1 else 0)
  }

  /**
   * No double credit: the positions below `n` holding `x` that are marked Misplaced
   * number exactly the smaller of the answer's unmatched x's and the guess's
   * unmatched x's below `n`; so they never exceed the answer's unmatched x's.
   */
  lemma {:induction false} MisplacedIsMin(answer: Word, guess: Word, x: byte, n: nat)
    requires |answer| == 5 && |guess| == 5 && n <= 5
    ensures Marked(answer, guess, x, Misplaced, n)
            == Min(Unmatched(answer, guess, x, 5), Unmatched(guess, answer, x, n))
    ensures Marked(answer, guess, x, Misplaced, n) <= Unmatched(answer, guess, x, 5)
  {
    if n > 0 {
      MisplacedIsMin(answer, guess, x, n - 1);
    }
  }

  /** The positions below `n` where `guess` holds `x` and the feedback is Correct. */
  lemma {:induction false} CorrectIsExact(answer: Word, guess: Word, x: byte, n: nat)
    requires |answer| == 5 && |guess| == 5 && n <= 5
    ensures Marked(answer, guess, x, Correct, n) == Exact(answer, guess, x, n)
  {
    if n > 0 {
      CorrectIsExact(answer, guess, x, n - 1);
    }
  }

  /** Every occurrence of `x` is either matched in place or unmatched. */
  lemma {:induction false} OccurrencesSplit(s: Word, t: Word, x: byte, n: nat)
    requires n <= |s| && n <= |t|
    ensures Occurrences(s, x, n) == Exact(s, t, x, n) + Unmatched(s, t, x, n)
    ensures Exact(s, t, x, n) == Exact(t, s, x, n)
  {
    if n > 0 {
      OccurrencesSplit(s, t, x, n - 1);
    }
  }

  /**
   * The duplicate-letter rule as a whole: for every letter, the guess positions
   * holding it that are shown green or yellow number exactly the smaller of its
   * occurrences in the answer and in the guess. A letter is never credited more
   * often than the answer holds it, and never less often than both words share it.
   */
  lemma CreditIsMinOfOccurrences(answer: Word, guess: Word, x: byte)
    requires |answer| == 5 && |guess| == 5
    ensures Marked(answer, guess, x, Correct, 5) + Marked(answer, guess, x, Misplaced, 5)
            == Min(Occurrences(answer, x, 5), Occurrences(guess, x, 5))
  {
    MisplacedIsMin(answer, guess, x, 5);
    CorrectIsExact(answer, guess, x, 5);
    OccurrencesSplit(answer, guess, x, 5);
    OccurrencesSplit(guess, answer, x, 5);
  }
}
