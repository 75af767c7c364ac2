/**
 * The consistency check of a candidate word against an observed guess
 * (src/lib.rs, `Guess`, `Guess::matches` and `Correctness::is_misplaced`),
 * proved to agree with recomputing the full feedback.
 */
module Consistency {
  import opened Wordle

  datatype Option<T> = None | Some(value: T)

  /** One turn of history: the word guessed and the mask observed for it. */
  datatype Guess = Guess(word: Word, mask: Mask)

  /** A candidate is consistent with a guess when it would have produced the observed mask. */
  predicate Consistent(g: Guess, word: Word)
    requires |g.word| == 5 && |word| == 5
  {
    Feedback(word, g.word) == g.mask
  }

  /**
   * The first position holding `letter` that is not yet used, if any: the position
   * `is_misplaced` claims.
   */
  function FirstUnused(letter: byte, answer: Word, used: seq<bool>): (r: Option<nat>)
    requires |answer| == |used|
    ensures r.Some? ==> r.value < |answer| && answer[r.value] == letter && !used[r.value]
    ensures r.Some? ==> forall j :: 0 <= j < r.value ==> !(answer[j] == letter && !used[j])
    ensures r.None? ==> forall j :: 0 <= j < |answer| ==> !(answer[j] == letter && !used[j])
  {
    if |answer| == 0 then None
    else if answer[0] == letter && !used[0] then Some(0)
    else match FirstUnused(letter, answer[1..], used[1..])
      case None => None
      case Some(k) => Some(k + 1)
  }

  /** `used` after `is_misplaced`: the first unused occurrence of `letter`, if any, marked used. */
  function Claim(letter: byte, answer: Word, used: seq<bool>): (r: seq<bool>)
    requires |answer| == |used|
    ensures |r| == |used|
  {
    match FirstUnused(letter, answer, used)
    case None => used
    case Some(k) => used[k := true]
  }

  /** The number of positions below `n` that hold `x` and are not yet used. */
  function CountUnused(answer: Word, used: seq<bool>, x: byte, n: nat): nat
    requires n <= |answer| && n <= |used|
  {
    if n == 0 then 0
    else CountUnused(answer, used, x, n - 1) + (if answer[n - 1] == x && !used[n - 1] then 1 else 0)
  }

  /**
   * `Correctness::is_misplaced`: finds the first unused occurrence of `letter` in
   * `answer`; if there is one, marks exactly that position used and answers true,
   * otherwise leaves `used` alone and answers false.
   */
  method IsMisplaced(letter: byte, answer: Word, used: array<bool>) returns (found: bool)
    requires |answer| == used.Length
    modifies used
    ensures found == FirstUnused(letter, answer, old(used[..])).Some?
    ensures used[..] == Claim(letter, answer, old(used[..]))
  {
    for i := 0 to |answer|
      invariant used[..] == old(used[..])
      invariant forall j :: 0 <= j < i ==> !(answer[j] == letter && !used[j])
    {
      if answer[i] == letter && !used[i] {
        used[i] := true;
        return true;
      }
    }
    return false;
  }

  /** An unused occurrence of `x` exists below `n` exactly when the count is positive. */
  lemma {:induction false} CountUnusedPositive(answer: Word, used: seq<bool>, x: byte, n: nat)
    requires n <= |answer| && n <= |used|
    ensures CountUnused(answer, used, x, n) > 0
            <==> exists j :: 0 <= j < n && answer[j] == x && !used[j]
  {
    if n > 0 {
      CountUnusedPositive(answer, used, x, n - 1);
    }
  }

  /** `is_misplaced` succeeds exactly when some occurrence of the letter is still unused. */
  lemma FoundIffUnused(letter: byte, answer: Word, used: seq<bool>)
    requires |answer| == |used|
    ensures FirstUnused(letter, answer, used).Some? <==> CountUnused(answer, used, letter, |answer|) > 0
  {
    CountUnusedPositive(answer, used, letter, |answer|);
  }

  /** Claiming position `k` uses up one occurrence of its letter and no occurrence of any other. */
  lemma {:induction false} ClaimCount(answer: Word, used: seq<bool>, k: nat, y: byte, n: nat)
    requires |answer| == |used| && k < |answer| && !used[k] && n <= |answer|
    ensures CountUnused(answer, used[k := true], y, n)
            == CountUnused(answer, used, y, n) - (if answer[k] == y && k < n then 1 else 0)
    ensures CountUnused(answer, used, y, n) >= (if answer[k] == y && k < n then 1 else 0)
  {
    if n > 0 {
      ClaimCount(answer, used, k, y, n - 1);
    }
  }

  /** With exactly the matched positions used, the unused occurrences are the unmatched ones. */
  lemma {:induction false} UnusedIsUnmatched(answer: Word, guess: Word, used: seq<bool>, x: byte, n: nat)
    requires n <= |answer| && n <= |guess| && n <= |used|
    requires forall j :: 0 <= j < n ==> used[j] == (answer[j] == guess[j])
    ensures CountUnused(answer, used, x, n) == Unmatched(answer, guess, x, n)
  {
    if n > 0 {
      UnusedIsUnmatched(answer, guess, used, x, n - 1);
    }
  }

  /**
   * One yellow-or-gray position of `matches`: with the unused occurrences of every
   * letter equal to those still outstanding before position `i`, claiming succeeds
   * exactly when the feedback there is Misplaced, and afterwards the unused
   * occurrences equal those outstanding before position `i + 1`.
   */
  lemma ClaimStep(word: Word, guess: Word, used: seq<bool>, i: nat)
    requires |word| == 5 && |guess| == 5 && |used| == 5 && i < 5 && word[i] != guess[i]
    requires forall x: byte :: CountUnused(word, used, x, 5) == Outstanding(word, guess, x, i)
    ensures FirstUnused(guess[i], word, used).Some? <==> Feedback(word, guess)[i] == Misplaced
    ensures forall y: byte ::
              CountUnused(word, Claim(guess[i], word, used), y, 5) == Outstanding(word, guess, y, i + 1)
  {
    var letter := guess[i];
    FoundIffUnused(letter, word, used);
    match FirstUnused(letter, word, used)
    case None =>
    case Some(k) =>
      var after := used[k := true];
      forall y: byte
        ensures CountUnused(word, after, y, 5) == Outstanding(word, guess, y, i + 1)
      {
        ClaimCount(word, used, k, y, 5);
      }
  }

  /**
   * `Guess::matches`: whether `word`, taken as the answer, would have produced the
   * observed mask for the guessed word. It never builds the mask; it checks the
   * green positions first and then lets each yellow or gray position claim the first
   * unused occurrence of its letter, rejecting as soon as a position disagrees.
   */
  method Matches(g: Guess, word: Word) returns (ok: bool)
    requires |word| == 5 && |g.word| == 5
    ensures ok == Consistent(g, word)
  {
    var used := new bool[5](_ => false);

    // Check Correct letters.
    for i := 0 to 5
      invariant forall j :: 0 <= j < i ==> used[j] == (word[j] == g.word[j])
      invariant forall j :: i <= j < 5 ==> !used[j]
      invariant forall j :: 0 <= j < i ==> (g.mask[j] == Correct <==> word[j] == g.word[j])
    {
      if word[i] == g.word[i] {
        if g.mask[i] != Correct {
          assert Feedback(word, g.word)[i] != g.mask[i];
          return false;
        }
        used[i] := true;
      } else if g.mask[i] == Correct {
        assert Feedback(word, g.word)[i] != g.mask[i];
        return false;
      }
    }

    forall x: byte
      ensures CountUnused(word, used[..], x, 5) == Outstanding(word, g.word, x, 0)
    {
      UnusedIsUnmatched(word, g.word, used[..], x, 5);
    }

    // Check Misplaced letters; the rest are correctly Wrong.
    for i := 0 to 5
      invariant forall j :: 0 <= j < 5 ==> (g.mask[j] == Correct <==> word[j] == g.word[j])
      invariant forall j :: 0 <= j < i ==> g.mask[j] == Feedback(word, g.word)[j]
      invariant forall x: byte :: CountUnused(word, used[..], x, 5) == Outstanding(word, g.word, x, i)
    {
      if g.mask[i] == Correct {
        continue;
      }
      ClaimStep(word, g.word, used[..], i);
      var found := IsMisplaced(g.word[i], word, used);
      if found != (g.mask[i] == Misplaced) {
        assert Feedback(word, g.word)[i] != g.mask[i];
        return false;
      }
    }
    return true;
  }

  /**
   * One turn of the game driver: the mask computed against the answer, recorded with
   * the guess; checking the answer against that record with `matches` always succeeds,
   * so the answer is never filtered out.
   */
  method RecordTurn(answer: Word, guessed: Word) returns (g: Guess, ok: bool)
    requires Comparable(answer, guessed)
    ensures g == Guess(guessed, Feedback(answer, guessed))
    ensures ok
  {
    var mask := Compute(answer, guessed);
    g := Guess(guessed, mask);
    ok := Matches(g, answer);
  }
}
