/**
 * The guesser (src/solver.rs): a weighted candidate list, sorted by dictionary
 * frequency at construction, narrowed after every turn by the last observed guess,
 * and a selection loop that picks the first candidate of least expected score.
 *
 * The floating-point scoring (entropy, `est_steps_left`, `sigmoid`) is not modelled:
 * the prior weight and the expected score are functions supplied by the caller.
 * What is modelled of the scorer is its partition of the candidates' weight by
 * feedback pattern, the `totals` array.
 */
module Solver {
  import opened Wordle
  import opened Consistency
  import opened Packing

  /** A dictionary line once parsed: a word and its corpus frequency. */
  datatype DictEntry = DictEntry(word: Word, count: nat)

  /** A candidate still in play, with its prior weight. */
  datatype Entry = Entry(word: Word, weight: real)

  /** The best candidate so far in the selection loop. */
  datatype Candidate = Candidate(word: Word, eScore: real)

  /**
   * The expected score of guessing a word, given the turn number, the remaining
   * candidates, the word's own weight and the weight of the remaining candidates
   * in each of the 243 feedback patterns it would produce.
   */
  type ScoreFn = (nat, seq<Entry>, real, seq<real>) -> real

  /** The fixed first guess, "tares". */
  const Opener: Word := [116, 97, 114, 101, 115]

  lemma OpenerIsWord()
    ensures IsWord(Opener)
  {
  }

  predicate AllWords(s: seq<Entry>) {
    forall i :: 0 <= i < |s| ==> IsWord(s[i].word)
  }

  // ---------------------------------------------------------------------------
  // Narrowing the candidates

  /**
   * The candidates, in their order and with their weights, that would have produced
   * the mask observed for `last`.
   */
  function Filter(s: seq<Entry>, last: Guess): (r: seq<Entry>)
    requires AllWords(s) && |last.word| == 5
    ensures |r| <= |s|
    ensures forall e :: e in r <==> e in s && Consistent(last, e.word)
  {
    if |s| == 0 then []
    else
      var init, e := s[..|s| - 1], s[|s| - 1];
      assert s == init + [e];
      Filter(init, last) + (if Consistent(last, e.word) then [e] else [])
  }

  /** `r` can be obtained from `s` by deleting entries: order is kept. */
  predicate SubsequenceOf(r: seq<Entry>, s: seq<Entry>)
    decreases |s|
  {
    |r| == 0 ||
    (|s| > 0 &&
     ((r[|r| - 1] == s[|s| - 1] && SubsequenceOf(r[..|r| - 1], s[..|s| - 1])) ||
      SubsequenceOf(r, s[..|s| - 1])))
  }

  /** Narrowing only deletes entries, keeping the order of those that stay. */
  lemma {:induction false} FilterIsSubsequence(s: seq<Entry>, last: Guess)
    requires AllWords(s) && |last.word| == 5
    ensures SubsequenceOf(Filter(s, last), s)
  {
    if |s| > 0 {
      var init := s[..|s| - 1];
      FilterIsSubsequence(init, last);
      var r := Filter(s, last);
      if Consistent(last, s[|s| - 1].word) {
        assert r[..|r| - 1] == Filter(init, last);
      } else {
        assert r == Filter(init, last);
      }
    }
  }

  predicate HistoryWords(hs: seq<Guess>) {
    forall i :: 0 <= i < |hs| ==> |hs[i].word| == 5
  }

  /** A word consistent with every guess of a history. */
  predicate ConsistentWithAll(hs: seq<Guess>, w: Word)
    requires HistoryWords(hs) && |w| == 5
  {
    forall i :: 0 <= i < |hs| ==> Consistent(hs[i], w)
  }

  /** The candidates consistent with a whole history, in order. */
  function FilterAll(s: seq<Entry>, hs: seq<Guess>): (r: seq<Entry>)
    requires AllWords(s) && HistoryWords(hs)
    ensures AllWords(r)
  {
    if |s| == 0 then []
    else
      var e := s[|s| - 1];
      FilterAll(s[..|s| - 1], hs) + (if ConsistentWithAll(hs, e.word) then [e] else [])
  }

  /** Narrowing keeps every copy of a consistent entry and no copy of an inconsistent one. */
  lemma {:induction false} FilterMultiplicity(s: seq<Entry>, last: Guess, e: Entry)
    requires AllWords(s) && |last.word| == 5
    ensures multiset(Filter(s, last))[e]
            == if |e.word| == 5 && Consistent(last, e.word) then multiset(s)[e] else 0
  {
    if |s| > 0 {
      var init, x := s[..|s| - 1], s[|s| - 1];
      assert s == init + [x];
      FilterMultiplicity(init, last, e);
    }
  }

  lemma FilterSnoc(s: seq<Entry>, e: Entry, last: Guess)
    requires AllWords(s) && IsWord(e.word) && |last.word| == 5
    ensures AllWords(s + [e])
    ensures Filter(s + [e], last) == Filter(s, last) + (if Consistent(last, e.word) then [e] else [])
  {
    assert (s + [e])[..|s|] == s;
  }

  lemma HistoryWordsSnoc(hs: seq<Guess>, h: Guess)
    requires HistoryWords(hs) && |h.word| == 5
    ensures HistoryWords(hs + [h])
  {
    assert forall i :: 0 <= i < |hs| ==> (hs + [h])[i] == hs[i];
  }

  lemma ConsistentWithAllSnoc(hs: seq<Guess>, h: Guess, w: Word)
    requires HistoryWords(hs) && |h.word| == 5 && |w| == 5
    ensures HistoryWords(hs + [h])
    ensures ConsistentWithAll(hs + [h], w) <==> ConsistentWithAll(hs, w) && Consistent(h, w)
  {
    assert (hs + [h])[|hs|] == h;
    assert forall i :: 0 <= i < |hs| ==> (hs + [h])[i] == hs[i];
  }

  /**
   * Consulting only the newest guess is enough: narrowing the candidates consistent
   * with a history by one more guess gives those consistent with the longer history.
   */
  lemma {:induction false} NarrowByLast(s: seq<Entry>, hs: seq<Guess>, h: Guess)
    requires AllWords(s) && HistoryWords(hs) && |h.word| == 5
    ensures HistoryWords(hs + [h])
    ensures Filter(FilterAll(s, hs), h) == FilterAll(s, hs + [h])
  {
    HistoryWordsSnoc(hs, h);
    if |s| > 0 {
      var init, e := s[..|s| - 1], s[|s| - 1];
      NarrowByLast(init, hs, h);
      ConsistentWithAllSnoc(hs, h, e.word);
      var before := FilterAll(init, hs);
      assert FilterAll(s, hs) == before + (if ConsistentWithAll(hs, e.word) then [e] else []);
      assert FilterAll(s, hs + [h])
             == FilterAll(init, hs + [h]) + (if ConsistentWithAll(hs + [h], e.word) then [e] else []);
      if ConsistentWithAll(hs, e.word) {
        FilterSnoc(before, e, h);
      } else {
        assert FilterAll(s, hs) == before;
      }
    }
  }

  /**
   * When every guess of the history carries the mask computed against the true
   * answer, an entry holding that answer survives narrowing by the whole history.
   */
  lemma {:induction false} HonestHistoryKeepsAnswer(s: seq<Entry>, hs: seq<Guess>, answer: Entry)
    requires AllWords(s) && HistoryWords(hs) && answer in s
    requires forall i :: 0 <= i < |hs| ==> hs[i].mask == Feedback(answer.word, hs[i].word)
    ensures answer in FilterAll(s, hs)
  {
    var init := s[..|s| - 1];
    if answer != s[|s| - 1] {
      assert s == init + [s[|s| - 1]];
      HonestHistoryKeepsAnswer(init, hs, answer);
    }
  }

  // ---------------------------------------------------------------------------
  // The pattern partition of the scorer

  /** The total weight of the candidates whose feedback against `guess` has index `k`. */
  function WeightWith(c: seq<Entry>, guess: Word, k: nat): real
    requires AllWords(c) && |guess| == 5
  {
    if |c| == 0 then 0.0
    else
      var e := c[|c| - 1];
      WeightWith(c[..|c| - 1], guess, k) + (if Index(Feedback(e.word, guess)) == k then e.weight else 0.0)
  }

  /** The 243 pattern totals of `guess`, one per feedback index. */
  function Totals(c: seq<Entry>, guess: Word): (t: seq<real>)
    requires AllWords(c) && |guess| == 5
    ensures |t| == MAX_MASK_ENUM
  {
    seq(MAX_MASK_ENUM, k requires 0 <= k < MAX_MASK_ENUM => WeightWith(c, guess, k))
  }

  function TotalWeight(c: seq<Entry>): real {
    if |c| == 0 then 0.0 else TotalWeight(c[..|c| - 1]) + c[|c| - 1].weight
  }

  /** The total weight of the candidates whose feedback index is below `n`. */
  function WeightBelow(c: seq<Entry>, guess: Word, n: nat): real
    requires AllWords(c) && |guess| == 5
  {
    if |c| == 0 then 0.0
    else
      var e := c[|c| - 1];
      WeightBelow(c[..|c| - 1], guess, n) + (if Index(Feedback(e.word, guess)) < n then e.weight else 0.0)
  }

  /** The sum of a sequence of weights. */
  function Sum(t: seq<real>): real {
    if |t| == 0 then 0.0 else Sum(t[..|t| - 1]) + t[|t| - 1]
  }

  /** The sum of the first `n` pattern totals, that is of the slots `Totals(c, guess)[..n]`. */
  function SumTotals(c: seq<Entry>, guess: Word, n: nat): real
    requires AllWords(c) && |guess| == 5
  {
    if n == 0 then 0.0 else SumTotals(c, guess, n - 1) + WeightWith(c, guess, n - 1)
  }

  lemma {:induction false} WeightBelowStep(c: seq<Entry>, guess: Word, n: nat)
    requires AllWords(c) && |guess| == 5
    ensures WeightBelow(c, guess, n + 1) == WeightBelow(c, guess, n) + WeightWith(c, guess, n)
  {
    if |c| > 0 {
      WeightBelowStep(c[..|c| - 1], guess, n);
    }
  }

  lemma {:induction false} SumTotalsIsWeightBelow(c: seq<Entry>, guess: Word, n: nat)
    requires AllWords(c) && |guess| == 5
    ensures SumTotals(c, guess, n) == WeightBelow(c, guess, n)
  {
    if n > 0 {
      SumTotalsIsWeightBelow(c, guess, n - 1);
      WeightBelowStep(c, guess, n - 1);
    } else {
      WeightBelowZero(c, guess);
    }
  }

  lemma {:induction false} WeightBelowZero(c: seq<Entry>, guess: Word)
    requires AllWords(c) && |guess| == 5
    ensures WeightBelow(c, guess, 0) == 0.0
  {
    if |c| > 0 {
      WeightBelowZero(c[..|c| - 1], guess);
    }
  }

  lemma {:induction false} WeightBelowAll(c: seq<Entry>, guess: Word)
    requires AllWords(c) && |guess| == 5
    ensures WeightBelow(c, guess, MAX_MASK_ENUM) == TotalWeight(c)
  {
    if |c| > 0 {
      WeightBelowAll(c[..|c| - 1], guess);
    }
  }

  /**
   * The pattern totals partition the candidates' weight: every candidate lands in
   * exactly one of the 243 buckets, so the totals add up to the remaining weight.
   */
  lemma TotalsPartitionWeight(c: seq<Entry>, guess: Word)
    requires AllWords(c) && |guess| == 5
    ensures Sum(Totals(c, guess)) == TotalWeight(c)
    ensures SumTotals(c, guess, MAX_MASK_ENUM) == TotalWeight(c)
  {
    SumTotalsIsWeightBelow(c, guess, MAX_MASK_ENUM);
    WeightBelowAll(c, guess);
    SumOfTotalsPrefix(c, guess, MAX_MASK_ENUM);
    assert Totals(c, guess)[..MAX_MASK_ENUM] == Totals(c, guess);
  }

  /** `SumTotals` is the sum of the first `n` slots of `Totals`. */
  lemma {:induction false} SumOfTotalsPrefix(c: seq<Entry>, guess: Word, n: nat)
    requires AllWords(c) && |guess| == 5 && n <= MAX_MASK_ENUM
    ensures Sum(Totals(c, guess)[..n]) == SumTotals(c, guess, n)
  {
    if n > 0 {
      var t := Totals(c, guess);
      assert t[..n][..n - 1] == t[..n - 1];
      SumOfTotalsPrefix(c, guess, n - 1);
    }
  }

  /**
   * The `totals` loop of `guess`: adds each remaining candidate's weight into the
   * slot of the pattern that `word` would show if that candidate were the answer.
   */
  method PatternTotals(remaining: seq<Entry>, word: Word) returns (totals: seq<real>)
    requires AllWords(remaining) && IsWord(word)
    ensures totals == Totals(remaining, word)
  {
    var t := new real[MAX_MASK_ENUM](_ => 0.0);
    for j := 0 to |remaining|
      invariant forall k :: 0 <= k < MAX_MASK_ENUM ==> t[k] == WeightWith(remaining[..j], word, k)
    {
      var candidate := remaining[j];
      var mask := Compute(candidate.word, word);
      var idx := ToU8(Pack(mask)) as int;
      assert idx == Index(Feedback(candidate.word, word));
      t[idx] := t[idx] + candidate.weight;
      assert remaining[..j + 1][..j] == remaining[..j];
    }
    assert remaining[..|remaining|] == remaining;
    totals := t[..];
  }

  // ---------------------------------------------------------------------------
  // Choosing the guess

  /** The expected score of each remaining candidate taken as the guess. */
  function Scores(turn: nat, remaining: seq<Entry>, score: ScoreFn): (s: seq<real>)
    requires AllWords(remaining)
    ensures |s| == |remaining|
  {
    seq(|remaining|, j requires 0 <= j < |remaining| =>
      score(turn, remaining, remaining[j].weight, Totals(remaining, remaining[j].word)))
  }

  /** The position of the first least value of `s`. */
  function FirstArgMin(s: seq<real>): (r: nat)
    requires |s| > 0
    ensures r < |s|
    ensures forall j :: 0 <= j < |s| ==> s[r] <= s[j]
    ensures forall j :: 0 <= j < r ==> s[j] > s[r]
  {
    if |s| == 1 then 0
    else
      var k := FirstArgMin(s[1..]) + 1;
      if s[0] <= s[k] then 0 else k
  }

  /**
   * The selection loop of `guess`: scores every remaining candidate and keeps the
   * first one whose score is strictly below the best so far, so the earliest of the
   * least-scoring candidates wins.
   */
  method Select(turn: nat, remaining: seq<Entry>, score: ScoreFn) returns (w: Word)
    requires AllWords(remaining) && |remaining| > 0
    ensures w == remaining[FirstArgMin(Scores(turn, remaining, score))].word
  {
    ghost var scores := Scores(turn, remaining, score);
    var best: Option<Candidate> := None;
    ghost var at: nat := 0;
    for i := 0 to |remaining|
      invariant best.None? <==> i == 0
      invariant best.Some? ==> at < i && best.value.word == remaining[at].word && best.value.eScore == scores[at]
      invariant best.Some? ==> forall j :: 0 <= j < i ==> scores[at] <= scores[j]
      invariant best.Some? ==> forall j :: 0 <= j < at ==> scores[j] > scores[at]
    {
      var entry := remaining[i];
      var totals := PatternTotals(remaining, entry.word);
      var eScore := score(turn, remaining, entry.weight, totals);
      if best.Some? {
        if eScore < best.value.eScore {
          best := Some(Candidate(entry.word, eScore));
          at := i;
        }
      } else {
        best := Some(Candidate(entry.word, eScore));
        at := i;
      }
    }
    assert at == FirstArgMin(scores);
    w := best.value.word;
  }

  // ---------------------------------------------------------------------------
  // The initial candidate list

  /** Frequencies never increase along the list. */
  predicate CountSorted(s: seq<DictEntry>) {
    forall p, q :: 0 <= p < q < |s| ==> s[p].count >= s[q].count
  }

  function TotalCount(s: seq<DictEntry>): nat {
    if |s| == 0 then 0 else TotalCount(s[..|s| - 1]) + s[|s| - 1].count
  }

  /** Attaches to each word its prior weight, computed from its count and the total count. */
  function Weigh(s: seq<DictEntry>, prior: (nat, nat) -> real, total: nat): (r: seq<Entry>)
    ensures |r| == |s|
  {
    seq(|s|, i requires 0 <= i < |s| => Entry(s[i].word, prior(s[i].count, total)))
  }

  /** Exchanges the entries at `j - 1` and `j`. */
  method SwapAdjacent(a: array<DictEntry>, j: int)
    requires 0 < j < a.Length
    modifies a
    ensures a[..] == old(a[..])[j - 1 := old(a[j])][j := old(a[j - 1])]
    ensures multiset(a[..]) == multiset(old(a[..]))
  {
    a[j - 1], a[j] := a[j], a[j - 1];
  }

  /** Moves `a[i]` left past every entry of smaller count, into the sorted prefix `a[..i]`. */
  method InsertIntoSorted(a: array<DictEntry>, i: int)
    requires 0 <= i < a.Length
    requires CountSorted(a[..i])
    modifies a
    ensures CountSorted(a[..i + 1])
    ensures multiset(a[..]) == multiset(old(a[..]))
    ensures a[i + 1..] == old(a[i + 1..])
  {
    var j := i;
    while j > 0 && a[j - 1].count < a[j].count
      invariant 0 <= j <= i
      invariant a[i + 1..] == old(a[i + 1..])
      invariant forall p, q :: 0 <= p < q <= i && p != j && q != j ==> a[p].count >= a[q].count
      invariant forall q :: j < q <= i ==> a[j].count > a[q].count
      invariant multiset(a[..]) == multiset(old(a[..]))
    {
      SwapAdjacent(a, j);
      j := j - 1;
    }
  }

  /**
   * The in-place sort of the parsed dictionary by decreasing frequency
   * (`sort_unstable_by_key` with `Reverse(count)`), as an insertion sort.
   */
  method SortByCountDescending(a: array<DictEntry>)
    modifies a
    ensures CountSorted(a[..])
    ensures multiset(a[..]) == multiset(old(a[..]))
  {
    for i := 0 to a.Length
      invariant CountSorted(a[..i])
      invariant multiset(a[..]) == multiset(old(a[..]))
    {
      InsertIntoSorted(a, i);
    }
    assert a[..a.Length] == a[..];
  }

  // ---------------------------------------------------------------------------
  // The solver

  class Solver {
    /** The candidates still consistent with the feedback seen so far, with their weights. */
    var remaining: seq<Entry>

    predicate Valid()
      reads this
    {
      AllWords(remaining)
    }

    /**
     * `Solver::new`: the dictionary, sorted by decreasing frequency, each word
     * weighted by the prior of its count against the total count.
     */
    constructor (dictionary: seq<DictEntry>, prior: (nat, nat) -> real)
      requires forall i :: 0 <= i < |dictionary| ==> IsWord(dictionary[i].word)
      ensures Valid()
      ensures exists sorted: seq<DictEntry> ::
                && CountSorted(sorted)
                && multiset(sorted) == multiset(dictionary)
                && remaining == Weigh(sorted, prior, TotalCount(dictionary))
    {
      var sum := 0;
      for i := 0 to |dictionary|
        invariant sum == TotalCount(dictionary[..i])
      {
        sum := sum + dictionary[i].count;
        assert dictionary[..i + 1][..i] == dictionary[..i];
      }
      assert dictionary[..|dictionary|] == dictionary;

      var words := new DictEntry[|dictionary|](i requires 0 <= i < |dictionary| => dictionary[i]);
      assert words[..] == dictionary;
      SortByCountDescending(words);
      var sorted := words[..];
      forall i | 0 <= i < |sorted|
        ensures IsWord(sorted[i].word)
      {
        assert sorted[i] in multiset(dictionary);
      }
      remaining := Weigh(sorted, prior, sum);
    }

    /** Keeps exactly the candidates consistent with `last`, in order (the `retain` / `filter`). */
    method Narrow(last: Guess)
      requires Valid() && |last.word| == 5
      modifies this
      ensures Valid()
      ensures remaining == Filter(old(remaining), last)
    {
      var all := remaining;
      var kept: seq<Entry> := [];
      for i := 0 to |all|
        invariant kept == Filter(all[..i], last)
      {
        var ok := Matches(last, all[i].word);
        if ok {
          kept := kept + [all[i]];
        }
        assert all[..i + 1][..i] == all[..i];
      }
      assert all[..|all|] == all;
      remaining := kept;
    }

    /**
     * `Solver::guess`: with a history, first narrows the candidates by its last entry;
     * with none, answers the opener and changes nothing; otherwise answers the first
     * candidate of least expected score. An empty candidate list would make the
     * source panic, so callers must not reach it.
     */
    method Guess(history: seq<Consistency.Guess>, score: ScoreFn) returns (w: Word)
      requires Valid()
      requires |history| > 0 ==> |history[|history| - 1].word| == 5
      requires |history| > 0 ==> Filter(remaining, history[|history| - 1]) != []
      modifies this
      ensures Valid()
      ensures IsWord(w)
      ensures |history| == 0 ==> remaining == old(remaining) && w == Opener
      ensures |history| > 0 ==> remaining == Filter(old(remaining), history[|history| - 1])
      ensures |history| > 0 ==> w == remaining[FirstArgMin(Scores(|history|, remaining, score))].word
    {
      if |history| > 0 {
        Narrow(history[|history| - 1]);
      }
      if |history| == 0 {
        OpenerIsWord();
        return Opener;
      }
      w := Select(|history|, remaining, score);
    }
  }
}
