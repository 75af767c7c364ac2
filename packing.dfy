/**
 * A mask packed into one non-zero byte (src/lib.rs, `MAX_MASK_ENUM`,
 * `PackedCorrectness` and its two `From` conversions).
 */
module Packing {
  import opened Wordle

  /** The number of distinct masks, 3^5. */
  const MAX_MASK_ENUM: nat := 3 * 3 * 3 * 3 * 3

  /** A byte that is never zero, so that zero is free to stand for "no value" (`NonZeroU8`). */
  type NonZeroU8 = x: int | 1 <= x < 256 witness 1

  /** A mask packed into a single non-zero byte: its base-3 value plus one. */
  datatype PackedCorrectness = PackedCorrectness(stored: NonZeroU8)

  function Pow3(n: nat): (r: nat)
    ensures r >= 1
  {
    if n == 0 then 1 else 3 * Pow3(n - 1)
  }

  /** The base-3 digit of one symbol. */
  function Digit(c: Correctness): (d: nat)
    ensures d < 3
  {
    match c
    case Correct => 0
    case Misplaced => 1
    case Wrong => 2
  }

  /** The symbol of one base-3 digit. */
  function Symbol(d: nat): Correctness
    requires d < 3
  {
    if d == 0 then Correct else if d == 1 then Misplaced else Wrong
  }

  /**
   * The left fold `acc * 3 + digit` over the symbols, so position 0 is the most
   * significant digit. Every accumulator stays below 3^length; for a five-symbol
   * mask that is 243, so the byte-wide accumulator of the source never overflows.
   */
  function Fold(m: seq<Correctness>): (r: nat)
    ensures r < Pow3(|m|)
  {
    if |m| == 0 then 0 else Fold(m[..|m| - 1]) * 3 + Digit(m[|m| - 1])
  }

  /** The `len` base-3 digits of `n`, most significant first: the inverse of `Fold`. */
  function Unfold(n: nat, len: nat): (m: seq<Correctness>)
    ensures |m| == len
  {
    if len == 0 then [] else Unfold(n / 3, len - 1) + [Symbol(n % 3)]
  }

  /** `PackedCorrectness::from`: the fold plus one; the fold is below 243, so the byte is 1..243. */
  function Pack(m: Mask): (p: PackedCorrectness)
    ensures 1 <= p.stored <= MAX_MASK_ENUM
  {
    PackedCorrectness(Fold(m) + 1)
  }

  /** `u8::from(PackedCorrectness)`: the stored byte minus one. */
  function ToU8(p: PackedCorrectness): byte {
    (p.stored - 1) as byte
  }

  /** The index of a mask: the value of `u8::from(PackedCorrectness::from(mask))`. */
  function Index(m: Mask): (k: nat)
    ensures k < MAX_MASK_ENUM
    ensures k == ToU8(Pack(m)) as nat
  {
    Fold(m)
  }

  /** Unfolding a fold gives the symbols back. */
  lemma {:induction false} UnfoldFold(m: seq<Correctness>)
    ensures Unfold(Fold(m), |m|) == m
  {
    if |m| > 0 {
      var init, last := m[..|m| - 1], m[|m| - 1];
      var n := Fold(m);
      assert n / 3 == Fold(init) && n % 3 == Digit(last);
      UnfoldFold(init);
      assert Symbol(Digit(last)) == last;
      assert m == init + [last];
    }
  }

  /** Folding an unfolding gives the number back, for every number below 3^len. */
  lemma {:induction false} FoldUnfold(n: nat, len: nat)
    requires n < Pow3(len)
    ensures Fold(Unfold(n, len)) == n
  {
    if len > 0 {
      var m := Unfold(n, len);
      assert m[..len - 1] == Unfold(n / 3, len - 1);
      FoldUnfold(n / 3, len - 1);
    }
  }

  /** Distinct masks pack to distinct bytes. */
  lemma PackInjective(m1: Mask, m2: Mask)
    requires Pack(m1) == Pack(m2)
    ensures m1 == m2
  {
    UnfoldFold(m1);
    UnfoldFold(m2);
  }

  /** Every index below 243 is the index of some mask: packing is a bijection onto 0..242. */
  lemma IndexSurjective(k: nat)
    requires k < MAX_MASK_ENUM
    ensures Index(Unfold(k, 5)) == k
  {
    FoldUnfold(k, 5);
  }
}
