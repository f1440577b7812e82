/**
  Unsigned 32-bit storage words and the single-bit operations the bitmap
  applies to them.

  A word is an integer in [0, 2^32). Bit `j` of a word is its `j`-th binary
  digit, least significant first. The C operators the bitmap uses on a word
  `w` with a one-bit mask `1 << j` are written here as definitions over the
  binary digits, by halving:

    w | (1 << j)     WithBit(w, j, true)
    w & ~(1 << j)    WithBit(w, j, false)
    w & (1 << j)     Masked(w, j)
    (w >> j) & 1     Shr(w, j) % 2

  and the lemmas below say what each does to every bit.
*/
module Words {

  // A storage word holds 32 bits (INT_BITS); the width is written as the
  // literal 32 throughout, as the source's macros write it.

  /** An unsigned 32-bit storage word. */
  newtype Word = w: int | 0 <= w < 0x1_0000_0000

  function Pow2(j: nat): (p: nat)
    ensures p >= 1
  {
    if j == 0 then 1 else 2 * Pow2(j - 1)
  }

  /** Bit `j` of `w`, least significant bit first. */
  predicate BitOf(w: nat, j: nat)
  {
    if j == 0 then w % 2 == 1 else BitOf(w / 2, j - 1)
  }

  /** `w` with bit `j` forced to `v`: `w | (1 << j)` when `v`, `w & ~(1 << j)` otherwise. */
  function WithBit(w: nat, j: nat, v: bool): nat
  {
    if j == 0 then 2 * (w / 2) + (if v then 1 else 0)
    else 2 * WithBit(w / 2, j - 1, v) + w % 2
  }

  /** `w & (1 << j)`: the word masked down to bit `j`. */
  function Masked(w: nat, j: nat): nat
  {
    if j == 0 then w % 2 else 2 * Masked(w / 2, j - 1)
  }

  /** `w >> j` for an unsigned word. */
  function Shr(w: nat, j: nat): nat
  {
    if j == 0 then w else Shr(w / 2, j - 1)
  }

  // ---------------------------------------------------------------------
  // What each operation does to each bit

  /** Forcing bit `j` to `v` sets exactly that bit to `v` and keeps every other bit. */
  lemma {:induction false} WithBitBits(w: nat, j: nat, v: bool, i: nat)
    ensures BitOf(WithBit(w, j, v), i) == if i == j then v else BitOf(w, i)
    decreases j
  {
    if j > 0 && i > 0 {
      WithBitBits(w / 2, j - 1, v, i - 1);
    }
  }

  /** Forcing a bit below `n` keeps a word of `n` bits within `n` bits. */
  lemma {:induction false} WithBitBound(w: nat, j: nat, v: bool, n: nat)
    requires w < Pow2(n) && j < n
    ensures WithBit(w, j, v) < Pow2(n)
    decreases j
  {
    assert Pow2(n) == 2 * Pow2(n - 1);
    assert w / 2 < Pow2(n - 1);
    if j > 0 {
      WithBitBound(w / 2, j - 1, v, n - 1);
    }
  }

  /** The masked word is zero exactly when the bit is clear, and `2^j` when it is set. */
  lemma {:induction false} MaskedValue(w: nat, j: nat)
    ensures Masked(w, j) == if BitOf(w, j) then Pow2(j) else 0
    decreases j
  {
    if j > 0 {
      MaskedValue(w / 2, j - 1);
    }
  }

  /** Shifting right by `j` brings bit `j` to the bottom. */
  lemma {:induction false} ShrBit(w: nat, j: nat)
    ensures (Shr(w, j) % 2 == 1) == BitOf(w, j)
    decreases j
  {
    if j > 0 {
      ShrBit(w / 2, j - 1);
    }
  }

  /** Two words of `n` bits that agree on every bit are equal. */
  lemma {:induction false} WordExt(x: nat, y: nat, n: nat)
    requires x < Pow2(n) && y < Pow2(n)
    requires forall j :: 0 <= j < n ==> BitOf(x, j) == BitOf(y, j)
    ensures x == y
    decreases n
  {
    if n > 0 {
      forall j | 0 <= j < n - 1
        ensures BitOf(x / 2, j) == BitOf(y / 2, j)
      {
        assert BitOf(x, j + 1) == BitOf(y, j + 1);
      }
      WordExt(x / 2, y / 2, n - 1);
      assert BitOf(x, 0) == BitOf(y, 0);
    }
  }

  /** The zero word has no bit set. */
  lemma {:induction false} ZeroHasNoBits(j: nat)
    ensures !BitOf(0, j)
    decreases j
  {
    if j > 0 {
      ZeroHasNoBits(j - 1);
    }
  }

  /** The byte boundaries of a word and its width as powers of two. */
  lemma WordBound()
    ensures Pow2(8) == 0x100 && Pow2(16) == 0x1_0000 && Pow2(24) == 0x100_0000
    ensures Pow2(32) == 0x1_0000_0000
  {
    assert Pow2(8) == 0x100;
    assert Pow2(16) == 0x1_0000;
    assert Pow2(24) == 0x100_0000;
  }

  // ---------------------------------------------------------------------
  // The operations on storage words

  /** `w | (1 << j)` on a storage word. */
  function SetIn(w: Word, j: nat): (r: Word)
    requires j < 32
  {
    WordBound();
    WithBitBound(w as nat, j, true, 32);
    WithBit(w as nat, j, true) as Word
  }

  /** `w & ~(1 << j)` on a storage word. */
  function ClearIn(w: Word, j: nat): (r: Word)
    requires j < 32
  {
    WordBound();
    WithBitBound(w as nat, j, false, 32);
    WithBit(w as nat, j, false) as Word
  }

  // ---------------------------------------------------------------------
  // The bit view of a storage sequence

  /**
    Every physical bit of `words`: bit `k` is bit `k % 32` of word `k / 32`.
    The view covers the padding bits above the addressable bit count too.
  */
  function Bits(words: seq<Word>): (s: seq<bool>)
    ensures |s| == 32 * |words|
  {
    seq(32 * |words|, k requires 0 <= k < 32 * |words| => BitOf(words[k / 32] as nat, k % 32))
  }

  /** Setting bit `k % 32` of word `k / 32` sets bit `k` of the view and no other. */
  lemma SetInBits(words: seq<Word>, k: nat)
    requires k < 32 * |words|
    ensures Bits(words[k / 32 := SetIn(words[k / 32], k % 32)]) == Bits(words)[k := true]
  {
    var after := words[k / 32 := SetIn(words[k / 32], k % 32)];
    forall i | 0 <= i < 32 * |words|
      ensures Bits(after)[i] == Bits(words)[k := true][i]
    {
      if i / 32 == k / 32 {
        WithBitBits(words[k / 32] as nat, k % 32, true, i % 32);
      }
    }
  }

  /** Clearing bit `k % 32` of word `k / 32` clears bit `k` of the view and no other. */
  lemma ClearInBits(words: seq<Word>, k: nat)
    requires k < 32 * |words|
    ensures Bits(words[k / 32 := ClearIn(words[k / 32], k % 32)]) == Bits(words)[k := false]
  {
    var after := words[k / 32 := ClearIn(words[k / 32], k % 32)];
    forall i | 0 <= i < 32 * |words|
      ensures Bits(after)[i] == Bits(words)[k := false][i]
    {
      if i / 32 == k / 32 {
        WithBitBits(words[k / 32] as nat, k % 32, false, i % 32);
      }
    }
  }

  /** The view loses nothing: storage with equal views is equal. */
  lemma {:induction false} BitsInjective(x: seq<Word>, y: seq<Word>)
    requires |x| == |y| && Bits(x) == Bits(y)
    ensures x == y
  {
    WordBound();
    forall w | 0 <= w < |x|
      ensures x[w] == y[w]
    {
      var xw, yw := x[w] as nat, y[w] as nat;
      forall j | 0 <= j < 32
        ensures BitOf(xw, j) == BitOf(yw, j)
      {
        assert Bits(x)[32 * w + j] == Bits(y)[32 * w + j];
      }
      WordExt(xw, yw, 32);
    }
  }
}
