/**
  printbm: the bitmap laid out as a text grid. Each bit becomes the token
  "1 " or "0 ", bit 0 first and least significant bit first within each
  word; a grid of width `w` puts `w` tokens on each line. The output text is
  returned as a string instead of being written to standard output.
*/
module Render {
  import opened Words
  import opened Arith

  /** The printed form of one bit. */
  function Token(b: bool): (t: string)
    ensures |t| == 2 && t[1] == ' '
    ensures t[0] == (if b then '1' else '0')
  {
    if b then "1 " else "0 "
  }

  /** `text` followed by the output for one bit: a newline first when `newline`, then the bit's token. */
  function PutBit(text: string, newline: bool, b: bool): string
  {
    (if newline then text + "\n" else text) + Token(b)
  }

  /** The tokens of `s` on one line. */
  function Line(s: seq<bool>): (r: string)
    ensures |r| == 2 * |s|
  {
    if |s| == 0 then "" else Line(s[..|s| - 1]) + Token(s[|s| - 1])
  }

  /** The bits of `s` as lines of `w` tokens, the last line possibly shorter, joined by newlines. */
  function Grid(s: seq<bool>, w: int): string
    requires w >= 1
    decreases |s|
  {
    if |s| <= w then Line(s) else Line(s[..w]) + "\n" + Grid(s[w..], w)
  }

  /** The number of bits printbm prints: `maplen`, or every bit of the `length` words when the stop at `maplen` never fires. */
  function Printed(length: int, maplen: int): nat
  {
    if 1 <= maplen <= 32 * length then maplen
    else if length <= 0 then 0
    else 32 * length
  }

  /** Bit number `n` opens a new line of a `w`-wide grid: a positive multiple of `w`. */
  predicate StartsLine(n: nat, w: int)
    requires w >= 1
  {
    Rem(n, w) == 0 && n != 0
  }

  function Abs(x: int): nat
  {
    if x < 0 then -x else x
  }

  // ---------------------------------------------------------------------
  // What the grid holds

  /** Token `k` of a line sits at characters `2k` and `2k + 1`. */
  lemma {:induction false} LineTokens(s: seq<bool>, k: int)
    requires 0 <= k < |s|
    ensures Line(s)[2 * k..2 * k + 2] == Token(s[k])
    decreases |s|
  {
    if k < |s| - 1 {
      LineTokens(s[..|s| - 1], k);
      assert s[..|s| - 1][k] == s[k];
    }
  }

  /**
    Adding one bit to a grid adds its token, preceded by a newline exactly
    when the bit starts a new line: its index is a positive multiple of `w`.
  */
  lemma {:induction false} GridSnoc(s: seq<bool>, b: bool, w: int)
    requires w >= 1
    ensures Grid(s + [b], w) == PutBit(Grid(s, w), StartsLine(|s|, w), b)
    decreases |s|
  {
    if |s| < w {
      GridSnocLineShort(s, b, w);
    } else if |s| == w {
      GridSnocLineFull(s, b, w);
    } else {
      var rest := s[w..];
      GridSnoc(rest, b, w);
      GridSnocLater(s, b, w);
      PutBitAfter(Line(s[..w]) + "\n", Grid(rest, w), StartsLine(|rest|, w), b);
      assert StartsLine(|rest|, w) == StartsLine(|s|, w);
    }
  }

  /** The output for a bit after some text does not depend on what came before that text. */
  lemma PutBitAfter(head: string, text: string, newline: bool, b: bool)
    ensures head + PutBit(text, newline, b) == PutBit(head + text, newline, b)
  {
    if newline {
      assert head + (text + "\n") == (head + text) + "\n";
    }
  }

  /** A bit added to a line that is not yet full stays on that line. */
  lemma GridSnocLineShort(s: seq<bool>, b: bool, w: int)
    requires w >= 1 && |s| < w
    ensures Grid(s + [b], w) == Grid(s, w) + Token(b)
    ensures !StartsLine(|s|, w)
  {
    assert (s + [b])[..|s|] == s;
  }

  /** Past the first line, adding a bit to the grid adds it to the grid of the later lines. */
  lemma GridSnocLater(s: seq<bool>, b: bool, w: int)
    requires w >= 1 && |s| > w
    ensures Grid(s + [b], w) == Line(s[..w]) + "\n" + Grid(s[w..] + [b], w)
  {
    assert (s + [b])[..w] == s[..w];
    assert (s + [b])[w..] == s[w..] + [b];
  }

  /** A bit added to a full single line starts the second line. */
  lemma GridSnocLineFull(s: seq<bool>, b: bool, w: int)
    requires w >= 1 && |s| == w
    ensures Grid(s + [b], w) == Grid(s, w) + "\n" + Token(b)
  {
    assert (s + [b])[..w] == s;
    assert (s + [b])[w..] == [b];
    assert [b][..0] == [];
  }

  /** A grid of `n` bits holds `2n` token characters and a newline before each line after the first. */
  lemma {:induction false} GridLength(s: seq<bool>, w: int)
    requires w >= 1
    ensures |Grid(s, w)| == 2 * |s| + (if |s| == 0 then 0 else (|s| - 1) / w)
    decreases |s|
  {
    if |s| > w {
      GridLength(s[w..], w);
      QuotientAddDivisor(|s| - w - 1, w);
    }
  }

  // ---------------------------------------------------------------------
  // printbm

  /** The source's test `n % cols == 0`, for either sign of `cols`, asks whether `n` is at the start of a row. */
  lemma NewlineTest(i: int, j: int, cols: int)
    requires 0 <= i && 0 <= j < 32 && cols != 0
    ensures ((32 * i + j) % cols == 0 && (j != 0 || i != 0)) == StartsLine(32 * i + j, Abs(cols))
  {
    var n := 32 * i + j;
    RemIsMod(n, Abs(cols));
    if cols < 0 {
      RemainderSign(n, -cols);
    }
  }

  /**
    The text printbm has written once it has printed the first `n` bits of
    `words`, before its final newline, bit by bit: the token of bit
    `k % 32` of word `k / 32` for each `k < n`, preceded by a newline when `k`
    is a positive multiple of `|cols|`.
  */
  function Rendered(words: seq<Word>, n: nat, cols: int): string
    requires n <= 32 * |words| && cols != 0
  {
    if n == 0 then ""
    else
      var k := n - 1;
      PutBit(Rendered(words, k, cols), StartsLine(k, Abs(cols)), Shr(words[k / 32] as nat, k % 32) % 2 == 1)
  }

  lemma TakeSnoc<T>(s: seq<T>, k: nat)
    requires k < |s|
    ensures s[..k + 1] == s[..k] + [s[k]]
  {
  }

  /** The bit-by-bit text is the grid of lines of `|cols|` tokens of the bit view. */
  lemma {:induction false} RenderedIsGrid(words: seq<Word>, n: nat, cols: int)
    requires n <= 32 * |words| && cols != 0
    ensures Rendered(words, n, cols) == Grid(Bits(words)[..n], Abs(cols))
  {
    if n > 0 {
      var k := n - 1;
      RenderedIsGrid(words, k, cols);
      var s := Bits(words);
      ShrBit(words[k / 32] as nat, k % 32);
      TakeSnoc(s, k);
      GridSnoc(s[..k], s[k], Abs(cols));
    }
  }

  /**
    One pass through the inner loop of printbm for bit `j` of word `i`: the
    source's newline test and the token it prints extend the grid of the
    bits before that bit by that bit.
  */
  lemma PrintStep(words: seq<Word>, i: int, j: int, cols: int, count: nat, before: string, after: string)
    requires 0 <= i < |words| && 0 <= j < 32 && cols != 0 && count == 32 * i + j + 1
    requires before == Rendered(words, count - 1, cols)
    requires after == PutBit(before, (32 * i + j) % cols == 0 && (j != 0 || i != 0), Shr(words[i] as nat, j) % 2 == 1)
    ensures after == Rendered(words, count, cols)
  {
    NewlineTest(i, j, cols);
    var k := 32 * i + j;
    assert k / 32 == i && k % 32 == j;
  }

  /**
    printbm(A, length, maplen, cols): walks the `length` words bit by bit,
    emitting one token per bit and a newline before every bit whose running
    count is a nonzero multiple of `cols`, and stops once `maplen` bits are
    out; a final newline ends the text. A `maplen` outside 1..32*length never
    stops the walk, so every bit of the `length` words is printed.
  */
  method PrintBm(a: array<Word>, length: int, maplen: int, cols: int) returns (out: string)
    requires length <= a.Length && cols != 0
    ensures 1 <= maplen <= 32 * length ==> out == Rendered(a[..], maplen, cols) + "\n"
    ensures !(1 <= maplen <= 32 * length) ==> out == Rendered(a[..], if length <= 0 then 0 else 32 * length, cols) + "\n"
  {
    ghost var words, n := a[..], Printed(length, maplen);
    var mapReached := false;
    var bitcnt := 0;
    out := "";
    var i := 0;
    while i < length
      invariant 0 <= i && (i <= length || i == 0)
      invariant bitcnt == 32 * i && bitcnt <= n
      invariant maplen < 1 || bitcnt < maplen
      invariant out == Rendered(words, bitcnt, cols)
    {
      var j := 0;
      while j < 32
        invariant 0 <= j <= 32
        invariant bitcnt == 32 * i + j && bitcnt <= n
        invariant maplen < 1 || bitcnt < maplen
        invariant out == Rendered(words, bitcnt, cols)
      {
        ghost var before := out;
        // the source's two tests, `j != 0` and `j == 0 && i != 0`, print the
        // same newline and are joined here; `!!((A[i] >> j) & 0x1)` is the bit
        out := PutBit(out, bitcnt % cols == 0 && (j != 0 || i != 0), Shr(a[i] as nat, j) % 2 == 1);
        bitcnt := bitcnt + 1;
        PrintStep(words, i, j, cols, bitcnt, before, out);
        if bitcnt == maplen {
          mapReached := true;
          assert bitcnt == n;
          break;
        }
        j := j + 1;
      }
      if mapReached {
        break;
      }
      i := i + 1;
    }
    assert bitcnt == n && a[..] == words;
    out := out + "\n";
  }
}
