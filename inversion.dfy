/**
  Region inversion over the bit view of the storage: the whole bitmap, one
  column or one row of the row-major grid whose width is `colTotal`.

  Each operation is specified by a function on `seq<bool>` that names the
  exact set of indices it flips; the methods walk the indices as the source
  does, one TestBit and one SetBit or ClearBit per index, and are proved to
  turn the bit view into that function of the old bit view.
*/
module Inversion {
  import opened Words
  import opened BitOps
  import opened Arith

  // ---------------------------------------------------------------------
  // Which bits each inversion flips

  /** `s` with every bit below `limit` flipped. */
  function InvertAll(s: seq<bool>, limit: int): (r: seq<bool>)
    ensures |r| == |s|
  {
    seq(|s|, i requires 0 <= i < |s| => if i < limit then !s[i] else s[i])
  }

  /** `s` with every bit below `limit` in column `c` (0-based) of a `colTotal`-wide grid flipped. */
  function ColumnFlipped(s: seq<bool>, limit: int, colTotal: int, c: int): (r: seq<bool>)
    requires colTotal >= 1
    ensures |r| == |s|
  {
    seq(|s|, i requires 0 <= i < |s| => if i < limit && Rem(i, colTotal) == c then !s[i] else s[i])
  }

  /** `s` with every bit in `[lo, hi)` that is also below `limit` flipped. */
  function RowFlipped(s: seq<bool>, lo: int, hi: int, limit: int): (r: seq<bool>)
    ensures |r| == |s|
  {
    seq(|s|, i requires 0 <= i < |s| => if lo <= i < hi && i < limit then !s[i] else s[i])
  }

  /** A column number the source accepts: 1 to `colTotal`. */
  predicate ValidColumn(colTotal: int, colNum: int)
  {
    1 <= colNum <= colTotal
  }

  /**
    The number of rows of a `colTotal`-wide grid of `bitSize` bits: the
    ceiling of the real quotient `bitSize / colTotal`, for either sign.
  */
  function MaxRow(bitSize: int, colTotal: int): int
    requires colTotal != 0
  {
    if colTotal > 0 then (bitSize + colTotal - 1) / colTotal else -(bitSize / -colTotal)
  }

  /** A row number the source accepts: 1 to the number of rows. */
  predicate ValidRow(bitSize: int, colTotal: int, rowNum: int)
    requires colTotal != 0
  {
    1 <= rowNum <= MaxRow(bitSize, colTotal)
  }

  /** invertBitMapColumn on the bit view: column `colNum` (1-based) flipped, or nothing when the column is invalid. */
  function InvertColumn(s: seq<bool>, bitSize: int, colTotal: int, colNum: int): (r: seq<bool>)
    ensures |r| == |s|
  {
    if ValidColumn(colTotal, colNum) then ColumnFlipped(s, bitSize, colTotal, colNum - 1) else s
  }

  /** invertBitMapRow on the bit view: row `rowNum` (1-based) flipped, or nothing when the row is invalid. */
  function InvertRow(s: seq<bool>, bitSize: int, colTotal: int, rowNum: int): (r: seq<bool>)
    requires colTotal != 0
    ensures |r| == |s|
  {
    if ValidRow(bitSize, colTotal, rowNum) then RowFlipped(s, (rowNum - 1) * colTotal, rowNum * colTotal, bitSize) else s
  }

  /** For a valid column, the bits flipped are exactly those below `bitSize` whose index is `colNum - 1` modulo `colTotal`. */
  lemma InvertColumnFlips(s: seq<bool>, bitSize: int, colTotal: int, colNum: int, i: int)
    requires ValidColumn(colTotal, colNum) && 0 <= i < |s|
    ensures InvertColumn(s, bitSize, colTotal, colNum)[i] == if i < bitSize && i % colTotal == colNum - 1 then !s[i] else s[i]
  {
    RemIsMod(i, colTotal);
  }

  /**
    For a positive width, MaxRow is the ceiling of `bitSize / colTotal`: the
    fewest rows that hold `bitSize` bits, so a valid row starts below
    `bitSize` and the last valid row reaches it.
  */
  lemma MaxRowIsCeiling(bitSize: int, colTotal: int)
    requires colTotal >= 1
    ensures MaxRow(bitSize, colTotal) * colTotal >= bitSize
    ensures (MaxRow(bitSize, colTotal) - 1) * colTotal < bitSize
  {
    var x := bitSize + colTotal - 1;
    var q := x / colTotal;
    assert q * colTotal + x % colTotal == x;
    MulSub(colTotal, q, 1);
  }

  /** Every valid row of a positive-width grid starts at a bit below `bitSize`. */
  lemma ValidRowStartsInside(bitSize: int, colTotal: int, rowNum: int)
    requires colTotal >= 1 && ValidRow(bitSize, colTotal, rowNum)
    ensures 0 <= (rowNum - 1) * colTotal < bitSize
  {
    var q := MaxRow(bitSize, colTotal);
    MaxRowIsCeiling(bitSize, colTotal);
    MulSub(colTotal, q - 1, rowNum - 1);
    MulBounds(colTotal, q - rowNum);
    MulBounds(colTotal, rowNum - 1);
  }

  // ---------------------------------------------------------------------
  // invertBitMap

  /** Flipping bit `i` after the bits below it extends the flipped prefix by one. */
  lemma InvertAllStep(s: seq<bool>, i: int)
    requires 0 <= i < |s|
    ensures InvertAll(s, i)[i := !s[i]] == InvertAll(s, i + 1)
  {
  }

  /**
    invertBitMap(A, bitSize): flips every bit below `bitSize` by testing it
    and then setting or clearing it; the padding above `bitSize` is kept.
  */
  method InvertBitMap(a: array<Word>, bitSize: int)
    requires bitSize <= 32 * a.Length
    modifies a
    ensures Bits(a[..]) == InvertAll(Bits(old(a[..])), bitSize)
  {
    ghost var s0 := Bits(a[..]);
    var i := 0;
    while i < bitSize
      invariant 0 <= i && (i <= bitSize || i == 0)
      invariant Bits(a[..]) == InvertAll(s0, i)
    {
      var validBit := TestBit(a, i, bitSize);
      if validBit == 0 {
        var _ := SetBit(a, i, bitSize);
      } else {
        var _ := ClearBit(a, i, bitSize);
      }
      InvertAllStep(s0, i);
      i := i + 1;
    }
    assert InvertAll(s0, i) == InvertAll(s0, bitSize);
  }

  // ---------------------------------------------------------------------
  // invertBitMapColumn

  /** Flipping bit `i` of column `c` extends the flipped part of the column by one row. */
  lemma ColumnStep(s: seq<bool>, i: int, colTotal: int, c: int)
    requires colTotal >= 1 && 0 <= c <= i < |s| && Rem(i, colTotal) == c
    ensures ColumnFlipped(s, i, colTotal, c)[i := !s[i]] == ColumnFlipped(s, i + colTotal, colTotal, c)
    ensures Rem(i + colTotal, colTotal) == c
  {
    var stepped, wanted := ColumnFlipped(s, i, colTotal, c)[i := !s[i]], ColumnFlipped(s, i + colTotal, colTotal, c);
    forall k | 0 <= k < |s|
      ensures stepped[k] == wanted[k]
    {
      if i < k < i + colTotal && Rem(k, colTotal) == c {
        SameRemGap(i, k, colTotal);
      }
    }
  }

  /** Once the walk down column `c` has passed `limit`, it has flipped exactly the column's bits below `limit`. */
  lemma ColumnDone(s: seq<bool>, i: int, limit: int, colTotal: int, c: int)
    requires colTotal >= 1 && 0 <= c <= i && Rem(i, colTotal) == c && limit <= i
    requires i == c || i - colTotal < limit
    ensures ColumnFlipped(s, i, colTotal, c) == ColumnFlipped(s, limit, colTotal, c)
  {
    var walked, wanted := ColumnFlipped(s, i, colTotal, c), ColumnFlipped(s, limit, colTotal, c);
    forall k | 0 <= k < |s|
      ensures walked[k] == wanted[k]
    {
      if limit <= k < i && Rem(k, colTotal) == c {
        SameRemGap(k, i, colTotal);
      }
    }
  }

  /**
    invertBitMapColumn(A, bitSize, colTotal, colNum): with `colNum` outside
    1..colTotal reports the error and changes nothing; otherwise walks down
    column `colNum - 1` in steps of `colTotal` and flips each of its bits
    below `bitSize`.
  */
  method InvertBitMapColumn(a: array<Word>, bitSize: int, colTotal: int, colNum: int) returns (valid: bool)
    requires bitSize <= 32 * a.Length
    modifies a
    ensures valid <==> ValidColumn(colTotal, colNum)
    ensures !valid ==> a[..] == old(a[..])
    ensures Bits(a[..]) == InvertColumn(Bits(old(a[..])), bitSize, colTotal, colNum)
  {
    if colNum > colTotal || colNum < 1 {
      return false;
    }
    ghost var s0 := Bits(a[..]);
    ghost var c := colNum - 1;
    var i := colNum - 1;
    while i < bitSize
      invariant c <= i && Rem(i, colTotal) == c
      invariant i == c || i - colTotal < bitSize
      invariant Bits(a[..]) == ColumnFlipped(s0, i, colTotal, c)
      decreases bitSize - i
    {
      var validBit := TestBit(a, i, bitSize);
      if validBit == 0 {
        var _ := SetBit(a, i, bitSize);
      } else {
        var _ := ClearBit(a, i, bitSize);
      }
      ColumnStep(s0, i, colTotal, c);
      i := i + colTotal;
    }
    ColumnDone(s0, i, bitSize, colTotal, c);
    valid := true;
  }

  // ---------------------------------------------------------------------
  // invertBitMapRow

  /** Visiting index `i` of the row extends the flipped part by one; an index at or past `limit` is left alone. */
  lemma RowStep(s: seq<bool>, lo: int, i: int, limit: int)
    requires 0 <= lo <= i
    ensures i < |s| && i < limit ==> RowFlipped(s, lo, i, limit)[i := !s[i]] == RowFlipped(s, lo, i + 1, limit)
    ensures limit <= i ==> RowFlipped(s, lo, i, limit) == RowFlipped(s, lo, i + 1, limit)
  {
  }

  /** Row `rowNum` starts at `colTotal * rowNum - colTotal` and ends `colTotal` bits later. */
  lemma RowLimits(rowNum: int, colTotal: int)
    ensures (rowNum - 1) * colTotal == colTotal * rowNum - colTotal
    ensures rowNum * colTotal == (rowNum - 1) * colTotal + colTotal
    ensures rowNum >= 1 && colTotal >= 1 ==> (rowNum - 1) * colTotal >= 0
  {
  }

  /**
    invertBitMapRow(A, bitSize, colTotal, rowNum): with `rowNum` outside
    1..ceil(bitSize / colTotal) reports the error and changes nothing;
    otherwise visits the `colTotal` indices of the row, flipping those below
    `bitSize`. The indices of a trailing partial row that lie at or past
    `bitSize` test as -1, fall to ClearBit, and ClearBit leaves them alone.
  */
  method InvertBitMapRow(a: array<Word>, bitSize: int, colTotal: int, rowNum: int) returns (valid: bool)
    requires bitSize <= 32 * a.Length && colTotal != 0
    modifies a
    ensures valid <==> ValidRow(bitSize, colTotal, rowNum)
    ensures !valid ==> a[..] == old(a[..])
    ensures Bits(a[..]) == InvertRow(Bits(old(a[..])), bitSize, colTotal, rowNum)
  {
    var colCnt := 1;
    var maxRow := MaxRow(bitSize, colTotal);
    if rowNum > maxRow || rowNum < 1 {
      return false;
    }
    ghost var s0 := Bits(a[..]);
    ghost var lo, hi := (rowNum - 1) * colTotal, rowNum * colTotal;
    RowLimits(rowNum, colTotal);
    var i := colTotal * rowNum - colTotal;
    while colCnt <= colTotal
      invariant 1 <= colCnt && (colCnt <= colTotal + 1 || colCnt == 1)
      invariant i == lo + colCnt - 1
      invariant Bits(a[..]) == RowFlipped(s0, lo, i, bitSize)
    {
      var validBit := TestBit(a, i, bitSize);
      if validBit == 0 {
        var _ := SetBit(a, i, bitSize);
      } else {
        var _ := ClearBit(a, i, bitSize);
      }
      RowStep(s0, lo, i, bitSize);
      colCnt := colCnt + 1;
      i := i + 1;
    }
    assert RowFlipped(s0, lo, i, bitSize) == RowFlipped(s0, lo, hi, bitSize);
    valid := true;
  }

  // ---------------------------------------------------------------------
  // Each inversion undoes itself

  /** Inverting the whole bitmap twice restores the bit view. */
  lemma InvertAllTwice(s: seq<bool>, bitSize: int)
    ensures InvertAll(InvertAll(s, bitSize), bitSize) == s
  {
  }

  /** Inverting a column twice restores the bit view. */
  lemma InvertColumnTwice(s: seq<bool>, bitSize: int, colTotal: int, colNum: int)
    ensures InvertColumn(InvertColumn(s, bitSize, colTotal, colNum), bitSize, colTotal, colNum) == s
  {
  }

  /** Inverting a row twice restores the bit view. */
  lemma InvertRowTwice(s: seq<bool>, bitSize: int, colTotal: int, rowNum: int)
    requires colTotal != 0
    ensures InvertRow(InvertRow(s, bitSize, colTotal, rowNum), bitSize, colTotal, rowNum) == s
  {
  }

  /**
    Two runs of invertBitMap restore the storage word for word, padding
    included: the run from `w0` to `w1` and the run from `w1` to `w2` leave
    `w2 == w0`.
  */
  lemma InvertBitMapTwiceRestores(w0: seq<Word>, w1: seq<Word>, w2: seq<Word>, bitSize: int)
    requires |w1| == |w0| && |w2| == |w0|
    requires Bits(w1) == InvertAll(Bits(w0), bitSize)
    requires Bits(w2) == InvertAll(Bits(w1), bitSize)
    ensures w2 == w0
  {
    InvertAllTwice(Bits(w0), bitSize);
    BitsInjective(w2, w0);
  }

  /** Two runs of invertBitMapColumn with the same arguments restore the storage word for word. */
  lemma InvertColumnTwiceRestores(w0: seq<Word>, w1: seq<Word>, w2: seq<Word>, bitSize: int, colTotal: int, colNum: int)
    requires |w1| == |w0| && |w2| == |w0|
    requires Bits(w1) == InvertColumn(Bits(w0), bitSize, colTotal, colNum)
    requires Bits(w2) == InvertColumn(Bits(w1), bitSize, colTotal, colNum)
    ensures w2 == w0
  {
    InvertColumnTwice(Bits(w0), bitSize, colTotal, colNum);
    BitsInjective(w2, w0);
  }

  /** Two runs of invertBitMapRow with the same arguments restore the storage word for word. */
  lemma InvertRowTwiceRestores(w0: seq<Word>, w1: seq<Word>, w2: seq<Word>, bitSize: int, colTotal: int, rowNum: int)
    requires colTotal != 0
    requires |w1| == |w0| && |w2| == |w0|
    requires Bits(w1) == InvertRow(Bits(w0), bitSize, colTotal, rowNum)
    requires Bits(w2) == InvertRow(Bits(w1), bitSize, colTotal, rowNum)
    ensures w2 == w0
  {
    InvertRowTwice(Bits(w0), bitSize, colTotal, rowNum);
    BitsInjective(w2, w0);
  }
}
