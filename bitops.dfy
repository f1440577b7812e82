/**
  The bitmap's storage and its bit-level operations: the bounds-checked
  SetBit / ClearBit / TestBit macros, the computation of the number of
  storage words for a bit count, and the BitMap record created once at
  start-up.

  The storage is an array of unsigned 32-bit words (the C code uses `int`
  words; see README for the consequences). Every operation takes the
  addressable bit count `b` explicitly, as the source's macros do; an index
  at or past `b` is answered with -1 and touches nothing.
*/
module BitOps {
  import opened Words

  // ---------------------------------------------------------------------
  // The three macros

  /**
    TestBit(A, k, b): -1 when `k >= b`, otherwise the word holding bit `k`
    masked down to that bit: 0 when the bit is clear and 2^(k % 32) (not 1)
    when it is set. It reads one word and changes nothing.
  */
  function TestBit(a: array<Word>, k: int, b: int): (r: int)
    reads a
    requires 0 <= k && b <= 32 * a.Length
    ensures r == -1 <==> k >= b
    ensures k < b ==> (r == 0 <==> !Bits(a[..])[k])
    ensures k < b && Bits(a[..])[k] ==> r == Pow2(k % 32)
  {
    if k < b then
      MaskedValue(a[k / 32] as nat, k % 32);
      Masked(a[k / 32] as nat, k % 32)
    else
      -1
  }

  /**
    SetBit(A, k, b): when `k < b`, sets bit `k % 32` of word `k / 32`, changes
    no other bit of the storage and returns the updated word; otherwise
    returns -1 and leaves the storage as it was.
  */
  method SetBit(a: array<Word>, k: int, b: int) returns (r: int)
    requires 0 <= k && b <= 32 * a.Length
    modifies a
    ensures r == -1 <==> k >= b
    ensures k >= b ==> a[..] == old(a[..])
    ensures k < b ==> a[..] == old(a[..])[k / 32 := SetIn(old(a[k / 32]), k % 32)]
    ensures k < b ==> r == a[k / 32] as int
    ensures k < b ==> Bits(a[..]) == Bits(old(a[..]))[k := true]
    ensures k < b ==> TestBit(a, k, b) > 0
  {
    if k < b {
      SetInBits(a[..], k);
      a[k / 32] := SetIn(a[k / 32], k % 32);
      r := a[k / 32] as int;
    } else {
      r := -1;
    }
  }

  /**
    ClearBit(A, k, b): when `k < b`, clears bit `k % 32` of word `k / 32`,
    changes no other bit of the storage and returns the updated word;
    otherwise returns -1 and leaves the storage as it was.
  */
  method ClearBit(a: array<Word>, k: int, b: int) returns (r: int)
    requires 0 <= k && b <= 32 * a.Length
    modifies a
    ensures r == -1 <==> k >= b
    ensures k >= b ==> a[..] == old(a[..])
    ensures k < b ==> a[..] == old(a[..])[k / 32 := ClearIn(old(a[k / 32]), k % 32)]
    ensures k < b ==> r == a[k / 32] as int
    ensures k < b ==> Bits(a[..]) == Bits(old(a[..]))[k := false]
    ensures k < b ==> TestBit(a, k, b) == 0
  {
    if k < b {
      ClearInBits(a[..], k);
      a[k / 32] := ClearIn(a[k / 32], k % 32);
      r := a[k / 32] as int;
    } else {
      r := -1;
    }
  }

  // ---------------------------------------------------------------------
  // Sizing

  /**
    determineBitMapSize: the number of 32-bit words for `bits` bits, the
    smallest `size >= 1` with `size * 32 >= bits`. The loop pre-increments
    `size` before its first comparison, so a bit count of 0 or less still
    yields one word.
  */
  method DetermineBitMapSize(bits: int) returns (size: int)
    ensures size >= 1 && size * 32 >= bits
    ensures size == 1 || (size - 1) * 32 < bits
    ensures size == if bits <= 0 then 1 else (bits + 32 - 1) / 32
  {
    size := 0;
    // `while (bits > (++size * INT_BITS)) {}`: every test first increments `size`
    size := size + 1;
    while bits > size * 32
      invariant size >= 1
      invariant size == 1 || (size - 1) * 32 < bits
      decreases bits - size * 32
    {
      size := size + 1;
    }
  }

  // ---------------------------------------------------------------------
  // The BitMap record

  /** A freshly created bitmap: `bitSize` addressable bits over `intSize` words. */
  class BitMap {
    /** bit_size: the number of addressable bits. */
    var bitSize: int
    /** int_size: the number of storage words. */
    var intSize: int
    /** map: the storage words. */
    var words: array<Word>

    /** The sizes agree with the storage and every addressable bit has a place in it. */
    ghost predicate Valid()
      reads this
    {
      words.Length == intSize && 0 <= bitSize <= 32 * intSize
    }

    /** The addressable bits, bit 0 first. */
    ghost function Contents(): (s: seq<bool>)
      reads this, words
      requires Valid()
      ensures |s| == bitSize
    {
      Bits(words[..])[..bitSize]
    }

    /**
      createBitMap(bm, arrSize, bitSize): allocates `arrSize` words, records
      both sizes and zeroes every word, so that no addressable bit is set.
    */
    constructor (arrSize: nat, bitSize: int)
      ensures this.bitSize == bitSize && intSize == arrSize
      ensures fresh(words) && words.Length == arrSize
      ensures forall w :: 0 <= w < arrSize ==> words[w] == 0
      ensures 0 <= bitSize <= 32 * arrSize ==> Valid() && Contents() == seq(bitSize, _ => false)
    {
      this.bitSize := bitSize;
      intSize := arrSize;
      words := new Word[arrSize](_ => 0);
      new;
      if 0 <= bitSize <= 32 * arrSize {
        forall k | 0 <= k < bitSize
          ensures !Contents()[k]
        {
          ZeroHasNoBits(k % 32);
        }
      }
    }
  }

  // ---------------------------------------------------------------------
  // What createBitMap and SetBit do as written

  const WordBytes: nat := 4

  /**
    `x` with its `n` low bytes zeroed (`n` outside [0, 4] clamped): for
    `0 < n < 4` the low `8n` bits become zero and the bits above them are kept.
  */
  function ZeroLowBytes(x: Word, n: int): (r: Word)
    ensures n <= 0 ==> r == x
    ensures n >= 4 ==> r == 0
    ensures 0 < n < 4 ==> (r as int) % Pow2(8 * n) == 0 && (r as int) / Pow2(8 * n) == (x as int) / Pow2(8 * n)
  {
    WordBound();
    if n <= 0 then x
    else if n == 1 then x / 0x100 * 0x100
    else if n == 2 then x / 0x1_0000 * 0x1_0000
    else if n == 3 then x / 0x100_0000 * 0x100_0000
    else 0
  }

  /**
    The storage after `memset(bm->map, 0, bm->int_size)` as createBitMap is
    written: it zeroes `int_size` BYTES of little-endian words whose earlier
    contents (whatever malloc returned) were `prior`. Only the first
    `nbytes / 4` words become zero; the word the byte count splits has its
    low bytes zeroed and keeps the rest, and the words from
    `ceil(nbytes / 4)` on keep their earlier contents.
  */
  function MemsetBytesAsWritten(prior: seq<Word>, nbytes: int): (r: seq<Word>)
    ensures |r| == |prior|
    ensures forall w :: 0 <= w < |prior| && WordBytes * (w + 1) <= nbytes ==> r[w] == 0
    ensures forall w :: 0 <= w < |prior| && nbytes <= WordBytes * w ==> r[w] == prior[w]
    ensures forall w :: 0 <= w < |prior| && 0 < nbytes - WordBytes * w < WordBytes ==>
      var n := nbytes - WordBytes * w;
      (r[w] as int) % Pow2(8 * n) == 0 && (r[w] as int) / Pow2(8 * n) == (prior[w] as int) / Pow2(8 * n)
  {
    seq(|prior|, w requires 0 <= w < |prior| => ZeroLowBytes(prior[w], nbytes - WordBytes * w))
  }

  /**
    createBitMap(bm, 3, 81), the call made for 81 bits, over storage that held
    all ones: word 0 keeps its top byte and words 1 and 2 are not touched, so
    addressable bit 40 is already set when the bitmap is handed out.
  */
  lemma CreateBitMapLeavesBitsSet()
    ensures var r := MemsetBytesAsWritten([0xFFFF_FFFF, 0xFFFF_FFFF, 0xFFFF_FFFF], 3);
      r[0] == 0xFF00_0000 && r[1] == 0xFFFF_FFFF && r[2] == 0xFFFF_FFFF && (81 + 32 - 1) / 32 == 3 && Bits(r)[40]
  {
    var r := MemsetBytesAsWritten([0xFFFF_FFFF, 0xFFFF_FFFF, 0xFFFF_FFFF], 3);
    assert r[1] == 0xFFFF_FFFF;
    assert BitOf(0xFFFF_FFFF, 8);
  }

  /** The C `int` holding the 32-bit pattern `w` (two's complement). */
  function AsCInt(w: Word): int
  {
    if w < 0x8000_0000 then w as int else w as int - 0x1_0000_0000
  }

  /**
    The value the SetBit macro yields as written: the updated `int` word. It
    is -1, the out-of-range answer, whenever the update leaves all 32 bits of
    the word set.
  */
  function SetBitResultAsWritten(w: Word, j: nat): int
    requires j < 32
  {
    AsCInt(SetIn(w, j))
  }

  /** Setting bit 0 of a word that holds bits 1..31 yields -1 although the index is in range. */
  lemma SetBitResultCollides()
    ensures SetBitResultAsWritten(0xFFFF_FFFE, 0) == -1
  {
  }
}
