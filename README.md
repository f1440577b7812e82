# BitMapC bitmap engine in Dafny

A model of the bitmap engine of `src/bit-ops.c`: a fixed-capacity bit array
kept in 32-bit words, addressed by bit index `k` at bit `k % 32` of word
`k / 32` (least significant bit first). The model covers:

- the bounds-checked `SetBit`, `ClearBit` and `TestBit` macros;
- `determineBitMapSize`;
- the `BitMap` record and `createBitMap`;
- the three region inversions: the whole map, one column and one row of a
  row-major grid;
- `printbm`, which lays the bits out as a text grid.

Modules:

- `Words`: storage words (`newtype Word`, integers in `[0, 2^32)`). It also
  defines the single-bit operations behind the macros' C operators, as
  definitions over the binary digits, and the bit view
  `Bits(words): seq<bool>`. The view lists every physical bit, including
  the padding above the addressable count.
- `BitOps`: the macros, `determineBitMapSize`, the `BitMap` class and the two
  findings below.
  - `SetBit` and `ClearBit` are methods that update one word of an
    `array<Word>` in place.
  - `TestBit` is a function that reads it.
  - `DetermineBitMapSize` keeps the source's pre-incrementing loop.
- `Inversion`: the three inversions are methods that walk the indices as the
  source does, with one `TestBit` and then one `SetBit` or `ClearBit` per
  index.
  - Each is proved to turn the bit view into a specification function of the
    old view: `InvertAll`, `InvertColumn` and `InvertRow`. Each function names
    exactly the indices flipped.
  - Lemmas show that each inversion undoes itself on the view.
  - Because the view is injective, a second run with the same arguments
    restores the storage word for word, padding included.
- `Render`: `printbm` returns its output as a `string` instead of writing it.
  It is proved to produce `Rendered` of the printed bit count, plus a final
  newline. The printed bit count is `maplen`, or every bit of the `length`
  words when `maplen` is outside `1..32*length`. `Rendered` is the bit-by-bit text: each bit's token `"1 "` or
  `"0 "`, preceded by a newline when the bit's index is a positive multiple
  of `|cols|`. `RenderedIsGrid` shows this text is the grid of lines of
  `|cols|` tokens.
- `Arith`: remainder and multiplication facts for a variable divisor, used by
  the column and row proofs and by the newline test.

The error paths of `invertBitMapColumn` and `invertBitMapRow` print a message
and return. Here they return `valid == false` and leave the storage as it was.

## Model

| member | source | states |
|---|---|---|
| Words.WithBitBits | src/bit-ops.c:6-7 | `w \| (1 << j)` and `w & ~(1 << j)` force bit `j` to 1 or 0 and keep every other bit of the word |
| Words.MaskedValue | src/bit-ops.c:8 | `w & (1 << j)` is 0 exactly when bit `j` is clear and `2^j` when it is set |
| Words.ShrBit | src/bit-ops.c:176 | `(w >> j) & 1` is 1 exactly when bit `j` of `w` is set |
| Words.SetInBits | src/bit-ops.c:6 | setting bit `k % 32` of word `k / 32` sets bit `k` of the bit view and changes no other bit of the storage |
| Words.ClearInBits | src/bit-ops.c:7 | clearing bit `k % 32` of word `k / 32` clears bit `k` of the bit view and changes no other bit of the storage |
| Words.BitsInjective | src/bit-ops.c:21-25 | two word arrays with the same bit view are equal, so the view (padding included) determines the storage |
| BitOps.TestBit | src/bit-ops.c:8 | -1 exactly when `k >= b`; otherwise 0 exactly when bit `k` is clear, and `2^(k % 32)`, not 1, when it is set; reads the storage and changes nothing |
| BitOps.SetBit | src/bit-ops.c:6 | -1 and storage unchanged exactly when `k >= b`; otherwise word `k / 32` gets bit `k % 32` set, the bit view changes only at `k`, the result is the updated word, and TestBit then reports the bit set |
| BitOps.ClearBit | src/bit-ops.c:7 | -1 and storage unchanged exactly when `k >= b`; otherwise word `k / 32` gets bit `k % 32` cleared, the bit view changes only at `k`, the result is the updated word, and TestBit then reports 0 |
| BitOps.DetermineBitMapSize | src/bit-ops.c:60-65 | the smallest `size >= 1` with `size * 32 >= bits`, which is `ceil(bits / 32)`, and 1 for `bits <= 0` because the loop pre-increments |
| BitOps.BitMap.constructor | src/bit-ops.c:35-50 | records `bitSize` and `intSize`, allocates `intSize` fresh words, and zeroes all of them (the corrected createBitMap), so no addressable bit is set |
| BitOps.MemsetBytesAsWritten | src/bit-ops.c:47 | `memset(map, 0, int_size)` zeroes `int_size` bytes: the words wholly inside those bytes become 0; the word the byte count splits, with `n` of its bytes covered, has its low `8n` bits zeroed and its bits above kept; the words past them keep their earlier contents |
| BitOps.CreateBitMapLeavesBitsSet | src/bit-ops.c:47 | for the 81-bit map of 3 words over all-ones memory, word 0 keeps its top byte and words 1 and 2 are untouched, so addressable bit 40 starts set |
| BitOps.SetBitResultCollides | src/bit-ops.c:6 | the macro's value as written, the updated signed `int` word, is -1 (the out-of-range answer) for an in-range set of bit 0 of `0xFFFFFFFE` |
| Inversion.InvertBitMap | src/bit-ops.c:74-85 | the new bit view is the old one with exactly the bits below `bitSize` flipped; padding bits are kept |
| Inversion.InvertAllTwice | src/bit-ops.c:74-85 | flipping the bits below `bitSize` twice gives back the bit view |
| Inversion.InvertBitMapTwiceRestores | src/bit-ops.c:74-85 | two runs of invertBitMap restore the storage word for word |
| Inversion.InvertBitMapColumn | src/bit-ops.c:97-114 | reports `valid` exactly when `1 <= colNum <= colTotal`; when invalid, the storage is unchanged; when valid, the bits flipped are exactly column `colNum - 1` below `bitSize` and no other bit changes |
| Inversion.InvertColumnFlips | src/bit-ops.c:107 | for a valid column, bit `i` is flipped exactly when `i < bitSize` and `i % colTotal == colNum - 1` |
| Inversion.InvertColumnTwice | src/bit-ops.c:97-114 | inverting the same column twice gives back the bit view |
| Inversion.InvertColumnTwiceRestores | src/bit-ops.c:97-114 | two runs of invertBitMapColumn with the same arguments restore the storage word for word |
| Inversion.InvertBitMapRow | src/bit-ops.c:127-146 | reports `valid` exactly when `1 <= rowNum <= ceil(bitSize / colTotal)`; when invalid, the storage is unchanged; when valid, exactly the bits of `[(rowNum-1)*colTotal, rowNum*colTotal)` below `bitSize` are flipped, and indices at or past `bitSize` in a trailing partial row are left alone |
| Inversion.MaxRowIsCeiling | src/bit-ops.c:130 | for a positive width, the row count is the ceiling of `bitSize / colTotal`: `maxRow` rows hold all the bits and `maxRow - 1` rows do not |
| Inversion.ValidRowStartsInside | src/bit-ops.c:130-138 | every row the check accepts starts at a bit index in `[0, bitSize)` |
| Inversion.InvertRowTwice | src/bit-ops.c:127-146 | inverting the same row twice gives back the bit view |
| Inversion.InvertRowTwiceRestores | src/bit-ops.c:127-146 | two runs of invertBitMapRow with the same arguments restore the storage word for word |
| Render.NewlineTest | src/bit-ops.c:172-173 | the source's two tests `bitcnt % cols == 0` (with `j != 0`, or `j == 0 && i != 0`) hold exactly when the running bit count is a positive multiple of `\|cols\|`, for either sign of `cols` |
| Render.PrintStep | src/bit-ops.c:170-177 | one pass of the inner loop (optional newline, then token of `(A[i] >> j) & 1`) extends the text for the first `32i + j` bits to the text for the first `32i + j + 1` bits |
| Render.PrintBm | src/bit-ops.c:162-194 | for `1 <= maplen <= 32 * length`, the output is the text for exactly the first `maplen` bits of `A` in increasing index order, then one newline; for any other `maplen` the stop never fires and the text covers all `32 * length` bits (none when `length <= 0`) |
| Render.GridSnoc | src/bit-ops.c:172-176 | adding a bit to the grid adds its token, with a newline first exactly when the bit's index is a positive multiple of the width |
| Render.RenderedIsGrid | src/bit-ops.c:167-185 | printbm's bit-by-bit text is the grid of the printed bits: lines of `\|cols\|` tokens, the last possibly shorter, joined by newlines |
| Render.GridLength | src/bit-ops.c:172-176 | a grid of `n` bits holds `2n` token characters plus one newline before each line after the first |
| Render.LineTokens | src/bit-ops.c:176 | token `k` of a line occupies characters `2k` and `2k+1`, is `"1 "` or `"0 "` as bit `k` is set or clear |

## Left out

- The command-line program in `src/bitmap-datatype.c` (menu, `scanf` loop, argument parsing, help text) is not part of this model; it only reads input and calls the core.
- `malloc` and `free`: creation is a fresh array of `arrSize` words; allocation failure is not modelled.
- The `printf` diagnostics of the column and row error paths: the model returns `valid == false` and leaves the storage unchanged instead of printing.
- printbm writes to standard output; the model returns the text as a `string`.
- Words are unsigned 32-bit values. The C words are signed `int`, and `1 << 31` on `int` is undefined behaviour. For the bit operations the unsigned reading gives the intended result, and so does the arithmetic right shift in printbm for `j < 32`.
- BitOps.TestBit, BitOps.SetBit, BitOps.ClearBit: require `k >= 0`; the macros never check for a negative index. C division truncates toward zero, so for `-31 <= k <= -1` the macros address word 0 with the negative shift `1 << (k % 32)`, which is undefined behaviour, and for `k <= -32` they address memory before the array.
- BitOps.TestBit, BitOps.SetBit, BitOps.ClearBit and the inversions: require the addressable count `b` to fit in the storage (`b <= 32 * length`), as `createBitMap`'s callers arrange; the C code does not check this.
- Inversion.InvertBitMapRow: requires `colTotal != 0`. The source divides by `colTotal * 1.0` and converts the resulting infinity or NaN to `int`, which is undefined behaviour in C.
- Inversion.MaxRow: the floating-point `(int) ceil(bitSize / (colTotal * 1.0))` is replaced by exact integer ceiling division for either sign of `colTotal`. The double quotient is usually not exact (`25 / 3.0`), but the two still agree. A non-integer quotient `b / c` lies at least `1 / |c|` from every integer, while the double's rounding error is at most `|b / c| * 2^-53`, which is below `1 / |c|` because `|b| < 2^53`; so rounding never crosses an integer. The one exception is `bitSize == INT_MIN, colTotal == -1`: the ceiling `2^31` overflows the `(int)` cast, which is undefined behaviour in C, while MaxRow returns `2^31`.
- Render.PrintBm: requires `cols != 0`, since `bitcnt % 0` is undefined behaviour in C, and `length <= a.Length`.
- C `int` overflow of `bitcnt`, `i` and the products `colTotal * rowNum` and `size * INT_BITS` is not modelled: indices are unbounded integers.
- BitOps.BitMap.constructor: models createBitMap as intended (every word zeroed); what the code as written does is in the first row of Findings.
- BitOps.SetBit: returns the updated word as an unsigned value, so an in-range call never yields -1; the signed value as written is in the second row of Findings.

## Findings

| source | as written | input that shows it | evidently intended | confidence | as-written member | corrected member |
|---|---|---|---|---|---|---|
| src/bit-ops.c:47 | `memset(bm->map, 0, bm->int_size)` zeroes `int_size` bytes, a quarter of the storage | `createBitMap(bm, 3, 81)` over memory holding all ones: only bits 0-23 are zeroed and addressable bit 40 starts set | zero all `int_size` words (`int_size * sizeof(int)` bytes), as the comment above it says | high (not executed) | BitOps.MemsetBytesAsWritten, BitOps.CreateBitMapLeavesBitsSet | BitOps.BitMap.constructor |
| src/bit-ops.c:6 | SetBit's value is the updated signed `int` word, and its caller at src/bitmap-datatype.c:51 reads -1 as "bit outside the bitmap" | SetBit on bit 0 of a word holding `0xFFFFFFFE` with `0 < b`: the word becomes all ones, i.e. -1, and the in-range set is reported as out of range | an in-range set is never reported as -1 | high (not executed) | BitOps.SetBitResultCollides | BitOps.SetBit |
