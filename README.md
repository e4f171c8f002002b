# FixedInt: fixed-width integers over 32-bit limbs

This project models `math::FixedInt<Bits>` and the `memory` size helpers it
is built on.

A `FixedInt<Bits>` holds an array `data_` of `n = ceil(Bits / 32)` cells.
Each cell is a 64-bit `memory::Word` that is meant to hold one 32-bit limb,
and limb 0 is the least significant. The operations are:

- three constructors: from a native unsigned value, from a decimal string,
  and from a byte buffer;
- the defaulted comparison `<=>`;
- the in-place sign flip `-`;
- the ripple-carry `+=` and the schoolbook `*=`;
- the hex `to_string`.

The `memory` helpers convert between bit and byte counts. They also fix the
platform's word at 64 bits and its half-word at 32 bits.

Files and what they hold:

- `memory.dfy` (module `Memory`): the bit and byte counts, `size_of`, and
  the word and half-word types and widths.
- `limbs.dfy` (module `Limbs`): the number a sequence of cells stands for,
  `Value(s) = s[0] + 2^32 * Value(s[1..])`, and the predicate `Normalized`
  (every cell below 2^32).
- `arith.dfy` (module `Arith`): the loops of `+=` and `*=`, the comparison
  and the sign flip, each as a function on cell sequences. The lemmas say
  what number each computes.
- `construct.dfy` (module `Construct`): the three constructors' loops as
  functions, with their properties.
- `hex.dfy` (module `Hex`): `std::format("{:0{}x}")` applied to a cell, and
  `to_string`.
- `fixedint.dfy` (module `Math`): the class `FixedInt`. It has a `const bits`
  (the template argument) and a `const data: array<Word>` (`data_`). Every
  operator works in place on `data`, and each method's postcondition ties
  the new cells to the function of the old cells that mirrors its loop.
- `corrected.dfy` (module `Corrected`): corrected versions of three operations
  whose loops, as written, do not compute the intended number. Each has its
  intended property proved.

The class models the code as written. The corrected definitions sit beside
it, and nothing else in the model calls them.

Modelling choices:

- The masks on lines 86 and 105 are written as `(1 << 32) - 1` on an `int`,
  and the flip on line 76 is written as `1 << 63` on an `int`. The model
  uses the intended values 2^32 - 1 and 2^63 (bit 63 of the top cell).
- 64-bit wrap-around is written out as `% 2^64` wherever a sum or product
  can exceed a word.
- Where the code would read or write out of bounds, that is a precondition,
  except in `*=`. There, cells `fPos + sPos >= n` are written on every
  call, so the model drops those writes.

## Model

| member | source | states |
|---|---|---|
| Memory.ToBits | src/lib/es3n1n/common/memory/size.hpp:10-12 | `to_bits`: a byte count times `CHAR_BIT`; its inverse is `ToBytes` (see the next two rows) |
| Memory.ToBytes | src/lib/es3n1n/common/memory/size.hpp:14-16 | `to_bytes`: a bit count over `CHAR_BIT`, rounded down |
| Memory.ToBytesOfToBits | src/lib/es3n1n/common/memory/size.hpp:10-16 | `to_bits(b)` is `8b`, and `to_bytes(to_bits(b)) == b` |
| Memory.ToBitsOfToBytes | src/lib/es3n1n/common/memory/size.hpp:10-16 | `to_bytes(x)` is `x / 8` rounded down; `to_bits(to_bytes(x)) <= x`, with equality exactly when `x % 8 == 0` |
| Memory.SizeOf | src/lib/es3n1n/common/memory/size.hpp:18-21 | `size_of<Ty>()` for the unsigned types of 8, 16, 32 and 64 bits: 1, 2, 4 and 8 bytes, so that `Modulus` is 2 to the power of 8 times the size |
| Memory.HalfWordIsHalfOfWord | src/lib/es3n1n/common/memory/size.hpp:23-41 | the word has 64 bits and the half-word 32; the half-word is `uint32_t`, half the word's size; its range squared is the word's range |
| Limbs.RadixIsHalfWord | src/lib/es3n1n/common/memory/size.hpp:38-41 | the limb radix 2^32 is the half-word's range, and its square is the word's range |
| Limbs.ValueBound | src/lib/es3n1n/common/math/fixedint.hpp:133-136 | normalized cells stand for a number below 2^(32n) |
| Limbs.DigitsOfValue | src/lib/es3n1n/common/math/fixedint.hpp:133-136 | normalized cells are the base-2^32 digits of their number |
| Limbs.DigitsValue | src/lib/es3n1n/common/math/fixedint.hpp:133-136 | the base-2^32 digits of any number x stand for x mod 2^(32n); with `DigitsOfValue`, the two halves of the round trip between numbers and normalized cells |
| Limbs.ValueInjective | src/lib/es3n1n/common/math/fixedint.hpp:133-136 | two normalized cell arrays of one length with the same number are equal |
| Math.ValidWidth | src/lib/es3n1n/common/math/fixedint.hpp:24 | the template's `requires`: more bits than a word (64) and a whole number of bytes; `NamedWidths` and `LimbCountFits` use it |
| Math.LimbCount | src/lib/es3n1n/common/math/fixedint.hpp:133 | `kNumberOfHalfWords`, `Bits` over the half-word's 32 bits rounded up; `LimbCountFits` proves it the fewest limbs that hold `Bits` bits |
| Math.LimbCountFits | src/lib/es3n1n/common/math/fixedint.hpp:133 | `kNumberOfHalfWords` is the fewest 32-bit limbs that hold `Bits` bits, and every permitted width has at least 3 |
| Math.NamedWidths | src/lib/es3n1n/common/math/fixedint.hpp:139-140 | `Int128` and `Int256` meet the template's requirement and have 4 and 8 limbs |
| Math.Int128ZeroString | src/lib/es3n1n/common/math/fixedint.hpp:115-140 | `to_string` of a zero `Int128` is 32 `'0'` characters |
| Math.FixedInt.constructor | src/lib/es3n1n/common/math/fixedint.hpp:136 | the default constructor leaves every cell zero |
| Math.FixedInt.FromNative | src/lib/es3n1n/common/math/fixedint.hpp:30-42 | the loop's writes are exactly those of `NativeLimbs` |
| Construct.NativeWrites | src/lib/es3n1n/common/math/fixedint.hpp:34-38 | mirrors the loop `for (i = 0; value; i++)`: cell i gets the low 32 bits, the value moves right by 32 bits, until it is zero; its requires keeps every write on the cells (`BelowNextWeight`) |
| Construct.NativeLimbs | src/lib/es3n1n/common/math/fixedint.hpp:31-42 | mirrors the whole constructor: the loop for a type wider than the half-word, the plain store to cell 0 otherwise; `NativeLimbsValue` says what it stores |
| Construct.NativeLimbsValue | src/lib/es3n1n/common/math/fixedint.hpp:30-42 | any native value v gives limb 0 = v mod 2^32, limb 1 = v div 2^32 and zero above; the cells are normalized and stand for v; a value of at most 32 bits goes straight to cell 0 |
| Construct.NativeWritesDigits | src/lib/es3n1n/common/math/fixedint.hpp:34-38 | the shifting loop over zero cells writes the base-2^32 digits of the value |
| Construct.BelowNextWeight | src/lib/es3n1n/common/math/fixedint.hpp:34-38 | a nonzero value below 2^(32k) needs a cell, and shifting it by 32 leaves it below 2^(32(k-1)) (the loop stays on the cells) |
| Construct.WordFitsInCells | src/lib/es3n1n/common/math/fixedint.hpp:30-38 | any 64-bit value fits in the cells of a permitted width |
| Math.FixedInt.FromDecimal | src/lib/es3n1n/common/math/fixedint.hpp:44-63 | the loop, read from the last character to the first, leaves exactly the cells of `DecimalLimbs` |
| Construct.DecFlush | src/lib/es3n1n/common/math/fixedint.hpp:51-56 | mirrors the flush branch: the low limb goes to the next cell, the accumulator keeps its upper 32 bits, the multiplier restarts at 1 |
| Construct.DecAdd | src/lib/es3n1n/common/math/fixedint.hpp:57-58 | mirrors the two updates after the branch: the digit times the multiplier is added and the multiplier is multiplied by 10, both wrapping at 2^64 |
| Construct.DecStep | src/lib/es3n1n/common/math/fixedint.hpp:50-58 | mirrors one pass of the loop body: the flush when the accumulator has reached 2^32 - 1, then the addition |
| Construct.DecScan | src/lib/es3n1n/common/math/fixedint.hpp:49-59 | mirrors the range-for over `reverse_view(value)`: s[k-1] down to s[0], one `DecStep` each (`DecScanFirst`, `DecScanGrows`) |
| Construct.DecimalLimbs | src/lib/es3n1n/common/math/fixedint.hpp:44-63 | mirrors the whole constructor: the scan from accumulator 0 and multiplier 1, then the final store of a nonzero accumulator, over zero cells; `DecimalShort`, `DecimalOfZeros` and `DecimalElevenNines` say what it stores |
| Construct.HalfWordMax | src/lib/es3n1n/common/math/fixedint.hpp:51 | the flush threshold `numeric_limits<HalfWord>::max()` is 2^32 - 1 |
| Construct.DecScanGrows | src/lib/es3n1n/common/math/fixedint.hpp:49-59 | the loop only appends to the cells it has flushed |
| Construct.DecFlushFits | src/lib/es3n1n/common/math/fixedint.hpp:51-56 | when all the loop's writes fit, each flush writes a cell below n |
| Construct.DecimalOfZeros | src/lib/es3n1n/common/math/fixedint.hpp:44-63 | the empty string and any string of `'0'` give all-zero cells |
| Construct.DecimalShort | src/lib/es3n1n/common/math/fixedint.hpp:44-63 | a string of at most ten digits never flushes; its decimal number lands in cell 0 with zero above; for at most nine digits the cells are normalized |
| Construct.DecScanShort | src/lib/es3n1n/common/math/fixedint.hpp:49-59 | over the last at most ten digits the accumulator is the decimal number of the digits read and the multiplier is 10 to their count |
| Construct.DecValueBound | src/lib/es3n1n/common/math/fixedint.hpp:44-63 | k decimal digits stand for a number below 10^k |
| Construct.DecStepNoFlush | src/lib/es3n1n/common/math/fixedint.hpp:51-58 | a pass below the threshold, without wrap, adds digit times multiplier and multiplies the multiplier by ten |
| Construct.DecScanFirst | src/lib/es3n1n/common/math/fixedint.hpp:49 | the first character of the string is the last one the loop reads |
| Construct.DecimalElevenNines | src/lib/es3n1n/common/math/fixedint.hpp:44-63 | `"99999999999"` gives cells `[1410065407, 11, 0, ...]`, although it stands for 99999999999 |
| Construct.ElevenNinesValue | src/lib/es3n1n/common/math/fixedint.hpp:52-61 | those cells stand for 48654705663 |
| Construct.NinesValue | src/lib/es3n1n/common/math/fixedint.hpp:44-63 | k nines stand for 10^k - 1 |
| Math.FixedInt.FromBytes | src/lib/es3n1n/common/math/fixedint.hpp:66-70 | the loop leaves exactly the cells of `ByteLimbs` |
| Construct.ByteWrites | src/lib/es3n1n/common/math/fixedint.hpp:67-69 | mirrors the loop from pass i on: pass i assigns cell `(size - i - 1) / 4` the byte `value[(8i) % 32]`; `ByteWritesCell` says what each cell ends with |
| Construct.ByteLimbs | src/lib/es3n1n/common/math/fixedint.hpp:66-70 | mirrors the whole constructor over zero cells; `ByteLimbsCells` and `BytesLoseValue` say what it stores |
| Construct.ByteAccessesCharacterized | src/lib/es3n1n/common/math/fixedint.hpp:67-68 | every read `(8i) % 32` and every write `(size - i - 1) / 4` is in range exactly when `size <= 4n` and the size is 0, 1 or at least 25 |
| Construct.ByteLimbsCells | src/lib/es3n1n/common/math/fixedint.hpp:66-70 | cells above `(size - 1) / 4` stay zero; every lower cell is assigned the single byte `value[8 * ((size - 1) % 4)]`, so it is below 256 |
| Construct.ByteWritesCell | src/lib/es3n1n/common/math/fixedint.hpp:67-68 | each cell ends with what its last writer read |
| Construct.LastWriterRead | src/lib/es3n1n/common/math/fixedint.hpp:68 | the last writer of every cell reads the same byte as the last pass |
| Construct.ByteLimbsEmpty | src/lib/es3n1n/common/math/fixedint.hpp:66-70 | an empty buffer gives zero |
| Math.FixedInt.Compare | src/lib/es3n1n/common/math/fixedint.hpp:73 | the comparison is `Equal` exactly when all cells are equal |
| Arith.CompareLimbs | src/lib/es3n1n/common/math/fixedint.hpp:73 | mirrors the defaulted `<=>` on the one member `data_`: `std::array` compares lexicographically from cell 0; the lemmas below say which order that is |
| Arith.CompareEqual | src/lib/es3n1n/common/math/fixedint.hpp:73 | the lexicographic order of the cells is `Equal` exactly for equal cells |
| Arith.CompareFirstDifference | src/lib/es3n1n/common/math/fixedint.hpp:73 | the first differing cell, counted from cell 0, decides the order |
| Arith.CompareTopLimb | src/lib/es3n1n/common/math/fixedint.hpp:73 | two values that differ only in the top cell are ordered by that cell |
| Arith.CompareAntisymmetric | src/lib/es3n1n/common/math/fixedint.hpp:73 | swapping the operands reverses the order |
| Arith.CompareTransitive | src/lib/es3n1n/common/math/fixedint.hpp:73 | `Less` is transitive |
| Arith.CompareIsNotNumeric | src/lib/es3n1n/common/math/fixedint.hpp:73 | because cell 0 is compared first, 1 compares greater than 2^32 |
| Math.FixedInt.Negate | src/lib/es3n1n/common/math/fixedint.hpp:75-78 | the new cells are `Negated` of the old ones |
| Arith.Negated | src/lib/es3n1n/common/math/fixedint.hpp:76 | mirrors line 76: only the top cell changes, by `FlipSignBit`; `NegateOnlyTopBit` and `NegateTwice` are its properties |
| Arith.FlipSignBit | src/lib/es3n1n/common/math/fixedint.hpp:76 | XOR with 2^63 keeps bits 0-62 and inverts bit 63 |
| Arith.NegateOnlyTopBit | src/lib/es3n1n/common/math/fixedint.hpp:76 | every cell but the top one is unchanged, and so are bits 0-62 of the top cell, while bit 63 changes |
| Arith.NegateTwice | src/lib/es3n1n/common/math/fixedint.hpp:75-78 | flipping twice restores the cells |
| Arith.FlipSignBitTwice | src/lib/es3n1n/common/math/fixedint.hpp:76 | flipping a word twice restores it |
| Arith.NegateLeavesLimbRange | src/lib/es3n1n/common/math/fixedint.hpp:75-78 | on normalized cells the flip adds 2^63 * 2^(32(n-1)): the result is no longer normalized and is at least 2^(32n) |
| Math.FixedInt.AddAssign | src/lib/es3n1n/common/math/fixedint.hpp:80-90 | the ripple-carry loop, even when `rhs` is the object itself, leaves `AddLimbs` of the old cells |
| Arith.AddCarry | src/lib/es3n1n/common/math/fixedint.hpp:83-87 | mirrors the ripple loop from cell i on: the wrapping 64-bit sum of both cells and the carry, its low 32 bits stored, its high bits carried; `AddCarryValue` says what number it computes |
| Arith.CarryOut | src/lib/es3n1n/common/math/fixedint.hpp:85 | the carry left after the top cell, which `+=` discards; `AddCarryValue` and `AddCarryIsBit` bound it |
| Arith.AddLimbs | src/lib/es3n1n/common/math/fixedint.hpp:80-90 | mirrors `+=`: the ripple loop from cell 0 with carry 0; `AddLimbsValue` says it is addition mod 2^(32n) |
| Arith.AddLimbsValue | src/lib/es3n1n/common/math/fixedint.hpp:80-90 | for normalized operands the sum stands for (A + B) mod 2^(32n); the top carry is discarded |
| Arith.AddCarryValue | src/lib/es3n1n/common/math/fixedint.hpp:83-87 | the loop from any carry below 2^32 loses nothing: cells plus carry out times 2^(32n) is A + B + carry, and the carry out stays below 2^32 |
| Arith.AddCarryNormalized | src/lib/es3n1n/common/math/fixedint.hpp:86 | every cell the sum writes is below 2^32 |
| Arith.AddCarryCommutes | src/lib/es3n1n/common/math/fixedint.hpp:84 | `a + b` and `b + a` give the same cells |
| Arith.AddZero | src/lib/es3n1n/common/math/fixedint.hpp:80-90 | adding zero to normalized cells gives the same cells |
| Arith.AddPassExact | src/lib/es3n1n/common/math/fixedint.hpp:84-85 | on 32-bit limbs with a carry of 0 or 1, the 64-bit sum of a pass never wraps and the carry it passes on is 0 or 1 |
| Arith.AddCarryIsBit | src/lib/es3n1n/common/math/fixedint.hpp:83-87 | over normalized operands every carry of the loop, and the carry out that `+=` discards, is 0 or 1 |
| Arith.AddCarriesAcrossLimbs | src/lib/es3n1n/common/math/fixedint.hpp:80-90 | `(2^64 - 1) + 1` carries through two cells into the third |
| Arith.CarryThroughAllOnes | src/lib/es3n1n/common/math/fixedint.hpp:83-87 | a carry into a full cell ripples on into the next one |
| Arith.CarryIntoZeros | src/lib/es3n1n/common/math/fixedint.hpp:83-87 | a carry into zero cells stops at the first one |
| Math.FixedInt.MulAssign | src/lib/es3n1n/common/math/fixedint.hpp:98-113 | the two loops into a zeroed result, then the copy, leave `MulLimbs` of the old cells, even when `rhs` is the object itself |
| Math.FixedInt.MulRowInto | src/lib/es3n1n/common/math/fixedint.hpp:103-107 | one pass of the inner loop leaves `MulRow` of the old result |
| Arith.MulRow | src/lib/es3n1n/common/math/fixedint.hpp:103-107 | mirrors the inner loop for limb x = `data_[fPos]`: the wrapping partial product plus carry, its low half added to cell f + s (dropped past the top), its high half carried; `MulRowValue` and `MulRowBounded` say what it adds |
| Arith.MulRows | src/lib/es3n1n/common/math/fixedint.hpp:102-109 | mirrors the outer loop from pass f on, each pass starting with carry 0; `MulRowsValue` says what it adds |
| Arith.MulLimbs | src/lib/es3n1n/common/math/fixedint.hpp:98-113 | mirrors `*=`: both loops over a zeroed `result`; `MulLimbsValue` says it is multiplication mod 2^(32n) |
| Arith.MulLimbsValue | src/lib/es3n1n/common/math/fixedint.hpp:98-113 | for normalized operands the product's cells stand for a number congruent to A * B modulo 2^(32n) |
| Arith.PartialProductFits | src/lib/es3n1n/common/math/fixedint.hpp:104-106 | for normalized operands every `a_f * b_s + carry` fits in 64 bits, and its upper half is below 2^32 |
| Arith.MulRowBounded | src/lib/es3n1n/common/math/fixedint.hpp:103-107 | after row f every cell is at most (f + 1)(2^32 - 1): the additions on line 105 never wrap |
| Arith.MulRowValue | src/lib/es3n1n/common/math/fixedint.hpp:103-107 | a row adds limb a_f times the multiplier, shifted by f limbs, modulo 2^(32n) |
| Arith.MulRowsValue | src/lib/es3n1n/common/math/fixedint.hpp:102-109 | the rows from f on add the rest of a times b, modulo 2^(32n) |
| Arith.MulRowUnfold | src/lib/es3n1n/common/math/fixedint.hpp:104-106 | one inner step adds the low half of the partial product into cell f + s and carries the high half |
| Arith.MulRowCell | src/lib/es3n1n/common/math/fixedint.hpp:105 | the addition into a cell, or the dropped write past the top, changes the number by lo * 2^(32(f+s)) modulo 2^(32n) |
| Arith.MulByZero | src/lib/es3n1n/common/math/fixedint.hpp:98-113 | `a * 0` is zero |
| Arith.MulByOne | src/lib/es3n1n/common/math/fixedint.hpp:98-113 | `a * 1` is a for normalized a |
| Arith.One | src/lib/es3n1n/common/math/fixedint.hpp:136 | the cells of 1 stand for 1 |
| Arith.MulLowLimbs | src/lib/es3n1n/common/math/fixedint.hpp:98-113 | two single-limb operands give low32(a0 b0) in cell 0 and high32(a0 b0) in cell 1 |
| Arith.MulCarryExample | src/lib/es3n1n/common/math/fixedint.hpp:98-113 | 10^6 * 10^6 gives the cells of 10^12 |
| Math.FixedInt.ToString | src/lib/es3n1n/common/math/fixedint.hpp:115-130 | the appending loop builds `HexString` of the cells |
| Hex.FormatHex | src/lib/es3n1n/common/math/fixedint.hpp:121-124 | `std::format("{:0{}x}", word, width)` (`X` for upper case): the hex digits, padded with `'0'` to the width; `FormatHexValue` and `FormatHexFits` say what it prints |
| Hex.HexString | src/lib/es3n1n/common/math/fixedint.hpp:118-130 | mirrors the loop of `to_string`: each cell formatted to eight digits and appended, cell 0 first; `HexStringRoundTrip` is its inverse |
| Hex.HexDigitsPerLimbIsEight | src/lib/es3n1n/common/math/fixedint.hpp:134 | `kNumberOfHexDigitsPerWord` is 8 |
| Hex.FormatHexValue | src/lib/es3n1n/common/math/fixedint.hpp:121-124 | a cell formatted with `{:0{}x}` has at least the width in digits, all hex, and reads back as the cell |
| Hex.FormatHexFits | src/lib/es3n1n/common/math/fixedint.hpp:121-124 | a number that fits in the width is padded to exactly the width |
| Hex.FormatLimb | src/lib/es3n1n/common/math/fixedint.hpp:121-134 | a 32-bit limb is formatted as exactly eight digits |
| Hex.HexStringShape | src/lib/es3n1n/common/math/fixedint.hpp:115-130 | the output is all hex digits, at least 8n long, and exactly 8n for normalized cells |
| Hex.HexStringChunk | src/lib/es3n1n/common/math/fixedint.hpp:118-127 | for normalized cells, characters 8i..8i+8 are limb i, limb 0 first |
| Hex.HexStringRoundTrip | src/lib/es3n1n/common/math/fixedint.hpp:115-130 | reading the output back eight digits at a time gives the normalized cells again |
| Hex.HexStringZeros | src/lib/es3n1n/common/math/fixedint.hpp:115-130 | zero gives 8n `'0'` characters |
| Hex.HexStringCase | src/lib/es3n1n/common/math/fixedint.hpp:119-126 | the upper-case and lower-case outputs differ only in letter case |
| Hex.FormatHexCase | src/lib/es3n1n/common/math/fixedint.hpp:121-124 | `x` and `X` format a cell with the same digits in the two cases |
| Hex.FixedDigitsValue | src/lib/es3n1n/common/math/fixedint.hpp:121-124 | the last k hex digits of x read back as x mod 16^k |
| Hex.DigitValueOfChar | src/lib/es3n1n/common/math/fixedint.hpp:121-124 | a digit's character in either case reads back as the digit |
| Corrected.DecimalHornerValue | src/lib/es3n1n/common/math/fixedint.hpp:44-63 | the corrected decimal constructor stores the string's number mod 2^(32n) in normalized cells |
| Corrected.DecimalHornerElevenNines | src/lib/es3n1n/common/math/fixedint.hpp:44-63 | the corrected constructor gives 99999999999 for eleven nines |
| Corrected.DecValueSnoc | src/lib/es3n1n/common/math/fixedint.hpp:44-63 | a digit string stands for ten times its prefix plus its last digit |
| Corrected.MulSmallValue | src/lib/es3n1n/common/math/fixedint.hpp:44-63 | multiplying the cells by a small number with a ripple carry loses nothing |
| Corrected.BytesLoseValue | src/lib/es3n1n/common/math/fixedint.hpp:66-70 | 24 zero bytes then a 1 read as 1, but the constructor as written leaves every cell zero |
| Corrected.BytesBigEndian | src/lib/es3n1n/common/math/fixedint.hpp:66-70 | the corrected byte constructor stores the buffer's big-endian number |
| Corrected.BytePackValue | src/lib/es3n1n/common/math/fixedint.hpp:67-68 | each corrected pass adds its byte at weight 256^(size - 1 - i) |
| Corrected.Pow256Split | src/lib/es3n1n/common/math/fixedint.hpp:68 | byte j of the number is byte j mod 4 of limb j div 4 |
| Corrected.BigEndianLeadingZeros | src/lib/es3n1n/common/math/fixedint.hpp:66-70 | leading zero bytes add nothing |
| Corrected.MulLeavesWideCell | src/lib/es3n1n/common/math/fixedint.hpp:98-113 | `*=` as written turns 0x1ffffffff * 0x100000001 on `Int128` into cells `[2^32 - 1, 2^32, 1, 0]`, which are not normalized |
| Corrected.MulRowOneStep | src/lib/es3n1n/common/math/fixedint.hpp:104-106 | an inner step without overflow adds the low half to the cell and carries the high half |
| Corrected.MulNormalizedValue | src/lib/es3n1n/common/math/fixedint.hpp:98-113 | the corrected product, with a final ripple carry, is normalized and stands for A * B mod 2^(32n) |

## Left out

- `operator-=` (fixedint.hpp:92-96) is not modelled: it assigns to a `const&` and calls the non-const `operator-` on it, so it does not compile once instantiated.
- `BigIntDeserializationMode` (fixedint.hpp:18-21) is not modelled: nothing uses it.
- `std::format` and `std::string` internals are not modelled. A cell is formatted as its hex digits, most significant first, zero-padded to the width.
- Math.FixedInt.ToString: the mode is a required parameter. The default argument `HEX_LOWERCASE` (fixedint.hpp:115) is not modelled; a caller passes `HexLowercase` for it.
- The operators' returned `*this` references are not modelled. Each method changes the cells in place and returns nothing.
- `types::StrongIntegral` is not part of this model. `Bits` and `Bytes` are plain wrappers of `nat`.
- Memory.ToBytesOfToBits: does not model `size_t` wrap-around in `to_bits`, because counts are unbounded naturals.
- Memory.HalfWordIsHalfOfWord: states only the 64-bit platform. Other widths of `uintptr_t` (a 32-bit word with a `uint16_t` half-word) are not modelled.
- Math.FixedInt.FromNative: covers the unsigned types of 8 to 64 bits only. `unsigned __int128` and wider types are not modelled.
- Math.FixedInt.FromDecimal: requires every character to be a decimal digit. The source does not check this: a non-digit c is read as the digit (c - '0') mod 2^64, a defined but meaningless value, and the model leaves that case out.
- Math.FixedInt.FromDecimal: also requires every write to fall on a cell. The flush on line 52 and the final store on line 61 write `data_[i]` without a bounds check, and past the last cell that is undefined behaviour.
- Math.FixedInt.FromBytes: requires every read and every write to be in range. Outside that, the source reads past the buffer or writes past the cells. The buffer is a `seq<Byte>`, not a span that could alias the cells.
- Math.FixedInt.MulAssign: models the writes to `result.data_[fPos + sPos]` with `fPos + sPos >= n` (out of bounds in the source) as dropped.
- Arith.FlipSignBit: models line 76's `1 << 63` on an `int` as the intended 2^63. Lines 86 and 105's `(1 << 32) - 1` are modelled as the intended 2^32 - 1.
- Corrected.BytesBigEndian: the corrected byte constructor works on unbounded cells and is proved to store the big-endian number. It is not proved to keep each cell below 2^32.
- There is no I/O, concurrency or floating point in the modelled code.

## Findings

| source | as written | input that shows it | evidently intended | confidence | as-written member | corrected member |
|---|---|---|---|---|---|---|
| src/lib/es3n1n/common/math/fixedint.hpp:51-58 | after a flush the accumulator keeps its upper 32 bits, the multiplier restarts at 1, and later digits are added at the wrong weight | `"99999999999"` on `Int128` gives cells `[1410065407, 11, 0, 0]`, which stand for 48654705663 | the cells stand for the string's decimal number modulo 2^(32n), in 32-bit limbs | not executed | Construct.DecimalElevenNines | Corrected.DecimalHornerValue |
| src/lib/es3n1n/common/math/fixedint.hpp:68 | pass i assigns cell `(size - i - 1) / 4` the byte `value[(8i) % 32]`, so every written cell ends as the same single byte | 25 bytes, 24 zeros then a 1, on `Int256`: the buffer reads as 1, but every cell is 0 | the bytes are packed big-endian, four to a limb | not executed | Corrected.BytesLoseValue | Corrected.BytesBigEndian |
| src/lib/es3n1n/common/math/fixedint.hpp:104-108 | low halves are added into result cells without carrying into the next cell, so cells can reach 2^32 or more | 0x1ffffffff * 0x100000001 on `Int128` gives cell 1 = 2^32, which `to_string` prints as nine digits | the product is normalized: 32-bit limbs that stand for A * B mod 2^(32n) | not executed | Corrected.MulLeavesWideCell | Corrected.MulNormalizedValue |
