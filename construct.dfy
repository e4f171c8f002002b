/** The three converting constructors of `FixedInt`, each as the sequence of
    cell writes its loop performs on the zero-initialised cells: from a
    native unsigned integer, from a string of decimal digits and from a
    buffer of bytes. */
module Construct {
  import opened Memory
  import opened Limbs

  // ---------------------------------------------------------------------
  // FixedInt(Ty value)
  // ---------------------------------------------------------------------

  /** The loop for a value wider than a half-word, from cell i on: while the
      value is not zero, cell i gets its low 32 bits and the value moves
      right by 32 bits. The value fits in the cells left, so every write is
      in range. */
  function NativeWrites(cells: seq<Word>, v: nat, i: nat): (r: seq<Word>)
    requires i <= |cells| && v < Weight(|cells| - i)
    ensures |r| == |cells|
    decreases v
  {
    if v == 0 then cells
    else
      BelowNextWeight(v, |cells| - i);
      NativeWrites(cells[i := v % HALF], v / HALF, i + 1)
  }

  /** A value below 2^(32k) that is not zero leaves at least one cell, and
      its shift by 32 bits is below 2^(32(k-1)). */
  lemma BelowNextWeight(v: nat, k: nat)
    requires 0 < v < Weight(k)
    ensures k >= 1 && v / HALF < Weight(k - 1)
  {
    if k >= 1 {
      var w := Weight(k - 1);
      assert v < HALF * w;
      DivModUnique(v, HALF, v / HALF, v % HALF);
    }
  }

  /** `FixedInt(Ty value)` for an unsigned type t on n cells: a type wider
      than the half-word goes through the loop, a narrower one is stored in
      cell 0 as it is. */
  function NativeLimbs(n: nat, t: NativeType, v: nat): (r: seq<Word>)
    requires n >= 2 && v < Modulus(t)
    ensures |r| == n
  {
    HalfWordIsHalfOfWord();
    if SizeOf(t).value > SizeOf(HalfWordType).value then
      WordFitsInCells(n);
      NativeWrites(Zeros(n), v, 0)
    else
      Zeros(n)[0 := v]
  }

  /** Two cells hold any 64-bit word. */
  lemma WordFitsInCells(n: nat)
    requires n >= 2
    ensures Modulus(U64) <= Weight(n)
  {
    WeightSmall();
    WeightMonotone(2, n);
  }

  /** Over zero cells the loop writes the base-2^32 digits of the value. */
  lemma {:induction false} NativeWritesDigits(cells: seq<Word>, v: nat, i: nat)
    requires i <= |cells| && v < Weight(|cells| - i)
    requires forall k :: i <= k < |cells| ==> cells[k] == 0
    ensures NativeWrites(cells, v, i) == cells[..i] + Digits(v, |cells| - i)
    decreases v
  {
    var m := |cells| - i;
    if v == 0 {
      DigitsOfZero(m);
      assert cells == cells[..i] + Zeros(m);
    } else {
      BelowNextWeight(v, m);
      var cells' := cells[i := v % HALF];
      NativeWritesDigits(cells', v / HALF, i + 1);
      assert cells'[..i + 1] == cells[..i] + [v % HALF];
      assert Digits(v, m) == [v % HALF] + Digits(v / HALF, m - 1);
    }
  }

  /** The constructor from any native unsigned value: the low limb in cell
      0, the high limb (zero for a type of 32 bits or fewer) in cell 1 and
      zero above, so the cells are normalized and stand for the value. */
  lemma NativeLimbsValue(n: nat, t: NativeType, v: nat)
    requires n >= 2 && v < Modulus(t)
    ensures NativeLimbs(n, t, v) == [v % HALF, v / HALF] + Zeros(n - 2)
    ensures Normalized(NativeLimbs(n, t, v)) && Value(NativeLimbs(n, t, v)) == v
  {
    HalfWordIsHalfOfWord();
    WeightSmall();
    if t == U64 {
      NativeWide(n, v);
    } else {
      NativeNarrow(n, v);
    }
    ValueOfTwoLimbs(v, n);
  }

  /** A 64-bit value: the loop writes its two limbs, or stops early when
      the value or its upper half is zero. */
  lemma NativeWide(n: nat, v: nat)
    requires n >= 2 && v < WORD
    ensures v < Weight(n)
    ensures NativeWrites(Zeros(n), v, 0) == [v % HALF, v / HALF] + Zeros(n - 2)
  {
    WordFitsInCells(n);
    WeightSmall();
    WeightMonotone(1, n - 1);
    SmallQuotient(v, n);
    var z := Zeros(n);
    var lo, hi := v % HALF, v / HALF;
    SmallMod(hi, HALF);
    assert Zeros(n) == [0, 0] + Zeros(n - 2);
    if v == 0 {
      assert lo == 0 && hi == 0;
    } else {
      var z1 := z[0 := lo];
      assert NativeWrites(z, v, 0) == NativeWrites(z1, hi, 1);
      if hi != 0 {
        var z2 := z1[1 := hi];
        assert NativeWrites(z1, hi, 1) == NativeWrites(z2, 0, 2);
        assert z2 == [lo, hi] + Zeros(n - 2);
      } else {
        assert z1 == [lo, hi] + Zeros(n - 2);
      }
    }
  }

  /** A value of at most 32 bits: cell 0 holds it, which is its low limb. */
  lemma NativeNarrow(n: nat, v: nat)
    requires n >= 2 && v < HALF
    ensures Zeros(n)[0 := v] == [v % HALF, v / HALF] + Zeros(n - 2)
  {
    SmallMod(v, HALF);
    assert Zeros(n)[0 := v] == [v] + Zeros(n - 1);
    assert Zeros(n - 1) == [0] + Zeros(n - 2);
  }

  lemma SmallQuotient(v: nat, n: nat)
    requires v < WORD
    ensures v / HALF < HALF && v / HALF / HALF == 0
  {
    DivModUnique(v, HALF, v / HALF, v % HALF);
  }

  lemma ValueOfTwoLimbs(v: nat, n: nat)
    requires v < WORD && n >= 2
    ensures Normalized([v % HALF, v / HALF] + Zeros(n - 2))
    ensures Value([v % HALF, v / HALF] + Zeros(n - 2)) == v
  {
    SmallQuotient(v, n);
    var lo, hi := v % HALF, v / HALF;
    ValueZeroPadded([lo, hi], n - 2);
    assert [lo, hi][1..] == [hi] && [hi][1..] == [];
    assert Value([hi]) == hi;
    assert Value([lo, hi]) == lo + HALF * hi;
  }

  // ---------------------------------------------------------------------
  // FixedInt(std::string_view value)
  // ---------------------------------------------------------------------

  predicate IsDecimalDigit(c: char) {
    '0' <= c <= '9'
  }

  predicate AllDecimal(s: string) {
    forall i :: 0 <= i < |s| ==> IsDecimalDigit(s[i])
  }

  /** `c - '0'` for a decimal digit c. */
  function DigitOf(c: char): (d: nat)
    requires IsDecimalDigit(c)
    ensures d < 10
  {
    c as int - '0' as int
  }

  function Pow10(k: nat): (r: nat)
    ensures r >= 1
  {
    if k == 0 then 1 else 10 * Pow10(k - 1)
  }

  /** The number a string of decimal digits stands for, most significant
      first. */
  function DecValue(s: string): nat
    requires AllDecimal(s)
  {
    if |s| == 0 then 0 else DigitOf(s[0]) * Pow10(|s| - 1) + DecValue(s[1..])
  }

  /** The variables of the decimal loop: the 64-bit accumulator and
      multiplier, and the values written to cells 0, 1, ... so far. */
  datatype DecState = DecState(acc: Word, mult: Word, flushed: seq<Word>)

  /** The loop's state before the first digit. */
  const DecStart: DecState := DecState(0, 1, [])

  /** One pass of the decimal loop on the digit d. When the accumulator has
      reached `numeric_limits<HalfWord>::max()` (2^32 - 1, see
      `HalfWordMax`) its low limb is written to the next cell, the
      accumulator keeps its upper 32 bits and the multiplier restarts at 1.
      Then `d * multiplier` is added and the multiplier is multiplied by
      10, both in wrapping 64-bit arithmetic. */
  function DecStep(st: DecState, d: nat): DecState
    requires d < 10
  {
    DecAdd(if st.acc >= MASK then DecFlush(st) else st, d)
  }

  /** The flush: the low limb is written, the accumulator keeps its upper 32
      bits and the multiplier restarts at 1. */
  function DecFlush(st: DecState): DecState {
    DecState(st.acc / HALF, 1, st.flushed + [st.acc % HALF])
  }

  /** The digit times the multiplier is added, and the multiplier is
      multiplied by 10, both wrapping at 2^64. */
  function DecAdd(st: DecState, d: nat): DecState
    requires d < 10
  {
    DecState((st.acc + (d * st.mult) % WORD) % WORD, (st.mult * 10) % WORD, st.flushed)
  }

  /** The threshold of the flush test is the largest half-word. */
  lemma HalfWordMax()
    ensures MaxValue(HalfWordType) == MASK
  {
    HalfWordIsHalfOfWord();
  }

  /** The loop over the characters s[k-1], s[k-2], ..., s[0] (the string is
      read from its last character to its first). */
  function DecScan(s: string, k: nat, st: DecState): DecState
    requires k <= |s| && AllDecimal(s)
    decreases k
  {
    if k == 0 then st else DecScan(s, k - 1, DecStep(st, DigitOf(s[k - 1])))
  }

  /** The state after the whole string. */
  function DecFinal(s: string): DecState
    requires AllDecimal(s)
  {
    DecScan(s, |s|, DecStart)
  }

  /** The values the constructor writes, to cells 0, 1, ...: the flushed limbs
      and, if it is not zero, the final accumulator in full. */
  function DecWritten(st: DecState): seq<Word> {
    st.flushed + if st.acc > 0 then [st.acc] else []
  }

  /** Every cell the decimal constructor writes is one of the n cells. */
  predicate DecimalFits(s: string, n: nat)
    requires AllDecimal(s)
  {
    |DecWritten(DecFinal(s))| <= n
  }

  /** `FixedInt(value)` for a string of decimal digits on n cells. */
  function DecimalLimbs(s: string, n: nat): (r: seq<Word>)
    requires AllDecimal(s) && DecimalFits(s, n)
    ensures |r| == n
  {
    var w := DecWritten(DecFinal(s));
    w + Zeros(n - |w|)
  }

  /** The loop only ever appends to the flushed cells. */
  lemma {:induction false} DecScanGrows(s: string, k: nat, st: DecState)
    requires k <= |s| && AllDecimal(s)
    ensures |st.flushed| <= |DecScan(s, k, st).flushed|
    ensures DecScan(s, k, st).flushed[..|st.flushed|] == st.flushed
    decreases k
  {
    if k > 0 {
      var st' := DecStep(st, DigitOf(s[k - 1]));
      assert st'.flushed[..|st.flushed|] == st.flushed;
      DecScanGrows(s, k - 1, st');
    }
  }

  /** A flush in the middle of the scan writes a cell below n when the whole
      scan's writes fit in n cells. */
  lemma DecFlushFits(s: string, k: nat, st: DecState, n: nat)
    requires 0 < k <= |s| && AllDecimal(s) && DecimalFits(s, n)
    requires DecScan(s, k, st) == DecFinal(s) && st.acc >= MASK
    ensures |st.flushed| < n
  {
    DecScanGrows(s, k - 1, DecStep(st, DigitOf(s[k - 1])));
  }

  /** Over zero digits the accumulator stays zero and nothing is flushed. */
  lemma {:induction false} DecScanOfZeros(s: string, k: nat, m: Word)
    requires k <= |s| && AllDecimal(s) && forall i :: 0 <= i < |s| ==> s[i] == '0'
    ensures DecScan(s, k, DecState(0, m, [])).acc == 0
    ensures DecScan(s, k, DecState(0, m, [])).flushed == []
    decreases k
  {
    if k > 0 {
      var st := DecState(0, m, []);
      assert DigitOf(s[k - 1]) == 0;
      assert DecScan(s, k, st) == DecScan(s, k - 1, DecStep(st, 0));
      ZeroDigitStep(m);
      DecScanOfZeros(s, k - 1, (m * 10) % WORD);
    }
  }

  /** A zero digit on a zero accumulator only moves the multiplier on. */
  lemma ZeroDigitStep(m: Word)
    ensures DecStep(DecState(0, m, []), 0) == DecState(0, (m * 10) % WORD, [])
  {
  }

  /** The empty string and a string of zeros give zero. */
  lemma DecimalOfZeros(s: string, n: nat)
    requires AllDecimal(s) && forall i :: 0 <= i < |s| ==> s[i] == '0'
    ensures DecimalFits(s, n) && DecimalLimbs(s, n) == Zeros(n)
  {
    DecScanOfZeros(s, |s|, 1);
  }

  lemma {:induction false} DecValueBound(s: string)
    requires AllDecimal(s)
    ensures DecValue(s) < Pow10(|s|)
  {
    if |s| > 0 {
      DecValueBound(s[1..]);
      var d, p := DigitOf(s[0]), Pow10(|s| - 1);
      DigitTimes(d, p);
    }
  }

  /** A pass that does not flush and does not wrap: the digit times the
      multiplier is added and the multiplier grows tenfold. */
  lemma DecStepNoFlush(st: DecState, d: nat)
    requires d < 10 && st.acc < MASK && st.acc + d * st.mult < WORD && st.mult * 10 < WORD
    ensures DecStep(st, d) == DecState(st.acc + d * st.mult, st.mult * 10, st.flushed)
  {
    SmallMod(d * st.mult, WORD);
    SmallMod(st.acc + d * st.mult, WORD);
    SmallMod(st.mult * 10, WORD);
  }

  lemma Pow10Nine()
    ensures Pow10(9) == 1_000_000_000 && Pow10(10) == 10_000_000_000
  {
  }

  /** Below 10^9 neither the flush test nor the 64-bit wrap can trigger. */
  lemma ShortStepBounds(acc: int, d: int, p: int)
    requires 0 <= acc < p <= 1_000_000_000 && 0 <= d < 10
    ensures acc < MASK && acc + d * p < WORD && p * 10 < WORD
  {
    DigitTimes(d, p);
  }

  lemma DigitTimes(d: int, p: int)
    requires 0 <= d < 10 && p >= 0
    ensures d * p <= 9 * p
  {
    assert 9 * p - d * p == (9 - d) * p;
  }

  /** While at most nine digits have been read the accumulator is below
      2^32 - 1, so no flush happens: after the digits from k on, it holds
      their decimal value and the multiplier the next power of ten. */
  lemma {:induction false} DecScanShort(s: string, k: nat, st: DecState)
    requires k <= |s| <= 10 && AllDecimal(s)
    requires st.acc == DecValue(s[k..]) && st.mult == Pow10(|s| - k) && st.flushed == []
    ensures DecScan(s, k, st).acc == DecValue(s)
    ensures DecScan(s, k, st).mult == Pow10(|s|)
    ensures DecScan(s, k, st).flushed == []
    decreases k
  {
    if k > 0 {
      var t := s[k - 1..];
      var d := DigitOf(s[k - 1]);
      assert t[1..] == s[k..] && t[0] == s[k - 1];
      var p := Pow10(|s| - k);
      DecValueBound(s[k..]);
      Pow10Monotone(|s| - k, 9);
      Pow10Nine();
      assert DecValue(t) == d * p + DecValue(s[k..]);
      ShortStepBounds(DecValue(s[k..]), d, p);
      DecStepNoFlush(st, d);
      DecScanShort(s, k - 1, DecStep(st, d));
    } else {
      assert s[0..] == s;
    }
  }

  lemma {:induction false} Pow10Monotone(i: nat, j: nat)
    requires i <= j
    ensures Pow10(i) <= Pow10(j)
    decreases j
  {
    if i < j {
      Pow10Monotone(i, j - 1);
    }
  }

  /** After at most ten digits nothing has been flushed and the
      accumulator holds the decimal value. */
  lemma DecFinalShort(s: string)
    requires AllDecimal(s) && |s| <= 10
    ensures DecFinal(s).acc == DecValue(s) && DecFinal(s).flushed == []
  {
    assert s[|s|..] == [];
    DecScanShort(s, |s|, DecStart);
  }

  /** A string of at most ten digits is stored whole in cell 0: the result
      stands for its decimal value. Nine digits or fewer also give a
      normalized result; ten digits may leave more than 32 bits in cell 0. */
  lemma DecimalShort(s: string, n: nat)
    requires AllDecimal(s) && |s| <= 10 && n >= 1
    ensures DecimalFits(s, n) && DecimalLimbs(s, n) == [DecValue(s)] + Zeros(n - 1)
    ensures Value(DecimalLimbs(s, n)) == DecValue(s)
    ensures |s| <= 9 ==> Normalized(DecimalLimbs(s, n))
  {
    DecimalShortLimbs(s, n);
    SingleLimb(DecValue(s), n);
    if |s| <= 9 {
      DecValueBound(s);
      Pow10Monotone(|s|, 9);
      Pow10Nine();
    }
  }

  /** A value in cell 0 and zero above. */
  lemma SingleLimb(v: nat, n: nat)
    requires n >= 1
    ensures Value([v] + Zeros(n - 1)) == v
    ensures v < HALF ==> Normalized([v] + Zeros(n - 1))
  {
    ValueZeroPadded([v], n - 1);
    assert [v][1..] == [];
  }

  lemma DecimalShortLimbs(s: string, n: nat)
    requires AllDecimal(s) && |s| <= 10 && n >= 1
    ensures DecimalFits(s, n) && DecimalLimbs(s, n) == [DecValue(s)] + Zeros(n - 1)
  {
    DecFinalShort(s);
    WrittenSingle(DecFinal(s), n);
  }

  /** A final state with nothing flushed writes its accumulator to cell 0. */
  lemma WrittenSingle(st: DecState, n: nat)
    requires st.flushed == [] && n >= 1
    ensures |DecWritten(st)| <= n
    ensures DecWritten(st) + Zeros(n - |DecWritten(st)|) == [st.acc] + Zeros(n - 1)
  {
    if st.acc == 0 {
      assert Zeros(n) == [0] + Zeros(n - 1);
    }
  }

  /** Reading the string from its end, the first character comes last. */
  lemma {:induction false} DecScanFirst(s: string, k: nat, st: DecState)
    requires 1 <= k <= |s| && AllDecimal(s)
    ensures DecScan(s, k, st) == DecStep(DecScan(s[1..], k - 1, st), DigitOf(s[0]))
    decreases k
  {
    if k > 1 {
      assert s[1..][k - 2] == s[k - 1];
      DecScanFirst(s, k - 1, DecStep(st, DigitOf(s[k - 1])));
    }
  }

  /** Eleven nines: after ten digits the accumulator holds 9999999999, the
      eleventh digit flushes its low limb and adds 9 to the 2 left over, so
      the cells stand for 48654705663 (`ElevenNinesValue`) and not for
      99999999999. */
  lemma DecimalElevenNines(s: string, n: nat)
    requires |s| == 11 && (forall i :: 0 <= i < |s| ==> s[i] == '9') && n >= 2
    ensures AllDecimal(s) && DecimalFits(s, n)
    ensures DecimalLimbs(s, n) == [1410065407, 11] + Zeros(n - 2)
    ensures DecValue(s) == 99999999999
  {
    NinesValue(s);
    Pow10Nine();
    assert Pow10(11) == 10 * Pow10(10);
    DecFinalElevenNines(s);
    ElevenNinesWritten(DecFinal(s), n);
  }

  /** The cells eleven nines give stand for 48654705663. */
  lemma ElevenNinesValue(n: nat)
    requires n >= 2
    ensures Value([1410065407, 11] + Zeros(n - 2)) == 48654705663
  {
    TwoLimbsValue([1410065407, 11] + Zeros(n - 2), 1410065407, 11, n);
  }

  /** The state after eleven nines. */
  lemma DecFinalElevenNines(s: string)
    requires |s| == 11 && forall i :: 0 <= i < |s| ==> s[i] == '9'
    ensures AllDecimal(s) && DecFinal(s) == DecState(11, 10, [1410065407])
  {
    var t := s[1..];
    NinesValue(t);
    Pow10Nine();
    DecFinalShort(t);
    DecScanFirst(s, 11, DecStart);
    assert DecScan(t, 10, DecStart) == DecFinal(t);
    FlushNines(DecFinal(t));
  }

  /** The eleventh pass flushes 9999999999. */
  lemma FlushNines(st: DecState)
    requires st.acc == 9999999999 && st.flushed == []
    ensures DecStep(st, 9) == DecState(11, 10, [1410065407])
  {
    DivModUnique(9999999999, HALF, 2, 1410065407);
  }

  lemma ElevenNinesWritten(st: DecState, n: nat)
    requires st == DecState(11, 10, [1410065407]) && n >= 2
    ensures |DecWritten(st)| <= n
    ensures DecWritten(st) + Zeros(n - |DecWritten(st)|) == [1410065407, 11] + Zeros(n - 2)
  {
  }

  /** Two limbs and zero above. */
  lemma TwoLimbsValue(r: seq<nat>, lo: nat, hi: nat, n: nat)
    requires n >= 2 && r == [lo, hi] + Zeros(n - 2)
    ensures Value(r) == lo + HALF * hi
  {
    ValueZeroPadded([lo, hi], n - 2);
    assert [lo, hi][1..] == [hi] && [hi][1..] == [];
    assert Value([hi]) == hi;
  }

  /** A string of k nines stands for 10^k - 1. */
  lemma {:induction false} NinesValue(t: string)
    requires forall i :: 0 <= i < |t| ==> t[i] == '9'
    ensures AllDecimal(t) && DecValue(t) == Pow10(|t|) - 1
  {
    if |t| > 0 {
      NinesValue(t[1..]);
    }
  }

  // ---------------------------------------------------------------------
  // FixedInt(std::span<uint8_t> value)
  // ---------------------------------------------------------------------

  /** The byte read on pass i, `value[(i * 8) % kHalfWordInBits]`. */
  function ByteReadIndex(i: nat): nat {
    (i * CHAR_BIT) % 32
  }

  /** The cell written on pass i over `size` bytes,
      `(size - i - 1) / (kHalfWordInBits / 8)`. */
  function ByteWriteIndex(size: nat, i: nat): nat
    requires i < size
  {
    (size - i - 1) / 4
  }

  /** Every byte the loop reads is in the buffer and every cell it writes is
      one of the n cells. */
  predicate ByteAccessesInRange(n: nat, size: nat) {
    (forall i :: 0 <= i < size ==> ByteReadIndex(i) < size) &&
    (forall i :: 0 <= i < size ==> ByteWriteIndex(size, i) < n)
  }

  /** The passes from i on: pass i assigns cell `ByteWriteIndex(size, i)`
      the single byte at `ByteReadIndex(i)`. */
  function ByteWrites(cells: seq<Word>, bytes: seq<Byte>, i: nat): (r: seq<Word>)
    requires i <= |bytes| && ByteAccessesInRange(|cells|, |bytes|)
    ensures |r| == |cells|
    decreases |bytes| - i
  {
    if i == |bytes| then cells
    else ByteWrites(cells[ByteWriteIndex(|bytes|, i) := bytes[ByteReadIndex(i)]], bytes, i + 1)
  }

  /** `FixedInt(value)` for a buffer of bytes on n cells. */
  function ByteLimbs(bytes: seq<Byte>, n: nat): (r: seq<Word>)
    requires ByteAccessesInRange(n, |bytes|)
    ensures |r| == n
  {
    ByteWrites(Zeros(n), bytes, 0)
  }

  /** The accesses are in range exactly for buffers of at most 4n bytes
      that hold no byte at all, a single byte, or at least 25 bytes (below
      25 bytes, pass 1, 2 or 3 reads byte 8, 16 or 24). */
  lemma ByteAccessesCharacterized(n: nat, size: nat)
    ensures ByteAccessesInRange(n, size) <==> size <= 4 * n && (size <= 1 || size >= 25)
  {
    if 2 <= size <= 8 {
      assert ByteReadIndex(1) == 8;
    } else if 9 <= size <= 16 {
      assert ByteReadIndex(2) == 16;
    } else if 17 <= size <= 24 {
      assert ByteReadIndex(3) == 24;
    } else if size > 4 * n {
      assert ByteWriteIndex(size, 0) >= n;
    } else {
      forall i | 0 <= i < size
        ensures ByteReadIndex(i) < size && ByteWriteIndex(size, i) < n
      {
        assert ByteReadIndex(i) <= 24;
      }
    }
  }

  /** After the passes from i on, cell k holds what its last writer read, if
      that pass is still to come; otherwise it is as it was. Cell k's last
      writer is pass size - 1 - 4k. */
  lemma {:induction false} ByteWritesCell(cells: seq<Word>, bytes: seq<Byte>, i: nat, k: nat)
    requires i <= |bytes| && ByteAccessesInRange(|cells|, |bytes|) && k < |cells|
    ensures ByteWrites(cells, bytes, i)[k]
         == if 4 * k + i < |bytes| then bytes[ByteReadIndex(|bytes| - 1 - 4 * k)] else cells[k]
    decreases |bytes| - i
  {
    var size := |bytes|;
    if i < size {
      var w := ByteWriteIndex(size, i);
      var cells' := cells[w := bytes[ByteReadIndex(i)]];
      ByteWritesCell(cells', bytes, i + 1, k);
      if 4 * k + i + 1 >= size {
        if 4 * k + i < size {
          assert i == size - 1 - 4 * k && w == k;
        } else {
          assert w < k;
        }
      }
    }
  }

  /** The last writer of any cell reads the byte the last pass reads,
      byte 8 * ((size - 1) mod 4). */
  lemma LastWriterRead(size: nat, k: nat)
    requires 4 * k < size
    ensures ByteReadIndex(size - 1 - 4 * k) == ByteReadIndex(size - 1) == 8 * ((size - 1) % 4)
  {
    var m := size - 1;
    var q, r := m / 4, m % 4;
    assert 8 * (m - 4 * k) == 32 * (q - k) + 8 * r;
    DivModUnique(8 * (m - 4 * k), 32, q - k, 8 * r);
    DivModUnique(8 * m, 32, q, 8 * r);
  }

  /** The byte constructor assigns every cell up to (size - 1) / 4 the same
      single byte, the one its last pass reads, `value[8 * ((size - 1) mod
      4)]`, and leaves the cells above it zero; every cell is below 256. */
  lemma ByteLimbsCells(bytes: seq<Byte>, n: nat, k: nat)
    requires ByteAccessesInRange(n, |bytes|) && k < n
    ensures ByteLimbs(bytes, n)[k]
         == if 4 * k < |bytes| then bytes[ByteReadIndex(|bytes| - 1)] else 0
    ensures 4 * k < |bytes| ==> ByteReadIndex(|bytes| - 1) == 8 * ((|bytes| - 1) % 4)
    ensures ByteLimbs(bytes, n)[k] < 0x100
  {
    ByteWritesCell(Zeros(n), bytes, 0, k);
    if 4 * k < |bytes| {
      LastWriterRead(|bytes|, k);
    }
  }

  /** An empty buffer gives zero. */
  lemma ByteLimbsEmpty(n: nat)
    ensures ByteAccessesInRange(n, 0) && ByteLimbs([], n) == Zeros(n)
  {
  }
}
