/** Corrected counterparts of three `FixedInt` operations whose loops, as
    written, do not compute the number they are given: the decimal and the
    byte-buffer constructors, and `operator*=`. Each is stated beside the
    as-written model it replaces, with the property the operation evidently
    means to have. */
module Corrected {
  import opened Memory
  import opened Limbs
  import opened Arith
  import opened Construct

  // ---------------------------------------------------------------------
  // Decimal strings: multiply the cells by ten and add each digit.
  // ---------------------------------------------------------------------

  /** The cells times m plus c, one limb at a time, keeping 32 bits per cell
      and passing the rest on as the carry. */
  function MulSmall(s: seq<Word>, m: nat, c: nat): (r: seq<Word>)
    ensures |r| == |s| && Normalized(r)
  {
    if |s| == 0 then []
    else [(s[0] * m + c) % HALF] + MulSmall(s[1..], m, (s[0] * m + c) / HALF)
  }

  /** What `MulSmall` carries out of the top cell. */
  function MulSmallCarry(s: seq<Word>, m: nat, c: nat): nat {
    if |s| == 0 then c else MulSmallCarry(s[1..], m, (s[0] * m + c) / HALF)
  }

  /** Nothing is lost: the cells and the carry out together are m times the
      value plus c. */
  lemma {:induction false} MulSmallValue(s: seq<Word>, m: nat, c: nat)
    ensures Value(MulSmall(s, m, c)) + MulSmallCarry(s, m, c) * Weight(|s|) == m * Value(s) + c
  {
    if |s| > 0 {
      var t := s[0] * m + c;
      var r := MulSmall(s, m, c);
      var co := MulSmallCarry(s, m, c);
      MulSmallValue(s[1..], m, t / HALF);
      assert r[1..] == MulSmall(s[1..], m, t / HALF);
      WeightStep(co, |s|);
      DivModUnique(t, HALF, t / HALF, t % HALF);
      MulSmallGlue(Value(r[1..]), co * Weight(|s| - 1), Value(s[1..]), s[0], m, c, t % HALF, t / HALF);
    }
  }

  /** So the cells alone are m times the value plus c, modulo 2^(32n). */
  lemma MulSmallRemainder(s: seq<Word>, m: nat, c: nat)
    ensures Value(MulSmall(s, m, c)) == (m * Value(s) + c) % Weight(|s|)
  {
    MulSmallValue(s, m, c);
    NormalizedRemainder(MulSmall(s, m, c), MulSmallCarry(s, m, c), m * Value(s) + c);
  }

  /** The arithmetic step of `MulSmallValue`. */
  lemma MulSmallGlue(vr: int, cw: int, vs: int, s0: int, m: int, c: int, lo: int, hi: int)
    requires vr + cw == m * vs + hi
    requires s0 * m + c == lo + HALF * hi
    ensures (lo + HALF * vr) + HALF * cw == m * (s0 + HALF * vs) + c
  {
    assert m * (s0 + HALF * vs) == m * s0 + HALF * (m * vs);
    assert HALF * (vr + cw) == HALF * vr + HALF * cw;
  }

  /** The corrected decimal constructor: the cells start at zero and, for
      every character from the first to the last, are multiplied by ten and
      the digit is added. */
  function DecimalHorner(s: string, n: nat): (r: seq<Word>)
    requires AllDecimal(s)
    ensures |r| == n && Normalized(r)
  {
    if |s| == 0 then Zeros(n)
    else MulSmall(DecimalHorner(s[..|s| - 1], n), 10, DigitOf(s[|s| - 1]))
  }

  /** Reading a digit string from the back: all but the last digit, times
      ten, plus the last digit. */
  lemma {:induction false} DecValueSnoc(s: string)
    requires |s| > 0 && AllDecimal(s)
    ensures DecValue(s) == 10 * DecValue(s[..|s| - 1]) + DigitOf(s[|s| - 1])
  {
    if |s| > 1 {
      var p := s[..|s| - 1];
      DecValueSnoc(s[1..]);
      assert s[1..][..|s[1..]| - 1] == p[1..];
      assert s[1..][|s[1..]| - 1] == s[|s| - 1];
      assert p[0] == s[0];
      assert DigitOf(s[0]) * Pow10(|s| - 1) == 10 * (DigitOf(s[0]) * Pow10(|p| - 1));
    } else {
      assert s[1..] == [] && s[..0] == [];
    }
  }

  /** The corrected constructor stores the string's number modulo 2^(32n),
      with every cell a 32-bit limb. */
  lemma {:induction false} DecimalHornerValue(s: string, n: nat)
    requires AllDecimal(s)
    ensures Value(DecimalHorner(s, n)) == DecValue(s) % Weight(n)
  {
    if |s| == 0 {
      ZerosValue(n);
    } else {
      var p := s[..|s| - 1];
      var q := DecimalHorner(p, n);
      var d := DigitOf(s[|s| - 1]);
      DecimalHornerValue(p, n);
      HornerCells(q, DecValue(p), d);
      DecValueSnoc(s);
      assert DecimalHorner(s, n) == MulSmall(q, 10, d) && |q| == n;
      SameRemainder(Value(DecimalHorner(s, n)), 10 * DecValue(p) + d, DecValue(s), Weight(n));
    }
  }

  /** Rewriting the dividend by an equal one. */
  lemma SameRemainder(r: int, x: int, y: int, w: int)
    requires w > 0 && r == x % w && x == y
    ensures r == y % w
  {
  }

  /** One Horner step on the cells: if they hold p modulo 2^(32n), ten
      times them plus d holds 10p + d modulo 2^(32n). */
  lemma HornerCells(q: seq<Word>, p: nat, d: nat)
    requires Value(q) == p % Weight(|q|)
    ensures Value(MulSmall(q, 10, d)) == (10 * p + d) % Weight(|q|)
  {
    MulSmallRemainder(q, 10, d);
    HornerGlue(Value(MulSmall(q, 10, d)), Value(q), p, d, Weight(|q|));
  }

  /** The arithmetic step of `DecimalHornerValue`: reducing before
      multiplying by ten and adding a digit does not change the remainder. */
  lemma HornerGlue(r: int, v: int, p: int, d: int, w: int)
    requires w > 0 && v == p % w && r == (10 * v + d) % w
    ensures r == (10 * p + d) % w
  {
    var x, y := 10 * v, 10 * p;
    ModMulLeft(p, 10, w);
    assert (p % w) * 10 == x && p * 10 == y;
    assert x % w == y % w;
    ModOfMod(x, d, w);
    ModOfMod(y, d, w);
  }

  /** Where the as-written loop gives 48654705663 for "99999999999"
      (`Construct.DecimalElevenNines`), the corrected one gives the number. */
  lemma DecimalHornerElevenNines(s: string, n: nat)
    requires |s| == 11 && (forall i :: 0 <= i < |s| ==> s[i] == '9') && n >= 2
    ensures AllDecimal(s) && Value(DecimalHorner(s, n)) == 99999999999
  {
    DecimalElevenNines(s, n);
    DecimalHornerValue(s, n);
    WeightSmall();
    WeightMonotone(2, n);
    SmallMod(99999999999, Weight(n));
  }

  // ---------------------------------------------------------------------
  // `operator*=`: the loops leave cells above 32 bits.
  // ---------------------------------------------------------------------

  /** As written, a product of two normalized Int128 values can hold a cell
      of 2^32: 0x1ffffffff times 0x100000001 leaves cell 1 at 2^32, which
      `to_string` prints as nine hex digits. The value of the cells is
      still the product. */
  lemma MulLeavesWideCell(a: seq<Word>, b: seq<Word>)
    requires a == [MASK, 1, 0, 0] && b == [1, 1, 0, 0]
    ensures Normalized(a) && Normalized(b)
    ensures MulLimbs(a, b) == [MASK, HALF, 1, 0]
    ensures !Normalized(MulLimbs(a, b))
  {
    var r0 := WideCellFirstRow(b);
    var r1 := WideCellSecondRow(r0, b);
    assert a[0] == MASK && a[1] == 1 && |a| == 4;
    assert MulRows(Zeros(4), a, b, 0) == MulRows(r0, a, b, 1);
    assert MulRows(r0, a, b, 1) == MulRows(r1, a, b, 2);
    MulRowsZeroLimbs(r1, a, b, 2);
    assert r1[1] == HALF;
  }

  /** One inner step of `*=` whose partial product plus carry is
      lo + 2^32 hi and whose cell does not overflow: lo is added to the
      cell and hi is carried. */
  lemma MulRowOneStep(r: seq<Word>, x: Word, b: seq<Word>, f: nat, s: nat, carry: Word, lo: nat, hi: nat)
    requires s < |b| && f + s < |r| && lo < HALF && hi < HALF
    requires x * b[s] + carry == lo + HALF * hi && r[f + s] + lo < WORD
    ensures MulRow(r, x, b, f, s, carry) == MulRow(r[f + s := r[f + s] + lo], x, b, f, s + 1, hi)
  {
    var res := x * b[s] + carry;
    SmallMod(res, WORD);
    DivModUnique(res, HALF, hi, lo);
    SmallMod(r[f + s] + lo, WORD);
  }

  /** Row 0 of the example: 0xffffffff times each limb of the multiplier. */
  lemma WideCellFirstRow(b: seq<Word>) returns (r0: seq<Word>)
    requires b == [1, 1, 0, 0]
    ensures r0 == MulRow(Zeros(4), MASK, b, 0, 0, 0) && r0 == [MASK, MASK, 0, 0]
  {
    var z := Zeros(4);
    MulRowOneStep(z, MASK, b, 0, 0, 0, MASK, 0);
    var z1 := z[0 := MASK];
    MulRowOneStep(z1, MASK, b, 0, 1, 0, MASK, 0);
    r0 := z1[1 := MASK];
    MulRowQuiet(r0, MASK, b, 0, 2);
    assert r0 == [MASK, MASK, 0, 0];
  }

  /** Row 1 of the example: the low half of 1 times 1 lands on a cell that
      already holds 0xffffffff. */
  lemma WideCellSecondRow(r0: seq<Word>, b: seq<Word>) returns (r1: seq<Word>)
    requires r0 == [MASK, MASK, 0, 0] && b == [1, 1, 0, 0]
    ensures r1 == MulRow(r0, 1, b, 1, 0, 0) && r1 == [MASK, HALF, 1, 0]
  {
    MulRowOneStep(r0, 1, b, 1, 0, 0, 1, 0);
    var z1 := r0[1 := HALF];
    MulRowOneStep(z1, 1, b, 1, 1, 0, 1, 0);
    r1 := z1[2 := 1];
    MulRowQuiet(r1, 1, b, 1, 2);
    assert r1 == [MASK, HALF, 1, 0];
  }

  /** The corrected `operator*=`: the same loops, then one ripple pass that
      carries every cell's excess over 32 bits into the next cell. */
  function MulNormalized(a: seq<Word>, b: seq<Word>): (r: seq<Word>)
    requires |a| == |b|
    ensures |r| == |a| && Normalized(r)
  {
    MulSmall(MulLimbs(a, b), 1, 0)
  }

  /** The corrected product is the product modulo 2^(32n), in 32-bit
      limbs. */
  lemma MulNormalizedValue(a: seq<Word>, b: seq<Word>)
    requires |a| == |b| <= HALF && Normalized(a) && Normalized(b)
    ensures Value(MulNormalized(a, b)) == (Value(a) * Value(b)) % Weight(|a|)
  {
    var m := MulLimbs(a, b);
    MulSmallRemainder(m, 1, 0);
    assert 1 * Value(m) + 0 == Value(m);
    MulLimbsValue(a, b);
  }

  // ---------------------------------------------------------------------
  // The byte-buffer constructor: big-endian packing.
  // ---------------------------------------------------------------------

  function Pow256(k: nat): (r: nat)
    ensures r >= 1
  {
    if k == 0 then 1 else 256 * Pow256(k - 1)
  }

  /** The number a buffer stands for, first byte most significant. */
  function BigEndian(bytes: seq<Byte>): nat {
    if |bytes| == 0 then 0 else bytes[0] * Pow256(|bytes| - 1) + BigEndian(bytes[1..])
  }

  /** As written, every written cell gets the same single byte (see
      `Construct.ByteLimbsCells`): for 25 bytes whose last byte alone is 1,
      which reads as the number 1, every cell is 0. */
  lemma BytesLoseValue(bytes: seq<Byte>, n: nat)
    requires |bytes| == 25 && (forall i :: 0 <= i < 24 ==> bytes[i] == 0) && bytes[24] == 1
    requires n >= 7
    ensures ByteAccessesInRange(n, |bytes|)
    ensures ByteLimbs(bytes, n) == Zeros(n) && Value(ByteLimbs(bytes, n)) == 0
    ensures BigEndian(bytes) == 1
  {
    ByteAccessesCharacterized(n, |bytes|);
    forall k | 0 <= k < n
      ensures ByteLimbs(bytes, n)[k] == 0
    {
      ByteLimbsCells(bytes, n, k);
    }
    ZerosValue(n);
    BigEndianLeadingZeros(bytes);
  }

  /** Leading zero bytes add nothing. */
  lemma {:induction false} BigEndianLeadingZeros(bytes: seq<Byte>)
    requires |bytes| >= 1 && forall i :: 0 <= i < |bytes| - 1 ==> bytes[i] == 0
    ensures BigEndian(bytes) == bytes[|bytes| - 1]
  {
    if |bytes| > 1 {
      BigEndianLeadingZeros(bytes[1..]);
    } else {
      assert bytes[1..] == [];
    }
  }

  /** The corrected loop: pass i adds byte i, shifted to its place within
      the cell, to cell `(size - i - 1) / 4`. */
  function BytePack(cells: seq<nat>, bytes: seq<Byte>, i: nat): (r: seq<nat>)
    requires i <= |bytes| <= 4 * |cells|
    ensures |r| == |cells|
    decreases |bytes| - i
  {
    if i == |bytes| then cells
    else
      var j := |bytes| - 1 - i;
      BytePack(cells[j / 4 := cells[j / 4] + bytes[i] * Pow256(j % 4)], bytes, i + 1)
  }

  /** Four bytes make a limb: 256^j is 256^(j mod 4) times the weight of
      limb j / 4. */
  lemma {:induction false} Pow256Split(j: nat)
    ensures Pow256(j) == Pow256(j % 4) * Weight(j / 4)
  {
    if j >= 4 {
      Pow256Split(j - 4);
      assert Pow256(j) == Pow256(4) * Pow256(j - 4) by {
        Pow256Shift(j);
      }
      assert (j - 4) % 4 == j % 4 && (j - 4) / 4 + 1 == j / 4;
      WeightStep(Pow256(j % 4), j / 4);
    }
  }

  /** 256^j is 256^4 times 256^(j-4). */
  lemma Pow256Shift(j: nat)
    requires j >= 4
    ensures Pow256(j) == Pow256(4) * Pow256(j - 4) && Pow256(4) == HALF
  {
    assert Pow256(j) == 256 * Pow256(j - 1);
    assert Pow256(j - 1) == 256 * Pow256(j - 2);
    assert Pow256(j - 2) == 256 * Pow256(j - 3);
    assert Pow256(j - 3) == 256 * Pow256(j - 4);
    assert Pow256(4) == 256 * (256 * (256 * (256 * Pow256(0))));
  }

  /** The passes from i on add the number the bytes from i on stand for. */
  lemma {:induction false} BytePackValue(cells: seq<nat>, bytes: seq<Byte>, i: nat)
    requires i <= |bytes| <= 4 * |cells|
    ensures Value(BytePack(cells, bytes, i)) == Value(cells) + BigEndian(bytes[i..])
    decreases |bytes| - i
  {
    if i < |bytes| {
      var j := |bytes| - 1 - i;
      var v := cells[j / 4] + bytes[i] * Pow256(j % 4);
      var cells' := cells[j / 4 := v];
      BytePackValue(cells', bytes, i + 1);
      ValueUpdate(cells, j / 4, v);
      Pow256Split(j);
      assert bytes[i..][1..] == bytes[i + 1..];
      BytePackGlue(Value(cells'), Value(cells), cells[j / 4], bytes[i], Pow256(j % 4), Weight(j / 4));
    }
  }

  /** The arithmetic step of `BytePackValue`. */
  lemma BytePackGlue(vn: int, vo: int, c: int, b: int, p: int, w: int)
    requires vn + c * w == vo + (c + b * p) * w
    ensures vn == vo + b * (p * w)
  {
    assert (c + b * p) * w == c * w + b * (p * w);
  }

  /** The corrected constructor stores the buffer's big-endian number. */
  lemma BytesBigEndian(bytes: seq<Byte>, n: nat)
    requires |bytes| <= 4 * n
    ensures Value(BytePack(Zeros(n), bytes, 0)) == BigEndian(bytes)
  {
    BytePackValue(Zeros(n), bytes, 0);
    ZerosValue(n);
    assert bytes[0..] == bytes;
  }
}
