/** The operators of `FixedInt` as functions on its cells, each mirroring the
    loop of the operator step by step: `+=` (ripple carry), `*=` (schoolbook
    rows), the defaulted `<=>` (structural comparison) and unary `-` (one bit
    flipped in the top cell). */
module Arith {
  import opened Memory
  import opened Limbs

  // ---------------------------------------------------------------------
  // operator+=
  // ---------------------------------------------------------------------

  /** The cells from index i on, after the ripple loop ran there with the
      carry `carry` coming in. Each step forms the 64-bit (wrapping) sum
      `res` of both cells and the carry, keeps `res >> 32` as the next carry
      and stores `res & (2^32 - 1)`. The source writes the mask with an `int`
      literal, `(1 << 32) - 1`; the intended 32-bit mask is modelled. */
  function AddCarry(a: seq<Word>, b: seq<Word>, carry: Word): (r: seq<Word>)
    requires |a| == |b|
    ensures |r| == |a|
  {
    if |a| == 0 then []
    else
      var res := (a[0] + b[0] + carry) % WORD;
      [res % HALF] + AddCarry(a[1..], b[1..], res / HALF)
  }

  /** The carry left over after the top cell; the source discards it. */
  function CarryOut(a: seq<Word>, b: seq<Word>, carry: Word): Word
    requires |a| == |b|
  {
    if |a| == 0 then carry
    else
      var res := (a[0] + b[0] + carry) % WORD;
      CarryOut(a[1..], b[1..], res / HALF)
  }

  /** `a += b`: the ripple loop from cell 0 with no carry. */
  function AddLimbs(a: seq<Word>, b: seq<Word>): (r: seq<Word>)
    requires |a| == |b|
    ensures |r| == |a|
  {
    AddCarry(a, b, 0)
  }

  /** For normalized operands no 64-bit sum wraps, and the cells and the
      discarded carry together stand for exactly a + b + carry. */
  lemma {:induction false} AddCarryValue(a: seq<Word>, b: seq<Word>, carry: Word)
    requires |a| == |b| && Normalized(a) && Normalized(b) && carry < HALF
    ensures CarryOut(a, b, carry) < HALF
    ensures Value(AddCarry(a, b, carry)) + CarryOut(a, b, carry) * Weight(|a|)
         == Value(a) + Value(b) + carry
  {
    if |a| > 0 {
      var res := a[0] + b[0] + carry;
      SmallMod(res, WORD);
      var lo, hi := res % HALF, res / HALF;
      var r' := AddCarry(a[1..], b[1..], hi);
      assert AddCarry(a, b, carry) == [lo] + r';
      assert CarryOut(a, b, carry) == CarryOut(a[1..], b[1..], hi);
      AddCarryValue(a[1..], b[1..], hi);
      var c := CarryOut(a[1..], b[1..], hi);
      WeightStep(c, |a|);
      AddStepArith(lo, hi, a[0], b[0], carry, Value(r'), Value(a[1..]), Value(b[1..]),
                   c * Weight(|a| - 1), c * Weight(|a|));
      assert ([lo] + r')[1..] == r';
    }
  }

  lemma AddStepArith(lo: int, hi: int, a0: int, b0: int, cin: int, vr1: int, va1: int, vb1: int,
                     cw: int, cW: int)
    requires lo + HALF * hi == a0 + b0 + cin
    requires vr1 + cw == va1 + vb1 + hi
    requires cW == HALF * cw
    ensures (lo + HALF * vr1) + cW == (a0 + HALF * va1) + (b0 + HALF * vb1) + cin
  {
  }

  /** `+=` on normalized operands: the result is normalized and stands for
      (A + B) mod 2^(32n); the carry out of the top cell is lost. */
  lemma AddLimbsValue(a: seq<Word>, b: seq<Word>)
    requires |a| == |b| && Normalized(a) && Normalized(b)
    ensures Value(AddLimbs(a, b)) == (Value(a) + Value(b)) % Weight(|a|)
  {
    var r := AddCarry(a, b, 0);
    assert AddLimbs(a, b) == r && |r| == |a|;
    AddCarryNormalized(a, b, 0);
    AddCarryValue(a, b, 0);
    ValueBound(r);
    DivModUnique(Value(a) + Value(b), Weight(|a|), CarryOut(a, b, 0), Value(r));
  }

  lemma {:induction false} AddCarryNormalized(a: seq<Word>, b: seq<Word>, carry: Word)
    requires |a| == |b|
    ensures Normalized(AddCarry(a, b, carry))
  {
    if |a| > 0 {
      var res := (a[0] + b[0] + carry) % WORD;
      AddCarryNormalized(a[1..], b[1..], res / HALF);
      assert AddCarry(a, b, carry) == [res % HALF] + AddCarry(a[1..], b[1..], res / HALF);
    }
  }

  /** `a + b == b + a`, cell for cell, for any cells at all. */
  lemma {:induction false} AddCarryCommutes(a: seq<Word>, b: seq<Word>, carry: Word)
    requires |a| == |b|
    ensures AddCarry(a, b, carry) == AddCarry(b, a, carry)
  {
    if |a| > 0 {
      AddCarryCommutes(a[1..], b[1..], (a[0] + b[0] + carry) % WORD / HALF);
    }
  }

  /** `a + 0 == a`, cell for cell, for a normalized a. */
  lemma {:induction false} AddZero(a: seq<Word>)
    requires Normalized(a)
    ensures AddLimbs(a, Zeros(|a|)) == a
  {
    if |a| > 0 {
      assert Zeros(|a|)[1..] == Zeros(|a| - 1);
      assert Normalized(a[1..]);
      AddZero(a[1..]);
    }
  }

  /** Adding 1 to a value whose two low limbs are all ones carries across
      both of them, at any width of at least 96 bits. */
  lemma AddCarriesAcrossLimbs(n: nat)
    requires n >= 3
    ensures AddLimbs([MASK, MASK] + Zeros(n - 2), [1] + Zeros(n - 1)) == [0, 0, 1] + Zeros(n - 3)
  {
    var a, b := [MASK, MASK] + Zeros(n - 2), [1] + Zeros(n - 1);
    assert a[0] == MASK && b[0] == 1;
    assert a[1..] == [MASK] + Zeros(n - 2) && b[1..] == Zeros(n - 1);
    AddCarryStep(a, b, 0);
    assert (MASK + 1 + 0) % WORD == HALF && HALF % HALF == 0 && HALF / HALF == 1;
    CarryThroughAllOnes(n - 2);
    assert [0] + ([0, 1] + Zeros(n - 3)) == [0, 0, 1] + Zeros(n - 3);
  }

  /** A carry into a limb of all ones, followed by zero limbs, moves on to
      the next limb. */
  lemma CarryThroughAllOnes(k: nat)
    requires k >= 1
    ensures AddCarry([MASK] + Zeros(k), Zeros(k + 1), 1) == [0, 1] + Zeros(k - 1)
  {
    var a, b := [MASK] + Zeros(k), Zeros(k + 1);
    assert a[0] == MASK && b[0] == 0 && a[1..] == Zeros(k) && b[1..] == Zeros(k);
    AddCarryStep(a, b, 1);
    assert (MASK + 0 + 1) % WORD == HALF && HALF % HALF == 0 && HALF / HALF == 1;
    CarryIntoZeros(k);
    assert [0] + ([1] + Zeros(k - 1)) == [0, 1] + Zeros(k - 1);
  }

  /** A carry into zero limbs stops in the first of them. */
  lemma CarryIntoZeros(k: nat)
    requires k >= 1
    ensures AddCarry(Zeros(k), Zeros(k), 1) == [1] + Zeros(k - 1)
  {
    var z := Zeros(k);
    assert z[0] == 0 && z[1..] == Zeros(k - 1);
    AddCarryStep(z, z, 1);
    assert (0 + 0 + 1) % WORD == 1 && 1 % HALF == 1 && 1 / HALF == 0;
    AddZero(Zeros(k - 1));
  }

  /** One step of the ripple loop. */
  lemma AddCarryStep(a: seq<Word>, b: seq<Word>, carry: Word)
    requires |a| == |b| > 0
    ensures var res := (a[0] + b[0] + carry) % WORD;
            AddCarry(a, b, carry) == [res % HALF] + AddCarry(a[1..], b[1..], res / HALF)
  {
  }

  /** One pass of the loop after the cells already written: the written
      cells grow by the pass's low half and the rest starts at its carry. */
  lemma AddCarryPass(done: seq<Word>, a: seq<Word>, b: seq<Word>, carry: Word)
    requires |a| == |b| > 0
    ensures var res := (a[0] + b[0] + carry) % WORD;
            done + AddCarry(a, b, carry) == (done + [res % HALF]) + AddCarry(a[1..], b[1..], res / HALF)
  {
    AddCarryStep(a, b, carry);
  }

  /** On 32-bit limbs with a carry of 0 or 1, one pass of the ripple loop
      never wraps: `res` is the exact sum, and the carry it passes on is again
      0 or 1. */
  lemma AddPassExact(x: Word, y: Word, carry: Word)
    requires x < HALF && y < HALF && carry <= 1
    ensures (x + y + carry) % WORD == x + y + carry
    ensures (x + y + carry) / HALF <= 1
  {
  }

  /** Every carry of the ripple loop over normalized operands, from a carry
      of 0 or 1, is 0 or 1; so is the carry out of the top cell that `+=`
      discards. */
  lemma {:induction false} AddCarryIsBit(a: seq<Word>, b: seq<Word>, carry: Word)
    requires |a| == |b| && Normalized(a) && Normalized(b) && carry <= 1
    ensures CarryOut(a, b, carry) <= 1
  {
    if |a| > 0 {
      AddPassExact(a[0], b[0], carry);
      assert Normalized(a[1..]) && Normalized(b[1..]);
      AddCarryIsBit(a[1..], b[1..], (a[0] + b[0] + carry) % WORD / HALF);
    }
  }

  // ---------------------------------------------------------------------
  // operator*=
  // ---------------------------------------------------------------------

  /** One pass of the outer loop of `*=`, from inner index s on: the result
      cells r, the limb x of the left operand at outer index f, the right
      operand b and the running carry. The partial product is 64-bit and
      wraps; its low half (the source's `int`-literal mask is modelled as the
      intended 2^32 - 1) is added, wrapping, to cell f + s, and its high half
      is the next carry. A write to f + s >= |r| is out of range in the
      source; it is dropped here. */
  function MulRow(r: seq<Word>, x: Word, b: seq<Word>, f: nat, s: nat, carry: Word): (out: seq<Word>)
    requires s <= |b|
    ensures |out| == |r|
    decreases |b| - s
  {
    if s == |b| then r
    else
      var res := (x * b[s] + carry) % WORD;
      var r' := if f + s < |r| then r[f + s := (r[f + s] + res % HALF) % WORD] else r;
      MulRow(r', x, b, f, s + 1, res / HALF)
  }

  /** The outer loop of `*=` from outer index f on; the carry starts at 0 in
      every pass. */
  function MulRows(r: seq<Word>, a: seq<Word>, b: seq<Word>, f: nat): (out: seq<Word>)
    requires f <= |a|
    ensures |out| == |r|
    decreases |a| - f
  {
    if f == |a| then r else MulRows(MulRow(r, a[f], b, f, 0, 0), a, b, f + 1)
  }

  /** `a *= b`: both loops over a zero-initialised result. */
  function MulLimbs(a: seq<Word>, b: seq<Word>): (r: seq<Word>)
    requires |a| == |b|
    ensures |r| == |a|
  {
    MulRows(Zeros(|a|), a, b, 0)
  }

  /** For normalized operands every partial product plus carry fits in a
      word, and the carry it passes on fits in a half-word. */
  lemma PartialProductFits(x: nat, y: nat, carry: nat)
    requires x < HALF && y < HALF && carry < HALF
    ensures 0 <= x * y + carry < WORD
    ensures (x * y + carry) % WORD == x * y + carry
    ensures (x * y + carry) / HALF < HALF
  {
    MulLess(x, y, HALF);
    SmallMod(x * y + carry, WORD);
  }

  lemma MulLess(x: nat, y: nat, m: nat)
    requires x < m && y < m
    ensures x * y <= (m - 1) * (m - 1)
  {
    assert x * y <= x * (m - 1);
    assert x * (m - 1) <= (m - 1) * (m - 1);
  }

  /** Every cell is at most `bound`. */
  predicate CellsAtMost(r: seq<nat>, bound: nat) {
    forall k :: 0 <= k < |r| ==> r[k] <= bound
  }

  /** Within pass f, the cells already visited in this pass have taken at
      most f + 1 additions of a 32-bit half, the others at most f. */
  predicate RowBounds(r: seq<nat>, f: nat, s: nat) {
    CellsAtMost(r, (f + 1) * MASK) &&
    forall k :: f + s <= k < |r| ==> r[k] <= f * MASK
  }

  /** One pass of `*=` keeps every cell within f + 1 additions of a 32-bit
      half: no cell wraps while fewer than 2^32 passes have run. */
  lemma {:induction false} MulRowBounded(r: seq<Word>, x: Word, b: seq<Word>, f: nat, s: nat, carry: Word)
    requires s <= |b| && f < HALF
    requires x < HALF && Normalized(b) && carry < HALF && RowBounds(r, f, s)
    ensures CellsAtMost(MulRow(r, x, b, f, s, carry), (f + 1) * MASK)
    decreases |b| - s
  {
    if s < |b| {
      var lo, hi := MulRowUnfold(r, x, b, f, s, carry);
      MulRowBounded(MulRowCell(r, f, s, lo), x, b, f, s + 1, hi);
    }
  }

  /** One inner step of `*=` on normalized operands: the 64-bit partial
      product does not wrap, and its halves `lo` and `hi` go to the cell and
      to the carry. */
  lemma MulRowUnfold(r: seq<Word>, x: Word, b: seq<Word>, f: nat, s: nat, carry: Word)
      returns (lo: nat, hi: nat)
    requires s < |b| && f < HALF
    requires x < HALF && Normalized(b) && carry < HALF && RowBounds(r, f, s)
    ensures lo < HALF && hi < HALF && lo + HALF * hi == x * b[s] + carry
    ensures MulRow(r, x, b, f, s, carry) == MulRow(MulRowCell(r, f, s, lo), x, b, f, s + 1, hi)
  {
    PartialProductFits(x, b[s], carry);
    var res := x * b[s] + carry;
    lo, hi := res % HALF, res / HALF;
  }

  /** The cells after one inner step adds the low half `lo` to cell f + s (or
      drops it when f + s is out of range): no cell wraps, the bounds move on
      by one cell, and the value grows by lo at weight f + s modulo 2^(32n). */
  function MulRowCell(r: seq<Word>, f: nat, s: nat, lo: nat): (r': seq<Word>)
    requires f < HALF && lo < HALF && RowBounds(r, f, s)
    ensures r' == if f + s < |r| then r[f + s := (r[f + s] + lo) % WORD] else r
    ensures |r'| == |r|
    ensures RowBounds(r', f, s + 1)
    ensures ModEq(Value(r'), Value(r) + lo * Weight(f + s), Weight(|r|))
  {
    var k := f + s;
    if k < |r| then
      CellBoundStep(r[k], f, lo);
      SmallMod(r[k] + lo, WORD);
      ValueUpdate(r, k, r[k] + lo);
      ShiftedByWeight(Value(r[k := r[k] + lo]), Value(r), r[k], lo, Weight(k));
      r[k := r[k] + lo]
    else
      ModHighWeight(Value(r), lo, k, |r|);
      r
  }

  lemma CellBoundStep(c: nat, f: nat, lo: nat)
    requires c <= f * MASK && f < HALF && lo < HALF
    ensures c + lo <= (f + 1) * MASK && c + lo < WORD
  {
    assert (f + 1) * MASK == f * MASK + MASK;
    assert f * MASK <= (HALF - 1) * MASK;
  }

  /** One pass of `*=`, as written, adds x * B (and the incoming carry) at
      weight f + s, up to multiples of 2^(32n): writes it drops and the carry
      it discards all lie at or above weight n. */
  lemma {:induction false} MulRowValue(r: seq<Word>, x: Word, b: seq<Word>, f: nat, s: nat, carry: Word)
    requires |b| == |r| && s <= |b| && f < HALF
    requires x < HALF && Normalized(b) && carry < HALF && RowBounds(r, f, s)
    ensures ModEq(Value(MulRow(r, x, b, f, s, carry)),
                  Value(r) + (x * Value(b[s..]) + carry) * Weight(f + s), Weight(|r|))
    decreases |b| - s
  {
    if s == |b| {
      MulRowTailValue(r, x, b, f, carry);
    } else {
      var lo, hi := MulRowUnfold(r, x, b, f, s, carry);
      var r' := MulRowCell(r, f, s, lo);
      MulRowValue(r', x, b, f, s + 1, hi);
      MulRowStepValue(Value(MulRow(r', x, b, f, s + 1, hi)), r, r', x, b, f, s, carry, lo, hi);
    }
  }

  /** After the last inner step only the carry is left, at weight f + |b|,
      which is at least n: it vanishes modulo 2^(32n). */
  lemma MulRowTailValue(r: seq<Word>, x: int, b: seq<Word>, f: nat, carry: int)
    requires |b| == |r|
    ensures ModEq(Value(r), Value(r) + (x * Value(b[|b|..]) + carry) * Weight(f + |b|), Weight(|r|))
  {
    assert b[|b|..] == [];
    ModHighWeight(Value(r), carry, f + |b|, |r|);
    assert Value(r) + (x * Value(b[|b|..]) + carry) * Weight(f + |b|)
        == Value(r) + carry * Weight(f + |b|);
  }

  /** One inner step of `MulRowValue`: what the rest of the pass adds to the
      updated cells, plus what this step added, is x * B from s on. */
  lemma MulRowStepValue(v: int, r: seq<Word>, r': seq<Word>, x: int, b: seq<Word>, f: nat, s: nat,
                        carry: int, lo: int, hi: int)
    requires s < |b| && |r'| == |r|
    requires ModEq(v, Value(r') + (x * Value(b[s + 1..]) + hi) * Weight(f + (s + 1)), Weight(|r'|))
    requires ModEq(Value(r'), Value(r) + lo * Weight(f + s), Weight(|r|))
    requires lo + HALF * hi == x * b[s] + carry
    ensures ModEq(v, Value(r) + (x * Value(b[s..]) + carry) * Weight(f + s), Weight(|r|))
  {
    assert b[s..][1..] == b[s + 1..];
    var v1 := Value(b[s + 1..]);
    assert Value(b[s..]) == b[s] + HALF * v1;
    WeightNext(f, s);
    MulRowGlue(v, Value(r'), Value(r), lo, hi, x, b[s],
               v1, carry, Weight(f + s), Weight(f + (s + 1)), Weight(|r|), Value(b[s..]));
  }

  lemma WeightNext(f: nat, s: nat)
    ensures Weight(f + (s + 1)) == HALF * Weight(f + s)
  {
    var k := f + s;
    assert f + (s + 1) == k + 1;
    assert Weight(k + 1) == HALF * Weight(k);
  }

  /** The arithmetic that closes one inner step of `MulRowValue`, on named
      numbers: v is what the whole pass leaves, vr and vr' the cells before
      and after this step's write, lo and hi the halves of x * bs + c, v1 the
      number of the multiplier's limbs after bs (so vbs is bs + 2^32 * v1),
      p and p1 the weights of cells f + s and f + s + 1, and w is 2^(32n).
      The steps of the sum are the `calc` below. */
  lemma MulRowGlue(v: int, vr': int, vr: int, lo: int, hi: int, x: int, bs: int, v1: int, c: int,
                   p: int, p1: int, w: int, vbs: int)
    requires p1 == HALF * p && vbs == bs + HALF * v1 && lo + HALF * hi == x * bs + c
    requires ModEq(v, vr' + (x * v1 + hi) * p1, w)
    requires ModEq(vr', vr + lo * p, w)
    ensures ModEq(v, vr + (x * vbs + c) * p, w)
  {
    var y := (x * v1 + hi) * p1;
    ModEqAdd(vr', vr + lo * p, y, w);
    assert lo * p + (x * v1 + hi) * (HALF * p) == (x * (bs + HALF * v1) + c) * p by {
      calc {
        lo * p + (x * v1 + hi) * (HALF * p);
        lo * p + (HALF * (x * v1) + HALF * hi) * p;
        (lo + HALF * hi + HALF * (x * v1)) * p;
        (x * bs + c + HALF * (x * v1)) * p;
        (x * (bs + HALF * v1) + c) * p;
      }
    }
    assert vr + lo * p + y == vr + (x * vbs + c) * p;
    ModEqTrans(v, vr' + y, vr + (x * vbs + c) * p, w);
  }

  /** The passes of `*=` from f on add A's limbs from f on times B at weight
      f, modulo 2^(32n). */
  lemma {:induction false} MulRowsValue(r: seq<Word>, a: seq<Word>, b: seq<Word>, f: nat)
    requires |a| == |b| == |r| <= HALF && f <= |a|
    requires Normalized(a) && Normalized(b) && CellsAtMost(r, f * MASK)
    ensures ModEq(Value(MulRows(r, a, b, f)), Value(r) + Value(a[f..]) * Value(b) * Weight(f), Weight(|r|))
    decreases |a| - f
  {
    if f == |a| {
      assert a[f..] == [];
    } else {
      var r1 := MulRow(r, a[f], b, f, 0, 0);
      RowBoundsStart(r, f);
      MulRowPassValue(r, a[f], b, f);
      MulRowBounded(r, a[f], b, f, 0, 0);
      MulRowsValue(r1, a, b, f + 1);
      MulRowsStepValue(Value(MulRows(r1, a, b, f + 1)), r, r1, a, b, f);
    }
  }

  /** Cells within f additions are within the bounds of pass f before it starts. */
  lemma RowBoundsStart(r: seq<nat>, f: nat)
    requires CellsAtMost(r, f * MASK)
    ensures RowBounds(r, f, 0)
  {
    assert f * MASK <= (f + 1) * MASK;
  }

  /** A whole pass for limb x adds x * B at weight f, modulo 2^(32n). */
  lemma MulRowPassValue(r: seq<Word>, x: Word, b: seq<Word>, f: nat)
    requires |b| == |r| && f < HALF
    requires x < HALF && Normalized(b) && RowBounds(r, f, 0)
    ensures ModEq(Value(MulRow(r, x, b, f, 0, 0)), Value(r) + x * Value(b) * Weight(f), Weight(|r|))
  {
    MulRowValue(r, x, b, f, 0, 0);
    assert b[0..] == b;
    assert Weight(f + 0) == Weight(f);
    PassTerms(Value(r), x, Value(b[0..]), Value(b), Weight(f + 0), Weight(f));
    ModEqSame(Value(MulRow(r, x, b, f, 0, 0)), Value(r) + (x * Value(b[0..]) + 0) * Weight(f + 0),
              Value(r) + x * Value(b) * Weight(f), Weight(|r|));
  }

  lemma PassTerms(vr: int, x: int, vb0: int, vb: int, p0: int, p: int)
    requires vb0 == vb && p0 == p
    ensures vr + (x * vb0 + 0) * p0 == vr + x * vb * p
  {
  }

  /** One outer step of `MulRowsValue`: the pass for limb f adds a[f] * B at
      weight f, and the later passes add the rest of A. */
  lemma MulRowsStepValue(v: int, r: seq<Word>, r1: seq<Word>, a: seq<Word>, b: seq<Word>, f: nat)
    requires f < |a| && |r1| == |r|
    requires ModEq(v, Value(r1) + Value(a[f + 1..]) * Value(b) * Weight(f + 1), Weight(|r1|))
    requires ModEq(Value(r1), Value(r) + a[f] * Value(b) * Weight(f), Weight(|r|))
    ensures ModEq(v, Value(r) + Value(a[f..]) * Value(b) * Weight(f), Weight(|r|))
  {
    assert a[f..][1..] == a[f + 1..];
    var va1 := Value(a[f + 1..]);
    assert Value(a[f..]) == a[f] + HALF * va1;
    MulRowsGlue(v, Value(r1), Value(r), a[f], va1, Value(b),
                Value(a[f..]), Weight(f), Weight(f + 1), Weight(|r|));
  }

  /** The arithmetic that closes one outer step of `MulRowsValue`, on named
      numbers: v is what the remaining passes leave, vr and vr1 the cells
      before and after pass f, a0 the limb a[f], va1 the number of the limbs
      above it (so vaf is a0 + 2^32 * va1), vb the multiplier, p and p1 the
      weights of cells f and f + 1, and w is 2^(32n). */
  lemma MulRowsGlue(v: int, vr1: int, vr: int, a0: int, va1: int, vb: int, vaf: int,
                    p: int, p1: int, w: int)
    requires p1 == HALF * p && vaf == a0 + HALF * va1
    requires ModEq(v, vr1 + va1 * vb * p1, w)
    requires ModEq(vr1, vr + a0 * vb * p, w)
    ensures ModEq(v, vr + vaf * vb * p, w)
  {
    var y := va1 * vb * p1;
    ModEqAdd(vr1, vr + a0 * vb * p, y, w);
    assert a0 * vb * p + va1 * vb * (HALF * p) == (a0 + HALF * va1) * vb * p by {
      calc {
        a0 * vb * p + va1 * vb * (HALF * p);
        a0 * vb * p + (HALF * va1) * vb * p;
        (a0 + HALF * va1) * vb * p;
      }
    }
    assert vr + a0 * vb * p + y == vr + vaf * vb * p;
    ModEqTrans(v, vr1 + y, vr + vaf * vb * p, w);
  }

  /** `*=` as written is right modulo 2^(32n) for normalized operands, even
      though its cells need not be normalized. */
  lemma MulLimbsValue(a: seq<Word>, b: seq<Word>)
    requires |a| == |b| <= HALF && Normalized(a) && Normalized(b)
    ensures Value(MulLimbs(a, b)) % Weight(|a|) == (Value(a) * Value(b)) % Weight(|a|)
  {
    var z := Zeros(|a|);
    assert CellsAtMost(z, 0 * MASK);
    MulRowsValue(z, a, b, 0);
    ZerosValue(|a|);
    assert a[0..] == a;
    var va: int, vb: int := Value(a), Value(b);
    assert Value(z) + Value(a[0..]) * vb * Weight(0) == va * vb;
    assert MulLimbs(a, b) == MulRows(z, a, b, 0);
  }

  /** A pass over a right operand that is zero from s on, with no carry coming
      in, leaves the cells as they are. */
  lemma {:induction false} MulRowQuiet(r: seq<Word>, x: Word, b: seq<Word>, f: nat, s: nat)
    requires s <= |b| && forall j :: s <= j < |b| ==> b[j] == 0
    ensures MulRow(r, x, b, f, s, 0) == r
    decreases |b| - s
  {
    if s < |b| {
      assert x * b[s] + 0 == 0;
      MulRowZeroStep(r, x, b, f, s);
      MulRowQuiet(r, x, b, f, s + 1);
    }
  }

  /** An inner step whose partial product and carry are zero changes nothing
      and passes no carry on. */
  lemma MulRowZeroStep(r: seq<Word>, x: Word, b: seq<Word>, f: nat, s: nat)
    requires s < |b| && x * b[s] == 0
    ensures MulRow(r, x, b, f, s, 0) == MulRow(r, x, b, f, s + 1, 0)
  {
    var res := (x * b[s] + 0) % WORD;
    assert res == 0;
    if f + s < |r| {
      assert r[f + s := (r[f + s] + res % HALF) % WORD] == r;
    }
  }

  /** A pass for a zero limb of the left operand leaves the cells as they are. */
  lemma {:induction false} MulRowZeroLimb(r: seq<Word>, b: seq<Word>, f: nat, s: nat)
    requires s <= |b|
    ensures MulRow(r, 0, b, f, s, 0) == r
    decreases |b| - s
  {
    if s < |b| {
      MulRowZeroStep(r, 0, b, f, s);
      MulRowZeroLimb(r, b, f, s + 1);
    }
  }

  /** Passes for zero limbs of the left operand leave the cells as they are. */
  lemma {:induction false} MulRowsZeroLimbs(r: seq<Word>, a: seq<Word>, b: seq<Word>, f: nat)
    requires f <= |a| && forall j :: f <= j < |a| ==> a[j] == 0
    ensures MulRows(r, a, b, f) == r
    decreases |a| - f
  {
    if f < |a| {
      MulRowZeroLimb(r, b, f, 0);
      MulRowsZeroLimbs(r, a, b, f + 1);
    }
  }

  /** `a * 0 == 0`, cell for cell, for any a. */
  lemma MulByZero(a: seq<Word>)
    ensures MulLimbs(a, Zeros(|a|)) == Zeros(|a|)
  {
    MulRowsQuietRight(Zeros(|a|), a, Zeros(|a|), 0);
  }

  lemma {:induction false} MulRowsQuietRight(r: seq<Word>, a: seq<Word>, b: seq<Word>, f: nat)
    requires f <= |a| && forall j :: 0 <= j < |b| ==> b[j] == 0
    ensures MulRows(r, a, b, f) == r
    decreases |a| - f
  {
    if f < |a| {
      MulRowQuiet(r, a[f], b, f, 0);
      MulRowsQuietRight(r, a, b, f + 1);
    }
  }

  /** The limbs of the integer 1. */
  function One(n: nat): (r: seq<Word>)
    requires n >= 1
    ensures |r| == n && Value(r) == 1
  {
    ZerosValue(n - 1);
    [1] + Zeros(n - 1)
  }

  /** `a * 1 == a`, cell for cell, for a normalized a. */
  lemma MulByOne(a: seq<Word>)
    requires |a| >= 1 && Normalized(a)
    ensures MulLimbs(a, One(|a|)) == a
  {
    MulRowsByOne(a, 0);
    assert a[..0] + Zeros(|a|) == Zeros(|a|);
  }

  lemma {:induction false} MulRowsByOne(a: seq<Word>, f: nat)
    requires 1 <= |a| && f <= |a| && Normalized(a)
    ensures MulRows(a[..f] + Zeros(|a| - f), a, One(|a|), f) == a
    decreases |a| - f
  {
    if f == |a| {
      assert a[..f] + Zeros(0) == a;
    } else {
      MulRowByOne(a, f);
      MulRowsByOne(a, f + 1);
    }
  }

  /** The pass for limb f of a, times 1, writes a[f] into the zero cell f. */
  lemma MulRowByOne(a: seq<Word>, f: nat)
    requires f < |a| && Normalized(a)
    ensures MulRow(a[..f] + Zeros(|a| - f), a[f], One(|a|), f, 0, 0) == a[..f + 1] + Zeros(|a| - f - 1)
  {
    var n := |a|;
    var b := One(n);
    var r := a[..f] + Zeros(n - f);
    var r' := a[..f + 1] + Zeros(n - f - 1);
    var res := (a[f] * b[0] + 0) % WORD;
    assert res == a[f] && res % HALF == a[f] && res / HALF == 0;
    assert r[f := (r[f] + res % HALF) % WORD] == r';
    assert MulRow(r, a[f], b, f, 0, 0) == MulRow(r', a[f], b, f, 1, 0);
    MulRowQuiet(r', a[f], b, f, 1);
  }

  /** Two operands that use only limb 0 multiply into limbs 0 and 1: the low
      and the high half of the 64-bit product. */
  lemma MulLowLimbs(x: Word, y: Word, n: nat)
    requires x < HALF && y < HALF && n >= 2
    ensures MulLimbs([x] + Zeros(n - 1), [y] + Zeros(n - 1))
         == [(x * y) % HALF, (x * y) / HALF] + Zeros(n - 2)
  {
    var a, b := [x] + Zeros(n - 1), [y] + Zeros(n - 1);
    var r1 := MulLowRow(x, y, n);
    assert a[0] == x;
    assert MulLimbs(a, b) == MulRows(r1, a, b, 1);
    MulRowsZeroLimbs(r1, a, b, 1);
  }

  /** The pass for limb 0 of `MulLowLimbs`: the low half goes to cell 0 and
      the carry to cell 1. */
  lemma MulLowRow(x: Word, y: Word, n: nat) returns (r1: seq<Word>)
    requires x < HALF && y < HALF && n >= 2
    ensures r1 == MulRow(Zeros(n), x, [y] + Zeros(n - 1), 0, 0, 0)
    ensures r1 == [(x * y) % HALF, (x * y) / HALF] + Zeros(n - 2)
  {
    var b := [y] + Zeros(n - 1);
    assert Normalized(b);
    var z := Zeros(n);
    assert RowBounds(z, 0, 0);
    var lo, hi := MulRowUnfold(z, x, b, 0, 0, 0);
    DivModUnique(x * y, HALF, hi, lo);
    var r0 := MulRowCell(z, 0, 0, lo);
    var lo', hi' := MulRowUnfold(r0, x, b, 0, 1, hi);
    assert lo' == hi && hi' == 0;
    r1 := MulRowCell(r0, 0, 1, lo');
    assert r1 == [lo, hi] + Zeros(n - 2);
    MulRowQuiet(r1, x, b, 0, 2);
  }

  /** 10^6 * 10^6 == 10^12 at any width of at least 64 bits: the product
      carries into limb 1. */
  lemma MulCarryExample(n: nat)
    requires n >= 2
    ensures MulLimbs([1_000_000] + Zeros(n - 1), [1_000_000] + Zeros(n - 1))
         == [3_567_587_328, 232] + Zeros(n - 2)
    ensures Value([3_567_587_328, 232]) == 1_000_000_000_000
  {
    var x: Word := 1_000_000;
    MulLowLimbs(x, x, n);
    DivModUnique(x * x, HALF, 232, 3_567_587_328);
  }

  // ---------------------------------------------------------------------
  // operator<=>
  // ---------------------------------------------------------------------

  datatype Ordering = Less | Equal | Greater {
    function Reverse(): Ordering {
      match this
      case Less => Greater
      case Equal => Equal
      case Greater => Less
    }
  }

  /** The defaulted `<=>`: the cell arrays compared lexicographically from
      cell 0, the least significant limb. */
  function CompareLimbs(a: seq<Word>, b: seq<Word>): Ordering
    requires |a| == |b|
  {
    if |a| == 0 then Equal
    else if a[0] < b[0] then Less
    else if a[0] > b[0] then Greater
    else CompareLimbs(a[1..], b[1..])
  }

  /** Two values compare equal exactly when all their cells are equal. */
  lemma {:induction false} CompareEqual(a: seq<Word>, b: seq<Word>)
    requires |a| == |b|
    ensures CompareLimbs(a, b) == Equal <==> a == b
  {
    if |a| > 0 {
      CompareEqual(a[1..], b[1..]);
      if a[0] == b[0] && a[1..] == b[1..] {
        assert a == [a[0]] + a[1..] && b == [b[0]] + b[1..];
      }
    }
  }

  /** The first cell in which two values differ decides their order. */
  lemma {:induction false} CompareFirstDifference(a: seq<Word>, b: seq<Word>, k: nat)
    requires |a| == |b| && k < |a| && a[..k] == b[..k] && a[k] != b[k]
    ensures CompareLimbs(a, b) == if a[k] < b[k] then Less else Greater
  {
    if k > 0 {
      assert a[0] == a[..k][0] && b[0] == b[..k][0];
      assert a[1..][..k - 1] == a[..k][1..] && b[1..][..k - 1] == b[..k][1..];
      CompareFirstDifference(a[1..], b[1..], k - 1);
    }
  }

  /** Two values differing only in the top cell are ordered by that cell. */
  lemma CompareTopLimb(a: seq<Word>, b: seq<Word>)
    requires |a| == |b| >= 1 && a[..|a| - 1] == b[..|b| - 1]
    ensures CompareLimbs(a, b) == if a[|a| - 1] < b[|b| - 1] then Less
                                  else if a[|a| - 1] > b[|b| - 1] then Greater
                                  else Equal
  {
    if a[|a| - 1] == b[|b| - 1] {
      assert a == a[..|a| - 1] + [a[|a| - 1]] && b == b[..|b| - 1] + [b[|b| - 1]];
      CompareEqual(a, b);
    } else {
      CompareFirstDifference(a, b, |a| - 1);
    }
  }

  /** Swapping the operands reverses the order. */
  lemma {:induction false} CompareAntisymmetric(a: seq<Word>, b: seq<Word>)
    requires |a| == |b|
    ensures CompareLimbs(b, a) == CompareLimbs(a, b).Reverse()
  {
    if |a| > 0 && a[0] == b[0] {
      CompareAntisymmetric(a[1..], b[1..]);
    }
  }

  /** `<` is transitive. */
  lemma {:induction false} CompareTransitive(a: seq<Word>, b: seq<Word>, c: seq<Word>)
    requires |a| == |b| == |c|
    requires CompareLimbs(a, b) == Less && CompareLimbs(b, c) == Less
    ensures CompareLimbs(a, c) == Less
  {
    if a[0] == b[0] && b[0] == c[0] {
      CompareTransitive(a[1..], b[1..], c[1..]);
    }
  }

  /** The order is structural, not numeric: 1 compares greater than 2^32. */
  lemma CompareIsNotNumeric()
    ensures CompareLimbs([1, 0, 0, 0], [0, 1, 0, 0]) == Greater
    ensures Value([1, 0, 0, 0]) < Value([0, 1, 0, 0])
  {
    assert [1, 0, 0, 0][1..] == [0, 0, 0] && [0, 1, 0, 0][1..] == [1, 0, 0];
  }

  // ---------------------------------------------------------------------
  // unary operator-
  // ---------------------------------------------------------------------

  /** 2^63, the value of bit 63 of a word, the bit `1 << (kWordInBits - 1)`
      selects; the source writes that shift on an `int` literal, the intended
      2^63 is modelled. */
  const SIGN_BIT: nat := 0x8000_0000_0000_0000

  /** `^=` with the sign bit: bit 63 is flipped and the 63 bits below it are
      kept. On a 64-bit word that adds 2^63 when the bit is clear and takes it
      away when it is set. */
  function FlipSignBit(x: Word): (y: Word)
    ensures y % SIGN_BIT == x % SIGN_BIT
    ensures y / SIGN_BIT == 1 - x / SIGN_BIT
  {
    if x < SIGN_BIT then x + SIGN_BIT else x - SIGN_BIT
  }

  /** The cells after unary `-`: only the top cell changes. */
  function Negated(s: seq<Word>): (r: seq<Word>)
    requires |s| >= 1
    ensures |r| == |s|
  {
    s[|s| - 1 := FlipSignBit(s[|s| - 1])]
  }

  /** Flipping the sign bit twice gives the word back. */
  lemma FlipSignBitTwice(x: Word)
    ensures FlipSignBit(FlipSignBit(x)) == x
  {
  }

  /** Unary `-` changes nothing but bit 63 of the top cell. */
  lemma NegateOnlyTopBit(s: seq<Word>)
    requires |s| >= 1
    ensures forall i :: 0 <= i < |s| - 1 ==> Negated(s)[i] == s[i]
    ensures Negated(s)[|s| - 1] % SIGN_BIT == s[|s| - 1] % SIGN_BIT
    ensures Negated(s)[|s| - 1] / SIGN_BIT != s[|s| - 1] / SIGN_BIT
  {
  }

  /** Unary `-` twice gives the original cells back. */
  lemma NegateTwice(s: seq<Word>)
    requires |s| >= 1
    ensures Negated(Negated(s)) == s
  {
    FlipSignBitTwice(s[|s| - 1]);
  }

  /** On a normalized value, unary `-` sets bit 63 of the top cell, which lies
      outside the cell's 32-bit limb: the result is not normalized and stands
      for the value plus 2^63 * 2^(32(n-1)), beyond 2^(32n). */
  lemma NegateLeavesLimbRange(s: seq<Word>)
    requires |s| >= 1 && Normalized(s)
    ensures !Normalized(Negated(s))
    ensures Value(Negated(s)) == Value(s) + SIGN_BIT * Weight(|s| - 1)
    ensures Value(Negated(s)) >= Weight(|s|)
  {
    var k := |s| - 1;
    var w, top := Weight(k), s[k];
    assert top < HALF;
    var t := Negated(s);
    assert t == s[k := top + SIGN_BIT];
    ValueUpdate(s, k, top + SIGN_BIT);
    ShiftedByWeight(Value(t), Value(s), top, SIGN_BIT, w);
    assert Weight(|s|) == HALF * w;
    MulLeftMonotone(HALF, SIGN_BIT, w);
  }

  lemma ShiftedByWeight(a: int, b: int, c: int, d: int, w: int)
    requires a + c * w == b + (c + d) * w
    ensures a == b + d * w
  {
    assert (c + d) * w == c * w + d * w;
  }

  lemma MulLeftMonotone(x: int, y: int, w: nat)
    requires x <= y
    ensures x * w <= y * w
  {
  }
}
