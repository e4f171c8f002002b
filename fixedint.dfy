/** `math::FixedInt<Bits>`: an integer of a fixed number of bits held in an
    array of 64-bit words, one 32-bit limb per word, limb 0 least
    significant. Every operator works on the array in place, as the
    functions of `Arith`, `Construct` and `Hex` describe step by step. */
module Math {
  import opened Memory
  import opened Limbs
  import opened Hex
  import opened Arith
  import opened Construct

  /** The template's requirement on `Bits`: wider than a word and a whole
      number of bytes. */
  predicate ValidWidth(bits: nat) {
    bits > WordInBits.value && bits % CHAR_BIT == 0
  }

  /** `kNumberOfHalfWords`: `Bits` over the 32 bits of a half-word, rounded
      up. */
  function LimbCount(bits: nat): nat {
    (bits + (32 - 1)) / 32
  }

  /** The limb count is the fewest 32-bit limbs that hold `Bits` bits, and a
      valid width has at least three of them. */
  lemma LimbCountFits(bits: nat)
    ensures 32 * LimbCount(bits) >= bits
    ensures LimbCount(bits) >= 1 ==> 32 * (LimbCount(bits) - 1) < bits
    ensures ValidWidth(bits) ==> LimbCount(bits) >= 3
  {
    HalfWordIsHalfOfWord();
  }

  /** `Int128` and `Int256`. */
  const Int128Bits: nat := 128
  const Int256Bits: nat := 256

  lemma NamedWidths()
    ensures ValidWidth(Int128Bits) && LimbCount(Int128Bits) == 4
    ensures ValidWidth(Int256Bits) && LimbCount(Int256Bits) == 8
  {
    HalfWordIsHalfOfWord();
  }

  /** `to_string` of a zero `Int128` is 32 zero digits, in either case. */
  lemma Int128ZeroString(mode: SerializationMode)
    ensures HexString(Zeros(LimbCount(Int128Bits)), mode) == seq(32, _ => '0')
  {
    HexStringZeros(4, mode);
  }

  class FixedInt {
    /** The template argument `Bits`. */
    const bits: nat
    /** `data_`: one word per limb. */
    const data: array<Word>

    ghost predicate Valid()
      reads this
    {
      ValidWidth(bits) && data.Length == LimbCount(bits)
    }

    /** `FixedInt()`: every cell zero. */
    constructor (bits: nat)
      requires ValidWidth(bits)
      ensures Valid() && this.bits == bits && fresh(data)
      ensures data[..] == Zeros(LimbCount(bits))
    {
      this.bits := bits;
      var a := new Word[LimbCount(bits)](_ => 0);
      assert a[..] == Zeros(LimbCount(bits));
      data := a;
    }

    /** `FixedInt(Ty value)` for an unsigned native type t. */
    constructor FromNative(bits: nat, t: NativeType, value: nat)
      requires ValidWidth(bits) && value < Modulus(t)
      ensures Valid() && this.bits == bits && fresh(data)
      ensures data[..] == NativeLimbs(LimbCount(bits), t, value)
    {
      LimbCountFits(bits);
      HalfWordIsHalfOfWord();
      var n := LimbCount(bits);
      var a := new Word[n](_ => 0);
      assert a[..] == Zeros(n);
      if SizeOf(t).value > SizeOf(HalfWordType).value {
        WordFitsInCells(n);
        var v: nat := value;
        var i := 0;
        while v != 0
          invariant i <= n
          invariant v < Weight(n - i)
          invariant NativeWrites(a[..], v, i) == NativeWrites(Zeros(n), value, 0)
          decreases v
        {
          BelowNextWeight(v, n - i);
          a[i] := v % HALF;
          v := v / HALF;
          i := i + 1;
        }
      } else {
        a[0] := value;
      }
      this.bits := bits;
      data := a;
    }

    /** `FixedInt(std::string_view value)` for a string of decimal digits
      whose writes all fall on the cells. */
    constructor FromDecimal(bits: nat, s: string)
      requires ValidWidth(bits) && AllDecimal(s) && DecimalFits(s, LimbCount(bits))
      ensures Valid() && this.bits == bits && fresh(data)
      ensures data[..] == DecimalLimbs(s, LimbCount(bits))
    {
      var n := LimbCount(bits);
      var a := new Word[n](_ => 0);
      assert a[..] == Zeros(n);
      var acc: Word := 0;
      var mult: Word := 1;
      var i := 0;
      var k := |s|;
      while k > 0
        invariant 0 <= k <= |s| && i <= n
        invariant forall j :: i <= j < n ==> a[j] == 0
        invariant DecScan(s, k, DecState(acc, mult, a[..i])) == DecFinal(s)
      {
        var digit: Word := DigitOf(s[k - 1]);
        ghost var st := DecState(acc, mult, a[..i]);
        assert DecScan(s, k, st) == DecScan(s, k - 1, DecStep(st, digit));
        if acc >= MASK {
          DecFlushFits(s, k, st, n);
          a[i] := acc % HALF;
          acc := acc / HALF;
          mult := 1;
          i := i + 1;
          assert a[..i] == st.flushed + [st.acc % HALF];
        }
        ghost var mid := DecState(acc, mult, a[..i]);
        assert mid == if st.acc >= MASK then DecFlush(st) else st;
        acc := (acc + (digit * mult) % WORD) % WORD;
        mult := (mult * 10) % WORD;
        k := k - 1;
        assert DecState(acc, mult, a[..i]) == DecAdd(mid, digit);
      }
      ghost var w := DecWritten(DecState(acc, mult, a[..i]));
      if acc > 0 {
        a[i] := acc;
        assert a[..i + 1] == w;
      } else {
        assert a[..i] == w;
      }
      assert a[..] == w + Zeros(n - |w|);
      this.bits := bits;
      data := a;
    }

    /** `FixedInt(std::span<uint8_t> value)` for a buffer whose reads and
        writes all fall in range. */
    constructor FromBytes(bits: nat, bytes: seq<Byte>)
      requires ValidWidth(bits) && ByteAccessesInRange(LimbCount(bits), |bytes|)
      ensures Valid() && this.bits == bits && fresh(data)
      ensures data[..] == ByteLimbs(bytes, LimbCount(bits))
    {
      var n := LimbCount(bits);
      var a := new Word[n](_ => 0);
      assert a[..] == Zeros(n);
      for i := 0 to |bytes|
        invariant ByteWrites(a[..], bytes, i) == ByteLimbs(bytes, n)
      {
        a[ByteWriteIndex(|bytes|, i)] := bytes[ByteReadIndex(i)];
      }
      this.bits := bits;
      data := a;
    }

    /** The defaulted `operator<=>`: the cells compared in order from cell 0.
        Two values compare equal exactly when all their cells are equal. */
    function Compare(other: FixedInt): (o: Ordering)
      reads this, data, other, other.data
      requires Valid() && other.Valid() && other.bits == bits
      ensures o == Equal <==> data[..] == other.data[..]
    {
      CompareEqual(data[..], other.data[..]);
      CompareLimbs(data[..], other.data[..])
    }

    /** Unary `operator-`: flips bit 63 of the top cell, in place. */
    method Negate()
      requires Valid()
      modifies data
      ensures data[..] == Negated(old(data[..]))
    {
      var top := data.Length - 1;
      data[top] := FlipSignBit(data[top]);
    }

    /** `operator+=`: the ripple-carry loop. `rhs` may be this very object:
        each pass reads both cells before it writes one. */
    method AddAssign(rhs: FixedInt)
      requires Valid() && rhs.Valid() && rhs.bits == bits
      modifies data
      ensures data[..] == AddLimbs(old(data[..]), old(rhs.data[..]))
    {
      ghost var a, b := data[..], rhs.data[..];
      var n := data.Length;
      var carry: Word := 0;
      var i := 0;
      while i < n
        invariant 0 <= i <= n
        invariant data[i..] == a[i..] && rhs.data[i..] == b[i..]
        invariant data[..i] + AddCarry(a[i..], b[i..], carry) == AddLimbs(a, b)
      {
        ghost var done := data[..i];
        assert data[i] == a[i..][0] && rhs.data[i] == b[i..][0];
        var res := (data[i] + rhs.data[i] + carry) % WORD;
        AddCarryPass(done, a[i..], b[i..], carry);
        assert a[i..][1..] == a[i + 1..] && b[i..][1..] == b[i + 1..];
        carry := res / HALF;
        data[i] := res % HALF;
        assert data[..i + 1] == done + [res % HALF];
        i := i + 1;
      }
    }

    /** One pass of the inner loop of `operator*=`: the partial products of
        limb x with every cell of b, added into result from cell f on, with
        the carry threaded from one cell to the next. */
    static method MulRowInto(result: array<Word>, x: Word, b: array<Word>, f: nat)
      requires result != b
      modifies result
      ensures result[..] == MulRow(old(result[..]), x, b[..], f, 0, 0)
    {
      ghost var r0 := result[..];
      var carry: Word := 0;
      var s := 0;
      while s < b.Length
        invariant 0 <= s <= b.Length
        invariant MulRow(result[..], x, b[..], f, s, carry) == MulRow(r0, x, b[..], f, 0, 0)
      {
        ghost var r := result[..];
        var res := (x * b[s] + carry) % WORD;
        if f + s < result.Length {
          result[f + s] := (result[f + s] + res % HALF) % WORD;
          assert result[..] == r[f + s := (r[f + s] + res % HALF) % WORD];
        }
        carry := res / HALF;
        s := s + 1;
      }
    }

    /** `operator*=`: the schoolbook loops into a zeroed result, which is then
        copied over the cells. `rhs` may be this very object: the cells are
        only read until the copy. */
    method MulAssign(rhs: FixedInt)
      requires Valid() && rhs.Valid() && rhs.bits == bits
      modifies data
      ensures data[..] == MulLimbs(old(data[..]), old(rhs.data[..]))
    {
      ghost var a, b := data[..], rhs.data[..];
      var n := data.Length;
      var result := new Word[n](_ => 0);
      assert result[..] == Zeros(n);
      for f := 0 to n
        invariant data[..] == a && rhs.data[..] == b
        invariant MulRows(result[..], a, b, f) == MulLimbs(a, b)
      {
        MulRowInto(result, data[f], rhs.data, f);
      }
      forall i | 0 <= i < n {
        data[i] := result[i];
      }
      assert data[..] == result[..];
    }

    /** `to_string(mode)`: every cell as at least eight hex digits, cell 0
        first. */
    method ToString(mode: SerializationMode) returns (r: string)
      requires Valid()
      ensures r == HexString(data[..], mode)
    {
      r := [];
      for i := 0 to data.Length
        invariant r == HexString(data[..i], mode)
      {
        assert data[..i + 1][..i] == data[..i];
        r := r + FormatHex(data[i], HexDigitsPerLimb, mode);
      }
      assert data[..data.Length] == data[..];
    }
  }
}
