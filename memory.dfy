/** The `memory` unit helpers: bit and byte counts, `size_of`, and the
    machine word and half-word the fixed-width integers are built from.
    The platform is fixed at a 64-bit `Word` (`uintptr_t`) whose half-word
    is `uint32_t`. */
module Memory {

  datatype Option<T> = None | Some(value: T)

  /** `CHAR_BIT`: the number of bits in a byte. */
  const CHAR_BIT: nat := 8

  /** A count of bits. The strong-integral wrapper around it is modelled as a
      plain wrapper of a `nat`; `Div` is the wrapper's division. */
  datatype Bits = Bits(value: nat) {
    function Div(divisor: Bits): Bits
      requires divisor.value > 0
    {
      Bits(value / divisor.value)
    }
  }

  /** A count of bytes. */
  datatype Bytes = Bytes(value: nat)

  /** `to_bits`: a byte count as a bit count. */
  function ToBits(bytes: Bytes): Bits {
    Bits(bytes.value * CHAR_BIT)
  }

  /** `to_bytes`: a bit count as a byte count, rounding down. */
  function ToBytes(bits: Bits): Bytes {
    Bytes(bits.value / CHAR_BIT)
  }

  /** The unsigned native integer types the model knows about. */
  datatype NativeType = U8 | U16 | U32 | U64

  /** `size_of<Ty>()`: `sizeof(Ty)` as a byte count. */
  function SizeOf(t: NativeType): Bytes {
    match t
    case U8 => Bytes(1)
    case U16 => Bytes(2)
    case U32 => Bytes(4)
    case U64 => Bytes(8)
  }

  /** One more than `std::numeric_limits<Ty>::max()`, i.e. 2 to the power of
      the type's width in bits. */
  function Modulus(t: NativeType): nat {
    match t
    case U8 => 0x100
    case U16 => 0x1_0000
    case U32 => 0x1_0000_0000
    case U64 => 0x1_0000_0000_0000_0000
  }

  /** `std::numeric_limits<Ty>::max()`. */
  function MaxValue(t: NativeType): nat {
    Modulus(t) - 1
  }

  /** `bytes_to_imm_t<Bytes>::Ty`: only the 4-byte and the 2-byte
      specialisations exist; any other size has no member type. */
  function BytesToImm(size: nat): Option<NativeType> {
    if size == 4 then Some(U32)
    else if size == 2 then Some(U16)
    else None
  }

  /** `Word` is `uintptr_t`, 64 bits wide on the modelled platform. */
  const WordType: NativeType := U64

  /** `HalfWord`: the unsigned type of half the size of `Word`. */
  const HalfWordType: NativeType := BytesToImm(SizeOf(WordType).value / 2).value

  /** `kWordInBits`. */
  const WordInBits: Bits := ToBits(SizeOf(WordType))

  /** `kHalfWordInBits`. */
  const HalfWordInBits: Bits := ToBits(SizeOf(WordType)).Div(Bits(2))

  /** Values of a `Word`, a `HalfWord` and a `uint8_t`. */
  type Word = x: nat | x < 0x1_0000_0000_0000_0000
  type HalfWord = x: nat | x < 0x1_0000_0000
  type Byte = x: nat | x < 0x100

  /** Converting bytes to bits and back gives the byte count again. */
  lemma ToBytesOfToBits(bytes: Bytes)
    ensures ToBits(bytes).value == bytes.value * 8
    ensures ToBytes(ToBits(bytes)) == bytes
  {
  }

  /** Converting bits to bytes rounds down: going back to bits never gives
      more, and gives the same count exactly when it is a whole number of
      bytes. */
  lemma ToBitsOfToBytes(bits: Bits)
    ensures ToBytes(bits).value == bits.value / 8
    ensures ToBits(ToBytes(bits)).value <= bits.value
    ensures ToBits(ToBytes(bits)) == bits <==> bits.value % 8 == 0
  {
  }

  /** The half-word is half of the word, in bits and in bytes, and in range:
      a 32-bit half-word for a 64-bit word. */
  lemma HalfWordIsHalfOfWord()
    ensures WordInBits.value == 64 && HalfWordInBits.value == 32
    ensures HalfWordInBits.value * 2 == WordInBits.value
    ensures HalfWordType == U32
    ensures SizeOf(HalfWordType).value * 2 == SizeOf(WordType).value
    ensures Modulus(HalfWordType) * Modulus(HalfWordType) == Modulus(WordType)
    ensures ToBits(SizeOf(HalfWordType)) == HalfWordInBits
  {
  }
}
