/** Hexadecimal text for limbs: the zero-padded `{:0{}x}` / `{:0{}X}`
    formatting of one cell, and `to_string`'s concatenation of the cells,
    limb 0 first. A parser of that text is given as the reference inverse. */
module Hex {
  import opened Memory
  import opened Limbs

  /** `BigIntSerializationMode`. */
  datatype SerializationMode = HexLowercase | HexUppercase

  /** `kNumberOfHexDigitsPerWord`: the bits of a half-word over the four bits
      of one hex digit. */
  const HexDigitsPerLimb: nat := HalfWordInBits.Div(Bits(4)).value

  lemma HexDigitsPerLimbIsEight()
    ensures HexDigitsPerLimb == 8
  {
    HalfWordIsHalfOfWord();
  }

  function Pow16(k: nat): (r: nat)
    ensures r >= 1
  {
    if k == 0 then 1 else 16 * Pow16(k - 1)
  }

  /** Eight hex digits span exactly one limb. */
  lemma Pow16Eight()
    ensures Pow16(8) == HALF
  {
  }

  predicate IsHexDigit(c: char) {
    '0' <= c <= '9' || 'a' <= c <= 'f' || 'A' <= c <= 'F'
  }

  predicate AllHexDigits(s: string) {
    forall i :: 0 <= i < |s| ==> IsHexDigit(s[i])
  }

  /** The character for the digit d in the given letter case. */
  function DigitChar(d: nat, mode: SerializationMode): (c: char)
    requires d < 16
    ensures IsHexDigit(c)
  {
    if d < 10 then ('0' as int + d) as char
    else if mode == HexLowercase then ('a' as int + d - 10) as char
    else ('A' as int + d - 10) as char
  }

  /** The digit a character stands for, in either letter case. */
  function DigitValue(c: char): (d: nat)
    requires IsHexDigit(c)
    ensures d < 16
  {
    if '0' <= c <= '9' then c as int - '0' as int
    else if 'a' <= c <= 'f' then c as int - 'a' as int + 10
    else c as int - 'A' as int + 10
  }

  lemma DigitValueOfChar(d: nat, mode: SerializationMode)
    requires d < 16
    ensures DigitValue(DigitChar(d, mode)) == d
  {
  }

  /** The last k hex digits of x, most significant first. */
  function FixedDigits(x: nat, k: nat, mode: SerializationMode): (r: string)
    ensures |r| == k && AllHexDigits(r)
  {
    if k == 0 then [] else FixedDigits(x / 16, k - 1, mode) + [DigitChar(x % 16, mode)]
  }

  /** How many hex digits x needs (one for zero). */
  function NumHexDigits(x: nat): (k: nat)
    ensures k >= 1
  {
    if x < 16 then 1 else 1 + NumHexDigits(x / 16)
  }

  /** `std::format("{:0{}x}", x, width)` (`X` for upper case): x in hex,
      padded on the left with '0' to at least `width` characters. */
  function FormatHex(x: nat, width: nat, mode: SerializationMode): string {
    FixedDigits(x, if width < NumHexDigits(x) then NumHexDigits(x) else width, mode)
  }

  /** The number a string of hex digits stands for, most significant first. */
  function HexValue(s: string): nat
    requires AllHexDigits(s)
  {
    if |s| == 0 then 0 else HexValue(s[..|s| - 1]) * 16 + DigitValue(s[|s| - 1])
  }

  /** `to_string(mode)`: the formatted cells, limb 0 first. */
  function HexString(s: seq<nat>, mode: SerializationMode): string {
    if |s| == 0 then []
    else HexString(s[..|s| - 1], mode) + FormatHex(s[|s| - 1], HexDigitsPerLimb, mode)
  }

  /** The reference inverse of `to_string` for normalized values: every group
      of eight digits is one limb, limb 0 first. */
  function ParseLimbs(t: string): (r: seq<nat>)
    requires |t| % 8 == 0 && AllHexDigits(t)
    ensures |r| == |t| / 8
  {
    if |t| == 0 then [] else ParseLimbs(t[..|t| - 8]) + [HexValue(t[|t| - 8..])]
  }

  function LowerChar(c: char): char {
    if 'A' <= c <= 'F' then (c as int - 'A' as int + 'a' as int) as char else c
  }

  function UpperChar(c: char): char {
    if 'a' <= c <= 'f' then (c as int - 'a' as int + 'A' as int) as char else c
  }

  /** The string with the letters A-F turned into a-f and nothing else changed. */
  function Lowercase(s: string): (r: string)
    ensures |r| == |s| && forall i :: 0 <= i < |s| ==> r[i] == LowerChar(s[i])
  {
    seq(|s|, i requires 0 <= i < |s| => LowerChar(s[i]))
  }

  /** The string with the letters a-f turned into A-F and nothing else changed. */
  function Uppercase(s: string): (r: string)
    ensures |r| == |s| && forall i :: 0 <= i < |s| ==> r[i] == UpperChar(s[i])
  {
    seq(|s|, i requires 0 <= i < |s| => UpperChar(s[i]))
  }

  // Formatting one cell.

  /** The k digits of x read back give x modulo 16^k. */
  lemma {:induction false} FixedDigitsValue(x: nat, k: nat, mode: SerializationMode)
    ensures HexValue(FixedDigits(x, k, mode)) == x % Pow16(k)
  {
    if k > 0 {
      var s := FixedDigits(x, k, mode);
      assert s[..k - 1] == FixedDigits(x / 16, k - 1, mode);
      FixedDigitsValue(x / 16, k - 1, mode);
      DigitValueOfChar(x % 16, mode);
      ModProduct(x, 16, Pow16(k - 1));
      assert HexValue(s) == ((x / 16) % Pow16(k - 1)) * 16 + x % 16;
    }
  }

  lemma {:induction false} NumHexDigitsBound(x: nat)
    ensures x < Pow16(NumHexDigits(x))
  {
    if x >= 16 {
      NumHexDigitsBound(x / 16);
    }
  }

  lemma {:induction false} NumHexDigitsAtMost(x: nat, k: nat)
    requires k >= 1 && x < Pow16(k)
    ensures NumHexDigits(x) <= k
  {
    if x >= 16 {
      NumHexDigitsAtMost(x / 16, k - 1);
    }
  }

  /** Zero-padded formatting loses nothing: it reads back as x, and it is
      exactly `width` characters long when x fits in `width` digits. */
  lemma FormatHexValue(x: nat, width: nat, mode: SerializationMode)
    ensures |FormatHex(x, width, mode)| >= width
    ensures AllHexDigits(FormatHex(x, width, mode))
    ensures HexValue(FormatHex(x, width, mode)) == x
  {
    var n := NumHexDigits(x);
    var k := if width < n then n else width;
    NumHexDigitsBound(x);
    Pow16Monotone(n, k);
    FixedDigitsValue(x, k, mode);
    SmallMod(x, Pow16(k));
    assert FormatHex(x, width, mode) == FixedDigits(x, k, mode);
  }


  /** A value that fits in `width` digits is formatted as exactly `width`. */
  lemma FormatHexFits(x: nat, width: nat, mode: SerializationMode)
    requires width >= 1 && x < Pow16(width)
    ensures FormatHex(x, width, mode) == FixedDigits(x, width, mode)
  {
    NumHexDigitsAtMost(x, width);
  }

  lemma {:induction false} Pow16Monotone(i: nat, j: nat)
    requires i <= j
    ensures Pow16(i) <= Pow16(j)
  {
    if i < j {
      Pow16Monotone(i, j - 1);
    }
  }

  /** A 32-bit limb formats as exactly eight digits. */
  lemma FormatLimb(x: nat, mode: SerializationMode)
    requires x < HALF
    ensures FormatHex(x, HexDigitsPerLimb, mode) == FixedDigits(x, 8, mode)
  {
    HexDigitsPerLimbIsEight();
    FormatHexFits(x, 8, mode);
  }

  lemma {:induction false} FixedDigitsOfZero(k: nat, mode: SerializationMode)
    ensures FixedDigits(0, k, mode) == seq(k, _ => '0')
  {
    if k > 0 {
      FixedDigitsOfZero(k - 1, mode);
    }
  }

  /** The two letter cases give the same digits, in lower and upper case. */
  lemma {:induction false} FixedDigitsCase(x: nat, k: nat)
    ensures FixedDigits(x, k, HexLowercase) == Lowercase(FixedDigits(x, k, HexUppercase))
    ensures FixedDigits(x, k, HexUppercase) == Uppercase(FixedDigits(x, k, HexLowercase))
  {
    if k > 0 {
      FixedDigitsCase(x / 16, k - 1);
    }
  }

  // Formatting all cells.

  /** Every character of `to_string`'s output is a hex digit, and each cell
      contributes at least eight of them. */
  lemma {:induction false} HexStringShape(s: seq<nat>, mode: SerializationMode)
    ensures AllHexDigits(HexString(s, mode))
    ensures |HexString(s, mode)| >= 8 * |s|
    ensures Normalized(s) ==> |HexString(s, mode)| == 8 * |s|
  {
    if |s| > 0 {
      HexStringShape(s[..|s| - 1], mode);
      HexDigitsPerLimbIsEight();
      FormatHexValue(s[|s| - 1], 8, mode);
      if Normalized(s) {
        assert Normalized(s[..|s| - 1]);
        FormatLimb(s[|s| - 1], mode);
      }
    }
  }

  /** For a normalized value, the eight characters at 8i..8i+8 are limb i in
      hex, zero-padded. */
  lemma {:induction false} HexStringChunk(s: seq<nat>, mode: SerializationMode, i: nat)
    requires Normalized(s) && i < |s|
    ensures |HexString(s, mode)| == 8 * |s|
    ensures HexString(s, mode)[8 * i..8 * i + 8] == FixedDigits(s[i], 8, mode)
  {
    HexStringShape(s, mode);
    var init := s[..|s| - 1];
    assert Normalized(init);
    HexStringShape(init, mode);
    FormatLimb(s[|s| - 1], mode);
    var head, tail := HexString(init, mode), FixedDigits(s[|s| - 1], 8, mode);
    assert HexString(s, mode) == head + tail;
    if i < |s| - 1 {
      HexStringChunk(init, mode, i);
      SliceOfConcat(head, tail, 8 * i, 8 * i + 8);
    } else {
      SliceOfConcat(head, tail, |head|, |head| + 8);
    }
  }

  /** A slice of a concatenation that lies in the first part, or is exactly
      the second part. */
  lemma SliceOfConcat(head: string, tail: string, lo: nat, hi: nat)
    requires lo <= hi <= |head| + |tail|
    ensures hi <= |head| ==> (head + tail)[lo..hi] == head[lo..hi]
    ensures lo == |head| && hi == |head| + |tail| ==> (head + tail)[lo..hi] == tail
  {
  }

  /** Reading `to_string`'s output back, eight digits per limb, gives the
      normalized limbs again. */
  lemma {:induction false} HexStringRoundTrip(s: seq<nat>, mode: SerializationMode)
    requires Normalized(s)
    ensures |HexString(s, mode)| % 8 == 0 && AllHexDigits(HexString(s, mode))
    ensures ParseLimbs(HexString(s, mode)) == s
  {
    HexStringShape(s, mode);
    if |s| > 0 {
      var init, last := s[..|s| - 1], s[|s| - 1];
      assert Normalized(init);
      HexStringShape(init, mode);
      HexStringRoundTrip(init, mode);
      FormatLimb(last, mode);
      LimbDigitsValue(last, mode);
      ParseLimbsAppend(HexString(init, mode), FixedDigits(last, 8, mode));
      assert s == init + [last];
    }
  }

  /** The eight digits of a limb read back as the limb. */
  lemma LimbDigitsValue(x: nat, mode: SerializationMode)
    requires x < HALF
    ensures HexValue(FixedDigits(x, 8, mode)) == x
  {
    FixedDigitsValue(x, 8, mode);
    Pow16Eight();
    SmallMod(x, Pow16(8));
  }

  /** Parsing text with eight more digits at the end gives one more limb. */
  lemma ParseLimbsAppend(head: string, tail: string)
    requires |head| % 8 == 0 && |tail| == 8 && AllHexDigits(head) && AllHexDigits(tail)
    ensures AllHexDigits(head + tail)
    ensures ParseLimbs(head + tail) == ParseLimbs(head) + [HexValue(tail)]
  {
    var t := head + tail;
    assert t[..|t| - 8] == head;
    assert t[|t| - 8..] == tail;
  }

  /** Zero limbs give eight '0' characters per limb. */
  lemma {:induction false} HexStringZeros(n: nat, mode: SerializationMode)
    ensures HexString(Zeros(n), mode) == seq(8 * n, _ => '0')
  {
    if n > 0 {
      assert Zeros(n)[..n - 1] == Zeros(n - 1);
      HexStringZeros(n - 1, mode);
      FormatLimb(0, mode);
      FixedDigitsOfZero(8, mode);
      assert seq(8 * (n - 1), _ => '0') + seq(8, _ => '0') == seq(8 * n, _ => '0');
    }
  }

  /** Case conversion distributes over concatenation. */
  lemma CaseOfConcat(a: string, b: string)
    ensures Lowercase(a + b) == Lowercase(a) + Lowercase(b)
    ensures Uppercase(a + b) == Uppercase(a) + Uppercase(b)
  {
  }

  /** One cell formatted in either letter case: the same digits. */
  lemma FormatHexCase(x: nat, width: nat)
    ensures FormatHex(x, width, HexLowercase) == Lowercase(FormatHex(x, width, HexUppercase))
    ensures FormatHex(x, width, HexUppercase) == Uppercase(FormatHex(x, width, HexLowercase))
  {
    FixedDigitsCase(x, if width < NumHexDigits(x) then NumHexDigits(x) else width);
  }

  /** The lower-case and the upper-case output differ only in letter case. */
  lemma {:induction false} HexStringCase(s: seq<nat>)
    ensures HexString(s, HexLowercase) == Lowercase(HexString(s, HexUppercase))
    ensures HexString(s, HexUppercase) == Uppercase(HexString(s, HexLowercase))
  {
    if |s| > 0 {
      var init, x := s[..|s| - 1], s[|s| - 1];
      HexStringCase(init);
      FormatHexCase(x, HexDigitsPerLimb);
      CaseOfConcat(HexString(init, HexUppercase), FormatHex(x, HexDigitsPerLimb, HexUppercase));
      CaseOfConcat(HexString(init, HexLowercase), FormatHex(x, HexDigitsPerLimb, HexLowercase));
    }
  }
}
