/** What a sequence of limbs means: cell i holds a 32-bit digit of weight
    2^(32*i), least significant first. A cell is a full 64-bit word, so it
    may hold more than 32 bits; the weighted sum is still defined. */
module Limbs {
  import opened Memory

  /** 2^kHalfWordInBits: the radix of one limb. */
  const HALF: nat := 0x1_0000_0000

  /** 2^kWordInBits: the range of one cell. */
  const WORD: nat := 0x1_0000_0000_0000_0000

  /** The low-half mask 2^32 - 1. */
  const MASK: nat := HALF - 1

  /** The radix 2^32 is the half-word's range, and one cell holds two limbs. */
  lemma RadixIsHalfWord()
    ensures HALF == Modulus(HalfWordType) && WORD == Modulus(WordType)
    ensures HALF * HALF == WORD
  {
    HalfWordIsHalfOfWord();
  }

  /** 2^(32*i), the weight of cell i. */
  function Weight(i: nat): (w: nat)
    ensures w >= 1
  {
    if i == 0 then 1 else HALF * Weight(i - 1)
  }

  /** The number the cells stand for: the sum of cell i times Weight(i). */
  function Value(s: seq<nat>): nat {
    if |s| == 0 then 0 else s[0] + HALF * Value(s[1..])
  }

  /** Every cell holds a 32-bit limb (the upper half of its word is zero). */
  predicate Normalized(s: seq<nat>) {
    forall i :: 0 <= i < |s| ==> s[i] < HALF
  }

  /** n zero cells, the value of a default-constructed integer. */
  function Zeros(n: nat): (r: seq<Word>)
    ensures |r| == n && forall i :: 0 <= i < n ==> r[i] == 0
  {
    seq(n, _ => 0)
  }

  /** The n lowest base-2^32 digits of x, least significant first. */
  function Digits(x: nat, n: nat): (r: seq<Word>)
    ensures |r| == n && Normalized(r)
  {
    if n == 0 then [] else [x % HALF] + Digits(x / HALF, n - 1)
  }

  lemma {:induction false} WeightAdd(i: nat, j: nat)
    ensures Weight(i + j) == Weight(i) * Weight(j)
  {
    if i > 0 {
      WeightAdd(i - 1, j);
      calc {
        Weight(i + j);
        HALF * Weight(i - 1 + j);
        HALF * (Weight(i - 1) * Weight(j));
        (HALF * Weight(i - 1)) * Weight(j);
      }
    }
  }

  /** A multiple of the next weight is 2^32 times the multiple of this one. */
  lemma WeightStep(c: int, k: nat)
    requires k >= 1
    ensures c * Weight(k) == HALF * (c * Weight(k - 1))
  {
    var w := Weight(k - 1);
    assert Weight(k) == HALF * w;
    assert c * (HALF * w) == HALF * (c * w);
  }

  lemma {:induction false} WeightMonotone(i: nat, j: nat)
    requires i <= j
    ensures Weight(i) <= Weight(j)
  {
    if i < j {
      WeightMonotone(i, j - 1);
    }
  }

  /** Weight(1) and Weight(2) are the half-word and the word ranges. */
  lemma WeightSmall()
    ensures Weight(0) == 1 && Weight(1) == HALF && Weight(2) == WORD
  {
  }

  lemma {:induction false} ZerosValue(n: nat)
    ensures Value(Zeros(n)) == 0
  {
    if n > 0 {
      assert Zeros(n)[1..] == Zeros(n - 1);
      ZerosValue(n - 1);
    }
  }

  lemma {:induction false} DigitsOfZero(n: nat)
    ensures Digits(0, n) == Zeros(n)
  {
    if n > 0 {
      DigitsOfZero(n - 1);
    }
  }

  /** The value of a concatenation: the second part is shifted by the length
      of the first. */
  lemma {:induction false} ValueConcat(s: seq<nat>, t: seq<nat>)
    ensures Value(s + t) == Value(s) + Weight(|s|) * Value(t)
  {
    if |s| == 0 {
      assert s + t == t;
    } else {
      assert (s + t)[1..] == s[1..] + t;
      ValueConcat(s[1..], t);
      calc {
        Value(s + t);
        s[0] + HALF * Value(s[1..] + t);
        s[0] + HALF * (Value(s[1..]) + Weight(|s| - 1) * Value(t));
        s[0] + HALF * Value(s[1..]) + (HALF * Weight(|s| - 1)) * Value(t);
      }
    }
  }

  /** Appending zero cells does not change the value. */
  lemma ValueZeroPadded(s: seq<nat>, k: nat)
    ensures Value(s + Zeros(k)) == Value(s)
  {
    ValueConcat(s, Zeros(k));
    ZerosValue(k);
  }

  /** A normalized sequence of n cells stands for a number below 2^(32n). */
  lemma {:induction false} ValueBound(s: seq<nat>)
    requires Normalized(s)
    ensures Value(s) < Weight(|s|)
  {
    if |s| > 0 {
      ValueBound(s[1..]);
      assert Value(s[1..]) <= Weight(|s| - 1) - 1;
      calc {
        Value(s);
        s[0] + HALF * Value(s[1..]);
        <= HALF - 1 + HALF * (Weight(|s| - 1) - 1);
        == HALF * Weight(|s| - 1) - 1;
        < Weight(|s|);
      }
    }
  }

  /** Replacing cell k by v changes the value by (v - s[k]) * Weight(k). */
  lemma {:induction false} ValueUpdate(s: seq<nat>, k: nat, v: nat)
    requires k < |s|
    ensures Value(s[k := v]) + s[k] * Weight(k) == Value(s) + v * Weight(k)
  {
    var u := s[k := v];
    if k == 0 {
      assert u[1..] == s[1..];
    } else {
      var t, t' := s[1..], s[1..][k - 1 := v];
      assert u[1..] == t';
      ValueUpdate(t, k - 1, v);
      ScaledUpdate(HALF, Value(t'), Value(t), t[k - 1], v, Weight(k - 1));
    }
  }

  lemma ScaledUpdate(h: int, a: int, b: int, p: int, q: int, w: int)
    requires a + p * w == b + q * w
    ensures h * a + p * (h * w) == h * b + q * (h * w)
  {
    assert h * (a + p * w) == h * (b + q * w);
    MulAssoc(h, p, w);
    MulAssoc(h, q, w);
    assert p * (h * w) == h * (p * w);
    assert q * (h * w) == h * (q * w);
  }

  // Arithmetic on remainders.

  lemma MulAssoc(x: int, y: int, z: int)
    ensures x * (y * z) == (x * y) * z
  {
  }

  lemma MulAtLeast(d: int, m: int)
    requires d >= 1 && m > 0
    ensures d * m >= m
  {
    assert d * m == (d - 1) * m + m;
    assert (d - 1) * m >= 0;
  }

  /** Quotient and remainder are unique. */
  lemma DivModUnique(x: int, m: int, q: int, r: int)
    requires m > 0 && 0 <= r < m && x == q * m + r
    ensures x % m == r && x / m == q
  {
    var q', r' := x / m, x % m;
    assert x == q' * m + r';
    assert (q' - q) * m == r - r' by {
      assert (q' - q) * m == q' * m - q * m;
    }
    if q' > q {
      MulAtLeast(q' - q, m);
    } else if q' < q {
      MulAtLeast(q - q', m);
    }
  }

  lemma SmallMod(x: nat, m: nat)
    requires x < m
    ensures x % m == x && x / m == 0
  {
  }

  /** Normalized cells that fall short of x by a whole multiple of 2^(32n)
      stand for x modulo 2^(32n). */
  lemma NormalizedRemainder(r: seq<nat>, c: int, x: int)
    requires Normalized(r) && Value(r) + c * Weight(|r|) == x
    ensures Value(r) == x % Weight(|r|)
  {
    ValueBound(r);
    DivModUnique(x, Weight(|r|), c, Value(r));
  }

  /** a and b leave the same remainder modulo m. */
  predicate ModEq(a: int, b: int, m: int) {
    m > 0 && a % m == b % m
  }

  /** Adding the same amount to both sides keeps a congruence. */
  lemma ModEqAdd(a: int, b: int, y: int, m: int)
    requires ModEq(a, b, m)
    ensures ModEq(a + y, b + y, m)
  {
    ModOfMod(a, y, m);
    ModOfMod(b, y, m);
  }

  /** A congruence with one side rewritten to an equal value. */
  lemma ModEqSame(a: int, b: int, b': int, m: int)
    requires ModEq(a, b, m) && b == b'
    ensures ModEq(a, b', m)
  {
  }

  /** Congruence is transitive. */
  lemma ModEqTrans(a: int, b: int, c: int, m: int)
    requires ModEq(a, b, m) && ModEq(b, c, m)
    ensures ModEq(a, c, m)
  {
  }

  /** Adding a multiple of m does not change the remainder modulo m. */
  lemma ModAddMultiple(x: int, k: int, m: int)
    requires m > 0
    ensures (x + k * m) % m == x % m
  {
    var q, r := x / m, x % m;
    assert x + k * m == (q + k) * m + r;
    DivModUnique(x + k * m, m, q + k, r);
  }

  /** Anything at weight k >= n vanishes modulo 2^(32n). */
  lemma ModHighWeight(x: int, y: int, k: nat, n: nat)
    requires k >= n
    ensures (x + y * Weight(k)) % Weight(n) == x % Weight(n)
  {
    WeightAdd(k - n, n);
    var a, b := Weight(k - n), Weight(n);
    var c := y * a;
    assert Weight(k) == a * b;
    assert y * Weight(k) == c * b by {
      MulAssoc(y, a, b);
    }
    ModAddMultiple(x, c, b);
  }

  /** Reducing an operand first does not change a remainder. */
  lemma ModOfMod(x: int, y: int, m: int)
    requires m > 0
    ensures ((x % m) + y) % m == (x + y) % m
  {
    assert x + y == (x % m + y) + (x / m) * m;
    ModAddMultiple(x % m + y, x / m, m);
  }

  /** Splitting a remainder modulo M*N into the low digit and the rest. */
  lemma ModProduct(x: nat, m: nat, n: nat)
    requires m > 0 && n > 0
    ensures x % (m * n) == x % m + m * ((x / m) % n)
    ensures x / (m * n) == (x / m) / n
  {
    var q := x / m;
    var lo := x % m;
    var hi := q % n;
    assert x == q * m + lo;
    assert q == (q / n) * n + hi;
    assert x == (q / n) * (m * n) + (m * hi + lo) by {
      assert q * m == ((q / n) * n + hi) * m;
      assert ((q / n) * n + hi) * m == (q / n) * (m * n) + m * hi;
    }
    assert m * hi + lo < m * n by {
      assert hi <= n - 1;
      assert m * hi <= m * (n - 1);
    }
    DivModUnique(x, m * n, q / n, m * hi + lo);
  }

  /** A product of a remainder behaves like the product of the original. */
  lemma ModMulLeft(x: int, c: int, m: int)
    requires m > 0
    ensures ((x % m) * c) % m == (x * c) % m
  {
    assert x * c == (x % m) * c + ((x / m) * c) * m by {
      assert x == (x / m) * m + x % m;
      assert x * c == ((x / m) * m + x % m) * c;
    }
    ModAddMultiple((x % m) * c, (x / m) * c, m);
  }

  /** The digits of x stand for x modulo 2^(32n). */
  lemma {:induction false} DigitsValue(x: nat, n: nat)
    ensures Value(Digits(x, n)) == x % Weight(n)
  {
    if n > 0 {
      DigitsValue(x / HALF, n - 1);
      assert Digits(x, n)[1..] == Digits(x / HALF, n - 1);
      ModProduct(x, HALF, Weight(n - 1));
    }
  }

  /** A normalized sequence is the digit sequence of its own value: the
      representation is unique. */
  lemma {:induction false} DigitsOfValue(s: seq<nat>)
    requires Normalized(s)
    ensures Digits(Value(s), |s|) == s
  {
    if |s| > 0 {
      var v := Value(s);
      assert v == s[0] + HALF * Value(s[1..]);
      DivModUnique(v, HALF, Value(s[1..]), s[0]);
      DigitsOfValue(s[1..]);
    }
  }

  /** Two normalized sequences of one length with equal values are equal. */
  lemma ValueInjective(s: seq<nat>, t: seq<nat>)
    requires Normalized(s) && Normalized(t) && |s| == |t|
    requires Value(s) == Value(t)
    ensures s == t
  {
    DigitsOfValue(s);
    DigitsOfValue(t);
  }
}
