/**
 * The few pieces of java.lang that User and UserService rely on:
 * the `long` and `int` ranges, `int` wrap-around, `Long.hashCode`
 * and the decimal rendering of a `long` used by string concatenation.
 */
module JavaLang {
  import opened Wrappers

  const TWO_31: int := 0x8000_0000
  const TWO_32: int := 0x1_0000_0000
  const TWO_64: int := 0x1_0000_0000_0000_0000

  /** Integer.MAX_VALUE */
  const INT_MAX: int := 0x7fff_ffff

  /** A Java `long`: a signed 64-bit integer. */
  newtype Long = x: int | -0x8000_0000_0000_0000 <= x < 0x8000_0000_0000_0000

  /** A value in the range of a Java `int`. */
  predicate IsInt32(x: int) {
    -TWO_31 <= x < TWO_31
  }

  /** Narrowing to `int`: keeps the low 32 bits, read as a two's complement number. */
  function ToInt32(x: int): (r: int)
    ensures IsInt32(r)
    ensures (r - x) % TWO_32 == 0
    ensures IsInt32(x) ==> r == x
  {
    (x + TWO_31) % TWO_32 - TWO_31
  }

  function Pow2(w: nat): (p: nat)
    ensures p > 0
  {
    if w == 0 then 1 else 2 * Pow2(w - 1)
  }

  lemma {:induction false} Pow2Add(a: nat, b: nat)
    ensures Pow2(a + b) == Pow2(a) * Pow2(b)
    decreases a
  {
    if a > 0 {
      Pow2Add(a - 1, b);
    }
  }

  lemma Pow2ThirtyTwo()
    ensures Pow2(32) == TWO_32
  {
    Pow2Add(1, 1);
    Pow2Add(2, 2);
    Pow2Add(4, 4);
    Pow2Add(8, 8);
    Pow2Add(16, 16);
  }

  /** Bitwise exclusive or of the low `w` bits of `a` and `b`. */
  function XorBits(a: nat, b: nat, w: nat): (r: nat)
    ensures r < Pow2(w)
    decreases w
  {
    if w == 0 then 0
    else (if a % 2 != b % 2 then 1 else 0) + 2 * XorBits(a / 2, b / 2, w - 1)
  }

  lemma {:induction false} XorBitsZero(b: nat, w: nat)
    requires b < Pow2(w)
    ensures XorBits(0, b, w) == b
    decreases w
  {
    if w > 0 {
      XorBitsZero(b / 2, w - 1);
    }
  }

  lemma {:induction false} XorBitsSelf(a: nat, w: nat)
    ensures XorBits(a, a, w) == 0
    decreases w
  {
    if w > 0 {
      XorBitsSelf(a / 2, w - 1);
    }
  }

  /** `Long.hashCode(v)`, that is `(int)(v ^ (v >>> 32))`: the exclusive or of the
      two 32-bit halves of the two's complement representation of `v`. */
  function LongHashCode(v: Long): (h: int)
    ensures IsInt32(h)
  {
    var bits := (v as int) % TWO_64;
    ToInt32(XorBits(bits / TWO_32, bits % TWO_32, 32))
  }

  /** On a non-negative long below 2^31 the hash is the value itself. */
  lemma LongHashCodeOfSmall(v: Long)
    requires 0 <= v as int < TWO_31
    ensures LongHashCode(v) == v as int
  {
    var bits := (v as int) % TWO_64;
    assert bits / TWO_32 == 0 && bits % TWO_32 == v as int;
    Pow2ThirtyTwo();
    XorBitsZero(v as int, 32);
  }

  // ---------------------------------------------------------------------------
  // Decimal rendering of a long, as `"" + v` produces it.

  predicate IsDigit(c: char) {
    '0' <= c <= '9'
  }

  function DigitValue(c: char): (d: nat)
    requires IsDigit(c)
    ensures d < 10
  {
    c as int - '0' as int
  }

  function DigitChar(d: nat): (c: char)
    requires d < 10
    ensures IsDigit(c) && DigitValue(c) == d
  {
    ('0' as int + d) as char
  }

  /** The decimal digits of `n`, most significant first, without leading zeros. */
  function NatToDecimal(n: nat): (s: string)
    ensures |s| > 0
    ensures forall i :: 0 <= i < |s| ==> IsDigit(s[i])
    ensures |s| > 1 ==> s[0] != '0'
    decreases n
  {
    if n < 10 then [DigitChar(n)] else NatToDecimal(n / 10) + [DigitChar(n % 10)]
  }

  /** `Long.toString(v)`: a minus sign for negative values, then the digits of |v|. */
  function LongToString(v: Long): (s: string)
    ensures |s| > 0
    ensures s[0] == '-' <==> v < 0
    ensures forall i :: 0 <= i < |s| ==> IsDigit(s[i]) || (i == 0 && s[i] == '-')
  {
    if v < 0 then "-" + NatToDecimal(-(v as int)) else NatToDecimal(v as int)
  }

  /** The value of a string of decimal digits. */
  function DecimalValue(s: string): (n: nat)
    requires forall i :: 0 <= i < |s| ==> IsDigit(s[i])
  {
    if s == [] then 0 else 10 * DecimalValue(s[..|s| - 1]) + DigitValue(s[|s| - 1])
  }

  /** Reads a long back from its decimal rendering; `None` on a malformed text. */
  function ParseLong(s: string): (r: Option<int>)
    ensures r.Some? ==> |s| > 0
  {
    if |s| > 0 && s[0] == '-' && |s| > 1 && forall i :: 1 <= i < |s| ==> IsDigit(s[i]) then
      var m: int := DecimalValue(s[1..]);
      Some(-m)
    else if |s| > 0 && forall i :: 0 <= i < |s| ==> IsDigit(s[i]) then
      Some(DecimalValue(s))
    else
      None
  }

  lemma {:induction false} NatToDecimalValue(n: nat)
    ensures DecimalValue(NatToDecimal(n)) == n
    decreases n
  {
    if n >= 10 {
      var s := NatToDecimal(n);
      NatToDecimalValue(n / 10);
      assert s[..|s| - 1] == NatToDecimal(n / 10);
    }
  }

  /** Rendering a long and reading it back gives the same value. */
  lemma LongToStringRoundTrip(v: Long)
    ensures ParseLong(LongToString(v)) == Some(v as int)
  {
    if v < 0 {
      NatToDecimalValue(-(v as int));
      assert LongToString(v)[1..] == NatToDecimal(-(v as int));
    } else {
      NatToDecimalValue(v as int);
    }
  }
}
