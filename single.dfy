/**
  The C# `float` fields of both segments (MAHM `data`, RTSS `statFramerate` and
  `statFrameTime`): IEEE 754 binary32 values decoded from their 32-bit pattern, the `>`
  comparison C# performs on them, and the `(long)Math.Truncate(v)` conversion that
  turns a reading into the integer that is published.
 */
module Single {
  import opened SharedMemory

  /** A binary32 value. Both zeros decode to Finite(0.0): they compare equal in C#. */
  datatype Float = Finite(value: real) | Infinity(negative: bool) | NaN

  const Zero: Float := Finite(0.0)

  const Int64Min: int := -0x8000_0000_0000_0000
  const Int64Max: int := 0x7FFF_FFFF_FFFF_FFFF

  function Pow2(e: nat): (p: nat)
    ensures p >= 1
  {
    if e == 0 then 1 else 2 * Pow2(e - 1)
  }

  /** 2^e as a real, for a possibly negative exponent. */
  function Scale(e: int): (r: real)
    ensures r > 0.0
  {
    if e >= 0 then Pow2(e) as real else 1.0 / Pow2(-e) as real
  }

  function SignBit(bits: uint32): nat { bits / 0x8000_0000 }
  function BiasedExponent(bits: uint32): nat { (bits / 0x80_0000) % 0x100 }
  function Fraction(bits: uint32): nat { bits % 0x80_0000 }

  /** Decodes a binary32 bit pattern: exponent 255 is an infinity or a NaN, exponent 0
      a subnormal (fraction * 2^-149), anything else (2^23 + fraction) * 2^(exponent - 150). */
  function FromBits(bits: uint32): (f: Float)
    ensures f.NaN? <==> BiasedExponent(bits) == 0xFF && Fraction(bits) != 0
    ensures f.Infinity? <==> BiasedExponent(bits) == 0xFF && Fraction(bits) == 0
    ensures f.Infinity? ==> (f.negative <==> SignBit(bits) == 1)
    ensures f.Finite? && f.value > 0.0 <==>
              SignBit(bits) == 0 && BiasedExponent(bits) != 0xFF && (BiasedExponent(bits) != 0 || Fraction(bits) != 0)
    ensures f.Finite? && f.value < 0.0 <==>
              SignBit(bits) == 1 && BiasedExponent(bits) != 0xFF && (BiasedExponent(bits) != 0 || Fraction(bits) != 0)
  {
    var exp := BiasedExponent(bits);
    var frac := Fraction(bits);
    if exp == 0xFF then
      if frac == 0 then Infinity(SignBit(bits) == 1) else NaN
    else
      var magnitude := Magnitude(exp, frac);
      Finite(if SignBit(bits) == 1 then -magnitude else magnitude)
  }

  /** The absolute value of a finite binary32: subnormal below exponent 1, normal above. */
  function Magnitude(exp: nat, frac: nat): (m: real)
    requires exp < 0xFF
    ensures m >= 0.0
    ensures m > 0.0 <==> exp != 0 || frac != 0
  {
    if exp == 0 then frac as real * Scale(-149)
    else (0x80_0000 + frac) as real * Scale(exp - 150)
  }

  function Negate(f: Float): Float
  {
    match f
    case Finite(x) => Finite(-x)
    case Infinity(neg) => Infinity(!neg)
    case NaN => NaN
  }

  /** Flipping the sign bit negates the decoded value (NaN stays NaN). */
  lemma SignBitNegates(bits: uint32)
    requires bits < 0x8000_0000
    ensures FromBits(bits + 0x8000_0000) == Negate(FromBits(bits))
  {
    var b' := bits + 0x8000_0000;
    assert SignBit(bits) == 0 && SignBit(b') == 1;
    assert b' / 0x80_0000 == bits / 0x80_0000 + 0x100;
    assert BiasedExponent(b') == BiasedExponent(bits);
    assert Fraction(b') == Fraction(bits);
  }

  /** The C# comparison `a > b`: false whenever either side is NaN. */
  predicate Gt(a: Float, b: Float)
  {
    match (a, b)
    case (NaN, _) => false
    case (_, NaN) => false
    case (Infinity(na), Infinity(nb)) => !na && nb
    case (Infinity(na), Finite(_)) => !na
    case (Finite(_), Infinity(nb)) => nb
    case (Finite(x), Finite(y)) => x > y
  }

  /** The C# comparison `a >= b`. */
  predicate Ge(a: Float, b: Float)
  {
    !a.NaN? && !b.NaN? && !Gt(b, a)
  }

  /** On values other than NaN, `>` is a strict total order. */
  lemma GtOrder(a: Float, b: Float, c: Float)
    ensures !Gt(a, a)
    ensures Gt(a, b) && Gt(b, c) ==> Gt(a, c)
    ensures Ge(a, b) && Gt(b, c) ==> Gt(a, c)
    ensures Gt(a, b) && Ge(b, c) ==> Gt(a, c)
    ensures !a.NaN? && !b.NaN? ==> Gt(a, b) || Gt(b, a) || a == b
    ensures Gt(a, b) ==> !a.NaN? && !b.NaN?
  {
  }

  /** x truncated toward zero is r. */
  ghost predicate TruncatesTo(x: real, r: int)
  {
    (x >= 0.0 ==> r as real <= x < r as real + 1.0) && (x < 0.0 ==> r as real - 1.0 < x <= r as real)
  }

  /** `(long)Math.Truncate(f)`: the fraction is dropped toward zero; values outside the
      64-bit range saturate, NaN gives 0. */
  function TruncateToInt64(f: Float): (r: int)
    ensures Int64Min <= r <= Int64Max
    ensures f.Finite? && Int64Min as real <= f.value < Int64Max as real + 1.0 ==> TruncatesTo(f.value, r)
    ensures f.Finite? && f.value >= Int64Max as real + 1.0 ==> r == Int64Max
    ensures f.Finite? && f.value < Int64Min as real ==> r == Int64Min
    ensures f.Infinity? ==> r == if f.negative then Int64Min else Int64Max
    ensures f.NaN? ==> r == 0
  {
    match f
    case NaN => 0
    case Infinity(neg) => if neg then Int64Min else Int64Max
    case Finite(x) =>
      var t := if x >= 0.0 then x.Floor else -((-x).Floor);
      if t < Int64Min then Int64Min else if t > Int64Max then Int64Max else t
  }

  /** A positive reading truncates to a non-negative integer, and to a positive one once it is at least 1. */
  lemma TruncatePositive(f: Float)
    requires Gt(f, Zero)
    ensures TruncateToInt64(f) >= 0
    ensures Ge(f, Finite(1.0)) ==> TruncateToInt64(f) >= 1
  {
  }
}
