/** Exact comparison of a binary floating point number with an integer of any width
    (base/base/DecomposedFloat.h).  The number is the bit pattern of a binary interchange format,
    section 3.4 of IEEE 754-2019; its value is a real number and nothing is rounded. */
module FloatCompare {
  import opened Arith
  import opened Bits

  /** exponent_bits and mantissa_bits of FloatTraits. */
  datatype Format = Format(exponentBits: nat, mantissaBits: nat) {
    /** The exponent fits int16_t, the whole number uint64_t, and the bias is positive. */
    predicate Valid() {
      2 <= exponentBits <= 15 && 1 <= mantissaBits && exponentBits + mantissaBits + 1 <= 64
    }

    function Bits(): nat { exponentBits + mantissaBits + 1 }

    function Bias(): nat
      requires Valid()
    { Pow2(exponentBits - 1) - 1 }
  }

  const FLOAT32 := Format(8, 23)

  /** The integer type of the right-hand side. */
  datatype IntType = IntType(width: nat, signed: bool) {
    predicate Valid() { 1 <= width < 0x8000 }

    function MagnitudeBits(): nat
      requires Valid()
    { if signed then width - 1 else width }

    predicate Holds(n: int)
      requires Valid()
    {
      if signed then 0 - Pow2(width - 1) <= n < Pow2(width - 1) else 0 <= n < Pow2(width)
    }
  }

  datatype Float = Float(format: Format, word: nat) {
    predicate Valid() { format.Valid() && word < Pow2(format.Bits()) }

    predicate IsNegative()
      requires Valid()
    { Shr(word, format.Bits() - 1) != 0 }

    function Exponent(): nat
      requires Valid()
    { Shr(word, format.mantissaBits) % Pow2(format.exponentBits) }

    function NormalizedExponent(): int
      requires Valid()
    { Exponent() - format.Bias() }

    function Mantissa(): nat
      requires Valid()
    { word % Pow2(format.mantissaBits) }

    function Sign(): int
      requires Valid()
    {
      if Exponent() == 0 && Mantissa() == 0 then 0 else if IsNegative() then -1 else 1
    }

    predicate IsFinite()
      requires Valid()
    { Exponent() != Pow2(format.exponentBits) - 1 }

    /** -1, 0 or 1 by the branches of the source; words of the type UInt wrap. */
    function Compare(t: IntType, rhs: int): int
      requires Valid() && t.Valid() && t.Holds(rhs)
    {
      var away := if IsNegative() then -1 else 1;
      var n := NormalizedExponent();
      if rhs == 0 then Sign()
      else if IsNegative() && rhs > 0 then -1
      else if !IsNegative() && rhs < 0 then 1
      else if n < 0 then
        if !IsNegative() then (if rhs > 0 then -1 else 1) else (if rhs >= 0 then -1 else 1)
      else if t.signed && rhs == 0 - Pow2(t.width - 1) then
        if n < t.MagnitudeBits() then 1
        else if n > t.MagnitudeBits() then -1
        else if Mantissa() == 0 then 0
        else -1
      else if n >= t.MagnitudeBits() then away
      else SameSign(t, if rhs < 0 then 0 - rhs else rhs)
    }

    /** The rest of the comparison, on the magnitude uint_rhs. */
    function SameSign(t: IntType, magnitude: nat): int
      requires Valid() && t.Valid() && 0 <= NormalizedExponent() < t.MagnitudeBits()
    {
      var away := if IsNegative() then -1 else 1;
      var n := NormalizedExponent();
      var bits := if t.width > format.Bits() then t.width else format.Bits();
      if magnitude < Shl(bits, 1, n) then away
      else if n + 1 < t.MagnitudeBits() && magnitude >= Shl(bits, 1, n + 1) then 0 - away
      else SameOctave(away, magnitude, n, bits)
    }

    function SameOctave(away: int, magnitude: nat, n: nat, bits: nat): int
      requires Valid()
    {
      var alwaysInteger := n >= format.mantissaBits;
      var a: int := if alwaysInteger then Shl(bits, Mantissa(), n - format.mantissaBits)
                    else Shr(Mantissa(), format.mantissaBits - n);
      var b := (magnitude - Shl(bits, 1, n)) % Pow2(bits);
      if a < b then 0 - away
      else if a > b then away
      else if alwaysInteger then 0
      else if Mantissa() % Pow2(format.mantissaBits - n) == 0 then 0
      else away
    }

    // --- the value ----------------------------------------------------------------------------------------

    /** The number the fields spell: a subnormal when the exponent field is zero, else a normal number. */
    ghost function Spelled(): real
      requires Valid()
    {
      var s := if IsNegative() then -1.0 else 1.0;
      var p := format.mantissaBits;
      if Exponent() == 0 then
        s * (Mantissa() as real * Exp2(1 - format.Bias() - p))
      else
        s * (Exp2(NormalizedExponent()) * (1.0 + Mantissa() as real * Exp2(0 - p)))
    }

    /** The same times 2 to the power bias + mantissa_bits - 1, an integer. */
    ghost function Scaled(): int
      requires Valid()
    {
      var magnitude := if Exponent() == 0 then Mantissa()
                       else (Pow2(format.mantissaBits) + Mantissa()) * Pow2(Exponent() - 1);
      if IsNegative() then 0 - magnitude else magnitude
    }
  }

  ghost function Exp2(k: int): real {
    if k >= 0 then Pow2(k) as real else 1.0 / Pow2(0 - k) as real
  }

  ghost function SignOfReal(d: real): int {
    if d < 0.0 then -1 else if d == 0.0 then 0 else 1
  }

  // --- Spelled and Scaled -----------------------------------------------------------------------------------

  lemma Cancel(a: real, b: real)
    requires a != 0.0
    ensures 1.0 / a * (a * b) == b
  {
    assert 1.0 / a * a == 1.0;
  }

  lemma Exp2Shift(k: int, j: nat)
    requires 0 <= k + j
    ensures Exp2(k) * Pow2(j) as real == Pow2(k + j) as real
  {
    hide Pow2;
    if k >= 0 {
      Pow2Add(k, j);
    } else {
      Pow2Add(0 - k, k + j);
      Cancel(Pow2(0 - k) as real, Pow2(k + j) as real);
    }
  }

  lemma ScaleNormal(e2: real, m: real, ulp: real, big: real, c: real, d: real)
    requires ulp * big == 1.0 && d == c * big
    ensures e2 * (1.0 + m * ulp) * d == e2 * c * (big + m)
  {
    assert (1.0 + m * ulp) * big == big + m * (ulp * big);
    assert e2 * (1.0 + m * ulp) * (c * big) == e2 * c * ((1.0 + m * ulp) * big);
  }

  lemma SubnormalScale(m: nat, u: real, d: real)
    requires u * d == 1.0
    ensures m as real * u * d == m as real
  {
    assert m as real * u * d == m as real * (u * d);
  }

  lemma NormalScale(m: nat, e: nat, bias: nat, p: nat)
    requires 1 <= e && 1 <= bias
    ensures Exp2(e - bias) * (1.0 + m as real * Exp2(0 - p)) * Pow2(bias + p - 1) as real
         == ((Pow2(p) + m) * Pow2(e - 1)) as real
  {
    hide Pow2, Exp2;
    var big, c, d := Pow2(p) as real, Pow2(bias - 1) as real, Pow2(bias + p - 1) as real;
    Pow2Add(bias - 1, p);
    Exp2Shift(0 - p, p);
    SmallPowers();
    Exp2Shift(e - bias, bias - 1);
    ScaleNormal(Exp2(e - bias), m as real, Exp2(0 - p), big, c, d);
    var sum, q := Pow2(p) + m, Pow2(e - 1);
    assert sum as real * q as real == (sum * q) as real;
  }

  lemma BiasPositive(f: Format)
    requires f.Valid()
    ensures 1 <= f.Bias()
  {
    Pow2Monotonic(1, f.exponentBits - 1);
  }

  /** Spelled is Scaled over 2 to the power bias + mantissa_bits - 1. */
  lemma ScaledSpells(x: Float)
    requires x.Valid() && 1 <= x.format.Bias()
    ensures x.Spelled() * Pow2(x.format.Bias() + x.format.mantissaBits - 1) as real == x.Scaled() as real
  {
    hide Pow2, Exp2, Float.Mantissa, Float.Exponent, Float.IsNegative, Format.Bias;
    var p: int, bias: int := x.format.mantissaBits, x.format.Bias();
    var m, e := x.Mantissa(), x.Exponent();
    if e == 0 {
      Exp2Shift(1 - bias - p, bias + p - 1);
      SmallPowers();
      SubnormalScale(m, Exp2(1 - bias - p), Pow2(bias + p - 1) as real);
    } else {
      NormalScale(m, e, bias, p);
    }
  }

  lemma RealSign(v: real, d: nat, s: int, n: int)
    requires 0 < d && v * d as real == s as real
    ensures SignOfReal(v - n as real) == SignOf(s - n * d)
  {
    var w := v - n as real;
    var dr := d as real;
    assert w * dr == (s - n * d) as real;
    if w < 0.0 {
      assert w * dr < 0.0;
    } else if w > 0.0 {
      assert w * dr > 0.0;
    }
  }

  // --- the comparison ---------------------------------------------------------------------------------------

  lemma SignTimes(d: int, c: int)
    requires 0 < c
    ensures SignOf(d * c) == SignOf(d)
  {
    if d < 0 {
      MulMonotonic(d, -1, c);
    } else if d > 0 {
      MulMonotonic(1, d, c);
    }
  }

  /** Outside the octave of the number the mantissa does not matter. */
  lemma OtherOctave(big: int, m: int, t: int, r: int)
    requires 0 <= m < big && 0 < t
    ensures r < t ==> (big + m) * t - r * big > 0
    ensures r >= 2 * t ==> (big + m) * t - r * big < 0
  {
    assert (big + m) * t == t * big + m * t;
    MulMonotonic(0, m, t);
    if r < t {
      MulMonotonic(r + 1, t, big);
    } else if r >= 2 * t {
      MulMonotonic(2 * t, r, big);
      MulMonotonic(m, big - 1, t);
      assert (big - 1) * t == t * big - t && 2 * t * big == t * big + t * big;
    }
  }

  /** From 2 to the power mantissa_bits on every number is an integer. */
  lemma LargeOctave(big: int, m: int, t: int, r: int, p: int)
    requires 0 < big && t == big * p
    ensures SignOf((big + m) * t - r * big) == SignOf(m * p - (r - t))
  {
    assert (big + m) * (big * p) == (big * p + m * p) * big;
    assert (big + m) * t - r * big == (m * p - (r - t)) * big;
    SignTimes(m * p - (r - t), big);
  }

  /** Below, the integer part decides and then the fraction. */
  lemma SmallOctave(big: int, m: int, t: int, r: int, q: int)
    requires 0 < t && 0 < q && big == t * q && 0 <= m
    ensures m / q < r - t ==> SignOf((big + m) * t - r * big) == -1
    ensures m / q > r - t ==> SignOf((big + m) * t - r * big) == 1
    ensures m / q == r - t ==> SignOf((big + m) * t - r * big) == if m % q == 0 then 0 else 1
  {
    var b := r - t;
    assert (big + m) * t - r * big == (m - b * q) * t by {
      assert r * (t * q) == (b + t) * (t * q);
      assert (b + t) * (t * q) == b * q * t + t * (t * q);
      assert big * t == t * (t * q);
    }
    SignTimes(m - b * q, t);
    assert m == m / q * q + m % q;
    if m / q < b {
      MulMonotonic(m / q + 1, b, q);
    } else if m / q > b {
      MulMonotonic(b + 1, m / q, q);
    }
  }

  lemma ShlExact(x: nat, n: nat, bits: nat)
    requires x * Pow2(n) < Pow2(bits)
    ensures Shl(bits, x, n) == x * Pow2(n)
  {
    SmallMod(x * Pow2(n), Pow2(bits));
  }

  /** The comparison inside the octave is exact. */
  lemma SameOctaveExact(x: Float, away: int, r: nat, n: nat, bits: nat)
    requires x.Valid() && (away == 1 || away == -1)
    requires n < bits && Pow2(n) <= r < Pow2(bits)
    ensures x.SameOctave(away, r, n, bits)
         == away * SignOf((Pow2(x.format.mantissaBits) + x.Mantissa()) * Pow2(n) - r * Pow2(x.format.mantissaBits))
  {
    hide Pow2;
    var p, m := x.format.mantissaBits, x.Mantissa();
    var big, t := Pow2(p), Pow2(n);
    Pow2Strict(n, bits);
    ShlExact(1, n, bits);
    SmallMod(r - t, Pow2(bits));
    if n >= p {
      Pow2Add(p, n - p);
      MulMonotonic(m, big, Pow2(n - p));
      ShlExact(m, n - p, bits);
      LargeOctave(big, m, t, r, Pow2(n - p));
    } else {
      Pow2Add(n, p - n);
      SmallOctave(big, m, t, r, Pow2(p - n));
    }
  }

  /** The same for every magnitude that the integer type can hold. */
  lemma SameSignExact(x: Float, t: IntType, r: nat)
    requires x.Valid() && t.Valid() && 0 <= x.NormalizedExponent() < t.MagnitudeBits()
    requires r < Pow2(t.MagnitudeBits())
    ensures x.SameSign(t, r)
         == (if x.IsNegative() then -1 else 1)
            * SignOf((Pow2(x.format.mantissaBits) + x.Mantissa()) * Pow2(x.NormalizedExponent())
                     - r * Pow2(x.format.mantissaBits))
  {
    hide Pow2, Float.SameOctave;
    var n, l := x.NormalizedExponent(), t.MagnitudeBits();
    var bits := if t.width > x.format.Bits() then t.width else x.format.Bits();
    Pow2Monotonic(l, bits);
    Pow2Strict(n, bits);
    ShlExact(1, n, bits);
    OtherOctave(Pow2(x.format.mantissaBits), x.Mantissa(), Pow2(n), r);
    if n + 1 < l {
      Pow2Strict(n + 1, bits);
      ShlExact(1, n + 1, bits);
      Pow2Add(1, n);
      SmallPowers();
    }
    if Pow2(n) <= r {
      SameOctaveExact(x, if x.IsNegative() then -1 else 1, r, n, bits);
    }
  }

  /** The comparison of a number of magnitude at least one, as integers over a common denominator. */
  lemma NormalFactors(x: Float, r: int)
    requires x.Valid() && 1 <= x.format.Bias() && 0 <= x.NormalizedExponent()
    ensures x.Scaled() - r * Pow2(x.format.Bias() + x.format.mantissaBits - 1)
         == ((if x.IsNegative() then -1 else 1)
             * ((Pow2(x.format.mantissaBits) + x.Mantissa()) * Pow2(x.NormalizedExponent()))
             - r * Pow2(x.format.mantissaBits)) * Pow2(x.format.Bias() - 1)
  {
    hide Pow2, Float.Mantissa, Float.Exponent, Float.IsNegative, Format.Bias;
    var n, bias, p := x.NormalizedExponent(), x.format.Bias(), x.format.mantissaBits;
    Pow2Add(n, bias - 1);
    Pow2Add(p, bias - 1);
    var sum, t, c, big := Pow2(p) + x.Mantissa(), Pow2(n), Pow2(bias - 1), Pow2(p);
    assert sum * (t * c) == sum * t * c;
    assert r * (big * c) == r * big * c;
  }

  lemma MagnitudeBelowOne(p: nat, m: nat, e: nat, bias: nat)
    requires m < Pow2(p) && e < bias
    ensures (Pow2(p) + m) * Pow2(e) < Pow2(bias + p)
    ensures 0 < (Pow2(p) + m) * Pow2(e)
  {
    hide Pow2;
    var big, q := Pow2(p), Pow2(e);
    Pow2Add(p + 1, e);
    Pow2Add(1, p);
    SmallPowers();
    MulMonotonic(big + m, 2 * big - 1, q);
    MulMonotonic(1, big + m, q);
    assert (2 * big - 1) * q == 2 * big * q - q;
    Pow2Monotonic(p + 1 + e, bias + p);
  }

  /** A number of magnitude below one. */
  lemma BelowOne(x: Float)
    requires x.Valid() && 1 <= x.format.Bias() && x.NormalizedExponent() < 0
    ensures var one := Pow2(x.format.Bias() + x.format.mantissaBits - 1); 0 - one < x.Scaled() < one
    ensures if x.IsNegative() then x.Scaled() <= 0 else 0 <= x.Scaled()
    ensures x.Sign() == SignOf(x.Scaled())
  {
    hide Pow2, Float.IsNegative, Format.Bias, Float.Exponent;
    var bias, p, m, e := x.format.Bias(), x.format.mantissaBits, x.Mantissa(), x.Exponent();
    if e == 0 {
      Pow2Monotonic(p, bias + p - 1);
    } else {
      MagnitudeBelowOne(p, m, e - 1, bias - 1);
    }
  }

  /** A number of magnitude at least one. */
  lemma AtLeastOne(x: Float)
    requires x.Valid() && 1 <= x.format.Bias() && 0 <= x.NormalizedExponent()
    ensures if x.IsNegative() then x.Scaled() < 0 else 0 < x.Scaled()
    ensures x.Sign() == SignOf(x.Scaled())
  {
    hide Pow2, Float.IsNegative, Format.Bias, Float.Exponent, Float.Mantissa;
    MulMonotonic(1, Pow2(x.format.mantissaBits) + x.Mantissa(), Pow2(x.Exponent() - 1));
  }

  /** The most negative integer, whose magnitude is a power of two. */
  lemma LowestExact(big: nat, m: nat, n: nat, l: nat)
    requires m < big
    ensures n < l ==> SignOf((big + m) * Pow2(n) - Pow2(l) * big) == -1
    ensures n > l ==> SignOf((big + m) * Pow2(n) - Pow2(l) * big) == 1
    ensures n == l ==> SignOf((big + m) * Pow2(n) - Pow2(l) * big) == if m == 0 then 0 else 1
  {
    hide Pow2;
    OtherOctave(big, m, Pow2(n), Pow2(l));
    if n < l {
      Pow2Monotonic(n + 1, l);
      Pow2Add(1, n);
      SmallPowers();
    } else if n > l {
      Pow2Strict(l, n);
    } else {
      assert (big + m) * Pow2(n) - Pow2(l) * big == m * Pow2(n);
      SignTimes(m, Pow2(n));
    }
  }

  /** Magnitudes of one sign: every branch after the sign tests. */
  lemma MagnitudesExact(x: Float, t: IntType, rhs: int)
    requires x.Valid() && t.Valid() && t.Holds(rhs) && 0 <= x.NormalizedExponent()
    requires if x.IsNegative() then rhs < 0 else 0 < rhs
    ensures x.Compare(t, rhs)
         == (if x.IsNegative() then -1 else 1)
            * SignOf((Pow2(x.format.mantissaBits) + x.Mantissa()) * Pow2(x.NormalizedExponent())
                     - (if rhs < 0 then 0 - rhs else rhs) * Pow2(x.format.mantissaBits))
  {
    hide Pow2, Float.IsNegative, Float.Exponent, Format.Bias, Float.SameSign;
    var n, l, big, m := x.NormalizedExponent(), t.MagnitudeBits(), Pow2(x.format.mantissaBits), x.Mantissa();
    var r := if rhs < 0 then 0 - rhs else rhs;
    if t.signed && rhs == 0 - Pow2(t.width - 1) {
      LowestExact(big, m, n, l);
    } else if n >= l {
      Pow2Monotonic(l, n);
      OtherOctave(big, m, Pow2(n), r);
    } else {
      SameSignExact(x, t, r);
    }
  }

  lemma CompareBelowOne(x: Float, t: IntType, rhs: int)
    requires x.Valid() && t.Valid() && t.Holds(rhs) && 1 <= x.format.Bias() && x.NormalizedExponent() < 0
    ensures x.Compare(t, rhs) == SignOf(x.Scaled() - rhs * Pow2(x.format.Bias() + x.format.mantissaBits - 1))
  {
    hide Pow2, Float.IsNegative, Float.Exponent, Format.Bias, Float.SameSign, Float.Mantissa, Float.Scaled, Float.Sign;
    var d := Pow2(x.format.Bias() + x.format.mantissaBits - 1);
    BelowOne(x);
    if rhs > 0 {
      MulMonotonic(1, rhs, d);
    } else if rhs < 0 {
      MulMonotonic(rhs, -1, d);
    }
  }

  lemma OrientedSign(negative: bool, u: int, w: int, c: int, rhs: int, difference: int)
    requires 0 < c && (if negative then rhs < 0 else 0 < rhs)
    requires difference == ((if negative then -1 else 1) * u - rhs * w) * c
    ensures SignOf(difference) == (if negative then -1 else 1) * SignOf(u - (if rhs < 0 then 0 - rhs else rhs) * w)
  {
    if negative {
      SignTimes(0 - u - rhs * w, c);
      assert 0 - u - rhs * w == 0 - (u - (0 - rhs) * w);
    } else {
      SignTimes(u - rhs * w, c);
    }
  }

  lemma CompareAtLeastOne(x: Float, t: IntType, rhs: int)
    requires x.Valid() && t.Valid() && t.Holds(rhs) && 1 <= x.format.Bias() && 0 <= x.NormalizedExponent()
    ensures x.Compare(t, rhs) == SignOf(x.Scaled() - rhs * Pow2(x.format.Bias() + x.format.mantissaBits - 1))
  {
    hide Pow2, Float.IsNegative, Float.Exponent, Format.Bias, Float.SameSign, Float.Mantissa, Float.Scaled, Float.Sign;
    var d := Pow2(x.format.Bias() + x.format.mantissaBits - 1);
    if if x.IsNegative() then rhs < 0 else 0 < rhs {
      hide Float.Compare;
      MagnitudesExact(x, t, rhs);
      NormalFactors(x, rhs);
      OrientedSign(x.IsNegative(), (Pow2(x.format.mantissaBits) + x.Mantissa()) * Pow2(x.NormalizedExponent()),
                   Pow2(x.format.mantissaBits), Pow2(x.format.Bias() - 1), rhs, x.Scaled() - rhs * d);
    } else {
      AtLeastOne(x);
      if rhs > 0 {
        MulMonotonic(1, rhs, d);
      } else if rhs < 0 {
        MulMonotonic(rhs, -1, d);
      }
    }
  }

  // --- what the comparison promises -------------------------------------------------------------------------

  /** Every float against every integer of every width: the sign of the exact difference.  A finite float,
      zeros and subnormals included, is the number it spells; infinities and NaNs are compared as if their
      exponent field were one of a normal number. */
  lemma CompareExact(x: Float, t: IntType, rhs: int)
    requires x.Valid() && t.Valid() && t.Holds(rhs)
    ensures x.Compare(t, rhs) == SignOfReal(x.Spelled() - rhs as real)
  {
    hide Pow2, Float.Compare, Float.Spelled, Float.Scaled, Format.Bias;
    BiasPositive(x.format);
    if x.NormalizedExponent() < 0 {
      CompareBelowOne(x, t, rhs);
    } else {
      CompareAtLeastOne(x, t, rhs);
    }
    ScaledSpells(x);
    RealSign(x.Spelled(), Pow2(x.format.Bias() + x.format.mantissaBits - 1), x.Scaled(), rhs);
  }

  // --- the interchange format -------------------------------------------------------------------------------

  /** The word with the given sign, biased exponent and trailing significand. */
  function Encode(f: Format, negative: bool, e: nat, m: nat): nat {
    (if negative then Pow2(f.exponentBits + f.mantissaBits) else 0) + e * Pow2(f.mantissaBits) + m
  }

  predicate Fields(f: Format, e: nat, m: nat) {
    f.Valid() && e < Pow2(f.exponentBits) && m < Pow2(f.mantissaBits)
  }

  /** The number that these fields stand for: (-1)^s * 2^(e - bias) * (1 + m / 2^p), or (-1)^s * m * 2^(1 - bias - p)
      if the exponent field is zero, where the bias is 2^(exponent_bits - 1) - 1. */
  ghost function Denoted(f: Format, negative: bool, e: nat, m: nat): real
    requires f.Valid()
  {
    var s := if negative then -1.0 else 1.0;
    var p, bias := f.mantissaBits, Pow2(f.exponentBits - 1) - 1;
    if e == 0 then s * (m as real * Exp2(1 - bias - p))
    else s * (Exp2(e - bias) * (1.0 + m as real * Exp2(0 - p)))
  }

  lemma EncodeAtoms(s: nat, e: nat, m: nat, p: nat, q: nat)
    requires s <= 1 && e < q && m < p && 0 < p && 0 < q
    ensures (s * (q * p) + e * p + m) % p == m && (s * (q * p) + e * p + m) / p == s * q + e
    ensures (s * q + e) % q == e && s * (q * p) + e * p + m < 2 * (q * p)
    ensures (s * (q * p) + e * p + m) / (q * p) == s
  {
    assert s * (q * p) == s * q * p && s * q * p + e * p == (s * q + e) * p;
    DivModUnique(s * (q * p) + e * p + m, p, s * q + e, m);
    DivModUnique(s * q + e, q, s, e);
    MulMonotonic(e, q - 1, p);
    assert (q - 1) * p == q * p - p;
    DivModUnique(s * (q * p) + e * p + m, q * p, s, e * p + m);
  }

  /** The accessors read back exactly the three fields. */
  lemma FieldsOf(f: Format, negative: bool, e: nat, m: nat)
    requires Fields(f, e, m)
    ensures var x := Float(f, Encode(f, negative, e, m));
            x.Valid() && x.IsNegative() == negative && x.Exponent() == e && x.Mantissa() == m
  {
    hide Pow2;
    Pow2Add(f.exponentBits, f.mantissaBits);
    Pow2Add(1, f.exponentBits + f.mantissaBits);
    SmallPowers();
    ReadFields(f, if negative then 1 else 0, e, m, Pow2(f.mantissaBits), Pow2(f.exponentBits));
  }

  lemma ReadFields(f: Format, s: nat, e: nat, m: nat, p: nat, q: nat)
    requires f.Valid() && s <= 1 && e < q && m < p && p == Pow2(f.mantissaBits) && q == Pow2(f.exponentBits)
    requires Pow2(f.exponentBits + f.mantissaBits) == q * p && Pow2(f.Bits()) == 2 * (q * p)
    ensures var x := Float(f, s * (q * p) + e * p + m);
            x.Valid() && x.IsNegative() == (s == 1) && x.Exponent() == e && x.Mantissa() == m
  {
    hide Pow2;
    EncodeAtoms(s, e, m, p, q);
  }

  /** And every word has such fields. */
  lemma EveryWord(x: Float)
    requires x.Valid()
    ensures Fields(x.format, x.Exponent(), x.Mantissa())
    ensures x.word == Encode(x.format, x.IsNegative(), x.Exponent(), x.Mantissa())
  {
    hide Pow2;
    var f := x.format;
    var p, q := Pow2(f.mantissaBits), Pow2(f.exponentBits);
    Pow2Add(f.exponentBits, f.mantissaBits);
    Pow2Add(1, f.exponentBits + f.mantissaBits);
    SmallPowers();
    WordAtoms(x.word, p, q);
  }

  lemma WordAtoms(w: nat, p: nat, q: nat)
    requires 0 < p && 0 < q && w < 2 * (q * p)
    ensures 0 <= w % p < p && 0 <= w / p && 0 <= w / p % q < q && 0 <= w / (q * p) <= 1
    ensures w == w / (q * p) * (q * p) + w / p % q * p + w % p
  {
    var h := w / p;
    DivNonNeg(w, p);
    DivNonNeg(h, q);
    var s := h / q;
    SplitAtoms(w, h, w % p, s, h % q, p, q);
    DivModUnique(w, q * p, s, h % q * p + w % p);
  }

  lemma SplitAtoms(w: nat, h: nat, m: nat, s: nat, e: nat, p: nat, q: nat)
    requires w == h * p + m && m < p && h == s * q + e && e < q && w < 2 * (q * p)
    ensures 0 < q * p && w == s * (q * p) + (e * p + m) && e * p + m < q * p && s <= 1
  {
    MulMonotonic(1, q, p);
    assert (s * q + e) * p == s * (q * p) + e * p;
    MulMonotonic(e, q - 1, p);
    assert (q - 1) * p == q * p - p;
    if s >= 2 {
      MulMonotonic(2, s, q * p);
    }
  }

  lemma SpelledIsDenoted(f: Format, negative: bool, e: nat, m: nat)
    requires Fields(f, e, m)
    ensures Float(f, Encode(f, negative, e, m)).Valid()
    ensures Float(f, Encode(f, negative, e, m)).Spelled() == Denoted(f, negative, e, m)
  {
    hide Pow2, Exp2, Encode, Float.Valid, Float.IsNegative, Float.Exponent, Float.Mantissa;
    FieldsOf(f, negative, e, m);
  }

  /** Every sign, exponent and significand against every integer of every type: the sign of the exact difference
      between the number that they denote and the integer. */
  lemma CompareDenoted(f: Format, negative: bool, e: nat, m: nat, t: IntType, rhs: int)
    requires Fields(f, e, m) && t.Valid() && t.Holds(rhs)
    ensures Float(f, Encode(f, negative, e, m)).Valid()
    ensures Float(f, Encode(f, negative, e, m)).Compare(t, rhs) == SignOfReal(Denoted(f, negative, e, m) - rhs as real)
  {
    hide Pow2, Encode, Denoted, Fields, Float.Compare, Float.Spelled, Float.Valid, IntType.Holds;
    SpelledIsDenoted(f, negative, e, m);
    CompareExact(Float(f, Encode(f, negative, e, m)), t, rhs);
  }

  /** Float32 and Float64 against every signed or unsigned integer of 8 to 256 bits. */
  lemma CompareSourceTypes(f: Format, negative: bool, e: nat, m: nat, width: nat, signed: bool, rhs: int)
    requires f == Format(8, 23) || f == Format(11, 52)
    requires e < Pow2(f.exponentBits) && m < Pow2(f.mantissaBits) && width in {8, 16, 32, 64, 128, 256}
    requires if signed then 0 - Pow2(width - 1) <= rhs < Pow2(width - 1) else 0 <= rhs < Pow2(width)
    ensures var x, t := Float(f, Encode(f, negative, e, m)), IntType(width, signed);
            x.Valid() && t.Valid() && t.Holds(rhs)
            && x.Compare(t, rhs) == SignOfReal(Denoted(f, negative, e, m) - rhs as real)
  {
    hide Pow2, Encode, Denoted, Float.Compare;
    CompareDenoted(f, negative, e, m, IntType(width, signed), rhs);
  }

  lemma TopExponent(x: Float)
    requires x.Valid() && !x.IsFinite()
    ensures 1 <= x.Exponent() && x.NormalizedExponent() == Pow2(x.format.exponentBits - 1)
  {
    assert Pow2(x.format.exponentBits) == 2 * Pow2(x.format.exponentBits - 1);
    hide Float.Exponent, Pow2;
  }

  /** What an infinity or a NaN spells: at least 2 to the power 2^(exponent_bits - 1), exactly that for infinity. */
  lemma NonFiniteSpells(x: Float)
    requires x.Valid() && !x.IsFinite()
    ensures var big := Pow2(Pow2(x.format.exponentBits - 1)) as real;
            && (if x.IsNegative() then x.Spelled() <= 0.0 - big else big <= x.Spelled())
            && (x.Mantissa() == 0 ==> x.Spelled() == if x.IsNegative() then 0.0 - big else big)
  {
    hide Float.IsNegative, Float.IsFinite, Float.Exponent, Float.Mantissa, Format.Bias, Pow2;
    TopExponent(x);
    AtLeastOctave(x.NormalizedExponent(), x.Mantissa(), x.format.mantissaBits);
  }

  lemma AtLeastOctave(n: nat, m: nat, p: nat)
    ensures Pow2(n) as real <= Exp2(n) * (1.0 + m as real * Exp2(0 - p))
    ensures m == 0 ==> Exp2(n) * (1.0 + m as real * Exp2(0 - p)) == Pow2(n) as real
  {
    hide Pow2;
    Exp2Positive(0 - p);
    var e, f := Pow2(n) as real, m as real * Exp2(0 - p);
    assert 0.0 <= f;
    assert e * (1.0 + f) == e + e * f;
    assert 0.0 <= e * f;
  }

  lemma Exp2Positive(k: int)
    ensures 0.0 < Exp2(k)
  {
  }

  /** Infinities and NaNs take part in the order as the numbers they spell: one is on its own side of an integer
      exactly when that number is. */
  lemma NonFiniteIff(x: Float, t: IntType, rhs: int)
    requires x.Valid() && t.Valid() && t.Holds(rhs) && !x.IsFinite()
    ensures x.IsNegative() ==> (x.Compare(t, rhs) == -1 <==> x.Spelled() < rhs as real)
    ensures !x.IsNegative() ==> (x.Compare(t, rhs) == 1 <==> rhs as real < x.Spelled())
  {
    hide Pow2, Float.Compare, Float.Spelled, Float.IsNegative, Float.IsFinite;
    CompareExact(x, t, rhs);
  }

  /** An infinity is on its own side of an integer exactly when the magnitude of the integer is below 2 to
      the power 2^(exponent_bits - 1); against wider integers it is taken for that power of two. */
  lemma InfinityIff(x: Float, t: IntType, rhs: int)
    requires x.Valid() && t.Valid() && t.Holds(rhs) && !x.IsFinite() && x.Mantissa() == 0
    ensures x.IsNegative() ==> (x.Compare(t, rhs) == -1 <==> 0 - Pow2(Pow2(x.format.exponentBits - 1)) < rhs)
    ensures !x.IsNegative() ==> (x.Compare(t, rhs) == 1 <==> rhs < Pow2(Pow2(x.format.exponentBits - 1)))
  {
    hide Pow2, Float.Compare, Float.Spelled, Float.IsNegative, Float.IsFinite, Float.Mantissa;
    NonFiniteIff(x, t, rhs);
    NonFiniteSpells(x);
  }

  /** In integer types of at most 2^(exponent_bits - 1) bits, infinities and NaNs are beyond every integer. */
  lemma NonFiniteInNarrowTypes(x: Float, t: IntType, rhs: int)
    requires x.Valid() && t.Valid() && t.Holds(rhs) && !x.IsFinite()
    requires t.width <= Pow2(x.format.exponentBits - 1)
    ensures x.Compare(t, rhs) == if x.IsNegative() then -1 else 1
  {
    hide Float.Compare, Float.Spelled, Float.IsNegative, Float.IsFinite, Float.Mantissa, Pow2;
    NonFiniteIff(x, t, rhs);
    NonFiniteSpells(x);
    Pow2Monotonic(t.MagnitudeBits(), Pow2(x.format.exponentBits - 1));
    if t.signed {
      Pow2Strict(t.width - 1, Pow2(x.format.exponentBits - 1));
    }
  }

  lemma InfinityWord()
    ensures Float(FLOAT32, 0x7f80_0000).Valid() && !Float(FLOAT32, 0x7f80_0000).IsFinite()
    ensures Float(FLOAT32, 0x7f80_0000).Mantissa() == 0 && !Float(FLOAT32, 0x7f80_0000).IsNegative()
  {
    assert Pow2(8) == 256;
    Pow2Add(8, 8);
    Pow2Add(16, 7);
    Pow2Add(16, 15);
    assert Pow2(7) == 128;
    Pow2Add(8, 7);
    Pow2Add(31, 1);
    assert Pow2(23) == 0x80_0000 && Pow2(31) == 0x8000_0000;
  }

  /** The documentation says that infinities are compared correctly; against 256-bit integers they are not:
      positive infinity of Float32 is found equal to 2^128. */
  lemma InfinityEqualsAnInteger()
    ensures Float(FLOAT32, 0x7f80_0000).Valid() && IntType(256, true).Holds(Pow2(128))
    ensures Float(FLOAT32, 0x7f80_0000).Compare(IntType(256, true), Pow2(128)) == 0
  {
    InfinityWord();
    var x, t := Float(FLOAT32, 0x7f80_0000), IntType(256, true);
    assert Pow2(7) == 128;
    hide Pow2, Float.Compare, Float.Spelled, Float.IsNegative, Float.IsFinite, Float.Mantissa;
    Pow2Strict(128, 255);
    CompareExact(x, t, Pow2(128));
    NonFiniteSpells(x);
  }
}
