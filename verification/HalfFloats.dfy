/** IEEE 754 halves: the value of the sixteen bits, and HalfBitsToFloat, which builds the bits of the float of that
    value. */
module HalfFloats {
  import opened Division
  import opened Doubles

  /** The power of two with an integer exponent. */
  function TwoTo(e: int): real
    decreases if e < 0 then -e else e
  {
    if e == 0 then 1.0 else if e > 0 then 2.0 * TwoTo(e - 1) else TwoTo(e + 1) / 2.0
  }

  lemma TwoToNext(e: int)
    ensures TwoTo(e + 1) == 2.0 * TwoTo(e)
  {
  }

  lemma {:induction false} TwoToSum(e: int, k: nat)
    ensures TwoTo(e + k) == TwoTo(k) * TwoTo(e)
  {
    if k > 0 {
      TwoToSum(e, k - 1);
      TwoToNext(e + k - 1);
    }
  }

  lemma TwoToValues()
    ensures TwoTo(5) == 32.0 && TwoTo(10) == 1024.0 && TwoTo(13) == 8192.0 && TwoTo(-24) == 1.0 / 16777216.0
  {
    assert TwoTo(4) == 16.0;
    assert TwoTo(7) == 128.0;
    assert TwoTo(-4) == 0.0625;
    assert TwoTo(-8) == 0.00390625;
    TwoToSum(-8, 8);
    TwoToSum(-16, 8);
    TwoToSum(-24, 8);
    assert TwoTo(8) == 256.0;
  }

  function Scaled(m: nat, e: int): real {
    m as real * TwoTo(e)
  }

  lemma DoubledUnit(x: real, u: real, v: real)
    requires v == 2.0 * u
    ensures x * v == 2.0 * (x * u) == (2.0 * x) * u
  {
  }

  lemma OneMore(x: real, u: real)
    ensures (x + 1.0) * u == x * u + u
  {
  }

  lemma Regroup(x: real, y: real, z: real)
    ensures x * y * z == x * (y * z)
  {
  }

  /** One more in the exponent doubles, and so does doubling the number. */
  lemma ScaledDoubles(m: nat, e: int)
    ensures Scaled(m, e + 1) == 2.0 * Scaled(m, e) && Scaled(2 * m, e) == Scaled(m, e + 1)
  {
    TwoToNext(e);
    DoubledUnit(m as real, TwoTo(e), TwoTo(e + 1));
    assert (2 * m) as real == 2.0 * m as real;
  }

  lemma ScaledNext(m: nat, e: int)
    ensures Scaled(m + 1, e) == Scaled(m, e) + TwoTo(e)
  {
    assert (m + 1) as real == m as real + 1.0;
    OneMore(m as real, TwoTo(e));
  }

  /** Thirteen more bits stand for a unit 2^13 times as small. */
  lemma ScaledWider(m: nat, e: int)
    ensures Scaled(8192 * m, e) == Scaled(m, e + 13)
  {
    TwoToSum(e, 13);
    TwoToValues();
    assert (8192 * m) as real == m as real * 8192.0;
    Regroup(m as real, 8192.0, TwoTo(e));
  }

  // ---------------------------------------------------------------- the value of a half

  /** The value of a finite half without its sign; exponent 0 has the subnormal numbers. */
  function Magnitude(exponent: nat, fraction: nat): real {
    if exponent == 0 then Scaled(fraction, -24) else Scaled(0x400 + fraction, exponent - 25)
  }

  function Signed(sign: int, magnitude: real): Double {
    Finite(if sign == 1 then -magnitude else magnitude)
  }

  /** Sign, five exponent bits, ten fraction bits. */
  function HalfValue(bits: int): Double
    requires 0 <= bits < 0x1_0000
  {
    var sign, exponent, fraction := bits / 0x8000, (bits / 0x400) % 0x20, bits % 0x400;
    if exponent == 0x1F then if fraction != 0 then NaN else if sign == 1 then NegInf else PosInf
    else Signed(sign, Magnitude(exponent, fraction))
  }

  /** The three fields of a half. */
  lemma HalfFields(bits: int, sign: nat, e: nat, f: nat)
    requires bits == sign * 0x8000 + e * 0x400 + f && sign <= 1 && e < 0x20 && f < 0x400
    ensures 0 <= bits < 0x1_0000 && bits / 0x8000 == sign && (bits / 0x400) % 0x20 == e && bits % 0x400 == f
  {
    DivUnique(0x8000, bits, sign, e * 0x400 + f);
    DivUnique(0x400, bits, sign * 0x20 + e, f);
    DivUnique(0x20, sign * 0x20 + e, sign, e);
  }

  /** The three fields of a half make it up. */
  lemma HalfSplit(bits: int)
    requires 0 <= bits < 0x1_0000
    ensures 0 <= bits / 0x8000 <= 1
    ensures bits == bits / 0x8000 * 0x8000 + (bits / 0x400) % 0x20 * 0x400 + bits % 0x400
  {
    DivMod(0x400, bits);
    DivBetween(0x400, bits, 0, 0x40);
    DivMod(0x20, bits / 0x400);
    DivBetween(0x20, bits / 0x400, 0, 2);
    HalfFields(bits, bits / 0x400 / 0x20, (bits / 0x400) % 0x20, bits % 0x400);
  }

  /** The value of a positive finite half. */
  lemma HalfIs(bits: int, e: nat, f: nat)
    requires bits == e * 0x400 + f && e < 0x1F && f < 0x400
    ensures HalfValue(bits) == Finite(Magnitude(e, f))
  {
    HalfFields(bits, 0, e, f);
  }

  /** The sign bit negates. */
  lemma HalfSign(bits: int, e: nat, f: nat)
    requires bits == e * 0x400 + f && e < 0x20 && f < 0x400
    ensures HalfValue(bits).Finite? <==> e < 0x1F
    ensures e < 0x1F ==> HalfValue(bits + 0x8000) == Finite(-HalfValue(bits).v)
    ensures e == 0x1F && f == 0 ==> HalfValue(bits) == PosInf && HalfValue(bits + 0x8000) == NegInf
    ensures e == 0x1F && f != 0 ==> HalfValue(bits).NaN? && HalfValue(bits + 0x8000).NaN?
  {
    HalfFields(bits, 0, e, f);
    HalfFields(bits + 0x8000, 1, e, f);
  }

  /** One more in the exponent doubles a normal half. */
  lemma HalfDoubles(bits: int, e: nat, f: nat)
    requires bits == e * 0x400 + f && 0 < e < 0x1E && f < 0x400
    ensures HalfValue(bits).Finite? && HalfValue(bits + 0x400) == Finite(2.0 * HalfValue(bits).v)
  {
    HalfIs(bits, e, f);
    HalfIs(bits + 0x400, e + 1, f);
    ScaledDoubles(0x400 + f, e - 25);
  }

  /** The distance between the halves of a binade; the subnormals have that of the first binade. */
  ghost function Spacing(e: nat): real {
    TwoTo(if e == 0 then -24 else e - 25)
  }

  lemma MagnitudeStep(e: nat, f: nat)
    ensures Magnitude(e, f + 1) == Magnitude(e, f) + Spacing(e)
  {
    ScaledNext(f, -24);
    ScaledNext(0x400 + f, e - 25);
  }

  /** The first half of a binade continues the one before. */
  lemma MagnitudeNext(e: nat)
    ensures Magnitude(e + 1, 0) == Magnitude(e, 0x400)
  {
    ScaledDoubles(0x400, e - 25);
  }

  lemma HalfStep(bits: int, e: nat, f: nat)
    requires bits == e * 0x400 + f && f < 0x400 && bits < 0x7BFF
    ensures HalfValue(bits).Finite? && HalfValue(bits + 1) == Finite(HalfValue(bits).v + Spacing(e))
  {
    HalfIs(bits, e, f);
    MagnitudeStep(e, f);
    if f < 0x3FF {
      HalfIs(bits + 1, e, f + 1);
    } else {
      HalfIs(bits + 1, e + 1, 0);
      MagnitudeNext(e);
    }
  }

  /** The distance from one half to the next is the same throughout a binade, up to the first half of the next binade;
      the subnormals have that of the first binade. */
  lemma HalfSteps(bits: int, start: int, e: nat, f: nat)
    requires bits == e * 0x400 + f && f < 0x400 && bits < 0x7BFF && start == if e == 0 then 0x400 else e * 0x400
    ensures HalfValue(bits).Finite? && HalfValue(bits + 1).Finite?
    ensures HalfValue(start).Finite? && HalfValue(start + 1).Finite?
    ensures HalfValue(bits + 1).v - HalfValue(bits).v == HalfValue(start + 1).v - HalfValue(start).v
  {
    HalfStep(bits, e, f);
    HalfStep(start, if e == 0 then 1 else e, 0);
  }

  /** Zero and one. With the sign, the doubling and the steps they determine the value of every half. */
  lemma HalfAnchors()
    ensures HalfValue(0) == Finite(0.0) && HalfValue(0x3C00) == Finite(1.0)
  {
    HalfIs(0, 0, 0);
    HalfIs(0x3C00, 15, 0);
    TwoToSum(-10, 10);
    TwoToValues();
  }

  // ---------------------------------------------------------------- the element filter

  lemma {:induction false} AtLeastSmallest(e: int)
    requires e >= -24
    ensures TwoTo(e) >= 1.0 / 16777216.0
    decreases e + 24
  {
    if e == -24 {
      TwoToValues();
    } else {
      AtLeastSmallest(e - 1);
      TwoToNext(e - 1);
    }
  }

  lemma ProductAtLeast(x: real, u: real)
    requires x >= 1.0 && u >= 1.0 / 16777216.0
    ensures x * u >= 1.0 / 16777216.0
  {
    assert (x - 1.0) * u >= 0.0;
  }

  /** Every finite half but the two zeros passes the threshold test. */
  lemma MagnitudePasses(e: nat, f: nat)
    ensures if e == 0 && f == 0 then Magnitude(e, f) == 0.0 else Magnitude(e, f) > K_ZERO_THRESHOLD
  {
    if e > 0 {
      AtLeastSmallest(e - 25);
      ProductAtLeast((0x400 + f) as real, TwoTo(e - 25));
    } else if f > 0 {
      AtLeastSmallest(-24);
      ProductAtLeast(f as real, TwoTo(-24));
    }
  }

  lemma HalfKeptIffPasses(bits: int)
    requires 0 <= bits < 0x1_0000
    ensures bits % 0x8000 != 0 <==> Passes(HalfValue(bits))
  {
    var e, f := (bits / 0x400) % 0x20, bits % 0x400;
    HalfSplit(bits);
    DivUnique(0x8000, bits, bits / 0x8000, e * 0x400 + f);
    MagnitudePasses(e, f);
  }

  // ---------------------------------------------------------------- the conversion to float

  /** The value of an IEEE 754 float: sign, eight exponent bits, 23 fraction bits. */
  ghost function FloatValue(bits: int): Double
    requires 0 <= bits < 0x1_0000_0000
  {
    var sign, exponent, fraction := bits / 0x8000_0000, (bits / 0x80_0000) % 0x100, bits % 0x80_0000;
    if exponent == 0xFF then if fraction != 0 then NaN else if sign == 1 then NegInf else PosInf
    else
      Signed(sign, if exponent == 0 then Scaled(fraction, -149) else Scaled(0x80_0000 + fraction, exponent - 150))
  }

  lemma FloatFields(bits: int, sign: nat, e: nat, f: nat)
    requires bits == sign * 0x8000_0000 + e * 0x80_0000 + f && sign <= 1 && e < 0x100 && f < 0x80_0000
    ensures 0 <= bits < 0x1_0000_0000
    ensures bits / 0x8000_0000 == sign && (bits / 0x80_0000) % 0x100 == e && bits % 0x80_0000 == f
  {
    DivUnique(0x8000_0000, bits, sign, e * 0x80_0000 + f);
    DivUnique(0x80_0000, bits, sign * 0x100 + e, f);
    DivUnique(0x100, sign * 0x100 + e, sign, e);
  }

  /** A normal float with eleven significant bits. */
  lemma FloatIs(bits: int, sign: nat, e: nat, mantissa: nat)
    requires sign <= 1 && 0 < e < 0xFF && 0x400 <= mantissa < 0x800
    requires bits == sign * 0x8000_0000 + e * 0x80_0000 + (mantissa - 0x400) * 0x2000
    ensures 0 <= bits < 0x1_0000_0000 && FloatValue(bits) == Signed(sign, Scaled(mantissa, e - 137))
  {
    FloatFields(bits, sign, e, (mantissa - 0x400) * 0x2000);
    assert 0x80_0000 + (mantissa - 0x400) * 0x2000 == 8192 * mantissa;
    ScaledWider(mantissa, e - 150);
  }

  ghost function Shifted(k: nat): nat {
    if k == 0 then 1 else 2 * Shifted(k - 1)
  }

  lemma TenShifts(k: nat)
    requires Shifted(k) < 0x400
    ensures k < 10
  {
    assert Shifted(3) == 8;
    assert Shifted(6) == 64;
    assert Shifted(10) == 0x400;
    ShiftedMonotone(10, k);
  }

  lemma {:induction false} ShiftedMonotone(j: nat, k: nat)
    ensures j <= k ==> Shifted(j) <= Shifted(k)
  {
    if j < k {
      ShiftedMonotone(j, k - 1);
    }
  }

  /** A subnormal mantissa shifted up until its leading bit is in place, the exponent lowered along with it. */
  method Normalize(m: nat) returns (mantissa: nat, exponent: nat)
    requires 0 < m < 0x400
    ensures 0x400 <= mantissa < 0x800 && 0 < exponent <= 113
    ensures Scaled(mantissa, exponent - 137) == Scaled(m, -24)
  {
    mantissa, exponent := m, 113;
    while mantissa < 0x400
      invariant 0 < mantissa < 0x800 && 103 <= exponent <= 113 && Shifted(113 - exponent) <= mantissa
      invariant Scaled(mantissa, exponent - 137) == Scaled(m, -24)
      decreases 0x400 - mantissa
    {
      TenShifts(113 - exponent);
      ScaledDoubles(mantissa, exponent - 138);
      mantissa, exponent := 2 * mantissa, exponent - 1;
    }
  }

  /** An infinity or a NaN. */
  lemma SpecialConverts(h: int, bits: int, sign: nat, f: nat)
    requires h == sign * 0x8000 + 0x1F * 0x400 + f && sign <= 1 && f < 0x400
    requires bits == sign * 0x8000_0000 + 0xFF * 0x80_0000 + f * 0x2000
    ensures 0 <= h < 0x1_0000 && 0 <= bits < 0x1_0000_0000 && FloatValue(bits) == HalfValue(h)
  {
    HalfFields(h, sign, 0x1F, f);
    FloatFields(bits, sign, 0xFF, f * 0x2000);
  }

  lemma ZeroConverts(h: int, bits: int, sign: nat)
    requires h == sign * 0x8000 && sign <= 1 && bits == sign * 0x8000_0000
    ensures 0 <= h < 0x1_0000 && 0 <= bits < 0x1_0000_0000 && FloatValue(bits) == HalfValue(h)
  {
    HalfFields(h, sign, 0, 0);
    FloatFields(bits, sign, 0, 0);
  }

  /** A finite half whose magnitude the float with mantissa `m` and exponent `k` has. */
  lemma FiniteConverts(h: int, bits: int, sign: nat, e: nat, f: nat, k: nat, m: nat)
    requires h == sign * 0x8000 + e * 0x400 + f && sign <= 1 && e < 0x1F && f < 0x400
    requires 0 < k < 0xFF && 0x400 <= m < 0x800 && Scaled(m, k - 137) == Magnitude(e, f)
    requires bits == sign * 0x8000_0000 + k * 0x80_0000 + (m - 0x400) * 0x2000
    ensures 0 <= h < 0x1_0000 && 0 <= bits < 0x1_0000_0000 && FloatValue(bits) == HalfValue(h)
  {
    HalfFields(h, sign, e, f);
    FloatIs(bits, sign, k, m);
  }

  /** HalfBitsToFloat: the bits of the float that has the value of the half. */
  method HalfBitsToFloat(h: int) returns (bits: int)
    requires 0 <= h < 0x1_0000
    ensures 0 <= bits < 0x1_0000_0000 && FloatValue(bits) == HalfValue(h)
  {
    var sign, exponent, mantissa := h / 0x8000, (h / 0x400) % 0x20, h % 0x400;
    HalfSplit(h);
    if exponent == 0x1F {
      bits := sign * 0x8000_0000 + 0x7F80_0000 + mantissa * 0x2000;
      SpecialConverts(h, bits, sign, mantissa);
    } else if exponent == 0 {
      if mantissa == 0 {
        bits := sign * 0x8000_0000;
        ZeroConverts(h, bits, sign);
      } else {
        var m, e := Normalize(mantissa);
        bits := sign * 0x8000_0000 + e * 0x80_0000 + (m - 0x400) * 0x2000;
        FiniteConverts(h, bits, sign, 0, mantissa, e, m);
      }
    } else {
      bits := sign * 0x8000_0000 + (exponent + 112) * 0x80_0000 + mantissa * 0x2000;
      FiniteConverts(h, bits, sign, exponent, mantissa, exponent + 112, 0x400 + mantissa);
    }
  }
}
