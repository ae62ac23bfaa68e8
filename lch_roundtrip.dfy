/** The round trips between L*a*b* and L*C*h: the chroma survives
    lch2lab followed by lab2lch, and lab2lch followed by lch2lab restores
    the L*a*b* triple whenever a* is non-zero. */
module LchRoundTrip {
  import opened MathLib
  import opened Pixels
  import opened Lch

  /** Converting to L*a*b* and back keeps a non-negative chroma. */
  lemma LchRoundTripChroma(m: MathLib, lch: Pixel)
    requires m.PowersValid() && m.pi > 0.0 && lch.b >= 0.0
    ensures LchOf(m, LabOf(m, lch)).b == lch.b
  {
    var lab := LabOf(m, lch);
    LabOfChroma(m, lch);
    ChromaOfLength(m, lab, lch.b);
  }

  /** A vector (a*, b*) of length c has chroma c. */
  lemma ChromaOfLength(m: MathLib, lab: Pixel, c: real)
    requires m.PowersValid() && m.pi > 0.0 && c >= 0.0
    requires lab.b * lab.b + lab.c * lab.c == c * c
    ensures LchOf(m, lab).b == c
  {
    assert m.pow(lab.b, 2.0) == lab.b * lab.b && m.pow(lab.c, 2.0) == lab.c * lab.c;
    SqrtOfSquare(m, c);
  }

  /** The hue lch2lab reads back from lab2lch, in radians, is the atan2
      angle, one turn on when that angle is negative. */
  lemma RoundTripHue(m: MathLib, lab: Pixel)
    requires m.Valid()
    ensures var t := m.atan2(lab.c, lab.b);
            var hr := if t < 0.0 then t + 2.0 * m.pi else t;
            && Deg2Rad(LchOf(m, lab).c, m.pi) == hr
            && UnwoundHue(m, LchOf(m, lab).c) == hr
  {
    var t := m.atan2(lab.c, lab.b);
    var d := RawHue(m, lab);
    LchHue(m, lab);
    AngleRoundTrip(t, m.pi);
    AngleRoundTrip(d, m.pi);
  }

  /** The slope identity behind lch2lab: with C*C = a*a + b*b and a non-zero,
      (b/a)^2 + 1 is the square of C/|a|. */
  lemma SlopeIdentity(a: real, b: real, c: real)
    requires a != 0.0 && c * c == a * a + b * b
    ensures var aa := if a >= 0.0 then a else -a;
            (b / a) * (b / a) + 1.0 == (c / aa) * (c / aa)
  {
    var aa := if a >= 0.0 then a else -a;
    var s, r := b / a, c / aa;
    assert s * a == b && r * aa == c;
    SquarePositive(a);
    calc {
      (s * s + 1.0) * (a * a);
      (s * a) * (s * a) + a * a;
      b * b + a * a;
      c * c;
      (r * aa) * (r * aa);
      (r * r) * (a * a);
    }
    MulCancel(s * s + 1.0, r * r, a * a);
  }

  /** After lab2lch, the size of a* that lch2lab computes is |a*|. */
  lemma {:induction false} RoundTripSizeA(m: MathLib, lab: Pixel)
    requires m.Valid() && lab.b != 0.0
    ensures SizeA(m, LchOf(m, lab)) == (if lab.b >= 0.0 then lab.b else -lab.b)
  {
    RoundTripTangent(m, lab);
    LchChromaSquare(m, lab);
    SizeAOfLeg(m, LchOf(m, lab), lab.b, lab.c);
  }

  /** If C is the length of (a, b) and the hue has slope b/a, the size of a*
      is |a|. */
  lemma SizeAOfLeg(m: MathLib, lch: Pixel, a: real, b: real)
    requires m.Valid() && a != 0.0
    requires lch.b >= 0.0 && lch.b * lch.b == a * a + b * b
    requires m.tan(Deg2Rad(lch.c, m.pi)) == b / a
    ensures SizeA(m, lch) == if a >= 0.0 then a else -a
  {
    var aa := if a >= 0.0 then a else -a;
    var c := lch.b;
    SquarePositive(a);
    SquareNonNegative(b);
    calc {
      c * c;
      == a * a + b * b;
      > 0.0;
    }
    PositiveRoot(c);
    SlopeIdentity(a, b, c);
    DivideByQuotient(c, aa);
    SizeAOfSlope(m, lch, b / a, c / aa);
  }

  lemma DivideByQuotient(c: real, d: real)
    requires c > 0.0 && d > 0.0
    ensures c / d > 0.0 && c / (c / d) == d
  {
    var q := c / d;
    assert q * d == c;
    PositiveCofactor(q, d);
    assert q != 0.0;
    assert (c / q) * q == c;
    MulCancel(c / q, d, q);
  }

  /** After lab2lch, the size of b* that lch2lab computes is |b*|. */
  lemma {:induction false} RoundTripSizeB(m: MathLib, lab: Pixel)
    requires m.Valid() && lab.b != 0.0
    ensures SizeB(m, LchOf(m, lab)) == (if lab.c >= 0.0 then lab.c else -lab.c)
  {
    RoundTripSizeA(m, lab);
    LchChromaSquare(m, lab);
    SizeBOfLeg(m, LchOf(m, lab), lab.b, lab.c);
  }

  /** If C is the length of (a, b) and the size of a* is |a|, the size of b*
      is |b|. */
  lemma SizeBOfLeg(m: MathLib, lch: Pixel, a: real, b: real)
    requires m.PowersValid() && m.pi > 0.0
    requires lch.b * lch.b == a * a + b * b
    requires SizeA(m, lch) == if a >= 0.0 then a else -a
    ensures SizeB(m, lch) == if b >= 0.0 then b else -b
  {
    var sa, sb := SizeA(m, lch), SizeB(m, lch);
    assert sa * sa == a * a;
    assert sb * sb == b * b;
    var bb := if b >= 0.0 then b else -b;
    assert bb * bb == b * b;
    NonNegativeSquareUnique(sb, bb);
  }

  /** The tangent lch2lab takes of the hue that lab2lch produced is the slope b* / a*. */
  lemma RoundTripTangent(m: MathLib, lab: Pixel)
    requires m.Valid() && lab.b != 0.0
    ensures m.tan(Deg2Rad(LchOf(m, lab).c, m.pi)) == lab.c / lab.b
  {
    RoundTripHue(m, lab);
    assert m.tan(m.atan2(lab.c, lab.b)) == lab.c / lab.b;
  }

  /** When the slope squared plus one is q*q with q positive, the size of a*
      is C / q. */
  lemma SizeAOfSlope(m: MathLib, lch: Pixel, slope: real, q: real)
    requires m.PowersValid() && m.pi > 0.0 && q > 0.0
    requires m.tan(Deg2Rad(lch.c, m.pi)) == slope
    requires slope * slope + 1.0 == q * q
    ensures SizeA(m, lch) == lch.b / q
  {
    assert m.pow(slope, 2.0) + 1.0 == q * q;
    SqrtOfSquare(m, q);
  }

  /** A non-negative number whose square is positive is positive. */
  lemma PositiveRoot(c: real)
    requires c >= 0.0 && c * c > 0.0
    ensures c > 0.0
  {
    assert c * c != 0.0;
    assert c != 0.0;
  }

  /** Converting to L*C*h and back gives the original L*a*b* triple exactly
      whenever a* is non-zero. */
  lemma {:induction false} LabRoundTrip(m: MathLib, lab: Pixel)
    requires m.Valid() && lab.b != 0.0
    ensures LabOf(m, LchOf(m, lab)) == lab
  {
    RoundTripHue(m, lab);
    RoundTripSizeA(m, lab);
    RoundTripSizeB(m, lab);
  }
}
