/** CIE L*a*b* to its cylindrical form L*C*h (`lab2lch`) and back (`lch2lab`). */
module Lch {
  import opened MathLib
  import opened Pixels
  import opened Hue

  /** The hue lab2lch starts from: the angle of (a*, b*) in degrees. With a
      principal atan2 it lies within half a turn of zero, and it is negative
      exactly when b* is. */
  function RawHue(m: MathLib, lab: Pixel): (h: real)
    requires m.pi > 0.0
    ensures m.AnglesValid() ==> -180.0 <= h <= 180.0 && (h < 0.0 <==> lab.c < 0.0)
  {
    AngleRoundTrip(m.atan2(lab.c, lab.b), m.pi);
    Rad2Deg(m.atan2(lab.c, lab.b), m.pi)
  }

  /** The L*C*h triple of an L*a*b* triple: lightness kept, chroma the length
      of (a*, b*), hue its angle in degrees brought into [0,360]. */
  function LchOf(m: MathLib, lab: Pixel): (lch: Pixel)
    requires m.PowersValid() && m.pi > 0.0
    ensures lch.a == lab.a
    ensures lch.b >= 0.0
    ensures 0.0 <= lch.c <= 360.0
  {
    var c2 := m.pow(lab.b, 2.0) + m.pow(lab.c, 2.0);
    SquareNonNegative(lab.b);
    SquareNonNegative(lab.c);
    Pixel(lab.a, m.sqrt(c2), WrapClosed(RawHue(m, lab)))
  }

  /** The chroma of lab2lch is the length of (a*, b*). */
  lemma LchChromaSquare(m: MathLib, lab: Pixel)
    requires m.PowersValid() && m.pi > 0.0
    ensures LchOf(m, lab).b * LchOf(m, lab).b == lab.b * lab.b + lab.c * lab.c
  {
    SquareNonNegative(lab.b);
    SquareNonNegative(lab.c);
    assert m.pow(lab.b, 2.0) + m.pow(lab.c, 2.0) == lab.b * lab.b + lab.c * lab.c;
  }

  /** `lab2lch`: L* copied, chroma from sqrt and pow, hue from atan2 in
      degrees, then raised by whole turns while negative and lowered by whole
      turns while above 360. */
  method Lab2Lch(m: MathLib, lab: Pixel) returns (lch: Pixel)
    requires m.PowersValid() && m.pi > 0.0
    ensures lch == LchOf(m, lab)
  {
    var l := lab.a;
    var c := m.sqrt(m.pow(lab.b, 2.0) + m.pow(lab.c, 2.0));
    var h := Rad2Deg(m.atan2(lab.c, lab.b), m.pi);
    h := WrapHueClosed(h);
    lch := Pixel(l, c, h);
  }

  /** Because atan2 gives a principal angle, the hue loops of lab2lch run at
      most once: a negative angle gains one turn, any other is kept, and the
      hue never reaches 360. */
  lemma LchHue(m: MathLib, lab: Pixel)
    requires m.Valid()
    ensures var d := RawHue(m, lab);
            LchOf(m, lab).c == if d < 0.0 then d + 360.0 else d
    ensures LchOf(m, lab).c < 360.0
  {
    var d := RawHue(m, lab);
    AngleRoundTrip(m.atan2(lab.c, lab.b), m.pi);
    if d < 0.0 {
      Wrap360Unique(d, 1);
    }
  }

  /** The hue of lch2lab in radians after its single correction: one turn is
      added to a negative angle. A hue within one turn either side of zero is
      thereby unwound into [0, 2 pi). */
  function UnwoundHue(m: MathLib, deg: real): (h: real)
    requires m.pi > 0.0
    ensures -360.0 <= deg < 360.0 ==> 0.0 <= h < 2.0 * m.pi
  {
    UnwoundHueRange(m, deg);
    var h := Deg2Rad(deg, m.pi);
    if h < 0.0 then h + 2.0 * m.pi else h
  }

  /** The bounds of UnwoundHue, on the radian value before and after the turn is added. */
  lemma UnwoundHueRange(m: MathLib, deg: real)
    requires m.pi > 0.0
    ensures var h := Deg2Rad(deg, m.pi);
            -360.0 <= deg < 360.0 ==> 0.0 <= (if h < 0.0 then h + 2.0 * m.pi else h) < 2.0 * m.pi
  {
    var k := m.pi / 180.0;
    var h := Deg2Rad(deg, m.pi);
    assert h == deg * k && 2.0 * m.pi == 360.0 * k;
    if 0.0 <= deg < 360.0 {
      PositiveFactors(360.0 - deg, k);
      SubtractThenMultiply(360.0, deg, k);
    } else if -360.0 <= deg < 0.0 {
      NonNegativeProduct(deg + 360.0, k);
      SubtractThenMultiply(deg, -360.0, k);
    }
  }

  /** The size of a* in lch2lab: C divided by sqrt(tan^2 h + 1). It is no
      larger than C and has the sign of C. */
  function SizeA(m: MathLib, lch: Pixel): (a: real)
    requires m.PowersValid() && m.pi > 0.0
    ensures a * a <= lch.b * lch.b
    ensures lch.b > 0.0 ==> a > 0.0
    ensures lch.b == 0.0 ==> a == 0.0
    ensures lch.b < 0.0 ==> a < 0.0
  {
    var th := m.tan(Deg2Rad(lch.c, m.pi));
    SqrtAtLeastOne(m, m.pow(th, 2.0) + 1.0);
    SquareShrinks(lch.b, m.sqrt(m.pow(th, 2.0) + 1.0));
    lch.b / m.sqrt(m.pow(th, 2.0) + 1.0)
  }

  /** The size of b* in lch2lab: the non-negative leg that completes a right
      triangle with hypotenuse C and other leg the size of a*. */
  function SizeB(m: MathLib, lch: Pixel): (b: real)
    requires m.PowersValid() && m.pi > 0.0
    ensures b >= 0.0
    ensures b * b == lch.b * lch.b - SizeA(m, lch) * SizeA(m, lch)
  {
    var a := SizeA(m, lch);
    assert m.pow(lch.b, 2.0) - m.pow(a, 2.0) == lch.b * lch.b - a * a;
    m.sqrt(m.pow(lch.b, 2.0) - m.pow(SizeA(m, lch), 2.0))
  }

  /** The L*a*b* triple of an L*C*h triple as lch2lab computes it: the sizes
      of a* and b*, then a* negated for hues strictly between a quarter and
      three quarters of a turn and b* negated for hues beyond half a turn. */
  function LabOf(m: MathLib, lch: Pixel): (lab: Pixel)
    requires m.PowersValid() && m.pi > 0.0
    ensures lab.a == lch.a
  {
    var a := SizeA(m, lch);
    var b := SizeB(m, lch);
    var h := UnwoundHue(m, lch.c);
    Pixel(lch.a,
          if m.pi / 2.0 < h < m.pi * 3.0 / 2.0 then -a else a,
          if h > m.pi then -b else b)
  }

  /** `lch2lab`: L* copied, a* and b* written as magnitudes, then the hue
      corrected once and the signs of a* and b* set by its quadrant. */
  method Lch2Lab(m: MathLib, lch: Pixel) returns (lab: Pixel)
    requires m.PowersValid() && m.pi > 0.0
    ensures lab == LabOf(m, lch)
  {
    var l := lch.a;
    var c := lch.b;
    var h := Deg2Rad(lch.c, m.pi);
    var th := m.tan(h);

    SqrtAtLeastOne(m, m.pow(th, 2.0) + 1.0);
    var a := c / m.sqrt(m.pow(th, 2.0) + 1.0);
    var b := m.sqrt(m.pow(c, 2.0) - m.pow(a, 2.0));

    if h < 0.0 {
      h := h + 2.0 * m.pi;
    }
    if h > m.pi / 2.0 && h < m.pi * 3.0 / 2.0 {
      a := -a;
    }
    if h > m.pi {
      b := -b;
    }
    lab := Pixel(l, a, b);
  }

  /** The (a*, b*) that lch2lab builds has length |C|. */
  lemma {:induction false} LabOfChroma(m: MathLib, lch: Pixel)
    requires m.PowersValid() && m.pi > 0.0
    ensures var lab := LabOf(m, lch);
            lab.b * lab.b + lab.c * lab.c == lch.b * lch.b
  {
    var lab := LabOf(m, lch);
    RightTriangle(lch.b, SizeA(m, lch), SizeB(m, lch), lab.b, lab.c);
  }

  /** If b*b = c*c - a*a, then +-a and +-b span a vector of length |c|. */
  lemma RightTriangle(c: real, a: real, b: real, u: real, v: real)
    requires b * b == c * c - a * a
    requires u == a || u == -a
    requires v == b || v == -b
    ensures u * u + v * v == c * c
  {
    assert u * u == a * a;
    assert v * v == b * b;
  }

  /** Dividing by a number of size at least one does not grow a square. */
  lemma SquareShrinks(c: real, d: real)
    requires d >= 1.0
    ensures (c / d) * (c / d) <= c * c
  {
    var a := c / d;
    assert a * d == c;
    assert c * c == (a * a) * (d * d);
    NonNegativeProduct(a * a, d * d - 1.0);
  }

  /** The signs lch2lab gives a* and b* follow the quadrant of the corrected
      hue: for a positive chroma a* is negative exactly strictly between a
      quarter and three quarters of a turn, and b* is never positive beyond
      half a turn nor negative up to it. */
  lemma {:induction false} LabOfQuadrant(m: MathLib, lch: Pixel)
    requires m.PowersValid() && m.pi > 0.0
    ensures var lab, h := LabOf(m, lch), UnwoundHue(m, lch.c);
            && (lch.b > 0.0 ==> (lab.b < 0.0 <==> m.pi / 2.0 < h < m.pi * 3.0 / 2.0))
            && (lch.b >= 0.0 && h > m.pi ==> lab.c <= 0.0)
            && (lch.b >= 0.0 && h <= m.pi ==> lab.c >= 0.0)
  {
  }
}
