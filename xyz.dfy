/** RGB to CIE XYZ (`rgb2xyz`), chromaticity to tristimulus values
    (`xyY2xyz`) and CIE XYZ to CIE 1976 L*a*b* (`xyz2lab`). */
module Xyz {
  import opened MathLib
  import opened Pixels

  /** The sRGB expansion of one channel exactly as rgb2xyz writes it: linear
      within 0.04045 of zero, else the signed power of (v + 0.055) / 1.055.
      For v below -0.04045 the base is not the magnitude of v, so the sign
      of a negative channel is not carried over (see SrgbExpandAsWrittenFlipsSign). */
  function SrgbExpandAsWritten(m: MathLib, v: real): (r: real)
    ensures -0.04045 <= v <= 0.04045 ==> r * 12.92 == v
    ensures m.PowersValid() && v > 0.0 ==> r > 0.0
    ensures m.PowersValid() && -0.04045 <= v < 0.0 ==> r < 0.0
    ensures m.PowersValid() && v <= -0.055 ==> r <= 0.0
  {
    if -0.04045 <= v <= 0.04045 then v / 12.92
    else Apow(m, (v + 0.055) / 1.055, 2.4)
  }

  /** A channel of -0.05 comes out positive from the curve as written. */
  lemma SrgbExpandAsWrittenFlipsSign(m: MathLib)
    requires m.PowersValid()
    ensures SrgbExpandAsWritten(m, -0.05) > 0.0
  {
    assert (-0.05 + 0.055) / 1.055 > 0.0;
  }

  /** The sRGB expansion (section 5.2 of IEC 61966-2-1:1999) extended to
      negative channels by odd symmetry: linear within 0.04045 of zero,
      else the 2.4th power of (|v| + 0.055) / 1.055 with the sign of v. */
  function SrgbExpand(m: MathLib, v: real): (r: real)
    ensures -0.04045 <= v <= 0.04045 ==> r * 12.92 == v
    ensures m.PowersValid() ==> (r > 0.0 <==> v > 0.0) && (r < 0.0 <==> v < 0.0)
  {
    if -0.04045 <= v <= 0.04045 then v / 12.92
    else if v > 0.0 then Apow(m, (v + 0.055) / 1.055, 2.4)
    else -Apow(m, (-v + 0.055) / 1.055, 2.4)
  }

  /** The corrected sRGB expansion is odd. */
  lemma SrgbExpandOdd(m: MathLib, v: real)
    ensures SrgbExpand(m, -v) == -SrgbExpand(m, v)
  {
  }

  /** On every channel of at least -0.04045 (all of [0,1] in particular) the
      corrected curve is the curve as written. */
  lemma SrgbExpandAgrees(m: MathLib, v: real)
    requires v >= -0.04045
    ensures SrgbExpand(m, v) == SrgbExpandAsWritten(m, v)
  {
  }

  /** The expansion of one channel as rgb2xyz writes it: the sRGB curve when
      gamma is negative, else the signed power with exponent gamma. A
      positive channel stays positive; a negative one stays negative unless
      the sRGB curve is used below -0.04045. */
  function Expand(m: MathLib, v: real, gamma: real): (r: real)
    ensures m.PowersValid() && v > 0.0 ==> r > 0.0
    ensures m.PowersValid() && (gamma >= 0.0 || v >= -0.04045) && v < 0.0 ==> r < 0.0
    ensures m.PowersValid() && gamma != 0.0 && v == 0.0 ==> r == 0.0
  {
    if gamma < 0.0 then SrgbExpandAsWritten(m, v) else Apow(m, v, gamma)
  }

  /** The expansion of one channel with the corrected sRGB curve. */
  function ExpandCorrected(m: MathLib, v: real, gamma: real): (r: real)
    ensures m.PowersValid() ==> (v > 0.0 ==> r > 0.0) && (v < 0.0 ==> r < 0.0)
    ensures m.PowersValid() && gamma != 0.0 && v == 0.0 ==> r == 0.0
  {
    if gamma < 0.0 then SrgbExpand(m, v) else Apow(m, v, gamma)
  }

  /** The two expansions differ only on sRGB channels below -0.04045. */
  lemma ExpandAgrees(m: MathLib, v: real, gamma: real)
    requires gamma >= 0.0 || v >= -0.04045
    ensures ExpandCorrected(m, v, gamma) == Expand(m, v, gamma)
  {
    if gamma < 0.0 {
      SrgbExpandAgrees(m, v);
    }
  }

  /** The signed power curve is odd as written, for every positive gamma. */
  lemma ExpandOdd(m: MathLib, v: real, gamma: real)
    requires m.PowersValid() && gamma > 0.0
    ensures Expand(m, -v, gamma) == -Expand(m, v, gamma)
  {
    ApowOdd(m, v, gamma);
  }

  /** The corrected expansion is odd for every non-zero gamma. */
  lemma ExpandCorrectedOdd(m: MathLib, v: real, gamma: real)
    requires m.PowersValid() && gamma != 0.0
    ensures ExpandCorrected(m, -v, gamma) == -ExpandCorrected(m, v, gamma)
  {
    if gamma < 0.0 {
      SrgbExpandOdd(m, v);
    } else {
      ApowOdd(m, v, gamma);
    }
  }

  /** `rgb2xyz`: each channel expanded as the code does it, then the row
      vector times the matrix with rows m0, m1, m2. Black maps to black for
      every matrix and every non-zero gamma. */
  function Rgb2Xyz(m: MathLib, rgb: Pixel, gamma: real, m0: Pixel, m1: Pixel, m2: Pixel): (xyz: Pixel)
    ensures m.PowersValid() && gamma != 0.0 && rgb == Pixel(0.0, 0.0, 0.0) ==> xyz == Pixel(0.0, 0.0, 0.0)
  {
    var p := ExpandPixel(m, rgb, gamma);
    MultV3M33ZeroAndIdentity(p, m0, m1, m2);
    MultV3M33(p, m0, m1, m2)
  }

  /** rgb2xyz with the corrected sRGB curve. */
  function Rgb2XyzCorrected(m: MathLib, rgb: Pixel, gamma: real, m0: Pixel, m1: Pixel, m2: Pixel): (xyz: Pixel)
    ensures m.PowersValid() && gamma != 0.0 && rgb == Pixel(0.0, 0.0, 0.0) ==> xyz == Pixel(0.0, 0.0, 0.0)
  {
    var p := ExpandCorrectedPixel(m, rgb, gamma);
    MultV3M33ZeroAndIdentity(p, m0, m1, m2);
    MultV3M33(p, m0, m1, m2)
  }

  /** With a non-negative gamma, or with every channel at least -0.04045, the
      corrected conversion is rgb2xyz as written. */
  lemma Rgb2XyzAgrees(m: MathLib, rgb: Pixel, gamma: real, m0: Pixel, m1: Pixel, m2: Pixel)
    requires gamma >= 0.0 || (rgb.a >= -0.04045 && rgb.b >= -0.04045 && rgb.c >= -0.04045)
    ensures Rgb2XyzCorrected(m, rgb, gamma, m0, m1, m2) == Rgb2Xyz(m, rgb, gamma, m0, m1, m2)
  {
    ExpandAgrees(m, rgb.a, gamma);
    ExpandAgrees(m, rgb.b, gamma);
    ExpandAgrees(m, rgb.c, gamma);
  }

  /** As written, the sRGB branch sends the channel -0.05 to a positive
      value: with the identity matrix, X comes out positive. */
  lemma Rgb2XyzFlipsSign(m: MathLib)
    requires m.PowersValid()
    ensures Rgb2Xyz(m, Pixel(-0.05, 0.0, 0.0), -1.0,
                    Pixel(1.0, 0.0, 0.0), Pixel(0.0, 1.0, 0.0), Pixel(0.0, 0.0, 1.0)).a > 0.0
  {
    SrgbExpandAsWrittenFlipsSign(m);
  }

  /** With the sRGB curve and every channel within 0.04045 of zero, the
      whole conversion is the matrix applied to the channels divided by 12.92. */
  lemma Rgb2XyzLinearSegment(m: MathLib, rgb: Pixel, m0: Pixel, m1: Pixel, m2: Pixel)
    requires -0.04045 <= rgb.a <= 0.04045 && -0.04045 <= rgb.b <= 0.04045 && -0.04045 <= rgb.c <= 0.04045
    ensures Rgb2Xyz(m, rgb, -1.0, m0, m1, m2) == MultV3M33(Scale(1.0 / 12.92, rgb), m0, m1, m2)
  {
  }

  /** The channels expanded as written, in a pixel. */
  function ExpandPixel(m: MathLib, rgb: Pixel, gamma: real): Pixel
  {
    Pixel(Expand(m, rgb.a, gamma), Expand(m, rgb.b, gamma), Expand(m, rgb.c, gamma))
  }

  /** The channels expanded with the corrected curve, in a pixel. */
  function ExpandCorrectedPixel(m: MathLib, rgb: Pixel, gamma: real): Pixel
  {
    Pixel(ExpandCorrected(m, rgb.a, gamma), ExpandCorrected(m, rgb.b, gamma), ExpandCorrected(m, rgb.c, gamma))
  }

  /** Expanding the negated pixel as written negates every channel, for a positive gamma. */
  lemma ExpandPixelOdd(m: MathLib, rgb: Pixel, gamma: real)
    requires m.PowersValid() && gamma > 0.0
    ensures ExpandPixel(m, Scale(-1.0, rgb), gamma).a == -ExpandPixel(m, rgb, gamma).a
    ensures ExpandPixel(m, Scale(-1.0, rgb), gamma).b == -ExpandPixel(m, rgb, gamma).b
    ensures ExpandPixel(m, Scale(-1.0, rgb), gamma).c == -ExpandPixel(m, rgb, gamma).c
  {
    ScaleNegates(rgb);
    ExpandOdd(m, rgb.a, gamma);
    ExpandOdd(m, rgb.b, gamma);
    ExpandOdd(m, rgb.c, gamma);
  }

  /** Expanding the negated pixel with the corrected curve negates every channel. */
  lemma ExpandCorrectedPixelOdd(m: MathLib, rgb: Pixel, gamma: real)
    requires m.PowersValid() && gamma != 0.0
    ensures ExpandCorrectedPixel(m, Scale(-1.0, rgb), gamma).a == -ExpandCorrectedPixel(m, rgb, gamma).a
    ensures ExpandCorrectedPixel(m, Scale(-1.0, rgb), gamma).b == -ExpandCorrectedPixel(m, rgb, gamma).b
    ensures ExpandCorrectedPixel(m, Scale(-1.0, rgb), gamma).c == -ExpandCorrectedPixel(m, rgb, gamma).c
  {
    ScaleNegates(rgb);
    ExpandCorrectedOdd(m, rgb.a, gamma);
    ExpandCorrectedOdd(m, rgb.b, gamma);
    ExpandCorrectedOdd(m, rgb.c, gamma);
  }

  /** With a positive gamma, negating the RGB channels negates XYZ: the
      signed power is odd and the matrix product is linear. */
  lemma {:induction false} Rgb2XyzOdd(m: MathLib, rgb: Pixel, gamma: real, m0: Pixel, m1: Pixel, m2: Pixel)
    requires m.PowersValid() && gamma > 0.0
    ensures Rgb2Xyz(m, Scale(-1.0, rgb), gamma, m0, m1, m2) == Scale(-1.0, Rgb2Xyz(m, rgb, gamma, m0, m1, m2))
  {
    ExpandPixelOdd(m, rgb, gamma);
    MultV3M33OfNegated(ExpandPixel(m, rgb, gamma), ExpandPixel(m, Scale(-1.0, rgb), gamma), m0, m1, m2);
  }

  /** For every non-zero gamma, negating the RGB channels negates XYZ in the
      corrected conversion. */
  lemma {:induction false} Rgb2XyzCorrectedOdd(m: MathLib, rgb: Pixel, gamma: real, m0: Pixel, m1: Pixel, m2: Pixel)
    requires m.PowersValid() && gamma != 0.0
    ensures Rgb2XyzCorrected(m, Scale(-1.0, rgb), gamma, m0, m1, m2)
         == Scale(-1.0, Rgb2XyzCorrected(m, rgb, gamma, m0, m1, m2))
  {
    ExpandCorrectedPixelOdd(m, rgb, gamma);
    MultV3M33OfNegated(ExpandCorrectedPixel(m, rgb, gamma), ExpandCorrectedPixel(m, Scale(-1.0, rgb), gamma), m0, m1, m2);
  }

  /** `xyY2xyz`: tristimulus values from chromaticity (x, y) and luminance Y.
      A zero y yields black. Otherwise Y is kept and X + Y + Z is Y / y. */
  function Xyy2Xyz(xyY: Pixel): (xyz: Pixel)
    ensures xyY.b == 0.0 ==> xyz == Pixel(0.0, 0.0, 0.0)
    ensures xyY.b != 0.0 ==> xyz.b == xyY.c && xyz.a + xyz.b + xyz.c == xyY.c / xyY.b
  {
    if xyY.b != 0.0 then
      Pixel(xyY.a * xyY.c / xyY.b, xyY.c, (1.0 - xyY.a - xyY.b) * xyY.c / xyY.b)
    else
      Pixel(0.0, 0.0, 0.0)
  }

  /** The chromaticity of the result is the input chromaticity whenever the
      luminance and y are non-zero. */
  lemma {:induction false} Xyy2XyzChromaticity(xyY: Pixel)
    requires xyY.b != 0.0 && xyY.c != 0.0
    ensures var xyz := Xyy2Xyz(xyY);
            var sum := xyz.a + xyz.b + xyz.c;
            sum != 0.0 && xyz.a / sum == xyY.a && xyz.b / sum == xyY.b
  {
    var x, y, Y := xyY.a, xyY.b, xyY.c;
    var xyz := Xyy2Xyz(xyY);
    var sum := Y / y;
    assert xyz.a == x * sum;
    assert sum != 0.0;
    assert xyz.b == y * sum;
  }

  const Epsilon: real := 0.008856
  const Kappa: real := 903.3

  /** The CIE L*a*b* companding function: the cube root above Epsilon, else
      the straight line (Kappa t + 16) / 116. */
  function Compand(m: MathLib, t: real): (f: real)
    ensures t <= Epsilon ==> 116.0 * f - 16.0 == Kappa * t
  {
    if t > Epsilon then m.pow(t, 1.0 / 3.0) else (Kappa * t + 16.0) / 116.0
  }

  /** `xyz2lab`: each component relative to the white point, companded, then
      L* = 116 fy - 16, a* = 500 (fx - fy), b* = 200 (fy - fz). */
  function Xyz2Lab(m: MathLib, xyz: Pixel, w: Pixel): (lab: Pixel)
    requires w.a != 0.0 && w.b != 0.0 && w.c != 0.0
    ensures xyz.b / w.b <= Epsilon ==> lab.a == Kappa * (xyz.b / w.b)
    ensures xyz.b == 0.0 ==> lab.a == 0.0
    ensures xyz.a / w.a == xyz.b / w.b ==> lab.b == 0.0
    ensures xyz.b / w.b == xyz.c / w.c ==> lab.c == 0.0
  {
    var fx := Compand(m, xyz.a / w.a);
    var fy := Compand(m, xyz.b / w.b);
    var fz := Compand(m, xyz.c / w.c);
    Pixel(116.0 * fy - 16.0, 500.0 * (fx - fy), 200.0 * (fy - fz))
  }

  /** The reference white itself has L* = 100 and a* = b* = 0. */
  lemma Xyz2LabWhite(m: MathLib, w: Pixel)
    requires m.PowersValid() && w.a != 0.0 && w.b != 0.0 && w.c != 0.0
    ensures Xyz2Lab(m, w, w) == Pixel(100.0, 0.0, 0.0)
  {
    assert w.a / w.a == 1.0 && w.b / w.b == 1.0 && w.c / w.c == 1.0;
    assert m.pow(1.0, 1.0 / 3.0) == 1.0;
    assert Compand(m, 1.0) == 1.0;
  }

  /** Below Epsilon on every component the transform is linear in XYZ. */
  lemma Xyz2LabLinearRange(m: MathLib, xyz: Pixel, w: Pixel)
    requires w.a != 0.0 && w.b != 0.0 && w.c != 0.0
    requires xyz.a / w.a <= Epsilon && xyz.b / w.b <= Epsilon && xyz.c / w.c <= Epsilon
    ensures var lab := Xyz2Lab(m, xyz, w);
            && 116.0 * lab.b == 500.0 * Kappa * (xyz.a / w.a - xyz.b / w.b)
            && 116.0 * lab.c == 200.0 * Kappa * (xyz.b / w.b - xyz.c / w.c)
  {
  }
}
