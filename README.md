# color_space.c in Dafny

A model of the colour-space conversions of PDL::Graphics::ColorSpace's
C core, `color_space.c`, over exact real arithmetic:

- `rgb_quant`, the hue-interpolation kernel behind HSL to RGB;
- `rgb2hsl`;
- `rgb2xyz`, with the sRGB transfer curve or a signed power `_apow`,
  followed by the matrix product `_mult_v3_m33`;
- `xyY2xyz`;
- `xyz2lab`, the CIE 1976 L\*a\*b\* transform with ε = 0.008856 and κ = 903.3;
- `lab2lch` and `lch2lab`;
- the angle helpers `_rad2deg` and `_deg2rad`.

Every C in/out buffer pair becomes a value of type `Pixels.Pixel`, a
triple of reals. Parts that loop or update variables step by step are
Dafny methods, each proved equal to a specification function:
- the two hue loops of `rgb_quant` (`Hue.WrapHue`) and of `lab2lch`
  (`Hue.WrapHueClosed`);
- the slot updates of `rgb2hsl` (`Hsl.Rgb2Hsl`);
- the conditional negations of `lch2lab` (`Lch.Lch2Lab`).

The straight-line helpers are functions.

The C library functions `pow`, `sqrt`, `atan2` and `tan`, and `M_PI`, are
fields of a `MathLib.MathLib` value passed to each conversion. Dafny cannot
compute them. Two predicates state the only facts the proofs assume:
- `PowersValid` covers `pow` and `sqrt`. Squaring through `pow` is exact, a
  positive base has a positive power, `pow(1, p) = 1`, `pow(0, p) = 0` for
  p > 0, and `sqrt` returns the non-negative square root.
- `AnglesValid` covers `M_PI`, `atan2` and `tan`. `M_PI` is positive.
  `atan2` is a principal angle in (-π, π], negative exactly below the x
  axis, within a quarter turn of zero for x > 0 and beyond a quarter turn
  for x < 0. `tan`
  of that angle, or of that angle plus a full turn, is the slope.

Modules, one per file:
`MathLib` (mathlib.dfy), `Pixels` (pixel.dfy), `Hue` (hue.dfy),
`Hsl` (hsl.dfy), `Xyz` (xyz.dfy), `Lch` (lch.dfy), and `LchRoundTrip`
(lch_roundtrip.dfy) for the lemmas that chain `lab2lch` and `lch2lab`.

Points of the code that the model keeps as written:
- `_mult_v3_m33` multiplies the pixel as a row vector by the matrix whose
  rows are m0, m1 and m2. Output j is therefore a dot product with column j
  of that matrix.
- The second hue loop of `lab2lch` stops at `> 360`, so a hue of exactly
  360 passes through unchanged (`Hue.WrapClosed`). With a principal-valued
  `atan2` the hue in fact stays below 360 (`Lch.LchHue`).
- `rgb2xyz` (`Xyz.Rgb2Xyz`) uses the sRGB branch as written, which does not
  keep the sign of a channel below -0.04045. The corrected conversion is
  `Xyz.Rgb2XyzCorrected` (see Findings).

## Model

| member | source | states |
|---|---|---|
| Pixels.Apow | color_space.c:117-119 | `_apow` gives a result with the sign of the base: positive for a positive base, negative for a negative one, zero for a zero base and positive exponent |
| Pixels.ApowOdd | color_space.c:117-119 | `_apow(-a, p) = -_apow(a, p)`: the signed power is odd in its base |
| Pixels.MultV3M33 | color_space.c:121-126 | output j of `_mult_v3_m33` is the dot product of the pixel with column j of the matrix whose rows are m0, m1, m2 |
| Pixels.MultV3M33OfNegated | color_space.c:121-126 | negating every channel of the pixel negates the product |
| Pixels.MultV3M33Linear | color_space.c:121-126 | the product of the row vector and the matrix is linear in the pixel: the image of k·p + q is k times the image of p plus the image of q |
| Pixels.MultV3M33ZeroAndIdentity | color_space.c:121-126 | the zero pixel maps to zero, and the identity matrix returns the pixel unchanged |
| Pixels.Rad2Deg | color_space.c:201-204 | `_rad2deg` output is negative exactly when its input is |
| Pixels.Deg2Rad | color_space.c:206-209 | `_deg2rad` output is negative exactly when its input is |
| Pixels.AngleRoundTrip | color_space.c:201-209 | `_deg2rad` and `_rad2deg` are inverse to each other; an angle in [-π, π] is in [-180, 180] degrees; 360 degrees more is 2π radians more |
| Hue.Wrap360 | color_space.c:31-32 | the hue reduced modulo 360 lies in [0,360) |
| Hue.Wrap360Unique | color_space.c:31-32 | the reduced hue is the only value in [0,360) that differs from h by whole turns |
| Hue.Wrap360Periodic | color_space.c:31-32 | adding any whole number of turns does not change the reduced hue |
| Hue.WrapHue | color_space.c:31-32 | the two loops of `rgb_quant` terminate, and the hue they leave is h reduced modulo 360 |
| Hue.WrapClosed | color_space.c:170-171 | the `lab2lch` wrap lands in [0,360], leaves [0,360] alone (360 included), and takes hues above 360 into (0,360] |
| Hue.WrapClosedCongruent | color_space.c:170-171 | the `lab2lch` wrap changes the hue by a whole number of turns |
| Hue.WrapHueClosed | color_space.c:170-171 | the two loops of `lab2lch` terminate and produce the `WrapClosed` value of the hue |
| Hsl.Quant | color_space.c:29-38 | `rgb_quant` lies between p and q inclusive; it is exactly q when the reduced hue is in [60,180) and exactly p when it is in [240,360) |
| Hsl.InterpolateBetween | color_space.c:34-36 | p + (q-p)·t lies between p and q for t in [0,1], the interpolations of the rising and falling segments |
| Hsl.RgbQuant | color_space.c:29-38 | the loops followed by the piecewise branches compute `Quant` |
| Hsl.QuantPeriodic | color_space.c:31-37 | `rgb_quant` depends on the hue only modulo 360 |
| Hsl.QuantNegativeHue | color_space.c:31-37 | a hue of -30 gives the same channel as 330 |
| Hsl.Max3 | color_space.c:46-48 | the running maximum is one of the channels and at least each of them |
| Hsl.Min3 | color_space.c:49-51 | the running minimum is one of the channels and at most each of them |
| Hsl.ChromaticHue | color_space.c:76-86 | the hue of a colour whose channels differ lies in [0,360) |
| Hsl.Hsl | color_space.c:40-88 | lightness is (max+min)/2; the hue lies in [0,360); when r = g = b the hue and saturation are both 0 |
| Hsl.Rgb2Hsl | color_space.c:40-88 | the slot-by-slot computation of `rgb2hsl` yields the `Hsl` triple |
| Hsl.ChromaticHueUnwound | color_space.c:76-86 | the sector value times 60, plus one turn when negative, is already the hue reduced into [0,360): one correction is enough |
| Hsl.SectorBounds | color_space.c:76-85 | before the correction, red-max hues lie in [-60,60], green-max hues in [60,180] and blue-max hues in [180,300] |
| Hsl.HueSectors | color_space.c:76-86 | red-max (which wins ties) gives a hue in [0,60] or [300,360), green-max one in [60,180], blue-max one in [180,300] |
| Hsl.HslUnitRange | color_space.c:54-73 | channels in [0,1] never make the saturation divide by zero, and give saturation and lightness in [0,1] |
| Hsl.SaturationUnit | color_space.c:68-73 | for distinct extremes in [0,1], the saturation denominator of the chosen branch is positive and the saturation lies in [0,1] |
| Hsl.HslExamples | color_space.c:40-88 | grey (0.5, 0.5, 0.5) gives (0, 0, 0.5); pure red gives (0, 1, 0.5) |
| Hsl.HslRoundTrip | color_space.c:29-88 | converting RGB to HSL and back through `rgb_quant` at h+120, h and h-120 restores the channels exactly |
| Hsl.RecoveredExtremes | color_space.c:54-73 | the q and p recovered from lightness and saturation are the largest and the smallest channel |
| Hsl.ExtremesFromSaturation | color_space.c:54-73 | the algebra behind `RecoveredExtremes`: both saturation branches let q and p be recovered |
| Hsl.HueChannels | color_space.c:29-86 | `rgb_quant` between min and max at the three hue offsets returns red, green and blue |
| Hsl.RedMaxChannels | color_space.c:29-86 | the same for the red-max sector |
| Hsl.GreenMaxChannels | color_space.c:29-86 | the same for the green-max sector |
| Hsl.BlueMaxChannels | color_space.c:29-86 | the same for the blue-max sector |
| Xyz.SrgbExpandAsWritten | color_space.c:96-105 | the sRGB branch as written divides by 12.92 within 0.04045 of zero, keeps positive channels positive and channels in [-0.04045, 0) negative, and gives no positive value at or below -0.055 |
| Xyz.SrgbExpandAsWrittenFlipsSign | color_space.c:96-105 | the sRGB branch as written turns a channel of -0.05 into a positive value |
| Xyz.SrgbExpand | color_space.c:96-105 | the corrected sRGB curve divides by 12.92 within 0.04045 of zero, and gives a result positive or negative exactly when the channel is |
| Xyz.SrgbExpandOdd | color_space.c:96-105 | the corrected sRGB curve is odd |
| Xyz.SrgbExpandAgrees | color_space.c:96-105 | on every channel of at least -0.04045 the corrected curve equals the curve as written |
| Xyz.Expand | color_space.c:96-111 | the per-channel expansion as written keeps a positive channel positive; it keeps a negative channel negative for the power curve, and for the sRGB curve from -0.04045 up; zero stays zero when gamma is not zero |
| Xyz.ExpandCorrected | color_space.c:96-111 | with the corrected sRGB curve the expansion gives a result positive or negative exactly when the channel is, and zero for zero when gamma is not zero |
| Xyz.ExpandAgrees | color_space.c:96-111 | for gamma >= 0, or a channel of at least -0.04045, the corrected expansion equals the expansion as written |
| Xyz.ExpandOdd | color_space.c:107-111 | for gamma > 0 the expansion as written is odd |
| Xyz.ExpandCorrectedOdd | color_space.c:96-111 | for every non-zero gamma the corrected expansion is odd |
| Xyz.ExpandPixelOdd | color_space.c:107-111 | for gamma > 0, expanding the negated pixel as written negates each expanded channel |
| Xyz.ExpandCorrectedPixelOdd | color_space.c:96-111 | for every non-zero gamma, expanding the negated pixel with the corrected curve negates each expanded channel |
| Xyz.Rgb2Xyz | color_space.c:91-114 | `rgb2xyz` as written maps black to (0, 0, 0) for every matrix and non-zero gamma |
| Xyz.Rgb2XyzCorrected | color_space.c:91-114 | the corrected conversion maps black to (0, 0, 0) for every matrix and non-zero gamma |
| Xyz.Rgb2XyzAgrees | color_space.c:91-114 | for gamma >= 0, or every channel at least -0.04045 (all of [0,1] in particular), the corrected conversion is `rgb2xyz` as written |
| Xyz.Rgb2XyzFlipsSign | color_space.c:96-105 | with the sRGB curve as written and the identity matrix, RGB (-0.05, 0, 0) gives a positive X |
| Xyz.Rgb2XyzLinearSegment | color_space.c:96-113 | with the sRGB curve and all channels within 0.04045 of zero, the conversion is the matrix applied to rgb / 12.92 |
| Xyz.Rgb2XyzOdd | color_space.c:91-114 | for gamma > 0, negating the RGB channels negates the XYZ of `rgb2xyz` as written |
| Xyz.Rgb2XyzCorrectedOdd | color_space.c:91-114 | for every non-zero gamma, negating the RGB channels negates the XYZ of the corrected conversion |
| Xyz.Xyy2Xyz | color_space.c:129-141 | y = 0 gives (0, 0, 0) whatever x and Y are; otherwise Y is copied and X + Y + Z = Y / y |
| Xyz.Xyy2XyzChromaticity | color_space.c:129-141 | for non-zero y and Y, X/(X+Y+Z) = x and Y/(X+Y+Z) = y: the chromaticity is recovered |
| Xyz.Compand | color_space.c:154-156 | on the linear branch 116·f - 16 = κ·t |
| Xyz.Xyz2Lab | color_space.c:144-161 | in the linear range L\* = κ·Y/Yw, so Y = 0 gives L\* = 0; equal X and Y ratios give a\* = 0; equal Y and Z ratios give b\* = 0 |
| Xyz.Xyz2LabWhite | color_space.c:144-161 | the white point itself maps to (100, 0, 0) |
| Xyz.Xyz2LabLinearRange | color_space.c:154-160 | with every ratio at most ε, a\* and b\* are fixed multiples of the differences of the ratios |
| Lch.RawHue | color_space.c:168 | with a principal `atan2`, the hue in degrees before the loops lies in [-180, 180] and is negative exactly when b\* is |
| Lch.LchOf | color_space.c:163-172 | L\* passes through, chroma is non-negative, and the hue lies in [0,360] |
| Lch.Lab2Lch | color_space.c:163-172 | the slot-by-slot computation of `lab2lch`, loops included, yields `LchOf` |
| Lch.LchChromaSquare | color_space.c:167 | the chroma squared is a\*² + b\*² |
| Lch.LchHue | color_space.c:168-171 | the hue is the atan2 angle in degrees, plus 360 when negative; the loops run at most once and the hue stays below 360 |
| Lch.UnwoundHue | color_space.c:180-193 | a hue in [-360, 360) degrees becomes a radian angle in [0, 2π) after the single correction of `lch2lab` |
| Lch.LabOf | color_space.c:174-198 | L\* passes through `lch2lab` unchanged |
| Lch.Lch2Lab | color_space.c:174-198 | the slot updates and conditional negations of `lch2lab` yield `LabOf` |
| Lch.SizeA | color_space.c:189 | the computed size of a\* is no larger than the chroma and has its sign |
| Lch.SizeB | color_space.c:190 | the computed size of b\* is non-negative and completes the right triangle with hypotenuse C |
| Lch.LabOfChroma | color_space.c:189-197 | a\*² + b\*² = C² for the output of `lch2lab`, signs included |
| Lch.LabOfQuadrant | color_space.c:192-197 | for positive chroma a\* is negative exactly when the corrected hue is in (π/2, 3π/2); b\* is non-positive beyond π and non-negative up to π |
| LchRoundTrip.LchRoundTripChroma | color_space.c:163-198 | `lch2lab` then `lab2lch` gives back a non-negative chroma |
| LchRoundTrip.ChromaOfLength | color_space.c:167 | a vector (a\*, b\*) of length c has chroma c |
| LchRoundTrip.RoundTripHue | color_space.c:168-193 | after `lab2lch`, the hue `lch2lab` corrects is the atan2 angle, one turn on when negative |
| LchRoundTrip.RoundTripTangent | color_space.c:180-181 | after `lab2lch`, the tangent `lch2lab` takes is b\* / a\* |
| LchRoundTrip.SlopeIdentity | color_space.c:189 | (b/a)² + 1 = (C/\|a\|)² when C² = a² + b² |
| LchRoundTrip.RoundTripSizeA | color_space.c:189 | after `lab2lch`, the size of a\* computed by `lch2lab` is \|a\*\| |
| LchRoundTrip.SizeAOfLeg | color_space.c:189 | if C is the length of (a, b) and the hue has slope b/a, the size of a\* is \|a\| |
| LchRoundTrip.SizeAOfSlope | color_space.c:189 | with slope² + 1 = q², the size of a\* is C / q |
| LchRoundTrip.RoundTripSizeB | color_space.c:190 | after `lab2lch`, the size of b\* computed by `lch2lab` is \|b\*\| |
| LchRoundTrip.SizeBOfLeg | color_space.c:190 | if C is the length of (a, b) and the size of a\* is \|a\|, the size of b\* is \|b\| |
| LchRoundTrip.LabRoundTrip | color_space.c:163-198 | `lab2lch` then `lch2lab` restores every L\*a\*b\* triple with a\* non-zero exactly |

## Findings

| source | as written | input that shows it | evidently intended | confidence | as-written member | corrected member |
|---|---|---|---|---|---|---|
| color_space.c:98-105 | outside \|v\| <= 0.04045 the sRGB branch returns `_apow((v + 0.055)/1.055, 2.4)`, whose base is positive for every v > -0.055 | v = -0.05 with the identity matrix: the base is 0.005/1.055 > 0, so X comes out positive | the sign-preserving curve sign(v)·((\|v\| + 0.055)/1.055)^2.4, which keeps the sign of every channel and makes the conversion odd | not executed | Xyz.Rgb2XyzFlipsSign | Xyz.Rgb2XyzCorrectedOdd |

`Xyz.SrgbExpandAsWritten`, `Xyz.Expand` and `Xyz.Rgb2Xyz` follow the code as written. `Xyz.SrgbExpand`, `Xyz.ExpandCorrected` and `Xyz.Rgb2XyzCorrected` hold the intended curve, and `Xyz.Rgb2XyzCorrectedOdd` proves the corrected conversion odd for every non-zero gamma. `Xyz.Rgb2XyzAgrees` proves the two conversions equal whenever gamma >= 0 or every channel is at least -0.04045, which covers all of [0,1].

## Left out

- IEEE-754 doubles: rounding, NaN and infinities, and signed zero are not modelled. The model uses exact reals.
- Conditions that would make the C divide by zero are excluded by preconditions instead:
  - `Hsl.Hsl` requires `SaturationDefined`: the saturation denominator is non-zero whenever the channels differ.
  - `Xyz.Xyz2Lab` requires every white-point component to be non-zero.
  - `Hsl.HslUnitRange` shows that the first condition always holds for channels in [0,1].
- The values of `pow`, `sqrt`, `atan2`, `tan` and `M_PI` are parameters. The model assumes only the facts listed in `MathLib`. Because of this, the following are out of reach:
  - the exact numeric curves, including the cube root of `xyz2lab`;
  - the RGB/XYZ round trip;
  - numerical behaviour near 90° and 270°.
- `fabs` is written as the range test -0.04045 <= v <= 0.04045.
- Xyz.Rgb2XyzOdd: stated only for gamma > 0. The sRGB branch as written is not odd (see Findings), and with gamma = 0 the value of `pow(0, 0)` is not fixed by `MathLib`.
- Xyz.ExpandOdd: stated only for gamma > 0, for the same two reasons.
- Xyz.Rgb2Xyz: the slot updates of `rgb2xyz` are written as one function over values; the buffer `p` is never shared, so nothing depends on their order.
- Aliasing of the in/out buffers is not modelled, because the conversions take and return values. Two calls in the C read a slot after overwriting it when input and output are the same buffer:
  - `xyY2xyz(v, v)` writes Y over y before dividing by y (color_space.c:132-135);
  - `lab2lch(v, v)` writes the chroma over a\* before `atan2` reads it (color_space.c:167-168).
- Lch.LabOf: `lch2lab` adds one turn to a negative hue and never reduces a hue above 2π. `Lch.UnwoundHue` therefore bounds only hues in [-360, 360) degrees, and larger hues are modelled as the code leaves them.
- LchRoundTrip.LabRoundTrip: requires a\* to be non-zero, because the tangent-based reconstruction has no defined slope at 90° and 270°.
- The LCh to L\*a\*b\* to LCh hue round trip is not stated. Recovering the hue would need the inverse of `tan` and `atan2`, which the model does not assume.
- `Hsl.Hsl2Rgb` is not part of color_space.c. It is the standard caller of `rgb_quant`, with q and p taken from lightness and saturation. It is here as the partner of `rgb2hsl` in `Hsl.HslRoundTrip`.
- color_space.h declares only prototypes and is not part of this model. The `stdio.h` include performs no I/O.
