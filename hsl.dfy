/** RGB to HSL (`rgb2hsl`) and the hue-interpolation kernel `rgb_quant` that
    turns HSL back into RGB. */
module Hsl {
  import opened MathLib
  import opened Pixels
  import opened Hue

  /** What `rgb_quant` returns: the hue is first reduced into [0,360), then
      the channel rises from p to q over [0,60), stays at q over [60,180),
      falls back to p over [180,240) and stays at p over [240,360). */
  function Quant(p: real, q: real, h: real): (r: real)
    ensures p <= r <= q || q <= r <= p
    ensures 60.0 <= Wrap360(h) < 180.0 ==> r == q
    ensures 240.0 <= Wrap360(h) ==> r == p
  {
    var w := Wrap360(h);
    if w < 60.0 then
      InterpolateBetween(p, q, w / 60.0)
    else if w < 180.0 then q
    else if w < 240.0 then
      InterpolateBetween(p, q, (240.0 - w) / 60.0)
    else p
  }

  /** p + (q - p) * t, which lies between p and q when t is in [0,1]. */
  function InterpolateBetween(p: real, q: real, t: real): (r: real)
    requires 0.0 <= t <= 1.0
    ensures p <= r <= q || q <= r <= p
  {
    if p <= q then
      assert (q - p) * t + (q - p) * (1.0 - t) == q - p;
      NonNegativeProduct(q - p, t);
      NonNegativeProduct(q - p, 1.0 - t);
      p + (q - p) * t
    else
      assert (p - q) * t + (p - q) * (1.0 - t) == p - q;
      NonNegativeProduct(p - q, t);
      NonNegativeProduct(p - q, 1.0 - t);
      p + (q - p) * t
  }

  /** `rgb_quant`: the two loops (WrapHue) bring the hue into [0,360) by
      whole turns, then the piecewise interpolation picks the channel value. */
  method RgbQuant(p: real, q: real, h0: real) returns (r: real)
    ensures r == Quant(p, q, h0)
  {
    var h := WrapHue(h0);

    if h < 60.0 {
      r := p + (q - p) * h / 60.0;
    } else if h < 180.0 {
      r := q;
    } else if h < 240.0 {
      r := p + (q - p) * (240.0 - h) / 60.0;
    } else {
      r := p;
    }
  }

  /** rgb_quant depends on the hue only modulo 360. */
  lemma QuantPeriodic(p: real, q: real, h: real, k: int)
    ensures Quant(p, q, h + 360.0 * k as real) == Quant(p, q, h)
  {
    Wrap360Periodic(h, k);
  }

  /** A hue of -30 is treated as 330. */
  lemma QuantNegativeHue()
    ensures Quant(10.0, 20.0, -30.0) == Quant(10.0, 20.0, 330.0)
  {
    QuantPeriodic(10.0, 20.0, -30.0, 1);
  }

  function Max3(r: real, g: real, b: real): (m: real)
    ensures m >= r && m >= g && m >= b
    ensures m == r || m == g || m == b
  {
    if r >= g && r >= b then r else if g >= b then g else b
  }

  function Min3(r: real, g: real, b: real): (m: real)
    ensures m <= r && m <= g && m <= b
    ensures m == r || m == g || m == b
  {
    if r <= g && r <= b then r else if g <= b then g else b
  }

  /** The saturation formula of rgb2hsl divides by the sum of the largest and
      smallest channel (lightness at most 1/2) or by 2 minus that sum
      (lightness above 1/2); these must not be zero when the channels differ. */
  predicate SaturationDefined(rgb: Pixel) {
    var max := Max3(rgb.a, rgb.b, rgb.c);
    var min := Min3(rgb.a, rgb.b, rgb.c);
    max != min ==>
      if (max + min) / 2.0 <= 0.5 then max + min != 0.0 else 2.0 - (max + min) != 0.0
  }

  /** The hue of a chromatic colour: the position, in sixths of a turn, of the
      colour between the primaries on either side of its largest channel,
      reduced modulo 360. Red wins a tie for the largest channel, then green. */
  function ChromaticHue(r: real, g: real, b: real): (h: real)
    requires Max3(r, g, b) != Min3(r, g, b)
    ensures 0.0 <= h < 360.0
  {
    var max := Max3(r, g, b);
    var delta := max - Min3(r, g, b);
    if r == max then Wrap360(60.0 * ((g - b) / delta))
    else if g == max then Wrap360(60.0 * (2.0 + (b - r) / delta))
    else Wrap360(60.0 * (4.0 + (r - g) / delta))
  }

  /** The HSL triple (hue, saturation, lightness) of an RGB triple. */
  function Hsl(rgb: Pixel): (hsl: Pixel)
    requires SaturationDefined(rgb)
    ensures hsl.c == (Max3(rgb.a, rgb.b, rgb.c) + Min3(rgb.a, rgb.b, rgb.c)) / 2.0
    ensures 0.0 <= hsl.a < 360.0
    ensures rgb.a == rgb.b == rgb.c ==> hsl.a == 0.0 && hsl.b == 0.0
  {
    var max := Max3(rgb.a, rgb.b, rgb.c);
    var min := Min3(rgb.a, rgb.b, rgb.c);
    var delta := max - min;
    var sum := max + min;
    var l := sum / 2.0;
    if delta == 0.0 then Pixel(0.0, 0.0, l)
    else
      var s := if l <= 0.5 then delta / sum else delta / (2.0 - sum);
      Pixel(ChromaticHue(rgb.a, rgb.b, rgb.c), s, l)
  }

  /** `rgb2hsl`: min, max, sum and delta of the channels, lightness, then
      saturation and the hue sector by the largest channel, scaled to degrees
      and raised by a turn when negative. */
  method Rgb2Hsl(rgb: Pixel) returns (hsl: Pixel)
    requires SaturationDefined(rgb)
    ensures hsl == Hsl(rgb)
  {
    var r, g, b := rgb.a, rgb.b, rgb.c;

    var max := r;
    if max < g { max := g; }
    if max < b { max := b; }
    var min := r;
    if g < min { min := g; }
    if b < min { min := b; }

    var delta := max - min;
    var sum := max + min;

    var h, s, l := 0.0, 0.0, sum / 2.0;
    if delta == 0.0 {
      h := 0.0;
      s := 0.0;
    } else {
      if l <= 0.5 {
        s := delta / sum;
      } else {
        s := delta / (2.0 - sum);
      }
      if r == max {
        h := (g - b) / delta;
      } else if g == max {
        h := 2.0 + (b - r) / delta;
      } else {
        h := 4.0 + (r - g) / delta;
      }
      h := h * 60.0;
      if h < 0.0 {
        h := h + 360.0;
      }
      assert max == Max3(r, g, b) && min == Min3(r, g, b);
      ChromaticHueUnwound(r, g, b);
    }
    hsl := Pixel(h, s, l);
  }

  /** The sector value of rgb2hsl in degrees needs at most one turn added to
      land in [0,360): ChromaticHue is that value, raised by 360 when negative. */
  lemma ChromaticHueUnwound(r: real, g: real, b: real)
    requires Max3(r, g, b) != Min3(r, g, b)
    ensures var max := Max3(r, g, b);
            var delta := max - Min3(r, g, b);
            var sector :=
              if r == max then (g - b) / delta
              else if g == max then 2.0 + (b - r) / delta
              else 4.0 + (r - g) / delta;
            var h := sector * 60.0;
            ChromaticHue(r, g, b) == if h < 0.0 then h + 360.0 else h
  {
    var max := Max3(r, g, b);
    var delta := max - Min3(r, g, b);
    var sector :=
      if r == max then (g - b) / delta
      else if g == max then 2.0 + (b - r) / delta
      else 4.0 + (r - g) / delta;
    var h := sector * 60.0;
    SectorBounds(r, g, b);
    if h < 0.0 {
      Wrap360Unique(h, 1);
    } else {
      Wrap360Unique(h, 0);
    }
  }

  /** The sector formulas before reduction: red-max lands in [-60,60],
      green-max in [60,180], blue-max in [180,300]. */
  lemma SectorBounds(r: real, g: real, b: real)
    requires Max3(r, g, b) != Min3(r, g, b)
    ensures var max := Max3(r, g, b);
            var delta := max - Min3(r, g, b);
            && (r == max ==> -60.0 <= 60.0 * ((g - b) / delta) <= 60.0)
            && (r != max && g == max ==> 60.0 <= 60.0 * (2.0 + (b - r) / delta) <= 180.0)
            && (r != max && g != max ==> 180.0 <= 60.0 * (4.0 + (r - g) / delta) <= 300.0)
  {
    var max := Max3(r, g, b);
    var delta := max - Min3(r, g, b);
    UnitRatio(g - b, delta);
    UnitRatio(b - r, delta);
    UnitRatio(r - g, delta);
  }

  /** Dividing by a positive d keeps the sign of x, and |x| <= d makes x / d
      lie in [-1,1]. */
  lemma UnitRatio(x: real, d: real)
    requires d > 0.0
    ensures -d <= x <= d ==> -1.0 <= x / d <= 1.0
    ensures x >= 0.0 ==> x / d >= 0.0
    ensures x < 0.0 ==> x / d < 0.0
  {
    var q := x / d;
    assert q * d == x;
    if x >= 0.0 {
      PositiveCofactor(q, d);
    } else {
      assert (-q) * d == -x;
      PositiveCofactor(-q, d);
    }
    if -d <= x <= d {
      assert (1.0 - q) * d == d - x;
      PositiveCofactor(1.0 - q, d);
      assert (q + 1.0) * d == x + d;
      PositiveCofactor(q + 1.0, d);
    }
  }

  /** The hue ranges by the largest channel: red (which wins ties)
      [0,60] or [300,360), green [60,180], blue [180,300]. */
  lemma HueSectors(rgb: Pixel)
    requires SaturationDefined(rgb)
    requires Max3(rgb.a, rgb.b, rgb.c) != Min3(rgb.a, rgb.b, rgb.c)
    ensures var h := Hsl(rgb).a;
            var max := Max3(rgb.a, rgb.b, rgb.c);
            && (rgb.a == max ==> 0.0 <= h <= 60.0 || 300.0 <= h < 360.0)
            && (rgb.a != max && rgb.b == max ==> 60.0 <= h <= 180.0)
            && (rgb.a != max && rgb.b != max ==> 180.0 <= h <= 300.0)
  {
    var r, g, b := rgb.a, rgb.b, rgb.c;
    var max := Max3(r, g, b);
    var delta := max - Min3(r, g, b);
    SectorBounds(r, g, b);
    if r == max {
      var raw := 60.0 * ((g - b) / delta);
      if raw < 0.0 { Wrap360Unique(raw, 1); } else { Wrap360Unique(raw, 0); }
    } else if g == max {
      Wrap360Unique(60.0 * (2.0 + (b - r) / delta), 0);
    } else {
      Wrap360Unique(60.0 * (4.0 + (r - g) / delta), 0);
    }
  }

  /** For RGB channels in [0,1], saturation and lightness lie in [0,1]. */
  lemma HslUnitRange(rgb: Pixel)
    requires 0.0 <= rgb.a <= 1.0 && 0.0 <= rgb.b <= 1.0 && 0.0 <= rgb.c <= 1.0
    ensures SaturationDefined(rgb)
    ensures 0.0 <= Hsl(rgb).b <= 1.0 && 0.0 <= Hsl(rgb).c <= 1.0
  {
    var max := Max3(rgb.a, rgb.b, rgb.c);
    var min := Min3(rgb.a, rgb.b, rgb.c);
    if max != min {
      var sum := max + min;
      var l := sum / 2.0;
      SaturationUnit(max, min);
      assert Hsl(rgb).b == if l <= 0.5 then (max - min) / sum else (max - min) / (2.0 - sum);
    }
  }

  /** The arithmetic behind HslUnitRange: extremes in [0,1] that differ give
      a non-zero denominator and a saturation in [0,1]. */
  lemma SaturationUnit(max: real, min: real)
    requires 0.0 <= min < max <= 1.0
    ensures var delta, sum := max - min, max + min;
            var l := sum / 2.0;
            && (l <= 0.5 ==> sum > 0.0 && 0.0 <= delta / sum <= 1.0)
            && (l > 0.5 ==> 2.0 - sum > 0.0 && 0.0 <= delta / (2.0 - sum) <= 1.0)
  {
    var delta, sum := max - min, max + min;
    if sum / 2.0 <= 0.5 {
      UnitRatio(delta, sum);
    } else {
      UnitRatio(delta, 2.0 - sum);
    }
  }

  /** Grey and pure red, as rgb2hsl classifies them. */
  lemma HslExamples()
    ensures Hsl(Pixel(0.5, 0.5, 0.5)) == Pixel(0.0, 0.0, 0.5)
    ensures Hsl(Pixel(1.0, 0.0, 0.0)) == Pixel(0.0, 1.0, 0.5)
  {
    Wrap360Unique(0.0, 0);
  }

  /** HSL back to RGB as rgb_quant's callers do it: q and p are the largest
      and smallest channel recovered from lightness and saturation, and the
      red, green and blue channels sample rgb_quant at h+120, h and h-120. */
  function Hsl2Rgb(hsl: Pixel): Pixel {
    var s, l := hsl.b, hsl.c;
    var q := if l <= 0.5 then l * (1.0 + s) else l + s - l * s;
    var p := 2.0 * l - q;
    Pixel(Quant(p, q, hsl.a + 120.0), Quant(p, q, hsl.a), Quant(p, q, hsl.a - 120.0))
  }

  /** Converting RGB to HSL and back gives the original channels exactly. */
  lemma {:induction false} HslRoundTrip(rgb: Pixel)
    requires SaturationDefined(rgb)
    ensures Hsl2Rgb(Hsl(rgb)) == rgb
  {
    var hsl := Hsl(rgb);
    RecoveredExtremes(rgb);
    if Max3(rgb.a, rgb.b, rgb.c) != Min3(rgb.a, rgb.b, rgb.c) {
      HueChannels(rgb.a, rgb.b, rgb.c);
    }
  }

  /** The q and p that Hsl2Rgb derives from an rgb2hsl result are the largest
      and the smallest channel. */
  lemma RecoveredExtremes(rgb: Pixel)
    requires SaturationDefined(rgb)
    ensures var hsl := Hsl(rgb);
            var s, l := hsl.b, hsl.c;
            var q := if l <= 0.5 then l * (1.0 + s) else l + s - l * s;
            && q == Max3(rgb.a, rgb.b, rgb.c)
            && 2.0 * l - q == Min3(rgb.a, rgb.b, rgb.c)
  {
    var max := Max3(rgb.a, rgb.b, rgb.c);
    var min := Min3(rgb.a, rgb.b, rgb.c);
    if max != min {
      var sum := max + min;
      var l := sum / 2.0;
      assert Hsl(rgb).c == l;
      assert Hsl(rgb).b == if l <= 0.5 then (max - min) / sum else (max - min) / (2.0 - sum);
      ExtremesFromSaturation(max, min);
    }
  }

  /** The arithmetic behind RecoveredExtremes. */
  lemma ExtremesFromSaturation(max: real, min: real)
    requires max != min
    requires (max + min) / 2.0 <= 0.5 ==> max + min != 0.0
    requires (max + min) / 2.0 > 0.5 ==> 2.0 - (max + min) != 0.0
    ensures var delta, sum := max - min, max + min;
            var l := sum / 2.0;
            var s := if l <= 0.5 then delta / sum else delta / (2.0 - sum);
            var q := if l <= 0.5 then l * (1.0 + s) else l + s - l * s;
            q == max && 2.0 * l - q == min
  {
    var delta, sum := max - min, max + min;
    var l := sum / 2.0;
    if l <= 0.5 {
      DivideThenMultiply(delta, sum);
      assert l * (delta / sum) == delta / 2.0;
    } else {
      DivideThenMultiply(delta, 2.0 - sum);
      assert (delta / (2.0 - sum)) * (1.0 - l) == delta / 2.0 by {
        assert 1.0 - l == (2.0 - sum) / 2.0;
      }
    }
  }

  /** Sampling rgb_quant between the smallest and largest channel at the
      three hue offsets gives back red, green and blue. */
  lemma HueChannels(r: real, g: real, b: real)
    requires Max3(r, g, b) != Min3(r, g, b)
    ensures var h := ChromaticHue(r, g, b);
            var max, min := Max3(r, g, b), Min3(r, g, b);
            && Quant(min, max, h + 120.0) == r
            && Quant(min, max, h) == g
            && Quant(min, max, h - 120.0) == b
  {
    var max := Max3(r, g, b);
    if r == max {
      RedMaxChannels(r, g, b);
    } else if g == max {
      GreenMaxChannels(r, g, b);
    } else {
      BlueMaxChannels(r, g, b);
    }
  }

  lemma RedMaxChannels(r: real, g: real, b: real)
    requires Max3(r, g, b) != Min3(r, g, b) && r == Max3(r, g, b)
    ensures var h := ChromaticHue(r, g, b);
            var min := Min3(r, g, b);
            && Quant(min, r, h + 120.0) == r
            && Quant(min, r, h) == g
            && Quant(min, r, h - 120.0) == b
  {
    var min := Min3(r, g, b);
    var delta := r - min;
    var t := (g - b) / delta;
    var raw := 60.0 * t;
    var h := ChromaticHue(r, g, b);
    assert h == Wrap360(raw);
    SectorBounds(r, g, b);
    UnitRatio(g - b, delta);
    DivideThenMultiply(g - b, delta);
    if g >= b {
      Wrap360Unique(raw, 0);
      Wrap360Unique(h + 120.0, 0);
      Wrap360Unique(h - 120.0, 1);
    } else {
      Wrap360Unique(raw, 1);
      Wrap360Unique(h, 0);
      Wrap360Unique(h + 120.0, -1);
      Wrap360Unique(h - 120.0, 0);
    }
  }

  lemma GreenMaxChannels(r: real, g: real, b: real)
    requires Max3(r, g, b) != Min3(r, g, b) && r != Max3(r, g, b) && g == Max3(r, g, b)
    ensures var h := ChromaticHue(r, g, b);
            var min := Min3(r, g, b);
            && Quant(min, g, h + 120.0) == r
            && Quant(min, g, h) == g
            && Quant(min, g, h - 120.0) == b
  {
    var min := Min3(r, g, b);
    var delta := g - min;
    var raw := 60.0 * (2.0 + (b - r) / delta);
    var h := ChromaticHue(r, g, b);
    assert h == Wrap360(raw);
    SectorBounds(r, g, b);
    UnitRatio(b - r, delta);
    DivideThenMultiply(b - r, delta);
    Wrap360Unique(raw, 0);
    Wrap360Unique(h + 120.0, 0);
    if b >= r {
      Wrap360Unique(h - 120.0, 0);
    } else {
      Wrap360Unique(h - 120.0, 1);
    }
  }

  lemma BlueMaxChannels(r: real, g: real, b: real)
    requires Max3(r, g, b) != Min3(r, g, b) && r != Max3(r, g, b) && g != Max3(r, g, b)
    ensures var h := ChromaticHue(r, g, b);
            var min := Min3(r, g, b);
            && Quant(min, b, h + 120.0) == r
            && Quant(min, b, h) == g
            && Quant(min, b, h - 120.0) == b
  {
    var min := Min3(r, g, b);
    var delta := b - min;
    var raw := 60.0 * (4.0 + (r - g) / delta);
    var h := ChromaticHue(r, g, b);
    assert h == Wrap360(raw);
    SectorBounds(r, g, b);
    UnitRatio(r - g, delta);
    DivideThenMultiply(r - g, delta);
    Wrap360Unique(raw, 0);
    Wrap360Unique(h - 120.0, 0);
    if r < g {
      Wrap360Unique(h + 120.0, 0);
    } else {
      Wrap360Unique(h + 120.0, -1);
    }
  }
}
