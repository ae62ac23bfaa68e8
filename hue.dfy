/** Hue angles in degrees and the two ways color_space.c brings them into a
    single turn. */
module Hue {

  /** The hue reduced into [0,360): the representative of h modulo 360. */
  function Wrap360(h: real): (w: real)
    ensures 0.0 <= w < 360.0
  {
    h - 360.0 * (h / 360.0).Floor as real
  }

  /** Wrap360 is the only value in [0,360) that differs from h by whole turns. */
  lemma {:induction false} Wrap360Unique(h: real, n: int)
    requires 0.0 <= h + 360.0 * n as real < 360.0
    ensures Wrap360(h) == h + 360.0 * n as real
  {
    var f := (h / 360.0).Floor;
    assert f as real <= h / 360.0 < f as real + 1.0;
    assert 360.0 * f as real <= h < 360.0 * f as real + 360.0;
    // h - 360 f and h + 360 n both lie in [0,360), so n + f is 0
    assert -1 < n + f < 1 by {
      assert 360.0 * (n + f) as real < 360.0;
      assert -360.0 < 360.0 * (n + f) as real;
    }
  }

  /** Adding whole turns does not change the wrapped hue. */
  lemma Wrap360Periodic(h: real, k: int)
    ensures Wrap360(h + 360.0 * k as real) == Wrap360(h)
  {
    var w := Wrap360(h);
    var f := (h / 360.0).Floor;
    assert w == h - 360.0 * f as real;
    Wrap360Unique(h + 360.0 * k as real, -(f + k));
  }

  /** The hue reduced into [0,360] by the loops of lab2lch: a negative hue is
      raised to [0,360), a hue above 360 is lowered to (0,360], and a hue in
      [0,360] is left alone, so 360 itself stays 360. */
  function WrapClosed(h: real): (w: real)
    ensures 0.0 <= w <= 360.0
    ensures 0.0 <= h <= 360.0 ==> w == h
    ensures h > 360.0 ==> w > 0.0
  {
    if h < 0.0 then Wrap360(h)
    else if h <= 360.0 then h
    else 360.0 - Wrap360(-h)
  }

  /** WrapClosed(h) differs from h by whole turns. */
  lemma WrapClosedCongruent(h: real) returns (n: int)
    ensures WrapClosed(h) == h + 360.0 * n as real
  {
    if h < 0.0 {
      n := -(h / 360.0).Floor;
    } else if h <= 360.0 {
      n := 0;
    } else {
      n := (-h / 360.0).Floor + 1;
      assert Wrap360(-h) == -h - 360.0 * ((-h) / 360.0).Floor as real;
    }
  }

  /** The two loops of rgb_quant: add whole turns while the hue is negative,
      then take them away while it is 360 or more. */
  method WrapHue(h0: real) returns (h: real)
    ensures h == Wrap360(h0)
  {
    h := h0;
    ghost var n: int := 0;
    while h < 0.0
      invariant h == h0 + 360.0 * n as real
      invariant h0 < 0.0 ==> h < 360.0
      invariant h0 >= 0.0 ==> h == h0
      decreases (-h).Floor
    {
      h := h + 360.0;
      n := n + 1;
    }
    while h >= 360.0
      invariant h == h0 + 360.0 * n as real
      invariant h >= 0.0
      decreases h.Floor
    {
      h := h - 360.0;
      n := n - 1;
    }
    Wrap360Unique(h0, n);
  }

  /** The two loops of lab2lch: add whole turns while the hue is negative,
      then take them away while it is above 360. */
  method WrapHueClosed(h0: real) returns (h: real)
    ensures h == WrapClosed(h0)
  {
    h := h0;
    ghost var n: int := 0;
    while h < 0.0
      invariant h == h0 + 360.0 * n as real
      invariant h0 < 0.0 ==> h < 360.0
      invariant h0 >= 0.0 ==> h == h0
      decreases (-h).Floor
    {
      h := h + 360.0;
      n := n + 1;
    }
    while h > 360.0
      invariant h == h0 + 360.0 * n as real
      invariant h >= 0.0
      invariant h0 < 0.0 ==> h < 360.0
      invariant 0.0 <= h0 <= 360.0 ==> h == h0
      invariant h0 > 360.0 ==> h > 0.0
      decreases h.Floor
    {
      h := h - 360.0;
      n := n - 1;
    }
    if h0 < 0.0 {
      Wrap360Unique(h0, n);
    } else if h0 > 360.0 {
      Wrap360Unique(-h0, 1 - n);
    }
  }
}
