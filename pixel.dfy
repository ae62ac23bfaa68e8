/** The three-component value that every conversion reads and writes
    (`struct pixel` and the `double[3]` buffers of color_space.c), and the
    helpers shared by the conversions: the signed power `_apow`, the
    row-vector-by-matrix product `_mult_v3_m33` and the angle conversions. */
module Pixels {
  import opened MathLib

  /** One colour coordinate; which space it is in is up to the caller. */
  datatype Pixel = Pixel(a: real, b: real, c: real)

  function Add(p: Pixel, q: Pixel): Pixel {
    Pixel(p.a + q.a, p.b + q.b, p.c + q.c)
  }

  function Scale(k: real, p: Pixel): Pixel {
    Pixel(k * p.a, k * p.b, k * p.c)
  }

  /** `_apow`: the power of the magnitude carrying the sign of the base. */
  function Apow(m: MathLib, a: real, p: real): (r: real)
    ensures m.PowersValid() && a > 0.0 ==> r > 0.0
    ensures m.PowersValid() && a < 0.0 ==> r < 0.0
    ensures m.PowersValid() && p > 0.0 && a == 0.0 ==> r == 0.0
  {
    if a >= 0.0 then m.pow(a, p) else -m.pow(-a, p)
  }

  /** `_apow` is odd in its base: it preserves the sign of negative inputs. */
  lemma ApowOdd(m: MathLib, a: real, p: real)
    requires m.PowersValid()
    requires a != 0.0 || p > 0.0
    ensures Apow(m, -a, p) == -Apow(m, a, p)
  {
    if a == 0.0 {
      assert m.pow(0.0, p) == 0.0;
    }
  }

  /** `_mult_v3_m33`: the pixel, as a row vector, times the matrix whose rows
      are m0, m1 and m2; output j is the dot product with column j. */
  function MultV3M33(p: Pixel, m0: Pixel, m1: Pixel, m2: Pixel): (r: Pixel)
    ensures r.a == Dot(p, Pixel(m0.a, m1.a, m2.a))
    ensures r.b == Dot(p, Pixel(m0.b, m1.b, m2.b))
    ensures r.c == Dot(p, Pixel(m0.c, m1.c, m2.c))
  {
    Pixel(p.a * m0.a + p.b * m1.a + p.c * m2.a,
          p.a * m0.b + p.b * m1.b + p.c * m2.b,
          p.a * m0.c + p.b * m1.c + p.c * m2.c)
  }

  /** The product is linear in the pixel. */
  lemma MultV3M33Linear(k: real, p: Pixel, q: Pixel, m0: Pixel, m1: Pixel, m2: Pixel)
    ensures MultV3M33(Add(Scale(k, p), q), m0, m1, m2)
         == Add(Scale(k, MultV3M33(p, m0, m1, m2)), MultV3M33(q, m0, m1, m2))
  {
    DotLinear(k, p, q, Pixel(m0.a, m1.a, m2.a));
    DotLinear(k, p, q, Pixel(m0.b, m1.b, m2.b));
    DotLinear(k, p, q, Pixel(m0.c, m1.c, m2.c));
  }

  /** Scaling by -1 negates each component. */
  lemma ScaleNegates(p: Pixel)
    ensures Scale(-1.0, p) == Pixel(-p.a, -p.b, -p.c)
  {
  }

  /** Negating the pixel negates the product. */
  lemma MultV3M33OfNegated(p: Pixel, q: Pixel, m0: Pixel, m1: Pixel, m2: Pixel)
    requires q.a == -p.a && q.b == -p.b && q.c == -p.c
    ensures MultV3M33(q, m0, m1, m2) == Scale(-1.0, MultV3M33(p, m0, m1, m2))
  {
    ScaleNegates(p);
    MultV3M33Linear(-1.0, p, Pixel(0.0, 0.0, 0.0), m0, m1, m2);
    MultV3M33ZeroAndIdentity(p, m0, m1, m2);
    assert Add(Scale(-1.0, p), Pixel(0.0, 0.0, 0.0)) == q;
  }

  /** The dot product of a pixel with a column of the matrix. */
  function Dot(p: Pixel, col: Pixel): real {
    p.a * col.a + p.b * col.b + p.c * col.c
  }

  lemma DotLinear(k: real, p: Pixel, q: Pixel, col: Pixel)
    ensures Dot(Add(Scale(k, p), q), col) == k * Dot(p, col) + Dot(q, col)
  {
    calc {
      Dot(Add(Scale(k, p), q), col);
      (k * p.a + q.a) * col.a + (k * p.b + q.b) * col.b + (k * p.c + q.c) * col.c;
      { Distribute(k, p.a, q.a, col.a); Distribute(k, p.b, q.b, col.b); Distribute(k, p.c, q.c, col.c); }
      k * (p.a * col.a) + q.a * col.a + k * (p.b * col.b) + q.b * col.b + k * (p.c * col.c) + q.c * col.c;
      k * (p.a * col.a + p.b * col.b + p.c * col.c) + (q.a * col.a + q.b * col.b + q.c * col.c);
    }
  }

  lemma Distribute(k: real, x: real, y: real, c: real)
    ensures (k * x + y) * c == k * (x * c) + y * c
  {
  }

  /** The zero pixel maps to zero, and the identity matrix leaves a pixel unchanged. */
  lemma MultV3M33ZeroAndIdentity(p: Pixel, m0: Pixel, m1: Pixel, m2: Pixel)
    ensures MultV3M33(Pixel(0.0, 0.0, 0.0), m0, m1, m2) == Pixel(0.0, 0.0, 0.0)
    ensures MultV3M33(p, Pixel(1.0, 0.0, 0.0), Pixel(0.0, 1.0, 0.0), Pixel(0.0, 0.0, 1.0)) == p
  {
  }

  /** `_rad2deg`: degrees from radians, with M_PI passed as pi. */
  function Rad2Deg(rad: real, pi: real): (deg: real)
    requires pi > 0.0
    ensures rad < 0.0 <==> deg < 0.0
  {
    180.0 * rad / pi
  }

  /** `_deg2rad`: radians from degrees, with M_PI passed as pi. */
  function Deg2Rad(deg: real, pi: real): (rad: real)
    requires pi > 0.0
    ensures rad < 0.0 <==> deg < 0.0
  {
    deg * (pi / 180.0)
  }

  /** The two angle conversions are inverse to each other, a principal angle
      in radians is at most 180 degrees either way, and a turn in degrees is
      2 pi radians. */
  lemma AngleRoundTrip(x: real, pi: real)
    requires pi > 0.0
    ensures Deg2Rad(Rad2Deg(x, pi), pi) == x
    ensures Rad2Deg(Deg2Rad(x, pi), pi) == x
    ensures -pi <= x <= pi ==> -180.0 <= Rad2Deg(x, pi) <= 180.0
    ensures Deg2Rad(x + 360.0, pi) == Deg2Rad(x, pi) + 2.0 * pi
  {
    var d := 180.0 * x / pi;
    DivideThenMultiply(180.0 * x, pi);
    assert d * pi == 180.0 * x;
    calc {
      Deg2Rad(Rad2Deg(x, pi), pi);
      d * (pi / 180.0);
      (d * pi) / 180.0;
      x;
    }
    var r := x * (pi / 180.0);
    assert 180.0 * r == x * pi;
    MultiplyThenDivide(x, pi);
    calc {
      Rad2Deg(Deg2Rad(x, pi), pi);
      180.0 * r / pi;
      (x * pi) / pi;
      x;
    }
    if -pi <= x <= pi {
      assert (180.0 - d) * pi == 180.0 * pi - 180.0 * x;
      PositiveCofactor(180.0 - d, pi);
      assert (d + 180.0) * pi == 180.0 * x + 180.0 * pi;
      PositiveCofactor(d + 180.0, pi);
    }
    assert (x + 360.0) * (pi / 180.0) == x * (pi / 180.0) + 360.0 * (pi / 180.0);
  }

  lemma DivideThenMultiply(x: real, k: real)
    requires k != 0.0
    ensures (x / k) * k == x
  {
  }

  lemma MultiplyThenDivide(x: real, k: real)
    requires k != 0.0
    ensures (x * k) / k == x
  {
    var q := (x * k) / k;
    DivideThenMultiply(x * k, k);
    assert (q - x) * k == 0.0;
  }
}
