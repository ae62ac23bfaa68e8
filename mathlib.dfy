/** The C library functions that color_space.c calls (pow, sqrt, atan2, tan)
    and the constant M_PI. Their values are out of reach of the verifier, so
    each conversion receives them as a parameter; `Valid` lists the only facts
    about them that the proofs use. */
module MathLib {

  datatype MathLib = MathLib(
    pow: (real, real) -> real,
    sqrt: real -> real,
    atan2: (real, real) -> real,
    tan: real -> real,
    pi: real)
  {
    /** The properties of the real functions that the model relies on. */
    ghost predicate Valid() {
      PowersValid() && AnglesValid()
    }

    /** What the model relies on about sqrt and pow. */
    ghost predicate PowersValid() {
      // sqrt of a non-negative number is its non-negative square root
      && (forall x :: x >= 0.0 ==> sqrt(x) >= 0.0 && sqrt(x) * sqrt(x) == x)
      // squaring through pow is exact
      && (forall x :: pow(x, 2.0) == x * x)
      // a positive base has a positive power, one to any power is one,
      // zero to a positive power is zero
      && (forall x, p :: x > 0.0 ==> pow(x, p) > 0.0)
      && (forall p :: pow(1.0, p) == 1.0)
      && (forall p :: p > 0.0 ==> pow(0.0, p) == 0.0)
    }

    /** What the model relies on about M_PI, atan2 and tan. */
    ghost predicate AnglesValid() {
      && pi > 0.0
      // atan2(y, x) is the angle of the point (x, y): a principal value that
      // is negative exactly below the x axis, within a quarter turn of zero
      // for x > 0 and beyond a quarter turn for x < 0
      && (forall y, x :: -pi < atan2(y, x) <= pi)
      && (forall y, x :: atan2(y, x) < 0.0 <==> y < 0.0)
      && (forall y, x :: x > 0.0 ==> -pi / 2.0 < atan2(y, x) < pi / 2.0)
      && (forall y, x :: x < 0.0 ==> atan2(y, x) < -pi / 2.0 || pi / 2.0 < atan2(y, x))
      // tan of that angle, or of that angle one turn on, is the slope y / x
      && (forall y, x {:trigger tan(atan2(y, x))} :: x != 0.0 ==>
            tan(atan2(y, x)) == y / x && tan(atan2(y, x) + 2.0 * pi) == y / x)
    }
  }

  /** Two non-negative numbers with the same square are equal. */
  lemma NonNegativeSquareUnique(s: real, t: real)
    requires s >= 0.0 && t >= 0.0 && s * s == t * t
    ensures s == t
  {
    assert (s - t) * (s + t) == 0.0;
    if s + t != 0.0 {
      assert s - t == 0.0 / (s + t);
    }
  }

  /** sqrt of a square is the absolute value. */
  lemma SqrtOfSquare(m: MathLib, x: real)
    requires m.PowersValid()
    ensures m.sqrt(x * x) == if x >= 0.0 then x else -x
  {
    var ax := if x >= 0.0 then x else -x;
    assert ax * ax == x * x;
    NonNegativeSquareUnique(m.sqrt(x * x), ax);
  }

  /** A factor of a non-negative product with a positive cofactor is non-negative. */
  lemma PositiveCofactor(a: real, b: real)
    requires b > 0.0 && a * b >= 0.0
    ensures a >= 0.0
  {
  }

  /** sqrt is at least 1 on arguments that are at least 1. */
  lemma SqrtAtLeastOne(m: MathLib, x: real)
    requires m.PowersValid() && x >= 1.0
    ensures m.sqrt(x) >= 1.0
  {
    var r := m.sqrt(x);
    assert r >= 0.0 && r * r == x;
    assert (r - 1.0) * (r + 1.0) == x - 1.0;
    PositiveCofactor(r - 1.0, r + 1.0);
  }

  lemma NonNegativeProduct(x: real, y: real)
    requires x >= 0.0 && y >= 0.0
    ensures x * y >= 0.0
  {
  }

  lemma PositiveFactors(x: real, y: real)
    requires x > 0.0 && y > 0.0
    ensures x * y > 0.0
  {
  }

  lemma SubtractThenMultiply(x: real, y: real, k: real)
    ensures (x - y) * k == x * k - y * k
  {
  }

  lemma SquareNonNegative(x: real)
    ensures x * x >= 0.0
  {
    if x < 0.0 {
      assert x * x == (-x) * (-x);
      NonNegativeProduct(-x, -x);
    } else {
      NonNegativeProduct(x, x);
    }
  }

  lemma SquarePositive(a: real)
    requires a != 0.0
    ensures a * a > 0.0
  {
    if a < 0.0 {
      assert a * a == (-a) * (-a);
    }
  }

  lemma MulCancel(x: real, y: real, k: real)
    requires k != 0.0
    requires x * k == y * k
    ensures x == y
  {
    assert (x - y) * k == 0.0;
  }
}
