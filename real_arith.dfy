/** Facts about real multiplication, division and the cube that the fan
    curve relies on. Nonlinear real arithmetic needs guiding, so the cube's
    facts are proved by splitting on the signs of its arguments. */
module RealArith {

  /** The smaller of two reals; the second is returned only when it is
      strictly smaller, as Python's min does. */
  function Min(x: real, y: real): real {
    if y < x then y else x
  }

  /** Min is one of its arguments, the second exactly when that one is at or
      below the first. */
  lemma MinCases(x: real, y: real)
    ensures Min(x, y) <= x && Min(x, y) <= y
    ensures y <= x ==> Min(x, y) == y
    ensures x <= y ==> Min(x, y) == x
  {
  }

  /** Min with a fixed bound keeps order. */
  lemma MinMonotone(x1: real, x2: real, y: real)
    requires x1 <= x2
    ensures Min(x1, y) <= Min(x2, y)
  {
  }

  function Cube(x: real): real {
    x * x * x
  }

  /** The cube has the sign of its argument. */
  lemma CubeSign(x: real)
    ensures x > 0.0 ==> Cube(x) > 0.0
    ensures x == 0.0 ==> Cube(x) == 0.0
    ensures x < 0.0 ==> Cube(x) < 0.0
  {
    if x > 0.0 {
      assert x * x > 0.0;
    } else if x < 0.0 {
      assert x * x > 0.0;
    }
  }

  /** Multiplying by a non-negative real keeps order. */
  lemma MulMonotone(x: real, y: real, z: real)
    requires x <= y && 0.0 <= z
    ensures x * z <= y * z
  {
  }

  /** Multiplying by a positive real keeps strict order. */
  lemma MulStrictlyMonotone(x: real, y: real, z: real)
    requires x < y && 0.0 < z
    ensures x * z < y * z
  {
  }

  /** Scaling a positive quantity by a factor below one makes it smaller. */
  lemma ScaleBelowOne(c: real, f: real)
    requires c < 1.0 && 0.0 < f
    ensures c * f < f
  {
    MulStrictlyMonotone(c, 1.0, f);
    assert 1.0 * f == f;
  }

  /** Dividing by a positive real keeps order. */
  lemma DivMonotone(x: real, y: real, c: real)
    requires x <= y && 0.0 < c
    ensures x / c <= y / c
  {
    var u, v := x / c, y / c;
    assert u * c == x && v * c == y;
    if v < u {
      MulStrictlyMonotone(v, u, c);
    }
  }

  /** Dividing by a positive real keeps strict order. */
  lemma DivStrictlyMonotone(x: real, y: real, c: real)
    requires x < y && 0.0 < c
    ensures x / c < y / c
  {
    var u, v := x / c, y / c;
    assert u * c == x && v * c == y;
    if v <= u {
      MulMonotone(v, u, c);
    }
  }

  /** A quotient by a positive real has the sign of its dividend. */
  lemma DivSign(d: real, c: real)
    requires 0.0 < c
    ensures d / c < 0.0 <==> d < 0.0
    ensures d / c == 0.0 <==> d == 0.0
  {
    assert 0.0 / c == 0.0;
    assert (d / c) * c == d;
    if d < 0.0 {
      DivStrictlyMonotone(d, 0.0, c);
    } else {
      DivMonotone(0.0, d, c);
    }
  }

  /** A quotient by a positive real is below 1 exactly when the dividend is
      below the divisor. */
  lemma DivBelowOne(d: real, c: real)
    requires 0.0 < c
    ensures d / c < 1.0 <==> d < c
  {
    assert c / c == 1.0;
    if d < c {
      DivStrictlyMonotone(d, c, c);
    } else {
      DivMonotone(c, d, c);
    }
  }

  /** A factor multiplied in and divided out again cancels. */
  lemma MulDivCancel(a: real, c: real, f: real)
    requires c != 0.0
    ensures a * c * f / c == a * f
  {
  }

  /** Dividing a product by one of its factors' divisor regroups. */
  lemma MulDivRegroup(d: real, f: real, c: real)
    requires c != 0.0
    ensures d * f / c == (d / c) * f
  {
  }

  /** Strict monotonicity for non-negative arguments. */
  lemma CubeStrictlyIncreasingNonNeg(a: real, b: real)
    requires 0.0 <= a < b
    ensures Cube(a) < Cube(b)
  {
    MulMonotone(a, b, a);
    MulStrictlyMonotone(a, b, b);
    MulMonotone(a * a, b * b, a);
    MulStrictlyMonotone(a, b, b * b);
    assert (b * b) * a < (b * b) * b;
  }

  /** The cube is strictly increasing over all reals. */
  lemma CubeStrictlyIncreasing(a: real, b: real)
    requires a < b
    ensures Cube(a) < Cube(b)
  {
    if 0.0 <= a {
      CubeStrictlyIncreasingNonNeg(a, b);
    } else if b <= 0.0 {
      CubeStrictlyIncreasingNonNeg(-b, -a);
      assert Cube(-b) == -Cube(b);
      assert Cube(-a) == -Cube(a);
    } else {
      CubeSign(a);
      CubeSign(b);
    }
  }

  /** The cube is non-decreasing over all reals. */
  lemma CubeMonotone(a: real, b: real)
    requires a <= b
    ensures Cube(a) <= Cube(b)
  {
    if a < b {
      CubeStrictlyIncreasing(a, b);
    }
  }

  /** On the unit interval the cube lies at or below the identity, and
      strictly below it inside the open interval. */
  lemma CubeBelowIdentityOnUnit(x: real)
    requires 0.0 <= x <= 1.0
    ensures Cube(x) <= x
    ensures 0.0 < x < 1.0 ==> Cube(x) < x
  {
    assert x * x <= x * 1.0;
    assert (x * x) * x <= x * x;
    if 0.0 < x < 1.0 {
      assert x * x < x * 1.0;
      assert (x * x) * x <= x * x;
    }
  }

  /** The cube is multiplicative. */
  lemma CubeOfProduct(x: real, y: real)
    ensures Cube(x * y) == Cube(x) * Cube(y)
  {
    calc {
      Cube(x * y);
      (x * y) * (x * y) * (x * y);
      (x * x * x) * (y * y * y);
    }
  }
}
