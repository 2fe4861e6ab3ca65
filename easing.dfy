/** Easing and linear interpolation used by the morph animation of sketch.js.
    Arithmetic is exact over `real`; the floating-point rounding of sketch.js
    is not modelled. */
module Easing {

  function Cube(v: real): real { v * v * v }

  /** The sign of a product of a non-negative factor follows the other factor. */
  lemma MulSign(u: real, v: real)
    ensures 0.0 <= u && 0.0 <= v ==> 0.0 <= u * v
    ensures 0.0 <= u && v <= 0.0 ==> u * v <= 0.0
  {
  }

  lemma CubeMonotoneNonNegative(a: real, b: real)
    requires 0.0 <= a <= b
    ensures Cube(a) <= Cube(b)
  {
    MulSign(b - a, a + b);
    assert b * b - a * a == (b - a) * (a + b);
    MulSign(b * b - a * a, a);
    MulSign(b - a, b * b);
    assert b * b * a - a * a * a == (b * b - a * a) * a;
    assert b * b * b - b * b * a == (b - a) * (b * b);
  }

  /** Cubes are monotone: the one fact about cubic polynomials the easing needs. */
  lemma CubeMonotone(a: real, b: real)
    requires a <= b
    ensures Cube(a) <= Cube(b)
  {
    assert Cube(-a) == -Cube(a);
    assert Cube(-b) == -Cube(b);
    if 0.0 <= a {
      CubeMonotoneNonNegative(a, b);
    } else if b <= 0.0 {
      CubeMonotoneNonNegative(-b, -a);
    } else {
      CubeMonotoneNonNegative(0.0, -a);
      CubeMonotoneNonNegative(0.0, b);
    }
  }

  lemma CubeSign(v: real)
    ensures 0.0 <= v ==> 0.0 <= Cube(v)
    ensures v <= 0.0 ==> Cube(v) <= 0.0
  {
    if 0.0 <= v {
      CubeMonotone(0.0, v);
    } else {
      CubeMonotone(v, 0.0);
    }
  }

  /** The cubic ease-in-out curve: 4x^3 below one half, 1 - (2 - 2x)^3 / 2 from one half on. */
  function EaseInOutCubic(x: real): (r: real)
    ensures x == 0.0 ==> r == 0.0
    ensures x == 0.5 ==> r == 0.5
    ensures x == 1.0 ==> r == 1.0
    ensures 0.0 <= x <= 1.0 ==> 0.0 <= r <= 1.0
    ensures x <= 0.0 ==> r <= 0.0
    ensures 1.0 <= x ==> 1.0 <= r
  {
    if x < 0.5 then
      CubeMonotone(x, 0.5);
      CubeSign(x);
      4.0 * Cube(x)
    else
      CubeMonotone(-2.0 * x + 2.0, 1.0);
      CubeSign(-2.0 * x + 2.0);
      1.0 - Cube(-2.0 * x + 2.0) / 2.0
  }

  /** The easing never moves backwards on its nominal domain. */
  lemma EaseMonotone(a: real, b: real)
    requires 0.0 <= a <= b <= 1.0
    ensures EaseInOutCubic(a) <= EaseInOutCubic(b)
  {
    if b < 0.5 {
      CubeMonotone(a, b);
    } else if 0.5 <= a {
      CubeMonotone(-2.0 * b + 2.0, -2.0 * a + 2.0);
    } else {
      CubeMonotone(a, 0.5);
      CubeMonotone(-2.0 * b + 2.0, 1.0);
    }
  }

  lemma CubeDouble(v: real)
    ensures Cube(2.0 * v) == 8.0 * Cube(v)
  {
    assert (2.0 * v) * (2.0 * v) == 4.0 * (v * v);
    assert 4.0 * (v * v) * (2.0 * v) == 8.0 * (v * v * v);
  }

  /** Ease-in and ease-out are mirror images: f(1 - x) = 1 - f(x). */
  lemma EaseSymmetric(x: real)
    ensures EaseInOutCubic(1.0 - x) == 1.0 - EaseInOutCubic(x)
  {
    assert -2.0 * (1.0 - x) + 2.0 == 2.0 * x;
    assert -2.0 * x + 2.0 == 2.0 * (1.0 - x);
    CubeDouble(x);
    CubeDouble(1.0 - x);
  }

  /** p5's lerp(start, stop, amt) = amt * (stop - start) + start. */
  function Lerp(start: real, stop: real, amt: real): (r: real)
    ensures amt == 0.0 ==> r == start
    ensures amt == 1.0 ==> r == stop
    ensures 0.0 <= amt <= 1.0 && start <= stop ==> start <= r <= stop
    ensures 0.0 <= amt <= 1.0 && stop <= start ==> stop <= r <= start
  {
    MulSign(amt, stop - start);
    MulSign(1.0 - amt, stop - start);
    amt * (stop - start) + start
  }
}
