/** Facts about integer products and Euclidean division that the grid
    arithmetic of the sampler needs, stated once. */
module Arithmetic {

  lemma MulAtLeast(g: int, m: int)
    requires g > 0 && m >= 1
    ensures g * m >= g
  {
  }

  lemma MulMonotone(a: int, b: int, c: int)
    requires a <= b && 0 <= c
    ensures a * c <= b * c
  {
    assert b * c - a * c == (b - a) * c;
  }

  lemma MulStrict(a: int, b: int, c: int)
    requires a < b && 0 < c
    ensures a * c < b * c
  {
    assert b * c - a * c == (b - a) * c;
    MulAtLeast(c, b - a);
  }

  /** Euclidean division is determined by its quotient and remainder. */
  lemma DivModUnique(n: int, g: int, k: int, r: int)
    requires g > 0 && 0 <= r < g && n == g * k + r
    ensures n / g == k && n % g == r
  {
    var q, s := n / g, n % g;
    assert n == g * q + s;
    var m := q - k;
    assert g * m == r - s;
    if m >= 1 {
      MulAtLeast(g, m);
    } else if m <= -1 {
      MulAtLeast(g, -m);
    }
  }

  lemma MultipleMod(g: int, k: int)
    requires g > 0
    ensures (g * k) % g == 0
  {
    DivModUnique(g * k, g, k, 0);
  }

  /** Consecutive multiples of g are at least g apart. */
  lemma NextMultiple(a: int, b: int, g: int)
    requires g > 0 && a % g == 0 && b % g == 0 && a < b
    ensures a + g <= b
  {
    var qa, qb := a / g, b / g;
    var m := qb - qa;
    assert b - a == g * m by {
      assert a == g * qa;
      assert b == g * qb;
    }
    if m < 1 {
      MulAtLeast(g, 1 - m);
      assert false;
    } else {
      MulAtLeast(g, m);
    }
  }

  lemma StepMultiple(a: int, g: int)
    requires g > 0 && a % g == 0
    ensures (a + g) % g == 0
  {
    var q := a / g;
    assert a == g * q;
    DivModUnique(a + g, g, q + 1, 0);
  }
}
