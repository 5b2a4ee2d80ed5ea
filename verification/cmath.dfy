/**
 * The three <cmath> functions the demos call: std::hypot, std::sin and
 * std::cos.  They are left uninterpreted; the only facts the model uses about
 * them are stated as predicates that a member needing them must require:
 *  - HypotExact: hypot(x, y) is the non-negative root of x*x + y*y;
 *  - TrigAtZero: cos 0 = 1 and sin 0 = 0.
 * Nothing here depends on IEEE 754 rounding.
 */
module CMath {

  /** std::hypot, with no definition. */
  const hypot: (real, real) -> real

  /** std::sin and std::cos, with no definition. */
  const sin: real -> real
  const cos: real -> real

  /**
   * hypot is exact: non-negative, zero exactly at the origin, and its square
   * is the sum of the squares of its arguments.
   */
  ghost predicate HypotExact() {
    forall x: real, y: real ::
      && hypot(x, y) >= 0.0
      && (hypot(x, y) == 0.0 <==> x == 0.0 && y == 0.0)
      && hypot(x, y) * hypot(x, y) == x * x + y * y
  }

  /** The only trigonometric facts the model relies on. */
  ghost predicate TrigAtZero() {
    cos(0.0) == 1.0 && sin(0.0) == 0.0
  }

  function Abs(a: real): (r: real)
    ensures r >= 0.0 && (r == a || r == -a)
  {
    if a < 0.0 then -a else a
  }

  /** Non-negative square roots are unique. */
  lemma RootUnique(a: real, b: real)
    requires a >= 0.0 && b >= 0.0 && a * a == b * b
    ensures a == b
  {
    assert (a - b) * (a + b) == a * a - b * b;
    if a + b == 0.0 {
      assert a == 0.0 && b == 0.0;
    } else {
      assert a + b > 0.0;
      ProductZero(a - b, a + b);
    }
  }

  lemma ProductZero(p: real, q: real)
    requires q != 0.0 && p * q == 0.0
    ensures p == 0.0
  {
  }

  /** hypot is absolutely homogeneous: hypot(k*x, k*y) = |k| * hypot(x, y). */
  lemma HypotScale(x: real, y: real, k: real)
    requires HypotExact()
    ensures hypot(k * x, k * y) == Abs(k) * hypot(x, y)
  {
    var h := hypot(x, y);
    var hk := hypot(k * x, k * y);
    var a := Abs(k);
    assert h >= 0.0 && h * h == x * x + y * y;
    assert hk >= 0.0 && hk * hk == (k * x) * (k * x) + (k * y) * (k * y);
    assert a * a == k * k;
    SquareOfProduct(a, h);
    ScaledSquares(k, x, y);
    NonNegativeProduct(a, h);
    RootUnique(hk, a * h);
  }

  lemma SquareOfProduct(p: real, q: real)
    ensures (p * q) * (p * q) == (p * p) * (q * q)
  {
  }

  lemma ScaledSquares(k: real, x: real, y: real)
    ensures (k * k) * (x * x + y * y) == (k * x) * (k * x) + (k * y) * (k * y)
  {
  }

  lemma NonNegativeProduct(p: real, q: real)
    requires p >= 0.0 && q >= 0.0
    ensures p * q >= 0.0
  {
  }

  /** |u / d| * d == |u| for a positive d. */
  lemma QuotientTimes(u: real, d: real)
    requires d != 0.0
    ensures (u / d) * d == u
  {
  }

  lemma AbsProduct(q: real, d: real)
    requires d >= 0.0
    ensures Abs(q) * d == Abs(q * d)
  {
  }

  lemma AbsQuotient(u: real, d: real)
    requires d > 0.0
    ensures Abs(u / d) * d == Abs(u) && Abs(-u / d) * d == Abs(u)
  {
    assert (u / d) * d == u;
    assert (-u / d) * d == -u;
  }

  /** hypot is symmetric under negating either argument. */
  lemma HypotNegate(x: real, y: real)
    requires HypotExact()
    ensures hypot(-x, -y) == hypot(x, y)
    ensures hypot(y, -x) == hypot(x, y)
  {
    var h := hypot(x, y);
    assert h >= 0.0 && h * h == x * x + y * y;
    var a := hypot(-x, -y);
    assert a >= 0.0 && a * a == (-x) * (-x) + (-y) * (-y);
    RootUnique(a, h);
    var b := hypot(y, -x);
    assert b >= 0.0 && b * b == y * y + (-x) * (-x);
    RootUnique(b, h);
  }
}
