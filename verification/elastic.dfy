/**
 * The elastic ball-ball exchange shared by the two ball demos: the pair is
 * pushed apart by opposite displacements, each velocity is split into its
 * part along the contact normal and the tangential rest, the normal speeds
 * are exchanged by the one-dimensional elastic formula and the tangential
 * parts are kept.
 */
module Elastic {
  import opened CMath
  import opened Vec2

  /** What the exchange reads and writes of a ball: position, velocity, mass. */
  datatype Disc = Disc(pos: Vec, vel: Vec, mass: real)

  /** The part of v orthogonal to the normal n. */
  function Tangent(v: Vec, n: Vec): Vec {
    Sub(v, Scale(n, Dot(v, n)))
  }

  function Momentum(d: Disc): Vec {
    Scale(d.vel, d.mass)
  }

  /**
   * The one-dimensional elastic exchange of normal speeds u1, u2 between
   * masses m1 and m2.  Momentum is conserved, the relative speed is
   * reversed, and equal masses swap their speeds.
   */
  function Exchange(m1: real, m2: real, u1: real, u2: real): (r: (real, real))
    requires m1 + m2 != 0.0
    ensures m1 * r.0 + m2 * r.1 == m1 * u1 + m2 * u2
    ensures r.1 - r.0 == u1 - u2
    ensures m1 == m2 ==> r == (u2, u1)
  {
    ExchangeLaws(m1, m2, u1, u2, ((m1 - m2) * u1 + 2.0 * m2 * u2) / (m1 + m2), ((m2 - m1) * u2 + 2.0 * m1 * u1) / (m1 + m2));
    (((m1 - m2) * u1 + 2.0 * m2 * u2) / (m1 + m2), ((m2 - m1) * u2 + 2.0 * m1 * u1) / (m1 + m2))
  }

  lemma ExchangeLaws(m1: real, m2: real, u1: real, u2: real, w1: real, w2: real)
    requires m1 + m2 != 0.0
    requires w1 == ((m1 - m2) * u1 + 2.0 * m2 * u2) / (m1 + m2)
    requires w2 == ((m2 - m1) * u2 + 2.0 * m1 * u1) / (m1 + m2)
    ensures m1 * w1 + m2 * w2 == m1 * u1 + m2 * u2
    ensures w2 - w1 == u1 - u2
    ensures m1 == m2 ==> w1 == u2 && w2 == u1
  {
    var tm := m1 + m2;
    Quotient((m1 - m2) * u1 + 2.0 * m2 * u2, tm, w1);
    Quotient((m2 - m1) * u2 + 2.0 * m1 * u1, tm, w2);
    assert (m1 * w1 + m2 * w2 - (m1 * u1 + m2 * u2)) * tm == 0.0;
    ProductZero(m1 * w1 + m2 * w2 - (m1 * u1 + m2 * u2), tm);
    assert (w2 - w1 - (u1 - u2)) * tm == 0.0;
    ProductZero(w2 - w1 - (u1 - u2), tm);
    if m1 == m2 {
      assert (w1 - u2) * tm == 0.0;
      ProductZero(w1 - u2, tm);
    }
  }

  lemma Quotient(a: real, t: real, q: real)
    requires t != 0.0 && q == a / t
    ensures a == q * t
  {
  }

  /** The exchange also keeps the kinetic energy of the normal motion. */
  lemma ExchangeKeepsEnergy(m1: real, m2: real, u1: real, u2: real)
    requires m1 + m2 != 0.0
    ensures var r := Exchange(m1, m2, u1, u2);
            m1 * r.0 * r.0 + m2 * r.1 * r.1 == m1 * u1 * u1 + m2 * u2 * u2
  {
    var r := Exchange(m1, m2, u1, u2);
    var w1, w2 := r.0, r.1;
    assert m1 * (w1 - u1) == -(m2 * (w2 - u2));
    assert w1 + u1 == w2 + u2;
    calc {
      m1 * w1 * w1 + m2 * w2 * w2 - (m1 * u1 * u1 + m2 * u2 * u2);
      m1 * (w1 - u1) * (w1 + u1) + m2 * (w2 - u2) * (w2 + u2);
      m1 * (w1 - u1) * (w1 + u1) - m1 * (w1 - u1) * (w2 + u2);
      m1 * (w1 - u1) * ((w1 + u1) - (w2 + u2));
      0.0;
    }
  }

  /**
   * The exchange: a moves by -displ and b by +displ; each velocity becomes
   * its tangential part plus n times its exchanged normal speed.  The
   * normal speed is read as (n (v . n)) . n, as both demos compute it.
   */
  function Collide(a: Disc, b: Disc, n: Vec, displ: Vec): (r: (Disc, Disc))
    requires a.mass + b.mass != 0.0
    ensures r.0.mass == a.mass && r.1.mass == b.mass
    ensures Add(r.0.pos, r.1.pos) == Add(a.pos, b.pos)
    ensures Sub(r.1.pos, r.0.pos) == Add(Sub(b.pos, a.pos), Scale(displ, 2.0))
  {
    var nv1 := Scale(n, Dot(a.vel, n));
    var nv2 := Scale(n, Dot(b.vel, n));
    var w := Exchange(a.mass, b.mass, Dot(nv1, n), Dot(nv2, n));
    (Disc(Sub(a.pos, displ), Add(Sub(a.vel, nv1), Scale(n, w.0)), a.mass),
     Disc(Add(b.pos, displ), Add(Sub(b.vel, nv2), Scale(n, w.1)), b.mass))
  }

  /** For a unit normal the speed read back along n is v . n. */
  lemma NormalSpeed(v: Vec, n: Vec)
    requires Dot(n, n) == 1.0
    ensures Dot(Scale(n, Dot(v, n)), n) == Dot(v, n)
  {
    assert Dot(Scale(n, Dot(v, n)), n) == Dot(v, n) * Dot(n, n);
  }

  /** t + n w, with t orthogonal to the unit normal n, has normal speed w and tangent t. */
  lemma Recompose(t: Vec, n: Vec, w: real)
    requires Dot(n, n) == 1.0 && Dot(t, n) == 0.0
    ensures Dot(Add(t, Scale(n, w)), n) == w
    ensures Tangent(Add(t, Scale(n, w)), n) == t
  {
    assert Dot(Add(t, Scale(n, w)), n) == Dot(t, n) + w * Dot(n, n);
  }

  /** The tangential part is orthogonal to a unit normal. */
  lemma TangentOrthogonal(v: Vec, n: Vec)
    requires Dot(n, n) == 1.0
    ensures Dot(Tangent(v, n), n) == 0.0
  {
    assert Dot(Tangent(v, n), n) == Dot(v, n) - Dot(v, n) * Dot(n, n);
  }

  /**
   * Along a unit normal the exchange keeps both tangential velocities and
   * gives each ball the elastic normal speed computed from v . n.
   */
  lemma CollideVelocities(a: Disc, b: Disc, n: Vec, displ: Vec)
    requires a.mass + b.mass != 0.0 && Dot(n, n) == 1.0
    ensures Tangent(Collide(a, b, n, displ).0.vel, n) == Tangent(a.vel, n)
    ensures Tangent(Collide(a, b, n, displ).1.vel, n) == Tangent(b.vel, n)
    ensures Dot(Collide(a, b, n, displ).0.vel, n) == Exchange(a.mass, b.mass, Dot(a.vel, n), Dot(b.vel, n)).0
    ensures Dot(Collide(a, b, n, displ).1.vel, n) == Exchange(a.mass, b.mass, Dot(a.vel, n), Dot(b.vel, n)).1
  {
    NormalSpeed(a.vel, n);
    NormalSpeed(b.vel, n);
    TangentOrthogonal(a.vel, n);
    TangentOrthogonal(b.vel, n);
    var w := Exchange(a.mass, b.mass, Dot(a.vel, n), Dot(b.vel, n));
    Recompose(Tangent(a.vel, n), n, w.0);
    Recompose(Tangent(b.vel, n), n, w.1);
  }

  /** Along a unit normal the exchange conserves the total momentum. */
  lemma CollideConservesMomentum(a: Disc, b: Disc, n: Vec, displ: Vec)
    requires a.mass + b.mass != 0.0 && Dot(n, n) == 1.0
    ensures Add(Momentum(Collide(a, b, n, displ).0), Momentum(Collide(a, b, n, displ).1))
         == Add(Momentum(a), Momentum(b))
  {
    NormalSpeed(a.vel, n);
    NormalSpeed(b.vel, n);
    var w := Exchange(a.mass, b.mass, Dot(a.vel, n), Dot(b.vel, n));
    MomentumOfSplit(a.vel, b.vel, a.mass, b.mass, n, Dot(a.vel, n), Dot(b.vel, n), w.0, w.1);
  }

  /**
   * The momentum identity behind the exchange: replacing the normal speeds
   * u1, u2 by w1, w2 with the same weighted sum keeps m1 v1 + m2 v2.
   */
  lemma MomentumOfSplit(v1: Vec, v2: Vec, m1: real, m2: real, n: Vec, u1: real, u2: real, w1: real, w2: real)
    requires m1 * w1 + m2 * w2 == m1 * u1 + m2 * u2
    ensures Add(Scale(Add(Sub(v1, Scale(n, u1)), Scale(n, w1)), m1), Scale(Add(Sub(v2, Scale(n, u2)), Scale(n, w2)), m2))
         == Add(Scale(v1, m1), Scale(v2, m2))
  {
    SplitX(v1, v2, m1, m2, n, u1, u2, w1, w2);
    SplitY(v1, v2, m1, m2, n, u1, u2, w1, w2);
  }

  lemma SplitX(v1: Vec, v2: Vec, m1: real, m2: real, n: Vec, u1: real, u2: real, w1: real, w2: real)
    requires m1 * w1 + m2 * w2 == m1 * u1 + m2 * u2
    ensures Scale(Add(Sub(v1, Scale(n, u1)), Scale(n, w1)), m1).x + Scale(Add(Sub(v2, Scale(n, u2)), Scale(n, w2)), m2).x
         == Scale(v1, m1).x + Scale(v2, m2).x
  {
    SplitComponent(Add(Sub(v1, Scale(n, u1)), Scale(n, w1)).x, Add(Sub(v2, Scale(n, u2)), Scale(n, w2)).x,
                   v1.x, v2.x, m1, m2, n.x, u1, u2, w1, w2);
  }

  lemma SplitY(v1: Vec, v2: Vec, m1: real, m2: real, n: Vec, u1: real, u2: real, w1: real, w2: real)
    requires m1 * w1 + m2 * w2 == m1 * u1 + m2 * u2
    ensures Scale(Add(Sub(v1, Scale(n, u1)), Scale(n, w1)), m1).y + Scale(Add(Sub(v2, Scale(n, u2)), Scale(n, w2)), m2).y
         == Scale(v1, m1).y + Scale(v2, m2).y
  {
    SplitComponent(Add(Sub(v1, Scale(n, u1)), Scale(n, w1)).y, Add(Sub(v2, Scale(n, u2)), Scale(n, w2)).y,
                   v1.y, v2.y, m1, m2, n.y, u1, u2, w1, w2);
  }

  /** One coordinate: c1 = v1 - n u1 + n w1 and c2 likewise weigh to v1 m1 + v2 m2. */
  lemma SplitComponent(c1: real, c2: real, v1: real, v2: real, m1: real, m2: real, n: real,
                       u1: real, u2: real, w1: real, w2: real)
    requires m1 * w1 + m2 * w2 == m1 * u1 + m2 * u2
    requires c1 == v1 - n * u1 + n * w1 && c2 == v2 - n * u2 + n * w2
    ensures c1 * m1 + c2 * m2 == v1 * m1 + v2 * m2
  {
    assert c1 * m1 + c2 * m2 == v1 * m1 + v2 * m2 + n * ((m1 * w1 + m2 * w2) - (m1 * u1 + m2 * u2));
  }

  /**
   * With the zero normal (the normalised direction between two coincident
   * centres) nothing is exchanged: both velocities are kept.
   */
  lemma CollideZeroNormal(a: Disc, b: Disc, displ: Vec)
    requires a.mass + b.mass != 0.0
    ensures Collide(a, b, Zero, displ).0.vel == a.vel
    ensures Collide(a, b, Zero, displ).1.vel == b.vel
  {
    assert Scale(Zero, Dot(a.vel, Zero)) == Zero && Scale(Zero, Dot(b.vel, Zero)) == Zero;
    var w := Exchange(a.mass, b.mass, 0.0, 0.0);
    assert (w.0 - 0.0) * (a.mass + b.mass) == 0.0;
    ProductZero(w.0, a.mass + b.mass);
  }

  /** With neither a normal nor a displacement, both discs come out as they went in. */
  lemma CollideAtRest(a: Disc, b: Disc, n: Vec, displ: Vec)
    requires a.mass + b.mass != 0.0
    requires n == Zero && displ == Zero
    ensures Collide(a, b, n, displ) == (a, b)
  {
    CollideZeroNormal(a, b, Zero);
    var r := Collide(a, b, Zero, Zero);
    assert r.0.pos == a.pos by { assert r.0.pos == Sub(a.pos, Zero); }
    assert r.1.pos == b.pos by { assert r.1.pos == Add(b.pos, Zero); }
    assert r.0 == Disc(a.pos, a.vel, a.mass) && r.1 == Disc(b.pos, b.vel, b.mass);
  }

  /**
   * Exact post-correction separation: with n the centre direction scaled to
   * unit length (dist times 1/l for l = |dist| > 0), moving the two centres
   * apart by n (maxR - l) in total leaves them exactly maxR apart along n.
   */
  lemma SeparationAfter(dist: Vec, l: real, maxR: real)
    requires HypotExact()
    requires l == Length(dist) && 0.0 < l < maxR
    ensures Add(dist, Scale(Scale(dist, 1.0 / l), maxR - l)) == Scale(Scale(dist, 1.0 / l), maxR)
    ensures Length(Scale(Scale(dist, 1.0 / l), maxR)) == maxR
  {
    SeparationSum(dist, l, maxR);
    SeparationLength(dist, l, maxR);
  }

  /** The first half of SeparationAfter: the moved difference is n maxR. */
  lemma SeparationSum(dist: Vec, l: real, maxR: real)
    requires l != 0.0
    ensures Add(dist, Scale(Scale(dist, 1.0 / l), maxR - l)) == Scale(Scale(dist, 1.0 / l), maxR)
  {
    SeparationComponent(dist.x, l, maxR);
    SeparationComponent(dist.y, l, maxR);
  }

  /** SeparationSum on one coordinate. */
  lemma SeparationComponent(c: real, l: real, m: real)
    requires l != 0.0
    ensures c + c * (1.0 / l) * (m - l) == c * (1.0 / l) * m
  {
    assert c * (1.0 / l) * l == c;
  }

  /** The second half of SeparationAfter: n maxR has length maxR. */
  lemma SeparationLength(dist: Vec, l: real, maxR: real)
    requires HypotExact()
    requires l == Length(dist) && 0.0 < l < maxR
    ensures Length(Scale(Scale(dist, 1.0 / l), maxR)) == maxR
  {
    LengthScale(dist, 1.0 / l);
    LengthScale(Scale(dist, 1.0 / l), maxR);
    assert Abs(1.0 / l) * l == 1.0;
  }
}
