/**
 * The distance-constraint correction shared by the Verlet stick solver and
 * the soft-body rope solver.  Two end points A and B of masses mA and mB
 * with separation delta = B - A and distance dist = |delta| are pulled (or
 * pushed) along delta so that the distance moves a fraction `factor` of the
 * way towards the target length; each end moves in proportion to its
 * inverse mass.  Coincident end points are left alone, since the direction
 * is undefined.
 */
module Relaxation {
  import opened CMath
  import opened Vec2

  /** The share of the correction end A takes: wA / (wA + wB) with w = 1/m. */
  function ShareA(ma: real, mb: real): (s: real)
    requires ma > 0.0 && mb > 0.0
    ensures 0.0 < s < 1.0
    ensures ma * s == mb * (1.0 - s)
  {
    var wa := 1.0 / ma;
    var wb := 1.0 / mb;
    assert ma * wa == 1.0 && mb * wb == 1.0;
    var s := wa / (wa + wb);
    assert s * (wa + wb) == wa;
    assert (1.0 - s) * (wa + wb) == wb;
    assert ma * s * (wa + wb) == 1.0;
    assert mb * (1.0 - s) * (wa + wb) == 1.0;
    ProductZero(ma * s - mb * (1.0 - s), wa + wb);
    s
  }

  /**
   * One correction: A += normal * diff * (wA / sum), B -= normal * diff *
   * (wB / sum) with normal = delta / dist and diff = (dist - target) *
   * factor; nothing moves when dist is 0.  It keeps the mass-weighted sum
   * mA * A + mB * B.
   */
  function Relax(pa: Vec, ma: real, pb: Vec, mb: real, target: real, factor: real): (r: (Vec, Vec))
    requires ma > 0.0 && mb > 0.0
    ensures Add(Scale(r.0, ma), Scale(r.1, mb)) == Add(Scale(pa, ma), Scale(pb, mb))
  {
    var delta := Sub(pb, pa);
    var dist := Length(delta);
    if dist == 0.0 then (pa, pb)
    else
      var corr := Correction(delta, target, factor);
      var s := ShareA(ma, mb);
      KeepsCentre(pa, ma, pb, mb, corr, s);
      (Add(pa, Scale(corr, s)), Sub(pb, Scale(corr, 1.0 - s)))
  }

  /** normal * diff, with normal = delta / dist and diff = (dist - target) * factor. */
  function Correction(delta: Vec, target: real, factor: real): Vec
    requires Length(delta) != 0.0
  {
    Scale(Scale(delta, 1.0 / Length(delta)), (Length(delta) - target) * factor)
  }

  lemma KeepsCentre(pa: Vec, ma: real, pb: Vec, mb: real, c: Vec, s: real)
    requires ma * s == mb * (1.0 - s)
    ensures Add(Scale(Add(pa, Scale(c, s)), ma), Scale(Sub(pb, Scale(c, 1.0 - s)), mb))
            == Add(Scale(pa, ma), Scale(pb, mb))
  {
    KeepsComponent(pa.x, ma, pb.x, mb, c.x, s);
    KeepsComponent(pa.y, ma, pb.y, mb, c.y, s);
  }

  lemma KeepsComponent(a: real, ma: real, b: real, mb: real, c: real, s: real)
    requires ma * s == mb * (1.0 - s)
    ensures (a + c * s) * ma + (b - c * (1.0 - s)) * mb == a * ma + b * mb
  {
    assert (a + c * s) * ma == a * ma + c * (ma * s);
    assert (b - c * (1.0 - s)) * mb == b * mb - c * (mb * (1.0 - s));
  }

  /** Coincident end points are skipped. */
  lemma RelaxCoincident(p: Vec, ma: real, mb: real, target: real, factor: real)
    requires HypotExact()
    requires ma > 0.0 && mb > 0.0
    ensures Relax(p, ma, p, mb, target, factor) == (p, p)
  {
    LengthZero(Sub(p, p));
  }

  /** The else branch of Relax, unfolded. */
  lemma RelaxShape(pa: Vec, ma: real, pb: Vec, mb: real, target: real, factor: real)
    requires ma > 0.0 && mb > 0.0
    requires Length(Sub(pb, pa)) != 0.0
    ensures var c := Correction(Sub(pb, pa), target, factor);
            var s := ShareA(ma, mb);
            var r := Relax(pa, ma, pb, mb, target, factor);
            r.0 == Add(pa, Scale(c, s)) && r.1 == Sub(pb, Scale(c, 1.0 - s))
  {
  }

  /**
   * The new separation is the old one scaled by 1 - diff / dist, so both
   * ends move along the line joining them.
   */
  lemma RelaxSeparation(pa: Vec, ma: real, pb: Vec, mb: real, target: real, factor: real)
    requires ma > 0.0 && mb > 0.0
    requires Length(Sub(pb, pa)) != 0.0
    ensures var r := Relax(pa, ma, pb, mb, target, factor);
            var dist := Length(Sub(pb, pa));
            Sub(r.1, r.0) == Scale(Sub(pb, pa), 1.0 - (dist - target) * factor / dist)
  {
    RelaxShape(pa, ma, pb, mb, target, factor);
    MovedSeparation(pa, pb, Correction(Sub(pb, pa), target, factor), Length(Sub(pb, pa)), (Length(Sub(pb, pa)) - target) * factor, ShareA(ma, mb));
  }

  lemma MovedSeparation(pa: Vec, pb: Vec, c: Vec, dist: real, k: real, s: real)
    requires dist != 0.0 && c == Scale(Scale(Sub(pb, pa), 1.0 / dist), k)
    ensures Sub(Sub(pb, Scale(c, 1.0 - s)), Add(pa, Scale(c, s))) == Scale(Sub(pb, pa), 1.0 - k / dist)
  {
    SeparationComponent(pa.x, pb.x, dist, k, s);
    SeparationComponent(pa.y, pb.y, dist, k, s);
  }

  lemma SeparationComponent(a: real, b: real, dist: real, k: real, s: real)
    requires dist != 0.0
    ensures (b - (b - a) * (1.0 / dist) * k * (1.0 - s)) - (a + (b - a) * (1.0 / dist) * k * s)
            == (b - a) * (1.0 - k / dist)
  {
    var c := (b - a) * (1.0 / dist) * k;
    assert c == (b - a) * (k / dist);
    assert c * (1.0 - s) + c * s == c;
  }

  /**
   * With exact lengths, a factor in [0, 1] and a non-negative target, the
   * length error after the correction is exactly (1 - factor) times the
   * error before it.
   */
  lemma RelaxError(pa: Vec, ma: real, pb: Vec, mb: real, target: real, factor: real)
    requires HypotExact()
    requires ma > 0.0 && mb > 0.0
    requires pa != pb
    requires 0.0 <= factor <= 1.0 && target >= 0.0
    ensures var r := Relax(pa, ma, pb, mb, target, factor);
            Length(Sub(r.1, r.0)) - target == (1.0 - factor) * (Length(Sub(pb, pa)) - target)
  {
    var delta := Sub(pb, pa);
    var dist := Length(delta);
    LengthZero(delta);
    RelaxSeparation(pa, ma, pb, mb, target, factor);
    var q := 1.0 - (dist - target) * factor / dist;
    var r := Relax(pa, ma, pb, mb, target, factor);
    ScaledLength(Sub(r.1, r.0), delta, q);
    ErrorFactor(dist, target, factor);
  }

  lemma ScaledLength(v: Vec, a: Vec, q: real)
    requires HypotExact() && v == Scale(a, q)
    ensures Length(v) == Abs(q) * Length(a)
  {
    LengthScale(a, q);
  }

  lemma ErrorFactor(dist: real, target: real, factor: real)
    requires dist > 0.0 && 0.0 <= factor <= 1.0 && target >= 0.0
    ensures Abs(1.0 - (dist - target) * factor / dist) * dist - target == (1.0 - factor) * (dist - target)
  {
    var k := (dist - target) * factor;
    var q := 1.0 - k / dist;
    assert k / dist * dist == k;
    assert q * dist == dist - k;
    NonNegativeProduct(dist, 1.0 - factor);
    NonNegativeProduct(target, factor);
    assert q * dist >= 0.0;
  }
}
