/**
 * The shared 2D vector value type of the physics headers: componentwise
 * arithmetic, dot and cross products, length, normalisation, rotation,
 * perpendicular and parallel vectors of a given length, and scalar
 * projection.  The compound operators (+=, -=, *=) are the same functions
 * as +, - and * applied to the receiver, since the model has value semantics.
 */
module Vec2 {
  import opened CMath

  datatype Vec = Vec(x: real, y: real)

  const Zero := Vec(0.0, 0.0)

  function Add(a: Vec, b: Vec): Vec {
    Vec(a.x + b.x, a.y + b.y)
  }

  function Sub(a: Vec, b: Vec): Vec {
    Vec(a.x - b.x, a.y - b.y)
  }

  function Scale(a: Vec, s: real): Vec {
    Vec(a.x * s, a.y * s)
  }

  function Neg(a: Vec): Vec {
    Vec(-a.x, -a.y)
  }

  function Dot(a: Vec, b: Vec): real {
    a.x * b.x + a.y * b.y
  }

  function Cross(a: Vec, b: Vec): real {
    a.x * b.y - a.y * b.x
  }

  function Length(a: Vec): real {
    hypot(a.x, a.y)
  }

  /** `a += b` followed by `a -= b` restores `a`, and the other way round. */
  lemma AddSubInverse(a: Vec, b: Vec)
    ensures Sub(Add(a, b), b) == a
    ensures Add(Sub(a, b), b) == a
  {
  }

  /** Vector addition is commutative and associative. */
  lemma AddCommAssoc(a: Vec, b: Vec, c: Vec)
    ensures Add(a, b) == Add(b, a)
    ensures Add(Add(a, b), c) == Add(a, Add(b, c))
  {
  }

  /** The dot product is symmetric and bilinear in its first argument. */
  lemma DotSymmetric(a: Vec, b: Vec, c: Vec, s: real)
    ensures Dot(a, b) == Dot(b, a)
    ensures Dot(Add(a, c), b) == Dot(a, b) + Dot(c, b)
    ensures Dot(Scale(a, s), b) == s * Dot(a, b)
  {
  }

  /** The cross product is antisymmetric, so every vector crosses itself to 0. */
  lemma CrossAntisymmetric(a: Vec, b: Vec)
    ensures Cross(a, b) == -Cross(b, a)
    ensures Cross(a, a) == 0.0
  {
  }

  /** Length is non-negative and is zero exactly for the zero vector. */
  lemma LengthZero(a: Vec)
    requires HypotExact()
    ensures Length(a) >= 0.0
    ensures Length(a) == 0.0 <==> a == Zero
  {
    assert hypot(a.x, a.y) >= 0.0;
  }

  /** Squared length is the dot product with itself. */
  lemma LengthSquared(a: Vec)
    requires HypotExact()
    ensures Length(a) * Length(a) == Dot(a, a)
  {
  }

  /** |s * a| = |s| * |a|. */
  lemma LengthScale(a: Vec, s: real)
    requires HypotExact()
    ensures Length(Scale(a, s)) == Abs(s) * Length(a)
  {
    HypotScale(a.x, a.y, s);
    assert Scale(a, s) == Vec(s * a.x, s * a.y);
  }

  /**
   * vec2::normalize: a zero-length vector yields (0, 0) with no division;
   * any other vector yields a unit vector pointing the same way.
   */
  function Normalize(a: Vec): (r: Vec)
    requires HypotExact()
    ensures a == Zero ==> r == Zero
    ensures a != Zero ==> Dot(r, r) == 1.0 && Length(r) == 1.0
    ensures Cross(r, a) == 0.0 && Dot(r, a) >= 0.0
  {
    var l := Length(a);
    LengthZero(a);
    if l == 0.0 then Zero
    else
      var r := Vec(a.x / l, a.y / l);
      assert r == Scale(a, 1.0 / l);
      LengthScale(a, 1.0 / l);
      LengthSquared(r);
      LengthSquared(a);
      r
  }

  /**
   * vec2::rotate: the rotation by `angle`, with cos and sin uninterpreted.
   */
  function Rotate(a: Vec, angle: real): Vec {
    Vec(a.x * cos(angle) - a.y * sin(angle), a.x * sin(angle) + a.y * cos(angle))
  }

  /** Rotating by angle 0 is the identity. */
  lemma RotateZero(a: Vec)
    requires TrigAtZero()
    ensures Rotate(a, 0.0) == a
  {
  }

  /** vec2::fromAngle: (cos angle, sin angle) scaled. */
  function FromAngle(angle: real, scale: real): (r: Vec)
    ensures r == Scale(Rotate(Vec(1.0, 0.0), angle), scale)
  {
    Vec(cos(angle) * scale, sin(angle) * scale)
  }

  /**
   * vec2::perp(u, anticlockwise): the vector (y, -x) rescaled to length |u|,
   * negated when not anticlockwise; (0, 0) when the receiver has length 0.
   */
  function Perp(a: Vec, u: real, anticlockwise: bool): (r: Vec)
    ensures Dot(r, a) == 0.0
  {
    var len := Length(a);
    if len > 0.0 then
      Scale(Vec(a.y, -a.x), if anticlockwise then u / len else -u / len)
    else
      Zero
  }

  /** The perpendicular of a non-zero vector has length |u|; of zero, it is zero. */
  lemma PerpLength(a: Vec, u: real, anticlockwise: bool)
    requires HypotExact()
    ensures a == Zero ==> Perp(a, u, anticlockwise) == Zero
    ensures a != Zero ==> Length(Perp(a, u, anticlockwise)) == Abs(u)
  {
    LengthZero(a);
    if Length(a) > 0.0 {
      HypotNegate(a.x, a.y);
      assert Length(Vec(a.y, -a.x)) == Length(a);
      AbsQuotient(u, Length(a));
      if anticlockwise {
        LengthScale(Vec(a.y, -a.x), u / Length(a));
      } else {
        LengthScale(Vec(a.y, -a.x), -u / Length(a));
      }
    }
  }

  /** The clockwise perpendicular is the negated anticlockwise one. */
  lemma PerpClockwise(a: Vec, u: real)
    requires HypotExact()
    ensures Perp(a, u, false) == Neg(Perp(a, u, true))
  {
  }

  /**
   * The angular-velocity term used by the rigid-body demos:
   * r.perp(-w * |r|) is w x r = (-w * r.y, w * r.x), for every r,
   * including the zero vector.
   */
  lemma PerpAngular(r: Vec, w: real)
    requires HypotExact()
    ensures Perp(r, -w * Length(r), true) == Vec(-w * r.y, w * r.x)
  {
    if Length(r) > 0.0 {
      PerpAngularNonZero(r, w);
    } else {
      LengthZero(r);
      PerpOfZeroLength(r, -w * Length(r), true);
      AngularOfZero(r, w);
    }
  }

  lemma PerpOfZeroLength(a: Vec, u: real, anticlockwise: bool)
    requires Length(a) == 0.0
    ensures Perp(a, u, anticlockwise) == Zero
  {
  }

  lemma AngularOfZero(r: Vec, w: real)
    requires r == Zero
    ensures Vec(-w * r.y, w * r.x) == Zero
  {
  }

  lemma PerpAngularNonZero(r: Vec, w: real)
    requires Length(r) > 0.0
    ensures Perp(r, -w * Length(r), true) == Vec(-w * r.y, w * r.x)
  {
    DivCancel(-w, Length(r));
  }

  lemma DivCancel(a: real, b: real)
    requires b != 0.0
    ensures a * b / b == a
  {
  }

  /**
   * vec2::para(u, positive): the receiver rescaled to length |u|, with sign
   * by `positive`.  The source divides by the length with no guard, so the
   * receiver must be non-zero.
   */
  function Para(a: Vec, u: real, positive: bool): (r: Vec)
    requires HypotExact()
    requires a != Zero
    ensures Cross(r, a) == 0.0
    ensures Length(r) == Abs(u)
    ensures Dot(r, a) == (if positive then u else -u) * Length(a)
  {
    LengthZero(a);
    var l := Length(a);
    var r := Scale(a, u / l);
    QuotientTimes(u, Length(a));
    ScaledCross(a, u / Length(a), if positive then 1.0 else -1.0);
    ParaLength(a, u / Length(a), u, positive);
    ParaDot(a, u / Length(a), u, positive);
    Scale(r, if positive then 1.0 else -1.0)
  }

  /** The length behind Para, for a factor q with q |a| = u. */
  lemma ParaLength(a: Vec, q: real, u: real, positive: bool)
    requires HypotExact() && q * Length(a) == u
    ensures Length(Scale(Scale(a, q), if positive then 1.0 else -1.0)) == Abs(u)
  {
    LengthZero(a);
    AbsProduct(q, Length(a));
    if positive {
      ScaledLength(a, q, 1.0);
    } else {
      ScaledLength(a, q, -1.0);
    }
  }

  /** The dot product behind Para, for a factor q with q |a| = u. */
  lemma ParaDot(a: Vec, q: real, u: real, positive: bool)
    requires HypotExact() && q * Length(a) == u
    ensures Dot(Scale(Scale(a, q), if positive then 1.0 else -1.0), a) == (if positive then u else -u) * Length(a)
  {
    if positive {
      ScaledDot(a, q, 1.0, Length(a));
    } else {
      ScaledDot(a, q, -1.0, Length(a));
    }
  }

  /** q a scaled by a sign s keeps the length |q| |a|. */
  lemma ScaledLength(a: Vec, q: real, s: real)
    requires HypotExact() && (s == 1.0 || s == -1.0)
    ensures Length(Scale(Scale(a, q), s)) == Abs(q) * Length(a)
  {
    LengthScale(a, q);
    LengthScale(Scale(a, q), s);
  }

  /** q a scaled by a sign s, for a of length l, has dot product (s q l) l with a. */
  lemma ScaledDot(a: Vec, q: real, s: real, l: real)
    requires HypotExact() && l == Length(a) && (s == 1.0 || s == -1.0)
    ensures Dot(Scale(Scale(a, q), s), a) == (if s == 1.0 then q * l else -(q * l)) * l
  {
    LengthSquared(a);
    DotSymmetric(a, a, a, q);
    DotSymmetric(Scale(a, q), a, a, s);
    SignedProduct(s, q, l);
  }

  /** q a scaled by any s stays parallel to a. */
  lemma ScaledCross(a: Vec, q: real, s: real)
    ensures Cross(Scale(Scale(a, q), s), a) == 0.0
  {
    assert Scale(Scale(a, q), s) == Scale(a, s * q);
  }

  lemma SignedProduct(s: real, q: real, l: real)
    requires s == 1.0 || s == -1.0
    ensures s * (q * (l * l)) == (if s == 1.0 then q * l else -(q * l)) * l
  {
    assert q * (l * l) == (q * l) * l;
  }

  /**
   * vec2::projection(vec): the scalar dot(receiver, vec) / |vec|, or 0 when
   * either vector has length 0.
   */
  function Projection(a: Vec, v: Vec): (r: real)
    requires HypotExact()
    ensures a == Zero || v == Zero ==> r == 0.0
    ensures a != Zero && v != Zero ==> r * Length(v) == Dot(a, v)
  {
    var l := Length(a);
    var lv := hypot(v.x, v.y);
    LengthZero(a);
    LengthZero(v);
    if l == 0.0 || lv == 0.0 then 0.0 else Dot(a, v) / lv
  }

  /**
   * vec2::project(v) = para(projection(v)): parallel to the receiver, with
   * length |projection(v)|; like para it needs a non-zero receiver.
   */
  function Project(a: Vec, v: Vec): (r: Vec)
    requires HypotExact()
    requires a != Zero
    ensures Cross(r, a) == 0.0
    ensures Length(r) == Abs(Projection(a, v))
    ensures Dot(r, a) == Projection(a, v) * Length(a)
    ensures v == Zero ==> r == Zero
  {
    var p := Projection(a, v);
    var r := Para(a, p, true);
    ParaOfZero(a, p, r);
    r
  }

  /** A parallel of length 0 is the zero vector. */
  lemma ParaOfZero(a: Vec, p: real, r: Vec)
    requires HypotExact() && a != Zero
    requires r == Para(a, p, true)
    ensures p == 0.0 ==> r == Zero
  {
    if p == 0.0 {
      assert Length(r) == 0.0;
      LengthZero(r);
    }
  }
}
