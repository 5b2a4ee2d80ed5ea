/**
 * The contact record and the parametric segment-segment intersection of the
 * collision header.  The source divides by the determinant unguarded; a
 * zero determinant (parallel or collinear segments) produces an infinite or
 * NaN parameter, every range test fails and no hit is reported.  The model
 * states that outcome directly.
 */
module Collision {
  import opened CMath
  import opened Vec2

  /** collisionInfo: where and how two shapes touch. */
  datatype Info = Info(vertex: Vec, intersection: Vec, edge: Vec, normal: Vec, rp1: Vec, rp2: Vec)

  const NoInfo := Info(Zero, Zero, Zero, Zero, Zero, Zero)

  /** collisionInfo::getDir: from the vertex to the intersection point. */
  function Dir(info: Info): (d: Vec)
    ensures Add(info.vertex, d) == info.intersection
  {
    Sub(info.intersection, info.vertex)
  }

  /** collisionInfo::length: the distance from the vertex to the intersection point. */
  function Depth(info: Info): (l: real)
    requires HypotExact()
    ensures l >= 0.0
    ensures l == 0.0 <==> info.intersection == info.vertex
  {
    var d := Dir(info);
    LengthZero(d);
    Length(d)
  }

  /** The point of segment a-b at parameter t. */
  function PointAt(a: Vec, b: Vec, t: real): Vec {
    Vec(a.x + t * (b.x - a.x), a.y + t * (b.y - a.y))
  }

  /** The determinant of the system t (l1 - l2) - u (l3 - l4) = l1 - l3. */
  function Det(l1: Vec, l2: Vec, l3: Vec, l4: Vec): real {
    (l1.x - l2.x) * (l3.y - l4.y) - (l1.y - l2.y) * (l3.x - l4.x)
  }

  /** Cramer's numerator for t. */
  function NumT(l1: Vec, l2: Vec, l3: Vec, l4: Vec): real {
    (l1.x - l3.x) * (l3.y - l4.y) - (l1.y - l3.y) * (l3.x - l4.x)
  }

  /** Cramer's numerator for u. */
  function NumU(l1: Vec, l2: Vec, l3: Vec, l4: Vec): real {
    -((l1.x - l2.x) * (l1.y - l3.y) - (l1.y - l2.y) * (l1.x - l3.x))
  }

  /**
   * The parameters (t along l1-l2, u along l3-l4) where the two lines meet,
   * or None when the determinant is zero.
   */
  function Params(l1: Vec, l2: Vec, l3: Vec, l4: Vec): Option<(real, real)> {
    var denom := Det(l1, l2, l3, l4);
    if denom == 0.0 then None
    else Some((NumT(l1, l2, l3, l4) / denom, NumU(l1, l2, l3, l4) / denom))
  }

  datatype Option<T> = None | Some(value: T)

  predicate InUnit(t: real) {
    0.0 <= t <= 1.0
  }

  /**
   * lineToLineIntersect: a hit when both parameters lie in [0, 1]; then the
   * vertex is l2, the intersection is l1 + t (l2 - l1), the edge is the
   * normalised l4 - l3 and the normal is that edge's anticlockwise
   * perpendicular of length 1.  Without a hit `info` is returned untouched.
   */
  function LineToLineIntersect(l1: Vec, l2: Vec, l3: Vec, l4: Vec, info: Info): (res: (bool, Info))
    requires HypotExact()
    ensures res.0 <==> Params(l1, l2, l3, l4).Some?
                       && InUnit(Params(l1, l2, l3, l4).value.0) && InUnit(Params(l1, l2, l3, l4).value.1)
    ensures !res.0 ==> res.1 == info
    ensures res.0 ==> res.1.vertex == l2
                      && res.1.intersection == PointAt(l1, l2, Params(l1, l2, l3, l4).value.0)
                      && res.1.intersection == PointAt(l3, l4, Params(l1, l2, l3, l4).value.1)
    ensures res.0 ==> res.1.edge == Normalize(Sub(l4, l3)) && res.1.normal == Perp(res.1.edge, 1.0, true)
    ensures res.0 ==> Dot(res.1.normal, Sub(l4, l3)) == 0.0
    ensures res.0 ==> res.1.rp1 == info.rp1 && res.1.rp2 == info.rp2
  {
    match Params(l1, l2, l3, l4)
    case None => (false, info)
    case Some((t, u)) =>
      if InUnit(t) && InUnit(u) then
        var edge := Normalize(Sub(l4, l3));
        IntersectionOnBoth(l1, l2, l3, l4);
        NormalOfEdge(Sub(l4, l3));
        (true, info.(vertex := l2, intersection := PointAt(l1, l2, t), edge := edge,
                     normal := Perp(edge, 1.0, true)))
      else (false, info)
  }

  /** The two parameters name the same point, so it lies on both lines. */
  lemma IntersectionOnBoth(l1: Vec, l2: Vec, l3: Vec, l4: Vec)
    requires Params(l1, l2, l3, l4).Some?
    ensures PointAt(l1, l2, Params(l1, l2, l3, l4).value.0)
         == PointAt(l3, l4, Params(l1, l2, l3, l4).value.1)
  {
    ParamsSolve(l1, l2, l3, l4);
    OnBothAt(l1, l2, l3, l4, Params(l1, l2, l3, l4).value.0, Params(l1, l2, l3, l4).value.1);
  }

  /** Any t and u solving the system name one point on both lines. */
  lemma OnBothAt(l1: Vec, l2: Vec, l3: Vec, l4: Vec, t: real, u: real)
    requires Det(l1, l2, l3, l4) != 0.0
    requires t * Det(l1, l2, l3, l4) == NumT(l1, l2, l3, l4)
    requires u * Det(l1, l2, l3, l4) == NumU(l1, l2, l3, l4)
    ensures PointAt(l1, l2, t) == PointAt(l3, l4, u)
  {
    Cramer(l1, l2, l3, l4, t, u);
    MeetAt(l1, l2, l3, l4, t, u);
  }

  /** With both residuals zero, l1 + t (l2 - l1) and l3 + u (l4 - l3) agree. */
  lemma MeetAt(l1: Vec, l2: Vec, l3: Vec, l4: Vec, t: real, u: real)
    requires (l1.x - l3.x) - t * (l1.x - l2.x) + u * (l3.x - l4.x) == 0.0
    requires (l1.y - l3.y) - t * (l1.y - l2.y) + u * (l3.y - l4.y) == 0.0
    ensures PointAt(l1, l2, t) == PointAt(l3, l4, u)
  {
    MeetCoordinate(l1.x, l2.x, l3.x, l4.x, t, u);
    MeetCoordinate(l1.y, l2.y, l3.y, l4.y, t, u);
  }

  lemma MeetCoordinate(a1: real, a2: real, a3: real, a4: real, t: real, u: real)
    requires (a1 - a3) - t * (a1 - a2) + u * (a3 - a4) == 0.0
    ensures a1 + t * (a2 - a1) == a3 + u * (a4 - a3)
  {
  }

  /** The parameters times the determinant give the two numerators. */
  lemma ParamsSolve(l1: Vec, l2: Vec, l3: Vec, l4: Vec)
    requires Params(l1, l2, l3, l4).Some?
    ensures Det(l1, l2, l3, l4) != 0.0
    ensures Params(l1, l2, l3, l4).value.0 * Det(l1, l2, l3, l4) == NumT(l1, l2, l3, l4)
    ensures Params(l1, l2, l3, l4).value.1 * Det(l1, l2, l3, l4) == NumU(l1, l2, l3, l4)
  {
    DivTimes(NumT(l1, l2, l3, l4), Det(l1, l2, l3, l4));
    DivTimes(NumU(l1, l2, l3, l4), Det(l1, l2, l3, l4));
  }

  lemma DivTimes(a: real, d: real)
    requires d != 0.0
    ensures a / d * d == a
  {
  }

  /**
   * Cramer's rule for t (l1 - l2) - u (l3 - l4) = l1 - l3 in two
   * dimensions: with a non-zero determinant d, the t and u with t d and
   * u d equal to the numerators solve it, so both coordinate residuals
   * are zero.
   */
  lemma Cramer(l1: Vec, l2: Vec, l3: Vec, l4: Vec, t: real, u: real)
    requires Det(l1, l2, l3, l4) != 0.0
    requires t * Det(l1, l2, l3, l4) == NumT(l1, l2, l3, l4)
    requires u * Det(l1, l2, l3, l4) == NumU(l1, l2, l3, l4)
    ensures (l1.x - l3.x) - t * (l1.x - l2.x) + u * (l3.x - l4.x) == 0.0
    ensures (l1.y - l3.y) - t * (l1.y - l2.y) + u * (l3.y - l4.y) == 0.0
  {
    var d := Det(l1, l2, l3, l4);
    var ex := (l1.x - l3.x) - t * (l1.x - l2.x) + u * (l3.x - l4.x);
    var ey := (l1.y - l3.y) - t * (l1.y - l2.y) + u * (l3.y - l4.y);
    assert ex * d == d * (l1.x - l3.x) - (t * d) * (l1.x - l2.x) + (u * d) * (l3.x - l4.x);
    assert ey * d == d * (l1.y - l3.y) - (t * d) * (l1.y - l2.y) + (u * d) * (l3.y - l4.y);
    ProductZero(ex, d);
    ProductZero(ey, d);
  }

  /** The anticlockwise unit perpendicular of the normalised edge is orthogonal to the edge. */
  lemma NormalOfEdge(e: Vec)
    requires HypotExact()
    ensures Dot(Perp(Normalize(e), 1.0, true), e) == 0.0
  {
    var n := Normalize(e);
    var p := Perp(n, 1.0, true);
    if e != Zero {
      var l := Length(e);
      LengthZero(e);
      assert n == Scale(e, 1.0 / l);
      assert e == Scale(n, l);
      DotSymmetric(n, e, e, l);
      assert Dot(p, Scale(n, l)) == l * Dot(p, n);
    }
  }
}
