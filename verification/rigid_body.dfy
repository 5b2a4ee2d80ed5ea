/**
 * The pieces the two rigid-body demos share: the velocity of a point of a
 * rotating body, the floor contact search, and the floor impulse with a
 * coefficient of restitution along the normal (0, -1).
 */
module RigidBody {
  import opened CMath
  import opened Vec2
  import opened Polygons
  import Collision

  /** The floor line, y = 460, of both demos. */
  const Floor: real := 460.0

  /** The floor normal (0, -1). */
  const FloorNormal := Vec(0.0, -1.0)

  /**
   * The velocity of the body point at offset r: vel plus angVelo x r.  The
   * demos write it as vel + r.perp(-angVelo * |r|); Vec2.PerpAngular shows
   * that term is angVelo x r for every r, including (0, 0).
   */
  function PointVelocity(vel: Vec, angVelo: real, r: Vec): Vec {
    Add(vel, Vec(-angVelo * r.y, angVelo * r.x))
  }

  /** Its component along n is the linear part plus angVelo times r x n. */
  lemma PointVelocityNormal(vel: Vec, angVelo: real, r: Vec, n: Vec)
    ensures Dot(PointVelocity(vel, angVelo, r), n) == Dot(vel, n) + angVelo * Cross(r, n)
  {
    AngularDot(vel, angVelo, r, n);
  }

  lemma AngularDot(vel: Vec, w: real, r: Vec, n: Vec)
    ensures Dot(Add(vel, Vec(-w * r.y, w * r.x)), n) == Dot(vel, n) + w * Cross(r, n)
  {
    assert Dot(Add(vel, Vec(-w * r.y, w * r.x)), n)
        == vel.x * n.x + vel.y * n.y + w * (r.x * n.y - r.y * n.x);
  }

  /**
   * The index of the first vertex at or below the floor: y > Floor when
   * `strict`, y >= Floor otherwise; None when no vertex is.
   */
  function FirstOnFloor(ws: seq<Vec>, strict: bool): (r: Collision.Option<nat>)
    ensures r.None? <==> forall i :: 0 <= i < |ws| ==> !Below(ws[i], strict)
    ensures r.Some? ==> r.value < |ws| && Below(ws[r.value], strict)
                        && forall i :: 0 <= i < r.value ==> !Below(ws[i], strict)
  {
    if ws == [] then Collision.None
    else if Below(ws[0], strict) then Collision.Some(0)
    else
      match FirstOnFloor(ws[1..], strict)
      case None => Collision.None
      case Some(k) => Collision.Some(k + 1)
  }

  predicate Below(w: Vec, strict: bool) {
    if strict then w.y > Floor else w.y >= Floor
  }

  /** The body's linear and angular velocity. */
  datatype Motion = Motion(vel: Vec, angVelo: real)

  /**
   * The impulse magnitude -(1 + cr) vn / (1/m + c^2/I) for a normal
   * velocity vn and lever c = r x n: times the effective inverse mass it
   * cancels (1 + cr) vn.
   */
  function ImpulseMagnitude(vn: real, c: real, mass: real, im: real, cr: real): (j: real)
    requires mass > 0.0 && im > 0.0
    ensures j * (1.0 / mass + c * c / im) == -(1.0 + cr) * vn
  {
    var d := 1.0 / mass + c * c / im;
    PositiveDenominator(mass, c, im);
    DivCancel(-(1.0 + cr) * vn, d);
    -(1.0 + cr) * vn / d
  }

  /**
   * The single-body impulse at offset r along the normal n:
   * j = -(1 + cr) (vp . n) / (1/m + (r x n)^2 / I), then vel += n j / m and
   * angVelo += (r x n) j / I.
   */
  function Impulse(m: Motion, mass: real, im: real, r: Vec, n: Vec, cr: real): (res: Motion)
    requires mass > 0.0 && im > 0.0
  {
    var vp := PointVelocity(m.vel, m.angVelo, r);
    var c := Cross(r, n);
    var impulse := ImpulseMagnitude(Dot(vp, n), c, mass, im, cr);
    Motion(Add(m.vel, Scale(n, impulse / mass)), m.angVelo + c * impulse / im)
  }

  /** The floor impulse of both demos: the impulse along (0, -1).  Only the vertical velocity changes. */
  function FloorImpulse(m: Motion, mass: real, im: real, r: Vec, cr: real): (res: Motion)
    requires mass > 0.0 && im > 0.0
    ensures res.vel.x == m.vel.x
  {
    Impulse(m, mass, im, r, FloorNormal, cr)
  }

  /**
   * The restitution law: afterwards the contact point's velocity along the
   * floor normal is -cr times what it was before.
   */
  lemma FloorRestitution(m: Motion, mass: real, im: real, r: Vec, cr: real)
    requires mass > 0.0 && im > 0.0
    ensures var after := FloorImpulse(m, mass, im, r, cr);
            Dot(PointVelocity(after.vel, after.angVelo, r), FloorNormal)
              == -cr * Dot(PointVelocity(m.vel, m.angVelo, r), FloorNormal)
  {
    ImpulseRestitution(m, mass, im, r, FloorNormal, cr);
  }

  /** The restitution law holds along every unit normal. */
  lemma ImpulseRestitution(m: Motion, mass: real, im: real, r: Vec, n: Vec, cr: real)
    requires mass > 0.0 && im > 0.0
    requires Dot(n, n) == 1.0
    ensures var after := Impulse(m, mass, im, r, n, cr);
            Dot(PointVelocity(after.vel, after.angVelo, r), n)
              == -cr * Dot(PointVelocity(m.vel, m.angVelo, r), n)
  {
    var vn := Dot(PointVelocity(m.vel, m.angVelo, r), n);
    var j := ImpulseMagnitude(vn, Cross(r, n), mass, im, cr);
    ImpulseShape(m, mass, im, r, n, cr, j, Impulse(m, mass, im, r, n, cr));
    PointVelocityNormal(m.vel, m.angVelo, r, n);
    PointVelocityNormal(Impulse(m, mass, im, r, n, cr).vel, Impulse(m, mass, im, r, n, cr).angVelo, r, n);
    SpeedAlong(m.vel, n, j / mass);
    FloorLaw(vn, Dot(m.vel, n), m.angVelo, j, mass, im, Cross(r, n), cr,
             Dot(PointVelocity(Impulse(m, mass, im, r, n, cr).vel, Impulse(m, mass, im, r, n, cr).angVelo, r), n),
             Dot(Impulse(m, mass, im, r, n, cr).vel, n), Impulse(m, mass, im, r, n, cr).angVelo);
  }

  /** The impulse written with its magnitude j named. */
  lemma ImpulseShape(m: Motion, mass: real, im: real, r: Vec, n: Vec, cr: real, j: real, after: Motion)
    requires mass > 0.0 && im > 0.0
    requires j == ImpulseMagnitude(Dot(PointVelocity(m.vel, m.angVelo, r), n), Cross(r, n), mass, im, cr)
    requires after == Impulse(m, mass, im, r, n, cr)
    ensures after.vel == Add(m.vel, Scale(n, j / mass))
    ensures after.angVelo == m.angVelo + Cross(r, n) * j / im
  {
  }

  /** Moving by k along a unit n adds k to the velocity along n. */
  lemma SpeedAlong(v: Vec, n: Vec, k: real)
    requires Dot(n, n) == 1.0
    ensures Dot(Add(v, Scale(n, k)), n) == Dot(v, n) + k
  {
    DotSymmetric(v, n, Scale(n, k), k);
    DotSymmetric(n, n, n, k);
  }

  /**
   * The scalar core of the restitution law: the speed s afterwards is the
   * new linear part plus the new angular velocity times the lever c.
   */
  lemma FloorLaw(vn: real, linear: real, w: real, j: real, mass: real, im: real, c: real, cr: real,
                 s: real, linear2: real, w2: real)
    requires mass != 0.0 && im != 0.0
    requires vn == linear + w * c
    requires j * (1.0 / mass + c * c / im) == -(1.0 + cr) * vn
    requires s == linear2 + w2 * c && linear2 == linear + j / mass && w2 == w + c * j / im
    ensures s == -cr * vn
  {
    SumOfShares(j, mass, c * c, im);
    assert (w + c * j / im) * c == w * c + c * c * j / im;
  }

  /** j/m + k j/I == j (1/m + k/I). */
  lemma SumOfShares(j: real, m: real, k: real, i: real)
    requires m != 0.0 && i != 0.0
    ensures j / m + k * j / i == j * (1.0 / m + k / i)
  {
  }

  /** 1/m + c^2/I is positive for positive m and I. */
  lemma PositiveDenominator(m: real, c: real, i: real)
    requires m > 0.0 && i > 0.0
    ensures 1.0 / m + c * c / i > 0.0
  {
    if c < 0.0 {
      assert c * c == (-c) * (-c);
    }
    assert c * c >= 0.0;
    assert c * c / i >= 0.0;
  }

  /**
   * The floor contact of both demos: the first vertex whose world position
   * is below the floor (strictly when `strict`) is lifted exactly onto the
   * floor by changing pos.y only, and the floor impulse with restitution
   * cr is applied at its arm.  Without such a vertex nothing changes.
   */
  function FloorBounce(p: Polygon, strict: bool, cr: real): (q: Polygon)
    requires p.mass > 0.0 && p.im > 0.0
    ensures FirstOnFloor(Worlds(p), strict).None? ==> q == p
    ensures FirstOnFloor(Worlds(p), strict).Some? ==>
              var j := FirstOnFloor(Worlds(p), strict).value;
              q == p.(pos := q.pos, vel := q.vel, angVelo := q.angVelo)
              && World(q, j).y == Floor && q.pos.x == p.pos.x
  {
    match FirstOnFloor(Worlds(p), strict)
    case None => p
    case Some(j) =>
      var rv := Rotate(p.vertices[j], p.theta);
      var m := FloorImpulse(Motion(p.vel, p.angVelo), p.mass, p.im, rv, cr);
      p.(pos := Vec(p.pos.x, p.pos.y - (p.pos.y + rv.y - Floor)), vel := m.vel, angVelo := m.angVelo)
  }

  /**
   * After the floor contact the contact vertex's velocity along the floor
   * normal is -cr times what it was before.
   */
  lemma FloorBounceRestitution(p: Polygon, strict: bool, cr: real)
    requires p.mass > 0.0 && p.im > 0.0
    requires FirstOnFloor(Worlds(p), strict).Some?
    ensures var j := FirstOnFloor(Worlds(p), strict).value;
            var q := FloorBounce(p, strict, cr);
            Dot(PointVelocity(q.vel, q.angVelo, Rotate(p.vertices[j], p.theta)), FloorNormal)
              == -cr * Dot(PointVelocity(p.vel, p.angVelo, Rotate(p.vertices[j], p.theta)), FloorNormal)
  {
    var j := FirstOnFloor(Worlds(p), strict).value;
    FloorRestitution(Motion(p.vel, p.angVelo), p.mass, p.im, Rotate(p.vertices[j], p.theta), cr);
  }
}
