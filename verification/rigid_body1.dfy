/**
 * The first rigid-body demo: one polygon falling onto the floor.  Its own
 * polygon type rotates the stored vertices when turned but keeps the
 * rotation angle at 0, so a world vertex is simply pos + vertex.  One update
 * moves the body, turns it, handles the first vertex at or below the floor
 * (lift onto the floor, impulse with cr = 0.4), then applies gravity 10 and
 * the angular damping torque -angVelo.
 */
module RigidBody1 {
  import opened CMath
  import opened Vec2
  import opened Polygons
  import opened RigidBody
  import Collision

  /** The coefficient of restitution of the floor contact. */
  const Cr: real := 0.4

  /** The gravitational acceleration of this demo. */
  const Gravity: real := 10.0

  /**
   * polygon::setRotation of this demo: the vertices are rotated in place and
   * the angle is reset to 0, so getRotation() always answers 0.
   */
  function SetRotation(p: Polygon, angle: real): (q: Polygon)
    ensures q.theta == 0.0 && |q.vertices| == |p.vertices|
    ensures forall i :: 0 <= i < |p.vertices| ==> q.vertices[i] == Rotate(p.vertices[i], angle)
    ensures q == p.(vertices := q.vertices, theta := 0.0)
  {
    p.(theta := 0.0, vertices := RotateAll(p.vertices, angle))
  }

  /** With angle 0 every world vertex is the position plus the stored vertex. */
  lemma UnrotatedWorlds(p: Polygon)
    requires TrigAtZero() && p.theta == 0.0
    ensures forall i :: 0 <= i < |p.vertices| ==> Worlds(p)[i] == Add(p.pos, p.vertices[i])
  {
    forall i | 0 <= i < |p.vertices|
      ensures Worlds(p)[i] == Add(p.pos, p.vertices[i])
    {
      RotateZero(p.vertices[i]);
    }
  }

  /** After a turn the body's world vertices are its position plus its rotated vertices. */
  lemma TurnedWorlds(p: Polygon, angle: real)
    requires TrigAtZero()
    ensures var q := SetRotation(p, angle);
            forall i :: 0 <= i < |p.vertices| ==> Worlds(q)[i] == Add(p.pos, Rotate(p.vertices[i], angle))
  {
    UnrotatedWorlds(SetRotation(p, angle));
  }

  /** The motion step: pos += vel dt, then the turn by angVelo dt. */
  function Move(p: Polygon, dt: real): (q: Polygon)
    ensures q.pos == Add(p.pos, Scale(p.vel, dt)) && q.theta == 0.0
    ensures q.vel == p.vel && q.angVelo == p.angVelo && q.mass == p.mass && q.im == p.im
    ensures q.vertices == RotateAll(p.vertices, p.angVelo * dt)
  {
    SetRotation(p.(pos := Add(p.pos, Scale(p.vel, dt))), p.angVelo * dt)
  }

  /**
   * The floor contact of this demo: the first vertex with world y >= 460 is
   * lifted onto the floor and the impulse with cr = 0.4 is applied there.
   */
  function Bounce(p: Polygon): (q: Polygon)
    requires p.mass > 0.0 && p.im > 0.0
    ensures q.mass == p.mass && q.im == p.im && q.vertices == p.vertices && q.theta == p.theta
  {
    FloorBounce(p, false, Cr)
  }

  /** Vertex j is the first, by index, whose position pos + vertex is at or below the floor. */
  predicate FirstAtFloor(p: Polygon, j: int) {
    && 0 <= j < |p.vertices| && Add(p.pos, p.vertices[j]).y >= Floor
    && forall i :: 0 <= i < j ==> Add(p.pos, p.vertices[i]).y < Floor
  }

  /** For a body with angle 0 the demo's search finds exactly that vertex. */
  lemma SearchFindsFirstAtFloor(p: Polygon, j: int)
    requires TrigAtZero() && p.theta == 0.0
    requires FirstAtFloor(p, j)
    ensures FirstOnFloor(Worlds(p), false) == Collision.Some(j)
  {
    UnrotatedWorlds(p);
    var ws := Worlds(p);
    assert Below(ws[j], false);
    assert forall i :: 0 <= i < j ==> !Below(ws[i], false);
    var r := FirstOnFloor(ws, false);
    assert r.Some? && r.value <= j;
  }

  /** With no vertex at or below the floor the contact step changes nothing. */
  lemma BounceMisses(p: Polygon)
    requires TrigAtZero()
    requires p.mass > 0.0 && p.im > 0.0 && p.theta == 0.0
    requires forall i :: 0 <= i < |p.vertices| ==> Add(p.pos, p.vertices[i]).y < Floor
    ensures Bounce(p) == p
  {
    UnrotatedWorlds(p);
    assert forall i :: 0 <= i < |Worlds(p)| ==> !Below(Worlds(p)[i], false);
  }

  /**
   * At the first vertex at or below the floor the contact step changes only
   * pos.y, vel and angVelo, and that vertex ends exactly on the floor.
   */
  lemma BounceLifts(p: Polygon, j: int)
    requires TrigAtZero()
    requires p.mass > 0.0 && p.im > 0.0 && p.theta == 0.0
    requires FirstAtFloor(p, j)
    ensures var q := Bounce(p);
            && q == p.(pos := q.pos, vel := q.vel, angVelo := q.angVelo)
            && q.pos.x == p.pos.x && Add(q.pos, q.vertices[j]).y == Floor
  {
    SearchFindsFirstAtFloor(p, j);
    UnrotatedWorlds(Bounce(p));
  }

  /**
   * The restitution law of the contact step: the contact vertex's velocity
   * along the floor normal becomes -0.4 times what it was.
   */
  lemma BounceRestitution(p: Polygon, j: int)
    requires TrigAtZero()
    requires p.mass > 0.0 && p.im > 0.0 && p.theta == 0.0
    requires FirstAtFloor(p, j)
    ensures var q := Bounce(p);
            Dot(PointVelocity(q.vel, q.angVelo, p.vertices[j]), FloorNormal)
              == -Cr * Dot(PointVelocity(p.vel, p.angVelo, p.vertices[j]), FloorNormal)
  {
    SearchFindsFirstAtFloor(p, j);
    RotateZero(p.vertices[j]);
    FloorBounceRestitution(p, false, Cr);
  }

  /**
   * The force step: force (0, 10 m) and torque 0 + -1 angVelo; the
   * acceleration force (1/m) and the angular acceleration torque / I are
   * applied for dt.  The force and torque are locals of the update, so the
   * body's own force, torque and acc members are untouched.
   */
  function Accelerate(p: Polygon, dt: real): (q: Polygon)
    requires p.mass > 0.0 && p.im > 0.0
    ensures q == p.(vel := q.vel, angVelo := q.angVelo)
  {
    var force := Vec(0.0, p.mass * Gravity);
    var torque := 0.0 + -1.0 * p.angVelo;
    var acc := Scale(force, 1.0 / p.mass);
    var alph := torque / p.im;
    p.(vel := Add(p.vel, Scale(acc, dt)), angVelo := p.angVelo + alph * dt)
  }

  /** The mass cancels: the force step adds exactly (0, 10) dt and (-angVelo / I) dt. */
  lemma AccelerateEffect(p: Polygon, dt: real)
    requires p.mass > 0.0 && p.im > 0.0
    ensures Accelerate(p, dt).vel == Add(p.vel, Scale(Vec(0.0, Gravity), dt))
    ensures Accelerate(p, dt).angVelo == p.angVelo + (-p.angVelo / p.im) * dt
  {
    MassCancels(p.mass);
  }

  lemma MassCancels(m: real)
    requires m > 0.0
    ensures m * Gravity * (1.0 / m) == Gravity
  {
  }

  /** update: move and turn, the floor contact, then the force step. */
  function Update(p: Polygon, dt: real): (q: Polygon)
    requires p.mass > 0.0 && p.im > 0.0
    ensures q.mass == p.mass && q.im == p.im && q.theta == 0.0
    ensures q.vertices == RotateAll(p.vertices, p.angVelo * dt)
  {
    Accelerate(Bounce(Move(p, dt)), dt)
  }

  /**
   * The contact test of an update sees the body after the move: vertex j of
   * the moved body is at p.pos + vel dt plus vertex j turned by angVelo dt.
   */
  lemma UpdateDetectsAfterMove(p: Polygon, dt: real)
    requires TrigAtZero()
    ensures forall j :: 0 <= j < |p.vertices| ==>
      Worlds(Move(p, dt))[j] == Add(Add(p.pos, Scale(p.vel, dt)), Rotate(p.vertices[j], p.angVelo * dt))
  {
    UnrotatedWorlds(Move(p, dt));
  }
}
