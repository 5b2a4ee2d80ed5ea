/**
 * The pool demo's physics world: a list of bodies, each a ball or a wall
 * segment.  One update moves every non-static body (stopping one slower
 * than 0.01), resolves every pair i < j whose first body is a non-static
 * ball and whose bounding boxes overlap strictly (ball-ball, then
 * ball-wall), and finally applies the drag -0.2 vel / m.
 *
 * The ball-ball resolution divides by the centre distance with no guard:
 * for two coincident centres the source computes NaN velocities.  The
 * model reports that outcome as None.
 */
module Eightball {
  import opened CMath
  import opened Vec2
  import Elastic
  import Accumulator

  const W: real := 1024.0
  const H: real := 578.0
  const FixedTimeStep: real := 1.0 / 240.0
  const DragFactor: real := 0.2
  const WallFriction: real := 0.9

  datatype Option<T> = None | Some(value: T)

  /** An axis-aligned box: top-left corner and size. */
  datatype AABB = AABB(pos: Vec, size: Vec)

  /**
   * AABB::intersect, which despite its name is closed containment: the
   * other box lies inside this one.
   */
  predicate Intersect(a: AABB, other: AABB) {
    && a.pos.x <= other.pos.x && a.pos.x + a.size.x >= other.pos.x + other.size.x
    && a.pos.y <= other.pos.y && a.pos.y + a.size.y >= other.pos.y + other.size.y
  }

  /** Containment is reflexive and transitive. */
  lemma IntersectPreorder(a: AABB, b: AABB, c: AABB)
    ensures Intersect(a, a)
    ensures Intersect(a, b) && Intersect(b, c) ==> Intersect(a, c)
  {
  }

  /** The broad-phase test of the update loop: strict overlap on both axes. */
  predicate Overlapping(b1: AABB, b2: AABB) {
    && b1.pos.x < b2.pos.x + b2.size.x && b1.pos.x + b1.size.x > b2.pos.x
    && b1.pos.y < b2.pos.y + b2.size.y && b1.pos.y + b1.size.y > b2.pos.y
  }

  /** The broad phase is symmetric, and boxes that only touch do not overlap. */
  lemma OverlappingSymmetric(b1: AABB, b2: AABB)
    ensures Overlapping(b1, b2) == Overlapping(b2, b1)
    ensures b1.pos.x + b1.size.x == b2.pos.x ==> !Overlapping(b1, b2)
  {
  }

  datatype WallPos = Inclined | Top | Bottom | Left | Right

  /** The two kinds of body: a ball of some radius, or a wall segment. */
  datatype Shape = Round(radius: real) | Segment(start: Vec, end: Vec, position: WallPos)

  datatype Body = Body(pos: Vec, vel: Vec, mass: real, isStatic: bool, shape: Shape)

  /** The fields no step of the update changes. */
  predicate Like(a: Body, b: Body) {
    a.mass == b.mass && a.isStatic == b.isStatic && a.shape == b.shape
  }

  /**
   * getBoundary: for a ball the 2r square centred on its position, for a
   * wall the box from start to end.
   */
  function Boundary(b: Body): (r: AABB)
    ensures b.shape.Round? ==> Add(r.pos, Scale(r.size, 0.5)) == b.pos && r.size.x == r.size.y == 2.0 * b.shape.radius
    ensures b.shape.Segment? ==> r.pos == b.shape.start && Add(r.pos, r.size) == b.shape.end
  {
    match b.shape
    case Round(radius) => AABB(Vec(b.pos.x - radius, b.pos.y - radius), Vec(radius * 2.0, radius * 2.0))
    case Segment(start, end, _) => AABB(start, Sub(end, start))
  }

  /**
   * The broad phase on two balls: their boxes overlap exactly when the
   * centres are closer than r1 + r2 on both axes.
   */
  lemma BallBoxesOverlap(a: Body, b: Body)
    requires a.shape.Round? && b.shape.Round?
    ensures Overlapping(Boundary(a), Boundary(b)) <==>
              var s := a.shape.radius + b.shape.radius;
              -s < b.pos.x - a.pos.x < s && -s < b.pos.y - a.pos.y < s
  {
  }

  /**
   * The position step for one body: a static body is skipped; any other
   * moves by vel dt and is stopped when its speed is below 0.01.
   */
  function Move(b: Body, dt: real): (r: Body)
    ensures Like(r, b)
    ensures b.isStatic ==> r == b
    ensures !b.isStatic ==> r.pos == Add(b.pos, Scale(b.vel, dt)) && (r.vel == b.vel || r.vel == Zero)
  {
    if b.isStatic then b
    else
      var moved := b.(pos := Add(b.pos, Scale(b.vel, dt)));
      if Length(b.vel) < 0.01 then moved.(vel := Zero) else moved
  }

  /**
   * A moving body slower than 0.01 ends the step at rest, a faster one
   * keeps its velocity, and a body at rest stays where it is.
   */
  lemma MoveStops(b: Body, dt: real)
    requires HypotExact()
    ensures !b.isStatic && Length(b.vel) < 0.01 ==> Move(b, dt).vel == Zero
    ensures !b.isStatic && Length(b.vel) >= 0.01 ==> Move(b, dt).vel == b.vel
    ensures b.vel == Zero ==> Move(b, dt) == b
  {
    LengthZero(b.vel);
  }

  function MoveAll(bs: seq<Body>, dt: real): (r: seq<Body>)
    ensures |r| == |bs|
    ensures forall k :: 0 <= k < |bs| ==> r[k] == Move(bs[k], dt)
  {
    seq(|bs|, k requires 0 <= k < |bs| => Move(bs[k], dt))
  }

  function AsDisc(b: Body): Elastic.Disc {
    Elastic.Disc(b.pos, b.vel, b.mass)
  }

  /** The centre-to-centre distance below which two balls are in contact. */
  function MaxRadius(a: Body, b: Body): real
    requires a.shape.Round? && b.shape.Round?
  {
    a.shape.radius + b.shape.radius
  }

  /** The contact normal: the centre difference times 1 / its length. */
  function Normal(a: Body, b: Body): Vec
    requires Length(Sub(b.pos, a.pos)) != 0.0
  {
    Scale(Sub(b.pos, a.pos), 1.0 / Length(Sub(b.pos, a.pos)))
  }

  /**
   * ballToBallCollisionResolve.  Nothing happens unless both bodies are
   * balls.  A static second ball whose centre is closer than half of
   * r1 + r2 stops the first ball.  Otherwise, closer than r1 + r2, the
   * balls are pushed apart along the normal by half the depth each, static
   * or not, and the elastic exchange is applied (the source writes each new
   * velocity as normal part plus tangent, the same vector).  With both
   * centres equal that branch divides by zero: None.
   */
  function BallToBall(b1: Body, b2: Body): (r: Option<(Body, Body)>)
    requires b1.mass > 0.0 && b2.mass > 0.0
    ensures r.Some? ==> Like(r.value.0, b1) && Like(r.value.1, b2)
    ensures r.Some? ==> Add(r.value.0.pos, r.value.1.pos) == Add(b1.pos, b2.pos)
    ensures r.None? ==> b1.shape.Round? && b2.shape.Round? && Length(Sub(b2.pos, b1.pos)) == 0.0
  {
    if !(b1.shape.Round? && b2.shape.Round?) then Some((b1, b2))
    else
      var dist := Sub(b2.pos, b1.pos);
      var distLen := Length(dist);
      var maxRadius := MaxRadius(b1, b2);
      if b2.isStatic && distLen < maxRadius * 0.5 then Some((b1.(vel := Scale(b1.vel, 0.0)), b2))
      else if distLen < maxRadius then
        if distLen == 0.0 then None
        else
          var normal := Scale(dist, 1.0 / distLen);
          var depth := maxRadius - distLen;
          var displ := Scale(Scale(normal, depth), 0.5);
          var c := Elastic.Collide(AsDisc(b1), AsDisc(b2), normal, displ);
          Some((b1.(pos := c.0.pos, vel := c.0.vel), b2.(pos := c.1.pos, vel := c.1.vel)))
      else Some((b1, b2))
  }

  /** Two balls in contact with distinct centres, outside the static stop. */
  predicate InContact(b1: Body, b2: Body) {
    && b1.shape.Round? && b2.shape.Round?
    && 0.0 < Length(Sub(b2.pos, b1.pos)) < MaxRadius(b1, b2)
    && !(b2.isStatic && Length(Sub(b2.pos, b1.pos)) < MaxRadius(b1, b2) * 0.5)
  }

  /** The normal of two distinct centres has unit length. */
  lemma UnitNormal(a: Body, b: Body)
    requires HypotExact() && Length(Sub(b.pos, a.pos)) != 0.0
    ensures Dot(Normal(a, b), Normal(a, b)) == 1.0
  {
    var d := Sub(b.pos, a.pos);
    LengthZero(d);
    LengthScale(d, 1.0 / Length(d));
    LengthSquared(Normal(a, b));
  }

  /** The static stop: only the first ball's velocity changes, and it becomes zero. */
  lemma StaticStop(b1: Body, b2: Body)
    requires b1.mass > 0.0 && b2.mass > 0.0
    requires b1.shape.Round? && b2.shape.Round? && b2.isStatic
    requires Length(Sub(b2.pos, b1.pos)) < MaxRadius(b1, b2) * 0.5
    ensures BallToBall(b1, b2) == Some((b1.(vel := Zero), b2))
  {
  }

  /**
   * In contact: momentum is conserved, tangential velocities are kept,
   * the normal speeds are exchanged elastically, and the centres end
   * exactly r1 + r2 apart.
   */
  lemma ContactLaws(b1: Body, b2: Body)
    requires HypotExact() && b1.mass > 0.0 && b2.mass > 0.0
    requires InContact(b1, b2)
    ensures BallToBall(b1, b2).Some?
    ensures var p := BallToBall(b1, b2).value;
            var n := Normal(b1, b2);
            && Add(Elastic.Momentum(AsDisc(p.0)), Elastic.Momentum(AsDisc(p.1))) == Add(Elastic.Momentum(AsDisc(b1)), Elastic.Momentum(AsDisc(b2)))
            && Elastic.Tangent(p.0.vel, n) == Elastic.Tangent(b1.vel, n)
            && Elastic.Tangent(p.1.vel, n) == Elastic.Tangent(b2.vel, n)
            && Dot(p.0.vel, n) == Elastic.Exchange(b1.mass, b2.mass, Dot(b1.vel, n), Dot(b2.vel, n)).0
            && Dot(p.1.vel, n) == Elastic.Exchange(b1.mass, b2.mass, Dot(b1.vel, n), Dot(b2.vel, n)).1
  {
    var n := Normal(b1, b2);
    var displ := Scale(Scale(n, MaxRadius(b1, b2) - Length(Sub(b2.pos, b1.pos))), 0.5);
    UnitNormal(b1, b2);
    Elastic.CollideConservesMomentum(AsDisc(b1), AsDisc(b2), n, displ);
    Elastic.CollideVelocities(AsDisc(b1), AsDisc(b2), n, displ);
  }

  /** In contact, equal masses swap their normal speeds. */
  lemma EqualMassesSwap(b1: Body, b2: Body)
    requires HypotExact() && b1.mass > 0.0 && b1.mass == b2.mass
    requires InContact(b1, b2)
    ensures Dot(BallToBall(b1, b2).value.0.vel, Normal(b1, b2)) == Dot(b2.vel, Normal(b1, b2))
    ensures Dot(BallToBall(b1, b2).value.1.vel, Normal(b1, b2)) == Dot(b1.vel, Normal(b1, b2))
  {
    ContactLaws(b1, b2);
  }

  /**
   * In contact the centres end exactly r1 + r2 apart, and a static second
   * ball is moved like any other.
   */
  lemma ContactSeparates(b1: Body, b2: Body)
    requires HypotExact() && b1.mass > 0.0 && b2.mass > 0.0
    requires InContact(b1, b2)
    ensures BallToBall(b1, b2).Some?
    ensures Length(Sub(BallToBall(b1, b2).value.1.pos, BallToBall(b1, b2).value.0.pos)) == MaxRadius(b1, b2)
    ensures BallToBall(b1, b2).value.1.pos != b2.pos
  {
    var l := Length(Sub(b2.pos, b1.pos));
    var d := Scale(Normal(b1, b2), (MaxRadius(b1, b2) - l) * 0.5);
    ContactDisplacement(b1, b2);
    var p := BallToBall(b1, b2).value;
    assert p.0.pos == Sub(b1.pos, d) && p.1.pos == Add(b2.pos, d);
    PushApart(b1.pos, b2.pos, l, MaxRadius(b1, b2));
    assert Length(Sub(p.1.pos, p.0.pos)) == MaxRadius(b1, b2);
    MovedAway(b2.pos, d);
  }

  lemma MovedAway(b: Vec, d: Vec)
    requires d != Zero
    ensures Add(b, d) != b
  {
    assert d.x != 0.0 || d.y != 0.0;
  }

  /**
   * Moving a by -d and b by +d, with d half the depth maxRadius - l along
   * the unit direction from a to b, leaves them maxRadius apart, and d is
   * not zero.
   */
  lemma PushApart(a: Vec, b: Vec, l: real, maxRadius: real)
    requires HypotExact() && l == Length(Sub(b, a)) && 0.0 < l < maxRadius
    ensures var d := Scale(Scale(Sub(b, a), 1.0 / l), (maxRadius - l) * 0.5);
            Length(Sub(Add(b, d), Sub(a, d))) == maxRadius && d != Zero
  {
    var dist := Sub(b, a);
    var n := Scale(dist, 1.0 / l);
    var d := Scale(n, (maxRadius - l) * 0.5);
    assert Sub(Add(b, d), Sub(a, d)) == Add(dist, Scale(n, maxRadius - l));
    Elastic.SeparationAfter(dist, l, maxRadius);
    DisplacementNonZero(dist, l, maxRadius);
  }

  /** In contact each ball moves by half the depth along the normal. */
  lemma ContactDisplacement(b1: Body, b2: Body)
    requires HypotExact() && b1.mass > 0.0 && b2.mass > 0.0
    requires InContact(b1, b2)
    ensures BallToBall(b1, b2).Some?
    ensures var d := Scale(Normal(b1, b2), (MaxRadius(b1, b2) - Length(Sub(b2.pos, b1.pos))) * 0.5);
            && BallToBall(b1, b2).value.0.pos == Sub(b1.pos, d)
            && BallToBall(b1, b2).value.1.pos == Add(b2.pos, d)
  {
  }

  /** The push of a positive depth along the normal of distinct centres is not zero. */
  lemma DisplacementNonZero(dist: Vec, l: real, maxRadius: real)
    requires HypotExact() && l == Length(dist) && 0.0 < l < maxRadius
    ensures Scale(Scale(dist, 1.0 / l), (maxRadius - l) * 0.5) != Zero
  {
    LengthZero(dist);
    LengthScale(dist, 1.0 / l);
    LengthScale(Scale(dist, 1.0 / l), (maxRadius - l) * 0.5);
    LengthZero(Scale(Scale(dist, 1.0 / l), (maxRadius - l) * 0.5));
  }

  /** Two balls with the same centre, outside the static stop, leave the state undefined. */
  lemma CoincidentCentresUndefined(b1: Body, b2: Body)
    requires HypotExact() && b1.mass > 0.0 && b2.mass > 0.0
    requires b1.shape.Round? && b2.shape.Round? && MaxRadius(b1, b2) > 0.0
    requires b1.pos == b2.pos && !b2.isStatic
    ensures BallToBall(b1, b2).None?
  {
    LengthZero(Sub(b2.pos, b1.pos));
  }

  /**
   * ballToWallCollisionResolve for a ball b1: against a TOP, BOTTOM, LEFT
   * or RIGHT wall a penetrating ball is put back at the wall's start
   * coordinate plus or minus its radius, with that velocity component
   * times -0.9.  INCLINED walls and non-wall bodies do nothing.
   */
  function BallToWall(b1: Body, b2: Body): (r: Body)
    requires b1.shape.Round?
    ensures Like(r, b1)
    ensures !b2.shape.Segment? || b2.shape.position == Inclined ==> r == b1
    ensures b2.shape.Segment? && b2.shape.position in {Top, Bottom} ==> r.pos.x == b1.pos.x && r.vel.x == b1.vel.x
    ensures b2.shape.Segment? && b2.shape.position in {Left, Right} ==> r.pos.y == b1.pos.y && r.vel.y == b1.vel.y
    ensures b2.shape.Segment? ==> Clear(r, b2)
  {
    var rad := b1.shape.radius;
    match b2.shape
    case Round(_) => b1
    case Segment(start, _, position) =>
      match position
      case Top =>
        if b1.pos.y - rad < start.y then b1.(pos := Vec(b1.pos.x, start.y + rad), vel := Vec(b1.vel.x, b1.vel.y * -WallFriction)) else b1
      case Bottom =>
        if b1.pos.y + rad > start.y then b1.(pos := Vec(b1.pos.x, start.y - rad), vel := Vec(b1.vel.x, b1.vel.y * -WallFriction)) else b1
      case Left =>
        if b1.pos.x - rad < start.x then b1.(pos := Vec(start.x + rad, b1.pos.y), vel := Vec(b1.vel.x * -WallFriction, b1.vel.y)) else b1
      case Right =>
        if b1.pos.x + rad > start.x then b1.(pos := Vec(start.x - rad, b1.pos.y), vel := Vec(b1.vel.x * -WallFriction, b1.vel.y)) else b1
      case Inclined => b1
  }

  /** The ball does not penetrate the wall from the side the wall faces. */
  predicate Clear(b: Body, wall: Body)
    requires b.shape.Round? && wall.shape.Segment?
  {
    var rad := b.shape.radius;
    var start := wall.shape.start;
    match wall.shape.position
    case Top => b.pos.y - rad >= start.y
    case Bottom => b.pos.y + rad <= start.y
    case Left => b.pos.x - rad >= start.x
    case Right => b.pos.x + rad <= start.x
    case Inclined => true
  }

  /**
   * A ball clear of the wall is untouched; a penetrating one gets exactly
   * one velocity component scaled by -0.9.  So resolving twice is the same
   * as resolving once.
   */
  lemma BallToWallClamp(b1: Body, wall: Body)
    requires b1.shape.Round? && wall.shape.Segment?
    ensures Clear(b1, wall) ==> BallToWall(b1, wall) == b1
    ensures !Clear(b1, wall) && wall.shape.position in {Top, Bottom} ==> BallToWall(b1, wall).vel.y == -0.9 * b1.vel.y
    ensures !Clear(b1, wall) && wall.shape.position in {Left, Right} ==> BallToWall(b1, wall).vel.x == -0.9 * b1.vel.x
    ensures BallToWall(BallToWall(b1, wall), wall) == BallToWall(b1, wall)
  {
  }

  predicate Massive(bs: seq<Body>) {
    forall k :: 0 <= k < |bs| ==> bs[k].mass > 0.0
  }

  /** The first body of a pair the update resolves: a ball that is not static. */
  predicate Mover(b: Body) {
    b.shape.Round? && !b.isStatic
  }

  /**
   * The inner-loop body of the update for the pair (i, j): when the boxes
   * overlap strictly, ball-ball then ball-wall resolution.
   */
  function PairStep(bs: seq<Body>, i: int, j: int): (r: Option<seq<Body>>)
    requires Massive(bs) && 0 <= i < |bs| && 0 <= j < |bs| && i != j && Mover(bs[i])
    ensures r.Some? ==> |r.value| == |bs| && Massive(r.value)
    ensures r.Some? ==> forall k :: 0 <= k < |bs| ==> Like(r.value[k], bs[k]) && (k != i && k != j ==> r.value[k] == bs[k])
    ensures r.Some? && bs[j].shape.Segment? ==> r.value[j] == bs[j]
    ensures !Overlapping(Boundary(bs[i]), Boundary(bs[j])) ==> r == Some(bs)
  {
    if Overlapping(Boundary(bs[i]), Boundary(bs[j])) then
      match BallToBall(bs[i], bs[j])
      case None => None
      case Some(p) => Some(bs[i := BallToWall(p.0, p.1)][j := p.1])
    else Some(bs)
  }

  /** Every wall is left exactly as it was. */
  predicate WallsKept(r: seq<Body>, bs: seq<Body>)
    requires |r| == |bs|
  {
    forall k :: 0 <= k < |bs| && bs[k].shape.Segment? ==> r[k] == bs[k]
  }

  /**
   * The collision phase: every pair i < j whose first body is a
   * non-static ball, in order.  Unless it runs into coincident centres,
   * it keeps every body's mass, static flag and shape, and never changes
   * a wall.
   */
  method Collisions(bs: seq<Body>) returns (r: Option<seq<Body>>)
    requires Massive(bs)
    ensures r.Some? ==> |r.value| == |bs| && (forall k :: 0 <= k < |bs| ==> Like(r.value[k], bs[k]))
    ensures r.Some? ==> WallsKept(r.value, bs)
  {
    var cur := bs;
    for i := 0 to |bs|
      invariant |cur| == |bs| && Massive(cur)
      invariant forall k :: 0 <= k < |bs| ==> Like(cur[k], bs[k])
      invariant WallsKept(cur, bs)
    {
      if Mover(cur[i]) {
        for j := i + 1 to |bs|
          invariant |cur| == |bs| && Massive(cur)
          invariant forall k :: 0 <= k < |bs| ==> Like(cur[k], bs[k])
          invariant WallsKept(cur, bs)
        {
          var s := PairStep(cur, i, j);
          if s.None? {
            return None;
          }
          cur := s.value;
        }
      }
    }
    return Some(cur);
  }

  /** The drag step for one body: vel += (vel * -0.2) (1/m) dt, static bodies skipped. */
  function Drag(b: Body, dt: real): (r: Body)
    requires b.mass > 0.0
    ensures Like(r, b) && r.pos == b.pos
  {
    if b.isStatic then b
    else
      var force := Scale(b.vel, -DragFactor);
      var acc := Scale(force, 1.0 / b.mass);
      b.(vel := Add(b.vel, Scale(acc, dt)))
  }

  /** Drag scales the velocity by 1 - 0.2 dt / m: its direction is kept. */
  lemma DragScales(b: Body, dt: real)
    requires b.mass > 0.0 && !b.isStatic
    ensures Drag(b, dt).vel == Scale(b.vel, 1.0 - DragFactor * dt / b.mass)
    ensures Cross(Drag(b, dt).vel, b.vel) == 0.0
  {
    var k := 1.0 - DragFactor * dt / b.mass;
    assert -DragFactor * (1.0 / b.mass) * dt == k - 1.0;
    assert Cross(Scale(b.vel, k), b.vel) == k * Cross(b.vel, b.vel);
    CrossAntisymmetric(b.vel, b.vel);
  }

  function DragAll(bs: seq<Body>, dt: real): (r: seq<Body>)
    requires Massive(bs)
    ensures |r| == |bs|
    ensures forall k :: 0 <= k < |bs| ==> r[k] == Drag(bs[k], dt)
  {
    seq(|bs|, k requires 0 <= k < |bs| => Drag(bs[k], dt))
  }

  /**
   * PhysicsWorld::update: position step, collision phase, drag step.
   * Masses, static flags and shapes are kept, and static walls never move.
   */
  method Update(bs: seq<Body>, dt: real) returns (r: Option<seq<Body>>)
    requires Massive(bs)
    ensures r.Some? ==> |r.value| == |bs| && (forall k :: 0 <= k < |bs| ==> Like(r.value[k], bs[k]))
    ensures r.Some? ==> forall k :: 0 <= k < |bs| && bs[k].shape.Segment? && bs[k].isStatic ==> r.value[k] == bs[k]
  {
    var moved := MoveAll(bs, dt);
    var hit := Collisions(moved);
    if hit.None? {
      return None;
    }
    return Some(DragAll(hit.value, dt));
  }

  /**
   * animate's accumulator with the strict `>` test: the steps leave a
   * non-negative accumulator at most 1/240, and none runs when the
   * accumulated time is at most one step.
   */
  method Frame(acc0: real, ticks: nat) returns (acc: real, steps: nat)
    requires acc0 >= 0.0
    ensures acc == acc0 + Accumulator.FrameDt(ticks) - steps as real * FixedTimeStep
    ensures 0.0 <= acc <= FixedTimeStep
    ensures steps == 0 <==> acc0 + Accumulator.FrameDt(ticks) <= FixedTimeStep
  {
    acc, steps := Accumulator.Frame(acc0, ticks, FixedTimeStep, true);
    Accumulator.AboveCount(acc0 + Accumulator.FrameDt(ticks), FixedTimeStep);
  }
}
