/**
 * The ball demo: balls of radius r and mass m in a 1024 x 640 box.  Each
 * physics step a ball bounces off the floor and the side walls, resolves
 * its overlaps with the balls the quadtree query returned for it (the
 * elastic exchange of module Elastic), and then integrates position,
 * friction -0.2 vel and weight (0, m g) with g = 10.
 */
module BallPhysics {
  import opened CMath
  import opened Vec2
  import Elastic
  import Accumulator
  import opened Sums

  const W: real := 1024.0
  const H: real := 640.0

  /** Ball::g. */
  const G: real := 10.0

  const FixedTimeStep: real := 1.0 / 6.0

  datatype Ball = Ball(pos: Vec, vel: Vec, force: Vec, acc: Vec, mass: real, radius: real)

  /** The fields no collision touches. */
  predicate Like(a: Ball, b: Ball) {
    a.mass == b.mass && a.radius == b.radius && a.acc == b.acc && a.force == b.force
  }

  function Momentum(b: Ball): Vec {
    Scale(b.vel, b.mass)
  }

  function Position(b: Ball): Vec {
    b.pos
  }

  predicate HitsFloor(b: Ball) {
    b.pos.y + b.radius > H
  }

  /** The ball lies within the floor and both side walls. */
  predicate InBox(b: Ball) {
    b.pos.y + b.radius <= H && b.pos.x - b.radius >= 0.0 && b.pos.x + b.radius <= W
  }

  /**
   * checkWallBounce: three tests in sequence.  Below the floor the ball is
   * put on it, vel.y is reversed and scaled by 0.8, and the weight
   * (0, m g) is taken off the force.  Past the left wall it is put against
   * it with vel.x times -0.3; then, on the updated position, the same for
   * the right wall.
   */
  function CheckWallBounce(b: Ball): (r: Ball)
    ensures r.mass == b.mass && r.radius == b.radius && r.acc == b.acc
    ensures r.pos.y + r.radius <= H
    ensures 0.0 <= b.radius <= W / 2.0 ==> r.pos.x - r.radius >= 0.0 && r.pos.x + r.radius <= W
    ensures HitsFloor(b) ==> r.pos.y == H - b.radius && r.vel.y == -0.8 * b.vel.y
                             && r.force == Sub(b.force, Vec(0.0, b.mass * G))
    ensures b.pos.x - b.radius < 0.0 && b.radius <= W / 2.0 ==> r.pos.x == b.radius && r.vel.x == -0.3 * b.vel.x
    ensures b.pos.x - b.radius >= 0.0 && b.pos.x + b.radius > W ==> r.pos.x == W - b.radius && r.vel.x == -0.3 * b.vel.x
    ensures b.pos.x - b.radius >= 0.0 && b.pos.x + b.radius <= W ==> r.pos.x == b.pos.x && r.vel.x == b.vel.x
    ensures !HitsFloor(b) ==> r.pos.y == b.pos.y && r.vel.y == b.vel.y && r.force == b.force
  {
    RightWall(LeftWall(Floor(b)))
  }

  function Floor(b: Ball): Ball {
    if b.pos.y + b.radius > H then
      b.(pos := Vec(b.pos.x, H - b.radius), vel := Vec(b.vel.x, b.vel.y * -0.8), force := Sub(b.force, Vec(0.0, b.mass * G)))
    else b
  }

  function LeftWall(b: Ball): Ball {
    if b.pos.x - b.radius < 0.0 then b.(pos := Vec(b.radius, b.pos.y), vel := Vec(b.vel.x * -0.3, b.vel.y)) else b
  }

  function RightWall(b: Ball): Ball {
    if b.pos.x + b.radius > W then b.(pos := Vec(W - b.radius, b.pos.y), vel := Vec(b.vel.x * -0.3, b.vel.y)) else b
  }

  /** A ball inside the box is left exactly as it is. */
  lemma InBoxUnchanged(b: Ball)
    requires InBox(b)
    ensures CheckWallBounce(b) == b
  {
  }

  /**
   * So the bounce is idempotent for a ball that fits between the side
   * walls: the first check puts it inside the box, and the second changes
   * nothing.
   */
  lemma CheckWallBounceIdempotent(b: Ball)
    requires 0.0 <= b.radius <= W / 2.0
    ensures CheckWallBounce(CheckWallBounce(b)) == CheckWallBounce(b)
  {
    InBoxUnchanged(CheckWallBounce(b));
  }

  /**
   * A ball wider than the box past the left wall is bounced twice: put
   * against the left wall, it is then past the right one, ends at W - r
   * and keeps 0.09 of its horizontal speed, with the sign unchanged.
   */
  lemma WideBallBouncesTwice(b: Ball)
    requires b.radius > W / 2.0 && b.pos.x - b.radius < 0.0
    ensures CheckWallBounce(b).pos.x == W - b.radius
    ensures CheckWallBounce(b).vel.x == 0.09 * b.vel.x
  {
  }

  function AsDisc(b: Ball): Elastic.Disc {
    Elastic.Disc(b.pos, b.vel, b.mass)
  }

  /** The contact normal: the normalised direction from a's centre to b's. */
  function Normal(a: Ball, b: Ball): Vec
    requires HypotExact()
  {
    Normalize(Sub(b.pos, a.pos))
  }

  predicate Overlap(a: Ball, b: Ball)
    requires HypotExact()
  {
    Length(Sub(b.pos, a.pos)) < a.radius + b.radius
  }

  /** Half the overlap along the normal: how far each ball is pushed. */
  function Displacement(a: Ball, b: Ball): Vec
    requires HypotExact()
  {
    Scale(Normal(a, b), (a.radius + b.radius - Length(Sub(b.pos, a.pos))) * 0.5)
  }

  /**
   * One pair of ballToBallCollision: when the centres are closer than the
   * sum of the radii, the balls are pushed apart along the normal by half
   * the overlap each and the elastic exchange is applied.  Only positions
   * and velocities change; the sum of positions is kept.
   */
  function Collision(a: Ball, b: Ball): (r: (Ball, Ball))
    requires HypotExact() && a.mass + b.mass != 0.0
    ensures r.0 == a.(pos := r.0.pos, vel := r.0.vel) && r.1 == b.(pos := r.1.pos, vel := r.1.vel)
    ensures Add(r.0.pos, r.1.pos) == Add(a.pos, b.pos)
    ensures !Overlap(a, b) ==> r == (a, b)
  {
    if Overlap(a, b) then
      var c := Elastic.Collide(AsDisc(a), AsDisc(b), Normal(a, b), Displacement(a, b));
      (a.(pos := c.0.pos, vel := c.0.vel), b.(pos := c.1.pos, vel := c.1.vel))
    else (a, b)
  }

  /** Every pair step conserves the momentum m1 v1 + m2 v2. */
  lemma CollisionConservesMomentum(a: Ball, b: Ball)
    requires HypotExact() && a.mass + b.mass != 0.0
    ensures Add(Momentum(Collision(a, b).0), Momentum(Collision(a, b).1)) == Add(Momentum(a), Momentum(b))
  {
    if a.pos == b.pos {
      CoincidentCentresPassThrough(a, b);
    } else if Overlap(a, b) {
      ContactConservesMomentum(a, b);
    }
  }

  lemma ContactConservesMomentum(a: Ball, b: Ball)
    requires HypotExact() && a.mass + b.mass != 0.0
    requires Overlap(a, b) && a.pos != b.pos
    ensures Add(Momentum(Collision(a, b).0), Momentum(Collision(a, b).1)) == Add(Momentum(a), Momentum(b))
  {
    assert Sub(b.pos, a.pos) != Zero;
    var c := Elastic.Collide(AsDisc(a), AsDisc(b), Normal(a, b), Displacement(a, b));
    Elastic.CollideConservesMomentum(AsDisc(a), AsDisc(b), Normal(a, b), Displacement(a, b));
    assert Momentum(Collision(a, b).0) == Elastic.Momentum(c.0);
    assert Momentum(Collision(a, b).1) == Elastic.Momentum(c.1);
  }

  /**
   * For distinct centres in contact, the tangential velocities are kept
   * and the normal speeds are the elastic exchange of the old ones.
   */
  lemma CollisionVelocities(a: Ball, b: Ball)
    requires HypotExact() && a.mass + b.mass != 0.0
    requires Overlap(a, b) && a.pos != b.pos
    ensures var n := Normal(a, b);
            && Elastic.Tangent(Collision(a, b).0.vel, n) == Elastic.Tangent(a.vel, n)
            && Elastic.Tangent(Collision(a, b).1.vel, n) == Elastic.Tangent(b.vel, n)
            && Dot(Collision(a, b).0.vel, n) == Elastic.Exchange(a.mass, b.mass, Dot(a.vel, n), Dot(b.vel, n)).0
            && Dot(Collision(a, b).1.vel, n) == Elastic.Exchange(a.mass, b.mass, Dot(a.vel, n), Dot(b.vel, n)).1
  {
    assert Sub(b.pos, a.pos) != Zero;
    Elastic.CollideVelocities(AsDisc(a), AsDisc(b), Normal(a, b), Displacement(a, b));
  }

  /** Equal masses in contact swap their normal speeds. */
  lemma CollisionEqualMassesSwap(a: Ball, b: Ball)
    requires HypotExact() && a.mass == b.mass && a.mass + b.mass != 0.0
    requires Overlap(a, b) && a.pos != b.pos
    ensures Dot(Collision(a, b).0.vel, Normal(a, b)) == Dot(b.vel, Normal(a, b))
    ensures Dot(Collision(a, b).1.vel, Normal(a, b)) == Dot(a.vel, Normal(a, b))
  {
    CollisionVelocities(a, b);
  }

  /**
   * After the correction two overlapping balls with distinct centres are
   * exactly r1 + r2 apart.
   */
  lemma CollisionSeparates(a: Ball, b: Ball)
    requires HypotExact() && a.mass + b.mass != 0.0
    requires Overlap(a, b) && a.pos != b.pos
    ensures Length(Sub(Collision(a, b).1.pos, Collision(a, b).0.pos)) == a.radius + b.radius
  {
    var dist := Sub(b.pos, a.pos);
    var dl := Length(dist);
    var maxRadius := a.radius + b.radius;
    LengthZero(dist);
    assert dist != Zero;
    assert Normalize(dist) == Scale(dist, 1.0 / dl);
    assert Scale(Scale(Scale(dist, 1.0 / dl), (maxRadius - dl) * 0.5), 2.0) == Scale(Scale(dist, 1.0 / dl), maxRadius - dl);
    Elastic.SeparationAfter(dist, dl, maxRadius);
  }

  /**
   * Two balls with the same centre overlap but normalize yields (0, 0):
   * neither is moved and no velocity changes.
   */
  lemma CoincidentCentresPassThrough(a: Ball, b: Ball)
    requires HypotExact() && a.mass + b.mass != 0.0
    requires a.pos == b.pos
    ensures Collision(a, b) == (a, b)
  {
    assert Sub(b.pos, a.pos) == Zero;
    if Overlap(a, b) {
      assert Normal(a, b) == Zero;
      assert Displacement(a, b) == Zero;
      Elastic.CollideAtRest(AsDisc(a), AsDisc(b), Normal(a, b), Displacement(a, b));
    }
  }

  predicate Massive(bs: seq<Ball>) {
    forall k :: 0 <= k < |bs| ==> bs[k].mass > 0.0
  }

  /** The collision of balls i and j written back into the list. */
  function PairStep(bs: seq<Ball>, i: int, j: int): (r: seq<Ball>)
    requires HypotExact() && Massive(bs)
    requires 0 <= i < |bs| && 0 <= j < |bs| && i != j
    ensures |r| == |bs| && Massive(r)
    ensures forall k :: 0 <= k < |bs| ==> Like(r[k], bs[k]) && (k != i && k != j ==> r[k] == bs[k])
  {
    var c := Collision(bs[i], bs[j]);
    bs[i := c.0][j := c.1]
  }

  /** A pair step keeps the total of positions and the total momentum. */
  lemma PairStepKeepsTotals(bs: seq<Ball>, i: int, j: int)
    requires HypotExact() && Massive(bs)
    requires 0 <= i < |bs| && 0 <= j < |bs| && i != j
    ensures Total(PairStep(bs, i, j), Position) == Total(bs, Position)
    ensures Total(PairStep(bs, i, j), Momentum) == Total(bs, Momentum)
  {
    var c := Collision(bs[i], bs[j]);
    PairKeepsTotal(bs, i, j, c.0, c.1, Position);
    CollisionConservesMomentum(bs[i], bs[j]);
    PairKeepsTotal(bs, i, j, c.0, c.1, Momentum);
  }

  /**
   * ballToBallCollision of ball i against the balls the range query
   * returned (as indices, possibly repeated), skipping ball i itself.  The
   * sum of all positions and the total momentum are kept, no mass, radius
   * or acceleration changes, and only ball i and the returned balls move.
   */
  /**
   * Ball i resolved in turn against each ball of its ranged list, skipping
   * itself: the pass Ball::ballToBallCollision runs.
   */
  function Collisions(balls: seq<Ball>, i: int, ranged: seq<int>): (r: seq<Ball>)
    requires HypotExact() && Massive(balls)
    requires 0 <= i < |balls|
    requires forall k :: 0 <= k < |ranged| ==> 0 <= ranged[k] < |balls|
    ensures |r| == |balls| && Massive(r)
    ensures forall k :: 0 <= k < |r| ==> Like(r[k], balls[k])
    decreases |ranged|
  {
    if ranged == [] then balls
    else
      var prev := Collisions(balls, i, ranged[..|ranged| - 1]);
      var j := ranged[|ranged| - 1];
      if j != i then PairStep(prev, i, j) else prev
  }

  /** With no other ball in range the collision pass leaves the list as it is. */
  lemma {:induction false} AloneUntouched(balls: seq<Ball>, i: int, ranged: seq<int>)
    requires HypotExact() && Massive(balls)
    requires 0 <= i < |balls|
    requires forall k :: 0 <= k < |ranged| ==> ranged[k] == i
    ensures Collisions(balls, i, ranged) == balls
    decreases |ranged|
  {
    if ranged != [] {
      AloneUntouched(balls, i, ranged[..|ranged| - 1]);
    }
  }

  method BallToBallCollision(balls: seq<Ball>, i: int, ranged: seq<int>) returns (r: seq<Ball>)
    requires HypotExact() && Massive(balls)
    requires 0 <= i < |balls|
    requires forall k :: 0 <= k < |ranged| ==> 0 <= ranged[k] < |balls|
    ensures |r| == |balls|
    ensures forall k :: 0 <= k < |r| ==> Like(r[k], balls[k])
    ensures forall k :: 0 <= k < |r| && k != i && k !in ranged ==> r[k] == balls[k]
    ensures Total(r, Position) == Total(balls, Position)
    ensures Total(r, Momentum) == Total(balls, Momentum)
    ensures r == Collisions(balls, i, ranged)
  {
    r := balls;
    for n := 0 to |ranged|
      invariant |r| == |balls| && Massive(r)
      invariant r == Collisions(balls, i, ranged[..n])
      invariant forall k :: 0 <= k < |r| ==> Like(r[k], balls[k])
      invariant forall k :: 0 <= k < |r| && k != i && k !in ranged[..n] ==> r[k] == balls[k]
      invariant Total(r, Position) == Total(balls, Position)
      invariant Total(r, Momentum) == Total(balls, Momentum)
    {
      assert ranged[..n + 1][..n] == ranged[..n];
      var j := ranged[n];
      if j != i {
        PairStepKeepsTotals(r, i, j);
        r := PairStep(r, i, j);
      }
    }
    assert ranged[..|ranged|] == ranged;
  }

  /**
   * The force step of Ball::update: pos += vel dt, then force += weight +
   * friction, acc = force (1/m) and vel += acc dt.
   */
  function Integrate(b: Ball, dt: real): (r: Ball)
    requires b.mass != 0.0
    ensures r.mass == b.mass && r.radius == b.radius
    ensures r.pos == Add(b.pos, Scale(b.vel, dt))
    ensures r.vel == Add(b.vel, Scale(r.acc, dt))
  {
    var pos := Add(b.pos, Scale(b.vel, dt));
    var friction := Scale(b.vel, -0.2);
    var weight := Vec(0.0, b.mass * G);
    var force := Add(b.force, Add(weight, friction));
    var acc := Scale(force, 1.0 / b.mass);
    b.(pos := pos, force := force, acc := acc, vel := Add(b.vel, Scale(acc, dt)))
  }

  /**
   * Ball::update of ball i: reset the force, bounce off the walls, collide
   * with the ranged balls, then the force step.  The velocity the force
   * step saw is returned as `v`.  In a step where the ball hit the floor
   * the bounce has taken the weight off the force again, so the force is
   * friction alone and the acceleration -0.2 v / m; otherwise it is
   * (0, g) - 0.2 v / m.
   */
  method Update(balls: seq<Ball>, i: int, ranged: seq<int>, dt: real) returns (r: seq<Ball>, v: Vec)
    requires HypotExact() && Massive(balls)
    requires 0 <= i < |balls|
    requires forall k :: 0 <= k < |ranged| ==> 0 <= ranged[k] < |balls|
    ensures |r| == |balls|
    ensures forall k :: 0 <= k < |r| ==> r[k].mass == balls[k].mass && r[k].radius == balls[k].radius
    ensures forall k :: 0 <= k < |r| && k != i && k !in ranged ==> r[k] == balls[k]
    ensures r[i].force == Add(if HitsFloor(balls[i]) then Zero else Vec(0.0, balls[i].mass * G), Scale(v, -0.2))
    ensures r[i].acc == Add(if HitsFloor(balls[i]) then Zero else Vec(0.0, G), Scale(v, -0.2 / balls[i].mass))
    ensures r[i].vel == Add(v, Scale(r[i].acc, dt))
    ensures var c := Collisions(balls[i := CheckWallBounce(balls[i].(force := Zero))], i, ranged);
      v == c[i].vel && r[i].pos == Add(c[i].pos, Scale(v, dt)) && r == c[i := Integrate(c[i], dt)]
  {
    var b := CheckWallBounce(balls[i].(force := Zero));
    r := balls[i := b];
    r := BallToBallCollision(r, i, ranged);
    v := r[i].vel;
    ForceLaw(r[i], HitsFloor(balls[i]), dt);
    r := r[i := Integrate(r[i], dt)];
  }

  /**
   * The force and acceleration of the force step, given that the force
   * before it is minus the weight (floor hit) or zero: the mass cancels.
   */
  lemma ForceLaw(b: Ball, hit: bool, dt: real)
    requires b.mass != 0.0
    requires b.force == (if hit then Sub(Zero, Vec(0.0, b.mass * G)) else Zero)
    ensures Integrate(b, dt).force == Add(if hit then Zero else Vec(0.0, b.mass * G), Scale(b.vel, -0.2))
    ensures Integrate(b, dt).acc == Add(if hit then Zero else Vec(0.0, G), Scale(b.vel, -0.2 / b.mass))
  {
    assert b.mass * G * (1.0 / b.mass) == G;
    assert -0.2 * (1.0 / b.mass) == -0.2 / b.mass;
  }

  /**
   * The main loop's accumulator with the `>=` test: from a non-negative
   * accumulator it runs n steps with n * (1/6) <= acc < (n + 1) * (1/6)
   * and leaves acc - n / 6, which lies in [0, 1/6).
   */
  method Frame(acc0: real, ticks: nat) returns (acc: real, steps: nat)
    requires acc0 >= 0.0
    ensures acc == acc0 + Accumulator.FrameDt(ticks) - steps as real * FixedTimeStep
    ensures 0.0 <= acc < FixedTimeStep
    ensures steps as real * FixedTimeStep <= acc0 + Accumulator.FrameDt(ticks) < (steps + 1) as real * FixedTimeStep
  {
    acc, steps := Accumulator.Frame(acc0, ticks, FixedTimeStep, false);
    Accumulator.AtLeastCount(acc0 + Accumulator.FrameDt(ticks), FixedTimeStep);
  }
}
