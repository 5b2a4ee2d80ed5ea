/**
 * The Verlet-integration demo: particles that carry their previous position
 * instead of a velocity, sticks that hold pairs of them at a fixed distance,
 * and a box boundary with a damped, frictional bounce.  A physics step adds
 * gravity, integrates, and then runs five rounds of stick relaxation
 * followed by the boundary clamp.  The sticks hold indices into the
 * particle list where the demo holds pointers.
 */
module Verlet {
  import opened CMath
  import opened Vec2
  import opened Sums
  import Relaxation
  import Accumulator

  const W: real := 640.0
  const H: real := 480.0
  const FixedTimeStep: real := 1.0 / 60.0
  const G: real := 50.0
  const Damping: real := 0.98
  const GroundFriction: real := 0.85
  /** Relaxation rounds per physics step. */
  const SolverRounds: nat := 5

  datatype Particle = Particle(pos: Vec, lastPos: Vec, acc: Vec, radius: real, mass: real)

  datatype Stick = Stick(a: int, b: int, length: real)

  datatype AABB = AABB(pos: Vec, size: Vec)

  datatype World = World(vertices: seq<Particle>, sticks: seq<Stick>, boundary: AABB)

  predicate Massive(vs: seq<Particle>) {
    forall i :: 0 <= i < |vs| ==> vs[i].mass > 0.0
  }

  /** Every stick joins two existing particles. */
  predicate Links(sticks: seq<Stick>, n: int) {
    forall k :: 0 <= k < |sticks| ==> 0 <= sticks[k].a < n && 0 <= sticks[k].b < n
  }

  predicate Valid(w: World) {
    Massive(w.vertices) && Links(w.sticks, |w.vertices|)
  }

  /** Same particles up to position, previous position and acceleration. */
  predicate Like(r: seq<Particle>, vs: seq<Particle>) {
    |r| == |vs| && forall i :: 0 <= i < |r| ==> r[i].mass == vs[i].mass && r[i].radius == vs[i].radius
  }

  function Weighted(p: Particle): Vec {
    Scale(p.pos, p.mass)
  }

  /** The mass-weighted sum of positions, m1 * p1 + ... + mn * pn. */
  function Centre(vs: seq<Particle>): Vec {
    Total(vs, Weighted)
  }

  /**
   * PhysicsWorld::addStick: appends a stick between two existing particles;
   * the particles and the boundary are untouched and the world stays valid.
   */
  function AddStick(w: World, a: int, b: int, length: real): (r: World)
    requires 0 <= a < |w.vertices| && 0 <= b < |w.vertices|
    ensures r.vertices == w.vertices && r.boundary == w.boundary
    ensures |r.sticks| == |w.sticks| + 1 && r.sticks[..|w.sticks|] == w.sticks
    ensures r.sticks[|w.sticks|] == Stick(a, b, length)
    ensures Valid(w) ==> Valid(r)
  {
    World(w.vertices, w.sticks + [Stick(a, b, length)], w.boundary)
  }

  /** A particle created by the demo's createParticle: at rest, mass 1. */
  function NewParticle(x: real, y: real, radius: real): Particle {
    Particle(Vec(x, y), Vec(x, y), Zero, radius, 1.0)
  }

  /**
   * The initial world: one loose particle of radius 20 at a random place,
   * then a 50 x 50 square of particles 1..4 (particle 1 given an initial
   * downward motion by lastPos.y = -5) braced by four sides and two
   * diagonals.
   */
  function Init(rx: real, ry: real): (w: World)
    ensures Valid(w) && |w.vertices| == 5 && |w.sticks| == 6
    ensures w.boundary == AABB(Zero, Vec(W, H))
  {
    var vs := [NewParticle(rx, ry, 20.0), NewParticle(100.0, 0.0, 3.0).(lastPos := Vec(100.0, -5.0)),
               NewParticle(150.0, 0.0, 3.0), NewParticle(150.0, 50.0, 3.0), NewParticle(100.0, 50.0, 3.0)];
    var w0 := World(vs, [], AABB(Zero, Vec(W, H)));
    var w1 := AddStick(AddStick(AddStick(AddStick(w0, 1, 2, 50.0), 2, 3, 50.0), 3, 4, 50.0), 4, 1, 50.0);
    AddStick(AddStick(w1, 1, 3, hypot(50.0, 50.0)), 2, 4, hypot(50.0, 50.0))
  }

  /** Every stick of the initial square starts at its rest length. */
  lemma InitAtRest(rx: real, ry: real)
    requires HypotExact()
    ensures var w := Init(rx, ry);
            forall k :: 0 <= k < |w.sticks| ==>
              Length(Sub(w.vertices[w.sticks[k].b].pos, w.vertices[w.sticks[k].a].pos)) == w.sticks[k].length
  {
    InitShape(rx, ry);
    SquareLengths();
  }

  /** The sides and diagonals of the initial square. */
  lemma SquareLengths()
    requires HypotExact()
    ensures Length(Sub(Vec(150.0, 0.0), Vec(100.0, 0.0))) == 50.0
    ensures Length(Sub(Vec(150.0, 50.0), Vec(150.0, 0.0))) == 50.0
    ensures Length(Sub(Vec(100.0, 50.0), Vec(150.0, 50.0))) == 50.0
    ensures Length(Sub(Vec(100.0, 0.0), Vec(100.0, 50.0))) == 50.0
    ensures Length(Sub(Vec(150.0, 50.0), Vec(100.0, 0.0))) == hypot(50.0, 50.0)
    ensures Length(Sub(Vec(100.0, 50.0), Vec(150.0, 0.0))) == hypot(50.0, 50.0)
  {
    Side(50.0, 0.0);
    Side(0.0, 50.0);
    Side(-50.0, 0.0);
    Side(0.0, -50.0);
    HypotNegate(50.0, -50.0);
    HypotNegate(50.0, 50.0);
  }

  lemma InitShape(rx: real, ry: real)
    ensures var w := Init(rx, ry);
            && w.sticks == [Stick(1, 2, 50.0), Stick(2, 3, 50.0), Stick(3, 4, 50.0), Stick(4, 1, 50.0),
                            Stick(1, 3, hypot(50.0, 50.0)), Stick(2, 4, hypot(50.0, 50.0))]
            && w.vertices[1].pos == Vec(100.0, 0.0) && w.vertices[2].pos == Vec(150.0, 0.0)
            && w.vertices[3].pos == Vec(150.0, 50.0) && w.vertices[4].pos == Vec(100.0, 50.0)
  {
  }

  lemma Side(x: real, y: real)
    requires HypotExact()
    requires (x == 0.0 || y == 0.0) && x * x + y * y == 2500.0
    ensures hypot(x, y) == 50.0
  {
    RootUnique(hypot(x, y), 50.0);
  }

  /**
   * PhysicsWorld::calcAcceleration: adds the weight (0, m * g) divided by
   * m, so every particle gains exactly (0, g) whatever its mass.
   */
  function CalcAcceleration(vs: seq<Particle>): (r: seq<Particle>)
    requires Massive(vs)
    ensures |r| == |vs|
    ensures forall i :: 0 <= i < |r| ==> r[i] == vs[i].(acc := Add(vs[i].acc, Vec(0.0, G)))
  {
    seq(|vs|, i requires 0 <= i < |vs| =>
      var p := vs[i];
      Gain(p.mass);
      p.(acc := Add(p.acc, Scale(Vec(0.0, p.mass * G), 1.0 / p.mass))))
  }

  lemma Gain(m: real)
    requires m > 0.0
    ensures Scale(Vec(0.0, m * G), 1.0 / m) == Vec(0.0, G)
  {
    assert m * G * (1.0 / m) == G;
  }

  /**
   * One particle of PhysicsWorld::integratePosition: the implied velocity
   * pos - lastPos is damped by 0.98 and the acceleration adds acc * dt^2;
   * the old position becomes lastPos and the acceleration is cleared.
   */
  function Integrate(p: Particle, dt: real): (r: Particle)
    ensures r.lastPos == p.pos && r.acc == Zero
    ensures r.mass == p.mass && r.radius == p.radius
    ensures Sub(r.pos, r.lastPos) == Add(Scale(Sub(p.pos, p.lastPos), Damping), Scale(p.acc, dt * dt))
  {
    var vel := Scale(Sub(p.pos, p.lastPos), Damping);
    p.(pos := Add(p.pos, Add(vel, Scale(p.acc, dt * dt))), acc := Zero, lastPos := p.pos)
  }

  /** A particle at rest with no acceleration stays where it is. */
  lemma IntegrateAtRest(p: Particle, dt: real)
    requires p.pos == p.lastPos && p.acc == Zero
    ensures Integrate(p, dt) == p
  {
  }

  /** The demo's damping: with no acceleration, the implied velocity shrinks by 0.98 per step. */
  lemma IntegrateDamps(p: Particle, dt: real)
    requires p.acc == Zero
    ensures var r := Integrate(p, dt);
            Sub(r.pos, r.lastPos) == Scale(Sub(p.pos, p.lastPos), 0.98)
  {
  }

  function IntegrateAll(vs: seq<Particle>, dt: real): (r: seq<Particle>)
    ensures |r| == |vs|
    ensures forall i :: 0 <= i < |r| ==> r[i] == Integrate(vs[i], dt)
  {
    seq(|vs|, i requires 0 <= i < |vs| => Integrate(vs[i], dt))
  }

  /**
   * One stick of PhysicsWorld::solveConstraints: the end points move half
   * of the way to the stick's length, each by its inverse-mass share.
   * Only the two end points move, only their positions change, and the
   * mass-weighted centre is kept.
   */
  function StickStep(vs: seq<Particle>, s: Stick): (r: seq<Particle>)
    requires Massive(vs) && 0 <= s.a < |vs| && 0 <= s.b < |vs|
    ensures Like(r, vs) && Massive(r)
    ensures forall i :: 0 <= i < |r| ==> r[i].lastPos == vs[i].lastPos && r[i].acc == vs[i].acc
    ensures forall i :: 0 <= i < |r| && i != s.a && i != s.b ==> r[i] == vs[i]
  {
    var pa := vs[s.a];
    var pb := vs[s.b];
    var q := Relaxation.Relax(pa.pos, pa.mass, pb.pos, pb.mass, s.length, 0.5);
    vs[s.a := pa.(pos := q.0)][s.b := pb.(pos := q.1)]
  }

  /** One stick keeps the mass-weighted centre m1 * p1 + ... + mn * pn. */
  lemma StickKeepsCentre(vs: seq<Particle>, s: Stick)
    requires HypotExact()
    requires Massive(vs) && 0 <= s.a < |vs| && 0 <= s.b < |vs|
    ensures Centre(StickStep(vs, s)) == Centre(vs)
  {
    var pa := vs[s.a];
    var pb := vs[s.b];
    var q := Relaxation.Relax(pa.pos, pa.mass, pb.pos, pb.mass, s.length, 0.5);
    if s.a == s.b {
      Relaxation.RelaxCoincident(pa.pos, pa.mass, pa.mass, s.length, 0.5);
      assert StickStep(vs, s) == vs;
    } else {
      PairKeepsTotal(vs, s.a, s.b, pa.(pos := q.0), pb.(pos := q.1), Weighted);
    }
  }

  /**
   * A stick between distinct, separated end points: the separation is
   * rescaled to delta * (dist + length) / (2 * dist), which halves the
   * length error.
   */
  lemma StickHalvesError(vs: seq<Particle>, s: Stick)
    requires HypotExact()
    requires Massive(vs) && 0 <= s.a < |vs| && 0 <= s.b < |vs| && s.a != s.b
    requires vs[s.a].pos != vs[s.b].pos && s.length >= 0.0
    ensures var r := StickStep(vs, s);
            var delta := Sub(vs[s.b].pos, vs[s.a].pos);
            var dist := Length(delta);
            && Sub(r[s.b].pos, r[s.a].pos) == Scale(delta, (dist + s.length) / (2.0 * dist))
            && Length(Sub(r[s.b].pos, r[s.a].pos)) - s.length == 0.5 * (dist - s.length)
  {
    var pa := vs[s.a];
    var pb := vs[s.b];
    var delta := Sub(pb.pos, pa.pos);
    LengthZero(delta);
    Relaxation.RelaxSeparation(pa.pos, pa.mass, pb.pos, pb.mass, s.length, 0.5);
    Relaxation.RelaxError(pa.pos, pa.mass, pb.pos, pb.mass, s.length, 0.5);
    HalfFactor(Length(delta), s.length);
  }

  lemma HalfFactor(dist: real, length: real)
    requires dist != 0.0
    ensures 1.0 - (dist - length) * 0.5 / dist == (dist + length) / (2.0 * dist)
  {
    var q := 1.0 - (dist - length) * 0.5 / dist;
    assert (dist - length) * 0.5 / dist * dist == (dist - length) * 0.5;
    assert q * (2.0 * dist) == dist + length;
    Accumulator.DivUnique(dist + length, 2.0 * dist, q);
  }

  /**
   * PhysicsWorld::solveConstraints: the sticks in order.  It changes only
   * positions and keeps the mass-weighted centre.
   */
  function SolveSticks(vs: seq<Particle>, sticks: seq<Stick>): (r: seq<Particle>)
    requires Massive(vs) && Links(sticks, |vs|)
    ensures Like(r, vs) && Massive(r)
    ensures forall i :: 0 <= i < |r| ==> r[i].lastPos == vs[i].lastPos && r[i].acc == vs[i].acc
    decreases |sticks|
  {
    if sticks == [] then vs
    else SolveSticks(StickStep(vs, sticks[0]), sticks[1..])
  }

  /** A whole pass over the sticks keeps the mass-weighted centre. */
  lemma {:induction false} SolveSticksKeepsCentre(vs: seq<Particle>, sticks: seq<Stick>)
    requires HypotExact()
    requires Massive(vs) && Links(sticks, |vs|)
    ensures Centre(SolveSticks(vs, sticks)) == Centre(vs)
    decreases |sticks|
  {
    if sticks != [] {
      StickKeepsCentre(vs, sticks[0]);
      SolveSticksKeepsCentre(StickStep(vs, sticks[0]), sticks[1..]);
    }
  }

  function Bottom(box: AABB): real {
    box.pos.y + box.size.y
  }

  function Right(box: AABB): real {
    box.pos.x + box.size.x
  }

  /**
   * One particle of PhysicsWorld::solveBoundaryConstraint.  A particle
   * below the floor is put on it; one left of x = 0 (not of the box's own
   * left edge) is put against x = 0, otherwise one past the right edge is
   * put against it.  On a clamped axis, lastPos is set so that the implied
   * velocity is the damped one reversed and scaled by the ground friction.
   */
  function Boundary(p: Particle, box: AABB): (r: Particle)
    ensures r.mass == p.mass && r.radius == p.radius && r.acc == p.acc
    ensures r.pos.y + r.radius <= Bottom(box)
    ensures 2.0 * p.radius <= Right(box) ==> 0.0 <= r.pos.x - r.radius && r.pos.x + r.radius <= Right(box)
  {
    var vel := Scale(Sub(p.pos, p.lastPos), Damping);
    var q := if p.pos.y + p.radius > Bottom(box) then
               var y := Bottom(box) - p.radius;
               p.(pos := Vec(p.pos.x, y), lastPos := Vec(p.lastPos.x, y + vel.y * GroundFriction))
             else p;
    if q.pos.x - q.radius < 0.0 then
      q.(pos := Vec(q.radius, q.pos.y), lastPos := Vec(q.radius + vel.x * GroundFriction, q.lastPos.y))
    else if q.pos.x + q.radius > Right(box) then
      var x := Right(box) - q.radius;
      q.(pos := Vec(x, q.pos.y), lastPos := Vec(x + vel.x * GroundFriction, q.lastPos.y))
    else q
  }

  /** A particle already inside, with x measured from 0, is left alone. */
  lemma BoundaryKeepsInside(p: Particle, box: AABB)
    requires p.pos.y + p.radius <= Bottom(box)
    requires 0.0 <= p.pos.x - p.radius && p.pos.x + p.radius <= Right(box)
    ensures Boundary(p, box) == p
  {
  }

  /**
   * The bounce law: on the floor the implied vertical velocity becomes
   * -0.98 * 0.85 times the old one; on a side wall the same holds for the
   * horizontal velocity; an unclamped axis keeps both coordinates.
   */
  lemma BoundaryBounce(p: Particle, box: AABB)
    ensures var r := Boundary(p, box);
            var floor := p.pos.y + p.radius > Bottom(box);
            var wall := p.pos.x - p.radius < 0.0 || p.pos.x + p.radius > Right(box);
            && (floor ==> r.pos.y - r.lastPos.y == -(Damping * GroundFriction) * (p.pos.y - p.lastPos.y))
            && (!floor ==> r.pos.y == p.pos.y && r.lastPos.y == p.lastPos.y)
            && (wall ==> r.pos.x - r.lastPos.x == -(Damping * GroundFriction) * (p.pos.x - p.lastPos.x))
            && (!wall ==> r.pos.x == p.pos.x && r.lastPos.x == p.lastPos.x)
  {
  }

  /** The left and right clamps exclude each other; the left one wins. */
  lemma BoundaryLeftFirst(p: Particle, box: AABB)
    requires p.pos.x - p.radius < 0.0
    ensures Boundary(p, box).pos.x == p.radius
  {
  }

  /**
   * The left clamp is at x = 0 whatever the box's own x: a particle left
   * of a box that starts at x = 100 is not pulled in.
   */
  lemma LeftEdgeIsOrigin()
    ensures var box := AABB(Vec(100.0, 0.0), Vec(400.0, 480.0));
            var p := NewParticle(50.0, 100.0, 3.0);
            Boundary(p, box) == p && p.pos.x < box.pos.x
  {
  }

  /** In a box at least one diameter wide, the clamp is idempotent. */
  lemma BoundaryIdempotent(p: Particle, box: AABB)
    requires 2.0 * p.radius <= Right(box)
    ensures Boundary(Boundary(p, box), box) == Boundary(p, box)
  {
    BoundaryKeepsInside(Boundary(p, box), box);
  }

  function BoundaryAll(vs: seq<Particle>, box: AABB): (r: seq<Particle>)
    ensures |r| == |vs|
    ensures forall i :: 0 <= i < |r| ==> r[i] == Boundary(vs[i], box)
  {
    seq(|vs|, i requires 0 <= i < |vs| => Boundary(vs[i], box))
  }

  /** `n` rounds of sticks followed by the boundary clamp. */
  function Relaxations(vs: seq<Particle>, sticks: seq<Stick>, box: AABB, n: nat): (r: seq<Particle>)
    requires Massive(vs) && Links(sticks, |vs|)
    ensures Like(r, vs) && Massive(r)
    decreases n
  {
    if n == 0 then vs
    else
      var prev := Relaxations(vs, sticks, box, n - 1);
      BoundaryAll(SolveSticks(prev, sticks), box)
  }

  predicate InsideFloor(vs: seq<Particle>, box: AABB) {
    forall i :: 0 <= i < |vs| ==> vs[i].pos.y + vs[i].radius <= Bottom(box)
  }

  predicate Settled(vs: seq<Particle>) {
    forall i :: 0 <= i < |vs| ==> vs[i].acc == Zero
  }

  /**
   * PhysicsWorld::update: gravity, integration, then exactly five rounds
   * of sticks and boundary.  Afterwards the particles keep their masses
   * and radii, no acceleration is left over, every particle is on or above
   * the floor, and the sticks and the boundary are unchanged.
   */
  method Update(w: World, dt: real) returns (r: World)
    requires Valid(w)
    ensures r.sticks == w.sticks && r.boundary == w.boundary && Valid(r)
    ensures r.vertices == Relaxations(IntegrateAll(CalcAcceleration(w.vertices), dt), w.sticks, w.boundary, SolverRounds)
    ensures Like(r.vertices, w.vertices)
    ensures Settled(r.vertices) && InsideFloor(r.vertices, w.boundary)
  {
    var v0 := IntegrateAll(CalcAcceleration(w.vertices), dt);
    assert Massive(v0);
    var vs := v0;
    for k := 0 to SolverRounds
      invariant vs == Relaxations(v0, w.sticks, w.boundary, k)
      invariant Like(vs, v0) && Massive(vs) && Settled(vs)
      invariant k > 0 ==> InsideFloor(vs, w.boundary)
    {
      var solved := SolveSticks(vs, w.sticks);
      vs := BoundaryAll(solved, w.boundary);
    }
    r := World(vs, w.sticks, w.boundary);
  }

  /**
   * The step the main loop repeats, update with 1/60, as a total function
   * of the world; an invalid world is left as it is.
   */
  function StepWorld(w: World): World {
    if Valid(w) then
      World(Relaxations(IntegrateAll(CalcAcceleration(w.vertices), FixedTimeStep), w.sticks, w.boundary, SolverRounds),
            w.sticks, w.boundary)
    else w
  }

  /** update(1/60) run n times in a row. */
  method Run(w: World, n: nat) returns (r: World)
    requires Valid(w)
    ensures r == Accumulator.Iterate(StepWorld, w, n)
    ensures Valid(r) && r.sticks == w.sticks && r.boundary == w.boundary
  {
    r := w;
    for k := 0 to n
      invariant r == Accumulator.Iterate(StepWorld, w, k)
      invariant Valid(r) && r.sticks == w.sticks && r.boundary == w.boundary
    {
      Accumulator.IterateNext(StepWorld, w, k);
      r := Update(r, FixedTimeStep);
    }
  }

  /**
   * One frame of the main loop: the frame time is added to the
   * accumulator and the world is stepped by 1/60 while the accumulator
   * exceeds one step (`>`).  The steps never read the accumulator, so
   * draining it first and then running the counted steps gives the loop's
   * result.  The rest lies in [0, 1/60].
   */
  method Frame(w: World, acc0: real, ticks: nat) returns (r: World, acc: real, steps: nat)
    requires Valid(w) && acc0 >= 0.0
    ensures Valid(r) && r.sticks == w.sticks && r.boundary == w.boundary
    ensures steps == Accumulator.StepCount(acc0 + Accumulator.FrameDt(ticks), FixedTimeStep, true)
    ensures acc == acc0 + Accumulator.FrameDt(ticks) - steps as real * FixedTimeStep
    ensures 0.0 <= acc <= FixedTimeStep
    ensures r == Accumulator.Iterate(StepWorld, w, steps)
  {
    acc, steps := Accumulator.Frame(acc0, ticks, FixedTimeStep, true);
    r := Run(w, steps);
  }
}
