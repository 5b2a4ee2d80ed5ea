/**
 * The soft-body demo: a rope of 50 particles hung between two pivots.
 * Each interior particle keeps a list of its two neighbours; a physics
 * step adds gravity, integrates with Verlet and damping 0.999, and runs
 * five passes of distance constraints that move each linked pair a tenth of
 * the way to the rest length.  Before the physics steps of a frame the two
 * end particles are pinned to the pivots.  Neighbour lists hold indices
 * where the demo holds pointers.
 */
module SoftBodies {
  import opened CMath
  import opened Vec2
  import opened Sums
  import Relaxation
  import Accumulator

  const W: real := 640.0
  const H: real := 480.0
  const FixedTimeStep: real := 1.0 / 60.0
  const G: real := 10.0
  /** The spring constant; the constraint moves 0.5 * K of the way. */
  const K: real := 0.2
  const Damping: real := 0.999
  /** The number of particles. */
  const DivMax: int := 50
  const Pivot1: Vec := Vec(100.0, 200.0)
  const Pivot2: Vec := Vec(500.0, 200.0)
  const SolverPasses: nat := 5

  datatype Particle = Particle(pos: Vec, vel: Vec, acc: Vec, lastPos: Vec, mass: real)

  /** C++'s conversion of a floating-point value to int: truncation toward zero. */
  function Trunc(x: real): (n: int)
    ensures Abs(n as real) <= Abs(x) < Abs(n as real) + 1.0
    ensures (n > 0 ==> x >= 1.0) && (n < 0 ==> x <= -1.0)
  {
    if x >= 0.0 then x.Floor else -((-x).Floor)
  }

  /** Truncation keeps integers and commutes with negation. */
  lemma TruncLaws(n: int, x: real)
    ensures Trunc(n as real) == n
    ensures Trunc(-x) == -Trunc(x)
  {
  }

  /** The global `int ropeLength`: the pivot span over DivMax, truncated. */
  function RopeLength(): (l: int)
    ensures l == Trunc((Pivot2.x - Pivot1.x) / DivMax as real)
  {
    Trunc((Pivot2.x - Pivot1.x) / DivMax as real)
  }

  lemma RopeLengthIsEight()
    ensures RopeLength() == 8
  {
    assert (Pivot2.x - Pivot1.x) / DivMax as real == 8.0;
  }

  /**
   * The initial particles: particle x at (100 + 8x, 200 + ys[x]), at rest
   * apart from the random kick lastPos = pos + kicks[x]; the random draws
   * are the parameters.
   */
  function Init(ys: seq<real>, kicks: seq<Vec>): (ps: seq<Particle>)
    requires |ys| == DivMax && |kicks| == DivMax
    ensures |ps| == DivMax && Massive(ps)
    ensures forall x :: 0 <= x < |ps| ==> ps[x].pos.x == Pivot1.x + x as real * RopeLength() as real
  {
    seq(DivMax, x requires 0 <= x < DivMax =>
      var pos := Vec(Pivot1.x + x as real * RopeLength() as real, Pivot1.y + ys[x]);
      Particle(pos, Zero, Zero, Add(pos, kicks[x]), 1.0))
  }

  /**
   * The rope starts evenly spaced by the rest length, so its last particle
   * starts at x = 492, eight short of the second pivot it is pinned to.
   */
  lemma InitSpacing(ys: seq<real>, kicks: seq<Vec>)
    requires |ys| == DivMax && |kicks| == DivMax
    ensures var ps := Init(ys, kicks);
            && (forall x :: 0 <= x < |ps| - 1 ==> ps[x + 1].pos.x - ps[x].pos.x == 8.0)
            && ps[0].pos.x == Pivot1.x
            && ps[DivMax - 1].pos.x == 492.0 == Pivot2.x - 8.0
  {
    RopeLengthIsEight();
  }

  /**
   * The neighbour lists built by init: none for the first and the last
   * particle, [i - 1, i + 1] for each interior particle i.
   */
  function Topology(): (c: seq<seq<int>>)
    ensures |c| == DivMax && Links(c, DivMax)
  {
    [[]] + seq(DivMax - 2, i requires 0 <= i < DivMax - 2 => [i, i + 2]) + [[]]
  }

  /**
   * Particle i lists j exactly when i is interior and j is one of its two
   * neighbours.
   */
  lemma TopologyNeighbours(i: int, j: int)
    requires 0 <= i < DivMax
    ensures j in Topology()[i] <==> 0 < i < DivMax - 1 && (j == i - 1 || j == i + 1)
  {
    var c := Topology();
    if 0 < i < DivMax - 1 {
      assert c[i] == [i - 1, i + 1];
    } else if i == 0 {
      assert c[i] == [];
    } else {
      assert c[i] == [];
    }
  }

  predicate Massive(ps: seq<Particle>) {
    forall i :: 0 <= i < |ps| ==> ps[i].mass > 0.0
  }

  /** One neighbour list per particle, each naming existing particles. */
  predicate Links(c: seq<seq<int>>, n: int) {
    |c| == n && forall i, j :: 0 <= i < |c| && 0 <= j < |c[i]| ==> 0 <= c[i][j] < n
  }

  /** Same particles up to position, previous position and acceleration. */
  predicate Like(r: seq<Particle>, ps: seq<Particle>) {
    |r| == |ps| && forall i :: 0 <= i < |r| ==> r[i].mass == ps[i].mass && r[i].vel == ps[i].vel
  }

  function Weighted(p: Particle): Vec {
    Scale(p.pos, p.mass)
  }

  /** The mass-weighted sum of positions. */
  function Centre(ps: seq<Particle>): Vec {
    Total(ps, Weighted)
  }

  /**
   * makeSpringForce: Hooke's law along dist = b - a with extension
   * x = |dist| - ropeLength, as dist * (-k * x / |dist|).  The demo
   * computes it and then discards it, so nothing below uses it.
   */
  function SpringForce(a: Vec, b: Vec, k: real): (f: Vec)
    requires Length(Sub(b, a)) != 0.0
    ensures Cross(f, Sub(b, a)) == 0.0
  {
    Scale(Sub(b, a), SpringFactor(a, b, k))
  }

  /** The factor -k x / |dist| that scales dist into the spring force. */
  function SpringFactor(a: Vec, b: Vec, k: real): real
    requires Length(Sub(b, a)) != 0.0
  {
    (-k * Extension(a, b)) / Length(Sub(b, a))
  }

  /** The extension x = |b - a| - ropeLength of the spring from a to b. */
  function Extension(a: Vec, b: Vec): real {
    Length(Sub(b, a)) - RopeLength() as real
  }

  /**
   * The spring force has magnitude k * |x|; as written, for a positive k
   * and a stretched spring it points from b towards a, away from the
   * neighbour.
   */
  lemma SpringHooke(a: Vec, b: Vec, k: real)
    requires HypotExact() && a != b
    ensures Length(Sub(b, a)) != 0.0
    ensures Length(SpringForce(a, b, k)) == Abs(k * Extension(a, b))
    ensures k > 0.0 && Extension(a, b) > 0.0 ==> Dot(SpringForce(a, b, k), Sub(b, a)) < 0.0
  {
    DistinctDifference(a, b);
    LengthZero(Sub(b, a));
    SpringLaw(Sub(b, a), Length(Sub(b, a)), k, Extension(a, b), SpringFactor(a, b, k));
  }

  lemma DistinctDifference(a: Vec, b: Vec)
    requires a != b
    ensures Sub(b, a) != Zero
  {
    assert a.x != b.x || a.y != b.y;
  }

  lemma SpringLaw(dist: Vec, l: real, k: real, x: real, q: real)
    requires HypotExact() && l == Length(dist) && l > 0.0
    requires q == (-k * x) / l
    ensures Length(Scale(dist, q)) == Abs(k * x)
    ensures k > 0.0 && x > 0.0 ==> Dot(Scale(dist, q), dist) < 0.0
  {
    SpringLength(dist, l, k, x, q);
    if k > 0.0 && x > 0.0 {
      SpringDirection(dist, l, k, x, q);
    }
  }

  lemma SpringLength(dist: Vec, l: real, k: real, x: real, q: real)
    requires HypotExact() && l == Length(dist) && l > 0.0
    requires q == (-k * x) / l
    ensures Length(Scale(dist, q)) == Abs(k * x)
  {
    LengthScale(dist, q);
    SpringMagnitude(l, k, x);
  }

  lemma SpringDirection(dist: Vec, l: real, k: real, x: real, q: real)
    requires HypotExact() && l == Length(dist) && l > 0.0 && k > 0.0 && x > 0.0
    requires q == (-k * x) / l
    ensures Dot(Scale(dist, q), dist) < 0.0
  {
    LengthSquared(dist);
    DotSymmetric(dist, dist, dist, q);
    SpringSign(l, k, x, Dot(dist, dist));
  }

  lemma SpringMagnitude(l: real, k: real, x: real)
    requires l > 0.0
    ensures Abs((-k * x) / l) * l == Abs(k * x)
  {
    assert (-k * x) / l == -(k * x) / l;
    AbsQuotient(k * x, l);
  }

  lemma SpringSign(l: real, k: real, x: real, d: real)
    requires l > 0.0 && d == l * l && k > 0.0 && x > 0.0
    ensures (-k * x) / l * d < 0.0
  {
    assert (-k * x) / l < 0.0;
  }

  /**
   * calcAcceleration: the weight (0, m * g) divided by m, so every particle
   * gains exactly (0, g); the spring sum is dropped.
   */
  function CalcAcceleration(ps: seq<Particle>): (r: seq<Particle>)
    requires Massive(ps)
    ensures |r| == |ps|
    ensures forall i :: 0 <= i < |r| ==> r[i] == ps[i].(acc := Add(ps[i].acc, Vec(0.0, G)))
  {
    seq(|ps|, i requires 0 <= i < |ps| =>
      var p := ps[i];
      Gain(p.mass);
      p.(acc := Add(p.acc, Scale(Vec(0.0, p.mass * G), 1.0 / p.mass))))
  }

  lemma Gain(m: real)
    requires m > 0.0
    ensures Scale(Vec(0.0, m * G), 1.0 / m) == Vec(0.0, G)
  {
    assert m * G * (1.0 / m) == G;
  }

  /**
   * The Verlet part of physicsProcess for one particle: the implied
   * velocity is damped by 0.999, acc * dt^2 is added, the old position
   * becomes lastPos and the acceleration is cleared.
   */
  function Integrate(p: Particle, dt: real): (r: Particle)
    ensures r.lastPos == p.pos && r.acc == Zero && r.mass == p.mass && r.vel == p.vel
    ensures Sub(r.pos, r.lastPos) == Add(Scale(Sub(p.pos, p.lastPos), Damping), Scale(p.acc, dt * dt))
  {
    var vel := Scale(Sub(p.pos, p.lastPos), Damping);
    p.(pos := Add(p.pos, Add(vel, Scale(p.acc, dt * dt))), acc := Zero, lastPos := p.pos)
  }

  /** A particle at rest with no acceleration stays where it is. */
  lemma IntegrateAtRest(p: Particle, dt: real)
    requires p.pos == p.lastPos && p.acc == Zero
    ensures Integrate(p, dt) == p
  {
  }

  function IntegrateAll(ps: seq<Particle>, dt: real): (r: seq<Particle>)
    ensures |r| == |ps|
    ensures forall i :: 0 <= i < |r| ==> r[i] == Integrate(ps[i], dt)
  {
    seq(|ps|, i requires 0 <= i < |ps| => Integrate(ps[i], dt))
  }

  /**
   * One link of solveConstraint, between particle i and its neighbour j:
   * a correction of factor 0.5 * K towards the rope length.  Only the two
   * positions change.
   */
  function LinkStep(ps: seq<Particle>, i: int, j: int): (r: seq<Particle>)
    requires Massive(ps) && 0 <= i < |ps| && 0 <= j < |ps|
    ensures Like(r, ps) && Massive(r)
    ensures forall k :: 0 <= k < |r| ==> r[k].lastPos == ps[k].lastPos && r[k].acc == ps[k].acc
    ensures forall k :: 0 <= k < |r| && k != i && k != j ==> r[k] == ps[k]
  {
    var pa := ps[i];
    var pb := ps[j];
    var q := Relaxation.Relax(pa.pos, pa.mass, pb.pos, pb.mass, RopeLength() as real, 0.5 * K);
    ps[i := pa.(pos := q.0)][j := pb.(pos := q.1)]
  }

  /** One link keeps the mass-weighted centre. */
  lemma LinkKeepsCentre(ps: seq<Particle>, i: int, j: int)
    requires HypotExact()
    requires Massive(ps) && 0 <= i < |ps| && 0 <= j < |ps|
    ensures Centre(LinkStep(ps, i, j)) == Centre(ps)
  {
    var pa := ps[i];
    var pb := ps[j];
    var q := Relaxation.Relax(pa.pos, pa.mass, pb.pos, pb.mass, RopeLength() as real, 0.5 * K);
    if i == j {
      Relaxation.RelaxCoincident(pa.pos, pa.mass, pa.mass, RopeLength() as real, 0.5 * K);
      assert LinkStep(ps, i, j) == ps;
    } else {
      PairKeepsTotal(ps, i, j, pa.(pos := q.0), pb.(pos := q.1), Weighted);
    }
  }

  /**
   * A link between separated particles moves their distance a tenth of
   * the way to the rope length: the error is multiplied by 0.9.
   */
  lemma LinkShrinksError(ps: seq<Particle>, i: int, j: int)
    requires HypotExact()
    requires Massive(ps) && 0 <= i < |ps| && 0 <= j < |ps| && i != j && ps[i].pos != ps[j].pos
    ensures var r := LinkStep(ps, i, j);
            var l := RopeLength() as real;
            Length(Sub(r[j].pos, r[i].pos)) - l == 0.9 * (Length(Sub(ps[j].pos, ps[i].pos)) - l)
  {
    RopeLengthIsEight();
    Relaxation.RelaxError(ps[i].pos, ps[i].mass, ps[j].pos, ps[j].mass, RopeLength() as real, 0.5 * K);
  }

  /** Coincident linked particles are skipped. */
  lemma LinkSkipsCoincident(ps: seq<Particle>, i: int, j: int)
    requires HypotExact()
    requires Massive(ps) && 0 <= i < |ps| && 0 <= j < |ps| && ps[i].pos == ps[j].pos
    ensures LinkStep(ps, i, j) == ps
  {
    Relaxation.RelaxCoincident(ps[i].pos, ps[i].mass, ps[j].mass, RopeLength() as real, 0.5 * K);
  }

  /** The links of particle i to the neighbours in `nbrs`, corrected in list order. */
  function NeighbourPass(ps: seq<Particle>, i: int, nbrs: seq<int>): (r: seq<Particle>)
    requires Massive(ps) && 0 <= i < |ps|
    requires forall k :: 0 <= k < |nbrs| ==> 0 <= nbrs[k] < |ps|
    ensures Like(r, ps) && Massive(r)
    ensures forall k :: 0 <= k < |r| ==> r[k].lastPos == ps[k].lastPos && r[k].acc == ps[k].acc
    decreases |nbrs|
  {
    if nbrs == [] then ps
    else LinkStep(NeighbourPass(ps, i, nbrs[..|nbrs| - 1]), i, nbrs[|nbrs| - 1])
  }

  /**
   * The first n rounds of solveConstraint's outer loop: particles 0 to
   * n - 1 in order, each with its neighbour list in list order.
   */
  function ConstraintPass(ps: seq<Particle>, links: seq<seq<int>>, n: nat): (r: seq<Particle>)
    requires Massive(ps) && Links(links, |ps|) && n <= |ps|
    ensures Like(r, ps) && Massive(r)
    ensures forall k :: 0 <= k < |r| ==> r[k].lastPos == ps[k].lastPos && r[k].acc == ps[k].acc
    decreases n
  {
    if n == 0 then ps
    else NeighbourPass(ConstraintPass(ps, links, n - 1), n - 1, links[n - 1])
  }

  /** m whole constraint passes in a row. */
  function Passes(ps: seq<Particle>, links: seq<seq<int>>, m: nat): (r: seq<Particle>)
    requires Massive(ps) && Links(links, |ps|)
    ensures Like(r, ps) && Massive(r)
    ensures forall k :: 0 <= k < |r| ==> r[k].lastPos == ps[k].lastPos && r[k].acc == ps[k].acc
    decreases m
  {
    if m == 0 then ps
    else
      var prev := Passes(ps, links, m - 1);
      ConstraintPass(prev, links, |prev|)
  }

  /** Without any neighbour a constraint pass moves nothing. */
  lemma {:induction false} UnlinkedPassKeeps(ps: seq<Particle>, links: seq<seq<int>>, n: nat)
    requires Massive(ps) && Links(links, |ps|) && n <= |ps|
    requires forall i :: 0 <= i < |links| ==> links[i] == []
    ensures ConstraintPass(ps, links, n) == ps
  {
    if n > 0 {
      UnlinkedPassKeeps(ps, links, n - 1);
    }
  }

  /**
   * solveConstraint: every particle in order, every neighbour in list
   * order.  Only positions change, and with exact lengths the
   * mass-weighted centre is kept.
   */
  method SolveConstraint(ps: seq<Particle>, links: seq<seq<int>>) returns (r: seq<Particle>)
    requires Massive(ps) && Links(links, |ps|)
    ensures r == ConstraintPass(ps, links, |ps|)
    ensures Like(r, ps) && Massive(r)
    ensures forall k :: 0 <= k < |r| ==> r[k].lastPos == ps[k].lastPos && r[k].acc == ps[k].acc
    ensures HypotExact() ==> Centre(r) == Centre(ps)
  {
    r := ps;
    for i := 0 to |ps|
      invariant r == ConstraintPass(ps, links, i)
      invariant HypotExact() ==> Centre(r) == Centre(ps)
    {
      r := CorrectNeighbours(r, i, links[i]);
    }
  }

  /** The inner loop of solveConstraint: particle i's links in list order. */
  method CorrectNeighbours(ps: seq<Particle>, i: int, nbrs: seq<int>) returns (r: seq<Particle>)
    requires Massive(ps) && 0 <= i < |ps|
    requires forall k :: 0 <= k < |nbrs| ==> 0 <= nbrs[k] < |ps|
    ensures r == NeighbourPass(ps, i, nbrs)
    ensures HypotExact() ==> Centre(r) == Centre(ps)
  {
    r := ps;
    for j := 0 to |nbrs|
      invariant r == NeighbourPass(ps, i, nbrs[..j])
      invariant HypotExact() ==> Centre(r) == Centre(ps)
    {
      assert nbrs[..j + 1][..j] == nbrs[..j];
      if HypotExact() {
        LinkKeepsCentre(r, i, nbrs[j]);
      }
      r := LinkStep(r, i, nbrs[j]);
    }
    assert nbrs[..|nbrs|] == nbrs;
  }

  predicate Settled(ps: seq<Particle>) {
    forall i :: 0 <= i < |ps| ==> ps[i].acc == Zero
  }

  /** physicsProcess as a function: gravity, integration, five constraint passes. */
  function PhysicsStep(ps: seq<Particle>, links: seq<seq<int>>, dt: real): (r: seq<Particle>)
    requires Massive(ps) && Links(links, |ps|)
    ensures Like(r, ps) && Massive(r)
  {
    Passes(IntegrateAll(CalcAcceleration(ps), dt), links, SolverPasses)
  }

  /**
   * physicsProcess: gravity, Verlet integration, then five constraint
   * passes.  Afterwards no acceleration is left over, each particle's
   * lastPos is its position before the step, and the constraint passes
   * have kept the mass-weighted centre of the integrated positions.
   */
  method PhysicsProcess(ps: seq<Particle>, links: seq<seq<int>>, dt: real) returns (r: seq<Particle>)
    requires Massive(ps) && Links(links, |ps|)
    ensures r == PhysicsStep(ps, links, dt)
    ensures Like(r, ps) && Massive(r) && Settled(r)
    ensures forall i :: 0 <= i < |r| ==> r[i].lastPos == ps[i].pos
    ensures HypotExact() ==> Centre(r) == Centre(IntegrateAll(CalcAcceleration(ps), dt))
  {
    var moved := IntegrateAll(CalcAcceleration(ps), dt);
    r := moved;
    for n := 0 to SolverPasses
      invariant r == Passes(moved, links, n)
      invariant Like(r, ps) && Massive(r) && Settled(r)
      invariant forall i :: 0 <= i < |r| ==> r[i].lastPos == ps[i].pos
      invariant HypotExact() ==> Centre(r) == Centre(moved)
    {
      r := SolveConstraint(r, links);
    }
  }

  /**
   * The step the main loop repeats, physicsProcess with 1/60, as a total
   * function of the rope for the given links; a rope the links do not fit
   * is left as it is.
   */
  function StepWith(links: seq<seq<int>>): seq<Particle> -> seq<Particle> {
    ps => if Massive(ps) && Links(links, |ps|) then PhysicsStep(ps, links, FixedTimeStep) else ps
  }

  lemma StepWithApplies(links: seq<seq<int>>, ps: seq<Particle>)
    requires Massive(ps) && Links(links, |ps|)
    ensures StepWith(links)(ps) == PhysicsStep(ps, links, FixedTimeStep)
  {
  }

  /**
   * update: the first particle is pinned to the first pivot and the last
   * to the second, position and previous position alike, so both start
   * the physics steps at rest; every other particle is untouched.
   */
  function Pin(ps: seq<Particle>): (r: seq<Particle>)
    requires |ps| > 0
    ensures Like(r, ps)
    ensures r[|r| - 1].pos == r[|r| - 1].lastPos == Pivot2
    ensures |ps| > 1 ==> r[0].pos == r[0].lastPos == Pivot1
    ensures forall i :: 0 < i < |r| - 1 ==> r[i] == ps[i]
  {
    var front := ps[0 := ps[0].(pos := Pivot1, lastPos := Pivot1)];
    front[|ps| - 1 := front[|ps| - 1].(pos := Pivot2, lastPos := Pivot2)]
  }

  /** Pinning twice is pinning once. */
  lemma PinIdempotent(ps: seq<Particle>)
    requires |ps| > 0
    ensures Pin(Pin(ps)) == Pin(ps)
  {
    var r := Pin(ps);
    var rr := Pin(r);
    assert forall i :: 0 <= i < |r| ==> rr[i] == r[i];
  }

  /** physicsProcess(1/60) run n times in a row. */
  method Run(ps: seq<Particle>, links: seq<seq<int>>, n: nat) returns (r: seq<Particle>)
    requires Massive(ps) && Links(links, |ps|)
    ensures r == Accumulator.Iterate(StepWith(links), ps, n)
    ensures Like(r, ps) && Massive(r)
  {
    r := ps;
    for k := 0 to n
      invariant r == Accumulator.Iterate(StepWith(links), ps, k)
      invariant Like(r, ps) && Massive(r)
    {
      StepWithApplies(links, r);
      Accumulator.IterateNext(StepWith(links), ps, k);
      r := PhysicsProcess(r, links, FixedTimeStep);
    }
  }

  /**
   * One frame of the main loop: pin the ends, add the frame time to the
   * accumulator, and step by 1/60 while the accumulator exceeds one step
   * (`>`).  The physics steps never read the accumulator, so draining it
   * first and then running the counted steps gives the loop's result.
   * The rest lies in [0, 1/60]; with no step the ends stay on the pivots.
   */
  method Frame(ps: seq<Particle>, links: seq<seq<int>>, acc0: real, ticks: nat)
    returns (r: seq<Particle>, acc: real, steps: nat)
    requires |ps| > 1 && Massive(ps) && Links(links, |ps|) && acc0 >= 0.0
    ensures |r| == |ps| && Massive(r)
    ensures steps == Accumulator.StepCount(acc0 + Accumulator.FrameDt(ticks), FixedTimeStep, true)
    ensures acc == acc0 + Accumulator.FrameDt(ticks) - steps as real * FixedTimeStep
    ensures 0.0 <= acc <= FixedTimeStep
    ensures r == Accumulator.Iterate(StepWith(links), Pin(ps), steps)
    ensures steps == 0 ==> r[0].pos == Pivot1 && r[|r| - 1].pos == Pivot2
  {
    acc, steps := Accumulator.Frame(acc0, ticks, FixedTimeStep, true);
    r := Run(Pin(ps), links, steps);
  }
}
