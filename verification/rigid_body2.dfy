/**
 * The second rigid-body demo: rectangular blocks built from width, height
 * and angle; polygon contact found by centre-to-vertex segment tests;
 * positional separation and an impulse with restitution between bodies;
 * and a floor bounce.  The colours are random and are not modelled.
 */
module RigidBody2 {
  import opened CMath
  import opened Vec2
  import opened Polygons
  import opened RigidBody
  import Collision
  import PolygonCollision

  /** The demo's coefficient of restitution. */
  const Cr: real := 0.4

  /** This demo's collisionInfo: vertex, intersection, edge and the two lever arms. */
  datatype Contact = Contact(vertex: Vec, intersection: Vec, edge: Vec, rp1: Vec, rp2: Vec)

  const NoContact := Contact(Zero, Zero, Zero, Zero, Zero)

  // ---------------------------------------------------------------------------
  // Blocks

  /** makeBlock: a w x h rectangle around the origin, with the given mass and inertia. */
  function MakeBlock(w: real, h: real, m: real, im: real): (p: Polygon)
    ensures |p.vertices| == 4
    ensures p == WithVertices(p.vertices).(mass := m, im := im)
  {
    WithVertices([Vec(-w / 2.0, -h / 2.0), Vec(w / 2.0, -h / 2.0), Vec(w / 2.0, h / 2.0), Vec(-w / 2.0, h / 2.0)])
      .(mass := m, im := im)
  }

  /**
   * The block is centred on its position, and its edges run (w, 0), (0, h),
   * (-w, 0), (0, -h) in order: a w x h rectangle traced around its corners.
   */
  lemma BlockIsCentredRectangle(w: real, h: real, m: real, im: real)
    ensures var vs := MakeBlock(w, h, m, im).vertices;
            Add(Add(vs[0], vs[1]), Add(vs[2], vs[3])) == Zero
            && Sub(vs[1], vs[0]) == Vec(w, 0.0) && Sub(vs[2], vs[1]) == Vec(0.0, h)
            && Sub(vs[3], vs[2]) == Vec(-w, 0.0) && Sub(vs[0], vs[3]) == Vec(0.0, -h)
  {
  }

  /**
   * setupBlock: density 0.1, so mass 0.1 w h and moment of inertia
   * m (w^2 + h^2) / 12; rotated by `angle` degrees and placed at (x, y).
   */
  function SetupBlock(w: real, h: real, angle: real, x: real, y: real): (p: Polygon)
    ensures |p.vertices| == 4
    ensures p.pos == Vec(x, y) && p.theta == angle * 3.14159 / 180.0
  {
    var m := 0.1 * w * h;
    var im := m * (w * w + h * h) / 12.0;
    SetRotation(MakeBlock(w, h, m, im), angle * 3.14159 / 180.0).(pos := Vec(x, y))
  }

  /** A block of positive size has positive mass and inertia, as the impulses need. */
  lemma SetupBlockMassPositive(w: real, h: real, angle: real, x: real, y: real)
    requires w > 0.0 && h > 0.0
    ensures SetupBlock(w, h, angle, x, y).mass > 0.0 && SetupBlock(w, h, angle, x, y).im > 0.0
    ensures SetupBlock(w, h, angle, x, y).im * 12.0
            == SetupBlock(w, h, angle, x, y).mass * (w * w + h * h)
  {
    var m := 0.1 * w * h;
    assert m > 0.0;
    assert w * w + h * h > 0.0;
    assert m * (w * w + h * h) > 0.0;
  }

  // ---------------------------------------------------------------------------
  // Contact detection

  /** The contact a hitting segment test records; the arms are taken from the two arguments' positions. */
  function ContactAt(pr: PolygonCollision.Probe, p1: Polygon, p2: Polygon): (c: Contact)
    requires HypotExact()
    requires PolygonCollision.Hits(pr)
    ensures c.vertex == pr.l2
    ensures Add(p1.pos, c.rp1) == c.intersection && Add(p2.pos, c.rp2) == c.intersection
  {
    var i := PolygonCollision.HitPoint(pr);
    Contact(pr.l2, i, Normalize(Sub(pr.l4, pr.l3)), Sub(i, p1.pos), Sub(i, p2.pos))
  }

  /** Test k hits and no later test does. */
  predicate LastHit(prs: seq<PolygonCollision.Probe>, k: int) {
    0 <= k < |prs| && PolygonCollision.Hits(prs[k])
    && forall j :: k < j < |prs| ==> !PolygonCollision.Hits(prs[j])
  }

  /**
   * checkPolygonCollision of this demo: the same segment tests as the
   * polygon-collision demo, but minLength is never lowered, so every hit
   * replaces the contact and the last hit in iteration order is reported.
   * No hit leaves the contact untouched.
   */
  method CheckPolygonCollision(p1: Polygon, p2: Polygon, info: Contact) returns (hit: bool, out: Contact)
    requires HypotExact()
    ensures hit <==> exists k :: 0 <= k < |PolygonCollision.Probes(p1, p2)|
                                 && PolygonCollision.Hits(PolygonCollision.Probes(p1, p2)[k])
    ensures !hit ==> out == info
    ensures hit ==> exists k :: LastHit(PolygonCollision.Probes(p1, p2), k)
                                && out == ContactAt(PolygonCollision.Probes(p1, p2)[k], p1, p2)
  {
    var prs := PolygonCollision.Probes(p1, p2);
    hit, out := ScanLastHit(prs, p1, p2, info);
  }

  /**
   * The loop of checkPolygonCollision over the list of segment tests.  The
   * tests are pure, so their verdicts are computed first and the loop
   * replaces the contact on every hit as the demo does.
   */
  method ScanLastHit(prs: seq<PolygonCollision.Probe>, p1: Polygon, p2: Polygon, info: Contact)
    returns (hit: bool, out: Contact)
    requires HypotExact()
    ensures hit <==> exists k :: 0 <= k < |prs| && PolygonCollision.Hits(prs[k])
    ensures !hit ==> out == info
    ensures hit ==> exists k :: LastHit(prs, k) && out == ContactAt(prs[k], p1, p2)
  {
    var hs := seq(|prs|, i requires 0 <= i < |prs| => PolygonCollision.Hits(prs[i]));
    var k;
    hit, k := LastTrue(hs);
    VerdictsOfProbes(prs, hs, hit, k);
    out := if hit then ContactAt(prs[k], p1, p2) else info;
  }

  /** What LastTrue reports on the verdicts of the tests, stated of the tests. */
  lemma VerdictsOfProbes(prs: seq<PolygonCollision.Probe>, hs: seq<bool>, found: bool, last: int)
    requires |hs| == |prs| && forall j :: 0 <= j < |prs| ==> hs[j] == PolygonCollision.Hits(prs[j])
    requires found <==> exists j :: 0 <= j < |hs| && hs[j]
    requires found ==> 0 <= last < |hs| && hs[last] && forall j :: last < j < |hs| ==> !hs[j]
    ensures found <==> exists j :: 0 <= j < |prs| && PolygonCollision.Hits(prs[j])
    ensures found ==> LastHit(prs, last)
  {
    if found {
      forall j | last < j < |prs|
        ensures !PolygonCollision.Hits(prs[j])
      {
        assert !hs[j];
      }
    } else {
      forall j | 0 <= j < |prs|
        ensures !PolygonCollision.Hits(prs[j])
      {
        assert !hs[j];
      }
    }
  }

  /** Whether some entry of hs holds, and then the index of the last one that does. */
  method LastTrue(hs: seq<bool>) returns (found: bool, last: int)
    ensures found <==> exists j :: 0 <= j < |hs| && hs[j]
    ensures found ==> 0 <= last < |hs| && hs[last] && forall j :: last < j < |hs| ==> !hs[j]
  {
    found, last := false, 0;
    var k := 0;
    while k < |hs|
      invariant 0 <= k <= |hs|
      invariant found <==> exists j :: 0 <= j < k && hs[j]
      invariant found ==> 0 <= last < k && hs[last] && forall j :: last < j < k ==> !hs[j]
    {
      if hs[k] {
        found, last := true, k;
      }
      k := k + 1;
    }
  }

  /** A reported contact's edge is a unit vector: a hit needs l3 != l4. */
  lemma HitEdgeIsUnit(pr: PolygonCollision.Probe)
    requires HypotExact()
    requires PolygonCollision.Hits(pr)
    ensures Dot(Normalize(Sub(pr.l4, pr.l3)), Normalize(Sub(pr.l4, pr.l3))) == 1.0
  {
    if Sub(pr.l4, pr.l3) == Zero {
      assert false;
    }
  }

  // ---------------------------------------------------------------------------
  // Contact response

  /**
   * The positional correction: the first body moves back by half of
   * intersection - vertex and the second forward by the same half.
   */
  function Separate(a: Polygon, b: Polygon, c: Contact): (r: (Polygon, Polygon))
    ensures Add(r.0.pos, r.1.pos) == Add(a.pos, b.pos)
    ensures Sub(r.1.pos, r.0.pos) == Add(Sub(b.pos, a.pos), Dir(c))
    ensures r.0 == a.(pos := r.0.pos) && r.1 == b.(pos := r.1.pos)
  {
    var half := Scale(Dir(c), 0.5);
    (a.(pos := Sub(a.pos, half)), b.(pos := Add(b.pos, half)))
  }

  /** collisionInfo::getDir. */
  function Dir(c: Contact): (d: Vec)
    ensures Add(c.vertex, d) == c.intersection
  {
    Sub(c.intersection, c.vertex)
  }

  /** The contact normal: the edge normalised and turned anticlockwise. */
  function ContactNormal(c: Contact): Vec
    requires HypotExact()
  {
    Perp(Normalize(c.edge), 1.0, true)
  }

  /** The effective inverse mass 1/m1 + 1/m2 + c1^2/I1 + c2^2/I2 for lever terms c1, c2. */
  function InverseMass(a: Polygon, b: Polygon, c1: real, c2: real): real
    requires a.mass != 0.0 && b.mass != 0.0 && a.im != 0.0 && b.im != 0.0
  {
    1.0 / a.mass + 1.0 / b.mass + c1 * c1 * (1.0 / a.im) + c2 * c2 * (1.0 / b.im)
  }

  lemma InverseMassValue(a: Polygon, b: Polygon, c1: real, c2: real)
    requires a.mass != 0.0 && b.mass != 0.0 && a.im != 0.0 && b.im != 0.0
    ensures InverseMass(a, b, c1, c2) == 1.0 / a.mass + 1.0 / b.mass + c1 * c1 * (1.0 / a.im) + c2 * c2 * (1.0 / b.im)
  {
  }

  /** -(1 + cr) vn over the effective inverse mass, which it cancels. */
  function PairMagnitude(vn: real, a: Polygon, b: Polygon, c1: real, c2: real, cr: real): (j: real)
    requires a.mass > 0.0 && b.mass > 0.0 && a.im > 0.0 && b.im > 0.0
    ensures j * InverseMass(a, b, c1, c2) == -(1.0 + cr) * vn
  {
    var d := InverseMass(a, b, c1, c2);
    PositiveSum(a.mass, b.mass, a.im, b.im, c1, c2);
    DivCancel(-(1.0 + cr) * vn, d);
    -(1.0 + cr) * vn / d
  }

  lemma PositiveSum(m1: real, m2: real, i1: real, i2: real, c1: real, c2: real)
    requires m1 > 0.0 && m2 > 0.0 && i1 > 0.0 && i2 > 0.0
    ensures 1.0 / m1 + 1.0 / m2 + c1 * c1 * (1.0 / i1) + c2 * c2 * (1.0 / i2) > 0.0
  {
    SquareNonNegative(c1);
    SquareNonNegative(c2);
    assert c1 * c1 * (1.0 / i1) >= 0.0 && c2 * c2 * (1.0 / i2) >= 0.0;
  }

  lemma SquareNonNegative(c: real)
    ensures c * c >= 0.0
  {
    if c < 0.0 {
      assert c * c == (-c) * (-c);
    }
  }

  /** The relative velocity of the two contact points along n. */
  function RelativeSpeed(a: Polygon, b: Polygon, n: Vec, rp1: Vec, rp2: Vec): real {
    Dot(Sub(PointVelocity(a.vel, a.angVelo, rp1), PointVelocity(b.vel, b.angVelo, rp2)), n)
  }

  /**
   * An impulse of magnitude j along n at lever arms rp1 and rp2: body a
   * gains n j / m1 in velocity and (rp1 x n) j / I1 in angular velocity;
   * body b loses n j / m2 and gains -(rp2 x n) j / I2.
   */
  function Push(a: Polygon, b: Polygon, n: Vec, rp1: Vec, rp2: Vec, j: real): (r: (Polygon, Polygon))
    requires a.mass != 0.0 && b.mass != 0.0 && a.im != 0.0 && b.im != 0.0
    ensures r.0 == a.(vel := r.0.vel, angVelo := r.0.angVelo)
    ensures r.1 == b.(vel := r.1.vel, angVelo := r.1.angVelo)
  {
    (a.(vel := Add(a.vel, Scale(n, j * (1.0 / a.mass))),
        angVelo := a.angVelo + Cross(rp1, n) * j * (1.0 / a.im)),
     b.(vel := Sub(b.vel, Scale(n, j * (1.0 / b.mass))),
        angVelo := b.angVelo + -Cross(rp2, n) * j * (1.0 / b.im)))
  }

  /**
   * The impulse exchange of the update: the push whose magnitude is
   * -(1 + cr) times the relative normal velocity over the effective inverse
   * mass.  As in the demo, rp2Xn is computed from rp1, so the denominator's
   * second lever term is (rp1 x n)^2 where (rp2 x n)^2 belongs.
   */
  function Kick(a: Polygon, b: Polygon, n: Vec, rp1: Vec, rp2: Vec, cr: real): (r: (Polygon, Polygon))
    requires a.mass > 0.0 && b.mass > 0.0 && a.im > 0.0 && b.im > 0.0
    ensures r.0 == a.(vel := r.0.vel, angVelo := r.0.angVelo)
    ensures r.1 == b.(vel := r.1.vel, angVelo := r.1.angVelo)
  {
    var rp1Xn := Cross(rp1, n);
    var rp2Xn := Cross(rp1, n);
    Push(a, b, n, rp1, rp2, PairMagnitude(RelativeSpeed(a, b, n, rp1, rp2), a, b, rp1Xn, rp2Xn, cr))
  }

  /** The collision resolution of the update: the kick along the contact normal. */
  function PairImpulse(a: Polygon, b: Polygon, c: Contact, cr: real): (r: (Polygon, Polygon))
    requires HypotExact()
    requires a.mass > 0.0 && b.mass > 0.0 && a.im > 0.0 && b.im > 0.0
    ensures r.0 == a.(vel := r.0.vel, angVelo := r.0.angVelo)
    ensures r.1 == b.(vel := r.1.vel, angVelo := r.1.angVelo)
  {
    Kick(a, b, ContactNormal(c), c.rp1, c.rp2, cr)
  }

  /** Linear momentum m1 v1 + m2 v2 is unchanged by any push, whatever j and n. */
  lemma PushConservesMomentum(a: Polygon, b: Polygon, n: Vec, rp1: Vec, rp2: Vec, j: real)
    requires a.mass > 0.0 && b.mass > 0.0 && a.im > 0.0 && b.im > 0.0
    ensures var r := Push(a, b, n, rp1, rp2, j);
            Add(Scale(r.0.vel, a.mass), Scale(r.1.vel, b.mass))
              == Add(Scale(a.vel, a.mass), Scale(b.vel, b.mass))
  {
    MomentumShare(a.vel.x, b.vel.x, n.x, j, a.mass, b.mass);
    MomentumShare(a.vel.y, b.vel.y, n.y, j, a.mass, b.mass);
  }

  /** One component of PushConservesMomentum. */
  lemma MomentumShare(v1: real, v2: real, e: real, j: real, m1: real, m2: real)
    requires m1 != 0.0 && m2 != 0.0
    ensures (v1 + e * (j * (1.0 / m1))) * m1 + (v2 - e * (j * (1.0 / m2))) * m2 == v1 * m1 + v2 * m2
  {
    MassShare(m1, j);
    MassShare(m2, j);
    assert (e * (j * (1.0 / m1))) * m1 == e * (m1 * (j * (1.0 / m1)));
    assert (e * (j * (1.0 / m2))) * m2 == e * (m2 * (j * (1.0 / m2)));
  }

  /** m (j / m) == j. */
  lemma MassShare(m: real, j: real)
    requires m != 0.0
    ensures m * (j * (1.0 / m)) == j
  {
  }

  /**
   * Along a unit normal a push of magnitude j changes the relative normal
   * velocity by j times the effective inverse mass with both lever terms,
   * 1/m1 + 1/m2 + (rp1 x n)^2/I1 + (rp2 x n)^2/I2.
   */
  lemma PushSpeed(a: Polygon, b: Polygon, n: Vec, rp1: Vec, rp2: Vec, j: real)
    requires a.mass > 0.0 && b.mass > 0.0 && a.im > 0.0 && b.im > 0.0
    requires Dot(n, n) == 1.0
    ensures var r := Push(a, b, n, rp1, rp2, j);
            RelativeSpeed(r.0, r.1, n, rp1, rp2)
              == RelativeSpeed(a, b, n, rp1, rp2) + j * InverseMass(a, b, Cross(rp1, n), Cross(rp2, n))
  {
    var r := Push(a, b, n, rp1, rp2, j);
    PushShape(a, b, n, rp1, rp2, j);
    InverseMassValue(a, b, Cross(rp1, n), Cross(rp2, n));
    SpeedAfterPush(a, b, r.0, r.1, n, rp1, rp2, j, 1.0 / a.mass, 1.0 / b.mass, 1.0 / a.im, 1.0 / b.im,
                   InverseMass(a, b, Cross(rp1, n), Cross(rp2, n)));
  }

  /**
   * PushSpeed for any bodies p and q that the push turns a and b into,
   * with x = 1/m and y = 1/I given as numbers and d the effective inverse
   * mass.
   */
  lemma SpeedAfterPush(a: Polygon, b: Polygon, p: Polygon, q: Polygon, n: Vec, rp1: Vec, rp2: Vec, j: real,
                       x1: real, x2: real, y1: real, y2: real, d: real)
    requires Dot(n, n) == 1.0
    requires p.vel == Add(a.vel, Scale(n, j * x1)) && p.angVelo == a.angVelo + Cross(rp1, n) * j * y1
    requires q.vel == Add(b.vel, Scale(n, -(j * x2))) && q.angVelo == b.angVelo + -Cross(rp2, n) * j * y2
    requires d == x1 + x2 + Cross(rp1, n) * Cross(rp1, n) * y1 + Cross(rp2, n) * Cross(rp2, n) * y2
    ensures RelativeSpeed(p, q, n, rp1, rp2) == RelativeSpeed(a, b, n, rp1, rp2) + j * d
  {
    SpeedAfterChange(a, b, p, q, n, rp1, rp2, j * x1, Cross(rp1, n) * j * y1, -(j * x2), -Cross(rp2, n) * j * y2);
    SpeedGain(RelativeSpeed(p, q, n, rp1, rp2), RelativeSpeed(a, b, n, rp1, rp2),
              j, d, x1, x2, y1, y2, Cross(rp1, n), Cross(rp2, n));
  }

  /** The push written with additions only, in the form SpeedAfterChange takes. */
  lemma PushShape(a: Polygon, b: Polygon, n: Vec, rp1: Vec, rp2: Vec, j: real)
    requires a.mass > 0.0 && b.mass > 0.0 && a.im > 0.0 && b.im > 0.0
    ensures var r := Push(a, b, n, rp1, rp2, j);
            && r.0.vel == Add(a.vel, Scale(n, j * (1.0 / a.mass)))
            && r.0.angVelo == a.angVelo + Cross(rp1, n) * j * (1.0 / a.im)
            && r.1.vel == Add(b.vel, Scale(n, -(j * (1.0 / b.mass))))
            && r.1.angVelo == b.angVelo + -Cross(rp2, n) * j * (1.0 / b.im)
  {
    SubIsAddNegated(b.vel, n, j * (1.0 / b.mass));
  }

  /**
   * The relative normal speed after a changes by vel += n k1, angVelo += w1
   * and b by vel += n k2, angVelo += w2, for a unit n.
   */
  lemma SpeedAfterChange(a: Polygon, b: Polygon, p: Polygon, q: Polygon, n: Vec, rp1: Vec, rp2: Vec,
                         k1: real, w1: real, k2: real, w2: real)
    requires Dot(n, n) == 1.0
    requires p.vel == Add(a.vel, Scale(n, k1)) && p.angVelo == a.angVelo + w1
    requires q.vel == Add(b.vel, Scale(n, k2)) && q.angVelo == b.angVelo + w2
    ensures RelativeSpeed(p, q, n, rp1, rp2)
            == RelativeSpeed(a, b, n, rp1, rp2) + (k1 + w1 * Cross(rp1, n)) - (k2 + w2 * Cross(rp2, n))
  {
    BodySpeedAfter(a, p, rp1, k1, w1, n);
    BodySpeedAfter(b, q, rp2, k2, w2, n);
    PointVelocityDifference(a, b, n, rp1, rp2);
    PointVelocityDifference(p, q, n, rp1, rp2);
  }

  lemma SubIsAddNegated(v: Vec, n: Vec, k: real)
    ensures Sub(v, Scale(n, k)) == Add(v, Scale(n, -k))
  {
  }

  /** A body's contact speed along a unit n after vel += n k and angVelo += w. */
  lemma BodySpeedAfter(p: Polygon, q: Polygon, r: Vec, k: real, w: real, n: Vec)
    requires Dot(n, n) == 1.0
    requires q.vel == Add(p.vel, Scale(n, k)) && q.angVelo == p.angVelo + w
    ensures Dot(PointVelocity(q.vel, q.angVelo, r), n)
            == Dot(PointVelocity(p.vel, p.angVelo, r), n) + k + w * Cross(r, n)
  {
    PointVelocityNormal(q.vel, q.angVelo, r, n);
    PointVelocityNormal(p.vel, p.angVelo, r, n);
    DotSymmetric(p.vel, n, Scale(n, k), k);
    DotSymmetric(n, n, n, k);
  }

  /** The relative normal speed is the difference of the two contact speeds. */
  lemma PointVelocityDifference(a: Polygon, b: Polygon, n: Vec, rp1: Vec, rp2: Vec)
    ensures RelativeSpeed(a, b, n, rp1, rp2)
            == Dot(PointVelocity(a.vel, a.angVelo, rp1), n) - Dot(PointVelocity(b.vel, b.angVelo, rp2), n)
  {
  }

  /**
   * The arithmetic of PushSpeed: when the relative speed gains the two
   * bodies' contact-speed changes (with x = 1/m and y = 1/I), it gains j
   * times the effective inverse mass d.
   */
  lemma SpeedGain(after: real, before: real, j: real, d: real,
                  x1: real, x2: real, y1: real, y2: real, c1: real, c2: real)
    requires d == x1 + x2 + c1 * c1 * y1 + c2 * c2 * y2
    requires after == before + (j * x1 + c1 * j * y1 * c1) - (-(j * x2) + -c2 * j * y2 * c2)
    ensures after == before + j * d
  {
  }

  /** Linear momentum is unchanged by the kick; see PushConservesMomentum. */
  lemma KickConservesMomentum(a: Polygon, b: Polygon, n: Vec, rp1: Vec, rp2: Vec, cr: real)
    requires a.mass > 0.0 && b.mass > 0.0 && a.im > 0.0 && b.im > 0.0
    ensures var r := Kick(a, b, n, rp1, rp2, cr);
            Add(Scale(r.0.vel, a.mass), Scale(r.1.vel, b.mass))
              == Add(Scale(a.vel, a.mass), Scale(b.vel, b.mass))
  {
    var c1 := Cross(rp1, n);
    PushConservesMomentum(a, b, n, rp1, rp2, PairMagnitude(RelativeSpeed(a, b, n, rp1, rp2), a, b, c1, c1, cr));
  }

  /**
   * With a unit normal the kick leaves the relative normal velocity at -cr
   * times its old value exactly when the two lever terms agree
   * ((rp1 x n)^2 == (rp2 x n)^2), or the approach speed or 1 + cr is zero.
   * So with the demo's rp1-for-rp2 substitution the restitution law fails
   * for bodies struck at unequal lever arms.
   */
  lemma KickRestitution(a: Polygon, b: Polygon, n: Vec, rp1: Vec, rp2: Vec, cr: real)
    requires a.mass > 0.0 && b.mass > 0.0 && a.im > 0.0 && b.im > 0.0
    requires Dot(n, n) == 1.0
    ensures var r := Kick(a, b, n, rp1, rp2, cr);
            RelativeSpeed(r.0, r.1, n, rp1, rp2) == -cr * RelativeSpeed(a, b, n, rp1, rp2)
            <==> (Cross(rp1, n) * Cross(rp1, n) == Cross(rp2, n) * Cross(rp2, n)
                  || RelativeSpeed(a, b, n, rp1, rp2) == 0.0 || cr == -1.0)
  {
    var c1, c2 := Cross(rp1, n), Cross(rp2, n);
    var vn := RelativeSpeed(a, b, n, rp1, rp2);
    var j := PairMagnitude(vn, a, b, c1, c1, cr);
    PushSpeed(a, b, n, rp1, rp2, j);
    PairLaw(a, b, vn, j, c1, c2, cr, RelativeSpeed(Push(a, b, n, rp1, rp2, j).0, Push(a, b, n, rp1, rp2, j).1, n, rp1, rp2));
  }

  /**
   * The scalar core of KickRestitution: a magnitude j computed with the
   * lever term c1 twice, applied where the lever terms are c1 and c2.
   */
  lemma PairLaw(a: Polygon, b: Polygon, vn: real, j: real, c1: real, c2: real, cr: real, after: real)
    requires a.mass > 0.0 && b.mass > 0.0 && a.im > 0.0 && b.im > 0.0
    requires j * InverseMass(a, b, c1, c1) == -(1.0 + cr) * vn
    requires after == vn + j * InverseMass(a, b, c1, c2)
    ensures after == -cr * vn <==> (c1 * c1 == c2 * c2 || vn == 0.0 || cr == -1.0)
  {
    var y2 := 1.0 / b.im;
    var used := InverseMass(a, b, c1, c1);
    var gap := (c2 * c2 - c1 * c1) * y2;
    assert InverseMass(a, b, c1, c2) == used + gap;
    assert after + cr * vn == j * gap by {
      assert j * InverseMass(a, b, c1, c2) == j * used + j * gap;
    }
    PositiveSum(a.mass, b.mass, a.im, b.im, c1, c1);
    if c1 * c1 == c2 * c2 {
      assert gap == 0.0;
    } else if vn == 0.0 || cr == -1.0 {
      assert j * used == 0.0;
      ProductZero(j, used);
    } else {
      NonZeroProduct(-(1.0 + cr), vn);
      assert j != 0.0;
      assert y2 != 0.0;
      NonZeroProduct(c2 * c2 - c1 * c1, y2);
      NonZeroProduct(j, gap);
    }
  }

  lemma NonZeroProduct(p: real, q: real)
    requires p != 0.0 && q != 0.0
    ensures p * q != 0.0
  {
    if p * q == 0.0 {
      ProductZero(p, q);
    }
  }

  /** The pair impulse conserves momentum; see KickConservesMomentum. */
  lemma PairImpulseConservesMomentum(a: Polygon, b: Polygon, c: Contact, cr: real)
    requires HypotExact()
    requires a.mass > 0.0 && b.mass > 0.0 && a.im > 0.0 && b.im > 0.0
    ensures var r := PairImpulse(a, b, c, cr);
            Add(Scale(r.0.vel, a.mass), Scale(r.1.vel, b.mass))
              == Add(Scale(a.vel, a.mass), Scale(b.vel, b.mass))
  {
    KickConservesMomentum(a, b, ContactNormal(c), c.rp1, c.rp2, cr);
  }

  /**
   * For a contact with a non-zero edge the contact normal is a unit vector,
   * so the restitution law holds exactly when the lever terms agree.
   */
  lemma PairRestitution(a: Polygon, b: Polygon, c: Contact, cr: real)
    requires HypotExact()
    requires a.mass > 0.0 && b.mass > 0.0 && a.im > 0.0 && b.im > 0.0
    requires c.edge != Zero
    ensures var r := PairImpulse(a, b, c, cr);
            var n := ContactNormal(c);
            RelativeSpeed(r.0, r.1, n, c.rp1, c.rp2) == -cr * RelativeSpeed(a, b, n, c.rp1, c.rp2)
            <==> (Cross(c.rp1, n) * Cross(c.rp1, n) == Cross(c.rp2, n) * Cross(c.rp2, n)
                  || RelativeSpeed(a, b, n, c.rp1, c.rp2) == 0.0 || cr == -1.0)
  {
    var n := ContactNormal(c);
    assert Dot(n, n) == 1.0 by {
      UnitNormal(c.edge);
    }
    KickRestitution(a, b, n, c.rp1, c.rp2, cr);
  }

  /** The contact normal of a non-zero edge has length 1. */
  lemma UnitNormal(edge: Vec)
    requires HypotExact()
    requires edge != Zero
    ensures Dot(Perp(Normalize(edge), 1.0, true), Perp(Normalize(edge), 1.0, true)) == 1.0
  {
    var e := Normalize(edge);
    LengthZero(e);
    PerpLength(e, 1.0, true);
    LengthSquared(Perp(e, 1.0, true));
  }

  // ---------------------------------------------------------------------------
  // Floor

  /**
   * checkWallBounce: the search stops at the first vertex strictly below
   * the floor, so the second-contact branch is never taken; that vertex is
   * put on the floor and the floor impulse with cr = 0.4 is applied at it.
   */
  function WallBounce(p: Polygon): (q: Polygon)
    requires p.mass > 0.0 && p.im > 0.0
    ensures q.mass == p.mass && q.im == p.im && q.vertices == p.vertices && q.theta == p.theta
  {
    FloorBounce(p, true, Cr)
  }

  /** Every body of the list can take an impulse: positive mass and inertia. */
  predicate Massive(ps: seq<Polygon>) {
    forall k :: 0 <= k < |ps| ==> ps[k].mass > 0.0 && ps[k].im > 0.0
  }

  /**
   * The integration tail of the update for one body: move by vel dt, record
   * the turn angVelo dt through setRotation, bounce, then accelerate.
   */
  function Integrate(p: Polygon, dt: real): (q: Polygon)
    requires p.mass > 0.0 && p.im > 0.0
    ensures q.mass == p.mass && q.im == p.im && |q.vertices| == |p.vertices|
    ensures q.theta == p.angVelo * dt
  {
    var moved := SetRotation(p.(pos := Add(p.pos, Scale(p.vel, dt))), p.angVelo * dt);
    Accelerate(WallBounce(moved), dt)
  }

  /**
   * The force step: gravity 5 and drag -0.9 vel (the acceleration is
   * force / mass, so gravity's mass cancels) and the angular damping torque
   * -angVelo, applied for dt.
   */
  function Accelerate(b: Polygon, dt: real): (q: Polygon)
    requires b.mass > 0.0 && b.im > 0.0
    ensures q == b.(force := q.force, torque := q.torque, acc := q.acc, vel := q.vel, angVelo := q.angVelo)
  {
    var weight := Vec(0.0, b.mass * 5.0);
    var drag := Scale(b.vel, -0.9);
    var force := Add(weight, drag);
    var torque := 0.0 + -1.0 * b.angVelo;
    var acc := Scale(force, 1.0 / b.mass);
    var alph := torque / b.im;
    b.(force := force, torque := torque, acc := acc,
       vel := Add(b.vel, Scale(acc, dt)), angVelo := b.angVelo + alph * dt)
  }

  /**
   * Gravity's mass cancels: the acceleration is (0, 5) plus the drag over
   * the mass, and the velocities change by the accelerations times dt.
   */
  lemma AccelerateEffect(b: Polygon, dt: real)
    requires b.mass > 0.0 && b.im > 0.0
    ensures var q := Accelerate(b, dt);
            q.acc == Add(Vec(0.0, 5.0), Scale(b.vel, -0.9 / b.mass))
            && q.vel == Add(b.vel, Scale(q.acc, dt))
            && q.angVelo == b.angVelo - b.angVelo / b.im * dt
  {
    WeightShare(b.mass, b.vel.x, b.vel.y);
  }

  /** The acceleration components: (0 + vx (-0.9)) / m and (5 m + vy (-0.9)) / m. */
  lemma WeightShare(m: real, vx: real, vy: real)
    requires m > 0.0
    ensures (0.0 + vx * -0.9) * (1.0 / m) == 0.0 + vx * (-0.9 / m)
    ensures (m * 5.0 + vy * -0.9) * (1.0 / m) == 5.0 + vy * (-0.9 / m)
  {
  }

  /** Same bodies, as far as mass, inertia and vertex count go. */
  predicate SameBodies(qs: seq<Polygon>, ps: seq<Polygon>) {
    |qs| == |ps|
    && forall k :: 0 <= k < |ps| ==> qs[k].mass == ps[k].mass && qs[k].im == ps[k].im
                                     && |qs[k].vertices| == |ps[k].vertices|
  }

  /** q is p's body: same mass, inertia and vertex count. */
  predicate Like(q: Polygon, p: Polygon) {
    q.mass == p.mass && q.im == p.im && |q.vertices| == |p.vertices|
  }

  /** Replacing two bodies by like ones keeps the list's bodies. */
  lemma ReplaceKeepsBodies(qs: seq<Polygon>, ps: seq<Polygon>, i: int, j: int, a: Polygon, b: Polygon)
    requires SameBodies(qs, ps) && Massive(qs)
    requires 0 <= i < |qs| && 0 <= j < |qs|
    requires Like(a, qs[i]) && Like(b, qs[j])
    ensures SameBodies(qs[i := a][j := b], ps) && Massive(qs[i := a][j := b])
  {
  }

  /**
   * The response to one contact: separate the pair, bounce the first body
   * off the floor again, then apply the pair impulse with cr = 0.4.
   */
  function Respond(a: Polygon, b: Polygon, c: Contact): (r: (Polygon, Polygon))
    requires HypotExact()
    requires a.mass > 0.0 && a.im > 0.0 && b.mass > 0.0 && b.im > 0.0
    ensures Like(r.0, a) && Like(r.1, b)
  {
    var s := Separate(a, b, c);
    PairImpulse(WallBounce(s.0), s.1, c, Cr)
  }

  /**
   * The contact phase for body i: against every other body j in turn, a
   * contact separates the pair, bounces body i again and applies the pair
   * impulse with cr = 0.4.
   */
  method Contacts(ps: seq<Polygon>, i: int) returns (qs: seq<Polygon>)
    requires HypotExact()
    requires Massive(ps) && 0 <= i < |ps|
    ensures SameBodies(qs, ps) && Massive(qs)
  {
    qs := ps;
    var j := 0;
    while j < |qs|
      invariant 0 <= j <= |qs|
      invariant SameBodies(qs, ps) && Massive(qs)
    {
      if i != j {
        var hit, c := CheckPolygonCollision(qs[i], qs[j], NoContact);
        if hit {
          var r := Respond(qs[i], qs[j], c);
          ReplaceKeepsBodies(qs, ps, i, j, r.0, r.1);
          qs := qs[i := r.0][j := r.1];
        }
      }
      j := j + 1;
    }
  }

  /**
   * update: for each body in turn, bounce it, run its contact phase against
   * the state earlier steps left, then integrate it.  Masses, inertias and
   * vertex counts never change.
   */
  method Update(ps: seq<Polygon>, dt: real) returns (qs: seq<Polygon>)
    requires HypotExact()
    requires Massive(ps)
    ensures SameBodies(qs, ps) && Massive(qs)
  {
    qs := ps;
    var i := 0;
    while i < |qs|
      invariant 0 <= i <= |qs|
      invariant SameBodies(qs, ps) && Massive(qs)
    {
      qs := qs[i := WallBounce(qs[i])];
      var contacted := Contacts(qs, i);
      qs := contacted[i := Integrate(contacted[i], dt)];
      i := i + 1;
    }
  }
}
