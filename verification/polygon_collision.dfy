/**
 * Polygon-polygon contact of the polygon-collision demo: the separating
 * axis test, the centre-to-vertex segment test, and the pairwise push-apart
 * of the update step.  The source's INFINITY start values become an empty
 * interval and an absent minimum.
 */
module PolygonCollision {
  import opened CMath
  import opened Vec2
  import opened Polygons
  import Collision

  /** The demo's collisionInfo: a vertex, an intersection point, an axis and a depth. */
  datatype Contact = Contact(vertex: Vec, intersection: Vec, edge: Vec, depth: real)

  const NoContact := Contact(Zero, Zero, Zero, 0.0)

  // ---------------------------------------------------------------------------
  // Projected intervals

  /** The running [min, max] of projections; Empty is the (INFINITY, -INFINITY) start. */
  datatype Span = Empty | Span(lo: real, hi: real)

  function Min(a: real, b: real): real { if a <= b then a else b }
  function Max(a: real, b: real): real { if a >= b then a else b }

  /** One loop step: std::min and std::max of the new projection with the running bounds. */
  function Extend(s: Span, v: real): (r: Span)
    ensures r.Span? && r.lo <= v <= r.hi
  {
    match s
    case Empty => Span(v, v)
    case Span(lo, hi) => Span(Min(v, lo), Max(v, hi))
  }

  predicate InSpan(v: real, s: Span) {
    s.Span? && s.lo <= v <= s.hi
  }

  /**
   * The running interval of the projections of `pts` on `n`, in the order
   * the loop visits them: empty exactly for no points, and never inverted.
   */
  function Extent(pts: seq<Vec>, n: Vec): (s: Span)
    ensures pts == [] <==> s.Empty?
    ensures s.Span? ==> s.lo <= s.hi
    decreases |pts|
  {
    if pts == [] then Empty
    else Extend(Extent(pts[..|pts| - 1], n), Dot(pts[|pts| - 1], n))
  }

  /**
   * The interval is exactly the range of the projections: every projection
   * lies in it, and its two ends are the projections of some points.
   */
  lemma {:induction false} ExtentBounds(pts: seq<Vec>, n: Vec)
    ensures forall k :: 0 <= k < |pts| ==> InSpan(Dot(pts[k], n), Extent(pts, n))
    ensures Extent(pts, n).Span? ==>
              (exists k :: 0 <= k < |pts| && Extent(pts, n).lo == Dot(pts[k], n))
              && (exists k :: 0 <= k < |pts| && Extent(pts, n).hi == Dot(pts[k], n))
    decreases |pts|
  {
    if pts != [] {
      var init := pts[..|pts| - 1];
      var last := |pts| - 1;
      ExtentBounds(init, n);
      assert forall k :: 0 <= k < |init| ==> pts[k] == init[k];
      var s0 := Extent(init, n);
      var s := Extent(pts, n);
      if s0.Span? {
        var a :| 0 <= a < |init| && s0.lo == Dot(init[a], n);
        var b :| 0 <= b < |init| && s0.hi == Dot(init[b], n);
        if s.lo == Dot(pts[last], n) {
        } else {
          assert s.lo == Dot(pts[a], n);
        }
        if s.hi == Dot(pts[last], n) {
        } else {
          assert s.hi == Dot(pts[b], n);
        }
      } else {
        assert s.lo == Dot(pts[last], n) && s.hi == Dot(pts[last], n);
      }
    }
  }

  /** The collision test of one axis: maxA >= minB and maxB >= minA. */
  predicate Overlaps(a: Span, b: Span) {
    a.Span? && b.Span? && a.hi >= b.lo && b.hi >= a.lo
  }

  /** min(maxA, maxB) - max(minA, minB). */
  function OverlapDepth(a: Span, b: Span): real {
    if a.Span? && b.Span? then Min(a.hi, b.hi) - Max(a.lo, b.lo) else 0.0
  }

  /**
   * For well-formed intervals the axis test holds exactly when some value
   * lies in both, and then the depth is not negative.
   */
  lemma OverlapMeansCommonValue(a: Span, b: Span)
    requires a.Span? ==> a.lo <= a.hi
    requires b.Span? ==> b.lo <= b.hi
    ensures Overlaps(a, b) <==> exists v :: InSpan(v, a) && InSpan(v, b)
    ensures Overlaps(a, b) ==> OverlapDepth(a, b) >= 0.0
    ensures Overlaps(a, b) <==> Overlaps(b, a)
    ensures OverlapDepth(a, b) == OverlapDepth(b, a)
  {
    if Overlaps(a, b) {
      var v := Max(a.lo, b.lo);
      assert InSpan(v, a) && InSpan(v, b);
    }
  }

  // ---------------------------------------------------------------------------
  // Separating axis test

  /** The unit normal of edge i: the edge normalised, turned anticlockwise, normalised again. */
  function EdgeNormal(p: Polygon, i: int): Vec
    requires HypotExact()
    requires 0 <= i < |p.vertices|
  {
    Normalize(Perp(Normalize(Sub(WorldNext(p, i), World(p, i))), 1.0, true))
  }

  /** One axis test: an axis and the world vertices of the two polygons. */
  datatype AxisTest = AxisTest(normal: Vec, a: seq<Vec>, b: seq<Vec>)

  /** The edge normals of `p`, tested with `p` as polygon A and `q` as polygon B. */
  function AxesOf(p: Polygon, q: Polygon): (ts: seq<AxisTest>)
    requires HypotExact()
    ensures |ts| == |p.vertices|
    ensures forall i :: 0 <= i < |ts| ==> ts[i] == AxisTest(EdgeNormal(p, i), Worlds(p), Worlds(q))
  {
    seq(|p.vertices|, i requires 0 <= i < |p.vertices| => AxisTest(EdgeNormal(p, i), Worlds(p), Worlds(q)))
  }

  /** The axes in the order satCollision visits them: poly1's edges, then poly2's. */
  function SatTests(p1: Polygon, p2: Polygon): seq<AxisTest>
    requires HypotExact()
  {
    AxesOf(p1, p2) + AxesOf(p2, p1)
  }

  predicate AxisOverlaps(t: AxisTest) {
    Overlaps(Extent(t.a, t.normal), Extent(t.b, t.normal))
  }

  function AxisDepth(t: AxisTest): real {
    OverlapDepth(Extent(t.a, t.normal), Extent(t.b, t.normal))
  }

  /** Axis m has the least depth among `ts`, and is the first that has it. */
  predicate FirstShallowest(ts: seq<AxisTest>, m: int) {
    0 <= m < |ts|
    && (forall j :: 0 <= j < |ts| ==> AxisDepth(ts[m]) <= AxisDepth(ts[j]))
    && (forall j :: 0 <= j < m ==> AxisDepth(ts[m]) < AxisDepth(ts[j]))
  }

  /** What the loop body of satCollision computes for one axis. */
  datatype Verdict = Verdict(overlaps: bool, depth: real, axis: Vec)

  function Verdicts(ts: seq<AxisTest>): (vs: seq<Verdict>)
    ensures |vs| == |ts|
    ensures forall i :: 0 <= i < |ts| ==> vs[i] == Verdict(AxisOverlaps(ts[i]), AxisDepth(ts[i]), ts[i].normal)
  {
    seq(|ts|, i requires 0 <= i < |ts| => Verdict(AxisOverlaps(ts[i]), AxisDepth(ts[i]), ts[i].normal))
  }

  /** Verdict m has the least depth, and is the first that has it. */
  predicate Shallowest(vs: seq<Verdict>, m: int) {
    0 <= m < |vs|
    && (forall j :: 0 <= j < |vs| ==> vs[m].depth <= vs[j].depth)
    && (forall j :: 0 <= j < m ==> vs[m].depth < vs[j].depth)
  }

  /**
   * The axis loop of satCollision over the per-axis verdicts: stop with
   * false at the first axis that does not overlap; otherwise keep the
   * depth and axis of every strictly smaller overlap seen so far.
   */
  method ScanVerdicts(vs: seq<Verdict>, info: Contact) returns (hit: bool, out: Contact)
    ensures hit <==> forall k :: 0 <= k < |vs| ==> vs[k].overlaps
    ensures hit && vs == [] ==> out == info
    ensures hit && vs != [] ==>
              exists m :: Shallowest(vs, m) && vs[m].overlaps
                          && out == info.(depth := vs[m].depth, edge := vs[m].axis)
    ensures !hit ==> out == info
                     || exists m :: 0 <= m < |vs| && vs[m].overlaps
                                    && out == info.(depth := vs[m].depth, edge := vs[m].axis)
  {
    var depth: Collision.Option<real> := Collision.None;
    ghost var m := 0;
    out := info;
    var k := 0;
    while k < |vs|
      invariant 0 <= k <= |vs|
      invariant forall j :: 0 <= j < k ==> vs[j].overlaps
      invariant depth.None? <==> k == 0
      invariant k == 0 ==> out == info
      invariant k > 0 ==> 0 <= m < k && depth.value == vs[m].depth && vs[m].overlaps
                          && out == info.(depth := vs[m].depth, edge := vs[m].axis)
      invariant k > 0 ==> forall j :: 0 <= j < k ==> depth.value <= vs[j].depth
      invariant k > 0 ==> forall j :: 0 <= j < m ==> depth.value < vs[j].depth
    {
      var v := vs[k];
      if !v.overlaps {
        return false, out;
      }
      if depth.None? || v.depth < depth.value {
        depth := Collision.Some(v.depth);
        out := out.(depth := v.depth, edge := v.axis);
        m := k;
      }
      k := k + 1;
    }
    hit := true;
  }

  /**
   * satCollision's axis loop over a list of axis tests: true exactly when
   * every axis overlaps.  Then the contact holds the depth of the first
   * shallowest axis and that axis (or is untouched when there are none).  On
   * false the contact may already hold an earlier axis's depth.  The vertex
   * and intersection fields are never written.  Each axis's verdict is a
   * pure function of the axis, so computing them up front does not change
   * the outcome.
   */
  method ScanAxes(ts: seq<AxisTest>, info: Contact) returns (hit: bool, out: Contact)
    ensures hit <==> forall k :: 0 <= k < |ts| ==> AxisOverlaps(ts[k])
    ensures hit && ts == [] ==> out == info
    ensures hit && ts != [] ==>
              exists m :: FirstShallowest(ts, m) && AxisOverlaps(ts[m])
                          && out == info.(depth := AxisDepth(ts[m]), edge := ts[m].normal)
    ensures !hit ==> out == info
                     || exists m :: 0 <= m < |ts| && AxisOverlaps(ts[m])
                                    && out == info.(depth := AxisDepth(ts[m]), edge := ts[m].normal)
  {
    var vs := Verdicts(ts);
    hit, out := ScanVerdicts(vs, info);
    if hit && ts != [] {
      var m :| Shallowest(vs, m) && vs[m].overlaps && out == info.(depth := vs[m].depth, edge := vs[m].axis);
      assert FirstShallowest(ts, m);
    } else if !hit && out != info {
      var m :| 0 <= m < |vs| && vs[m].overlaps && out == info.(depth := vs[m].depth, edge := vs[m].axis);
      assert AxisOverlaps(ts[m]);
    }
  }

  /**
   * satCollision: true exactly when every edge normal of both polygons
   * overlaps; then the contact holds the first shallowest axis and its
   * depth, which is not negative.
   */
  method SatCollision(p1: Polygon, p2: Polygon, info: Contact) returns (hit: bool, out: Contact)
    requires HypotExact()
    ensures hit <==> forall k :: 0 <= k < |SatTests(p1, p2)| ==> AxisOverlaps(SatTests(p1, p2)[k])
    ensures out.vertex == info.vertex && out.intersection == info.intersection
    ensures hit && SatTests(p1, p2) == [] ==> out == info
    ensures hit && SatTests(p1, p2) != [] ==>
              exists m :: FirstShallowest(SatTests(p1, p2), m)
                          && out == info.(depth := AxisDepth(SatTests(p1, p2)[m]),
                                          edge := SatTests(p1, p2)[m].normal)
    ensures hit && SatTests(p1, p2) != [] ==> out.depth >= 0.0
  {
    var ts := SatTests(p1, p2);
    hit, out := ScanAxes(ts, info);
    if hit && ts != [] {
      var m :| FirstShallowest(ts, m) && AxisOverlaps(ts[m])
               && out == info.(depth := AxisDepth(ts[m]), edge := ts[m].normal);
      OverlapMeansCommonValue(Extent(ts[m].a, ts[m].normal), Extent(ts[m].b, ts[m].normal));
    }
  }

  // ---------------------------------------------------------------------------
  // Segment test

  /**
   * One segment test: l1 is the centre of the first polygon, l2 one of its
   * world vertices, and l3-l4 an edge of the other polygon.
   */
  datatype Probe = Probe(l1: Vec, l2: Vec, l3: Vec, l4: Vec)

  /** The edges of `q` against the segment from p's centre to p's vertex i. */
  function Row(p: Polygon, q: Polygon, i: int): (r: seq<Probe>)
    requires 0 <= i < |p.vertices|
    ensures |r| == |q.vertices|
    ensures forall j :: 0 <= j < |r| ==> r[j] == Probe(p.pos, World(p, i), World(q, j), WorldNext(q, j))
  {
    seq(|q.vertices|, j requires 0 <= j < |q.vertices| => Probe(p.pos, World(p, i), World(q, j), WorldNext(q, j)))
  }

  /** The rows of vertices i, i+1, ... of `p`, in loop order. */
  function Rows(p: Polygon, q: Polygon, i: nat): seq<Probe>
    requires i <= |p.vertices|
    decreases |p.vertices| - i
  {
    if i == |p.vertices| then [] else Row(p, q, i) + Rows(p, q, i + 1)
  }

  /** Every segment test of checkPolygonCollision in iteration order, both ways round. */
  function Probes(p1: Polygon, p2: Polygon): seq<Probe> {
    Rows(p1, p2, 0) + Rows(p2, p1, 0)
  }

  /** The test's hit condition: the determinant is non-zero and t, u both lie in [0, 1]. */
  predicate Hits(pr: Probe) {
    var ps := Collision.Params(pr.l1, pr.l2, pr.l3, pr.l4);
    ps.Some? && Collision.InUnit(ps.value.0) && Collision.InUnit(ps.value.1)
  }

  function HitPoint(pr: Probe): Vec
    requires Hits(pr)
  {
    Collision.PointAt(pr.l1, pr.l2, Collision.Params(pr.l1, pr.l2, pr.l3, pr.l4).value.0)
  }

  /** The distance from the intersection to the tested vertex l2. */
  function HitDistance(pr: Probe): real
    requires Hits(pr)
  {
    Length(Sub(HitPoint(pr), pr.l2))
  }

  /** The reported axis: the normalised edge turned anticlockwise. */
  function HitEdge(pr: Probe): Vec
    requires HypotExact()
  {
    Perp(Normalize(Sub(pr.l4, pr.l3)), 1.0, true)
  }

  /**
   * The inline test agrees with the collision header's lineToLineIntersect:
   * the same hit condition, the same point (which lies on both segments),
   * and the distance is that contact's length.
   */
  lemma ProbeIsLineIntersect(pr: Probe, c: Collision.Info)
    requires HypotExact()
    ensures var r := Collision.LineToLineIntersect(pr.l1, pr.l2, pr.l3, pr.l4, c);
            (Hits(pr) <==> r.0)
            && (Hits(pr) ==> HitPoint(pr) == r.1.intersection && HitDistance(pr) == Collision.Depth(r.1)
                             && HitEdge(pr) == r.1.normal)
  {
  }

  /** Probe m hits, is nearest among the hits, and is the first hit that near. */
  predicate FirstNearest(prs: seq<Probe>, m: int) {
    0 <= m < |prs| && Hits(prs[m])
    && (forall j :: 0 <= j < |prs| && Hits(prs[j]) ==> HitDistance(prs[m]) <= HitDistance(prs[j]))
    && (forall j :: 0 <= j < m && Hits(prs[j]) ==> HitDistance(prs[m]) < HitDistance(prs[j]))
  }

  /** What the innermost loop body of checkPolygonCollision computes for one test. */
  datatype Crossing = Crossing(hits: bool, distance: real, edge: Vec)

  function Crossings(prs: seq<Probe>): (cs: seq<Crossing>)
    requires HypotExact()
    ensures |cs| == |prs|
    ensures forall i :: 0 <= i < |prs| ==>
              cs[i] == Crossing(Hits(prs[i]), if Hits(prs[i]) then HitDistance(prs[i]) else 0.0, HitEdge(prs[i]))
  {
    seq(|prs|, i requires 0 <= i < |prs| =>
      Crossing(Hits(prs[i]), if Hits(prs[i]) then HitDistance(prs[i]) else 0.0, HitEdge(prs[i])))
  }

  /** Crossing m hits, is the nearest hit, and is the first that near. */
  predicate Nearest(cs: seq<Crossing>, m: int) {
    0 <= m < |cs| && cs[m].hits
    && (forall j :: 0 <= j < |cs| && cs[j].hits ==> cs[m].distance <= cs[j].distance)
    && (forall j :: 0 <= j < m && cs[j].hits ==> cs[m].distance < cs[j].distance)
  }

  /**
   * The loop of checkPolygonCollision over the crossings: a hit strictly
   * nearer than minLength (initially infinite) replaces the contact's depth
   * and edge and sets the result.
   */
  method ScanCrossings(cs: seq<Crossing>, info: Contact) returns (hit: bool, out: Contact)
    ensures hit <==> exists k :: 0 <= k < |cs| && cs[k].hits
    ensures !hit ==> out == info
    ensures hit ==> exists m :: Nearest(cs, m) && out == info.(depth := cs[m].distance, edge := cs[m].edge)
  {
    var minLength: Collision.Option<real> := Collision.None;
    ghost var m := 0;
    hit := false;
    out := info;
    var k := 0;
    while k < |cs|
      invariant 0 <= k <= |cs|
      invariant hit <==> exists j :: 0 <= j < k && cs[j].hits
      invariant hit <==> minLength.Some?
      invariant !hit ==> out == info
      invariant hit ==> 0 <= m < k && cs[m].hits && minLength.value == cs[m].distance
                        && out == info.(depth := cs[m].distance, edge := cs[m].edge)
      invariant hit ==> forall j :: 0 <= j < k && cs[j].hits ==> cs[m].distance <= cs[j].distance
      invariant hit ==> forall j :: 0 <= j < m && cs[j].hits ==> cs[m].distance < cs[j].distance
    {
      var c := cs[k];
      if c.hits {
        if minLength.None? || c.distance < minLength.value {
          minLength := Collision.Some(c.distance);
          out := out.(depth := c.distance, edge := c.edge);
          hit := true;
          m := k;
        }
      }
      k := k + 1;
    }
  }

  /**
   * The same loop over a list of segment tests: true exactly when some test
   * hits; then the contact holds the smallest intersection-to-vertex
   * distance (the first test attaining it) and that test's edge normal; on
   * false the contact is untouched.
   */
  method ScanProbes(prs: seq<Probe>, info: Contact) returns (hit: bool, out: Contact)
    requires HypotExact()
    ensures hit <==> exists k :: 0 <= k < |prs| && Hits(prs[k])
    ensures !hit ==> out == info
    ensures hit ==> exists m :: FirstNearest(prs, m)
                                && out == info.(depth := HitDistance(prs[m]), edge := HitEdge(prs[m]))
  {
    var cs := Crossings(prs);
    hit, out := ScanCrossings(cs, info);
    if hit {
      var m :| Nearest(cs, m) && out == info.(depth := cs[m].distance, edge := cs[m].edge);
      assert FirstNearest(prs, m);
    } else {
      assert forall k :: 0 <= k < |prs| ==> !cs[k].hits;
    }
  }

  /**
   * checkPolygonCollision: true exactly when some centre-to-vertex segment
   * of either polygon crosses an edge of the other; then the contact holds
   * the nearest such crossing's distance, which is not negative, and edge.
   */
  method CheckPolygonCollision(p1: Polygon, p2: Polygon, info: Contact) returns (hit: bool, out: Contact)
    requires HypotExact()
    ensures hit <==> exists k :: 0 <= k < |Probes(p1, p2)| && Hits(Probes(p1, p2)[k])
    ensures !hit ==> out == info
    ensures hit ==> exists m :: FirstNearest(Probes(p1, p2), m)
                                && out == info.(depth := HitDistance(Probes(p1, p2)[m]),
                                                edge := HitEdge(Probes(p1, p2)[m]))
    ensures hit ==> out.depth >= 0.0
  {
    var prs := Probes(p1, p2);
    hit, out := ScanProbes(prs, info);
    if hit {
      var m :| FirstNearest(prs, m) && out == info.(depth := HitDistance(prs[m]), edge := HitEdge(prs[m]));
      LengthZero(Sub(HitPoint(prs[m]), prs[m].l2));
    }
  }

  // ---------------------------------------------------------------------------
  // Pairwise separation

  /**
   * What the selected collision function reports for a default contact
   * record: the SAT verdict with the first shallowest axis's depth and
   * normal, or the segment verdict with the first nearest crossing's
   * distance and edge normal.  Either way a reported depth is not negative.
   */
  ghost predicate Reported(p1: Polygon, p2: Polygon, useSat: bool, hit: bool, c: Contact)
    requires HypotExact()
  {
    if useSat then
      var ts := SatTests(p1, p2);
      (hit <==> forall k :: 0 <= k < |ts| ==> AxisOverlaps(ts[k]))
      && (hit && ts == [] ==> c == NoContact)
      && (hit && ts != [] ==> exists m :: FirstShallowest(ts, m)
                                          && c == NoContact.(depth := AxisDepth(ts[m]), edge := ts[m].normal)
                                          && c.depth >= 0.0)
    else
      var prs := Probes(p1, p2);
      (hit <==> exists k :: 0 <= k < |prs| && Hits(prs[k]))
      && (hit ==> exists m :: FirstNearest(prs, m)
                              && c == NoContact.(depth := HitDistance(prs[m]), edge := HitEdge(prs[m]))
                              && c.depth >= 0.0)
  }

  /**
   * The collision function the update step selects, run on a fresh
   * (default) contact record: satCollision when useSat, otherwise
   * checkPolygonCollision.
   */
  method Collide(p1: Polygon, p2: Polygon, useSat: bool) returns (hit: bool, c: Contact)
    requires HypotExact()
    ensures Reported(p1, p2, useSat, hit, c)
  {
    if useSat {
      hit, c := SatCollision(p1, p2, NoContact);
    } else {
      hit, c := CheckPolygonCollision(p1, p2, NoContact);
    }
  }

  /** qs is ps with, at most, the positions changed. */
  predicate Moved(qs: seq<Polygon>, ps: seq<Polygon>) {
    |qs| == |ps| && forall k :: 0 <= k < |ps| ==> qs[k] == ps[k].(pos := qs[k].pos)
  }

  /**
   * One step of the update's pair loop: a contact between polygons i and j
   * moves i by edge * depth/2 and j by the opposite; without a contact
   * nothing changes.  Only positions change and their sum is kept.
   */
  method Resolve(qs: seq<Polygon>, i: int, j: int, useSat: bool) returns (rs: seq<Polygon>, hit: bool, c: Contact)
    requires HypotExact()
    requires 0 <= i < |qs| && 0 <= j < |qs| && i != j
    ensures Reported(qs[i], qs[j], useSat, hit, c)
    ensures !hit ==> rs == qs
    ensures hit ==> rs == qs[i := qs[i].(pos := Add(qs[i].pos, Scale(c.edge, c.depth * 0.5)))]
                            [j := qs[j].(pos := Sub(qs[j].pos, Scale(c.edge, c.depth * 0.5)))]
    ensures Moved(rs, qs) && SumPos(rs) == SumPos(qs)
  {
    rs := qs;
    hit, c := Collide(qs[i], qs[j], useSat);
    if hit {
      var displ := Scale(c.edge, c.depth * 0.5);
      OppositeMovesKeepSum(qs, i, j, displ);
      rs := rs[i := rs[i].(pos := Add(rs[i].pos, displ))];
      rs := rs[j := rs[j].(pos := Sub(rs[j].pos, displ))];
    }
  }

  /**
   * update: for every ordered pair of distinct polygons (each seeing the
   * positions the earlier pairs left), a contact moves the first polygon
   * by edge * depth/2 and the second by the opposite.  Only positions
   * change, and their sum is kept.
   */
  method Update(ps: seq<Polygon>, useSat: bool) returns (qs: seq<Polygon>)
    requires HypotExact()
    ensures |qs| == |ps|
    ensures forall k :: 0 <= k < |ps| ==> qs[k] == ps[k].(pos := qs[k].pos)
    ensures SumPos(qs) == SumPos(ps)
  {
    qs := ps;
    var i := 0;
    while i < |qs|
      invariant 0 <= i <= |qs|
      invariant Moved(qs, ps) && SumPos(qs) == SumPos(ps)
    {
      var j := 0;
      while j < |qs|
        invariant 0 <= j <= |qs|
        invariant Moved(qs, ps) && SumPos(qs) == SumPos(ps)
      {
        if i != j {
          var rs, _, _ := Resolve(qs, i, j, useSat);
          qs := rs;
        }
        j := j + 1;
      }
      i := i + 1;
    }
  }
}
