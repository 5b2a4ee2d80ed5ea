/**
 * The polygon rigid body shared by the polygon-collision and second
 * rigid-body demos: local vertices around `pos`, a rotation angle `theta`
 * and the linear and angular state.  The colour and the index list are
 * rendering data and are not modelled.
 */
module Polygons {
  import opened Vec2

  datatype Polygon = Polygon(
    vertices: seq<Vec>,
    pos: Vec, vel: Vec, acc: Vec, force: Vec,
    mass: real, im: real, angVelo: real, torque: real, theta: real)

  /** A polygon with the given vertices and every other member at its default. */
  function WithVertices(vs: seq<Vec>): (p: Polygon)
    ensures p.vertices == vs && p.pos == Zero && p.vel == Zero
    ensures p.mass == 1.0 && p.im == 1.0 && p.angVelo == 0.0 && p.theta == 0.0
  {
    Polygon(vs, Zero, Zero, Zero, Zero, 1.0, 1.0, 0.0, 0.0, 0.0)
  }

  /** Every vertex of `vs` rotated by `angle`. */
  function RotateAll(vs: seq<Vec>, angle: real): (r: seq<Vec>)
    ensures |r| == |vs|
    ensures forall i :: 0 <= i < |vs| ==> r[i] == Rotate(vs[i], angle)
  {
    seq(|vs|, i requires 0 <= i < |vs| => Rotate(vs[i], angle))
  }

  /**
   * polygon::setRotation: records the angle and also rotates the stored
   * vertices by it, so a later world transform rotates them a second time.
   */
  function SetRotation(p: Polygon, angle: real): (q: Polygon)
    ensures q.theta == angle
    ensures q.vertices == RotateAll(p.vertices, angle)
    ensures q == p.(vertices := q.vertices, theta := angle)
  {
    p.(theta := angle, vertices := RotateAll(p.vertices, angle))
  }

  /** The world position of vertex i: pos plus the vertex rotated by getRotation(). */
  function World(p: Polygon, i: int): Vec
    requires 0 <= i < |p.vertices|
  {
    Add(p.pos, Rotate(p.vertices[i], p.theta))
  }

  /** The world position of the vertex after vertex i, wrapping to the first. */
  function WorldNext(p: Polygon, i: int): (v: Vec)
    requires 0 <= i < |p.vertices|
    ensures i + 1 < |p.vertices| ==> v == World(p, i + 1)
    ensures i + 1 == |p.vertices| ==> v == World(p, 0)
  {
    NextIndex(i, |p.vertices|);
    World(p, (i + 1) % |p.vertices|)
  }

  /** (i + 1) % n steps to the next index and wraps the last one to 0. */
  lemma NextIndex(i: int, n: int)
    requires 0 <= i < n
    ensures i + 1 < n ==> (i + 1) % n == i + 1
    ensures i + 1 == n ==> (i + 1) % n == 0
  {
  }

  /** All world vertices, in order. */
  function Worlds(p: Polygon): (ws: seq<Vec>)
    ensures |ws| == |p.vertices|
    ensures forall i :: 0 <= i < |ws| ==> ws[i] == World(p, i)
  {
    seq(|p.vertices|, i requires 0 <= i < |p.vertices| => World(p, i))
  }

  /** The sum of the positions of a list of bodies. */
  function SumPos(ps: seq<Polygon>): Vec {
    if ps == [] then Zero else Add(ps[0].pos, SumPos(ps[1..]))
  }

  /** Replacing one body's position changes the sum by exactly the difference. */
  lemma {:induction false} SumPosUpdate(ps: seq<Polygon>, i: int, p: Vec)
    requires 0 <= i < |ps|
    ensures SumPos(ps[i := ps[i].(pos := p)]) == Add(Sub(SumPos(ps), ps[i].pos), p)
  {
    if i > 0 {
      var qs := ps[i := ps[i].(pos := p)];
      assert qs[1..] == ps[1..][i - 1 := ps[i].(pos := p)];
      SumPosUpdate(ps[1..], i - 1, p);
    }
  }

  /**
   * Moving body i by +d and a different body j by -d keeps the sum of
   * positions.
   */
  lemma OppositeMovesKeepSum(ps: seq<Polygon>, i: int, j: int, d: Vec)
    requires 0 <= i < |ps| && 0 <= j < |ps| && i != j
    ensures var qs := ps[i := ps[i].(pos := Add(ps[i].pos, d))];
            SumPos(qs[j := qs[j].(pos := Sub(qs[j].pos, d))]) == SumPos(ps)
  {
    var qs := ps[i := ps[i].(pos := Add(ps[i].pos, d))];
    SumPosUpdate(ps, i, Add(ps[i].pos, d));
    SumPosUpdate(qs, j, Sub(qs[j].pos, d));
  }
}
