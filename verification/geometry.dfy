/**
 * Axis-aligned rectangles and the rectangle predicates the demos share.
 * One record stands for all of the demos' rectangle types: the Rect2D of the
 * geometry header, SDL's (x, y, w, h) float rectangle and the eightball
 * AABB all hold a corner `pos` and an extent `size`.
 */
module Geometry {
  import opened Vec2

  datatype Rect = Rect(pos: Vec, size: Vec)

  /** Rect2D's defaulted constructor: corner and extent both (0, 0). */
  function DefaultRect(): (r: Rect)
    ensures r.pos == Zero && r.size == Zero
    ensures Area(r) == 0.0
  {
    Rect(Zero, Zero)
  }

  /** Rect2D::getArea. */
  function Area(r: Rect): real {
    r.size.x * r.size.y
  }

  /** Rect2D::containsPoint, a stub that never holds. */
  function ContainsPoint(r: Rect, p: Vec): bool {
    false
  }

  /** Rect2D::intersectRect, a stub that never holds. */
  function IntersectRect(r: Rect, other: Rect): bool {
    false
  }

  /** pointInRect: closed containment on both axes. */
  predicate PointInRect(p: Vec, r: Rect) {
    r.pos.x <= p.x <= r.pos.x + r.size.x && r.pos.y <= p.y <= r.pos.y + r.size.y
  }

  /** rectToRectIntersect: the open interiors overlap on both axes. */
  predicate RectsIntersect(a: Rect, b: Rect) {
    a.pos.x < b.pos.x + b.size.x && a.pos.x + a.size.x > b.pos.x
    && a.pos.y < b.pos.y + b.size.y && a.pos.y + a.size.y > b.pos.y
  }

  /**
   * rectFitCompletely (rectangle quadtree) and AABB::intersect (eightball):
   * `inner` lies in `outer`, closed on both axes.
   */
  predicate Fits(inner: Rect, outer: Rect) {
    outer.pos.x <= inner.pos.x && inner.pos.x + inner.size.x <= outer.pos.x + outer.size.x
    && outer.pos.y <= inner.pos.y && inner.pos.y + inner.size.y <= outer.pos.y + outer.size.y
  }

  /**
   * The stubs answer false even where the real tests hold: the corner of a
   * rectangle of positive size lies in it, and the rectangle overlaps itself.
   */
  lemma StubsNeverHold(r: Rect)
    requires r.size.x > 0.0 && r.size.y > 0.0
    ensures PointInRect(r.pos, r) && !ContainsPoint(r, r.pos)
    ensures RectsIntersect(r, r) && !IntersectRect(r, r)
  {
  }

  /**
   * The overlap test is symmetric, and strict: rectangles that only share
   * an edge do not intersect.
   */
  lemma IntersectSymmetricStrict(a: Rect, b: Rect)
    ensures RectsIntersect(a, b) <==> RectsIntersect(b, a)
    ensures b.pos.x == a.pos.x + a.size.x ==> !RectsIntersect(a, b)
    ensures b.pos.y == a.pos.y + a.size.y ==> !RectsIntersect(a, b)
  {
  }

  /** Closed containment is reflexive and transitive. */
  lemma FitsPreorder(a: Rect, b: Rect, c: Rect)
    ensures Fits(a, a)
    ensures Fits(a, b) && Fits(b, c) ==> Fits(a, c)
  {
  }

  /** A point of a rectangle that fits in another is a point of the other. */
  lemma FitsPoints(p: Vec, inner: Rect, outer: Rect)
    requires Fits(inner, outer) && PointInRect(p, inner)
    ensures PointInRect(p, outer)
  {
  }

  /**
   * A point strictly inside `range` that lies in `r` (closed) makes the two
   * rectangles overlap.
   */
  lemma InteriorPointOverlaps(p: Vec, r: Rect, range: Rect)
    requires PointInRect(p, r)
    requires range.pos.x < p.x < range.pos.x + range.size.x
    requires range.pos.y < p.y < range.pos.y + range.size.y
    ensures RectsIntersect(r, range)
  {
  }

  /**
   * The i-th quadrant of `r` (0 top-left, 1 top-right, 2 bottom-left,
   * 3 bottom-right), of half the width and half the height.
   */
  function Quadrant(r: Rect, i: int): (q: Rect)
    requires 0 <= i < 4
    ensures q.size == Vec(r.size.x * 0.5, r.size.y * 0.5)
    ensures q.pos == Vec(r.pos.x + (if i % 2 == 1 then q.size.x else 0.0), r.pos.y + (if i >= 2 then q.size.y else 0.0))
    ensures 4.0 * Area(q) == Area(r)
    ensures r.size.x >= 0.0 && r.size.y >= 0.0 ==> Fits(q, r)
  {
    var hw := r.size.x * 0.5;
    var hh := r.size.y * 0.5;
    var size := Vec(hw, hh);
    if i == 0 then Rect(r.pos, size)
    else if i == 1 then Rect(Vec(r.pos.x + hw, r.pos.y), size)
    else if i == 2 then Rect(Vec(r.pos.x, r.pos.y + hh), size)
    else Rect(Vec(r.pos.x + hw, r.pos.y + hh), size)
  }

  /** Every point of a rectangle of non-negative size lies in one of its quadrants. */
  lemma QuadrantsCover(p: Vec, r: Rect)
    requires r.size.x >= 0.0 && r.size.y >= 0.0 && PointInRect(p, r)
    ensures exists i :: 0 <= i < 4 && PointInRect(p, Quadrant(r, i))
  {
    var hw := r.size.x * 0.5;
    var hh := r.size.y * 0.5;
    var i := (if p.x <= r.pos.x + hw then 0 else 1) + (if p.y <= r.pos.y + hh then 0 else 2);
    assert PointInRect(p, Quadrant(r, i));
  }
}
