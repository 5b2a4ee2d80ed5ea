/**
 * The Sierpinski-triangle demo's init: the chaos game.  The three corners of
 * a fixed triangle are stored first; then, from a start point inside it,
 * each of 50000 iterations picks a corner at random, moves the selected
 * point to the midpoint between it and that corner, and stores the new
 * point.  The random corner indices are a parameter.
 *
 * Points are located with barycentric coordinates with respect to the
 * triangle: a point is inside (or on the boundary) exactly when all three
 * coordinates are non-negative, and taking a midpoint averages them.
 */
module Sierpinski {

  datatype Point = Point(x: real, y: real)

  /** Barycentric coordinates: the weights of corners 0, 1 and 2. */
  datatype Weights = Weights(a: real, b: real, c: real)

  /** The demo's triangle: (250, 50), (50, 350), (450, 350). */
  const Triangle: seq<Point> := [Point(250.0, 50.0), Point(50.0, 350.0), Point(450.0, 350.0)]

  /** The first selected point. */
  const Start: Point := Point(250.0, 150.0)

  const Iterations: nat := 50000

  /** The point with the given weights: a * T0 + b * T1 + c * T2. */
  function Combine(w: Weights): Point {
    Point(w.a * 250.0 + w.b * 50.0 + w.c * 450.0, w.a * 50.0 + w.b * 350.0 + w.c * 350.0)
  }

  /**
   * The barycentric coordinates of p: they sum to 1 and recombine to p.
   */
  function Coordinates(p: Point): (w: Weights)
    ensures w.a + w.b + w.c == 1.0
    ensures Combine(w) == p
  {
    var a := (350.0 - p.y) / 300.0;
    var c := (p.x - 50.0 - 200.0 * a) / 400.0;
    Weights(a, 1.0 - a - c, c)
  }

  /** Weights summing to 1 are the coordinates of the point they make. */
  lemma CoordinatesOfCombine(w: Weights)
    requires w.a + w.b + w.c == 1.0
    ensures Coordinates(Combine(w)) == w
  {
  }

  /** Inside the triangle or on its boundary. */
  predicate Inside(p: Point) {
    var w := Coordinates(p);
    w.a >= 0.0 && w.b >= 0.0 && w.c >= 0.0
  }

  /** The demo's midpoint ((p.x + q.x) / 2, (p.y + q.y) / 2). */
  function Midpoint(p: Point, q: Point): Point {
    Point((p.x + q.x) / 2.0, (p.y + q.y) / 2.0)
  }

  /** The coordinates of a midpoint are the average of the two points' coordinates. */
  lemma MidpointCoordinates(p: Point, q: Point)
    ensures var u := Coordinates(p);
            var v := Coordinates(q);
            Coordinates(Midpoint(p, q)) == Weights((u.a + v.a) / 2.0, (u.b + v.b) / 2.0, (u.c + v.c) / 2.0)
  {
  }

  /** Corner k has weight 1 on itself and 0 on the others. */
  lemma CornerCoordinates(k: int)
    requires 0 <= k < 3
    ensures Coordinates(Triangle[k]) == [Weights(1.0, 0.0, 0.0), Weights(0.0, 1.0, 0.0), Weights(0.0, 0.0, 1.0)][k]
  {
    CoordinatesOfCombine([Weights(1.0, 0.0, 0.0), Weights(0.0, 1.0, 0.0), Weights(0.0, 0.0, 1.0)][k]);
  }

  lemma CornerInside(k: int)
    requires 0 <= k < 3
    ensures Inside(Triangle[k])
  {
    CornerCoordinates(k);
  }

  /** The start point (250, 150) lies inside, with coordinates (2/3, 1/6, 1/6). */
  lemma StartInside()
    ensures Coordinates(Start) == Weights(2.0 / 3.0, 1.0 / 6.0, 1.0 / 6.0)
    ensures Inside(Start)
  {
  }

  /** The midpoint of an inside point and a corner is inside. */
  lemma MidpointInside(p: Point, k: int)
    requires Inside(p) && 0 <= k < 3
    ensures Inside(Midpoint(p, Triangle[k]))
  {
    CornerCoordinates(k);
    MidpointCoordinates(p, Triangle[k]);
  }

  /**
   * The selected point after `n` iterations: the start point, then each
   * draw moves it half-way to the drawn corner.
   */
  function Selected(draws: seq<int>, n: nat): (p: Point)
    requires n <= |draws|
    requires forall i :: 0 <= i < |draws| ==> 0 <= draws[i] <= 2
  {
    if n == 0 then Start else Midpoint(Selected(draws, n - 1), Triangle[draws[n - 1]])
  }

  /** Every selected point lies inside the triangle. */
  lemma {:induction false} SelectedInside(draws: seq<int>, n: nat)
    requires n <= |draws|
    requires forall i :: 0 <= i < |draws| ==> 0 <= draws[i] <= 2
    ensures Inside(Selected(draws, n))
  {
    if n == 0 {
      StartInside();
    } else {
      var p := Selected(draws, n - 1);
      SelectedInside(draws, n - 1);
      assert Selected(draws, n) == Midpoint(p, Triangle[draws[n - 1]]);
      MidpointInside(p, draws[n - 1]);
    }
  }

  /**
   * init: the three corners in order, then one midpoint per draw, each
   * between the currently selected point (first the start point) and the
   * drawn corner, which then becomes the selected point.  A draw of
   * randRange(0, 2) is uniform on 0..2 inclusive, so every draw names a
   * corner.  All 50003 stored points lie inside the triangle.
   */
  method Init(draws: seq<int>) returns (points: seq<Point>)
    requires |draws| == Iterations
    requires forall i :: 0 <= i < |draws| ==> 0 <= draws[i] <= 2
    ensures |points| == 3 + Iterations
    ensures points[..3] == Triangle
    ensures forall i :: 3 <= i < |points| ==> points[i] == Selected(draws, i - 2)
    ensures points[3] == Midpoint(Start, Triangle[draws[0]])
    ensures forall i :: 4 <= i < |points| ==> points[i] == Midpoint(points[i - 1], Triangle[draws[i - 3]])
    ensures forall i :: 0 <= i < |points| ==> Inside(points[i])
  {
    points := Triangle;
    var selected := Start;
    for i := 0 to Iterations
      invariant |points| == 3 + i && points[..3] == Triangle
      invariant selected == Selected(draws, i)
      invariant forall n :: 3 <= n < |points| ==> points[n] == Selected(draws, n - 2)
    {
      var vertex := Triangle[draws[i]];
      var mid := Midpoint(selected, vertex);
      selected := mid;
      points := points + [mid];
    }
    forall n | 0 <= n < |points|
      ensures Inside(points[n])
    {
      if n < 3 {
        assert points[n] == Triangle[n];
        CornerInside(n);
      } else {
        SelectedInside(draws, n - 2);
      }
    }
  }
}
