/**
 * The stubbed quadtree of the standalone quadtree demo: its insert only
 * checks areas and appends, it never subdivides, and it always reports
 * failure.  Its objects are Rect2D values.
 */
module StubQuadtree {
  import opened Geometry

  datatype Node = Node(
    boundary: Rect,
    capacity: int,
    objects: seq<Rect>,
    isDivided: bool,
    children: seq<Node>)

  /** resize: installs boundary and capacity and empties the node. */
  function Resize(b: Rect, c: int): (n: Node)
    ensures n.boundary == b && n.capacity == c
    ensures Size(n) == 0 && !n.isDivided && n.children == []
  {
    Node(b, c, [], false, [])
  }

  /** size: the number of stored objects. */
  function Size(n: Node): nat {
    |n.objects|
  }

  /** The area test insert applies: the object is no larger than the boundary. */
  predicate Admits(boundary: Rect, o: Rect) {
    Area(o) <= Area(boundary)
  }

  /**
   * insert: an object larger (by area) than the boundary is not stored;
   * any other object is appended wherever it lies and whatever the
   * capacity.  Either way the answer is false.
   */
  function Insert(n: Node, o: Rect): (res: (bool, Node))
    ensures !res.0
    ensures !Admits(n.boundary, o) ==> res.1 == n
    ensures Admits(n.boundary, o) ==> res.1 == n.(objects := n.objects + [o])
  {
    if Area(o) > Area(n.boundary) then (false, n)
    else (false, n.(objects := n.objects + [o]))
  }

  /** Inserting a list of objects one after another. */
  function InsertAll(n: Node, os: seq<Rect>): Node
    decreases |os|
  {
    if os == [] then n else InsertAll(Insert(n, os[0]).1, os[1..])
  }

  /** The objects of `os` that the area test admits, in order. */
  function Admitted(boundary: Rect, os: seq<Rect>): (r: seq<Rect>)
    ensures |r| <= |os|
    ensures forall k :: 0 <= k < |r| ==> r[k] in os && Admits(boundary, r[k])
  {
    if os == [] then []
    else (if Admits(boundary, os[0]) then [os[0]] else []) + Admitted(boundary, os[1..])
  }

  /**
   * After any sequence of inserts, the node holds exactly the admitted
   * objects, in order, after what it held before, so size() counts the
   * inserts that passed the area test; nothing else changes.
   */
  lemma {:induction false} InsertAllStoresAdmitted(n: Node, os: seq<Rect>)
    ensures InsertAll(n, os) == n.(objects := n.objects + Admitted(n.boundary, os))
    ensures Size(InsertAll(n, os)) == Size(n) + |Admitted(n.boundary, os)|
    decreases |os|
  {
    if os != [] {
      var n1 := Insert(n, os[0]).1;
      InsertAllStoresAdmitted(n1, os[1..]);
      var first := if Admits(n.boundary, os[0]) then [os[0]] else [];
      assert n1.objects == n.objects + first;
      assert n.objects + first + Admitted(n.boundary, os[1..])
          == n.objects + Admitted(n.boundary, os);
    }
  }
}
