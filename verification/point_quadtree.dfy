/**
 * The point quadtree of the ball demo and of its header copy.  Objects are
 * located by a position function `at` (the ball demo reads `object->pos`,
 * the header stores the points themselves).  Insert appends while the
 * node's own list is below capacity; on the first overflow the node
 * creates four half-size quadrant children, offers every stored object to
 * every child, empties its own list and stays divided for good; a divided
 * node forwards every insert to all four children as well.
 *
 * Coincident points can make the source recurse without end, so insert
 * carries a `fuel` bound: the number of tree levels an insertion may still
 * touch.  With no fuel left an insertion has no effect.
 */
module PointQuadtree {
  import opened Vec2
  import opened Geometry

  datatype Node<T> = Node(
    boundary: Rect,
    capacity: int,
    objects: seq<T>,
    isDivided: bool,
    children: seq<Node<T>>)

  /** The number of values of the 64-bit unsigned size type. */
  const SizeRange := 0x1_0000_0000_0000_0000

  /** `objects.size() < capacity`, with the int capacity taken as unsigned. */
  predicate BelowCapacity(count: nat, capacity: int) {
    count < capacity % SizeRange
  }

  /** Quadtree(r, maxObj): an empty, undivided node (capacity 4 unless given). */
  function New<T>(r: Rect, maxObj: int := 4): (n: Node<T>)
    ensures n.boundary == r && n.capacity == maxObj && n.objects == [] && WellFormed(n, x => Zero)
  {
    Node(r, maxObj, [], false, [])
  }

  /**
   * The shape the tree keeps: stored objects lie in the node's boundary and
   * within capacity; an undivided node has no children; a divided node has
   * the four quadrants of its boundary as children, with its capacity.
   */
  ghost predicate WellFormed<T>(n: Node<T>, at: T -> Vec) {
    && (forall k :: 0 <= k < |n.objects| ==> PointInRect(at(n.objects[k]), n.boundary))
    && |n.objects| <= n.capacity % SizeRange
    && (!n.isDivided ==> n.children == [])
    && (n.isDivided ==> |n.children| == 4)
    && (forall i :: 0 <= i < |n.children| ==>
          && n.children[i].boundary == Quadrant(n.boundary, i)
          && n.children[i].capacity == n.capacity
          && WellFormed(n.children[i], at))
  }

  /** insert, with the fuel bound described above. */
  function Insert<T>(n: Node<T>, o: T, at: T -> Vec, fuel: nat): (r: Node<T>)
    ensures r.boundary == n.boundary && r.capacity == n.capacity
    ensures fuel == 0 || !PointInRect(at(o), n.boundary) ==> r == n
    ensures fuel > 0 && PointInRect(at(o), n.boundary) && BelowCapacity(|n.objects|, n.capacity) ==>
      r.objects == n.objects + [o]
    ensures n.isDivided ==> r.isDivided
    ensures WellFormed(n, at) ==> WellFormed(r, at)
    decreases fuel, 0
  {
    if fuel == 0 || !PointInRect(at(o), n.boundary) then n
    else if BelowCapacity(|n.objects|, n.capacity) then
      var n1 := n.(objects := n.objects + [o]);
      if n1.isDivided then Offer(n1, o, at, fuel - 1) else n1
    else if !n.isDivided then Offer(Split(n, at, fuel - 1), o, at, fuel - 1)
    else Offer(n, o, at, fuel - 1)
  }

  /** The object offered to every child of m; m's own fields stay as they are. */
  function Offer<T>(m: Node<T>, o: T, at: T -> Vec, fuel: nat): (r: Node<T>)
    ensures r == m.(children := r.children) && |r.children| == |m.children|
    ensures forall i :: 0 <= i < |m.children| ==> r.children[i] == Insert(m.children[i], o, at, fuel)
    ensures WellFormed(m, at) ==> WellFormed(r, at)
    decreases fuel, 3
  {
    m.(children := OfferAll(m.children, o, at, fuel))
  }

  /**
   * The first overflow: four quadrant children, each offered every stored
   * object in storage order; then the own list is cleared.
   */
  function Split<T>(n: Node<T>, at: T -> Vec, fuel: nat): (r: Node<T>)
    ensures r.boundary == n.boundary && r.capacity == n.capacity
    ensures r.isDivided && r.objects == [] && |r.children| == 4
    ensures forall i :: 0 <= i < 4 ==>
      r.children[i] == InsertAll(New(Quadrant(n.boundary, i), n.capacity), n.objects, at, fuel)
    ensures WellFormed(r, at)
    decreases fuel, 2
  {
    var kids := [
      InsertAll(New(Quadrant(n.boundary, 0), n.capacity), n.objects, at, fuel),
      InsertAll(New(Quadrant(n.boundary, 1), n.capacity), n.objects, at, fuel),
      InsertAll(New(Quadrant(n.boundary, 2), n.capacity), n.objects, at, fuel),
      InsertAll(New(Quadrant(n.boundary, 3), n.capacity), n.objects, at, fuel)];
    Node(n.boundary, n.capacity, [], true, kids)
  }

  /** Inserting each of `os` in turn. */
  function InsertAll<T>(n: Node<T>, os: seq<T>, at: T -> Vec, fuel: nat): (r: Node<T>)
    ensures r.boundary == n.boundary && r.capacity == n.capacity
    ensures n.isDivided ==> r.isDivided
    ensures WellFormed(n, at) ==> WellFormed(r, at)
    decreases fuel, 1, |os|
  {
    if os == [] then n else InsertAll(Insert(n, os[0], at, fuel), os[1..], at, fuel)
  }

  /** Offering one object to every child. */
  function OfferAll<T>(kids: seq<Node<T>>, o: T, at: T -> Vec, fuel: nat): (r: seq<Node<T>>)
    ensures |r| == |kids|
    ensures forall i :: 0 <= i < |kids| ==> r[i] == Insert(kids[i], o, at, fuel)
    decreases fuel, 1, |kids|
  {
    if kids == [] then [] else [Insert(kids[0], o, at, fuel)] + OfferAll(kids[1..], o, at, fuel)
  }

  /**
   * The first overflow of an undivided node: it divides, empties its own
   * list, and each quadrant child receives the stored objects in order
   * followed by the new one.
   */
  lemma InsertFirstOverflow<T>(n: Node<T>, o: T, at: T -> Vec, fuel: nat)
    requires fuel > 0 && PointInRect(at(o), n.boundary)
    requires !BelowCapacity(|n.objects|, n.capacity) && !n.isDivided
    ensures Insert(n, o, at, fuel).isDivided && Insert(n, o, at, fuel).objects == []
    ensures |Insert(n, o, at, fuel).children| == 4
    ensures forall i :: 0 <= i < 4 ==>
      Insert(n, o, at, fuel).children[i]
        == InsertAll(New(Quadrant(n.boundary, i), n.capacity), n.objects + [o], at, fuel - 1)
  {
    InsertOverflowSplits(n, o, at, fuel);
    SplitThenOffer(n, o, at, fuel - 1);
  }

  lemma InsertOverflowSplits<T>(n: Node<T>, o: T, at: T -> Vec, fuel: nat)
    requires fuel > 0 && PointInRect(at(o), n.boundary)
    requires !BelowCapacity(|n.objects|, n.capacity) && !n.isDivided
    ensures Insert(n, o, at, fuel)
         == Split(n, at, fuel - 1).(children := OfferAll(Split(n, at, fuel - 1).children, o, at, fuel - 1))
  {
  }

  lemma SplitThenOffer<T>(n: Node<T>, o: T, at: T -> Vec, fuel: nat)
    ensures forall i :: 0 <= i < 4 ==>
      OfferAll(Split(n, at, fuel).children, o, at, fuel)[i]
        == InsertAll(New(Quadrant(n.boundary, i), n.capacity), n.objects + [o], at, fuel)
  {
    forall i | 0 <= i < 4
      ensures OfferAll(Split(n, at, fuel).children, o, at, fuel)[i]
           == InsertAll(New(Quadrant(n.boundary, i), n.capacity), n.objects + [o], at, fuel)
    {
      InsertAllAppend(New(Quadrant(n.boundary, i), n.capacity), n.objects, o, at, fuel);
    }
  }

  /** A divided node offers every inserted object inside it to all its children. */
  lemma InsertForwards<T>(n: Node<T>, o: T, at: T -> Vec, fuel: nat)
    requires fuel > 0 && PointInRect(at(o), n.boundary) && n.isDivided
    ensures |Insert(n, o, at, fuel).children| == |n.children|
    ensures forall i :: 0 <= i < |n.children| ==>
      Insert(n, o, at, fuel).children[i] == Insert(n.children[i], o, at, fuel - 1)
  {
  }

  lemma {:induction false} InsertAllAppend<T>(n: Node<T>, os: seq<T>, o: T, at: T -> Vec, fuel: nat)
    ensures InsertAll(n, os + [o], at, fuel) == Insert(InsertAll(n, os, at, fuel), o, at, fuel)
    decreases |os|
  {
    if os == [] {
      assert os + [o] == [o];
    } else {
      assert (os + [o])[1..] == os[1..] + [o];
      InsertAllAppend(Insert(n, os[0], at, fuel), os[1..], o, at, fuel);
    }
  }

  /** The objects of `os` that lie in `r`, in order. */
  function Inside<T>(os: seq<T>, r: Rect, at: T -> Vec): (res: seq<T>)
    ensures |res| <= |os|
    ensures forall k :: 0 <= k < |res| ==> PointInRect(at(res[k]), r)
    ensures multiset(res) <= multiset(os)
  {
    if os == [] then []
    else
      assert os == [os[0]] + os[1..];
      (if PointInRect(at(os[0]), r) then [os[0]] else []) + Inside(os[1..], r, at)
  }

  /**
   * A fresh leaf offered no more objects than its capacity stores exactly
   * those that lie in its boundary, in order, and stays undivided.  So on the
   * first overflow a stored point on the edge between quadrants is kept by
   * every quadrant child it touches.
   */
  lemma {:induction false} FreshLeafKeepsInside<T>(b: Rect, c: int, os: seq<T>, at: T -> Vec, fuel: nat)
    requires fuel > 0 && 0 <= |os| <= c <= 0x7FFF_FFFF
    ensures InsertAll(New(b, c), os, at, fuel) == Node(b, c, Inside(os, b, at), false, [])
  {
    LeafKeepsInside(Node(b, c, [], false, []), os, at, fuel);
  }

  lemma {:induction false} LeafKeepsInside<T>(n: Node<T>, os: seq<T>, at: T -> Vec, fuel: nat)
    requires fuel > 0 && !n.isDivided && n.children == []
    requires |n.objects| + |os| <= n.capacity <= 0x7FFF_FFFF
    ensures InsertAll(n, os, at, fuel) == n.(objects := n.objects + Inside(os, n.boundary, at))
    decreases |os|
  {
    if os != [] {
      var n1 := Insert(n, os[0], at, fuel);
      var first := if PointInRect(at(os[0]), n.boundary) then [os[0]] else [];
      assert n.objects + [] == n.objects;
      assert n1 == n.(objects := n.objects + first);
      LeafKeepsInside(n1, os[1..], at, fuel);
      assert Inside(os, n.boundary, at) == first + Inside(os[1..], n.boundary, at);
      AppendAssoc(n.objects, first, Inside(os[1..], n.boundary, at));
    }
  }

  lemma AppendAssoc<T>(a: seq<T>, b: seq<T>, c: seq<T>)
    ensures a + b + c == a + (b + c)
  {
  }

  /** The centre of a rectangle of non-negative size lies in all four quadrants. */
  lemma CentreInAllQuadrants(r: Rect)
    requires r.size.x >= 0.0 && r.size.y >= 0.0
    ensures forall i :: 0 <= i < 4 ==>
      PointInRect(Vec(r.pos.x + r.size.x * 0.5, r.pos.y + r.size.y * 0.5), Quadrant(r, i))
  {
  }

  /** The stored objects that lie in `range`, in storage order. */
  function Filter<T(==,!new)>(os: seq<T>, range: Rect, at: T -> Vec): (res: seq<T>)
    ensures forall x :: x in res <==> x in os && PointInRect(at(x), range)
  {
    if os == [] then []
    else (if PointInRect(at(os[0]), range) then [os[0]] else []) + Filter(os[1..], range, at)
  }

  /**
   * findObject: nothing when the range misses the boundary; on an undivided
   * node the stored objects in range, in order; on a divided node the own
   * list is ignored and each child's result is put in front of the previous
   * ones.
   */
  function Find<T(==,!new)>(n: Node<T>, range: Rect, at: T -> Vec): (res: seq<T>)
    ensures !RectsIntersect(n.boundary, range) ==> res == []
    ensures forall x :: x in res ==> PointInRect(at(x), range)
    decreases n, 1
  {
    if !RectsIntersect(n.boundary, range) then []
    else if !n.isDivided then Filter(n.objects, range, at)
    else Gather(n.children, range, at, [])
  }

  /** The loop over the children, each result put in front of the gathered ones. */
  function Gather<T(==,!new)>(kids: seq<Node<T>>, range: Rect, at: T -> Vec, acc: seq<T>): (res: seq<T>)
    ensures forall x :: x in res <==>
      x in acc || exists i :: 0 <= i < |kids| && x in Find(kids[i], range, at)
    decreases kids, 0
  {
    if kids == [] then acc
    else
      var r := Gather(kids[1..], range, at, Find(kids[0], range, at) + acc);
      assert forall i :: 1 <= i < |kids| ==> kids[i] == kids[1..][i - 1];
      r
  }

  /** On a divided node the children's results come last child first. */
  lemma FindDividedOrder<T(!new)>(n: Node<T>, range: Rect, at: T -> Vec)
    requires n.isDivided && |n.children| == 4 && RectsIntersect(n.boundary, range)
    ensures Find(n, range, at) == Find(n.children[3], range, at) + Find(n.children[2], range, at)
                                + Find(n.children[1], range, at) + Find(n.children[0], range, at)
  {
    var c := n.children;
    var f0, f1, f2, f3 := Find(c[0], range, at), Find(c[1], range, at), Find(c[2], range, at), Find(c[3], range, at);
    assert c[1..][1..][1..][1..] == [];
    calc {
      Find(n, range, at);
      Gather(c, range, at, []);
      Gather(c[1..], range, at, f0 + []);
      Gather(c[1..][1..], range, at, f1 + (f0 + []));
      Gather(c[1..][1..][1..], range, at, f2 + (f1 + (f0 + [])));
      Gather(c[1..][1..][1..][1..], range, at, f3 + (f2 + (f1 + (f0 + []))));
      f3 + f2 + f1 + f0;
    }
  }

  /** An undivided node answers exactly its stored objects in range. */
  lemma FindLeaf<T(!new)>(n: Node<T>, range: Rect, at: T -> Vec)
    requires !n.isDivided && RectsIntersect(n.boundary, range)
    ensures forall x :: x in Find(n, range, at) <==> x in n.objects && PointInRect(at(x), range)
  {
  }

  /** The objects a query can reach: the own lists of undivided nodes. */
  ghost predicate Visible<T(!new)>(n: Node<T>, x: T)
    decreases n
  {
    if !n.isDivided then x in n.objects
    else exists i :: 0 <= i < |n.children| && Visible(n.children[i], x)
  }

  /**
   * In a well-formed tree whose boundary has non-negative size, every
   * reachable object lies in the root's boundary.
   */
  lemma {:induction false} VisibleInBoundary<T(!new)>(n: Node<T>, at: T -> Vec, x: T)
    requires WellFormed(n, at) && Visible(n, x)
    requires n.boundary.size.x >= 0.0 && n.boundary.size.y >= 0.0
    ensures PointInRect(at(x), n.boundary)
    decreases n
  {
    if n.isDivided {
      var i :| 0 <= i < |n.children| && Visible(n.children[i], x);
      VisibleInBoundary(n.children[i], at, x);
      FitsPoints(at(x), n.children[i].boundary, n.boundary);
    }
  }

  /**
   * In a well-formed tree of non-negative size, every reachable object that
   * lies strictly inside the range is found.
   */
  lemma {:induction false} FindComplete<T(!new)>(n: Node<T>, range: Rect, at: T -> Vec, x: T)
    requires WellFormed(n, at) && Visible(n, x)
    requires n.boundary.size.x >= 0.0 && n.boundary.size.y >= 0.0
    requires range.pos.x < at(x).x < range.pos.x + range.size.x
    requires range.pos.y < at(x).y < range.pos.y + range.size.y
    ensures x in Find(n, range, at)
    decreases n
  {
    VisibleInBoundary(n, at, x);
    InteriorPointOverlaps(at(x), n.boundary, range);
    if n.isDivided {
      var i :| 0 <= i < |n.children| && Visible(n.children[i], x);
      FindComplete(n.children[i], range, at, x);
    }
  }

  /**
   * Closed containment against strict overlap: a leaf holding a point on its
   * right edge is not searched by a range that only touches that edge, so
   * the point is not found although it lies in the range.
   */
  lemma EdgePointMissed()
    ensures var leaf := New(Rect(Zero, Vec(10.0, 10.0))).(objects := [Vec(10.0, 5.0)]);
      var range := Rect(Vec(10.0, 0.0), Vec(5.0, 10.0));
      PointInRect(Vec(10.0, 5.0), range) && Find(leaf, range, (p: Vec) => p) == []
  {
  }
}
