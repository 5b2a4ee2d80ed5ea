/**
 * The rectangle quadtree of the physics headers.  A node holds rectangles
 * (the objects are only read through their corner and extent) and, once
 * subdivided, four quadrant children one level down.  Insert never descends
 * into children; subdividing hands the node's stored rectangles to the
 * children with the iterator slip of the source: after each moved rectangle
 * the next one is passed over unchecked.
 */
module RectQuadtree {
  import opened Vec2
  import opened Geometry
  import opened Multisets

  datatype Node = Node(
    boundary: Rect,
    capacity: int,
    maxDepth: int,
    minNodeSize: int,
    isDivided: bool,
    children: seq<Node>,
    objects: seq<Rect>)

  /** The number of values of the 64-bit unsigned size type. */
  const SizeRange := 0x1_0000_0000_0000_0000

  /**
   * `objects.size() < capacity`: the int capacity is converted to the
   * unsigned size type, so a negative capacity behaves as a huge one.
   */
  predicate BelowCapacity(count: nat, capacity: int) {
    count < capacity % SizeRange
  }

  /** Every rectangle stored anywhere in the subtree. */
  function Contents(n: Node): multiset<Rect>
    decreases n
  {
    multiset(n.objects) + ChildrenContents(n.children)
  }

  function ChildrenContents(kids: seq<Node>): multiset<Rect>
    decreases kids
  {
    if kids == [] then multiset{} else Contents(kids[0]) + ChildrenContents(kids[1..])
  }

  /** Every stored rectangle fits the boundary of the node that holds it. */
  predicate FitInvariant(n: Node) {
    && (forall k :: 0 <= k < |n.objects| ==> Fits(n.objects[k], n.boundary))
    && (forall i :: 0 <= i < |n.children| ==> FitInvariant(n.children[i]))
  }

  /**
   * resize: installs the boundary, capacity, depth and minimum node size
   * (4 and 30 unless given) and empties the node.
   */
  function Resize(b: Rect, c: int, depth: int := 4, minSize: int := 30): (n: Node)
    ensures n.boundary == b && n.capacity == c && n.maxDepth == depth && n.minNodeSize == minSize
    ensures !n.isDivided && n.children == [] && Contents(n) == multiset{}
    ensures FitInvariant(n)
  {
    Node(b, c, depth, minSize, false, [], [])
  }

  /**
   * The index of the first child, from the `from`-th on, whose boundary
   * the rectangle fits, if any.
   */
  function FirstFit(o: Rect, kids: seq<Node>, from: nat): (r: Option<nat>)
    requires from <= |kids|
    ensures r.Some? ==> from <= r.value < |kids| && Fits(o, kids[r.value].boundary)
    ensures r.Some? ==> forall j :: from <= j < r.value ==> !Fits(o, kids[j].boundary)
    ensures r.None? ==> forall j :: from <= j < |kids| ==> !Fits(o, kids[j].boundary)
    decreases |kids| - from
  {
    if from == |kids| then None
    else if Fits(o, kids[from].boundary) then Some(from)
    else FirstFit(o, kids, from + 1)
  }

  datatype Option<T> = None | Some(value: T)

  /** The children keep their boundaries, parameters and grandchildren. */
  predicate SameShape(before: seq<Node>, after: seq<Node>) {
    |before| == |after|
    && forall i :: 0 <= i < |before| ==>
      after[i] == before[i].(objects := after[i].objects)
  }

  lemma {:induction false} ChildrenContentsAppend(kids: seq<Node>, i: nat, o: Rect)
    requires i < |kids|
    ensures ChildrenContents(kids[i := kids[i].(objects := kids[i].objects + [o])])
         == ChildrenContents(kids) + multiset{o}
    decreases kids
  {
    var after := kids[i := kids[i].(objects := kids[i].objects + [o])];
    if i == 0 {
      assert after[1..] == kids[1..];
    } else {
      ChildrenContentsAppend(kids[1..], i - 1, o);
      assert after[1..] == kids[1..][i - 1 := kids[1..][i - 1].(objects := kids[1..][i - 1].objects + [o])];
    }
  }

  /**
   * redistributeObject: each rectangle that fits a child is moved to the
   * first such child and erased from the parent list; the iterator then
   * steps past the rectangle that slid into the erased place, which stays in
   * the parent unchecked.  The walk stops at the end of the list.  Returns
   * the rectangles the parent keeps and the updated children.
   */
  function Redistribute(objs: seq<Rect>, kids: seq<Node>): (res: (seq<Rect>, seq<Node>))
    ensures SameShape(kids, res.1)
    ensures forall k :: 0 <= k < |res.0| ==> res.0[k] in objs
    decreases |objs|
  {
    if objs == [] then ([], kids)
    else
      match FirstFit(objs[0], kids, 0)
      case None =>
        var rest := Redistribute(objs[1..], kids);
        ([objs[0]] + rest.0, rest.1)
      case Some(i) =>
        var moved := kids[i := kids[i].(objects := kids[i].objects + [objs[0]])];
        if |objs| == 1 then ([], moved)
        else
          var rest := Redistribute(objs[2..], moved);
          ([objs[1]] + rest.0, rest.1)
  }

  /**
   * Redistributing moves rectangles between the parent list and the
   * children without losing or duplicating any.
   */
  lemma {:induction false} RedistributeKeepsContents(objs: seq<Rect>, kids: seq<Node>)
    ensures multiset(Redistribute(objs, kids).0) + ChildrenContents(Redistribute(objs, kids).1)
         == multiset(objs) + ChildrenContents(kids)
    decreases |objs|
  {
    if objs != [] {
      var f := FirstFit(objs[0], kids, 0);
      if f.None? {
        RedistributeKeepsContents(objs[1..], kids);
        KeptFirst(objs, kids);
      } else {
        var i := f.value;
        var moved := kids[i := kids[i].(objects := kids[i].objects + [objs[0]])];
        if |objs| > 1 {
          RedistributeKeepsContents(objs[2..], moved);
        }
        MovedFirst(objs, kids);
      }
    }
  }

  /** Redistributing objs into kids neither loses nor duplicates a rectangle. */
  predicate Balanced(objs: seq<Rect>, kids: seq<Node>) {
    var res := Redistribute(objs, kids);
    multiset(res.0) + ChildrenContents(res.1) == multiset(objs) + ChildrenContents(kids)
  }

  /** The step of RedistributeKeepsContents for a first rectangle that fits no child. */
  lemma KeptFirst(objs: seq<Rect>, kids: seq<Node>)
    requires objs != [] && FirstFit(objs[0], kids, 0).None?
    requires Balanced(objs[1..], kids)
    ensures Balanced(objs, kids)
  {
    var o := objs[0];
    var res := Redistribute(objs, kids);
    var rest := Redistribute(objs[1..], kids);
    assert objs == [o] + objs[1..];
    assert res == ([o] + rest.0, rest.1);
    Rebalance(multiset(objs), multiset(objs[1..]), multiset(res.0), multiset(rest.0),
              ChildrenContents(rest.1), ChildrenContents(kids), o);
  }

  /** After the first rectangle moves, the one behind it stays and the rest are redistributed. */
  lemma MovedRest(objs: seq<Rect>, moved: seq<Node>, res: (seq<Rect>, seq<Node>))
    requires |objs| > 1
    requires res == ([objs[1]] + Redistribute(objs[2..], moved).0, Redistribute(objs[2..], moved).1)
    requires Balanced(objs[2..], moved)
    ensures multiset(res.0) + ChildrenContents(res.1) == multiset(objs[1..]) + ChildrenContents(moved)
  {
    var rest := Redistribute(objs[2..], moved);
    assert objs[1..] == [objs[1]] + objs[2..];
    Rebalance(multiset(objs[1..]), multiset(objs[2..]), multiset(res.0), multiset(rest.0),
              ChildrenContents(rest.1), ChildrenContents(moved), objs[1]);
  }

  /** The step of RedistributeKeepsContents for a first rectangle moved to a child. */
  lemma MovedFirst(objs: seq<Rect>, kids: seq<Node>)
    requires objs != [] && FirstFit(objs[0], kids, 0).Some?
    requires var i := FirstFit(objs[0], kids, 0).value;
             |objs| > 1 ==> Balanced(objs[2..], kids[i := kids[i].(objects := kids[i].objects + [objs[0]])])
    ensures Balanced(objs, kids)
  {
    var o := objs[0];
    var res := Redistribute(objs, kids);
    var i := FirstFit(o, kids, 0).value;
    var moved := kids[i := kids[i].(objects := kids[i].objects + [o])];
    assert objs == [o] + objs[1..];
    assert multiset(res.0) + ChildrenContents(res.1) == multiset(objs[1..]) + ChildrenContents(moved) by {
      if |objs| == 1 {
        assert res == ([], moved);
      } else {
        MovedRest(objs, moved, res);
      }
    }
    ChildrenContentsAppend(kids, i, o);
    MoveAside(multiset(objs), multiset(objs[1..]), multiset(res.0), ChildrenContents(res.1),
              ChildrenContents(kids), ChildrenContents(moved), o);
  }

  /**
   * Redistributing keeps every child's rectangles inside its boundary: a
   * rectangle only goes to a child it fits.
   */
  lemma {:induction false} RedistributeKeepsFit(objs: seq<Rect>, kids: seq<Node>)
    requires forall i :: 0 <= i < |kids| ==> FitInvariant(kids[i])
    ensures forall i :: 0 <= i < |kids| ==> FitInvariant(Redistribute(objs, kids).1[i])
    decreases |objs|
  {
    if objs != [] {
      var o := objs[0];
      var res := Redistribute(objs, kids);
      var f := FirstFit(o, kids, 0);
      if f.None? {
        var rest := Redistribute(objs[1..], kids);
        RedistributeKeepsFit(objs[1..], kids);
        forall i | 0 <= i < |kids|
          ensures FitInvariant(res.1[i])
        {
          assert res.1[i] == rest.1[i];
        }
      } else {
        var i := f.value;
        var moved := kids[i := kids[i].(objects := kids[i].objects + [o])];
        assert FitInvariant(moved[i]);
        if |objs| == 1 {
          assert res.1 == moved;
        } else {
          var rest := Redistribute(objs[2..], moved);
          RedistributeKeepsFit(objs[2..], moved);
          forall i | 0 <= i < |kids|
            ensures FitInvariant(res.1[i])
          {
            assert res.1[i] == rest.1[i];
          }
        }
      }
    }
  }

  /** The four empty quadrant children subdivide creates. */
  function FreshChildren(n: Node): (kids: seq<Node>)
    ensures |kids| == 4 && ChildrenContents(kids) == multiset{}
    ensures forall i :: 0 <= i < 4 ==>
      kids[i] == Resize(Quadrant(n.boundary, i), n.capacity, n.maxDepth, n.minNodeSize)
  {
    var kids := seq(4, i requires 0 <= i < 4 =>
      Resize(Quadrant(n.boundary, i), n.capacity, n.maxDepth, n.minNodeSize));
    assert ChildrenContents(kids[3..]) == multiset{};
    assert ChildrenContents(kids[2..]) == multiset{};
    assert ChildrenContents(kids[1..]) == multiset{};
    kids
  }

  /**
   * subdivide: four quadrant children inheriting capacity, depth and
   * minimum size, the stored rectangles redistributed, and the node marked
   * divided.
   */
  function Subdivide(n: Node): (r: Node)
    ensures r.isDivided && |r.children| == 4
    ensures forall i :: 0 <= i < 4 ==>
      && r.children[i].boundary == Quadrant(n.boundary, i)
      && r.children[i].capacity == n.capacity
      && r.children[i].maxDepth == n.maxDepth
      && r.children[i].minNodeSize == n.minNodeSize
      && r.children[i].children == []
    ensures r.boundary == n.boundary
    ensures n.children == [] ==> Contents(r) == Contents(n)
    ensures FitInvariant(n) ==> FitInvariant(r)
  {
    var moved := Redistribute(n.objects, FreshChildren(n));
    SubdividedContents(n);
    SubdividedFit(n);
    n.(children := moved.1, objects := moved.0, isDivided := true)
  }

  /** Redistributing into the fresh quadrants neither loses nor adds a rectangle. */
  lemma SubdividedContents(n: Node)
    ensures n.children == [] ==>
              multiset(Redistribute(n.objects, FreshChildren(n)).0)
              + ChildrenContents(Redistribute(n.objects, FreshChildren(n)).1) == Contents(n)
  {
    RedistributeKeepsContents(n.objects, FreshChildren(n));
  }

  /** What stays in the node still fits it, and every quadrant keeps the fit invariant. */
  lemma SubdividedFit(n: Node)
    ensures FitInvariant(n) ==>
              forall k :: 0 <= k < |Redistribute(n.objects, FreshChildren(n)).0| ==>
                Fits(Redistribute(n.objects, FreshChildren(n)).0[k], n.boundary)
    ensures forall i :: 0 <= i < |Redistribute(n.objects, FreshChildren(n)).1| ==>
              FitInvariant(Redistribute(n.objects, FreshChildren(n)).1[i])
  {
    var empty := FreshChildren(n);
    RedistributeKeepsFit(n.objects, empty);
    var moved := Redistribute(n.objects, empty);
    forall k | 0 <= k < |moved.0| && FitInvariant(n)
      ensures Fits(moved.0[k], n.boundary)
    {
      assert moved.0[k] in n.objects;
    }
  }

  /**
   * insert.  A rectangle that does not fit the boundary is refused.  One
   * that fits is appended when the node is below capacity and has no
   * children.  Otherwise the node subdivides (if it has no children yet
   * and both sides reach the minimum node size) and true is returned
   * without the rectangle being stored anywhere.
   */
  function Insert(n: Node, o: Rect): (res: (bool, Node))
    ensures !Fits(o, n.boundary) ==> res == (false, n)
    ensures Fits(o, n.boundary) ==> res.0
    ensures Fits(o, n.boundary) && BelowCapacity(|n.objects|, n.capacity) && n.children == [] ==>
      res.1 == n.(objects := n.objects + [o])
    ensures res.1.boundary == n.boundary
    ensures n.children != [] ==> res.1 == n
    ensures FitInvariant(n) ==> FitInvariant(res.1)
  {
    if !Fits(o, n.boundary) then (false, n)
    else if BelowCapacity(|n.objects|, n.capacity) && |n.children| == 0 then
      (true, n.(objects := n.objects + [o]))
    else if n.boundary.size.x >= n.minNodeSize as real && n.boundary.size.y >= n.minNodeSize as real
         && |n.children| == 0 then
      (true, Subdivide(n))
    else
      (true, n)
  }

  /**
   * Where insert does not append, the tree's contents are unchanged: the
   * rectangle reported as inserted is stored nowhere.  A subdivision happens
   * exactly when the node had no children and both sides reach the minimum
   * node size.
   */
  lemma InsertOverflowDrops(n: Node, o: Rect)
    requires Fits(o, n.boundary)
    requires !(BelowCapacity(|n.objects|, n.capacity) && n.children == [])
    ensures Insert(n, o).0
    ensures Contents(Insert(n, o).1) == Contents(n)
    ensures Insert(n, o).1.children != [] <==>
      n.children != [] || (n.boundary.size.x >= n.minNodeSize as real
                           && n.boundary.size.y >= n.minNodeSize as real)
  {
  }

  /** An appended rectangle is added to the tree's contents. */
  lemma InsertAppendAdds(n: Node, o: Rect)
    requires Fits(o, n.boundary) && BelowCapacity(|n.objects|, n.capacity) && n.children == []
    ensures Contents(Insert(n, o).1) == Contents(n) + multiset{o}
  {
  }

  /** The children of a node of non-negative size fit inside it. */
  lemma ChildrenFitParent(n: Node)
    requires n.boundary.size.x >= 0.0 && n.boundary.size.y >= 0.0
    ensures forall i :: 0 <= i < 4 ==> Fits(Subdivide(n).children[i].boundary, n.boundary)
  {
  }

  /**
   * The iterator slip: of two rectangles that both fit the first quadrant,
   * the second stays behind in the parent unchecked.
   */
  lemma RedistributeSkipsNext()
    ensures var a := Rect(Vec(1.0, 1.0), Vec(2.0, 2.0));
      var kids := FreshChildren(Resize(Rect(Zero, Vec(100.0, 100.0)), 1));
      && Fits(a, kids[0].boundary)
      && Redistribute([a, a], kids).0 == [a]
      && Redistribute([a, a], kids).1[0].objects == [a]
  {
    var a := Rect(Vec(1.0, 1.0), Vec(2.0, 2.0));
    var kids := FreshChildren(Resize(Rect(Zero, Vec(100.0, 100.0)), 1));
    FreshFirstChild();
    assert Fits(a, kids[0].boundary);
    PairIntoFirstChild(a, kids);
  }

  /**
   * Whenever the first rectangle fits some child, the second is kept with
   * the parent unexamined and the first is appended to that child, whatever
   * the rectangles and children are.
   */
  lemma RedistributeMovesFirst(objs: seq<Rect>, kids: seq<Node>, i: nat)
    requires |objs| > 1 && FirstFit(objs[0], kids, 0) == Some(i)
    ensures i < |kids|
    ensures var moved := kids[i := kids[i].(objects := kids[i].objects + [objs[0]])];
      && |Redistribute(objs, kids).0| > 0
      && Redistribute(objs, kids).0[0] == objs[1]
      && Redistribute(objs, kids) == ([objs[1]] + Redistribute(objs[2..], moved).0, Redistribute(objs[2..], moved).1)
  {
    var moved := kids[i := kids[i].(objects := kids[i].objects + [objs[0]])];
    var rest := Redistribute(objs[2..], moved);
    assert Redistribute(objs, kids) == ([objs[1]] + rest.0, rest.1);
  }

  /** The first fresh quadrant of a 100 x 100 root is the empty 50 x 50 square at the origin. */
  lemma FreshFirstChild()
    ensures var kids := FreshChildren(Resize(Rect(Zero, Vec(100.0, 100.0)), 1));
      kids[0].boundary == Rect(Zero, Vec(50.0, 50.0)) && kids[0].objects == []
  {
    var n := Resize(Rect(Zero, Vec(100.0, 100.0)), 1);
    assert FreshChildren(n)[0] == Resize(Quadrant(n.boundary, 0), n.capacity, n.maxDepth, n.minNodeSize);
  }

  /**
   * Two copies of a rectangle that fits the empty first child: the first
   * copy moves down and the second, skipped over, stays with the parent.
   */
  lemma {:induction false} PairIntoFirstChild(a: Rect, kids: seq<Node>)
    requires |kids| > 0 && Fits(a, kids[0].boundary) && kids[0].objects == []
    ensures Redistribute([a, a], kids).0 == [a]
    ensures Redistribute([a, a], kids).1[0].objects == [a]
  {
    var objs := [a, a];
    assert objs != [] && objs[0] == a && objs[1] == a && objs[2..] == [];
    assert FirstFit(objs[0], kids, 0) == Some(0);
    var moved := kids[0 := kids[0].(objects := kids[0].objects + [objs[0]])];
    assert kids[0].objects + [objs[0]] == [a];
    assert Redistribute(objs[2..], moved) == ([], moved);
    assert Redistribute(objs, kids) == ([objs[1]] + Redistribute(objs[2..], moved).0, moved);
  }
}
