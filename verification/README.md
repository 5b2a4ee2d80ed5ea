# SDL demo physics, modelled in Dafny

This project models the simulation and game logic of a collection of small
SDL3 demos and their shared physics headers. It leaves out windows,
rendering and input. Each demo is a module. The shared pieces are modules
of their own:

- **Vec2**: the 2D vector type `phy::vec2`. It covers arithmetic, dot and
  cross products, length, normalisation, rotation, perpendicular and
  parallel vectors, and projection.
- **Geometry**: the rectangle predicates. These are `pointInRect`,
  `rectToRectIntersect`, `rectFitCompletely`, `AABB::intersect`, the
  `Rect2D` stubs and the quadtree quadrants.
- **Collision**: the contact record and the segment-segment intersection
  from `collision.h`.
- **Quadtrees**:
  - **PointQuadtree** is the point quadtree of the ball demo and of its
    header copy.
  - **RectQuadtree** is the rectangle quadtree of `include/phy/quadtree.h`.
  - **StubQuadtree** is the stubbed quadtree of the standalone quadtree demo.
- **Accumulator**: the fixed-timestep loop every animated demo runs. The
  frame time is the tick difference times `10e-9`. On a nanosecond clock
  that is ten times the elapsed seconds, and the model keeps that factor.
- **Elastic** and **BallPhysics**: the ball demo's wall bounces, its
  elastic ball-ball exchange and its integration.
- **Eightball**: the pool demo's world update. Balls collide with balls
  and with wall segments, and drag slows them.
- **Polygons** and **PolygonCollision**: the polygon body and the
  polygon-polygon contact tests of the polygon-collision demo.
- **RigidBody**, **RigidBody1** and **RigidBody2**: the two rigid-body
  demos. They cover the point velocity of a rotating body, floor contact,
  impulses with restitution, and body-body separation.
- **Relaxation**, **Verlet** and **SoftBodies**: the distance-constraint
  correction, the Verlet stick world, and the soft-body rope.
- **Sierpinski**: the chaos-game construction of the Sierpinski-triangle
  demo.
- **TicTacToe**: the board rules and the minimax AI.

## How the maths is modelled

Numbers are modelled as follows:

- Floating-point values are modelled as `real`.
- `std::hypot`, `std::sin` and `std::cos` are uninterpreted constants in
  module CMath.
- A member that needs the exact Euclidean meaning of `hypot` requires
  `HypotExact()`.
- A member that needs `cos 0 = 1` and `sin 0 = 0` requires `TrigAtZero()`.

Randomness is handled through parameters and option values:

- Random draws, such as a corner index or a board cell, are parameters.
- The source divides by a length with no guard in several places. There
  the model either returns `None`, or it requires the case that the source
  evidently expects.

Pointers and iteration are modelled this way:

- Pointer links between bodies, such as sticks, rope neighbours and quadtree
  objects, become indices or values.
- The source's recursions can fail to terminate. The quadtree with
  coincident points is one case. The model bounds these with an explicit
  `fuel` parameter.

## Model

| member | source | states |
|---|---|---|
| TicTacToe.ClearBoard | small/tictactoe.cpp:174-181 | the cleared board has all nine cells empty (-1) |
| TicTacToe.WinsFrom | small/tictactoe.cpp:198-206 | the scan over the winning lines from line k on reports true exactly when one of those lines is wholly the player's |
| TicTacToe.IsWinning | small/tictactoe.cpp:183-207 | isWinning holds exactly when the player owns a full row, column or diagonal (an independent definition of a line) |
| TicTacToe.LinesAreTheRowsColumnsAndDiagonals | small/tictactoe.cpp:185-196 | the eight index triples of the source are exactly the three rows, three columns and two diagonals |
| TicTacToe.EmptyBelow | small/tictactoe.cpp:215-217 | the cells collected from indices below n are empty, strictly increasing, and include every empty cell below n |
| TicTacToe.EmptyIndices | small/tictactoe.cpp:210-220 | getEmptyIndices lists exactly the empty cells, in increasing order |
| TicTacToe.FullIffNoEmptyIndices | small/tictactoe.cpp:226 | the empty-index list is empty exactly when no cell is empty |
| TicTacToe.Child | small/tictactoe.cpp:236-237 | placing a mark on an empty cell changes that cell, and only that cell, to the mark |
| TicTacToe.Minimax | small/tictactoe.cpp:222-257 | the score lies in -1..1 and is 0 when the depth is used up or the board is full |
| TicTacToe.MinChild | small/tictactoe.cpp:232-243 | the minimising loop's value is a lower bound on, and equal to one of, the scores of the AI's moves |
| TicTacToe.MaxChild | small/tictactoe.cpp:244-255 | the maximising loop's value is an upper bound on, and equal to one of, the scores of the human's moves |
| TicTacToe.MinimaxTerminal | small/tictactoe.cpp:226-230 | terminal boards score 0 (depth or full), else 1 for a human line, else -1 for an AI line, checked in that order |
| TicTacToe.MinimaxRecurrence | small/tictactoe.cpp:232-255 | on a non-terminal board the score is the minimum (AI to move) or maximum (human to move) over all empty cells of the child's score |
| TicTacToe.FullBoardWithLineScoresZero | small/tictactoe.cpp:226-229 | a full board on which the human has a line scores 0, because the emptiness test comes before the win test |
| TicTacToe.LastMinimum | small/tictactoe.cpp:280-290 | the `<=` scan picks -1 for no cells, otherwise a cell of minimum score with every later cell scoring strictly more (the last minimum) |
| TicTacToe.AIPlay | small/tictactoe.cpp:259-300 | a won or full board is left alone; with 8 or more empty cells the AI marks the drawn one; otherwise it marks the last empty cell of minimum depth-4 score and hands the turn to the player |
| TicTacToe.ChooseMove | small/tictactoe.cpp:282-291 | the chosen cell is empty, no empty cell scores lower under depth-4 minimax, and every empty cell after it scores strictly higher (the `<=` scan keeps the last minimum) |
| TicTacToe.ChosenIsBest | small/tictactoe.cpp:280-295 | the cell the scan picks has a score no greater than any empty cell's, and strictly smaller than any later empty cell's |
| Vec2.AddSubInverse | small/include/phy/vec2.h:12-18 | subtracting undoes adding, and adding undoes subtracting |
| Vec2.AddCommAssoc | small/include/phy/vec2.h:12-14 | vector addition is commutative and associative |
| Vec2.DotSymmetric | small/include/phy/vec2.h:64-66 | the dot product is symmetric and linear in its first argument |
| Vec2.CrossAntisymmetric | small/include/phy/vec2.h:68-70 | the cross product is antisymmetric and vanishes on equal arguments |
| Vec2.LengthZero | small/include/phy/vec2.h:72-74 | length is non-negative and is zero exactly for the zero vector |
| Vec2.LengthSquared | small/include/phy/vec2.h:72-74 | length squared equals the vector's dot product with itself |
| Vec2.LengthScale | small/include/phy/vec2.h:20-22 | scaling a vector scales its length by the absolute value of the factor |
| Vec2.Normalize | small/include/phy/vec2.h:76-80 | the zero vector normalises to zero; any other vector to a unit vector parallel to it and in the same direction |
| Vec2.RotateZero | small/include/phy/vec2.h:42-47 | rotating by angle 0 returns the vector unchanged |
| Vec2.FromAngle | small/include/phy/vec2.h:99-101 | fromAngle is the unit x vector rotated by the angle and scaled |
| Vec2.Perp | small/include/phy/vec2.h:49-62 | the perpendicular vector is orthogonal to the input |
| Vec2.PerpLength | small/include/phy/vec2.h:49-62 | perp of the zero vector is zero; otherwise its length is the absolute value of u |
| Vec2.PerpClockwise | small/include/phy/vec2.h:53-57 | the clockwise perpendicular is the negation of the anticlockwise one |
| Vec2.PerpAngular | small/include/phy/vec2.h:49-62 | perp(-w * len) of an arm r is the velocity w x r = (-w r.y, w r.x), the zero arm included |
| Vec2.PerpOfZeroLength | small/include/phy/vec2.h:58-60 | a vector of length 0 has the zero perpendicular |
| Vec2.PerpAngularNonZero | small/include/phy/vec2.h:52-54 | for a non-zero arm, perp(-w * len) is (-w r.y, w r.x) |
| Vec2.Para | small/include/phy/vec2.h:82-86 | para of a non-zero vector is parallel to it with length the absolute value of u; its component along the vector is +u when `positive` holds and -u otherwise |
| Vec2.Projection | small/include/phy/vec2.h:92-97 | the scalar projection is 0 when either vector is zero; otherwise it times the length of the other vector is the dot product |
| Vec2.Project | small/include/phy/vec2.h:88-90 | project gives a vector parallel to the receiver whose length is the absolute scalar projection and whose component along the receiver is that projection, with its sign; it is zero when the other vector is zero |
| Accumulator.FrameDtLaws | small/verlet.cpp:303 | the frame time of a clock difference is additive over consecutive intervals, grows with the tick count, is zero only for zero ticks, and 10^8 ticks give one time unit |
| Accumulator.Drain | small/verlet.cpp:309-312 | draining runs floor-based step count steps, subtracts one step per run, and leaves at most one step (strict `>`) or less than one step (`>=`, ball demo) |
| Accumulator.Frame | small/ballPhysics.cpp:355-363 | a frame adds the frame time, then drains; from a non-negative accumulator the remainder stays in [0, step] or [0, step) |
| Accumulator.AtLeastCount | small/ballPhysics.cpp:360-363 | with `>=`, the step count n satisfies n * step <= acc < (n + 1) * step |
| Accumulator.AboveCount | small/softBodies.cpp:231-234 | with `>`, no step runs exactly when acc <= step, and otherwise n * step < acc <= (n + 1) * step |
| Accumulator.IterateCompose | small/verlet.cpp:309-312 | running a steps and then b more is running a + b steps, so a drain split across frames reaches the same state |
| Collision.Dir | include/phy/collision.h:11-13 | the contact direction leads from the vertex to the intersection point |
| Collision.Depth | include/phy/collision.h:15-17 | the contact depth is non-negative and zero exactly when the intersection is the vertex |
| Collision.LineToLineIntersect | include/phy/collision.h:22-38 | a hit is reported exactly when both segment parameters exist and lie in [0, 1]; a hit records vertex l2, an intersection on both segments, the normalised l4 - l3 as edge and its unit perpendicular as normal, orthogonal to l3-l4; a miss leaves the record untouched |
| Collision.IntersectionOnBoth | include/phy/collision.h:24-31 | the point at parameter t on l1-l2 equals the point at parameter u on l3-l4 |
| Collision.NormalOfEdge | include/phy/collision.h:32-33 | the contact normal (the perpendicular of the normalised edge) is orthogonal to the edge |
| Geometry.DefaultRect | small/include/phy/geometry.h:16 | the defaulted Rect2D has corner (0, 0) and size (0, 0), so area 0 |
| Geometry.StubsNeverHold | small/include/phy/geometry.h:22-28 | containsPoint and intersectRect answer false even for a rectangle's own corner and for a rectangle against itself |
| Geometry.IntersectSymmetricStrict | small/quadtree.cpp:306-309 | rectToRectIntersect is symmetric, and rectangles that only touch along an edge do not intersect |
| Geometry.FitsPreorder | include/phy/quadtree.h:122-125 | rectFitCompletely is reflexive and transitive |
| Geometry.FitsPoints | include/phy/quadtree.h:122-125 | a point inside a rectangle that fits in another is inside the other |
| Geometry.InteriorPointOverlaps | small/quadtree.cpp:300-309 | a rectangle holding a point strictly inside a range intersects that range |
| Geometry.Quadrant | include/phy/quadtree.h:91-96 | a quadrant has half the width and height and a quarter of the area; quadrants 1 and 3 start half a width right, 2 and 3 half a height down; it fits inside its parent |
| Geometry.QuadrantsCover | small/include/phy/quadtree.h:38-43 | every point of a rectangle lies in one of its four quadrants |
| PointQuadtree.New | small/include/phy/quadtree.h:25-28 | a new node has the given boundary and capacity, holds nothing and is well formed |
| PointQuadtree.Insert | small/include/phy/quadtree.h:30-63 | insert ignores a point outside the boundary; below capacity it appends the point; it never undivides a node and keeps it well formed |
| PointQuadtree.Split | small/include/phy/quadtree.h:36-54 | the first overflow makes four quadrant children, offers every stored object to each of them, and empties the node |
| PointQuadtree.InsertAll | small/include/phy/quadtree.h:45-50 | inserting a list keeps the boundary, the capacity, the divided flag and well-formedness |
| PointQuadtree.OfferAll | small/include/phy/quadtree.h:57-61 | offering an object to the children inserts it into each child |
| PointQuadtree.InsertFirstOverflow | small/include/phy/quadtree.h:33-61 | at the first overflow each child receives all the old objects and then the new one |
| PointQuadtree.InsertOverflowSplits | small/include/phy/quadtree.h:35-61 | an overflowing insert is a split followed by offering the new object to the children |
| PointQuadtree.SplitThenOffer | small/include/phy/quadtree.h:45-61 | splitting and then offering o leaves each child as a fresh quadrant that received the old objects followed by o |
| PointQuadtree.InsertForwards | small/include/phy/quadtree.h:57-61 | a divided node forwards an insert to every child, one level down |
| PointQuadtree.InsertAllAppend | small/include/phy/quadtree.h:45-50 | inserting a list with one more object is inserting the list, then the object |
| PointQuadtree.Inside | small/include/phy/quadtree.h:31-34 | the objects a fresh leaf keeps are a sub-multiset of those offered, all inside the boundary |
| PointQuadtree.FreshLeafKeepsInside | small/include/phy/quadtree.h:30-34 | a fresh node offered no more objects than its capacity keeps exactly those inside its boundary, in order |
| PointQuadtree.LeafKeepsInside | small/include/phy/quadtree.h:30-34 | a leaf with room appends the offered objects that lie inside its boundary |
| PointQuadtree.CentreInAllQuadrants | small/include/phy/quadtree.h:38-43 | the centre of a node lies in all four quadrants, so a point there is stored four times |
| PointQuadtree.Filter | small/include/phy/quadtree.h:71-73 | the leaf scan returns exactly the stored objects inside the range |
| PointQuadtree.Find | small/include/phy/quadtree.h:65-85 | findObject returns nothing when the boundary misses the range, and every object it returns lies in the range |
| PointQuadtree.Gather | small/include/phy/quadtree.h:78-81 | collecting over the children yields exactly the accumulated objects plus each child's results |
| PointQuadtree.FindDividedOrder | small/include/phy/quadtree.h:77-82 | a divided node returns the children's results in reverse child order, since each is inserted at the front |
| PointQuadtree.FindLeaf | small/include/phy/quadtree.h:70-75 | a leaf that meets the range returns exactly its objects inside the range |
| PointQuadtree.VisibleInBoundary | small/include/phy/quadtree.h:30-61 | in a well-formed tree, every object stored at a leaf lies within that node's boundary |
| PointQuadtree.FindComplete | small/ballPhysics.cpp:89-109 | every stored object strictly inside the range is found |
| PointQuadtree.EdgePointMissed | small/include/phy/quadtree.h:65-66 | a point on the shared edge of a leaf and a range is in the range but is not found, because the overlap test is strict |
| RectQuadtree.Resize | include/phy/quadtree.h:27-36 | resize installs the boundary and parameters and leaves an undivided node holding nothing |
| RectQuadtree.FirstFit | include/phy/quadtree.h:110-115 | the first child the rectangle fits in, if there is one; otherwise it fits in none of the children |
| RectQuadtree.ChildrenContentsAppend | include/phy/quadtree.h:112 | appending to one child adds exactly that rectangle to the children's contents |
| RectQuadtree.Redistribute | include/phy/quadtree.h:105-118 | redistribution keeps the children's boundaries and only keeps rectangles it was given |
| RectQuadtree.RedistributeKeepsContents | include/phy/quadtree.h:105-118 | redistribution loses and duplicates nothing: kept plus moved equals the original contents |
| RectQuadtree.KeptFirst | include/phy/quadtree.h:116-118 | a rectangle that fits no child stays in the parent and is accounted for |
| RectQuadtree.MovedRest | include/phy/quadtree.h:113-118 | after a move, the element that slides into place is kept unchecked and the rest are accounted for |
| RectQuadtree.MovedFirst | include/phy/quadtree.h:111-114 | a rectangle moved to its first fitting child is accounted for |
| RectQuadtree.RedistributeKeepsFit | include/phy/quadtree.h:110-114 | every rectangle a child receives fits in that child |
| RectQuadtree.FreshChildren | include/phy/quadtree.h:85-96 | subdivision creates four empty children, resized to the quadrants with the parent's parameters |
| RectQuadtree.Subdivide | include/phy/quadtree.h:84-103 | the children are the four quadrants with the parent's parameters; contents are kept and every stored rectangle still fits its node |
| RectQuadtree.Insert | include/phy/quadtree.h:38-69 | a rectangle that does not fit is refused and changes nothing; otherwise insert reports true, and with room and no children it appends; a node with children is not changed |
| RectQuadtree.InsertOverflowDrops | include/phy/quadtree.h:45-68 | without room the rectangle is reported stored but is dropped; the node subdivides when large enough |
| RectQuadtree.InsertAppendAdds | include/phy/quadtree.h:42-44 | an append adds exactly the rectangle to the contents |
| RectQuadtree.ChildrenFitParent | include/phy/quadtree.h:91-96 | every child's boundary fits in the parent's boundary |
| RectQuadtree.RedistributeMovesFirst | include/phy/quadtree.h:111-118 | whenever the first rectangle fits a child it is appended to the first such child, and the second rectangle stays in the parent without being offered to any child; the rest are redistributed into the updated children |
| RectQuadtree.RedistributeSkipsNext | include/phy/quadtree.h:111-118 | of two equal rectangles that both fit a child, the second stays in the parent, because erase returns the next element and the loop then skips it |
| StubQuadtree.Resize | small/quadtree.cpp:39-45 | resize installs the boundary and capacity and leaves an empty, undivided node |
| StubQuadtree.Insert | small/quadtree.cpp:47-86 | insert always reports false; it appends exactly when the object's area is at most the boundary's |
| StubQuadtree.Admitted | small/quadtree.cpp:48-51 | the admitted objects are among those offered and pass the area test |
| StubQuadtree.InsertAllStoresAdmitted | small/quadtree.cpp:47-86 | a run of inserts appends exactly the admitted objects and grows the size by their number |
| Elastic.Exchange | small/ballPhysics.cpp:215-221 | the exchanged normal speeds conserve momentum, reverse the relative speed, and swap when the masses are equal |
| Elastic.ExchangeLaws | small/eightball.cpp:311-318 | the source's two closed-form speeds conserve momentum, reverse the relative speed, and swap for equal masses |
| Elastic.ExchangeKeepsEnergy | small/ballPhysics.cpp:220-221 | the exchange also conserves kinetic energy along the normal |
| Elastic.Collide | small/ballPhysics.cpp:204-227 | the exchange keeps both masses and the sum of the positions, and widens the separation by twice the displacement |
| Elastic.NormalSpeed | small/ballPhysics.cpp:209-218 | the speed read back from the normal part of a velocity is the velocity's own normal speed |
| Elastic.Recompose | small/ballPhysics.cpp:223-227 | a tangential part plus a new normal part has that normal speed and keeps the tangential part |
| Elastic.TangentOrthogonal | small/ballPhysics.cpp:212-213 | the tangential part of a velocity is orthogonal to the normal |
| Elastic.CollideVelocities | small/ballPhysics.cpp:209-227 | after the exchange each tangential velocity is kept and the normal speeds are the elastic exchange of the old ones |
| Elastic.CollideConservesMomentum | small/eightball.cpp:305-324 | the exchange conserves total momentum |
| Elastic.CollideZeroNormal | small/ballPhysics.cpp:204-227 | with a zero normal, which is what normalize gives for coincident centres, the velocities are unchanged |
| Elastic.SeparationAfter | small/ballPhysics.cpp:203-207 | after the push-apart the centres are exactly the sum of the radii apart |
| BallPhysics.CheckWallBounce | small/ballPhysics.cpp:178-194 | a ball below the floor is put on it (y = H - r) with vel.y times -0.8 and the weight taken off the force; a ball past the left wall that fits is put at x = r, one past only the right wall at x = W - r, each with vel.x times -0.3; a ball between the side walls keeps x and vel.x; afterwards the ball is above the floor |
| BallPhysics.InBoxUnchanged | small/ballPhysics.cpp:178-194 | a ball already inside the box is not touched |
| BallPhysics.CheckWallBounceIdempotent | small/ballPhysics.cpp:178-194 | bouncing twice is bouncing once, for a ball that fits between the side walls |
| BallPhysics.WideBallBouncesTwice | small/ballPhysics.cpp:185-193 | a ball wider than the box is clamped by the left test and then by the right, so it ends at W - r with vel.x scaled by 0.09 |
| BallPhysics.Collision | small/ballPhysics.cpp:196-231 | the pair exchange changes only positions and velocities, keeps the sum of positions, and leaves non-overlapping balls alone |
| BallPhysics.CollisionConservesMomentum | small/ballPhysics.cpp:203-228 | the pair exchange conserves total momentum |
| BallPhysics.CollisionVelocities | small/ballPhysics.cpp:209-227 | for overlapping balls with distinct centres the tangential velocities are kept and the normal speeds are exchanged elastically |
| BallPhysics.CollisionEqualMassesSwap | small/ballPhysics.cpp:220-227 | balls of equal mass swap their normal speeds |
| BallPhysics.CollisionSeparates | small/ballPhysics.cpp:203-207 | after the exchange overlapping balls are exactly touching |
| BallPhysics.CoincidentCentresPassThrough | small/ballPhysics.cpp:201-227 | balls with coincident centres keep positions and velocities, because the normal is the zero vector |
| BallPhysics.PairStep | small/ballPhysics.cpp:197-230 | one pair step changes only the two balls involved, and only in position and velocity |
| BallPhysics.PairStepKeepsTotals | small/ballPhysics.cpp:197-230 | one pair step keeps the sum of positions and the total momentum of all balls |
| BallPhysics.Collisions | small/ballPhysics.cpp:196-232 | the collision pass as a fold: ball i meets each ranged ball in list order, skipping itself; masses, radii, forces and accelerations are kept |
| BallPhysics.AloneUntouched | small/ballPhysics.cpp:197-198 | with no ranged ball other than the ball itself, the collision pass changes nothing |
| BallPhysics.BallToBallCollision | small/ballPhysics.cpp:196-232 | the loop computes exactly the fold `Collisions`; it changes only the ball and the ranged ones, and keeps the sum of positions and the total momentum |
| BallPhysics.Integrate | small/ballPhysics.cpp:161-167 | the position advances by vel * dt and the velocity by the new acceleration times dt |
| BallPhysics.Update | small/ballPhysics.cpp:156-168 | the update is the wall bounce, then the collision pass `Collisions`, then the force step on ball i: the position advances by the post-collision velocity v times dt from the post-collision position; the force is friction -0.2 v, plus the weight unless the ball hit the floor, acc = force / m and vel = v + acc dt; only the ball and its ranged partners change |
| BallPhysics.ForceLaw | small/ballPhysics.cpp:157-166 | the floor's weight removal cancels the weight added later, leaving friction only |
| BallPhysics.Frame | small/ballPhysics.cpp:355-363 | with `>=` the remainder is below one step of 1/6, and the step count is the floor of the accumulated time over the step |
| Eightball.IntersectPreorder | small/eightball.cpp:60-64 | AABB::intersect (containment) is reflexive and transitive |
| Eightball.OverlappingSymmetric | small/eightball.cpp:180-183 | the strict box-overlap test is symmetric, and boxes that only touch do not overlap |
| Eightball.Boundary | small/eightball.cpp:109-125 | a ball's box is the 2r square centred on it; a wall's box runs from its start to its end |
| Eightball.BallBoxesOverlap | small/eightball.cpp:123-125 | two ball boxes overlap exactly when the centres differ by less than the sum of the radii on both axes |
| Eightball.Move | small/eightball.cpp:161-169 | static bodies stay put; a moving body advances by vel * dt and keeps or zeroes its velocity |
| Eightball.MoveStops | small/eightball.cpp:164-167 | a body slower than 0.01 stops, a faster one keeps its velocity, and a body at rest is unchanged |
| Eightball.MoveAll | small/eightball.cpp:161-169 | the position pass moves every body independently |
| Eightball.BallToBall | small/eightball.cpp:277-327 | a resolved pair keeps mass and shape and the sum of positions; no result exactly for coincident ball centres, where the source divides by zero |
| Eightball.UnitNormal | small/eightball.cpp:298 | dist * (1 / distLen) is a unit vector |
| Eightball.StaticStop | small/eightball.cpp:289-294 | against a static ball closer than half the sum of the radii, the moving ball stops in place and nothing else changes |
| Eightball.ContactLaws | small/eightball.cpp:296-325 | a contact conserves momentum, keeps tangential velocities and exchanges the normal speeds elastically |
| Eightball.EqualMassesSwap | small/eightball.cpp:317-324 | balls of equal mass swap their normal speeds |
| Eightball.ContactSeparates | small/eightball.cpp:296-302 | after a contact the centres are exactly the sum of the radii apart, and the second ball has moved |
| Eightball.ContactDisplacement | small/eightball.cpp:298-302 | each ball moves by half the depth along the normal, in opposite directions |
| Eightball.CoincidentCentresUndefined | small/eightball.cpp:285-298 | coincident centres of non-static balls with positive radii give no defined result |
| Eightball.BallToWall | small/eightball.cpp:235-275 | inclined walls and non-walls change nothing; top and bottom walls touch only y, left and right walls only x; afterwards the ball is clear of the wall |
| Eightball.BallToWallClamp | small/eightball.cpp:243-273 | a clear ball is unchanged, a clamped one has its wall-normal speed scaled by -0.9, and clamping twice is clamping once |
| Eightball.PairStep | small/eightball.cpp:176-188 | a pair step changes only the pair, never a wall, and does nothing when the boxes do not overlap |
| Eightball.Collisions | small/eightball.cpp:171-189 | the collision pass keeps every body's mass and shape and never moves a wall |
| Eightball.Drag | small/eightball.cpp:192-197 | drag changes only the velocity |
| Eightball.DragScales | small/eightball.cpp:194-196 | drag scales a moving body's velocity by 1 - 0.2 dt / m, keeping its direction |
| Eightball.DragAll | small/eightball.cpp:192-197 | the drag pass treats each body independently |
| Eightball.Update | small/eightball.cpp:157-198 | an update keeps every body's mass and shape and leaves static walls exactly as they were |
| Eightball.Frame | small/eightball.cpp:498-507 | with `>` the remainder stays in [0, 1/240], and no step runs exactly when the accumulated time is at most one step |
| Polygons.WithVertices | include/phy/polygonrb.h:9-18 | a fresh polygon has the given vertices, rests at the origin with mass 1, moment of inertia 1 and angle 0 |
| Polygons.RotateAll | include/phy/polygonrb.h:23-25 | every stored vertex is rotated by the angle, in place and in order |
| Polygons.SetRotation | include/phy/polygonrb.h:21-26 | setRotation records the angle and rotates the stored vertices, changing nothing else |
| Polygons.WorldNext | small/polygonCollision.cpp:94 | the next world vertex wraps from the last vertex back to the first |
| Polygons.Worlds | small/polygonCollision.cpp:103 | the world vertices are pos plus each stored vertex rotated by the angle |
| Polygons.SumPosUpdate | small/polygonCollision.cpp:215-216 | moving one polygon changes the sum of positions by exactly its displacement |
| Polygons.OppositeMovesKeepSum | small/polygonCollision.cpp:213-216 | moving one polygon by d and another by -d keeps the sum of positions |
| PolygonCollision.Extend | small/polygonCollision.cpp:105-106 | one min/max step gives a span that contains the new projection |
| PolygonCollision.Extent | small/polygonCollision.cpp:98-115 | the projection span is empty exactly for no vertices, starting from the INFINITY bounds, and is otherwise ordered |
| PolygonCollision.ExtentBounds | small/polygonCollision.cpp:101-115 | every vertex projects into the span, and both ends of the span are attained by some vertex |
| PolygonCollision.OverlapMeansCommonValue | small/polygonCollision.cpp:117-122 | the overlap test holds exactly when the two spans share a value; it is symmetric, and the overlap depth is symmetric and non-negative when they overlap |
| PolygonCollision.AxesOf | small/polygonCollision.cpp:90-96 | each edge of a polygon gives one axis test along its normalised perpendicular |
| PolygonCollision.Verdicts | small/polygonCollision.cpp:117-122 | each axis test yields whether the spans overlap, their depth, and the axis |
| PolygonCollision.ScanVerdicts | small/polygonCollision.cpp:117-128 | the scan reports a hit exactly when every axis overlaps; on a hit it records the first axis of least depth; on a miss the record is unchanged or holds an earlier overlapping axis |
| PolygonCollision.ScanAxes | small/polygonCollision.cpp:90-129 | the axis scan reports a hit exactly when every axis overlaps, and on a hit it records the first shallowest axis |
| PolygonCollision.SatCollision | small/polygonCollision.cpp:76-134 | the separating axis test of both polygons' edges reports a hit exactly when no axis separates; on a hit it records the first shallowest axis with a non-negative depth; it never touches the vertex and intersection fields |
| PolygonCollision.Row | small/polygonCollision.cpp:151-157 | one vertex's row tests the centre-to-vertex segment against every edge of the other polygon |
| PolygonCollision.ProbeIsLineIntersect | small/polygonCollision.cpp:159-169 | the inline segment test agrees with the collision header's lineToLineIntersect: same hit, intersection point, distance to the vertex and edge normal |
| PolygonCollision.Crossings | small/polygonCollision.cpp:163-165 | each probe yields whether it hits and, if so, its distance and edge normal |
| PolygonCollision.ScanCrossings | small/polygonCollision.cpp:163-171 | the crossing scan reports a hit exactly when some probe hits; on a hit it records the first nearest hit; on a miss the record is unchanged |
| PolygonCollision.ScanProbes | small/polygonCollision.cpp:151-173 | the probe scan reports a hit exactly when some segment crosses, and on a hit it records the first nearest one |
| PolygonCollision.CheckPolygonCollision | small/polygonCollision.cpp:137-180 | a hit is reported exactly when some centre-to-vertex segment of either polygon crosses an edge of the other; the record then holds the first nearest crossing, whose depth is non-negative |
| PolygonCollision.Collide | small/polygonCollision.cpp:207-212 | on a default record the chosen function reports: SAT when useSat holds, with the first shallowest axis's depth and normal; otherwise the segment test, with the first nearest crossing's distance and edge normal; a reported depth is not negative |
| PolygonCollision.Resolve | small/polygonCollision.cpp:207-217 | on a contact polygon i moves by edge * depth/2 and polygon j by the opposite; without one nothing changes; only positions change and their sum is kept |
| PolygonCollision.Update | small/polygonCollision.cpp:200-222 | the update changes only positions, and it keeps the sum of all positions |
| RigidBody.PointVelocityNormal | small/rigidBody1.cpp:121-122 | the normal speed of the contact point vel + perp(-w * len) is the body's normal speed plus w times the cross of the arm with the normal |
| RigidBody.FirstOnFloor | small/rigidBody1.cpp:103-113 | the search finds the first vertex at or below the floor (`>=`; `>` in the second demo), and none exactly when no vertex is there |
| RigidBody.ImpulseMagnitude | small/rigidBody1.cpp:125 | the impulse magnitude j solves j (1/m + (r x n)^2 / I) = -(1 + cr) vn |
| RigidBody.FloorImpulse | small/rigidBody2.cpp:352-358 | an impulse along the floor normal (0, -1) leaves the horizontal velocity unchanged |
| RigidBody.FloorRestitution | small/rigidBody2.cpp:352-358 | after the floor impulse, the contact point's speed along the floor normal is -cr times its speed before |
| RigidBody.ImpulseRestitution | small/rigidBody1.cpp:119-127 | for any unit normal, the single-body impulse turns the contact point's normal speed vn into -cr vn |
| RigidBody.ImpulseShape | small/rigidBody1.cpp:126-127 | the impulse adds n j / m to the velocity and (r x n) j / I to the angular velocity |
| RigidBody.FloorBounce | small/rigidBody2.cpp:325-362 | with no vertex below the floor the body is unchanged; otherwise only position, velocity and angular velocity change, the body is lifted straight up, and the first such vertex ends exactly on the floor |
| RigidBody.FloorBounceRestitution | small/rigidBody2.cpp:344-358 | the floor bounce reverses the contact vertex's normal speed with factor cr |
| RigidBody1.SetRotation | small/rigidBody1.cpp:36-41 | this demo's setRotation rotates the stored vertices but sets the angle to 0 |
| RigidBody1.UnrotatedWorlds | small/rigidBody1.cpp:106 | with angle 0, a world vertex is pos plus the stored vertex |
| RigidBody1.TurnedWorlds | small/rigidBody1.cpp:36-41 | after turning, the world vertices are pos plus the old vertices rotated by the angle |
| RigidBody1.Move | small/rigidBody1.cpp:98-100 | the move advances pos by vel * dt and turns the vertices by angVelo * dt, keeping the motion |
| RigidBody1.Bounce | small/rigidBody1.cpp:102-130 | the bounce keeps mass, inertia, vertices and angle |
| RigidBody1.SearchFindsFirstAtFloor | small/rigidBody1.cpp:105-113 | the search returns the first vertex at or below the floor |
| RigidBody1.BounceMisses | small/rigidBody1.cpp:116 | with every vertex above the floor the body is unchanged |
| RigidBody1.BounceLifts | small/rigidBody1.cpp:116-118 | the bounce lifts the body straight up until the first contact vertex sits on the floor |
| RigidBody1.BounceRestitution | small/rigidBody1.cpp:119-127 | the contact vertex's normal speed is reversed with cr = 0.4 |
| RigidBody1.Accelerate | small/rigidBody1.cpp:132-140 | acceleration changes only velocity and angular velocity |
| RigidBody1.AccelerateEffect | small/rigidBody1.cpp:133-140 | gravity adds (0, 10) dt with the mass cancelling, and the damping torque -angVelo adds -angVelo / I dt |
| RigidBody1.Update | small/rigidBody1.cpp:96-141 | an update keeps mass and inertia, turns the vertices by angVelo * dt and resets the angle to 0 |
| RigidBody1.UpdateDetectsAfterMove | small/rigidBody1.cpp:99-106 | the floor test sees the vertices after the move and the turn |
| RigidBody2.MakeBlock | small/rigidBody2.cpp:364-378 | a block is a fresh polygon with four vertices and the given mass and inertia |
| RigidBody2.BlockIsCentredRectangle | small/rigidBody2.cpp:365-370 | the four vertices are centred on the origin and trace a w by h rectangle |
| RigidBody2.SetupBlock | small/rigidBody2.cpp:381-392 | setupBlock places the block at (x, y) with angle in radians, using 3.14159 for pi |
| RigidBody2.SetupBlockMassPositive | small/rigidBody2.cpp:382-384 | a block of positive size has positive mass and inertia, and the inertia is m (w^2 + h^2) / 12 |
| RigidBody2.ContactAt | small/rigidBody2.cpp:105-111 | the contact records vertex l2, and both arms lead from the body centres to the intersection |
| RigidBody2.CheckPolygonCollision | small/rigidBody2.cpp:78-126 | a hit is reported exactly when some segment crosses; because the minimum is never updated, the record holds the last crossing found |
| RigidBody2.ScanLastHit | small/rigidBody2.cpp:104-117 | the scan reports a hit exactly when some probe hits, and it returns the contact of the last one |
| RigidBody2.LastTrue | small/rigidBody2.cpp:113-117 | the last true entry is found, if there is one |
| RigidBody2.HitEdgeIsUnit | small/rigidBody2.cpp:109 | the recorded edge of a hit is a unit vector |
| RigidBody2.Separate | small/rigidBody2.cpp:159-161 | separation moves the bodies by opposite halves of the contact direction, so their sum is kept and their separation grows by the direction |
| RigidBody2.Dir | small/rigidBody2.cpp:29-31 | the contact direction leads from the vertex to the intersection |
| RigidBody2.PairMagnitude | small/rigidBody2.cpp:172-178 | the pair impulse j solves j times the inverse-mass sum = -(1 + cr) times the relative normal speed |
| RigidBody2.Push | small/rigidBody2.cpp:179-182 | the impulse changes only velocities and angular velocities |
| RigidBody2.Kick | small/rigidBody2.cpp:166-182 | the pair response changes only velocities and angular velocities |
| RigidBody2.PairImpulse | small/rigidBody2.cpp:166-182 | the pair impulse computed from a contact changes only velocities and angular velocities |
| RigidBody2.PushConservesMomentum | small/rigidBody2.cpp:179-181 | equal and opposite impulses conserve linear momentum |
| RigidBody2.PushSpeed | small/rigidBody2.cpp:169-182 | an impulse j changes the relative normal speed by j times the inverse-mass sum |
| RigidBody2.PushShape | small/rigidBody2.cpp:179-182 | the velocity and angular velocity changes of both bodies are as the source writes them |
| RigidBody2.KickConservesMomentum | small/rigidBody2.cpp:178-181 | the pair response conserves linear momentum |
| RigidBody2.KickRestitution | small/rigidBody2.cpp:176-178 | the relative normal speed becomes -cr times its old value exactly when the two arms' cross products have equal squares, the speed is zero, or cr = -1, because the source uses rp1 x n for both arms |
| RigidBody2.PairImpulseConservesMomentum | small/rigidBody2.cpp:166-182 | the response to a contact conserves linear momentum |
| RigidBody2.PairRestitution | small/rigidBody2.cpp:166-182 | the response to a contact achieves restitution cr under exactly the same condition as KickRestitution |
| RigidBody2.UnitNormal | small/rigidBody2.cpp:166 | the contact normal, the perpendicular of the normalised edge, is a unit vector |
| RigidBody2.WallBounce | small/rigidBody2.cpp:325-362 | the floor bounce keeps mass, inertia, vertices and angle |
| RigidBody2.Integrate | small/rigidBody2.cpp:187-188 | integration keeps mass, inertia and vertex count, and sets the angle to angVelo * dt |
| RigidBody2.Accelerate | small/rigidBody2.cpp:192-203 | the force pass changes only force, torque, acceleration, velocity and angular velocity |
| RigidBody2.AccelerateEffect | small/rigidBody2.cpp:192-203 | acc = (0, 5) - 0.9 v / m, the velocity gains acc dt, and the angular velocity loses angVelo / I dt |
| RigidBody2.Respond | small/rigidBody2.cpp:158-183 | responding to a contact keeps each body's mass, inertia and vertex count |
| RigidBody2.Contacts | small/rigidBody2.cpp:155-185 | the contact pass for one polygon keeps every body's mass, inertia and vertex count, and all masses stay positive |
| RigidBody2.Update | small/rigidBody2.cpp:145-206 | an update keeps every body's mass, inertia and vertex count, and all masses stay positive |
| Relaxation.ShareA | small/verlet.cpp:172-176 | end A's share wA / (wA + wB) lies strictly between 0 and 1, and mA times it equals mB times B's share |
| Relaxation.Relax | small/verlet.cpp:164-178 | one distance correction keeps the mass-weighted sum mA A + mB B |
| Relaxation.RelaxCoincident | small/verlet.cpp:168 | coincident end points are skipped |
| Relaxation.RelaxShape | small/softBodies.cpp:89-97 | A moves by the correction times its share, and B moves by minus the correction times its share |
| Relaxation.RelaxSeparation | small/verlet.cpp:166-177 | the new separation is the old one scaled by 1 - diff / dist, so both ends move along the line joining them |
| Relaxation.RelaxError | small/softBodies.cpp:86-97 | with a factor in [0, 1] and a non-negative target, the length error after the correction is (1 - factor) times the error before |
| Verlet.AddStick | small/verlet.cpp:86-89 | addStick appends exactly one stick, keeps everything else, and keeps the world's sticks pointing at existing particles |
| Verlet.Init | small/verlet.cpp:215-248 | the initial world is valid, with 5 particles, 6 sticks and the boundary (0, 0, W, H) |
| Verlet.InitAtRest | small/verlet.cpp:234-245 | every initial stick has its rest length: the square's sides are 50 and its diagonals hypot(50, 50) |
| Verlet.InitShape | small/verlet.cpp:234-245 | the square's corners are at (100, 0), (150, 0), (150, 50) and (100, 50); its sticks are the four sides and the two diagonals |
| Verlet.CalcAcceleration | small/verlet.cpp:192-198 | every particle's acceleration gains (0, g) and nothing else changes; the mass cancels |
| Verlet.Integrate | small/verlet.cpp:181-190 | the old position becomes lastPos, acceleration is cleared, and the new displacement is 0.98 times the old plus acc dt^2 |
| Verlet.IntegrateAtRest | small/verlet.cpp:184-188 | a particle at rest with no acceleration stays put |
| Verlet.IntegrateDamps | small/verlet.cpp:185-186 | with no acceleration the displacement shrinks by the damping 0.98 |
| Verlet.IntegrateAll | small/verlet.cpp:183-189 | integration treats each particle independently |
| Verlet.StickStep | small/verlet.cpp:164-178 | one stick moves only its two end particles, and only their positions |
| Verlet.StickKeepsCentre | small/verlet.cpp:172-177 | one stick correction keeps the mass-weighted centre of the world |
| Verlet.StickHalvesError | small/verlet.cpp:166-177 | one correction scales the stick by (dist + length) / (2 dist), halving the length error |
| Verlet.SolveSticks | small/verlet.cpp:162-179 | a stick pass keeps masses and radii, lastPos and acceleration |
| Verlet.SolveSticksKeepsCentre | small/verlet.cpp:162-179 | a whole stick pass keeps the mass-weighted centre |
| Verlet.Boundary | small/verlet.cpp:141-160 | the clamp keeps mass, radius and acceleration; afterwards the particle is above the floor, and within the side walls when it fits between them |
| Verlet.BoundaryKeepsInside | small/verlet.cpp:145-158 | a particle inside the box is unchanged |
| Verlet.BoundaryBounce | small/verlet.cpp:144-158 | on a clamped axis the implied velocity is reversed and scaled by damping times friction (0.98 * 0.85); an unclamped axis is untouched |
| Verlet.BoundaryLeftFirst | small/verlet.cpp:151-155 | the left test wins: a particle past x = 0 is placed at x = r even if it is also past the right wall |
| Verlet.LeftEdgeIsOrigin | small/verlet.cpp:151 | the left wall is x = 0, not the boundary's x: a particle left of a box that starts at x = 100 is not moved |
| Verlet.BoundaryIdempotent | small/verlet.cpp:141-160 | clamping twice is clamping once, for a particle that fits between the walls |
| Verlet.BoundaryAll | small/verlet.cpp:142-159 | the boundary pass treats each particle independently |
| Verlet.Relaxations | small/verlet.cpp:96-99 | n rounds of sticks and boundary keep masses and radii |
| Verlet.Update | small/verlet.cpp:91-100 | an update is acceleration, integration, then five rounds of sticks and boundary; it keeps the sticks, the boundary and masses, clears accelerations and leaves every particle above the floor |
| Verlet.Run | small/verlet.cpp:309-312 | n passes of the drain loop leave the world `StepWorld` iterated n times, keeping the sticks and boundary |
| Verlet.Frame | small/verlet.cpp:303-312 | a frame runs one update per whole step in the accumulated time (strict `>`); the world it returns is exactly `StepWorld` iterated that many times, and the remainder is in [0, 1/60] |
| SoftBodies.Trunc | small/softBodies.cpp:163 | the float-to-int conversion truncates toward zero |
| SoftBodies.TruncLaws | small/softBodies.cpp:163 | truncation fixes integers and commutes with negation |
| SoftBodies.RopeLength | small/softBodies.cpp:162-163 | the rest length is the pivot distance over divMax, truncated |
| SoftBodies.RopeLengthIsEight | small/softBodies.cpp:159-163 | the rest length is 8 |
| SoftBodies.Init | small/softBodies.cpp:164-172 | init makes 50 unit-mass particles, with particle x at pivot1.x + 8x |
| SoftBodies.InitSpacing | small/softBodies.cpp:164-172 | neighbours are 8 apart; the first particle is at pivot1.x, and the last at 492, short of pivot2 by one rest length |
| SoftBodies.Topology | small/softBodies.cpp:174-181 | there is one neighbour list per particle, each naming existing particles |
| SoftBodies.TopologyNeighbours | small/softBodies.cpp:174-181 | j is a neighbour of i exactly when i is interior and j is i - 1 or i + 1 |
| SoftBodies.SpringForce | small/softBodies.cpp:51-57 | the spring force is parallel to the separation |
| SoftBodies.SpringHooke | small/softBodies.cpp:51-57 | the spring force has magnitude abs(k x) with x = l - ropeLength; as written it points away from the neighbour when stretched |
| SoftBodies.SpringLaw | small/softBodies.cpp:53-56 | dist * (-k x / l) has length abs(k x), and it points against dist for k, x > 0 |
| SoftBodies.CalcAcceleration | small/softBodies.cpp:59-74 | only the weight is applied: every acceleration gains (0, g), since the summed spring force is discarded |
| SoftBodies.Integrate | small/softBodies.cpp:108-115 | lastPos becomes the old position, acceleration is cleared, and the displacement is 0.999 times the old plus acc dt^2 |
| SoftBodies.IntegrateAtRest | small/softBodies.cpp:110-114 | a particle at rest with no acceleration stays put |
| SoftBodies.IntegrateAll | small/softBodies.cpp:108-115 | integration treats each particle independently |
| SoftBodies.LinkStep | small/softBodies.cpp:83-98 | one link correction moves only its two particles, and only their positions |
| SoftBodies.LinkKeepsCentre | small/softBodies.cpp:92-97 | one link correction keeps the mass-weighted centre |
| SoftBodies.LinkShrinksError | small/softBodies.cpp:86-97 | with factor 0.5 k = 0.1, one correction leaves 0.9 of the length error |
| SoftBodies.LinkSkipsCoincident | small/softBodies.cpp:88 | coincident particles are skipped |
| SoftBodies.NeighbourPass | small/softBodies.cpp:83-98 | the corrections of particle i against its neighbours, in list order, move positions only: masses, lastPos and accelerations are kept |
| SoftBodies.ConstraintPass | small/softBodies.cpp:78-99 | the first n particles' neighbour passes in index order keep masses, lastPos and accelerations |
| SoftBodies.Passes | small/softBodies.cpp:119 | m whole constraint passes in a row keep masses, lastPos and accelerations |
| SoftBodies.UnlinkedPassKeeps | small/softBodies.cpp:78-99 | with every neighbour list empty a constraint pass changes nothing |
| SoftBodies.CorrectNeighbours | small/softBodies.cpp:83-98 | the inner loop computes exactly `NeighbourPass` and keeps the mass-weighted centre |
| SoftBodies.SolveConstraint | small/softBodies.cpp:77-100 | the loop computes exactly `ConstraintPass` over all particles; it keeps masses, lastPos and accelerations, and the mass-weighted centre |
| SoftBodies.PhysicsStep | small/softBodies.cpp:102-122 | one step keeps the number of particles and their masses |
| SoftBodies.PhysicsProcess | small/softBodies.cpp:102-122 | a step is exactly `PhysicsStep`: acceleration, integration, then five constraint passes; it records the old positions as lastPos, clears accelerations, and keeps the centre of the integrated state through the five passes |
| SoftBodies.StepWithApplies | small/softBodies.cpp:231-234 | the step the drain loop runs is `PhysicsStep` with the fixed step 1/60 |
| SoftBodies.Run | small/softBodies.cpp:231-234 | n passes of the drain loop leave the rope `StepWith(links)` iterated n times |
| SoftBodies.Pin | small/softBodies.cpp:125-131 | update pins the last particle to pivot2 and, for a rope of two or more, the first to pivot1; the interior is untouched |
| SoftBodies.PinIdempotent | small/softBodies.cpp:125-131 | pinning twice is pinning once |
| SoftBodies.Frame | small/softBodies.cpp:225-234 | a frame pins, then runs one step per whole step in the accumulated time; the rope it returns is exactly the pinned rope with that many steps applied, and with no step the rope ends sit on the pivots |
| Sierpinski.Coordinates | small/sierpienskiTriangle.cpp:90-98 | a point's barycentric coordinates in the demo's triangle sum to 1 and recombine to the point |
| Sierpinski.CoordinatesOfCombine | small/sierpienskiTriangle.cpp:90-98 | weights summing to 1 are the coordinates of the point they make |
| Sierpinski.MidpointCoordinates | small/sierpienskiTriangle.cpp:108-110 | the coordinates of a midpoint are the average of the two points' coordinates |
| Sierpinski.CornerCoordinates | small/sierpienskiTriangle.cpp:90-98 | corner k has weight 1 on itself and 0 on the other corners |
| Sierpinski.CornerInside | small/sierpienskiTriangle.cpp:90-98 | every corner lies in the triangle |
| Sierpinski.StartInside | small/sierpienskiTriangle.cpp:101-102 | the start point (250, 150) lies inside, with coordinates (2/3, 1/6, 1/6) |
| Sierpinski.MidpointInside | small/sierpienskiTriangle.cpp:104-112 | the midpoint of an inside point and a corner is inside |
| Sierpinski.SelectedInside | small/sierpienskiTriangle.cpp:104-112 | every selected point lies inside the triangle |
| Sierpinski.Init | small/sierpienskiTriangle.cpp:85-113 | init stores the three corners, then 50000 points; each is the midpoint of the previous selected point (first the start point) and the drawn corner, and every stored point lies inside the triangle |

## Left out

- Windows, rendering, textures, fonts, event polling, mouse and keyboard handlers, and the demos' `main`/animate loops: these are SDL I/O. The per-frame physics they drive is modelled.
- All console output (`std::cout`), including the eightball quadtree stub that only prints: it has no effect on state.
- Random draws (`rand`, `randRange`, the AI's random first move, Verlet particle creation): each draw is a parameter of the operation that uses it.
- IEEE 754 rounding, NaN and infinities: floats are `real`. `sqrt`/`hypot`, `sin` and `cos` are uninterpreted, and results that need their exact values are stated under `HypotExact()` or `TrigAtZero()`.
- Float-to-int truncation by the SDL draw calls: only drawing uses it.
- `small/archimedes.cpp`, `small/transformation.cpp`, `small/integrationScheme.cpp`, `small/mode7.cpp`, `small/1_template.cpp` and `test/window_test.cpp` are not part of this model. They are buoyancy, rendering, integration-scheme or window demos outside the physics core.
- `include/phy/linerb.h` is not part of this model. It holds data only.
- The polygon body's `getRotation`: it only reads the `theta` field.
- The compound assignment operators of `vec2` (`+=`, `-=`, `*=`): under value semantics they are the same functions as `+`, `-` and `*`.
- `findObject` in `small/quadtree.cpp`: it falls off its end without a `return`, so its result is undefined. The header copy's `findObject` is modelled instead.
- The iterator step past `end()` in the rectangle quadtree's `redistributeObject`: it is undefined behaviour, and the model stops at the end of the list.
- TicTacToe: the source assigns `INFINITY` to an `int`. The model uses a sentinel `Infinity` above every score, and `LastMinimum` requires the scores to be below it.
- Multi-frame behaviour (convergence of the relaxation, energy drift, tunnelling through walls): every contract is about one call or one frame.
- PointQuadtree: insertion recurses without a bound. The model carries a `fuel` depth bound, and an insertion that runs out of fuel has no effect. The demos stop subdividing long before any realistic bound.
- BallPhysics.Update: the ball's partners come from a quadtree query in the source. Here they are the `ranged` index list parameter, so the contract does not say which balls are in range.
- RigidBody.FloorBounce: the second-contact branch of `checkWallBounce` is not modelled. It is unreachable because of the `break` at `small/rigidBody2.cpp:340`.
- PointQuadtree.FindLeaf: states which objects are returned, not their storage order.
- PointQuadtree.Filter: states which objects are returned, not their storage order.
- Eightball.Collisions: states that masses and shapes are kept and walls never move, not the velocity each pair receives. The per-pair effect is stated by the ball-ball and ball-wall members.
- Eightball.Update: states that masses and shapes are kept and static walls are untouched, not the full effect of every collision. The collision steps are stated member by member.
- RigidBody2.Contacts: states that mass, inertia and vertex count are kept and masses stay positive, not the positions and velocities after each contact. Those are stated by `Separate`, `Push`, `Kick` and `PairImpulse`.
- RigidBody2.Update: states the same invariants as `Contacts`, not the full state after a frame.
- PolygonCollision.Update: states that only positions change and that the sum of positions is kept, not which polygons move.

## Behaviour kept as written

The model follows the source where it looks unintended:

- The per-tick time step is `10e-9` times the tick count (`Accumulator.FrameDt`). On a nanosecond clock that is ten times real time.
- The first rigid-body demo detects floor contact with `>=` (`small/rigidBody1.cpp:107`), so a vertex exactly on the floor already bounces; the second demo uses `>`.
- In the rigid-body pair impulse, the second body's normal lever arm is computed from the first body's contact offset (`RigidBody2.KickRestitution`).
- The polygon contact search never updates its minimum length, so it keeps the last hit, not the nearest (`RigidBody2.ScanLastHit`).
- `rigidBody1` forces the angle back to 0 after turning the vertices (`RigidBody1.Update`).
- The soft-body spring force is computed and then discarded (`SoftBodies.SpringForce` is not used by `CalcAcceleration`).
- Minimax reports a full board as a draw before it checks for a win.
- The rectangle quadtree's `moved` flag is never set, so after each moved rectangle the next one is skipped (`RectQuadtree.RedistributeSkipsNext`).
- A rectangle inserted into a full node that no child can hold is dropped (`RectQuadtree.InsertOverflowDrops`).
- The Verlet boundary clamps at 0 on the left, not at the boundary's own left edge (`Verlet.LeftEdgeIsOrigin`).
