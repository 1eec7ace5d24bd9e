# collision-quad in Dafny

A model of the core of collision-quad, a "particle life" simulation. Coloured
point particles attract or repel each other depending on their colours and
their distance. The simulation moves them one tick at a time and bounces them
off the walls of the window. To find each particle's neighbours without
comparing every pair, every tick refills a region quadtree and queries it once
per particle.

The model has four modules plus a small generic one:

- `Types` (`types.dfy`): positions, velocities, colours, particles and
  rectangles. The four palette colours are constants.
- `QuadTrees` (`quadtree.dfy`): the quadtree as a value. A node is a `Leaf` or
  a `Divided` node with four children. It has a boundary, a capacity and its
  own points. The module defines creation, subdivision, insertion, the range
  query and clearing. Its lemmas cover:
  - the validity invariant (every point lies inside the boundary of the node
    holding it, and the children are the four quadrants);
  - exact acceptance and rejection by insert;
  - where an accepted particle ends up;
  - what the query returns.
- `Forces` (`forces.dfy`): the colour attraction table, the colour-to-index
  map and the piecewise force law, with its sign, bounds, symmetry and
  discontinuities.
- `Simulation` (`simulation.dfy`): one tick of the main loop. `Tick` is a
  method over the particle array. It clears the tree and then, for each
  particle in order:
  1. queries the tree around the particle's projected position;
  2. sums the forces of the neighbours it gets back (`AccumulateForce`, a
     loop);
  3. damps and accelerates the velocity;
  4. reflects the velocity near the walls;
  5. moves the particle;
  6. reinserts the particle into the tree.

  `Tick` is proved against `TickParticles`, a function that says what a tick
  computes. The lemmas about `TickParticles` describe a tick's behaviour.
- `Scans` (`scan.dfy`): a sequential pass in which each output depends on its
  own input and on every output before it. `TickParticles` is such a pass.

`f64` arithmetic is modelled with exact reals. The square root is a parameter
`sqrt` that must satisfy `IsSqrt`: it maps every non-negative real to the
non-negative real whose square it is.

Three behaviours of the code are easy to misread, and the model keeps them as
written:

- **Query filter.** A range query would normally keep only the points inside
  the range. This one re-tests each point against the node's own boundary
  (src/main.rs:176). So it returns every point of every node whose boundary
  overlaps the range, including points outside the range.
  `QueryNotRangeFiltered` exhibits such a point.
- **No snapshot.** A tick does not query a snapshot of the particles. It
  clears the tree (src/main.rs:341) and re-inserts each particle only after
  moving it (src/main.rs:392). So a particle sees only the particles updated
  before it in the same tick, and the first particle sees none
  (`FirstParticleMovesFreely`).
- **Force law.** `1 - |2r - BETA| - BETA` (src/main.rs:295) looks like a tent,
  but for BETA < r < 1 it equals `1 - 2r`, so the branch is linear. It changes
  sign at r = 0.5. The law also jumps at BETA and at 1 (`ForceJumps`).

## Model

| member | source | states |
|---|---|---|
| `Forces.ColourAttractionFactorMatrix` | src/main.rs:247-272 | the table is 4×4, with 0.8 on the diagonal and -0.8 everywhere else |
| `Forces.ColorToIndex` | src/main.rs:274-284 | the index is below 4, and it is 3 exactly for a colour that is not red, green or blue |
| `Forces.PaletteIndices` | src/main.rs:274-284 | red, green, blue and yellow get indices 0, 1, 2 and 3; two palette colours share an index iff they are equal |
| `Forces.AttractionFactor` | src/main.rs:287-290 | the factor is 0.8 when both colours map to the same index and -0.8 otherwise |
| `Forces.GetForce` | src/main.rs:286-299 | below BETA the force is r/BETA - 1; strictly between BETA and 1 it is (1 - 2r) times the attraction factor; at BETA and from 1 on it is 0 |
| `Forces.CoreRepulsion` | src/main.rs:292-293 | for 0 ≤ r < BETA the force lies in [-1, 0) and does not depend on the colours |
| `Forces.ForceSign` | src/main.rs:292-298 | for r ≥ 0, the force is positive iff BETA < r < 0.5 and the colours are alike, or 0.5 < r < 1 and they differ; it is zero iff r is BETA or 0.5 or r ≥ 1 |
| `Forces.ForceBounded` | src/main.rs:286-299 | for r ≥ 0 the force lies in [-1, 1] |
| `Forces.ForceJumps` | src/main.rs:292-298 | for every pair of colours the law is zero at BETA and at 1; just above BETA it exceeds 0.3 for colours with the same index and is below -0.3 for different ones, and just below 1 it is below -0.78 for the same index and above 0.78 for different ones |
| `Forces.GetForceSymmetric` | src/main.rs:286-299 | swapping the two colours does not change the force |
| `QuadTrees.WithinIsPointOverlap` | src/main.rs:116-125 | `WithinBoundary`, the closed point test with edges included, holds exactly when the zero-size range at that point overlaps the boundary |
| `QuadTrees.DoesRangeOverlap` | src/main.rs:156-168 | two rectangles that share a point overlap; two rectangles of non-negative size that overlap share the corner of their intersection nearest the origin |
| `QuadTrees.New` | src/main.rs:53-64 | a new tree is an undivided, valid, empty node with the given boundary and capacity |
| `QuadTrees.Subdivide` | src/main.rs:66-114 | the node becomes divided with the same boundary, capacity and points; child k is a new empty leaf over quadrant k, of half the parent's width and height |
| `QuadTrees.SubdivideFullLeaf` | src/main.rs:66-114 | subdividing a valid full leaf whose boundary has non-negative size keeps the tree valid and keeps its elements |
| `QuadTrees.QuadrantsCover` | src/main.rs:66-114 | a point lies in a boundary iff it lies in one of its four quadrants |
| `QuadTrees.QuadrantsMeetOnMidlines` | src/main.rs:66-114 | a point in two different quadrants lies on a midline of the parent |
| `QuadTrees.QuadrantInside` | src/main.rs:66-114 | each quadrant of a parent of non-negative size lies inside that parent |
| `QuadTrees.OwningQuadrantIsFirst` | src/main.rs:145-148 | the owning quadrant contains the point, and no earlier quadrant in top-left, top-right, bottom-left, bottom-right order does |
| `QuadTrees.Push` | src/main.rs:137-139 | the node keeps its boundary and capacity and its points gain the particle at the end |
| `QuadTrees.Insert` | src/main.rs:127-154 | boundary and capacity are kept; what is handed back is nothing or the particle itself; inserting nothing changes nothing |
| `QuadTrees.InsertRejectsExactlyOutside` | src/main.rs:127-135 | insert hands the particle back iff it lies outside the boundary, and the tree is then unchanged |
| `QuadTrees.InsertAccepted` | src/main.rs:127-154 | a particle inside the boundary is accepted, the tree stays valid, and its elements gain exactly that particle |
| `QuadTrees.InsertKeepsValid` | src/main.rs:127-154 | insert keeps the tree valid |
| `QuadTrees.InsertPlacement` | src/main.rs:137-152 | a node with room appends the particle to its own points; a full node becomes or stays divided, keeps its points, and exactly the first quadrant containing the particle gains it while the other three children are unchanged |
| `QuadTrees.PointsWithin` | src/main.rs:175-179 | the result holds each point inside the boundary exactly as often as the node's points do, and no point outside it |
| `QuadTrees.PointsWithinAll` | src/main.rs:175-179 | when every point lies inside the boundary the filter keeps them all, in order |
| `QuadTrees.ElementsWithinBoundary` | src/main.rs:127-154 | in a valid tree every stored point lies inside the root boundary |
| `QuadTrees.Query` | src/main.rs:170-190 | the result is a sub-multiset of the tree's elements |
| `QuadTrees.MissedNodeHasNoOverlappingPoints` | src/main.rs:172-173 | a node whose boundary does not overlap the range contributes nothing |
| `QuadTrees.QueryReturnsOverlappingNodes` | src/main.rs:170-190 | on a valid tree the query returns the points of every node whose boundary overlaps the range, in pre-order |
| `QuadTrees.QueryComplete` | src/main.rs:170-190 | every stored particle that lies inside the range is returned |
| `QuadTrees.QueryNotRangeFiltered` | src/main.rs:175-179 | a valid one-point tree and an overlapping range whose query returns the point although the point lies outside the range |
| `QuadTrees.CoveringRangeSeesAll` | src/main.rs:170-190 | a range covering the node's boundary returns all elements |
| `QuadTrees.QueryWholeBoundary` | src/main.rs:170-190 | querying a valid tree with its own boundary returns exactly its elements |
| `QuadTrees.Clear` | src/main.rs:192-199 | boundary and capacity are kept; the result is a valid, undivided, empty node on which every query is empty |
| `Simulation.InitialQuadTree` | src/main.rs:310-317 | the root is valid and empty with capacity 4, and it contains exactly the positions in [5, width] × [5, height] |
| `Simulation.MoveParticle` | src/main.rs:202-205 | colour and velocity are kept and each coordinate moves by velocity times t |
| `Simulation.MoveParticleReverses` | src/main.rs:202-205 | moving by t and then by -t restores the particle |
| `Simulation.QueryWindow` | src/main.rs:343-355 | the window is 1.5 radius wide and high; its bottom-right corner in screen coordinates (y grows downwards) is the projected position, for radius ≥ 0 the window contains that position, and for any radius it contains nothing beyond it in either coordinate |
| `Simulation.Distance` | src/main.rs:363-366 | the distance is the non-negative number whose square is the sum of the squared coordinate differences; it is positive exactly when the two positions differ |
| `Simulation.DistanceSymmetric` | src/main.rs:363-366 | the distance between two particles does not depend on their order |
| `Simulation.ContributionNeedsRange` | src/main.rs:361-375 | `Contribution`, the force of one neighbour: a neighbour exerts no force unless both coordinates differ and it is closer than THRESHOLD |
| `Simulation.ContributionAlongDisplacement` | src/main.rs:361-375 | within range, `Contribution` is parallel to the displacement between the two particles, with the force law's value as its magnitude, towards the neighbour when the law is positive and away from it when negative |
| `Simulation.ContributionOpposite` | src/main.rs:362-374 | the force of q on p is the opposite of the force of p on q (action and reaction) |
| `Simulation.NetForceAppend` | src/main.rs:357-376 | the net force of two neighbour lists together is the sum of their net forces |
| `Simulation.AccumulateForce` | src/main.rs:357-376 | the loop returns the net force of the neighbour list |
| `Simulation.Integrate` | src/main.rs:378-391 | the colour is kept; each velocity component is damped by 0.9, accelerated by THRESHOLD · force · t and negated when the pre-move coordinate is in the wall zone; stepping back by t at the new velocity returns to the old position |
| `Simulation.ForceShiftsVelocity` | src/main.rs:378-389 | compared with the step under no force, the force changes each velocity component by exactly THRESHOLD · t times its component, with the sign flipped in the wall zone |
| `Simulation.LoneParticleVelocity` | src/main.rs:378-389 | without neighbours each velocity component is multiplied by 0.9, and negated exactly when the pre-move coordinate is in the wall zone |
| `Simulation.BounceOffLeftWall` | src/main.rs:384-386 | a lone particle in the left wall zone heading left ends up heading right |
| `Simulation.UpdateParticle` | src/main.rs:357-391 | the method computes the particle's step for the given neighbours |
| `Simulation.ProcessParticle` | src/main.rs:343-392 | the particle is stepped with the neighbours its query window returns, and the new tree is the old one after inserting the updated particle; a particle outside the root boundary is dropped |
| `Simulation.InsertAll` | src/main.rs:392 | inserting a sequence keeps the tree valid, with the same boundary and capacity |
| `Simulation.InsertAllElements` | src/main.rs:392 | the tree's elements gain exactly the inserted particles that lie inside the root boundary |
| `Simulation.TickParticles` | src/main.rs:341-394 | a tick gives one particle per input particle, in place, each of its input's colour; `Tick` is proved equal to it |
| `Simulation.TickParticlesPrefix` | src/main.rs:342-394 | the first i results of a tick depend only on the first i particles |
| `Simulation.TickParticlesAt` | src/main.rs:342-392 | particle i is stepped with what its window finds in the tree holding the i particles already updated in this tick |
| `Simulation.FirstParticleMovesFreely` | src/main.rs:341-392 | the first particle of a tick feels no force |
| `Simulation.TickOne` | src/main.rs:342-392 | one loop iteration replaces particle i by its tick result and inserts it, extending the tick by one particle |
| `Simulation.Tick` | src/main.rs:340-394 | the array becomes the tick of its old contents, and the tree is the cleared tree after inserting the updated particles in order; those outside the root are dropped (`InsertAllElements`) |

## Left out

- Drawing is not modelled: `draw_rect`, `draw_quadtree`, `draw_circle`, `clear_background`, `next_frame` and `window_conf` only render or configure the window.
- Random start-up is not modelled: `pick_one_color`, `gen_range` and the start-up loop at src/main.rs:319-335 draw random values. Its insertions are `InsertAll`, and the next tick clears them anyway.
- The frame time is not modelled: `get_frame_time() * speed` is the parameter `t` of the tick. The window size comes in as `width` and `height`.
- Only one tick is modelled, not the endless main loop around it.
- `f64` rounding, NaN and infinities are not modelled: all arithmetic is over exact reals.
- `Simulation.Distance`: `sqrt` is a parameter characterised by `IsSqrt`, not the floating-point square root.
- Mutation in place is not modelled: the boxed children that `insert` and `clear_quadtree` mutate become a value tree that each operation returns anew. The particle array itself is mutated in place by `Tick`.
- `QuadTrees.Insert`: requires capacity ≥ 1. With capacity 0 the code subdivides forever, and the program always uses capacity 4.
- The colour constants are written as literal RGBA values for the palette's four colours.
- `UpdateParticle`, `ProcessParticle` and `TickOne` are the body of the tick loop split into methods. `AccumulateForce` is the inner force loop.
- `move_particle` is modelled as the function `MoveParticle`, which returns the moved particle.
