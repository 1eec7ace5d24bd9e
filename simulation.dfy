/** One tick of the particle-life simulation: for each particle in turn, query
    the quadtree around its projected position, accumulate the forces of the
    particles found, integrate velocity with damping, reflect at the walls,
    move, and re-insert the moved particle into the quadtree. The square root
    the program takes of squared distances is a parameter `sqrt`, required to
    be a square root on non-negative reals. */
module Simulation {
  import opened Types
  import opened QuadTrees
  import opened Forces
  import opened Scans

  /** Interaction distance: pairs at least this far apart do not interact. */
  const THRESHOLD: real := 100.0
  /** Fraction of the velocity kept from one tick to the next. */
  const DAMPING: real := 0.90
  /** Extra margin, beyond the particle radius, of the wall zone. */
  const WALL_MARGIN: real := 5.0
  /** Side of the neighbour query window, in particle radii. */
  const WINDOW_SCALE: real := 1.5

  ghost predicate IsSqrt(sqrt: real -> real)
  {
    forall x :: 0.0 <= x ==> 0.0 <= sqrt(x) && sqrt(x) * sqrt(x) == x
  }

  lemma SqrtOfZero(sqrt: real -> real)
    requires IsSqrt(sqrt)
    ensures sqrt(0.0) == 0.0
  {
    var root := sqrt(0.0);
    assert 0.0 <= root && root * root == 0.0;
    if root != 0.0 {
      ProductPositive(root, root);
      assert false;
    }
  }

  lemma SqrtOfPositive(sqrt: real -> real, x: real)
    requires IsSqrt(sqrt) && x > 0.0
    ensures sqrt(x) > 0.0
  {
    var root := sqrt(x);
    assert 0.0 <= root && root * root == x;
    assert root != 0.0;
  }

  /** Product of two reals, kept as a function so that sign facts about
      products can be stated once and reused. */
  function Product(a: real, b: real): real
  {
    a * b
  }

  lemma ProductPositive(a: real, b: real)
    requires (a > 0.0 && b > 0.0) || (a < 0.0 && b < 0.0)
    ensures Product(a, b) > 0.0
  {
  }

  /** `x` squared (the program's `powi(2)`), kept behind `Product` so that the
      solver sees only the sign facts the lemmas below give it. */
  function Square(x: real): real
  {
    Product(x, x)
  }

  /** A square is never negative, and positive unless `x` is 0. */
  lemma SquareSign(x: real)
    ensures Square(x) >= 0.0
    ensures x != 0.0 ==> Square(x) > 0.0
  {
    if x != 0.0 {
      ProductPositive(x, x);
    }
  }

  /** The quadtree the program starts from: its root spans x from 5 to the
      arena width and y from 5 to the arena height, with capacity 4. */
  function InitialQuadTree(width: real, height: real): (t: QuadTree)
    ensures Valid(t) && Elements(t) == [] && t.capacity == 4
    ensures forall pos :: WithinBoundary(t.boundary, pos) <==>
      5.0 <= pos.x <= width && 5.0 <= pos.y <= height
  {
    New(Rectangle(height - 5.0, width - 5.0, Position(5.0, 5.0)), 4)
  }

  /** Advances the position by one tick of the current velocity. */
  function MoveParticle(particle: Particle, t: real): (moved: Particle)
    ensures moved.color == particle.color && moved.velocity == particle.velocity
    ensures moved.position.x - particle.position.x == particle.velocity.x * t
    ensures moved.position.y - particle.position.y == particle.velocity.y * t
  {
    particle.(position := Position(particle.position.x + particle.velocity.x * t,
                                   particle.position.y + particle.velocity.y * t))
  }

  /** The neighbour query window: a square of side 1.5 radii whose
      bottom-right corner (not its centre) is the particle's projected
      position, where `MoveParticle` would put it after `t`. */
  function QueryWindow(particle: Particle, t: real, radius: real): (w: Rectangle)
    ensures w.width == WINDOW_SCALE * radius && w.height == WINDOW_SCALE * radius
    ensures radius >= 0.0 ==> WithinBoundary(w, MoveParticle(particle, t).position)
    ensures forall pos :: WithinBoundary(w, pos) ==>
      pos.x <= MoveParticle(particle, t).position.x && pos.y <= MoveParticle(particle, t).position.y
  {
    var next := MoveParticle(particle, t).position;
    Rectangle(WINDOW_SCALE * radius, WINDOW_SCALE * radius,
              Position(next.x - WINDOW_SCALE * radius, next.y - WINDOW_SCALE * radius))
  }

  /** The distance between two particles: the non-negative root of the sum of
      the squared coordinate differences, positive exactly when the particles
      are at different positions. */
  function Distance(particle: Particle, other: Particle, sqrt: real -> real): (d: real)
    requires IsSqrt(sqrt)
    ensures d >= 0.0
    ensures d * d == Square(other.position.x - particle.position.x) + Square(other.position.y - particle.position.y)
    ensures d > 0.0 <==> other.position != particle.position
  {
    var dx := other.position.x - particle.position.x;
    var dy := other.position.y - particle.position.y;
    var distanceSquared := Square(dx) + Square(dy);
    SquareSign(dx);
    SquareSign(dy);
    if other.position != particle.position then
      assert dx != 0.0 || dy != 0.0;
      SqrtOfPositive(sqrt, distanceSquared);
      sqrt(distanceSquared)
    else
      assert distanceSquared == 0.0;
      SqrtOfZero(sqrt);
      sqrt(distanceSquared)
  }

  /** A force of magnitude `force` along the direction (dx, dy) / distance. */
  function Along(force: real, dx: real, dy: real, distance: real): (real, real)
    requires distance != 0.0
  {
    (force * (dx / distance), force * (dy / distance))
  }

  /** Reversing the direction reverses the force. */
  lemma AlongReversed(force: real, dx: real, dy: real, distance: real)
    requires distance != 0.0
    ensures Along(force, -dx, -dy, distance).0 == -Along(force, dx, dy, distance).0
    ensures Along(force, -dx, -dy, distance).1 == -Along(force, dx, dy, distance).1
  {
    NegatedQuotient(dx, distance);
    NegatedQuotient(dy, distance);
    NegatedProduct(force, dx / distance);
    NegatedProduct(force, dy / distance);
  }

  lemma NegatedQuotient(a: real, d: real)
    requires d != 0.0
    ensures (-a) / d == -(a / d)
  {
  }

  lemma NegatedProduct(f: real, x: real)
    ensures f * (-x) == -(f * x)
  {
  }

  /** The force `other` exerts on `particle`: nothing unless the two differ in
      BOTH coordinates and are closer than THRESHOLD; otherwise the force law
      at distance / THRESHOLD along the unit vector from `particle` to `other`. */
  function Contribution(particle: Particle, other: Particle, sqrt: real -> real): (real, real)
    requires IsSqrt(sqrt)
  {
    if other.position.x != particle.position.x && other.position.y != particle.position.y then
      var dx := other.position.x - particle.position.x;
      var dy := other.position.y - particle.position.y;
      var distance := Distance(particle, other, sqrt);
      if distance < THRESHOLD then
        var force := GetForce(distance / THRESHOLD, particle.color, other.color);
        Along(force, dx, dy, distance)
      else (0.0, 0.0)
    else (0.0, 0.0)
  }

  /** The summed force of `near` on `particle`. */
  function NetForce(particle: Particle, near: seq<Particle>, sqrt: real -> real): (real, real)
    requires IsSqrt(sqrt)
  {
    if near == [] then (0.0, 0.0)
    else
      var sum := NetForce(particle, near[..|near| - 1], sqrt);
      var c := Contribution(particle, near[|near| - 1], sqrt);
      (sum.0 + c.0, sum.1 + c.1)
  }

  /** Accumulates the forces of the queried neighbours, one by one. */
  method AccumulateForce(particle: Particle, nearParticles: seq<Particle>, sqrt: real -> real)
      returns (finalForceX: real, finalForceY: real)
    requires IsSqrt(sqrt)
    ensures (finalForceX, finalForceY) == NetForce(particle, nearParticles, sqrt)
  {
    finalForceX, finalForceY := 0.0, 0.0;
    var i := 0;
    while i < |nearParticles|
      invariant 0 <= i <= |nearParticles|
      invariant (finalForceX, finalForceY) == NetForce(particle, nearParticles[..i], sqrt)
    {
      var force := Contribution(particle, nearParticles[i], sqrt);
      finalForceX := finalForceX + force.0;
      finalForceY := finalForceY + force.1;
      assert nearParticles[..i + 1][..i] == nearParticles[..i];
      i := i + 1;
    }
    assert nearParticles[..i] == nearParticles;
  }

  /** Whether a coordinate lies in the wall zone of an axis of length `size`. */
  predicate NearWall(coordinate: real, size: real, radius: real)
  {
    coordinate < radius + WALL_MARGIN || coordinate > size - radius - WALL_MARGIN
  }

  /** One velocity component after damping and acceleration by `force`
      (scaled by THRESHOLD) over `t`. */
  function Accelerate(velocity: real, force: real, t: real): real
  {
    DAMPING * velocity + force * THRESHOLD * t
  }

  /** A velocity component, negated when the coordinate is in the wall zone. */
  function Reflect(velocity: real, coordinate: real, size: real, radius: real): real
  {
    if NearWall(coordinate, size, radius) then -velocity else velocity
  }

  /** The velocity and position update of one particle under `force`: damp
      the velocity and add the acceleration (force times THRESHOLD) over `t`,
      reflect each axis whose pre-move coordinate is in the wall zone, and
      move at the new velocity, so that stepping back by `t` at that velocity
      returns to the old position. */
  function Integrate(particle: Particle, force: (real, real), t: real,
                     width: real, height: real, radius: real): (r: Particle)
    ensures r.color == particle.color
    ensures r.velocity.x == (if NearWall(particle.position.x, width, radius) then -1.0 else 1.0)
                            * (DAMPING * particle.velocity.x + force.0 * THRESHOLD * t)
    ensures r.velocity.y == (if NearWall(particle.position.y, height, radius) then -1.0 else 1.0)
                            * (DAMPING * particle.velocity.y + force.1 * THRESHOLD * t)
    ensures MoveParticle(r, -t).position == particle.position
  {
    var vx := Reflect(Accelerate(particle.velocity.x, force.0, t), particle.position.x, width, radius);
    var vy := Reflect(Accelerate(particle.velocity.y, force.1, t), particle.position.y, height, radius);
    MoveParticle(particle.(velocity := Velocity(vx, vy)), t)
  }

  /** The update of one particle given the neighbours its query returned. */
  function StepParticle(particle: Particle, near: seq<Particle>, t: real,
                        width: real, height: real, radius: real, sqrt: real -> real): Particle
    requires IsSqrt(sqrt)
  {
    Integrate(particle, NetForce(particle, near, sqrt), t, width, height, radius)
  }

  /** Inserts `particles` into `t` one after the other, discarding what each
      insert hands back. */
  function InsertAll(t: QuadTree, particles: seq<Particle>): (r: QuadTree)
    requires Valid(t) && t.capacity >= 1
    ensures Valid(r) && r.boundary == t.boundary && r.capacity == t.capacity
  {
    if particles == [] then t
    else
      var before := InsertAll(t, particles[..|particles| - 1]);
      InsertKeepsValid(before, Some(particles[|particles| - 1]));
      Insert(before, Some(particles[|particles| - 1])).0
  }

  /** The particles after one tick, in order, starting from `tree` (already
      cleared). Each particle queries the tree holding the particles ALREADY
      UPDATED in this tick, not a snapshot of the tick's start. Every
      particle comes out once, in its place, with its colour. */
  function TickParticles(tree: QuadTree, particles: seq<Particle>, t: real,
                         width: real, height: real, radius: real, sqrt: real -> real): (r: seq<Particle>)
    requires tree == Clear(tree) && tree.capacity >= 1 && IsSqrt(sqrt)
    ensures |r| == |particles|
    ensures forall i :: 0 <= i < |r| ==> r[i].color == particles[i].color
  {
    ScanKeeps(particles, Advancer(tree, t, width, height, radius, sqrt),
              (before: Particle, after: Particle) => after.color == before.color);
    Scan(particles, Advancer(tree, t, width, height, radius, sqrt))
  }

  /** The update of `particle` in a tick once the particles `done` have been
      updated and inserted into the cleared `tree`. */
  function Advance(tree: QuadTree, done: seq<Particle>, particle: Particle, t: real,
                   width: real, height: real, radius: real, sqrt: real -> real): Particle
    requires tree == Clear(tree) && tree.capacity >= 1 && IsSqrt(sqrt)
  {
    StepParticle(particle, Query(InsertAll(tree, done), QueryWindow(particle, t, radius)),
                 t, width, height, radius, sqrt)
  }

  /** Advance as the step of a sequential pass. */
  function Advancer(tree: QuadTree, t: real, width: real, height: real, radius: real,
                    sqrt: real -> real): (seq<Particle>, Particle) -> Particle
    requires tree == Clear(tree) && tree.capacity >= 1 && IsSqrt(sqrt)
  {
    (done, particle) => Advance(tree, done, particle, t, width, height, radius, sqrt)
  }

  /** TickParticles on one more input, in terms of the shorter prefix. */
  lemma TickParticlesExtend(tree: QuadTree, particles: seq<Particle>, i: nat, t: real,
                            width: real, height: real, radius: real, sqrt: real -> real)
    requires tree == Clear(tree) && tree.capacity >= 1 && IsSqrt(sqrt) && i < |particles|
    ensures var done := TickParticles(tree, particles[..i], t, width, height, radius, sqrt);
            TickParticles(tree, particles[..i + 1], t, width, height, radius, sqrt) ==
              done + [Advance(tree, done, particles[i], t, width, height, radius, sqrt)]
  {
    ScanExtend(particles, Advancer(tree, t, width, height, radius, sqrt), i);
  }

  /** InsertAll on one more particle is one more Insert. */
  lemma InsertAllLast(t: QuadTree, particles: seq<Particle>, p: Particle)
    requires Valid(t) && t.capacity >= 1
    ensures InsertAll(t, particles + [p]) == Insert(InsertAll(t, particles), Some(p)).0
  {
    assert (particles + [p])[..|particles + [p]| - 1] == particles;
  }

  /** Replacing the first unprocessed element moves it into the processed
      prefix. */
  lemma SpliceStep(done: seq<Particle>, rest: seq<Particle>, i: nat, p: Particle)
    requires |done| == i < |rest|
    ensures (done + rest[i..])[i := p] == (done + [p]) + rest[i + 1..]
  {
  }

  /** One iteration of the tick loop, on sequences: if the processed prefix
      is `done` and `tree` holds it, then updating particle `i` from its query
      of `tree` and inserting it extends both by one. */
  lemma TickStep(cleared: QuadTree, initial: seq<Particle>, i: nat, done: seq<Particle>, tree: QuadTree,
                 particle: Particle, t: real, width: real, height: real, radius: real, sqrt: real -> real)
    requires cleared == Clear(cleared) && cleared.capacity >= 1 && IsSqrt(sqrt) && i < |initial|
    requires done == TickParticles(cleared, initial[..i], t, width, height, radius, sqrt)
    requires tree == InsertAll(cleared, done)
    requires particle == StepParticle(initial[i], Query(tree, QueryWindow(initial[i], t, radius)),
                                      t, width, height, radius, sqrt)
    ensures TickParticles(cleared, initial[..i + 1], t, width, height, radius, sqrt) == done + [particle]
    ensures (done + initial[i..])[i := particle] == (done + [particle]) + initial[i + 1..]
    ensures InsertAll(cleared, done + [particle]) == Insert(tree, Some(particle)).0
  {
    TickParticlesExtend(cleared, initial, i, t, width, height, radius, sqrt);
    SpliceStep(done, initial, i, particle);
    InsertAllLast(cleared, done, particle);
  }

  /** The update of one particle from the neighbours its query found:
      accumulate their forces, scale the force into an acceleration, damp and
      accelerate the velocity, reflect it on each axis whose pre-move
      coordinate is in the wall zone, and move. */
  method UpdateParticle(particle: Particle, nearParticles: seq<Particle>, t: real,
                        width: real, height: real, radius: real, sqrt: real -> real)
      returns (updated: Particle)
    requires IsSqrt(sqrt)
    ensures updated == StepParticle(particle, nearParticles, t, width, height, radius, sqrt)
  {
    var finalForceX, finalForceY := AccumulateForce(particle, nearParticles, sqrt);
    var vx := Accelerate(particle.velocity.x, finalForceX, t);
    var vy := Accelerate(particle.velocity.y, finalForceY, t);
    if NearWall(particle.position.x, width, radius) {
      vx := -vx;
    }
    if NearWall(particle.position.y, height, radius) {
      vy := -vy;
    }
    updated := MoveParticle(particle.(velocity := Velocity(vx, vy)), t);
  }

  /** The body of the tick loop for one particle: query the window ahead of
      it, update it from what the query found, and insert the updated particle
      into the tree, discarding what the insert hands back. */
  method ProcessParticle(particle: Particle, tree: QuadTree, t: real,
                         width: real, height: real, radius: real, sqrt: real -> real)
      returns (updated: Particle, newTree: QuadTree)
    requires Valid(tree) && tree.capacity >= 1 && IsSqrt(sqrt)
    ensures updated == StepParticle(particle, Query(tree, QueryWindow(particle, t, radius)),
                                    t, width, height, radius, sqrt)
    ensures newTree == Insert(tree, Some(updated)).0
  {
    var nearParticles := Query(tree, QueryWindow(particle, t, radius));
    updated := UpdateParticle(particle, nearParticles, t, width, height, radius, sqrt);
    newTree := Insert(tree, Some(updated)).0;
  }

  /** One iteration of the tick loop: particle `i` is processed against the
      tree holding the particles already updated in this tick and written back
      in place, so the updated prefix and the tree grow by one particle. */
  method TickOne(particles: array<Particle>, i: nat, tree: QuadTree, ghost cleared: QuadTree,
                 ghost initial: seq<Particle>, ghost done: seq<Particle>, t: real,
                 width: real, height: real, radius: real, sqrt: real -> real)
      returns (newTree: QuadTree, ghost newDone: seq<Particle>)
    requires cleared == Clear(cleared) && cleared.capacity >= 1 && IsSqrt(sqrt)
    requires i < particles.Length == |initial|
    requires done == TickParticles(cleared, initial[..i], t, width, height, radius, sqrt)
    requires particles[..] == done + initial[i..]
    requires tree == InsertAll(cleared, done)
    modifies particles
    ensures newDone == TickParticles(cleared, initial[..i + 1], t, width, height, radius, sqrt)
    ensures particles[..] == newDone + initial[i + 1..]
    ensures newTree == InsertAll(cleared, newDone)
  {
    var particle := particles[i];
    assert particle == initial[i] by {
      assert particles[..][i] == (done + initial[i..])[i];
    }
    particle, newTree := ProcessParticle(particle, tree, t, width, height, radius, sqrt);
    ghost var current := particles[..];
    particles[i] := particle;
    assert particles[..] == current[i := particle];
    TickStep(cleared, initial, i, done, tree, particle, t, width, height, radius, sqrt);
    newDone := done + [particle];
  }

  /** One tick. The quadtree is cleared first; then each particle in turn
      queries the window ahead of it, is updated from what it finds, and is
      inserted into the tree (a particle whose new position lies outside the
      root boundary is silently left out). */
  method Tick(particles: array<Particle>, quadtree: QuadTree, t: real,
              width: real, height: real, radius: real, sqrt: real -> real)
      returns (tree: QuadTree)
    requires quadtree.capacity >= 1 && IsSqrt(sqrt)
    modifies particles
    ensures particles[..] == TickParticles(Clear(quadtree), old(particles[..]), t, width, height, radius, sqrt)
    ensures tree == InsertAll(Clear(quadtree), particles[..])
  {
    ghost var initial := particles[..];
    ghost var cleared := Clear(quadtree);
    ghost var done: seq<Particle> := [];
    tree := Clear(quadtree);
    var i := 0;
    while i < particles.Length
      invariant 0 <= i <= particles.Length == |initial|
      invariant done == TickParticles(cleared, initial[..i], t, width, height, radius, sqrt)
      invariant particles[..] == done + initial[i..]
      invariant tree == InsertAll(cleared, done)
    {
      ghost var next := i + 1;
      tree, done := TickOne(particles, i, tree, cleared, initial, done, t, width, height, radius, sqrt);
      // the invariants, at the next index
      assert done == TickParticles(cleared, initial[..next], t, width, height, radius, sqrt);
      assert tree == InsertAll(cleared, done);
      assert particles[..] == done + initial[next..];
      i := i + 1;
    }
    assert initial[..i] == initial;
  }

  /** Moving for `t` and then for `-t` at the same velocity restores the
      particle. */
  lemma MoveParticleReverses(particle: Particle, t: real)
    ensures MoveParticle(MoveParticle(particle, t), -t) == particle
  {
    var moved := MoveParticle(particle, t);
    var back := MoveParticle(moved, -t);
    assert back.position.x == particle.position.x;
    assert back.position.y == particle.position.y;
  }

  /** Filtering a sequence extended by one particle extends the filtered
      sequence by that particle exactly when it lies inside the boundary. */
  lemma PointsWithinSnoc(boundary: Rectangle, points: seq<Particle>, p: Particle)
    ensures PointsWithin(boundary, points + [p]) ==
      PointsWithin(boundary, points) + if WithinBoundary(boundary, p.position) then [p] else []
  {
    assert (points + [p])[..|points|] == points;
  }

  /** One insert adds the particle exactly when it lies inside the root. */
  lemma InsertOneElements(t: QuadTree, p: Particle)
    requires Valid(t) && t.capacity >= 1
    ensures multiset(Elements(Insert(t, Some(p)).0)) ==
      multiset(Elements(t)) + multiset(if WithinBoundary(t.boundary, p.position) then [p] else [])
  {
    if WithinBoundary(t.boundary, p.position) {
      InsertAccepted(t, p);
    } else {
      InsertRejectsExactlyOutside(t, p);
    }
  }

  lemma InsertAllSnoc(t: QuadTree, init: seq<Particle>, p: Particle)
    requires Valid(t) && t.capacity >= 1
    ensures multiset(Elements(InsertAll(t, init + [p]))) ==
      multiset(Elements(InsertAll(t, init))) + multiset(if WithinBoundary(t.boundary, p.position) then [p] else [])
  {
    assert (init + [p])[..|init + [p]| - 1] == init;
    InsertOneElements(InsertAll(t, init), p);
  }

  /** Inserting a sequence of particles adds exactly those that lie inside
      the root boundary; the others are dropped without trace. */
  lemma {:induction false} InsertAllElements(t: QuadTree, particles: seq<Particle>)
    requires Valid(t) && t.capacity >= 1
    ensures multiset(Elements(InsertAll(t, particles))) ==
      multiset(Elements(t)) + multiset(PointsWithin(t.boundary, particles))
  {
    if particles != [] {
      var init := particles[..|particles| - 1];
      var p := particles[|particles| - 1];
      assert particles == init + [p];
      InsertAllElements(t, init);
      InsertAllSnoc(t, init, p);
      PointsWithinSnoc(t.boundary, init, p);
    }
  }

  /** The first `i` particles of a tick depend only on the first `i` inputs:
      a particle's update never sees the particles after it. */
  lemma TickParticlesPrefix(tree: QuadTree, particles: seq<Particle>, i: nat, t: real,
                            width: real, height: real, radius: real, sqrt: real -> real)
    requires tree == Clear(tree) && tree.capacity >= 1 && IsSqrt(sqrt) && i <= |particles|
    ensures TickParticles(tree, particles, t, width, height, radius, sqrt)[..i] ==
      TickParticles(tree, particles[..i], t, width, height, radius, sqrt)
  {
    ScanPrefix(particles, Advancer(tree, t, width, height, radius, sqrt), i);
  }

  /** Particle `i` after the tick is the update of particle `i` from what its
      window finds in the tree holding the particles BEFORE it, already
      moved in this tick. */
  lemma TickParticlesAt(tree: QuadTree, particles: seq<Particle>, i: nat, t: real,
                        width: real, height: real, radius: real, sqrt: real -> real)
    requires tree == Clear(tree) && tree.capacity >= 1 && IsSqrt(sqrt) && i < |particles|
    ensures var r := TickParticles(tree, particles, t, width, height, radius, sqrt);
      r[i] == StepParticle(particles[i], Query(InsertAll(tree, r[..i]), QueryWindow(particles[i], t, radius)),
                           t, width, height, radius, sqrt)
  {
    var r := TickParticles(tree, particles, t, width, height, radius, sqrt);
    var step := Advancer(tree, t, width, height, radius, sqrt);
    ScanAt(particles, step, i);
    assert r[i] == step(r[..i], particles[i]);
    assert step(r[..i], particles[i]) == Advance(tree, r[..i], particles[i], t, width, height, radius, sqrt);
  }

  /** The first particle of a tick queries the empty tree: it feels no force
      at all and is only damped, reflected and moved. */
  lemma FirstParticleMovesFreely(tree: QuadTree, particles: seq<Particle>, t: real,
                                 width: real, height: real, radius: real, sqrt: real -> real)
    requires tree == Clear(tree) && tree.capacity >= 1 && IsSqrt(sqrt)
    requires particles != []
    ensures TickParticles(tree, particles, t, width, height, radius, sqrt)[0] ==
      Integrate(particles[0], (0.0, 0.0), t, width, height, radius)
  {
    TickParticlesAt(tree, particles, 0, t, width, height, radius, sqrt);
    var r := TickParticles(tree, particles, t, width, height, radius, sqrt);
    assert r[..0] == [];
    var near := Query(InsertAll(tree, r[..0]), QueryWindow(particles[0], t, radius));
    assert Elements(tree) == Elements(Clear(tree)) == [];
    assert multiset(near) <= multiset(Elements(tree));
    assert near == [];
  }

  /** The net force of two batches of neighbours is the sum of their net
      forces. */
  lemma {:induction false} NetForceAppend(particle: Particle, a: seq<Particle>, b: seq<Particle>, sqrt: real -> real)
    requires IsSqrt(sqrt)
    ensures NetForce(particle, a + b, sqrt).0 == NetForce(particle, a, sqrt).0 + NetForce(particle, b, sqrt).0
    ensures NetForce(particle, a + b, sqrt).1 == NetForce(particle, a, sqrt).1 + NetForce(particle, b, sqrt).1
    decreases |b|
  {
    if b == [] {
      assert a + b == a;
    } else {
      var init := b[..|b| - 1];
      assert (a + b)[..|a + b| - 1] == a + init;
      assert (a + b)[|a + b| - 1] == b[|b| - 1];
      NetForceAppend(particle, a, init, sqrt);
    }
  }

  /** Forces are pairwise equal and opposite: the colour table is symmetric,
      the distance is the same both ways and the direction is reversed. */
  lemma ContributionOpposite(p: Particle, q: Particle, sqrt: real -> real)
    requires IsSqrt(sqrt)
    ensures Contribution(q, p, sqrt).0 == -Contribution(p, q, sqrt).0
    ensures Contribution(q, p, sqrt).1 == -Contribution(p, q, sqrt).1
  {
    if q.position.x != p.position.x && q.position.y != p.position.y {
      var dx := q.position.x - p.position.x;
      var dy := q.position.y - p.position.y;
      var d := Distance(p, q, sqrt);
      DistanceSymmetric(p, q, sqrt);
      GetForceSymmetric(d / THRESHOLD, p.color, q.color);
      assert p.position.x - q.position.x == -dx && p.position.y - q.position.y == -dy;
      AlongReversed(GetForce(d / THRESHOLD, p.color, q.color), dx, dy, d);
    }
  }

  /** A neighbour exerts no force unless both coordinates differ and it is
      closer than THRESHOLD. */
  lemma ContributionNeedsRange(p: Particle, q: Particle, sqrt: real -> real)
    requires IsSqrt(sqrt)
    ensures Contribution(p, q, sqrt) != (0.0, 0.0) ==>
      q.position.x != p.position.x && q.position.y != p.position.y && Distance(p, q, sqrt) < THRESHOLD
  {
  }

  /** A force `c` of magnitude |f| parallel to the displacement (dx, dy):
      with the displacement when f is positive, against it when negative. */
  predicate DirectedForce(c: (real, real), f: real, dx: real, dy: real)
  {
    Square(c.0) + Square(c.1) == Square(f)
    && c.0 * dy == c.1 * dx
    && (f > 0.0 ==> (c.0 > 0.0 <==> dx > 0.0) && (c.1 > 0.0 <==> dy > 0.0))
    && (f < 0.0 ==> (c.0 > 0.0 <==> dx < 0.0) && (c.1 > 0.0 <==> dy < 0.0))
  }

  /** Within range, a neighbour's force acts along the line between the two
      particles, with the force law's value as its magnitude: towards the
      neighbour when the law is positive (attraction), away from it when the
      law is negative (repulsion). */
  lemma ContributionAlongDisplacement(p: Particle, q: Particle, sqrt: real -> real)
    requires IsSqrt(sqrt)
    ensures q.position.x != p.position.x && q.position.y != p.position.y && Distance(p, q, sqrt) < THRESHOLD ==>
      DirectedForce(Contribution(p, q, sqrt), GetForce(Distance(p, q, sqrt) / THRESHOLD, p.color, q.color),
                    q.position.x - p.position.x, q.position.y - p.position.y)
  {
    var dx := q.position.x - p.position.x;
    var dy := q.position.y - p.position.y;
    var d := Distance(p, q, sqrt);
    if dx != 0.0 && dy != 0.0 && d < THRESHOLD {
      var f := GetForce(d / THRESHOLD, p.color, q.color);
      ContributionIsAlong(p, q, sqrt);
      AlongDirected(f, dx, dy, d);
    }
  }

  /** Within range, the contribution is the force law along the displacement,
      whose length `d` is positive and squares to the squared distance. */
  lemma ContributionIsAlong(p: Particle, q: Particle, sqrt: real -> real)
    requires IsSqrt(sqrt)
    requires q.position.x != p.position.x && q.position.y != p.position.y && Distance(p, q, sqrt) < THRESHOLD
    ensures var dx, dy, d := q.position.x - p.position.x, q.position.y - p.position.y, Distance(p, q, sqrt);
      d > 0.0 && d * d == Square(dx) + Square(dy)
      && Contribution(p, q, sqrt) == Along(GetForce(d / THRESHOLD, p.color, q.color), dx, dy, d)
  {
    var dx := q.position.x - p.position.x;
    var dy := q.position.y - p.position.y;
    SquareSign(dx);
    SquareSign(dy);
    var squared := Square(dx) + Square(dy);
    assert Distance(p, q, sqrt) == sqrt(squared);
    assert 0.0 <= squared;
  }

  /** A force of magnitude `force` along the displacement (dx, dy) of length
      `d` has magnitude |force| and points with the displacement when the
      force is positive, against it when negative. */
  lemma AlongUnit(force: real, dx: real, dy: real, d: real)
    requires d > 0.0 && d * d == Square(dx) + Square(dy)
    ensures Square(Along(force, dx, dy, d).0) + Square(Along(force, dx, dy, d).1) == Square(force)
    ensures force > 0.0 ==> (Along(force, dx, dy, d).0 > 0.0 <==> dx > 0.0) && (Along(force, dx, dy, d).1 > 0.0 <==> dy > 0.0)
    ensures force < 0.0 ==> (Along(force, dx, dy, d).0 > 0.0 <==> dx < 0.0) && (Along(force, dx, dy, d).1 > 0.0 <==> dy < 0.0)
  {
    UnitDirection(dx, dy, d);
    SquareOfProduct(force, dx / d);
    SquareOfProduct(force, dy / d);
    assert Square(force * (dx / d)) + Square(force * (dy / d)) == Square(force) * (Square(dx / d) + Square(dy / d));
    ScaledSign(force, dx, d);
    ScaledSign(force, dy, d);
  }

  /** A force along (dx, dy) is a directed force of its own magnitude. */
  lemma AlongDirected(force: real, dx: real, dy: real, d: real)
    requires d > 0.0 && d * d == Square(dx) + Square(dy)
    ensures DirectedForce(Along(force, dx, dy, d), force, dx, dy)
  {
    AlongUnit(force, dx, dy, d);
    AlongParallel(force, dx, dy, d);
  }

  /** A force along (dx, dy) is parallel to (dx, dy). */
  lemma AlongParallel(force: real, dx: real, dy: real, d: real)
    requires d > 0.0
    ensures Along(force, dx, dy, d).0 * dy == Along(force, dx, dy, d).1 * dx
  {
    assert (dx / d) * d == dx && (dy / d) * d == dy;
    CrossProduct(force, dx / d, dy / d, d, dx, dy);
  }

  /** Scaling both components of a direction by the same factor keeps the
      vector parallel to the displacement (dx, dy) = (u·d, v·d). */
  lemma CrossProduct(f: real, u: real, v: real, d: real, dx: real, dy: real)
    requires u * d == dx && v * d == dy
    ensures (f * u) * dy == (f * v) * dx
  {
    assert (f * u) * (v * d) == (f * v) * (u * d);
  }

  /** Dividing a displacement by its length gives a unit vector. */
  lemma UnitDirection(dx: real, dy: real, d: real)
    requires d > 0.0 && d * d == Square(dx) + Square(dy)
    ensures Square(dx / d) + Square(dy / d) == 1.0
  {
    var u, v := dx / d, dy / d;
    assert u * d == dx && v * d == dy;
    SquareOfProduct(u, d);
    SquareOfProduct(v, d);
    var su, sv, sd := Square(u), Square(v), Square(d);
    assert Square(u * d) == Square(dx) && Square(v * d) == Square(dy);
    var a, b := su * sd, sv * sd;
    assert a == Square(dx) && b == Square(dy) && sd == d * d;
    assert a + b == sd;
    SquareSign(d);
    CancelSum(su, sv, sd, a, b);
  }

  /** Cancels a positive factor `s` from `x * s + y * s == s`, given the two
      products as `a` and `b`. */
  lemma CancelSum(x: real, y: real, s: real, a: real, b: real)
    requires s > 0.0 && a == x * s && b == y * s && a + b == s
    ensures x + y == 1.0
  {
    assert (x + y - 1.0) * s == 0.0;
  }

  lemma SquareOfProduct(a: real, b: real)
    ensures Square(a * b) == Square(a) * Square(b)
  {
  }

  /** The sign of a force times a direction component `x / d`, for d > 0. */
  lemma ScaledSign(f: real, x: real, d: real)
    requires d > 0.0
    ensures f > 0.0 ==> (f * (x / d) > 0.0 <==> x > 0.0)
    ensures f < 0.0 ==> (f * (x / d) > 0.0 <==> x < 0.0)
  {
    assert x / d > 0.0 <==> x > 0.0;
    assert x / d < 0.0 <==> x < 0.0;
    if f > 0.0 && x / d > 0.0 {
      ProductPositive(f, x / d);
    }
    if f < 0.0 && x / d < 0.0 {
      ProductPositive(f, x / d);
    }
  }

  /** The force changes each velocity component by exactly THRESHOLD · t
      times the force's component, compared with the step under no force,
      and with the sign flipped in the wall zone. */
  lemma ForceShiftsVelocity(particle: Particle, force: (real, real), t: real,
                            width: real, height: real, radius: real)
    ensures var pushed := Integrate(particle, force, t, width, height, radius).velocity;
      var free := Integrate(particle, (0.0, 0.0), t, width, height, radius).velocity;
      pushed.x - free.x == (if NearWall(particle.position.x, width, radius) then -1.0 else 1.0) * (force.0 * THRESHOLD * t)
      && pushed.y - free.y == (if NearWall(particle.position.y, height, radius) then -1.0 else 1.0) * (force.1 * THRESHOLD * t)
  {
  }

  /** The distance is the same both ways. */
  lemma DistanceSymmetric(p: Particle, q: Particle, sqrt: real -> real)
    requires IsSqrt(sqrt)
    ensures Distance(p, q, sqrt) == Distance(q, p, sqrt)
  {
    SquareOfNegation(q.position.x - p.position.x);
    SquareOfNegation(q.position.y - p.position.y);
    assert p.position.x - q.position.x == -(q.position.x - p.position.x);
    assert p.position.y - q.position.y == -(q.position.y - p.position.y);
  }

  lemma SquareOfNegation(x: real)
    ensures Square(-x) == Square(x)
  {
  }

  /** Without neighbours, a velocity component is damped and, exactly when the
      pre-move coordinate is in the wall zone, reversed, whichever way the
      particle was heading: a particle in the zone moving away from the wall
      is turned back towards it. */
  lemma LoneParticleVelocity(particle: Particle, t: real, width: real, height: real,
                             radius: real, sqrt: real -> real)
    requires IsSqrt(sqrt)
    ensures var v := StepParticle(particle, [], t, width, height, radius, sqrt).velocity;
      v.x == (if NearWall(particle.position.x, width, radius) then -DAMPING else DAMPING) * particle.velocity.x &&
      v.y == (if NearWall(particle.position.y, height, radius) then -DAMPING else DAMPING) * particle.velocity.y
  {
    assert NetForce(particle, [], sqrt) == (0.0, 0.0);
  }

  /** A lone particle close to the left wall and heading into it bounces:
      its new horizontal velocity points away from the wall. */
  lemma BounceOffLeftWall(particle: Particle, t: real, width: real, height: real,
                          radius: real, sqrt: real -> real)
    requires IsSqrt(sqrt)
    requires particle.position.x < radius + WALL_MARGIN && particle.velocity.x < 0.0
    ensures StepParticle(particle, [], t, width, height, radius, sqrt).velocity.x > 0.0
  {
    LoneParticleVelocity(particle, t, width, height, radius, sqrt);
  }
}
