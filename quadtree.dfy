/** The region quadtree of the simulation. A node is a `Leaf` (not divided, no
    children) or `Divided` (its four quadrant children present): the two
    variants stand for the `is_divided` flag together with the four optional
    boxed children, which are always all absent or all present. Children are
    uniquely owned, so the tree is modelled as a value and every mutating
    operation returns the updated node. */
module QuadTrees {
  import opened Types

  datatype QuadTree =
    | Leaf(boundary: Rectangle, capacity: nat, points: seq<Particle>)
    | Divided(boundary: Rectangle, capacity: nat, points: seq<Particle>,
              topLeft: QuadTree, topRight: QuadTree, bottomLeft: QuadTree, bottomRight: QuadTree)

  /** Quadrant numbers, in the order insert tries the children. */
  const TOP_LEFT: nat := 0
  const TOP_RIGHT: nat := 1
  const BOTTOM_LEFT: nat := 2
  const BOTTOM_RIGHT: nat := 3

  /** Closed-rectangle point test: edges count as inside. */
  predicate WithinBoundary(boundary: Rectangle, point: Position)
  {
    point.x >= boundary.position.x && point.x <= boundary.position.x + boundary.width
    && point.y >= boundary.position.y && point.y <= boundary.position.y + boundary.height
  }

  /** Inclusive rectangle-overlap test: touching rectangles overlap. Two
      rectangles that share a point overlap, and two rectangles of
      non-negative size that overlap share the corner `OverlapCorner`. */
  predicate DoesRangeOverlap(boundary: Rectangle, range: Rectangle)
    ensures (exists p :: WithinBoundary(boundary, p) && WithinBoundary(range, p)) ==>
      DoesRangeOverlap(boundary, range)
    ensures boundary.width >= 0.0 && boundary.height >= 0.0 && range.width >= 0.0 && range.height >= 0.0 ==>
      (DoesRangeOverlap(boundary, range) ==>
         WithinBoundary(boundary, OverlapCorner(boundary, range)) && WithinBoundary(range, OverlapCorner(boundary, range)))
  {
    range.position.x + range.width >= boundary.position.x
    && range.position.x <= boundary.position.x + boundary.width
    && range.position.y + range.height >= boundary.position.y
    && range.position.y <= boundary.position.y + boundary.height
  }

  /** The corner of the intersection of two rectangles nearest the origin. */
  function OverlapCorner(a: Rectangle, b: Rectangle): Position
  {
    Position(if a.position.x <= b.position.x then b.position.x else a.position.x,
             if a.position.y <= b.position.y then b.position.y else a.position.y)
  }

  /** A point lies in a boundary exactly when the zero-size range at that
      point overlaps it: the point test is the overlap test on a point. */
  lemma WithinIsPointOverlap(boundary: Rectangle, point: Position)
    ensures WithinBoundary(boundary, point) <==> DoesRangeOverlap(boundary, Rectangle(0.0, 0.0, point))
  {
  }

  /** The boundary of quadrant `k` of `b`: half the width and half the height,
      shifted right for the right-hand quadrants and down for the bottom ones. */
  function Quadrant(b: Rectangle, k: nat): (q: Rectangle)
    requires k < 4
    ensures q.width == b.width / 2.0 && q.height == b.height / 2.0
  {
    var w := b.width / 2.0;
    var h := b.height / 2.0;
    var x := if k == TOP_RIGHT || k == BOTTOM_RIGHT then b.position.x + w else b.position.x;
    var y := if k == BOTTOM_LEFT || k == BOTTOM_RIGHT then b.position.y + h else b.position.y;
    Rectangle(h, w, Position(x, y))
  }

  /** The `k`-th child of a divided node. */
  function Child(t: QuadTree, k: nat): QuadTree
    requires t.Divided? && k < 4
  {
    if k == TOP_LEFT then t.topLeft
    else if k == TOP_RIGHT then t.topRight
    else if k == BOTTOM_LEFT then t.bottomLeft
    else t.bottomRight
  }

  /** Every particle stored in the tree, the node's own first, then the
      children in the order top-left, top-right, bottom-left, bottom-right. */
  function Elements(t: QuadTree): seq<Particle>
  {
    match t
    case Leaf(_, _, points) => points
    case Divided(_, _, points, tl, tr, bl, br) =>
      points + Elements(tl) + Elements(tr) + Elements(bl) + Elements(br)
  }

  function Height(t: QuadTree): nat
  {
    match t
    case Leaf(_, _, _) => 0
    case Divided(_, _, _, tl, tr, bl, br) =>
      var a, b, c, d := Height(tl), Height(tr), Height(bl), Height(br);
      var ab := if a < b then b else a;
      var cd := if c < d then d else c;
      1 + if ab < cd then cd else ab
  }

  /** The tree invariant: no node holds more than its capacity; stored points
      lie inside their node's boundary; a node is divided only once it is full;
      a divided node has a non-empty boundary and exactly four children that
      quarter it and share its capacity. */
  predicate Valid(t: QuadTree)
  {
    |t.points| <= t.capacity
    && (forall q :: q in t.points ==> WithinBoundary(t.boundary, q.position))
    && match t
       case Leaf(_, _, _) => true
       case Divided(b, c, points, tl, tr, bl, br) =>
         |points| == c && b.width >= 0.0 && b.height >= 0.0
         && tl.boundary == Quadrant(b, TOP_LEFT) && tr.boundary == Quadrant(b, TOP_RIGHT)
         && bl.boundary == Quadrant(b, BOTTOM_LEFT) && br.boundary == Quadrant(b, BOTTOM_RIGHT)
         && tl.capacity == c && tr.capacity == c && bl.capacity == c && br.capacity == c
         && Valid(tl) && Valid(tr) && Valid(bl) && Valid(br)
  }

  /** A fresh, empty, undivided node. */
  function New(boundary: Rectangle, capacity: nat): (t: QuadTree)
    ensures t.boundary == boundary && t.capacity == capacity
    ensures !t.Divided? && Elements(t) == [] && Valid(t)
  {
    Leaf(boundary, capacity, [])
  }

  /** Splits a node into four empty quadrant children with the node's capacity;
      the node keeps its own points. */
  function Subdivide(t: QuadTree): (s: QuadTree)
    ensures s.Divided? && s.boundary == t.boundary && s.capacity == t.capacity && s.points == t.points
    ensures forall k :: 0 <= k < 4 ==>
      Child(s, k) == New(Quadrant(t.boundary, k), t.capacity)
    ensures Elements(s) == t.points
  {
    var b, c := t.boundary, t.capacity;
    Divided(b, c, t.points,
            New(Quadrant(b, TOP_LEFT), c), New(Quadrant(b, TOP_RIGHT), c),
            New(Quadrant(b, BOTTOM_LEFT), c), New(Quadrant(b, BOTTOM_RIGHT), c))
  }

  /** The node with `p` appended to its own points, children untouched. */
  function Push(t: QuadTree, p: Particle): (r: QuadTree)
    ensures r.boundary == t.boundary && r.capacity == t.capacity && r.points == t.points + [p]
  {
    match t
    case Leaf(b, c, points) => Leaf(b, c, points + [p])
    case Divided(b, c, points, tl, tr, bl, br) => Divided(b, c, points + [p], tl, tr, bl, br)
  }

  /** Inserts `particle` (if any). Returns it back when it lies outside the
      node's boundary; otherwise stores it in this node while there is room,
      else subdivides (once) and hands it to the children in the order
      top-left, top-right, bottom-left, bottom-right, each receiving what the
      previous one returned. With capacity at least 1 this terminates: a full
      leaf's new children are empty, so the first one that contains the point
      keeps it. */
  function Insert(t: QuadTree, particle: Option<Particle>): (r: (QuadTree, Option<Particle>))
    requires Valid(t) && t.capacity >= 1
    ensures r.0.boundary == t.boundary && r.0.capacity == t.capacity
    ensures r.1 == None || r.1 == particle
    ensures particle.None? ==> r == (t, None)
    decreases Height(t), if !t.Divided? && |t.points| >= t.capacity then 1 else 0
  {
    if particle.None? then (t, None)
    else if !WithinBoundary(t.boundary, particle.value.position) then (t, particle)
    else if |t.points| < t.capacity then (Push(t, particle.value), None)
    else
      var s := Prepared(t);
      var (topLeft, r1) := Insert(s.topLeft, particle);
      var (topRight, r2) := Insert(s.topRight, r1);
      var (bottomLeft, r3) := Insert(s.bottomLeft, r2);
      var (bottomRight, r4) := Insert(s.bottomRight, r3);
      (s.(topLeft := topLeft, topRight := topRight, bottomLeft := bottomLeft, bottomRight := bottomRight), r4)
  }

  /** The points of `points` that lie inside `boundary`, in order. */
  function PointsWithin(boundary: Rectangle, points: seq<Particle>): (found: seq<Particle>)
    ensures multiset(found) <= multiset(points)
    ensures forall q :: q in found <==> q in points && WithinBoundary(boundary, q.position)
    ensures forall q :: multiset(found)[q] == if WithinBoundary(boundary, q.position) then multiset(points)[q] else 0
  {
    if points == [] then []
    else
      var last := points[|points| - 1];
      var init := PointsWithin(boundary, points[..|points| - 1]);
      assert points == points[..|points| - 1] + [last];
      if WithinBoundary(boundary, last.position) then init + [last] else init
  }

  /** The range query as the program performs it: a node whose boundary does
      not overlap `range` contributes nothing; otherwise it contributes its
      points that lie inside its OWN boundary (not inside `range`), followed
      by the results of its four children. Never returns a particle more often
      than the tree stores it. */
  function Query(t: QuadTree, range: Rectangle): (found: seq<Particle>)
    ensures multiset(found) <= multiset(Elements(t))
  {
    if !DoesRangeOverlap(t.boundary, range) then []
    else
      var found := PointsWithin(t.boundary, t.points);
      match t
      case Leaf(_, _, _) => found
      case Divided(_, _, _, tl, tr, bl, br) =>
        found + Query(tl, range) + Query(tr, range) + Query(bl, range) + Query(br, range)
  }

  /** Empties the node and removes its children; boundary and capacity stay. */
  function Clear(t: QuadTree): (r: QuadTree)
    ensures r.boundary == t.boundary && r.capacity == t.capacity
    ensures !r.Divided? && Elements(r) == [] && Valid(r)
    ensures forall range :: Query(r, range) == []
  {
    Leaf(t.boundary, t.capacity, [])
  }

  // ---------------------------------------------------------------------------
  // Subdivision geometry

  /** The quadrant that the insert order gives a point to: points on the
      vertical midline go to the left quadrants and points on the horizontal
      midline go to the top quadrants. */
  function OwningQuadrant(b: Rectangle, point: Position): (k: nat)
    ensures k < 4
  {
    var midX := b.position.x + b.width / 2.0;
    var midY := b.position.y + b.height / 2.0;
    if point.y <= midY then (if point.x <= midX then TOP_LEFT else TOP_RIGHT)
    else (if point.x <= midX then BOTTOM_LEFT else BOTTOM_RIGHT)
  }

  /** The four quadrants cover their parent exactly: a point lies in the
      parent if and only if it lies in some quadrant. */
  lemma QuadrantsCover(b: Rectangle, point: Position)
    ensures WithinBoundary(b, point) <==> exists k :: 0 <= k < 4 && WithinBoundary(Quadrant(b, k), point)
  {
    var k := OwningQuadrant(b, point);
    if WithinBoundary(b, point) {
      assert WithinBoundary(Quadrant(b, k), point);
    }
  }

  /** Quadrants do not overlap: a point inside two different quadrants lies
      on one of the parent's midlines. */
  lemma QuadrantsMeetOnMidlines(b: Rectangle, point: Position, i: nat, j: nat)
    requires i < 4 && j < 4 && i != j
    requires WithinBoundary(Quadrant(b, i), point) && WithinBoundary(Quadrant(b, j), point)
    ensures point.x == b.position.x + b.width / 2.0 || point.y == b.position.y + b.height / 2.0
  {
  }

  /** The owning quadrant is the FIRST quadrant, in insert order, whose closed
      boundary contains the point. */
  lemma OwningQuadrantIsFirst(b: Rectangle, point: Position)
    requires WithinBoundary(b, point)
    ensures WithinBoundary(Quadrant(b, OwningQuadrant(b, point)), point)
    ensures forall j :: 0 <= j < OwningQuadrant(b, point) ==> !WithinBoundary(Quadrant(b, j), point)
  {
  }

  // ---------------------------------------------------------------------------
  // Insert

  /** Subdividing a full, valid leaf with a non-empty boundary gives a valid
      divided node that stores the same particles. */
  lemma SubdivideFullLeaf(t: QuadTree)
    requires Valid(t) && !t.Divided? && |t.points| >= t.capacity
    requires t.boundary.width >= 0.0 && t.boundary.height >= 0.0
    ensures Valid(Subdivide(t)) && Elements(Subdivide(t)) == Elements(t)
  {
  }

  /** A divided node with its `k`-th child replaced by `c`. */
  function WithChild(t: QuadTree, k: nat, c: QuadTree): (r: QuadTree)
    requires t.Divided? && k < 4
    ensures r.Divided? && r.boundary == t.boundary && r.capacity == t.capacity && r.points == t.points
    ensures Child(r, k) == c
    ensures forall j :: 0 <= j < 4 && j != k ==> Child(r, j) == Child(t, j)
  {
    if k == TOP_LEFT then t.(topLeft := c)
    else if k == TOP_RIGHT then t.(topRight := c)
    else if k == BOTTOM_LEFT then t.(bottomLeft := c)
    else t.(bottomRight := c)
  }

  lemma ElementsOfDivided(d: QuadTree)
    requires d.Divided?
    ensures multiset(Elements(d)) == multiset(d.points) + multiset(Elements(d.topLeft))
      + multiset(Elements(d.topRight)) + multiset(Elements(d.bottomLeft)) + multiset(Elements(d.bottomRight))
  {
  }

  /** Adding one element to one of several multisets adds it to their union. */
  lemma AddToOne(ms: multiset<Particle>, m0: multiset<Particle>, m1: multiset<Particle>,
                 m2: multiset<Particle>, m3: multiset<Particle>, pm: multiset<Particle>)
    ensures ms + (m0 + pm) + m1 + m2 + m3 == ms + m0 + m1 + m2 + m3 + pm
    ensures ms + m0 + (m1 + pm) + m2 + m3 == ms + m0 + m1 + m2 + m3 + pm
    ensures ms + m0 + m1 + (m2 + pm) + m3 == ms + m0 + m1 + m2 + m3 + pm
    ensures ms + m0 + m1 + m2 + (m3 + pm) == ms + m0 + m1 + m2 + m3 + pm
  {
  }

  /** Each child of a valid divided node is valid, quarters the node and
      shares its capacity. */
  lemma ChildOfValid(s: QuadTree, k: nat)
    requires Valid(s) && s.Divided? && k < 4
    ensures Valid(Child(s, k))
    ensures Child(s, k).boundary == Quadrant(s.boundary, k) && Child(s, k).capacity == s.capacity
  {
  }

  /** Replacing one child of a valid divided node by a valid node with the
      same boundary and capacity that holds one particle more keeps the node
      valid, and the node then holds that particle more. */
  lemma ReplaceChild(s: QuadTree, k: nat, c: QuadTree, p: Particle)
    requires Valid(s) && s.Divided? && k < 4
    requires Valid(c) && c.boundary == Child(s, k).boundary && c.capacity == s.capacity
    requires multiset(Elements(c)) == multiset(Elements(Child(s, k))) + multiset{p}
    ensures Valid(WithChild(s, k, c))
    ensures multiset(Elements(WithChild(s, k, c))) == multiset(Elements(s)) + multiset{p}
  {
    var r := WithChild(s, k, c);
    ElementsOfDivided(r);
    ElementsOfDivided(s);
    var m0, m1, m2, m3 := multiset(Elements(s.topLeft)), multiset(Elements(s.topRight)),
                          multiset(Elements(s.bottomLeft)), multiset(Elements(s.bottomRight));
    AddToOne(multiset(s.points), m0, m1, m2, m3, multiset{p});
    if k == TOP_LEFT {
      assert r == s.(topLeft := c);
    } else if k == TOP_RIGHT {
      assert r == s.(topRight := c);
    } else if k == BOTTOM_LEFT {
      assert r == s.(bottomLeft := c);
    } else {
      assert r == s.(bottomRight := c);
    }
  }

  /** The node insert hands a point to its children from: itself if already
      divided, else its subdivision. */
  function Prepared(t: QuadTree): (s: QuadTree)
    ensures s.Divided? && s.boundary == t.boundary && s.capacity == t.capacity && s.points == t.points
  {
    if t.Divided? then t else Subdivide(t)
  }

  /** What an accepting insert of `p` into `t` promises. */
  predicate Accepts(t: QuadTree, p: Particle)
    requires Valid(t) && t.capacity >= 1
  {
    Insert(t, Some(p)).1 == None
    && Valid(Insert(t, Some(p)).0)
    && multiset(Elements(Insert(t, Some(p)).0)) == multiset(Elements(t)) + multiset{p}
  }

  /** The insert into a full node when the owning child keeps the point: the
      children before it hand the point back unchanged, the ones after it
      receive None, so only the owning child changes. */
  lemma DelegateChain(t: QuadTree, p: Particle, k: nat)
    requires Valid(t) && t.capacity >= 1 && |t.points| >= t.capacity
    requires WithinBoundary(t.boundary, p.position)
    requires k == OwningQuadrant(t.boundary, p.position)
    requires Valid(Prepared(t))
    requires Insert(Child(Prepared(t), k), Some(p)).1 == None
    ensures Insert(t, Some(p)) == (WithChild(Prepared(t), k, Insert(Child(Prepared(t), k), Some(p)).0), None)
  {
    var s := Prepared(t);
    OwningQuadrantIsFirst(t.boundary, p.position);
    var (tl, r1) := Insert(s.topLeft, Some(p));
    var (tr, r2) := Insert(s.topRight, r1);
    var (bl, r3) := Insert(s.bottomLeft, r2);
    var (br, r4) := Insert(s.bottomRight, r3);
    assert Insert(t, Some(p)) == (s.(topLeft := tl, topRight := tr, bottomLeft := bl, bottomRight := br), r4);
    if k == TOP_LEFT {
      assert tr == s.topRight && bl == s.bottomLeft && br == s.bottomRight && r4 == None;
    } else if k == TOP_RIGHT {
      assert r1 == Some(p) && tl == s.topLeft;
      assert bl == s.bottomLeft && br == s.bottomRight && r4 == None;
    } else if k == BOTTOM_LEFT {
      assert r1 == Some(p) && tl == s.topLeft;
      assert r2 == Some(p) && tr == s.topRight;
      assert br == s.bottomRight && r4 == None;
    } else {
      assert r1 == Some(p) && tl == s.topLeft;
      assert r2 == Some(p) && tr == s.topRight;
      assert r3 == Some(p) && bl == s.bottomLeft;
    }
  }

  /** A full node accepts a point of its boundary once the owning child does. */
  lemma DelegateAccepted(t: QuadTree, p: Particle, k: nat)
    requires Valid(t) && t.capacity >= 1 && |t.points| >= t.capacity
    requires WithinBoundary(t.boundary, p.position)
    requires k == OwningQuadrant(t.boundary, p.position)
    requires Valid(Prepared(t))
    requires Accepts(Child(Prepared(t), k), p)
    ensures Accepts(t, p)
  {
    var s := Prepared(t);
    var child := Child(s, k);
    ChildOfValid(s, k);
    var c := Insert(child, Some(p)).0;
    assert Valid(c) && multiset(Elements(c)) == multiset(Elements(child)) + multiset{p};
    DelegateChain(t, p, k);
    ReplaceChild(s, k, c, p);
    assert Elements(s) == Elements(t);
    AcceptsBy(t, p, WithChild(s, k, c));
  }

  /** Accepts, from the node the insert returns. */
  lemma AcceptsBy(t: QuadTree, p: Particle, r: QuadTree)
    requires Valid(t) && t.capacity >= 1
    requires Insert(t, Some(p)).0 == r && Insert(t, Some(p)).1 == None
    requires Valid(r) && multiset(Elements(r)) == multiset(Elements(t)) + multiset{p}
    ensures Accepts(t, p)
  {
  }

  /** An insert of a point inside the boundary always succeeds: the result is
      None, the tree stays valid, and the point is stored exactly once more. */
  lemma {:induction false} InsertAccepted(t: QuadTree, p: Particle)
    requires Valid(t) && t.capacity >= 1
    requires WithinBoundary(t.boundary, p.position)
    ensures Insert(t, Some(p)).1 == None
    ensures Valid(Insert(t, Some(p)).0)
    ensures multiset(Elements(Insert(t, Some(p)).0)) == multiset(Elements(t)) + multiset{p}
    decreases Height(t), if !t.Divided? && |t.points| >= t.capacity then 1 else 0
  {
    if |t.points| < t.capacity {
      assert !t.Divided?;
      assert Insert(t, Some(p)).0 == Leaf(t.boundary, t.capacity, t.points + [p]);
      assert Elements(Insert(t, Some(p)).0) == Elements(t) + [p];
    } else {
      var s := Prepared(t);
      if !t.Divided? {
        SubdivideFullLeaf(t);
      }
      var k := OwningQuadrant(t.boundary, p.position);
      OwningQuadrantIsFirst(t.boundary, p.position);
      if k == TOP_LEFT {
        InsertAccepted(s.topLeft, p);
      } else if k == TOP_RIGHT {
        InsertAccepted(s.topRight, p);
      } else if k == BOTTOM_LEFT {
        InsertAccepted(s.bottomLeft, p);
      } else {
        InsertAccepted(s.bottomRight, p);
      }
      DelegateAccepted(t, p, k);
      assert Accepts(t, p);
    }
  }

  /** Every insert keeps the tree valid. */
  lemma InsertKeepsValid(t: QuadTree, particle: Option<Particle>)
    requires Valid(t) && t.capacity >= 1
    ensures Valid(Insert(t, particle).0)
  {
    if particle.Some? && WithinBoundary(t.boundary, particle.value.position) {
      InsertAccepted(t, particle.value);
    }
  }

  /** Insert hands a particle back, leaving the tree untouched, exactly when
      the particle lies outside the node's closed boundary. */
  lemma InsertRejectsExactlyOutside(t: QuadTree, p: Particle)
    requires Valid(t) && t.capacity >= 1
    ensures Insert(t, Some(p)) == (t, Some(p)) <==> !WithinBoundary(t.boundary, p.position)
    ensures Insert(t, Some(p)).1 == Some(p) <==> !WithinBoundary(t.boundary, p.position)
  {
    if WithinBoundary(t.boundary, p.position) {
      InsertAccepted(t, p);
    }
  }

  /** Where an accepted particle goes: into the node itself while it has room
      (the children are untouched); otherwise the node is (or becomes) divided,
      keeps its points, and exactly one child, the owning quadrant, gains the
      particle while the other three are unchanged. An already divided node is
      not subdivided again: its existing children are reused. */
  lemma InsertPlacement(t: QuadTree, p: Particle)
    requires Valid(t) && t.capacity >= 1
    requires WithinBoundary(t.boundary, p.position)
    ensures var r := Insert(t, Some(p)).0;
      if |t.points| < t.capacity then
        !t.Divided? && r == Leaf(t.boundary, t.capacity, t.points + [p])
      else
        var s := Prepared(t);
        r.Divided? && r.points == t.points
        && forall k :: 0 <= k < 4 ==>
             if k == OwningQuadrant(t.boundary, p.position) then
               multiset(Elements(Child(r, k))) == multiset(Elements(Child(s, k))) + multiset{p}
             else Child(r, k) == Child(s, k)
  {
    if |t.points| >= t.capacity {
      var s := Prepared(t);
      if !t.Divided? {
        SubdivideFullLeaf(t);
      }
      var k := OwningQuadrant(t.boundary, p.position);
      OwningQuadrantIsFirst(t.boundary, p.position);
      ChildOfValid(s, k);
      InsertAccepted(Child(s, k), p);
      DelegateChain(t, p, k);
    }
  }

  // ---------------------------------------------------------------------------
  // Query

  /** The reference meaning of the query: the points of every node whose
      boundary overlaps `range`, whether or not they lie in `range`. */
  function OverlappingNodesPoints(t: QuadTree, range: Rectangle): seq<Particle>
  {
    var own := if DoesRangeOverlap(t.boundary, range) then t.points else [];
    match t
    case Leaf(_, _, _) => own
    case Divided(_, _, _, tl, tr, bl, br) =>
      own + OverlappingNodesPoints(tl, range) + OverlappingNodesPoints(tr, range)
      + OverlappingNodesPoints(bl, range) + OverlappingNodesPoints(br, range)
  }

  lemma {:induction false} PointsWithinAll(boundary: Rectangle, points: seq<Particle>)
    requires forall q :: q in points ==> WithinBoundary(boundary, q.position)
    ensures PointsWithin(boundary, points) == points
  {
    if points != [] {
      var init, last := points[..|points| - 1], points[|points| - 1];
      assert points == init + [last];
      PointsWithinAll(boundary, init);
      assert WithinBoundary(boundary, last.position);
      assert PointsWithin(boundary, points) == PointsWithin(boundary, init) + [last];
    }
  }

  /** In a valid tree every stored point lies inside the root's boundary. */
  lemma {:induction false} ElementsWithinBoundary(t: QuadTree)
    requires Valid(t)
    ensures forall q :: q in Elements(t) ==> WithinBoundary(t.boundary, q.position)
  {
    if t.Divided? {
      ElementsWithinBoundary(t.topLeft);
      ElementsWithinBoundary(t.topRight);
      ElementsWithinBoundary(t.bottomLeft);
      ElementsWithinBoundary(t.bottomRight);
    }
  }

  /** A range that misses a valid node misses every node below it. */
  lemma {:induction false} MissedNodeHasNoOverlappingPoints(t: QuadTree, range: Rectangle)
    requires Valid(t) && !DoesRangeOverlap(t.boundary, range)
    ensures OverlappingNodesPoints(t, range) == []
  {
    if t.Divided? {
      MissedNodeHasNoOverlappingPoints(t.topLeft, range);
      MissedNodeHasNoOverlappingPoints(t.topRight, range);
      MissedNodeHasNoOverlappingPoints(t.bottomLeft, range);
      MissedNodeHasNoOverlappingPoints(t.bottomRight, range);
    }
  }

  /** The query is not filtered by the range: on a valid tree it returns
      exactly the points of the nodes whose boundary overlaps the range (the
      pruning of missed subtrees and the re-test against each node's own
      boundary remove nothing). */
  lemma {:induction false} QueryReturnsOverlappingNodes(t: QuadTree, range: Rectangle)
    requires Valid(t)
    ensures Query(t, range) == OverlappingNodesPoints(t, range)
  {
    if !DoesRangeOverlap(t.boundary, range) {
      MissedNodeHasNoOverlappingPoints(t, range);
    } else {
      PointsWithinAll(t.boundary, t.points);
      if t.Divided? {
        QueryReturnsOverlappingNodes(t.topLeft, range);
        QueryReturnsOverlappingNodes(t.topRight, range);
        QueryReturnsOverlappingNodes(t.bottomLeft, range);
        QueryReturnsOverlappingNodes(t.bottomRight, range);
      }
    }
  }

  /** The query is complete: every stored particle that lies in the closed
      range is returned. */
  lemma {:induction false} QueryComplete(t: QuadTree, range: Rectangle, q: Particle)
    requires Valid(t)
    requires q in Elements(t) && WithinBoundary(range, q.position)
    ensures q in Query(t, range)
  {
    ElementsWithinBoundary(t);
    assert DoesRangeOverlap(t.boundary, range);
    if q in t.points {
      assert q in PointsWithin(t.boundary, t.points);
    } else {
      assert t.Divided?;
      if q in Elements(t.topLeft) {
        QueryComplete(t.topLeft, range, q);
      } else if q in Elements(t.topRight) {
        QueryComplete(t.topRight, range, q);
      } else if q in Elements(t.bottomLeft) {
        QueryComplete(t.bottomLeft, range, q);
      } else {
        QueryComplete(t.bottomRight, range, q);
      }
    }
  }

  /** The query is not sound: a range that merely touches a node returns that
      node's points even when they lie far outside the range. */
  lemma QueryNotRangeFiltered(t: QuadTree, range: Rectangle)
    requires t == Leaf(Rectangle(10.0, 10.0, Position(0.0, 0.0)), 4,
                       [Particle(Position(9.0, 9.0), RED, Velocity(0.0, 0.0))])
    requires range == Rectangle(1.0, 1.0, Position(-1.0, -1.0))
    ensures Valid(t)
    ensures Query(t, range) == t.points
    ensures !WithinBoundary(range, t.points[0].position)
  {
    var p := t.points[0];
    assert WithinBoundary(t.boundary, p.position);
    assert t.points[..0] == [];
    assert PointsWithin(t.boundary, t.points) == PointsWithin(t.boundary, []) + [p];
    assert DoesRangeOverlap(t.boundary, range);
  }

  /** A quadrant of a non-empty rectangle lies inside it. */
  lemma QuadrantInside(b: Rectangle, k: nat)
    requires k < 4 && b.width >= 0.0 && b.height >= 0.0
    ensures b.position.x <= Quadrant(b, k).position.x
    ensures Quadrant(b, k).position.x + Quadrant(b, k).width <= b.position.x + b.width
    ensures b.position.y <= Quadrant(b, k).position.y
    ensures Quadrant(b, k).position.y + Quadrant(b, k).height <= b.position.y + b.height
  {
  }

  /** A range covering a node's boundary sees every node below it. */
  lemma {:induction false} CoveringRangeSeesAll(t: QuadTree, range: Rectangle)
    requires Valid(t)
    requires range.position.x <= t.boundary.position.x
    requires t.boundary.position.x + t.boundary.width <= range.position.x + range.width
    requires range.position.y <= t.boundary.position.y
    requires t.boundary.position.y + t.boundary.height <= range.position.y + range.height
    ensures OverlappingNodesPoints(t, range) == Elements(t)
  {
    if t.points != [] {
      assert WithinBoundary(t.boundary, t.points[0].position);
    }
    if t.Divided? || t.points != [] {
      assert DoesRangeOverlap(t.boundary, range);
    }
    if t.Divided? {
      QuadrantInside(t.boundary, TOP_LEFT);
      QuadrantInside(t.boundary, TOP_RIGHT);
      QuadrantInside(t.boundary, BOTTOM_LEFT);
      QuadrantInside(t.boundary, BOTTOM_RIGHT);
      CoveringRangeSeesAll(t.topLeft, range);
      CoveringRangeSeesAll(t.topRight, range);
      CoveringRangeSeesAll(t.bottomLeft, range);
      CoveringRangeSeesAll(t.bottomRight, range);
    }
  }

  /** Querying a valid tree with its own boundary returns exactly the stored
      particles: nothing lost, nothing duplicated. */
  lemma QueryWholeBoundary(t: QuadTree)
    requires Valid(t)
    ensures Query(t, t.boundary) == Elements(t)
  {
    QueryReturnsOverlappingNodes(t, t.boundary);
    CoveringRangeSeesAll(t, t.boundary);
  }
}
