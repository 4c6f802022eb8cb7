/** The geometry of a region quadtree node: the quadrant a point falls in
    (`_find_region`), the corners of a quadrant's square (`_corner_helper`)
    and the centre of a new child (`_find_centre`), with the facts that make
    the insertion walk terminate. */
module Quadrants {
  import opened Geometry

  /** A quadrant of a node, relative to its centre. A point on a centre line
      belongs to the west or north side. */
  datatype Quadrant = NorthWest | SouthWest | NorthEast | SouthEast

  /** `_find_region`: the quadrant of `c` that `p` falls in. The west
      quadrants are exactly those with `p.x <= c.x`, the north quadrants
      exactly those with `p.y <= c.y`. */
  function FindRegion(c: Point, p: Point): (q: Quadrant)
    ensures (q == NorthWest || q == SouthWest) <==> p.x <= c.x
    ensures (q == NorthWest || q == NorthEast) <==> p.y <= c.y
  {
    if p.x <= c.x && p.y <= c.y then NorthWest
    else if p.x <= c.x then SouthWest
    else if p.y <= c.y then NorthEast
    else SouthEast
  }

  /** True if `p` lies in quadrant `q` of a node centred at `c`. */
  predicate InQuadrant(c: Point, q: Quadrant, p: Point) {
    match q
    case NorthWest => p.x <= c.x && p.y <= c.y
    case SouthWest => p.x <= c.x && p.y > c.y
    case NorthEast => p.x > c.x && p.y <= c.y
    case SouthEast => p.x > c.x && p.y > c.y
  }

  /** The quadrants partition the plane: every point lies in exactly one,
      the one `FindRegion` names. */
  lemma QuadrantPartition(c: Point, p: Point, q: Quadrant)
    ensures InQuadrant(c, q, p) <==> q == FindRegion(c, p)
  {
  }

  /** Python's `int((a + b) / 2)` on an integer sum: halve, truncating toward zero. */
  function TruncHalf(s: int): (r: int)
    ensures s >= 0 ==> 0 <= r && 2 * r <= s <= 2 * r + 1
    ensures s < 0 ==> r <= 0 && 2 * r - 1 <= s <= 2 * r
  {
    if s >= 0 then s / 2 else -((-s) / 2)
  }

  function Midpoint(a: Point, b: Point): Point {
    Point(TruncHalf(a.x + b.x), TruncHalf(a.y + b.y))
  }

  /** The four corners of the square a node covers, as the insertion walk
      carries them down the tree. */
  datatype Corners = Corners(nw: Point, ne: Point, sw: Point, se: Point)

  /** The corners of an axis-aligned rectangle with non-negative coordinates. */
  predicate Rectangle(k: Corners) {
    && 0 <= k.nw.x <= k.se.x
    && 0 <= k.nw.y <= k.se.y
    && k.ne == Point(k.se.x, k.nw.y)
    && k.sw == Point(k.nw.x, k.se.y)
  }

  predicate InRectangle(p: Point, k: Corners) {
    k.nw.x <= p.x <= k.se.x && k.nw.y <= p.y <= k.se.y
  }

  /** The sum of the side lengths of the rectangle. */
  function Width(k: Corners): int {
    (k.se.x - k.nw.x) + (k.se.y - k.nw.y)
  }

  /** The corners `insert` starts from: the square from the origin to twice the root's centre. */
  function RootCorners(c: Point): Corners {
    Corners(Point(0, 0), Point(2 * c.x, 0), Point(0, 2 * c.y), Point(2 * c.x, 2 * c.y))
  }

  /** The field of a tree centred at `c`: the square from (0, 0) to (2 * c.x, 2 * c.y). */
  predicate InBounds(c: Point, p: Point) {
    0 <= p.x <= 2 * c.x && 0 <= p.y <= 2 * c.y
  }

  /** The field is the root square, and the root's centre is its midpoint. */
  lemma RootCornersFacts(c: Point)
    requires 0 <= c.x && 0 <= c.y
    ensures Rectangle(RootCorners(c))
    ensures c == Midpoint(RootCorners(c).nw, RootCorners(c).se)
    ensures forall p :: InBounds(c, p) <==> InRectangle(p, RootCorners(c))
  {
  }

  /** `_corner_helper`: the corners of quadrant `q` of a node centred at `c`
      whose square has corners `k`. */
  function CornerHelper(k: Corners, c: Point, q: Quadrant): Corners {
    match q
    case NorthWest => Corners(k.nw, Midpoint(k.nw, k.ne), Midpoint(k.sw, k.nw), c)
    case SouthWest => Corners(Midpoint(k.sw, k.nw), c, k.sw, Midpoint(k.sw, k.se))
    case NorthEast => Corners(Midpoint(k.ne, k.nw), k.ne, c, Midpoint(k.se, k.ne))
    case SouthEast => Corners(c, Midpoint(k.se, k.ne), Midpoint(k.sw, k.se), k.se)
  }

  /** The corner of square `k` that lies in quadrant `q`. */
  function OuterCorner(k: Corners, q: Quadrant): Point {
    match q
    case NorthWest => k.nw
    case SouthWest => k.sw
    case NorthEast => k.ne
    case SouthEast => k.se
  }

  /** `_find_centre`: the centre of the child a point `p` goes to, halfway
      between the node's centre and the corner of `p`'s quadrant. */
  function FindCentre(c: Point, p: Point, k: Corners): Point {
    Midpoint(OuterCorner(k, FindRegion(c, p)), c)
  }

  /** When a node is centred in its square, each quadrant's corners form a
      rectangle inside the parent's, the child centre `_find_centre` computes
      is that rectangle's midpoint, and every point of the square that lies in
      the quadrant lies in the quadrant's rectangle. */
  lemma QuadrantCorners(k: Corners, c: Point, q: Quadrant)
    requires Rectangle(k) && c == Midpoint(k.nw, k.se)
    ensures Rectangle(CornerHelper(k, c, q))
    ensures Midpoint(OuterCorner(k, q), c) == Midpoint(CornerHelper(k, c, q).nw, CornerHelper(k, c, q).se)
    ensures forall p :: InRectangle(p, CornerHelper(k, c, q)) ==> InRectangle(p, k)
    ensures forall p :: InRectangle(p, k) && InQuadrant(c, q, p) ==> InRectangle(p, CornerHelper(k, c, q))
    ensures Width(CornerHelper(k, c, q)) <= Width(k)
  {
    EdgeMidpoints(k, c);
  }

  /** The midpoints of the sides of a centred rectangle lie on the centre
      lines, and the centre lies inside the rectangle. */
  lemma EdgeMidpoints(k: Corners, c: Point)
    requires Rectangle(k) && c == Midpoint(k.nw, k.se)
    ensures k.nw.x <= c.x <= k.se.x && k.nw.y <= c.y <= k.se.y
    ensures Midpoint(k.nw, k.ne) == Point(c.x, k.nw.y) && Midpoint(k.ne, k.nw) == Point(c.x, k.nw.y)
    ensures Midpoint(k.sw, k.se) == Point(c.x, k.se.y)
    ensures Midpoint(k.sw, k.nw) == Point(k.nw.x, c.y) && Midpoint(k.se, k.ne) == Point(k.se.x, c.y)
  {
    assert TruncHalf(2 * k.nw.x) == k.nw.x && TruncHalf(2 * k.nw.y) == k.nw.y;
    assert TruncHalf(2 * k.se.x) == k.se.x && TruncHalf(2 * k.se.y) == k.se.y;
  }

  /** Two distinct points of a centred square that fall in the same quadrant
      lie in a strictly smaller square: the demotion chain of `_insert_helper`
      ends. */
  lemma {:induction false} QuadrantShrinks(k: Corners, c: Point, p1: Point, p2: Point)
    requires Rectangle(k) && c == Midpoint(k.nw, k.se)
    requires InRectangle(p1, k) && InRectangle(p2, k) && p1 != p2
    requires FindRegion(c, p1) == FindRegion(c, p2)
    ensures Width(CornerHelper(k, c, FindRegion(c, p1))) < Width(k)
  {
    var q := FindRegion(c, p1);
    QuadrantCorners(k, c, q);
    var k' := CornerHelper(k, c, q);
    if p1.x != p2.x {
      assert k'.se.x - k'.nw.x < k.se.x - k.nw.x;
    } else {
      assert k'.se.y - k'.nw.y < k.se.y - k.nw.y;
    }
  }
}
