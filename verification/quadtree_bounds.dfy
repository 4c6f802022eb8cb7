/** The field test of the region quadtree as the source writes it in
    `insert`, `move` and `move_point`, and what it lets through. */
module QuadTreeBounds {
  import opened Geometry
  import opened SpatialIndex
  import opened Quadrants
  import opened QuadTrees
  import opened QuadTreeInsertion

  /** The source's test: only the upper bounds of the field are checked. */
  predicate InBoundsAsWritten(c: Point, p: Point) {
    p.x <= 2 * c.x && p.y <= 2 * c.y
  }

  /** The source's test accepts every point of the field, and exactly the
      field among points with non-negative coordinates; it also accepts
      every point with a negative coordinate below the upper bounds. */
  lemma InBoundsAsWrittenAccepts(c: Point, p: Point)
    ensures InBounds(c, p) ==> InBoundsAsWritten(c, p)
    ensures 0 <= p.x && 0 <= p.y ==> (InBoundsAsWritten(c, p) <==> InBounds(c, p))
    ensures InBoundsAsWritten(c, p) && !InBounds(c, p) <==> InBoundsAsWritten(c, p) && (p.x < 0 || p.y < 0)
  {
  }

  /** The centre and corners `_insert_helper` hands to the next level. */
  datatype Frame = Frame(centre: Point, corners: Corners)

  function RootFrame(c: Point): Frame {
    Frame(c, RootCorners(c))
  }

  /** One demotion of a leaf holding `held` when the new point falls in the
      same quadrant: the demoted leaf is centred by `_find_centre` and the
      corners shrink to that quadrant's by `_corner_helper`. */
  function Demotion(f: Frame, held: Point): Frame {
    Frame(FindCentre(f.centre, held, f.corners), CornerHelper(f.corners, f.centre, FindRegion(f.centre, held)))
  }

  /** `n` demotions in a row. */
  function Demotions(f: Frame, held: Point, n: nat): Frame
    decreases n
  {
    if n == 0 then f else Demotions(Demotion(f, held), held, n - 1)
  }

  /** The frame with every corner and the centre at the origin. */
  const Origin := Frame(Point(0, 0), Corners(Point(0, 0), Point(0, 0), Point(0, 0), Point(0, 0)))

  /** For a point north-west of the origin the origin frame demotes to
      itself. */
  lemma OriginFixed(held: Point)
    requires held.x <= 0 && held.y <= 0
    ensures Demotion(Origin, held) == Origin
  {
  }

  /** From the field of a tree centred at (50, 50), seven demotions towards
      (-10, -10) reach the origin frame. */
  lemma DescentToOrigin()
    ensures Demotions(RootFrame(Point(50, 50)), Point(-10, -10), 7) == Origin
  {
    var p := Point(-10, -10);
    var f1 := Frame(Point(25, 25), Corners(Point(0, 0), Point(50, 0), Point(0, 50), Point(50, 50)));
    var f2 := Frame(Point(12, 12), Corners(Point(0, 0), Point(25, 0), Point(0, 25), Point(25, 25)));
    var f3 := Frame(Point(6, 6), Corners(Point(0, 0), Point(12, 0), Point(0, 12), Point(12, 12)));
    var f4 := Frame(Point(3, 3), Corners(Point(0, 0), Point(6, 0), Point(0, 6), Point(6, 6)));
    var f5 := Frame(Point(1, 1), Corners(Point(0, 0), Point(3, 0), Point(0, 3), Point(3, 3)));
    var f6 := Frame(Point(0, 0), Corners(Point(0, 0), Point(1, 0), Point(0, 1), Point(1, 1)));
    assert Demotion(RootFrame(Point(50, 50)), p) == f1;
    assert Demotion(f1, p) == f2;
    assert Demotion(f2, p) == f3;
    assert Demotion(f3, p) == f4;
    assert Demotion(f4, p) == f5;
    assert Demotion(f5, p) == f6;
    assert Demotion(f6, p) == Origin;
  }

  predicate NonNegative(p: Point) {
    p.x >= 0 && p.y >= 0
  }

  /** A frame whose centre and corners have no negative coordinate. */
  predicate NonNegativeFrame(f: Frame) {
    && NonNegative(f.centre)
    && NonNegative(f.corners.nw) && NonNegative(f.corners.ne)
    && NonNegative(f.corners.sw) && NonNegative(f.corners.se)
  }

  /** Halving between non-negative points stays non-negative, so the
      frames on the way down never leave the non-negative quadrant. */
  lemma {:induction false} DemotionsNonNegative(f: Frame, held: Point, n: nat)
    requires NonNegativeFrame(f)
    ensures NonNegativeFrame(Demotions(f, held, n))
    decreases n
  {
    if n > 0 {
      assert NonNegativeFrame(Demotion(f, held));
      DemotionsNonNegative(Demotion(f, held), held, n - 1);
    }
  }

  /** The source accepts (-10, -10) into the tree centred at (50, 50), where
      it becomes the root leaf. Inserting (-20, -20) next, every level finds
      the held point and the new one in the same quadrant, so
      `_insert_helper` demotes again at every level and never reaches the
      case that splits them: the insertion does not terminate. */
  lemma NegativeInsertNeverSplits(n: nat)
    ensures InBoundsAsWritten(Point(50, 50), Point(-10, -10))
    ensures InBoundsAsWritten(Point(50, 50), Point(-20, -20))
    ensures var f := Demotions(RootFrame(Point(50, 50)), Point(-10, -10), n);
            FindRegion(f.centre, Point(-10, -10)) == FindRegion(f.centre, Point(-20, -20))
  {
    DemotionsNonNegative(RootFrame(Point(50, 50)), Point(-10, -10), n);
  }

  /** The intended test refuses both points, so the model's insertion
      reports `OutOfBounds` instead. */
  lemma NegativeInsertRefused(t: QuadTree)
    requires Valid(t) && t.centre == Point(50, 50)
    ensures Insert(t, "a", Point(-10, -10)).OutOfBounds?
  {
  }
}
