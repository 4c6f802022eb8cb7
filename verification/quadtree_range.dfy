/** The range query of the region quadtree (`names_in_range`): the names of
    the players inside the box a diagonal query spans, visiting only the
    quadrants the box reaches. */
module QuadTreeRange {
  import opened Geometry
  import opened SpatialIndex
  import opened Quadrants
  import opened QuadTrees

  /** Which version of the south-east test to apply: the source's, which
      compares the box's greatest y with the centre's x, or the intended
      one, which compares the box's greatest x. */
  datatype SouthEastTest = AsWritten | Intended

  /** The box reaches quadrant `q` of a node centred at `c`, judged from the
      box corner nearest to that quadrant. */
  predicate Visits(c: Point, b: Box, q: Quadrant, test: SouthEastTest) {
    match q
    case NorthWest => b.xs.Lo() <= c.x && b.ys.Lo() <= c.y
    case SouthWest => b.xs.Lo() <= c.x && b.ys.Hi() > c.y
    case NorthEast => b.xs.Hi() > c.x && b.ys.Lo() <= c.y
    case SouthEast =>
      match test
      case AsWritten => b.ys.Hi() > c.x && b.ys.Hi() > c.y
      case Intended => b.xs.Hi() > c.x && b.ys.Hi() > c.y
  }

  /** With the intended tests, a quadrant the box does not reach holds no
      point of the box. */
  lemma NotVisitedOutside(c: Point, b: Box, q: Quadrant, p: Point)
    requires !Visits(c, b, q, Intended) && InQuadrant(c, q, p)
    ensures !InBox(p, b)
  {
  }

  /** The names found below the child of quadrant `q`, when the box reaches it. */
  function KidNames(t: QuadTree, b: Box, q: Quadrant, test: SouthEastTest): seq<string>
    decreases t, 0
  {
    if q in t.kids && Visits(t.centre, b, q, test) then Walk(t.kids[q], b, test) else []
  }

  /** The body of `names_in_range`: a leaf reports its player when inside the
      box; an internal node concatenates the answers of the quadrants the
      box reaches, in the order north-west, south-west, north-east,
      south-east. */
  function Walk(t: QuadTree, b: Box, test: SouthEastTest): seq<string>
    decreases t, 1
  {
    if t.IsEmpty() then []
    else if t.IsLeaf() then
      if InBox(t.occupant.value.point, b) then [t.occupant.value.name] else []
    else
      KidNames(t, b, NorthWest, test) + KidNames(t, b, SouthWest, test)
        + KidNames(t, b, NorthEast, test) + KidNames(t, b, SouthEast, test)
  }

  /** With the intended tests the walk finds exactly the players the
      brute-force scan over all players finds. */
  lemma {:induction false} WalkComplete(t: QuadTree, b: Box)
    requires Ordered(t)
    ensures Elements(Walk(t, b, Intended)) == NamesInBox(Occupants(t), b)
    decreases t
  {
    if t.IsEmpty() {
      EmptyIffNoOccupants(t);
    } else if t.IsLeaf() {
      assert Occupants(t) == {t.occupant.value};
    } else {
      forall q ensures Elements(KidNames(t, b, q, Intended)) == NamesInBox(KidOccupantsOf(t, q), b) {
        KidComplete(t, b, q);
      }
      OccupantsByQuadrant(t);
      var nw := KidNames(t, b, NorthWest, Intended);
      var sw := KidNames(t, b, SouthWest, Intended);
      var ne := KidNames(t, b, NorthEast, Intended);
      var se := KidNames(t, b, SouthEast, Intended);
      ElementsConcat(nw, sw);
      ElementsConcat(nw + sw, ne);
      ElementsConcat(nw + sw + ne, se);
      NamesInBoxUnion(KidOccupantsOf(t, NorthEast), KidOccupantsOf(t, NorthWest), b);
      NamesInBoxUnion(KidOccupantsOf(t, NorthEast) + KidOccupantsOf(t, NorthWest), KidOccupantsOf(t, SouthEast), b);
      NamesInBoxUnion(KidOccupantsOf(t, NorthEast) + KidOccupantsOf(t, NorthWest) + KidOccupantsOf(t, SouthEast),
                      KidOccupantsOf(t, SouthWest), b);
    }
  }

  /** One quadrant: a visited child by induction, a skipped one because the
      box misses its quadrant. */
  lemma {:induction false} KidComplete(t: QuadTree, b: Box, q: Quadrant)
    requires Ordered(t) && !t.IsLeaf()
    ensures Elements(KidNames(t, b, q, Intended)) == NamesInBox(KidOccupantsOf(t, q), b)
    decreases t, 0
  {
    if q in t.kids {
      OrderedKid(t, q);
      if Visits(t.centre, b, q, Intended) {
        WalkComplete(t.kids[q], b);
      } else {
        forall o | o in Occupants(t.kids[q]) ensures !InBox(o.point, b) {
          NotVisitedOutside(t.centre, b, q, o.point);
        }
        NamesInBoxOutside(Occupants(t.kids[q]), b);
      }
    }
  }

  /** `names_in_range`: the names of the players within `distance` of
      `anchor` along both axes, on the side the diagonal `d` points to. The
      listed names are exactly those of the players in the query box. */
  function NamesInRange(t: QuadTree, anchor: Point, d: Diagonal, distance: int): (r: seq<string>)
    requires Ordered(t)
    ensures Elements(r) == NamesInBox(Occupants(t), FindXYRange(anchor, d, distance))
  {
    WalkComplete(t, FindXYRange(anchor, d, distance));
    Walk(t, FindXYRange(anchor, d, distance), Intended)
  }

  /** `names_in_range` with the source's south-east test. It never reports
      a name from outside the box, but it can miss players. */
  function NamesInRangeAsWritten(t: QuadTree, anchor: Point, d: Diagonal, distance: int): (r: seq<string>)
    ensures Elements(r) <= NamesInBox(Occupants(t), FindXYRange(anchor, d, distance))
  {
    WalkSound(t, FindXYRange(anchor, d, distance), AsWritten);
    Walk(t, FindXYRange(anchor, d, distance), AsWritten)
  }

  /** Whatever the tests, the walk reports only players inside the box: a
      leaf checks its own point. */
  lemma {:induction false} WalkSound(t: QuadTree, b: Box, test: SouthEastTest)
    ensures Elements(Walk(t, b, test)) <= NamesInBox(Occupants(t), b)
    decreases t
  {
    if t.IsEmpty() {
    } else if t.IsLeaf() {
      assert Occupants(t) == {t.occupant.value};
    } else {
      forall q ensures Elements(KidNames(t, b, q, test)) <= NamesInBox(Occupants(t), b) {
        if q in t.kids && Visits(t.centre, b, q, test) {
          WalkSound(t.kids[q], b, test);
          assert Occupants(t.kids[q]) <= Occupants(t) by {
            OccupantsOfKids(t);
          }
        }
      }
      var nw := KidNames(t, b, NorthWest, test);
      var sw := KidNames(t, b, SouthWest, test);
      var ne := KidNames(t, b, NorthEast, test);
      var se := KidNames(t, b, SouthEast, test);
      ElementsConcat(nw, sw);
      ElementsConcat(nw + sw, ne);
      ElementsConcat(nw + sw + ne, se);
    }
  }

  /** A tree centred at (250, 250) whose north-east child is centred at
      (375, 125) and holds "a" at (400, 200) in its south-east quadrant and
      "b" at (260, 10) in its north-west quadrant. */
  function NorthEastTree(): (t: QuadTree)
    ensures Ordered(t)
    ensures Occupants(t) == {Occupant("a", Point(400, 200)), Occupant("b", Point(260, 10))}
  {
    var a := Occupant("a", Point(400, 200));
    var b := Occupant("b", Point(260, 10));
    var inner := QuadTree(Point(375, 125), None,
                          map[SouthEast := Leaf(Point(437, 187), a), NorthWest := Leaf(Point(312, 62), b)]);
    var t := QuadTree(Point(250, 250), None, map[NorthEast := inner]);
    assert Occupants(inner) == {a, b} by {
      assert SouthEast in inner.kids;
      OccupantsOfKids(inner);
      assert a in Occupants(inner.kids[SouthEast]);
      assert b in Occupants(inner.kids[NorthWest]);
    }
    assert Occupants(t) == {a, b} by {
      assert NorthEast in t.kids;
      OccupantsOfKids(t);
      var none: map<Quadrant, QuadTree> := map[];
      assert t.kids == none[NorthEast := inner];
      KidsOccupantsUpdate(none, NorthEast, inner);
      assert none - {NorthEast} == none;
      KidsOccupantsNone();
    }
    assert Ordered(inner);
    assert KidOrdered(t.centre, NorthEast, inner);
    t
  }

  /** Searching 20 steps south-east of (390, 190) should report "a" at
      (400, 200). At the node centred at (375, 125) the source compares the
      box's greatest y, 210, with the centre's x, 375, skips the south-east
      child and reports nothing. */
  lemma SouthEastTestMisses()
    ensures NamesInBox(Occupants(NorthEastTree()), FindXYRange(Point(390, 190), SE, 20)) == {"a"}
    ensures NamesInRangeAsWritten(NorthEastTree(), Point(390, 190), SE, 20) == []
    ensures Elements(NamesInRange(NorthEastTree(), Point(390, 190), SE, 20)) == {"a"}
  {
    SouthEastOnlyA();
    SouthEastWalkEmpty();
  }

  /** Of the two players, only "a" lies in the box. */
  lemma SouthEastOnlyA()
    ensures NamesInBox(Occupants(NorthEastTree()), FindXYRange(Point(390, 190), SE, 20)) == {"a"}
  {
    var b := FindXYRange(Point(390, 190), SE, 20);
    assert b == Box(Span(390, 410), Span(190, 210));
    NamesInBoxPair(Occupant("a", Point(400, 200)), Occupant("b", Point(260, 10)), b);
  }

  /** With the source's test, the walk visits only the north-east child and
      none of its quadrants. */
  lemma SouthEastWalkEmpty()
    ensures NamesInRangeAsWritten(NorthEastTree(), Point(390, 190), SE, 20) == []
  {
    var b := FindXYRange(Point(390, 190), SE, 20);
    assert b == Box(Span(390, 410), Span(190, 210));
    var t := NorthEastTree();
    assert t.kids.Keys == {NorthEast};
    var inner := t.kids[NorthEast];
    assert inner.centre == Point(375, 125) && !inner.IsLeaf();
    forall q ensures !Visits(inner.centre, b, q, AsWritten) {
    }
    assert Walk(inner, b, AsWritten) == [];
    assert Walk(t, b, AsWritten) == KidNames(t, b, NorthEast, AsWritten);
  }
}
