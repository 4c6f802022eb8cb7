/** Removal from the region quadtree by name (`remove`, `_remove_helper`) and
    by point (`remove_point`, `_remove_point_helper`), with the collapse of a
    node whose only child is a leaf (`_remove_promoter`). */
module QuadTreeRemoval {
  import opened Geometry
  import opened SpatialIndex
  import opened Quadrants
  import opened QuadTrees

  /** What removing by name achieves, as `Remove` states it. */
  ghost predicate Removed(t: QuadTree, name: string, r: QuadTree) {
    && Ordered(r) && r.centre == t.centre
    && RemovedOne(Occupants(t), name, Occupants(r))
    && (Compact(t) ==> Compact(r))
    && (Compact(t) && !HasName(Occupants(t), name) ==> r == t)
  }

  /** Put back child `q` after a removal below it left `x`: an emptied child
      is cut off, any other is collapsed if it kept a single leaf. */
  function Refill(t: QuadTree, q: Quadrant, x: QuadTree): QuadTree {
    if x.IsEmpty() then t.DropKid(q) else t.SetKid(q, Promote(x))
  }

  /** An ordered node stays ordered when the child of quadrant `q` loses
      some players, and it loses exactly those. */
  lemma RefillOrdered(t: QuadTree, q: Quadrant, x: QuadTree)
    requires Ordered(t) && q in t.kids
    requires Ordered(x) && Occupants(x) <= Occupants(t.kids[q])
    ensures Ordered(Refill(t, q, x))
    ensures Occupants(Refill(t, q, x)) == Occupants(t) - (Occupants(t.kids[q]) - Occupants(x))
  {
    if x.IsEmpty() {
      DropKidFacts(t, q);
      EmptyIffNoOccupants(x);
    } else {
      RefillKept(t, q, x);
    }
  }

  lemma RefillKept(t: QuadTree, q: Quadrant, x: QuadTree)
    requires Ordered(t) && q in t.kids && !x.IsEmpty()
    requires Ordered(x) && Occupants(x) <= Occupants(t.kids[q])
    ensures Ordered(t.SetKid(q, Promote(x)))
    ensures Occupants(t.SetKid(q, Promote(x))) == Occupants(t) - (Occupants(t.kids[q]) - Occupants(x))
  {
    PromoteOrdered(x);
    OrderedKid(t, q);
    SetKidOrdered(t, q, Promote(x));
    OccupantsOfKids(t);
    KidsOccupantsSplit(t.kids, q);
    DisjointKids(t, q);
  }

  /** Refilling keeps the node compact when the new child is compact. */
  lemma RefillCompact(t: QuadTree, q: Quadrant, x: QuadTree)
    requires Compact(t) && Compact(x)
    ensures forall q' :: q' in Refill(t, q, x).kids ==> Compact(Refill(t, q, x).kids[q'])
  {
    PromoteCompact(x);
  }

  /** Refilling keeps the node centred when the new child is centred. */
  lemma RefillCentred(t: QuadTree, k: Corners, q: Quadrant, x: QuadTree)
    requires Centred(t, k) && q in t.kids && t.occupant.None?
    requires Centred(x, CornerHelper(k, t.centre, q))
    ensures Centred(Refill(t, q, x), k)
  {
    if !x.IsEmpty() {
      PromoteCentred(x, CornerHelper(k, t.centre, q));
      SetKidCentred(t, k, q, Promote(x));
    }
  }

  /** `remove`: take out the player named `name`. A leaf holding it is
      emptied; a leaf child holding it is cut off; otherwise the first child
      in scan order that holds the name loses it; the node collapses when a
      single leaf child is left. Exactly one player with that name leaves
      the tree, when there is one, and no other. */
  function Remove(t: QuadTree, name: string): (r: QuadTree)
    requires Ordered(t)
    ensures Ordered(r) && r.centre == t.centre
    ensures HasName(Occupants(t), name) ==>
              exists o :: o in Occupants(t) && o.name == name && Occupants(r) == Occupants(t) - {o}
    ensures !HasName(Occupants(t), name) ==> Occupants(r) == Occupants(t)
    ensures Compact(t) ==> Compact(r)
    ensures Compact(t) && !HasName(Occupants(t), name) ==> r == t
    decreases t, 1
  {
    if t.IsLeaf() then
      if t.occupant.Some? && t.occupant.value.name == name then
        assert Occupants(t) == {t.occupant.value};
        t.(occupant := None)
      else
        t
    else
      match First(t, ScanOrder, LeafNamed(name))
      case Some(q) => RemoveLeafKid(t, q, name)
      case None =>
        match First(t, ScanOrder, Holds(name))
        case Some(q) => RemoveBelow(t, q, name)
        case None => RemoveAbsent(t, name)
  }

  /** The child of quadrant `q` is a leaf holding the name: cut it off. */
  function RemoveLeafKid(t: QuadTree, q: Quadrant, name: string): (r: QuadTree)
    requires Ordered(t) && q in t.kids && Matches(t.kids[q], LeafNamed(name))
    ensures Removed(t, name, r)
  {
    var o := t.kids[q].occupant.value;
    assert Occupants(t.kids[q]) == {o} && o in Occupants(t) by {
      OccupantsOfKids(t);
    }
    DropKidFacts(t, q);
    PromoteOrdered(t.DropKid(q));
    Promote(t.DropKid(q))
  }

  /** The name is held deeper below the child of quadrant `q`. */
  function RemoveBelow(t: QuadTree, q: Quadrant, name: string): (r: QuadTree)
    requires Ordered(t) && q in t.kids && ContainsName(t.kids[q], name)
    ensures Removed(t, name, r)
    decreases t, 0
  {
    OrderedKid(t, q);
    var x := Remove(t.kids[q], name);
    RemoveBelowFacts(t, q, name, x);
    Promote(Refill(t, q, x))
  }

  lemma RemoveBelowFacts(t: QuadTree, q: Quadrant, name: string, x: QuadTree)
    requires Ordered(t) && q in t.kids && ContainsName(t.kids[q], name)
    requires Removed(t.kids[q], name, x)
    ensures Removed(t, name, Promote(Refill(t, q, x)))
  {
    var o := RemoveBelowOccupants(t, q, name, x);
    assert HasName(Occupants(t), name);
    if Compact(t) {
      RefillCompact(t, q, x);
    }
  }

  /** The player leaving the child of quadrant `q` leaves the node. */
  lemma RemoveBelowOccupants(t: QuadTree, q: Quadrant, name: string, x: QuadTree) returns (o: Occupant)
    requires Ordered(t) && q in t.kids
    requires Ordered(x) && HasName(Occupants(t.kids[q]), name)
    requires RemovedOne(Occupants(t.kids[q]), name, Occupants(x))
    ensures o in Occupants(t) && o.name == name
    ensures Ordered(Promote(Refill(t, q, x)))
    ensures Occupants(Promote(Refill(t, q, x))) == Occupants(t) - {o}
  {
    var kid := t.kids[q];
    o :| o in Occupants(kid) && o.name == name && Occupants(x) == Occupants(kid) - {o};
    assert o in Occupants(t) by {
      OccupantsOfKids(t);
    }
    RefillOrdered(t, q, x);
    PromoteOrdered(Refill(t, q, x));
    LoseOne(Occupants(t), Occupants(kid), o);
  }

  /** No child holds the name: the node is only collapsed. */
  function RemoveAbsent(t: QuadTree, name: string): (r: QuadTree)
    requires Ordered(t) && !t.IsLeaf()
    requires forall q :: q in ScanOrder && q in t.kids ==> !Matches(t.kids[q], Holds(name))
    ensures Removed(t, name, r)
  {
    assert !HasName(Occupants(t), name) by {
      forall o | o in Occupants(t) ensures o.name != name {
        var q := KidOf(t, o);
        ScanOrderComplete(q);
        assert !Matches(t.kids[q], Holds(name));
        assert !ContainsName(t.kids[q], name);
      }
    }
    PromoteOrdered(t);
    Promote(t)
  }

  /** Removal by name keeps every node centred in its square. */
  lemma {:induction false} RemoveCentred(t: QuadTree, k: Corners, name: string)
    requires Ordered(t) && Centred(t, k)
    ensures Centred(Remove(t, name), k)
    decreases t
  {
    if !t.IsLeaf() {
      match First(t, ScanOrder, LeafNamed(name))
      case Some(q) =>
        PromoteCentred(t.DropKid(q), k);
      case None =>
        match First(t, ScanOrder, Holds(name))
        case Some(q) =>
          OrderedKid(t, q);
          var x := Remove(t.kids[q], name);
          RemoveCentred(t.kids[q], CornerHelper(k, t.centre, q), name);
          RefillCentred(t, k, q, x);
          PromoteCentred(Refill(t, q, x), k);
        case None =>
          PromoteCentred(t, k);
    }
  }

  /** Removal by name preserves the whole representation invariant. */
  lemma RemoveValid(t: QuadTree, name: string)
    requires Valid(t)
    ensures Valid(Remove(t, name))
    ensures Remove(t, name).centre == t.centre
  {
    RemoveCentred(t, RootCorners(t.centre), name);
  }

  /** When names are unique, exactly the player with the name leaves the
      tree, and the name is no longer found afterwards. */
  lemma RemoveUnique(t: QuadTree, name: string)
    requires Ordered(t) && UniqueNames(Occupants(t))
    ensures Occupants(Remove(t, name)) == WithoutName(Occupants(t), name)
    ensures !ContainsName(Remove(t, name), name)
  {
    var r := Remove(t, name);
    if HasName(Occupants(t), name) {
      var o :| o in Occupants(t) && o.name == name && Occupants(r) == Occupants(t) - {o};
      assert Occupants(r) == WithoutName(Occupants(t), name);
    }
  }

  /** `remove_point`: take out the player standing at `p`. A leaf holding it
      is emptied; a leaf child holding it is cut off; otherwise the point's
      quadrant child loses it. The result holds every other player and
      nothing else. When that quadrant has no child the point is not stored
      and nothing changes (see `RemovePointAsWritten` for the source's
      behaviour there). */
  function RemovePoint(t: QuadTree, p: Point): (r: QuadTree)
    requires Ordered(t)
    ensures Ordered(r) && r.centre == t.centre
    ensures Occupants(r) == WithoutPoint(Occupants(t), p)
    ensures Compact(t) ==> Compact(r)
    ensures Compact(t) && !HasPoint(Occupants(t), p) ==> r == t
    decreases t, 1
  {
    if t.IsLeaf() then
      if t.occupant.Some? && t.occupant.value.point == p then
        assert Occupants(t) == {t.occupant.value};
        t.(occupant := None)
      else
        t
    else
      match First(t, ScanOrder, LeafAt(p))
      case Some(q) => RemovePointLeafKid(t, q, p)
      case None =>
        var q := FindRegion(t.centre, p);
        if q in t.kids then RemovePointBelow(t, q, p) else RemovePointAbsent(t, p)
  }

  /** What removing by point achieves, as `RemovePoint` states it. */
  ghost predicate RemovedAt(t: QuadTree, p: Point, r: QuadTree) {
    && Ordered(r) && r.centre == t.centre
    && Occupants(r) == WithoutPoint(Occupants(t), p)
    && (Compact(t) ==> Compact(r))
    && (Compact(t) && !HasPoint(Occupants(t), p) ==> r == t)
  }

  /** The child of quadrant `q` is a leaf at `p`: cut it off. */
  function RemovePointLeafKid(t: QuadTree, q: Quadrant, p: Point): (r: QuadTree)
    requires Ordered(t) && q in t.kids && Matches(t.kids[q], LeafAt(p))
    ensures RemovedAt(t, p, r)
  {
    var o := t.kids[q].occupant.value;
    assert Occupants(t.kids[q]) == {o};
    assert Occupants(t) - {o} == WithoutPoint(Occupants(t), p) by {
      OccupantsOfKids(t);
      assert o in Occupants(t);
      OrderedUniquePoints(t);
    }
    DropKidFacts(t, q);
    PromoteOrdered(t.DropKid(q));
    Promote(t.DropKid(q))
  }

  /** The point lies below the child of its quadrant `q`. */
  function RemovePointBelow(t: QuadTree, q: Quadrant, p: Point): (r: QuadTree)
    requires Ordered(t) && !t.IsLeaf() && q == FindRegion(t.centre, p) && q in t.kids
    ensures RemovedAt(t, p, r)
    decreases t, 0
  {
    OrderedKid(t, q);
    var x := RemovePoint(t.kids[q], p);
    RemovePointBelowFacts(t, q, p, x);
    Promote(Refill(t, q, x))
  }

  lemma RemovePointBelowFacts(t: QuadTree, q: Quadrant, p: Point, x: QuadTree)
    requires Ordered(t) && !t.IsLeaf() && q == FindRegion(t.centre, p) && q in t.kids
    requires RemovedAt(t.kids[q], p, x)
    ensures RemovedAt(t, p, Promote(Refill(t, q, x)))
  {
    RemovePointBelowOccupants(t, q, p, x);
    if Compact(t) {
      RefillCompact(t, q, x);
      if !HasPoint(Occupants(t), p) {
        RemovePointBelowNothing(t, q, p, x);
      }
    }
  }

  lemma RemovePointBelowOccupants(t: QuadTree, q: Quadrant, p: Point, x: QuadTree)
    requires Ordered(t) && !t.IsLeaf() && q == FindRegion(t.centre, p) && q in t.kids
    requires Ordered(x) && Occupants(x) == WithoutPoint(Occupants(t.kids[q]), p)
    ensures Ordered(Promote(Refill(t, q, x)))
    ensures Occupants(Promote(Refill(t, q, x))) == WithoutPoint(Occupants(t), p)
  {
    var kid := t.kids[q];
    RefillOrdered(t, q, x);
    PromoteOrdered(Refill(t, q, x));
    forall o | o in Occupants(t) && o.point == p ensures o in Occupants(kid) {
      OccupantAt(t, o);
    }
    assert Occupants(kid) <= Occupants(t) by {
      OccupantsOfKids(t);
    }
  }

  /** Nothing is removed below a compact node that does not hold the point. */
  lemma RemovePointBelowNothing(t: QuadTree, q: Quadrant, p: Point, x: QuadTree)
    requires Ordered(t) && Compact(t) && q in t.kids
    requires !HasPoint(Occupants(t), p)
    requires !HasPoint(Occupants(t.kids[q]), p) ==> x == t.kids[q]
    ensures Promote(Refill(t, q, x)) == t
  {
    var kid := t.kids[q];
    OrderedKid(t, q);
    assert !HasPoint(Occupants(kid), p) by {
      OccupantsOfKids(t);
    }
    assert t.kids[q := kid] == t.kids;
  }

  /** The point's quadrant has no child, so the point is not stored. */
  function RemovePointAbsent(t: QuadTree, p: Point): (r: QuadTree)
    requires Ordered(t) && !t.IsLeaf() && FindRegion(t.centre, p) !in t.kids
    ensures RemovedAt(t, p, r)
  {
    assert !HasPoint(Occupants(t), p) by {
      forall o | o in Occupants(t) ensures o.point != p {
        OccupantAt(t, o);
      }
    }
    PromoteOrdered(t);
    Promote(t)
  }

  /** Removal by point keeps every node centred in its square. */
  lemma {:induction false} RemovePointCentred(t: QuadTree, k: Corners, p: Point)
    requires Ordered(t) && Centred(t, k)
    ensures Centred(RemovePoint(t, p), k)
    decreases t
  {
    if !t.IsLeaf() {
      match First(t, ScanOrder, LeafAt(p))
      case Some(q) =>
        PromoteCentred(t.DropKid(q), k);
      case None =>
        var q := FindRegion(t.centre, p);
        if q in t.kids {
          OrderedKid(t, q);
          var x := RemovePoint(t.kids[q], p);
          RemovePointCentred(t.kids[q], CornerHelper(k, t.centre, q), p);
          RefillCentred(t, k, q, x);
          PromoteCentred(Refill(t, q, x), k);
        } else {
          PromoteCentred(t, k);
        }
    }
  }

  /** Removal by point preserves the whole representation invariant. */
  lemma RemovePointValid(t: QuadTree, p: Point)
    requires Valid(t)
    ensures Valid(RemovePoint(t, p))
    ensures RemovePoint(t, p).centre == t.centre
  {
    RemovePointCentred(t, RootCorners(t.centre), p);
  }

  /** `remove_point` as written: `_remove_point_helper` follows the child of
      the point's quadrant without checking that it exists, so a point that
      is not stored can reach a missing child and raise an `AttributeError`,
      modelled as `None`. */
  function RemovePointAsWritten(t: QuadTree, p: Point): (r: Option<QuadTree>)
    decreases t
  {
    if t.IsLeaf() then
      if t.occupant.Some? && t.occupant.value.point == p then Some(t.(occupant := None)) else Some(t)
    else
      match First(t, ScanOrder, LeafAt(p))
      case Some(q) => Some(Promote(t.DropKid(q)))
      case None =>
        var q := FindRegion(t.centre, p);
        if q !in t.kids then None
        else
          match RemovePointAsWritten(t.kids[q], p)
          case None => None
          case Some(x) => Some(Promote(Refill(t, q, x)))
  }

  /** Whenever the source's `remove_point` returns, it does what
      `RemovePoint` does; and it returns for every stored point. */
  lemma {:induction false} RemovePointAsWrittenAgrees(t: QuadTree, p: Point)
    requires Ordered(t)
    ensures RemovePointAsWritten(t, p).Some? ==> RemovePointAsWritten(t, p).value == RemovePoint(t, p)
    ensures HasPoint(Occupants(t), p) ==> RemovePointAsWritten(t, p).Some?
    decreases t
  {
    if !t.IsLeaf() && First(t, ScanOrder, LeafAt(p)).None? {
      var q := FindRegion(t.centre, p);
      if q in t.kids {
        OrderedKid(t, q);
        RemovePointAsWrittenAgrees(t.kids[q], p);
        if HasPoint(Occupants(t), p) {
          var o :| o in Occupants(t) && o.point == p;
          OccupantAt(t, o);
        }
      } else if HasPoint(Occupants(t), p) {
        var o :| o in Occupants(t) && o.point == p;
        OccupantAt(t, o);
      }
    }
  }

  /** A tree centred at (250, 250) holding one player in its north-west and
      one in its south-east quadrant, as two insertions build it. */
  function TwoCornersTree(): (t: QuadTree)
    ensures Occupants(t) == {Occupant("a", Point(100, 100)), Occupant("b", Point(400, 400))}
    ensures Ordered(t) && Compact(t)
  {
    var a := Occupant("a", Point(100, 100));
    var b := Occupant("b", Point(400, 400));
    var t := QuadTree(Point(250, 250), None,
                      map[NorthWest := Leaf(Point(125, 125), a), SouthEast := Leaf(Point(375, 375), b)]);
    assert Occupants(t) == {a, b} by {
      OccupantsOfKids(t);
      assert a in Occupants(t.kids[NorthWest]);
      assert b in Occupants(t.kids[SouthEast]);
    }
    assert t.kids.Keys == {NorthWest, SouthEast};
    t
  }

  /** Removing the unoccupied point (400, 100) reaches the missing
      north-east child: the source fails. */
  lemma RemovePointAsWrittenFails()
    ensures !HasPoint(Occupants(TwoCornersTree()), Point(400, 100))
    ensures RemovePointAsWritten(TwoCornersTree(), Point(400, 100)).None?
  {
    var t := TwoCornersTree();
    var p := Point(400, 100);
    assert First(t, ScanOrder, LeafAt(p)).None? by {
      forall q | q in t.kids ensures !Matches(t.kids[q], LeafAt(p)) {
        assert t.kids[q].occupant.Some? && t.kids[q].occupant.value in Occupants(TwoCornersTree()) by {
          OccupantsOfKids(t);
        }
      }
      FirstNone(t, ScanOrder, LeafAt(p));
    }
    assert FindRegion(t.centre, p) == NorthEast && NorthEast !in t.kids;
  }

  /** The model leaves the tree as it is on the same input. */
  lemma RemovePointUnoccupied()
    ensures RemovePoint(TwoCornersTree(), Point(400, 100)) == TwoCornersTree()
  {
    assert !HasPoint(Occupants(TwoCornersTree()), Point(400, 100));
  }
}
