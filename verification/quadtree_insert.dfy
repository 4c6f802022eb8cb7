/** Insertion into the region quadtree (`QuadTree.insert` and
    `_insert_helper`). */
module QuadTreeInsertion {
  import opened Geometry
  import opened SpatialIndex
  import opened Quadrants
  import opened QuadTrees

  /** The leaf for occupant `o` that a node centred at `c` with square `k`
      hangs below itself: centred halfway to the corner of `o`'s quadrant. */
  function NewLeaf(c: Point, k: Corners, o: Occupant): QuadTree {
    Leaf(FindCentre(c, o.point, k), o)
  }

  /** A new leaf is a valid child for the quadrant of its occupant. */
  lemma NewLeafFacts(c: Point, k: Corners, o: Occupant)
    requires Rectangle(k) && c == Midpoint(k.nw, k.se) && InRectangle(o.point, k)
    ensures KidOrdered(c, FindRegion(c, o.point), NewLeaf(c, k, o))
    ensures Centred(NewLeaf(c, k, o), CornerHelper(k, c, FindRegion(c, o.point)))
    ensures Occupants(NewLeaf(c, k, o)) == {o}
    ensures Compact(NewLeaf(c, k, o))
  {
    var q := FindRegion(c, o.point);
    QuadrantCorners(k, c, q);
    QuadrantPartition(c, o.point, q);
  }

  /** What inserting `o` below a node with square `k` achieves: the result
      holds exactly the old players and `o`, keeps the centre and the
      invariant, and is non-empty; a non-empty node turns internal. */
  ghost predicate Inserted(t: QuadTree, k: Corners, o: Occupant, r: QuadTree) {
    && Ordered(r) && Centred(r, k)
    && Occupants(r) == Occupants(t) + {o}
    && r.centre == t.centre
    && !r.IsEmpty()
    && (!t.IsEmpty() ==> !r.IsLeaf())
    && (Compact(t) ==> Compact(r))
  }

  /** `_insert_helper`: store `o` in the tree whose square has corners `k`.
      An empty node takes the occupant; a leaf splits (`Demote`, `Split`);
      an internal node passes the occupant down (`Descend`). The result holds
      exactly the old players and `o`, and keeps the invariant. */
  function InsertHelper(t: QuadTree, k: Corners, o: Occupant): (r: QuadTree)
    requires Ordered(t) && Centred(t, k) && InRectangle(o.point, k)
    requires !HasPoint(Occupants(t), o.point)
    ensures Ordered(r) && Centred(r, k)
    ensures Occupants(r) == Occupants(t) + {o}
    ensures r.centre == t.centre
    ensures !r.IsEmpty()
    ensures !t.IsEmpty() ==> !r.IsLeaf()
    ensures Compact(t) ==> Compact(r)
    decreases Size(t), Width(k), 1
  {
    if t.IsEmpty() then
      t.(occupant := Some(o))
    else if t.IsLeaf() then
      if FindRegion(t.centre, t.occupant.value.point) == FindRegion(t.centre, o.point) then
        Demote(t, k, o)
      else
        Split(t, k, o)
    else
      Descend(t, k, o)
  }

  /** An emptied node with the single child `x` in quadrant `q`. */
  lemma SoleKid(c: Point, k: Corners, q: Quadrant, x: QuadTree)
    requires Rectangle(k) && c == Midpoint(k.nw, k.se)
    requires KidOrdered(c, q, x) && Centred(x, CornerHelper(k, c, q))
    ensures var r := EmptyTree(c).SetKid(q, x);
            Ordered(r) && Centred(r, k) && !r.IsLeaf() && Occupants(r) == Occupants(x)
  {
    SetKidFacts(EmptyTree(c), k, q, x);
    var none: map<Quadrant, QuadTree> := map[];
    assert EmptyTree(c).kids - {q} == none;
    KidsOccupantsNone();
  }

  /** A leaf whose occupant lies in the new point's quadrant: the occupant is
      moved into a new child of that quadrant and the insertion continues in
      the child, whose square is strictly smaller. */
  function Demote(t: QuadTree, k: Corners, o: Occupant): (r: QuadTree)
    requires Centred(t, k) && InRectangle(o.point, k)
    requires t.IsLeaf() && t.occupant.Some? && t.occupant.value.point != o.point
    requires FindRegion(t.centre, t.occupant.value.point) == FindRegion(t.centre, o.point)
    ensures Inserted(t, k, o, r)
    decreases Size(t), Width(k), 0
  {
    var c := t.centre;
    var q := FindRegion(c, o.point);
    DemoteReady(t, k, o);
    var child := InsertHelper(NewLeaf(c, k, t.occupant.value), CornerHelper(k, c, q), o);
    DemoteDone(t, k, o, child);
    EmptyTree(c).SetKid(q, child)
  }

  /** The demoted occupant's leaf satisfies the recursive call's
      precondition, in a strictly smaller square. */
  lemma DemoteReady(t: QuadTree, k: Corners, o: Occupant)
    requires Centred(t, k) && InRectangle(o.point, k)
    requires t.IsLeaf() && t.occupant.Some? && t.occupant.value.point != o.point
    requires FindRegion(t.centre, t.occupant.value.point) == FindRegion(t.centre, o.point)
    ensures var q := FindRegion(t.centre, o.point);
            var demoted := NewLeaf(t.centre, k, t.occupant.value);
            && Ordered(demoted) && Centred(demoted, CornerHelper(k, t.centre, q))
            && InRectangle(o.point, CornerHelper(k, t.centre, q))
            && !HasPoint(Occupants(demoted), o.point)
            && Size(demoted) == Size(t)
            && Width(CornerHelper(k, t.centre, q)) < Width(k)
  {
    var c := t.centre;
    var held := t.occupant.value;
    var q := FindRegion(c, o.point);
    QuadrantCorners(k, c, q);
    QuadrantPartition(c, o.point, q);
    NewLeafFacts(c, k, held);
    QuadrantShrinks(k, c, held.point, o.point);
  }

  lemma DemoteDone(t: QuadTree, k: Corners, o: Occupant, child: QuadTree)
    requires Centred(t, k) && InRectangle(o.point, k)
    requires t.IsLeaf() && t.occupant.Some?
    requires FindRegion(t.centre, t.occupant.value.point) == FindRegion(t.centre, o.point)
    requires Inserted(NewLeaf(t.centre, k, t.occupant.value),
                      CornerHelper(k, t.centre, FindRegion(t.centre, o.point)), o, child)
    ensures Inserted(t, k, o, EmptyTree(t.centre).SetKid(FindRegion(t.centre, o.point), child))
  {
    var c := t.centre;
    var held := t.occupant.value;
    var q := FindRegion(c, o.point);
    var r := EmptyTree(c).SetKid(q, child);
    NewLeafFacts(c, k, held);
    QuadrantPartition(c, o.point, q);
    assert KidOrdered(c, q, child);
    SoleKid(c, k, q, child);
    SetKidCompact(EmptyTree(c), q, child);
  }

  /** A leaf whose occupant lies in another quadrant than the new point: both
      become leaves below the emptied node. */
  function Split(t: QuadTree, k: Corners, o: Occupant): (r: QuadTree)
    requires Centred(t, k) && InRectangle(o.point, k)
    requires t.IsLeaf() && t.occupant.Some?
    requires FindRegion(t.centre, t.occupant.value.point) != FindRegion(t.centre, o.point)
    ensures Inserted(t, k, o, r)
  {
    SplitFacts(t, k, o);
    SplitNode(t.centre, k, t.occupant.value, o)
  }

  /** The node `Split` builds: the old occupant and the new one as leaves in
      their own quadrants below an emptied node. */
  function SplitNode(c: Point, k: Corners, held: Occupant, o: Occupant): QuadTree {
    EmptyTree(c)
      .SetKid(FindRegion(c, held.point), NewLeaf(c, k, held))
      .SetKid(FindRegion(c, o.point), NewLeaf(c, k, o))
  }

  lemma SplitFacts(t: QuadTree, k: Corners, o: Occupant)
    requires Centred(t, k) && InRectangle(o.point, k)
    requires t.IsLeaf() && t.occupant.Some?
    requires FindRegion(t.centre, t.occupant.value.point) != FindRegion(t.centre, o.point)
    ensures Inserted(t, k, o, SplitNode(t.centre, k, t.occupant.value, o))
  {
    var held := t.occupant.value;
    LeafFacts(t, k);
    SplitOrdered(t.centre, k, held, o);
    SplitCompact(t.centre, k, held, o);
    InsertedInternal(t, k, o, SplitNode(t.centre, k, held, o));
  }

  /** A centred leaf lies in its rectangle and holds just its occupant. */
  lemma LeafFacts(t: QuadTree, k: Corners)
    requires Centred(t, k) && t.IsLeaf() && t.occupant.Some?
    ensures Rectangle(k) && t.centre == Midpoint(k.nw, k.se) && InRectangle(t.occupant.value.point, k)
    ensures Occupants(t) == {t.occupant.value}
  {
  }

  /** An internal node with the right players, centre and invariants is a
      completed insertion. */
  lemma InsertedInternal(t: QuadTree, k: Corners, o: Occupant, r: QuadTree)
    requires Ordered(r) && Centred(r, k) && Compact(r) && !r.IsLeaf()
    requires Occupants(r) == Occupants(t) + {o} && r.centre == t.centre
    ensures Inserted(t, k, o, r)
  {
  }

  lemma SplitOrdered(c: Point, k: Corners, held: Occupant, o: Occupant)
    requires Rectangle(k) && c == Midpoint(k.nw, k.se)
    requires InRectangle(o.point, k) && InRectangle(held.point, k)
    requires FindRegion(c, held.point) != FindRegion(c, o.point)
    ensures var r := SplitNode(c, k, held, o);
            Ordered(r) && Centred(r, k) && !r.IsLeaf() && Occupants(r) == {held, o}
  {
    var q0 := FindRegion(c, held.point);
    var q := FindRegion(c, o.point);
    var t1 := EmptyTree(c).SetKid(q0, NewLeaf(c, k, held));
    assert Ordered(t1) && Centred(t1, k) && KidsOccupants(t1.kids - {q}) == {held} by {
      NewLeafFacts(c, k, held);
      SoleKid(c, k, q0, NewLeaf(c, k, held));
      assert t1.kids - {q} == t1.kids;
      OccupantsOfKids(t1);
    }
    NewLeafFacts(c, k, o);
    SetKidFacts(t1, k, q, NewLeaf(c, k, o));
  }

  lemma SplitCompact(c: Point, k: Corners, held: Occupant, o: Occupant)
    requires FindRegion(c, held.point) != FindRegion(c, o.point)
    ensures Compact(SplitNode(c, k, held, o))
  {
    var q0 := FindRegion(c, held.point);
    var q := FindRegion(c, o.point);
    var t1 := EmptyTree(c).SetKid(q0, NewLeaf(c, k, held));
    assert q0 in t1.kids - {q};
    SetKidCompact(t1, q, NewLeaf(c, k, o));
  }

  /** An internal node: the occupant goes to the child of its quadrant, which
      is created as a leaf when missing. */
  function Descend(t: QuadTree, k: Corners, o: Occupant): (r: QuadTree)
    requires Ordered(t) && Centred(t, k) && InRectangle(o.point, k)
    requires !HasPoint(Occupants(t), o.point)
    requires !t.IsLeaf()
    ensures Inserted(t, k, o, r)
    decreases Size(t), Width(k), 0
  {
    var q := FindRegion(t.centre, o.point);
    var x :=
      if q in t.kids then
        DescendReady(t, k, o);
        InsertHelper(t.kids[q], CornerHelper(k, t.centre, q), o)
      else
        NewLeaf(t.centre, k, o);
    DescendDone(t, k, o, x);
    t.SetKid(q, x)
  }

  /** The child of the new point's quadrant satisfies the recursive call's
      precondition. */
  lemma DescendReady(t: QuadTree, k: Corners, o: Occupant)
    requires Ordered(t) && Centred(t, k) && InRectangle(o.point, k)
    requires !HasPoint(Occupants(t), o.point)
    requires !t.IsLeaf() && FindRegion(t.centre, o.point) in t.kids
    ensures var q := FindRegion(t.centre, o.point);
            && Ordered(t.kids[q]) && Centred(t.kids[q], CornerHelper(k, t.centre, q))
            && InRectangle(o.point, CornerHelper(k, t.centre, q))
            && !HasPoint(Occupants(t.kids[q]), o.point)
            && Size(t.kids[q]) < Size(t)
  {
    var q := FindRegion(t.centre, o.point);
    QuadrantCorners(k, t.centre, q);
    QuadrantPartition(t.centre, o.point, q);
    KidSmaller(t, q);
    OrderedKid(t, q);
    OccupantsOfKids(t);
    KidsOccupantsSplit(t.kids, q);
  }

  lemma DescendDone(t: QuadTree, k: Corners, o: Occupant, x: QuadTree)
    requires Ordered(t) && Centred(t, k) && InRectangle(o.point, k)
    requires !HasPoint(Occupants(t), o.point)
    requires !t.IsLeaf()
    requires var q := FindRegion(t.centre, o.point);
             if q in t.kids then Inserted(t.kids[q], CornerHelper(k, t.centre, q), o, x)
             else x == NewLeaf(t.centre, k, o)
    ensures Inserted(t, k, o, t.SetKid(FindRegion(t.centre, o.point), x))
  {
    var q := FindRegion(t.centre, o.point);
    var r := t.SetKid(q, x);
    var others := KidsOccupants(t.kids - {q});
    DescendKid(t, k, o, x);
    assert Ordered(r) && Centred(r, k) && !r.IsLeaf() && Occupants(r) == Occupants(x) + others by {
      SetKidFacts(t, k, q, x);
    }
    assert Compact(t) ==> Compact(r) by {
      SetKidCompact(t, q, x);
    }
    SetAlgebra(Occupants(t), others, Occupants(x), o);
  }

  /** The new child of the new point's quadrant fits in its place. */
  lemma DescendKid(t: QuadTree, k: Corners, o: Occupant, x: QuadTree)
    requires Ordered(t) && Centred(t, k) && InRectangle(o.point, k)
    requires !HasPoint(Occupants(t), o.point)
    requires !t.IsLeaf()
    requires var q := FindRegion(t.centre, o.point);
             if q in t.kids then Inserted(t.kids[q], CornerHelper(k, t.centre, q), o, x)
             else x == NewLeaf(t.centre, k, o)
    ensures var q := FindRegion(t.centre, o.point);
            var others := KidsOccupants(t.kids - {q});
            && KidOrdered(t.centre, q, x) && Centred(x, CornerHelper(k, t.centre, q))
            && Occupants(x) == Occupants(t) - others + {o} && others <= Occupants(t)
            && (Compact(t) ==> Compact(x))
            && (!x.IsLeaf() || t.kids - {q} != map[])
  {
    if FindRegion(t.centre, o.point) in t.kids {
      DescendIntoKid(t, k, o, x);
    } else {
      DescendToNewLeaf(t, k, o);
    }
  }

  /** The child of the new point's quadrant, with the point inserted, fits
      back in its place. */
  lemma DescendIntoKid(t: QuadTree, k: Corners, o: Occupant, x: QuadTree)
    requires Ordered(t) && Centred(t, k) && InRectangle(o.point, k)
    requires !HasPoint(Occupants(t), o.point)
    requires !t.IsLeaf()
    requires var q := FindRegion(t.centre, o.point);
             q in t.kids && Inserted(t.kids[q], CornerHelper(k, t.centre, q), o, x)
    ensures var q := FindRegion(t.centre, o.point);
            var others := KidsOccupants(t.kids - {q});
            && KidOrdered(t.centre, q, x) && Centred(x, CornerHelper(k, t.centre, q))
            && Occupants(x) == Occupants(t) - others + {o} && others <= Occupants(t)
            && (Compact(t) ==> Compact(x))
            && (!x.IsLeaf() || t.kids - {q} != map[])
  {
    var c := t.centre;
    var q := FindRegion(c, o.point);
    QuadrantPartition(c, o.point, q);
    OccupantsOfKids(t);
    OrderedKid(t, q);
    KidsOccupantsSplit(t.kids, q);
    DisjointKids(t, q);
  }

  /** A new leaf fills the missing child of the new point's quadrant. */
  lemma DescendToNewLeaf(t: QuadTree, k: Corners, o: Occupant)
    requires Ordered(t) && Centred(t, k) && InRectangle(o.point, k)
    requires !HasPoint(Occupants(t), o.point)
    requires !t.IsLeaf()
    requires FindRegion(t.centre, o.point) !in t.kids
    ensures var q := FindRegion(t.centre, o.point);
            var others := KidsOccupants(t.kids - {q});
            && KidOrdered(t.centre, q, NewLeaf(t.centre, k, o)) && Centred(NewLeaf(t.centre, k, o), CornerHelper(k, t.centre, q))
            && Occupants(NewLeaf(t.centre, k, o)) == Occupants(t) - others + {o} && others <= Occupants(t)
            && (Compact(t) ==> Compact(NewLeaf(t.centre, k, o)))
            && (!NewLeaf(t.centre, k, o).IsLeaf() || t.kids - {q} != map[])
  {
    var c := t.centre;
    var q := FindRegion(c, o.point);
    NewLeafFacts(c, k, o);
    OccupantsOfKids(t);
    assert t.kids - {q} == t.kids;
  }

  /** `insert`: store a player named `name` at `p`. The insertion fails, and
      the caller keeps the old tree, exactly when `p` lies outside the field
      or another player already stands there; otherwise the new tree holds
      the old players and the new one and keeps the invariant. */
  function Insert(t: QuadTree, name: string, p: Point): (r: Result<QuadTree>)
    requires Valid(t)
    ensures r.OutOfBounds? <==> !InBounds(t.centre, p) || HasPoint(Occupants(t), p)
    ensures r.Ok? ==> && Valid(r.value)
                      && r.value.centre == t.centre
                      && Occupants(r.value) == Occupants(t) + {Occupant(name, p)}
  {
    if !InBounds(t.centre, p) || ContainsPoint(t, p) then OutOfBounds
    else
      RootCornersFacts(t.centre);
      Ok(InsertHelper(t, RootCorners(t.centre), Occupant(name, p)))
  }
}
