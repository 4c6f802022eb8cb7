/** The region quadtree (`QuadTree` in trees.py): its nodes, the
    representation invariant, collapsing a node with a single leaf child
    (`_remove_promoter`), and the read-only queries (`__contains__`,
    `contains_point`, `_find_point`, `_find_name`, `size`, `height`). */
module QuadTrees {
  import opened Geometry
  import opened SpatialIndex
  import opened Quadrants

  /** A node: its centre, the occupant of a leaf, and its children keyed by
      quadrant. A quadrant without a key is a missing child (`None` in the
      source's four child attributes). */
  datatype QuadTree = QuadTree(centre: Point, occupant: Option<Occupant>, kids: map<Quadrant, QuadTree>)
  {
    /** `is_leaf`: the node has no children. */
    predicate IsLeaf() {
      kids == map[]
    }

    /** `is_empty`: a leaf without an occupant. */
    predicate IsEmpty() {
      occupant.None? && IsLeaf()
    }

    function SetKid(q: Quadrant, x: QuadTree): QuadTree {
      this.(kids := kids[q := x])
    }

    function DropKid(q: Quadrant): QuadTree {
      this.(kids := kids - {q})
    }
  }

  /** `QuadTree(centre)`: a node with neither occupant nor children. */
  function EmptyTree(c: Point): QuadTree {
    QuadTree(c, None, map[])
  }

  function Leaf(c: Point, o: Occupant): QuadTree {
    QuadTree(c, Some(o), map[])
  }

  /** The order in which removal and `_find_point` visit the children. */
  const ScanOrder: seq<Quadrant> := [NorthWest, NorthEast, SouthWest, SouthEast]

  lemma ScanOrderComplete(q: Quadrant)
    ensures q in ScanOrder
  {
  }

  /** `size`: the number of nodes, counting an empty root as one. A tree
      has exactly one node when it is a leaf, and more otherwise. */
  function Size(t: QuadTree): (s: nat)
    ensures s >= 1
    ensures s == 1 <==> t.IsLeaf()
    decreases t, 1
  {
    SomeKid(t);
    1 + KidSize(t, NorthEast) + KidSize(t, NorthWest) + KidSize(t, SouthEast) + KidSize(t, SouthWest)
  }

  function KidSize(t: QuadTree, q: Quadrant): nat
    decreases t, 0
  {
    if q in t.kids then Size(t.kids[q]) else 0
  }

  /** A node that is not a leaf has a child in one of the four quadrants. */
  lemma SomeKid(t: QuadTree)
    ensures !t.IsLeaf() ==>
              NorthEast in t.kids || NorthWest in t.kids || SouthEast in t.kids || SouthWest in t.kids
  {
    if !t.IsLeaf() {
      var q :| q in t.kids;
      match q
      case NorthEast =>
      case NorthWest =>
      case SouthEast =>
      case SouthWest =>
    }
  }

  /** Every child is strictly smaller than its parent. */
  lemma KidSmaller(t: QuadTree, q: Quadrant)
    requires q in t.kids
    ensures Size(t.kids[q]) < Size(t)
  {
  }

  /** `height`: the number of nodes on a longest path from the root. A tree
      is one node high when it is a leaf, and higher otherwise. */
  function Height(t: QuadTree): (h: nat)
    ensures h >= 1
    ensures h == 1 <==> t.IsLeaf()
    decreases t, 1
  {
    SomeKid(t);
    if t.IsLeaf() then 1
    else 1 + Max(Max(KidHeight(t, NorthEast), KidHeight(t, NorthWest)),
                 Max(KidHeight(t, SouthEast), KidHeight(t, SouthWest)))
  }

  function KidHeight(t: QuadTree, q: Quadrant): nat
    decreases t, 0
  {
    if q in t.kids then Height(t.kids[q]) else 0
  }

  /** A tree is at least one node high and never higher than it has nodes. */
  lemma {:induction false} HeightBounds(t: QuadTree)
    ensures 1 <= Height(t) <= Size(t)
    decreases t
  {
    forall q | q in t.kids ensures Height(t.kids[q]) <= Size(t.kids[q]) {
      HeightBounds(t.kids[q]);
    }
  }

  function OccupantSet(o: Option<Occupant>): set<Occupant> {
    if o.Some? then {o.value} else {}
  }

  /** The players stored in the tree. As in `__contains__`, only a leaf's
      occupant counts; an internal node holds what its children hold. */
  function Occupants(t: QuadTree): set<Occupant>
    decreases t
  {
    if t.IsLeaf() then OccupantSet(t.occupant)
    else set q, o | q in t.kids && o in Occupants(t.kids[q]) :: o
  }

  /** The players stored below a set of children. */
  function KidsOccupants(m: map<Quadrant, QuadTree>): set<Occupant> {
    set q, o | q in m && o in Occupants(m[q]) :: o
  }

  lemma OccupantsOfKids(t: QuadTree)
    requires !t.IsLeaf()
    ensures Occupants(t) == KidsOccupants(t.kids)
  {
  }

  lemma KidsOccupantsNone()
    ensures KidsOccupants(map[]) == {}
  {
  }

  /** The children's players are those of one child plus those of the rest. */
  lemma KidsOccupantsSplit(m: map<Quadrant, QuadTree>, q: Quadrant)
    requires q in m
    ensures KidsOccupants(m) == Occupants(m[q]) + KidsOccupants(m - {q})
  {
    forall o | o in KidsOccupants(m) ensures o in Occupants(m[q]) + KidsOccupants(m - {q}) {
      var q' :| q' in m && o in Occupants(m[q']);
      if q' != q {
        assert q' in m - {q} && (m - {q})[q'] == m[q'];
      }
    }
  }

  lemma KidsOccupantsUpdate(m: map<Quadrant, QuadTree>, q: Quadrant, x: QuadTree)
    ensures KidsOccupants(m[q := x]) == Occupants(x) + KidsOccupants(m - {q})
  {
    KidsOccupantsSplit(m[q := x], q);
    assert m[q := x] - {q} == m - {q};
  }

  /** Some child of an internal node holds each of its players. */
  lemma KidOf(t: QuadTree, o: Occupant) returns (q: Quadrant)
    requires !t.IsLeaf() && o in Occupants(t)
    ensures q in t.kids && o in Occupants(t.kids[q])
  {
    q :| q in t.kids && o in Occupants(t.kids[q]);
  }

  /** Each child of an internal node is non-empty, is itself ordered, and
      holds only points of its own quadrant. */
  ghost predicate KidOrdered(c: Point, q: Quadrant, x: QuadTree)
    decreases x, 1
  {
    && !x.IsEmpty()
    && Ordered(x)
    && forall o :: o in Occupants(x) ==> InQuadrant(c, q, o.point)
  }

  /** The ordering part of the representation invariant (trees.py:186-205):
      only leaves hold an occupant, every non-root node is non-empty, and a
      player stored below a node lies in the quadrant that comparing its
      point with the node's centre selects. */
  ghost predicate Ordered(t: QuadTree)
    decreases t, 0
  {
    !t.IsLeaf() ==>
      && t.occupant.None?
      && forall q :: q in t.kids ==> KidOrdered(t.centre, q, t.kids[q])
  }

  /** The geometric part of the representation invariant (trees.py:193-198):
      the corners span a rectangle with non-negative coordinates, the centre
      is its midpoint rounded down, a leaf's occupant lies inside it, and each
      child is centred in its quadrant's rectangle. */
  ghost predicate Centred(t: QuadTree, k: Corners)
    decreases t
  {
    && Rectangle(k)
    && t.centre == Midpoint(k.nw, k.se)
    && (t.occupant.Some? ==> InRectangle(t.occupant.value.point, k))
    && forall q :: q in t.kids ==> Centred(t.kids[q], CornerHelper(k, t.centre, q))
  }

  /** The node has exactly one child, and that child is a leaf: the shape
      `_remove_promoter` collapses. */
  predicate SoleLeafChild(t: QuadTree) {
    |t.kids| == 1 && forall q :: q in t.kids ==> t.kids[q].IsLeaf()
  }

  /** No node has a single child that is a leaf. */
  ghost predicate Compact(t: QuadTree)
    decreases t
  {
    && !SoleLeafChild(t)
    && forall q :: q in t.kids ==> Compact(t.kids[q])
  }

  /** The full representation invariant of a tree whose root is centred at
      `t.centre` and whose field is the root square. */
  ghost predicate Valid(t: QuadTree) {
    Ordered(t) && Centred(t, RootCorners(t.centre)) && Compact(t)
  }

  /** The empty tree of a non-negative centre satisfies the invariant. */
  lemma EmptyValid(c: Point)
    requires 0 <= c.x && 0 <= c.y
    ensures Valid(EmptyTree(c)) && Occupants(EmptyTree(c)) == {}
  {
    RootCornersFacts(c);
  }

  /** A map with a single entry has a single key. */
  lemma SingleKey<V>(m: map<Quadrant, V>, q1: Quadrant, q2: Quadrant)
    requires |m| == 1 && q1 in m && q2 in m
    ensures q1 == q2
  {
    var rest := m.Keys - {q1};
    assert |rest| == 0;
    assert q2 !in rest;
  }

  /** A node whose children, apart from `q`, are all ordered stays ordered,
      with the players of the new child added, when child `q` is set to an
      ordered tree of that quadrant. */
  lemma SetKidOrdered(t: QuadTree, q: Quadrant, x: QuadTree)
    requires t.occupant.None?
    requires forall q' :: q' in t.kids && q' != q ==> KidOrdered(t.centre, q', t.kids[q'])
    requires KidOrdered(t.centre, q, x)
    ensures Ordered(t.SetKid(q, x))
    ensures Occupants(t.SetKid(q, x)) == Occupants(x) + KidsOccupants(t.kids - {q})
    ensures !t.SetKid(q, x).IsLeaf()
  {
    var r := t.SetKid(q, x);
    assert q in r.kids;
    OccupantsOfKids(r);
    KidsOccupantsUpdate(t.kids, q, x);
  }

  /** Setting child `q` to a tree centred in that quadrant's rectangle keeps
      a node centred. */
  lemma SetKidCentred(t: QuadTree, k: Corners, q: Quadrant, x: QuadTree)
    requires t.occupant.None?
    requires Rectangle(k) && t.centre == Midpoint(k.nw, k.se)
    requires forall q' :: q' in t.kids && q' != q ==> Centred(t.kids[q'], CornerHelper(k, t.centre, q'))
    requires Centred(x, CornerHelper(k, t.centre, q))
    ensures Centred(t.SetKid(q, x), k)
  {
  }

  /** Both of the above. */
  lemma SetKidFacts(t: QuadTree, k: Corners, q: Quadrant, x: QuadTree)
    requires t.occupant.None?
    requires Rectangle(k) && t.centre == Midpoint(k.nw, k.se)
    requires forall q' :: q' in t.kids && q' != q ==> KidOrdered(t.centre, q', t.kids[q'])
    requires forall q' :: q' in t.kids && q' != q ==> Centred(t.kids[q'], CornerHelper(k, t.centre, q'))
    requires KidOrdered(t.centre, q, x) && Centred(x, CornerHelper(k, t.centre, q))
    ensures Ordered(t.SetKid(q, x)) && Centred(t.SetKid(q, x), k)
    ensures Occupants(t.SetKid(q, x)) == Occupants(x) + KidsOccupants(t.kids - {q})
    ensures !t.SetKid(q, x).IsLeaf()
  {
    SetKidOrdered(t, q, x);
    SetKidCentred(t, k, q, x);
  }

  /** Setting a child keeps a node compact when the new child is compact and
      is internal or has a sibling. */
  lemma SetKidCompact(t: QuadTree, q: Quadrant, x: QuadTree)
    requires !x.IsLeaf() || t.kids - {q} != map[]
    ensures (forall q' :: q' in t.kids && q' != q ==> Compact(t.kids[q'])) && Compact(x) ==> Compact(t.SetKid(q, x))
  {
    var r := t.SetKid(q, x);
    if (forall q' :: q' in t.kids && q' != q ==> Compact(t.kids[q'])) && Compact(x) {
      assert forall q' :: q' in r.kids ==> Compact(r.kids[q']);
      if x.IsLeaf() {
        var q' :| q' in t.kids - {q};
        assert q' in r.kids && q in r.kids;
        if |r.kids| == 1 {
          SingleKey(r.kids, q, q');
        }
      } else {
        assert q in r.kids && !r.kids[q].IsLeaf();
      }
    }
  }

  /** Removing child `q` keeps a node ordered, without the players of that
      child. */
  lemma DropKidFacts(t: QuadTree, q: Quadrant)
    requires Ordered(t) && q in t.kids
    ensures Ordered(t.DropKid(q))
    ensures Occupants(t.DropKid(q)) == Occupants(t) - Occupants(t.kids[q])
  {
    var r := t.DropKid(q);
    OccupantsOfKids(t);
    KidsOccupantsSplit(t.kids, q);
    if r.IsLeaf() {
      assert r.kids == t.kids - {q};
      KidsOccupantsNone();
    } else {
      OccupantsOfKids(r);
    }
    DisjointKids(t, q);
  }

  /** Distinct children of an ordered node hold disjoint sets of players. */
  lemma DisjointKids(t: QuadTree, q: Quadrant)
    requires Ordered(t) && q in t.kids
    ensures forall o :: o in Occupants(t.kids[q]) ==> o !in KidsOccupants(t.kids - {q})
  {
    forall o | o in Occupants(t.kids[q]) ensures o !in KidsOccupants(t.kids - {q}) {
      if o in KidsOccupants(t.kids - {q}) {
        var q' :| q' in t.kids - {q} && o in Occupants(t.kids[q']);
        assert InQuadrant(t.centre, q, o.point) && InQuadrant(t.centre, q', o.point);
        QuadrantPartition(t.centre, o.point, q);
        QuadrantPartition(t.centre, o.point, q');
      }
    }
  }

  lemma OrderedKid(t: QuadTree, q: Quadrant)
    requires Ordered(t) && q in t.kids
    ensures KidOrdered(t.centre, q, t.kids[q]) && Ordered(t.kids[q]) && !t.kids[q].IsEmpty()
  {
  }

  /** In an ordered tree, a player at `p` can only be stored under the child
      of `p`'s quadrant. */
  lemma OccupantAt(t: QuadTree, o: Occupant)
    requires Ordered(t) && !t.IsLeaf() && o in Occupants(t)
    ensures FindRegion(t.centre, o.point) in t.kids
    ensures o in Occupants(t.kids[FindRegion(t.centre, o.point)])
  {
    var q := KidOf(t, o);
    QuadrantPartition(t.centre, o.point, q);
  }

  /** An ordered node is empty exactly when it stores no player. */
  lemma {:induction false} EmptyIffNoOccupants(t: QuadTree)
    requires Ordered(t)
    ensures t.IsEmpty() <==> Occupants(t) == {}
    decreases t
  {
    if !t.IsLeaf() {
      var q :| q in t.kids;
      EmptyIffNoOccupants(t.kids[q]);
      var o :| o in Occupants(t.kids[q]);
      assert o in Occupants(t);
    }
  }

  /** Every player of a centred tree lies inside its square. */
  lemma {:induction false} CentredInside(t: QuadTree, k: Corners)
    requires Centred(t, k)
    ensures forall o :: o in Occupants(t) ==> InRectangle(o.point, k)
    decreases t
  {
    forall o | o in Occupants(t) ensures InRectangle(o.point, k) {
      if !t.IsLeaf() {
        var q := KidOf(t, o);
        QuadrantCorners(k, t.centre, q);
        CentredInside(t.kids[q], CornerHelper(k, t.centre, q));
      }
    }
  }

  /** No two players of an ordered tree share a point. */
  lemma {:induction false} OrderedUniquePoints(t: QuadTree)
    requires Ordered(t)
    ensures UniquePoints(Occupants(t))
    decreases t
  {
    if !t.IsLeaf() {
      forall o1, o2 | o1 in Occupants(t) && o2 in Occupants(t) && o1.point == o2.point
        ensures o1 == o2
      {
        OccupantAt(t, o1);
        OccupantAt(t, o2);
        OrderedUniquePoints(t.kids[FindRegion(t.centre, o1.point)]);
      }
    }
  }

  /** A non-empty map has a key. */
  lemma SomeKey<V>(m: map<Quadrant, V>) returns (q: Quadrant)
    requires |m| >= 1
    ensures q in m
  {
    assert |m.Keys| == |m|;
    q :| q in m.Keys;
  }

  /** The only child of a node with exactly one, looked up in scan order. */
  function SoleKey(t: QuadTree): (q: Quadrant)
    requires |t.kids| == 1
    ensures q in t.kids
  {
    assert NorthWest in t.kids || NorthEast in t.kids || SouthWest in t.kids || SouthEast in t.kids by {
      var q := SomeKey(t.kids);
      assert q.NorthWest? || q.NorthEast? || q.SouthWest? || q.SouthEast?;
    }
    if NorthWest in t.kids then NorthWest
    else if NorthEast in t.kids then NorthEast
    else if SouthWest in t.kids then SouthWest
    else SouthEast
  }

  /** `_remove_promoter`: a node whose only child is a leaf takes over that
      leaf's occupant and drops its children; any other node is unchanged.
      The players stay the same and the result never has a sole leaf child. */
  function Promote(t: QuadTree): (r: QuadTree)
    ensures Occupants(r) == Occupants(t)
    ensures r.centre == t.centre
    ensures !SoleLeafChild(r)
    ensures r == t || (SoleLeafChild(t) && r.IsLeaf())
  {
    if SoleLeafChild(t) then
      var x := t.kids[SoleKey(t)];
      assert Occupants(t) == Occupants(x) by {
        forall o | o in Occupants(t) ensures o in Occupants(x) {
          var q :| q in t.kids && o in Occupants(t.kids[q]);
          SingleKey(t.kids, q, SoleKey(t));
        }
      }
      QuadTree(t.centre, x.occupant, map[])
    else
      t
  }

  /** Promotion keeps the ordering invariant, and a non-empty ordered
      node stays non-empty. */
  lemma PromoteOrdered(t: QuadTree)
    requires Ordered(t)
    ensures Ordered(Promote(t))
    ensures !t.IsEmpty() ==> !Promote(t).IsEmpty()
  {
    if SoleLeafChild(t) {
      OrderedKid(t, SoleKey(t));
    }
  }

  /** Promotion keeps a node centred: the promoted occupant lies in the
      child's square, which lies in the node's. */
  lemma PromoteCentred(t: QuadTree, k: Corners)
    requires Centred(t, k)
    ensures Centred(Promote(t), k)
  {
    if SoleLeafChild(t) {
      var q := SoleKey(t);
      QuadrantCorners(k, t.centre, q);
    }
  }

  /** A node whose children are compact is compact once promoted. */
  lemma PromoteCompact(t: QuadTree)
    requires forall q :: q in t.kids ==> Compact(t.kids[q])
    ensures Compact(Promote(t))
  {
  }

  /** `__contains__`: true exactly when some stored player has the name.
      The search visits every child, so it needs no invariant. */
  function ContainsName(t: QuadTree, name: string): (r: bool)
    ensures r <==> HasName(Occupants(t), name)
    decreases t
  {
    if t.IsEmpty() then false
    else if t.IsLeaf() then t.occupant.value.name == name
    else
      var r := exists q | q in t.kids :: ContainsName(t.kids[q], name);
      assert r <==> HasName(Occupants(t), name) by {
        if HasName(Occupants(t), name) {
          var o :| o in Occupants(t) && o.name == name;
          var q := KidOf(t, o);
          assert ContainsName(t.kids[q], name);
        }
      }
      r
  }

  /** `contains_point`: descends only into the quadrant of `p`, and is true
      exactly when some stored player stands at `p`. */
  function ContainsPoint(t: QuadTree, p: Point): (r: bool)
    requires Ordered(t)
    ensures r <==> HasPoint(Occupants(t), p)
    decreases t
  {
    if t.IsEmpty() then false
    else if t.IsLeaf() then t.occupant.value.point == p
    else
      var q := FindRegion(t.centre, p);
      assert HasPoint(Occupants(t), p) ==> q in t.kids && HasPoint(Occupants(t.kids[q]), p) by {
        if HasPoint(Occupants(t), p) {
          var o :| o in Occupants(t) && o.point == p;
          OccupantAt(t, o);
        }
      }
      if q !in t.kids then false
      else
        OrderedKid(t, q);
        ContainsPoint(t.kids[q], p)
  }

  /** What a removal or `_find_point` looks for in a child. */
  datatype Probe = LeafNamed(name: string) | Holds(name: string) | LeafAt(p: Point)

  predicate Matches(x: QuadTree, probe: Probe) {
    match probe
    case LeafNamed(n) => x.IsLeaf() && x.occupant.Some? && x.occupant.value.name == n
    case Holds(n) => ContainsName(x, n)
    case LeafAt(p) => x.IsLeaf() && x.occupant.Some? && x.occupant.value.point == p
  }

  /** The first quadrant in `order` whose child matches `probe`. */
  function First(t: QuadTree, order: seq<Quadrant>, probe: Probe): (r: Option<Quadrant>)
    ensures r.Some? ==> r.value in order && r.value in t.kids && Matches(t.kids[r.value], probe)
    ensures r.None? ==> forall q :: q in order && q in t.kids ==> !Matches(t.kids[q], probe)
    decreases |order|
  {
    if order == [] then None
    else if order[0] in t.kids && Matches(t.kids[order[0]], probe) then Some(order[0])
    else First(t, order[1..], probe)
  }

  /** When no child matches, the search finds nothing. */
  lemma {:induction false} FirstNone(t: QuadTree, order: seq<Quadrant>, probe: Probe)
    requires forall q :: q in t.kids ==> !Matches(t.kids[q], probe)
    ensures First(t, order, probe).None?
    decreases |order|
  {
    if order != [] {
      FirstNone(t, order[1..], probe);
    }
  }

  /** `_find_point`: the point of the first player named `name`, searching
      the children in scan order. */
  function FindPoint(t: QuadTree, name: string): (r: Option<Point>)
    ensures r.Some? <==> HasName(Occupants(t), name)
    ensures r.Some? ==> Occupant(name, r.value) in Occupants(t)
    decreases t
  {
    if t.IsEmpty() then None
    else if t.IsLeaf() then
      if t.occupant.value.name == name then Some(t.occupant.value.point) else None
    else
      match First(t, ScanOrder, Holds(name))
      case Some(q) => FindPoint(t.kids[q], name)
      case None =>
        assert !HasName(Occupants(t), name) by {
          forall o | o in Occupants(t) ensures o.name != name {
            var q := KidOf(t, o);
            ScanOrderComplete(q);
          }
        }
        None
  }

  /** `_find_name`: the name of the player at `p`, descending only into the
      quadrant of `p`. The source dereferences a missing child here; its only
      caller asks about points the tree holds, where that child exists, and
      the model answers `None` instead. */
  function FindName(t: QuadTree, p: Point): (r: Option<string>)
    requires Ordered(t)
    ensures r.Some? ==> Occupant(r.value, p) in Occupants(t)
    ensures r.Some? <==> HasPoint(Occupants(t), p)
    decreases t
  {
    if t.IsEmpty() then None
    else if t.IsLeaf() then
      if t.occupant.value.point == p then Some(t.occupant.value.name) else None
    else
      var q := FindRegion(t.centre, p);
      assert HasPoint(Occupants(t), p) ==> q in t.kids && HasPoint(Occupants(t.kids[q]), p) by {
        if HasPoint(Occupants(t), p) {
          var o :| o in Occupants(t) && o.point == p;
          OccupantAt(t, o);
        }
      }
      if q !in t.kids then None
      else
        OrderedKid(t, q);
        FindName(t.kids[q], p)
  }

  function KidOccupantsOf(t: QuadTree, q: Quadrant): set<Occupant> {
    if q in t.kids then Occupants(t.kids[q]) else {}
  }

  /** The players of an internal node are those of its four quadrants. */
  lemma OccupantsByQuadrant(t: QuadTree)
    requires !t.IsLeaf()
    ensures Occupants(t) == KidOccupantsOf(t, NorthEast) + KidOccupantsOf(t, NorthWest)
                            + KidOccupantsOf(t, SouthEast) + KidOccupantsOf(t, SouthWest)
  {
    var a := KidOccupantsOf(t, NorthEast);
    var b := KidOccupantsOf(t, NorthWest);
    var c := KidOccupantsOf(t, SouthEast);
    var d := KidOccupantsOf(t, SouthWest);
    forall o | o in Occupants(t) ensures o in a + b + c + d {
      var q := KidOf(t, o);
      match q {
        case NorthEast => assert o in a;
        case NorthWest => assert o in b;
        case SouthEast => assert o in c;
        case SouthWest => assert o in d;
      }
    }
  }

  /** A tree has at least as many nodes as stored players. */
  lemma {:induction false} OccupantsBound(t: QuadTree)
    ensures |Occupants(t)| <= Size(t)
    decreases t
  {
    if !t.IsLeaf() {
      forall q | q in t.kids ensures |Occupants(t.kids[q])| <= Size(t.kids[q]) {
        OccupantsBound(t.kids[q]);
      }
      var a := KidOccupantsOf(t, NorthEast);
      var b := KidOccupantsOf(t, NorthWest);
      var c := KidOccupantsOf(t, SouthEast);
      var d := KidOccupantsOf(t, SouthWest);
      OccupantsByQuadrant(t);
      assert |a + b| <= |a| + |b|;
      assert |a + b + c| <= |a + b| + |c|;
      assert |a + b + c + d| <= |a + b + c| + |d|;
    }
  }
}
