/** The 2D tree as players use it (`TwoDTree`): a root node together with the
    north-west and south-east corners of the field, the bounds check that
    guards insertion and moves, and the public operations. */
module TwoDTrees {
  import opened Geometry
  import opened SpatialIndex
  import opened KdTrees
  import opened KdTreeRange
  import U = KdTreeUpdates

  /** The field's corners and the root node; the root splits on `x`. */
  datatype TwoDTree = TwoDTree(nw: Point, se: Point, root: KdTree)

  /** `__init__`: an empty tree over the field from `nw` to `se`. */
  function NewTree(nw: Point, se: Point): TwoDTree {
    TwoDTree(nw, se, Empty)
  }

  /** `p` lies in the field, both corners included. */
  predicate InField(f: TwoDTree, p: Point) {
    f.nw.x <= p.x <= f.se.x && f.nw.y <= p.y <= f.se.y
  }

  /** The representation invariants: the root splits on `x`, the axes
      alternate, every node keeps the split rule, and every player is in
      the field. */
  ghost predicate Valid(f: TwoDTree) {
    && SplitsOn(f.root, X) && Alternating(f.root) && Ordered(f.root)
    && forall o :: o in Occupants(f.root) ==> InField(f, o.point)
  }

  lemma NewTreeValid(nw: Point, se: Point)
    ensures Valid(NewTree(nw, se)) && Occupants(NewTree(nw, se).root) == {}
  {
  }

  /** `insert`: a point outside the field or already taken raises
      `OutOfBoundsError` and changes nothing; otherwise exactly the new
      player is added, and afterwards both its name and its point are
      found. */
  function Insert(f: TwoDTree, name: string, p: Point): (r: Result<TwoDTree>)
    requires Valid(f)
    ensures r.OutOfBounds? <==> !InField(f, p) || HasPoint(Occupants(f.root), p)
    ensures r.Ok? ==>
              && Valid(r.value) && r.value.nw == f.nw && r.value.se == f.se
              && Occupants(r.value.root) == Occupants(f.root) + {Occupant(name, p)}
              && Contains(r.value.root, name) && ContainsPoint(r.value.root, p)
  {
    if !InField(f, p) || ContainsPoint(f.root, p) then OutOfBounds
    else
      var root := U.InsertHelper(f.root, X, Occupant(name, p));
      assert HasPoint(Occupants(root), p) by {
        assert Occupant(name, p) in Occupants(root);
      }
      Ok(f.(root := root))
  }

  /** `remove`: exactly one player with the name goes, if there is one, and
      the invariants still hold. */
  function Remove(f: TwoDTree, name: string): (r: TwoDTree)
    requires Valid(f)
    ensures Valid(r) && r.nw == f.nw && r.se == f.se
    ensures RemovedOne(Occupants(f.root), name, Occupants(r.root))
  {
    f.(root := U.Remove(f.root, name, U.Corrected))
  }

  /** With unique names, `remove` leaves exactly the players with other
      names, and the name is no longer found. */
  lemma RemoveUnique(f: TwoDTree, name: string)
    requires Valid(f) && UniqueNames(Occupants(f.root))
    ensures Occupants(Remove(f, name).root) == WithoutName(Occupants(f.root), name)
    ensures !Contains(Remove(f, name).root, name)
  {
  }

  /** `remove_point`: exactly the player at `p` goes, if there is one, the
      invariants still hold, and the point is no longer found. */
  function RemovePoint(f: TwoDTree, p: Point): (r: TwoDTree)
    requires Valid(f)
    ensures Valid(r) && r.nw == f.nw && r.se == f.se
    ensures Occupants(r.root) == WithoutPoint(Occupants(f.root), p)
    ensures !ContainsPoint(r.root, p)
  {
    f.(root := U.RemovePoint(f.root, p, U.Corrected))
  }

  /** `size`: the number of nodes, counting an empty tree as one. */
  function Size(f: TwoDTree): nat {
    if f.root.Empty? then 1 else Count(f.root)
  }

  /** `height`: the number of nodes on a longest path, an empty tree
      counting as one. */
  function Height(f: TwoDTree): nat {
    if f.root.Empty? then 1 else KdTrees.Height(f.root)
  }

  /** A valid tree has one node per player (and one node when empty), and
      its height is at least one and at most its size. */
  lemma SizeAndHeight(f: TwoDTree)
    requires Valid(f)
    ensures Size(f) == Max(1, |Occupants(f.root)|)
    ensures 1 <= Height(f) <= Size(f)
  {
    CountOccupants(f.root);
    HeightBelowCount(f.root);
    EmptyIffNoOccupants(f.root);
  }

  /** `names_in_range`: the names of the players within `distance` of
      `anchor` along both axes, on the side the diagonal `d` points to. The
      listed names are exactly those of the players in the query box. */
  function NamesInRange(f: TwoDTree, anchor: Point, d: Diagonal, distance: int): (r: seq<string>)
    requires Valid(f)
    ensures Elements(r) == NamesInBox(Occupants(f.root), FindXYRange(anchor, d, distance))
  {
    WalkComplete(f.root, FindXYRange(anchor, d, distance));
    Walk(f.root, FindXYRange(anchor, d, distance))
  }

  /** The target of a move is refused: it lies outside the field or another
      player already stands there. */
  ghost predicate Blocked(f: TwoDTree, np: Point) {
    !InField(f, np) || HasPoint(Occupants(f.root), np)
  }

  /** The player `Occupant(name, pt)` is replaced by the same player at `np`. */
  ghost predicate Relocated(f: TwoDTree, name: string, pt: Point, np: Point, r: TwoDTree) {
    && Valid(r) && r.nw == f.nw && r.se == f.se
    && Occupants(r.root) == Occupants(f.root) - {Occupant(name, pt)} + {Occupant(name, np)}
  }

  /** Move the stored player `Occupant(name, pt)` to the free point `np` in
      the field. A tree that is a single leaf is updated in place; any other
      tree has the player removed by point and inserted again. */
  function Relocate(f: TwoDTree, name: string, pt: Point, np: Point): (r: TwoDTree)
    requires Valid(f) && Occupant(name, pt) in Occupants(f.root) && !Blocked(f, np)
    ensures Relocated(f, name, pt, np, r)
  {
    if f.root.IsLeaf() then
      assert Occupants(f.root) == {Occupant(f.root.name, f.root.point)};
      f.(root := f.root.(point := np))
    else
      var f1 := RemovePoint(f, pt);
      assert WithoutPoint(Occupants(f.root), pt) == Occupants(f.root) - {Occupant(name, pt)} by {
        OrderedUniquePoints(f.root);
        U.WithoutOne(Occupants(f.root), Occupant(name, pt));
      }
      Insert(f1, name, np).value
  }

  /** `move`: move the player named `name` by `steps` in direction `d`. An
      unknown name leaves the tree as it is and yields no point; a blocked
      target raises `OutOfBoundsError` and leaves the tree as it is;
      otherwise the player found by `_find_point` stands at the target, which
      is returned, and no other player is affected. */
  function Move(f: TwoDTree, name: string, d: Dir, steps: int): (r: Result<(TwoDTree, Option<Point>)>)
    requires Valid(f)
    ensures FindPoint(f.root, name).None? ==> r == Ok((f, None))
    ensures FindPoint(f.root, name).Some? ==>
              var pt := FindPoint(f.root, name).value;
              var np := CalcPoint(pt, d, steps);
              && (r.OutOfBounds? <==> Blocked(f, np))
              && (r.Ok? ==> r.value.1 == Some(np) && Relocated(f, name, pt, np, r.value.0))
  {
    match f.root
    case Empty => Ok((f, None))
    case Node(n, q, _, _, _) =>
      if f.root.IsLeaf() then
        if n == name then
          var np := CalcPoint(q, d, steps);
          if !InField(f, np) || ContainsPoint(f.root, np) then OutOfBounds
          else Ok((Relocate(f, name, q, np), Some(np)))
        else
          Ok((f, None))
      else
        match FindPoint(f.root, name)
        case None => Ok((f, None))
        case Some(pt) =>
          var np := CalcPoint(pt, d, steps);
          if !InField(f, np) || ContainsPoint(f.root, np) then OutOfBounds
          else Ok((Relocate(f, name, pt, np), Some(np)))
  }

  /** `move_point`: move the player standing at `p` by `steps` in direction
      `d`. An empty point leaves the tree as it is and yields no point; a
      blocked target raises `OutOfBoundsError`; otherwise the player at `p`,
      named as `_find_name` reports, stands at the target, which is
      returned, and no other player is affected. */
  function MovePoint(f: TwoDTree, p: Point, d: Dir, steps: int): (r: Result<(TwoDTree, Option<Point>)>)
    requires Valid(f)
    ensures !HasPoint(Occupants(f.root), p) ==> r == Ok((f, None))
    ensures HasPoint(Occupants(f.root), p) ==>
              var np := CalcPoint(p, d, steps);
              && FindName(f.root, p).Some?
              && (r.OutOfBounds? <==> Blocked(f, np))
              && (r.Ok? ==> r.value.1 == Some(np) && Relocated(f, FindName(f.root, p).value, p, np, r.value.0))
  {
    match f.root
    case Empty => Ok((f, None))
    case Node(n, q, _, _, _) =>
      if f.root.IsLeaf() then
        if q == p then
          var np := CalcPoint(p, d, steps);
          if !InField(f, np) || ContainsPoint(f.root, np) then OutOfBounds
          else Ok((Relocate(f, n, p, np), Some(np)))
        else
          assert Occupants(f.root) == {Occupant(n, q)};
          Ok((f, None))
      else if ContainsPoint(f.root, p) then
        var np := CalcPoint(p, d, steps);
        if !InField(f, np) || ContainsPoint(f.root, np) then OutOfBounds
        else
          match FindName(f.root, p)
          case Some(name) => Ok((Relocate(f, name, p, np), Some(np)))
          case None => Ok((f, None))
      else
        Ok((f, None))
  }

  /** The field from (0, 0) to (100, 100) after inserting "a" at (10, 10),
      "b" at (20, 20) and "c" at (20, 30): "b" is the `gt` child of the
      root and "c" the `gt` child of "b". */
  function ThreePlayers(): (f: TwoDTree)
    ensures Valid(f)
    ensures Occupants(f.root) ==
              {Occupant("a", Point(10, 10)), Occupant("b", Point(20, 20)), Occupant("c", Point(20, 30))}
    ensures f.root == Node("a", Point(10, 10), X, Empty,
                           Node("b", Point(20, 20), Y, Empty, Node("c", Point(20, 30), X, Empty, Empty)))
  {
    var f0 := NewTree(Point(0, 0), Point(100, 100));
    NewTreeValid(Point(0, 0), Point(100, 100));
    var f1 := Insert(f0, "a", Point(10, 10)).value;
    var f2 := Insert(f1, "b", Point(20, 20)).value;
    Insert(f2, "c", Point(20, 30)).value
  }

  /** The subtree of "b" and "c" in `ThreePlayers`. */
  function BelowRoot(): KdTree {
    Node("b", Point(20, 20), Y, Empty, Node("c", Point(20, 30), X, Empty, Empty))
  }

  /** Both players below the root have x = 20, so the least and the greatest
      x of the subtree are both "b", the first in preorder. */
  lemma BelowRootExtremes()
    ensures FindInfo(BelowRoot(), SmallX) == Occupant("b", Point(20, 20))
    ensures FindInfo(BelowRoot(), BigX) == Occupant("b", Point(20, 20))
  {
    var s := Collect(BelowRoot());
    assert s == [Occupant("b", Point(20, 20)), Occupant("c", Point(20, 30))];
    assert s[..1] == [Occupant("b", Point(20, 20))];
  }

  /** Taking "b" out of its subtree lifts "c" into its place, by either rule. */
  lemma BelowRootWithoutB(rule: U.RootRule)
    ensures U.RemovePoint(BelowRoot(), Point(20, 20), rule) == Node("c", Point(20, 30), Y, Empty, Empty)
  {
    var c := Node("c", Point(20, 30), X, Empty, Empty);
    assert Collect(c) == [Occupant("c", Point(20, 30))];
    assert FindInfo(c, SmallY) == Occupant("c", Point(20, 30));
    assert FindInfo(c, BigY) == Occupant("c", Point(20, 30));
  }

  /** What removing "a" from `ThreePlayers` leaves under each rule: "b"
      at the root, and "c" in `gt` as the source has it or in `lt`. */
  lemma RemoveA(rule: U.RootRule)
    ensures U.Remove(ThreePlayers().root, "a", rule) ==
              var c := Node("c", Point(20, 30), Y, Empty, Empty);
              if rule == U.AsWritten then Node("b", Point(20, 20), X, Empty, c)
              else Node("b", Point(20, 20), X, c, Empty)
  {
    assert ThreePlayers().root.gt == BelowRoot();
    BelowRootExtremes();
    BelowRootWithoutB(rule);
  }

  /** Removing "a" from `ThreePlayers` as the source does puts "b" at the
      root and keeps "c" in `gt`, although its x equals the root's: the tree
      still holds "c" at (20, 30), but `contains_point` looks for it in the
      missing `lt` and reports it absent. The corrected rule puts "c" in
      `lt`, where it is found. */
  lemma RemoveRootTieLosesPlayer()
    ensures HasPoint(Occupants(U.Remove(ThreePlayers().root, "a", U.AsWritten)), Point(20, 30))
    ensures !ContainsPoint(U.Remove(ThreePlayers().root, "a", U.AsWritten), Point(20, 30))
    ensures !Ordered(U.Remove(ThreePlayers().root, "a", U.AsWritten))
    ensures ContainsPoint(Remove(ThreePlayers(), "a").root, Point(20, 30))
  {
    RemoveA(U.AsWritten);
    RemoveA(U.Corrected);
    var written := U.Remove(ThreePlayers().root, "a", U.AsWritten);
    assert Occupant("c", Point(20, 30)) in Occupants(written.gt);
  }
}
