/** Moving a player in the region quadtree, found by name (`move`,
    `_find_point`) or by point (`move_point`, `_find_name`). */
module QuadTreeMoves {
  import opened Geometry
  import opened SpatialIndex
  import opened Quadrants
  import opened QuadTrees
  import opened QuadTreeInsertion
  import opened QuadTreeRemoval

  /** The target of a move is refused: it lies outside the field or another
      player already stands there. */
  ghost predicate Blocked(t: QuadTree, np: Point) {
    !InBounds(t.centre, np) || HasPoint(Occupants(t), np)
  }

  /** The player `Occupant(name, pt)` is replaced by the same player at `np`. */
  ghost predicate Relocated(t: QuadTree, name: string, pt: Point, np: Point, r: QuadTree) {
    && Valid(r) && r.centre == t.centre
    && Occupants(r) == Occupants(t) - {Occupant(name, pt)} + {Occupant(name, np)}
  }

  /** Move the stored player `Occupant(name, pt)` to the free, in-bounds
      point `np`. A tree that is a single leaf is updated in place; any other
      tree has the player removed by point and inserted again. */
  function Relocate(t: QuadTree, name: string, pt: Point, np: Point): (r: QuadTree)
    requires Valid(t) && Occupant(name, pt) in Occupants(t) && !Blocked(t, np)
    ensures Relocated(t, name, pt, np, r)
  {
    if t.IsLeaf() then
      LeafRelocated(t, name, pt, np);
      t.(occupant := Some(Occupant(name, np)))
    else
      Reinserted(t, name, pt, np);
      Insert(RemovePoint(t, pt), name, np).value
  }

  /** A tree that is a single leaf holding the player takes the new point in
      place. */
  lemma LeafRelocated(t: QuadTree, name: string, pt: Point, np: Point)
    requires Valid(t) && Occupant(name, pt) in Occupants(t) && !Blocked(t, np) && t.IsLeaf()
    ensures Relocated(t, name, pt, np, t.(occupant := Some(Occupant(name, np))))
  {
    RootCornersFacts(t.centre);
  }

  /** Removing the player by point and inserting it at the new point moves
      it and nothing else. */
  lemma Reinserted(t: QuadTree, name: string, pt: Point, np: Point)
    requires Valid(t) && Occupant(name, pt) in Occupants(t) && !Blocked(t, np)
    ensures Valid(RemovePoint(t, pt))
    ensures Insert(RemovePoint(t, pt), name, np).Ok?
    ensures Relocated(t, name, pt, np, Insert(RemovePoint(t, pt), name, np).value)
  {
    RemovePointValid(t, pt);
    assert WithoutPoint(Occupants(t), pt) == Occupants(t) - {Occupant(name, pt)} by {
      OrderedUniquePoints(t);
    }
  }

  /** `move`: move the player named `name` by `steps` in direction `d`. An
      unknown name leaves the tree as it is and yields no point; a blocked
      target raises `OutOfBoundsError` and leaves the tree as it is;
      otherwise the player found by `_find_point` stands at the target, which
      is returned, and no other player is affected. */
  function Move(t: QuadTree, name: string, d: Dir, steps: int): (r: Result<(QuadTree, Option<Point>)>)
    requires Valid(t)
    ensures FindPoint(t, name).None? ==> r == Ok((t, None))
    ensures FindPoint(t, name).Some? ==>
              var pt := FindPoint(t, name).value;
              var np := CalcPoint(pt, d, steps);
              && (r.OutOfBounds? <==> Blocked(t, np))
              && (r.Ok? ==> r.value.1 == Some(np) && Relocated(t, name, pt, np, r.value.0))
  {
    if t.IsEmpty() then
      Ok((t, None))
    else if t.IsLeaf() then
      if t.occupant.value.name == name then
        var np := CalcPoint(t.occupant.value.point, d, steps);
        if !InBounds(t.centre, np) || ContainsPoint(t, np) then OutOfBounds
        else Ok((Relocate(t, name, t.occupant.value.point, np), Some(np)))
      else
        Ok((t, None))
    else
      match FindPoint(t, name)
      case None => Ok((t, None))
      case Some(pt) =>
        var np := CalcPoint(pt, d, steps);
        if !InBounds(t.centre, np) || ContainsPoint(t, np) then OutOfBounds
        else Ok((Relocate(t, name, pt, np), Some(np)))
  }

  /** `move_point`: move the player standing at `p` by `steps` in direction
      `d`. An empty point leaves the tree as it is and yields no point; a
      blocked target raises `OutOfBoundsError`; otherwise the player at `p`,
      named as `_find_name` reports, stands at the target, which is
      returned, and no other player is affected. */
  function MovePoint(t: QuadTree, p: Point, d: Dir, steps: int): (r: Result<(QuadTree, Option<Point>)>)
    requires Valid(t)
    ensures !HasPoint(Occupants(t), p) ==> r == Ok((t, None))
    ensures HasPoint(Occupants(t), p) ==>
              var np := CalcPoint(p, d, steps);
              && FindName(t, p).Some?
              && (r.OutOfBounds? <==> Blocked(t, np))
              && (r.Ok? ==> r.value.1 == Some(np) && Relocated(t, FindName(t, p).value, p, np, r.value.0))
  {
    if t.IsEmpty() then
      Ok((t, None))
    else if t.IsLeaf() then
      if t.occupant.value.point == p then
        var np := CalcPoint(p, d, steps);
        if !InBounds(t.centre, np) || ContainsPoint(t, np) then OutOfBounds
        else
          assert FindName(t, p) == Some(t.occupant.value.name);
          Ok((Relocate(t, t.occupant.value.name, p, np), Some(np)))
      else
        assert Occupants(t) == {t.occupant.value};
        Ok((t, None))
    else if ContainsPoint(t, p) then
      var np := CalcPoint(p, d, steps);
      if !InBounds(t.centre, np) || ContainsPoint(t, np) then OutOfBounds
      else
        match FindName(t, p)
        case Some(name) => Ok((Relocate(t, name, p, np), Some(np)))
        case None => Ok((t, None))
    else
      Ok((t, None))
  }
}
