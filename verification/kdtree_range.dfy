/** The range query of the 2D tree (`names_in_range`): each node reports its
    own player when inside the box, and a child is searched only when the
    box reaches its side of the node's split line. */
module KdTreeRange {
  import opened Geometry
  import opened SpatialIndex
  import opened KdTrees

  /** The extent of the box along axis `a`. */
  function BoxSpan(b: Box, a: Axis): Span {
    if a == X then b.xs else b.ys
  }

  /** The body of `names_in_range`: the node's own name if its point is in
      the box, then the names below `lt` if the box's low edge on the
      node's axis is not past the node, then those below `gt` if its high
      edge is not before it. */
  function Walk(t: KdTree, b: Box): seq<string> {
    match t
    case Empty => []
    case Node(n, q, a, lt, gt) =>
      (if InBox(q, b) then [n] else [])
      + (if BoxSpan(b, a).Lo() <= Coord(q, a) then Walk(lt, b) else [])
      + (if BoxSpan(b, a).Hi() >= Coord(q, a) then Walk(gt, b) else [])
  }

  /** In an ordered tree the walk finds exactly the players the brute-force
      scan over all players finds: a skipped child lies wholly beyond the
      box on the node's axis. */
  lemma {:induction false} WalkComplete(t: KdTree, b: Box)
    requires Ordered(t)
    ensures Elements(Walk(t, b)) == NamesInBox(Occupants(t), b)
    decreases t, 1
  {
    match t
    case Empty =>
    case Node(n, q, a, lt, gt) =>
      var own := if InBox(q, b) then [n] else [];
      var left := if BoxSpan(b, a).Lo() <= Coord(q, a) then Walk(lt, b) else [];
      var right := if BoxSpan(b, a).Hi() >= Coord(q, a) then Walk(gt, b) else [];
      ElementsConcat(own, left);
      ElementsConcat(own + left, right);
      assert Elements(own) == NamesInBox({Occupant(n, q)}, b);
      SideComplete(t, b, true);
      SideComplete(t, b, false);
      NamesInBoxUnion({Occupant(n, q)}, Occupants(lt), b);
      NamesInBoxUnion({Occupant(n, q)} + Occupants(lt), Occupants(gt), b);
  }

  /** One side of a node: searched by induction, or skipped because the box
      misses it. */
  lemma {:induction false} SideComplete(t: KdTree, b: Box, left: bool)
    requires t.Node? && Ordered(t)
    ensures left ==>
              Elements(if BoxSpan(b, t.axis).Lo() <= Coord(t.point, t.axis) then Walk(t.lt, b) else [])
                == NamesInBox(Occupants(t.lt), b)
    ensures !left ==>
              Elements(if BoxSpan(b, t.axis).Hi() >= Coord(t.point, t.axis) then Walk(t.gt, b) else [])
                == NamesInBox(Occupants(t.gt), b)
    decreases t, 0
  {
    var a := t.axis;
    if left {
      if BoxSpan(b, a).Lo() <= Coord(t.point, a) {
        WalkComplete(t.lt, b);
      } else {
        forall o | o in Occupants(t.lt) ensures !InBox(o.point, b) {
          assert GoesLeft(a, t.point, o.point);
        }
        NamesInBoxOutside(Occupants(t.lt), b);
      }
    } else {
      if BoxSpan(b, a).Hi() >= Coord(t.point, a) {
        WalkComplete(t.gt, b);
      } else {
        forall o | o in Occupants(t.gt) ensures !InBox(o.point, b) {
          assert !GoesLeft(a, t.point, o.point);
        }
        NamesInBoxOutside(Occupants(t.gt), b);
      }
    }
  }
}
