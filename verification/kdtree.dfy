/** The 2D tree (`TwoDTree`): a kd-tree with k = 2 in which every node holds
    a player, and each node splits its descendants on one axis, the two axes
    alternating level by level. This module holds the node structure, its
    invariants and the read-only queries. */
module KdTrees {
  import opened Geometry
  import opened SpatialIndex

  /** The `_split_type` of a node. */
  datatype Axis = X | Y

  /** The axis a child of a node splitting on `a` splits on. */
  function Other(a: Axis): Axis {
    if a == X then Y else X
  }

  /** The coordinate of `p` on axis `a`. */
  function Coord(p: Point, a: Axis): int {
    if a == X then p.x else p.y
  }

  /** `p` belongs to the `lt` side of a node at `split` splitting on `a`: it
      is not greater on that axis. */
  predicate GoesLeft(a: Axis, split: Point, p: Point) {
    Coord(p, a) <= Coord(split, a)
  }

  /** A (sub)tree: `Empty` is both the empty root and a missing child. */
  datatype KdTree = Empty | Node(name: string, point: Point, axis: Axis, lt: KdTree, gt: KdTree) {
    predicate IsLeaf() {
      Node? && lt.Empty? && gt.Empty?
    }
  }

  /** The players stored in a tree. */
  function Occupants(t: KdTree): set<Occupant> {
    match t
    case Empty => {}
    case Node(n, p, _, lt, gt) => {Occupant(n, p)} + Occupants(lt) + Occupants(gt)
  }

  /** The number of nodes. */
  function Count(t: KdTree): nat {
    match t
    case Empty => 0
    case Node(_, _, _, lt, gt) => 1 + Count(lt) + Count(gt)
  }

  /** `t` is missing or splits on `a`. */
  predicate SplitsOn(t: KdTree, a: Axis) {
    t.Empty? || t.axis == a
  }

  /** The children of every node split on the other axis than the node. */
  ghost predicate Alternating(t: KdTree) {
    t.Node? ==>
      && SplitsOn(t.lt, Other(t.axis)) && SplitsOn(t.gt, Other(t.axis))
      && Alternating(t.lt) && Alternating(t.gt)
  }

  /** The partition rule at one node: `lt` holds the players not greater on
      the node's axis, `gt` those greater, and no descendant shares the
      node's point. */
  ghost predicate Split(t: KdTree)
    requires t.Node?
  {
    && (forall o :: o in Occupants(t.lt) ==> GoesLeft(t.axis, t.point, o.point) && o.point != t.point)
    && (forall o :: o in Occupants(t.gt) ==> !GoesLeft(t.axis, t.point, o.point))
  }

  /** The partition rule holds at every node. */
  ghost predicate Ordered(t: KdTree) {
    t.Node? ==> Split(t) && Ordered(t.lt) && Ordered(t.gt)
  }

  /** A node's player is not stored in either child. */
  lemma RootApart(t: KdTree)
    requires t.Node? && Ordered(t)
    ensures !HasPoint(Occupants(t.lt), t.point) && !HasPoint(Occupants(t.gt), t.point)
    ensures Occupant(t.name, t.point) !in Occupants(t.lt) + Occupants(t.gt)
  {
  }

  /** The two children of a node hold no common point. */
  lemma KidsApart(t: KdTree)
    requires t.Node? && Ordered(t)
    ensures forall o1, o2 :: o1 in Occupants(t.lt) && o2 in Occupants(t.gt) ==> o1.point != o2.point
  {
    forall o1 | o1 in Occupants(t.lt) ensures GoesLeft(t.axis, t.point, o1.point) {
    }
  }

  /** In an ordered tree no two players share a point. */
  lemma {:induction false} OrderedUniquePoints(t: KdTree)
    requires Ordered(t)
    ensures UniquePoints(Occupants(t))
  {
    if t.Node? {
      OrderedUniquePoints(t.lt);
      OrderedUniquePoints(t.gt);
      KidsApart(t);
      RootApart(t);
    }
  }

  /** In an ordered tree every node holds a different player. */
  lemma {:induction false} CountOccupants(t: KdTree)
    requires Ordered(t)
    ensures Count(t) == |Occupants(t)|
  {
    if t.Node? {
      CountOccupants(t.lt);
      CountOccupants(t.gt);
      KidsApart(t);
      RootApart(t);
    }
  }

  /** Only the empty tree stores no player. */
  lemma EmptyIffNoOccupants(t: KdTree)
    ensures t.Empty? <==> Occupants(t) == {}
  {
    if t.Node? {
      assert Occupant(t.name, t.point) in Occupants(t);
    }
  }

  /** `height`: the number of nodes on a longest path from the root, where a
      missing child counts as zero. */
  function Height(t: KdTree): nat {
    match t
    case Empty => 0
    case Node(_, _, _, lt, gt) => 1 + Max(Height(lt), Height(gt))
  }

  /** A tree is never higher than it has nodes. */
  lemma {:induction false} HeightBelowCount(t: KdTree)
    ensures Height(t) <= Count(t)
  {
    if t.Node? {
      HeightBelowCount(t.lt);
      HeightBelowCount(t.gt);
    }
  }

  /** A tree of height `h` has fewer than 2^h nodes. */
  lemma {:induction false} CountBelowPow2(t: KdTree)
    ensures Count(t) < Pow2(Height(t))
  {
    if t.Node? {
      CountBelowPow2(t.lt);
      CountBelowPow2(t.gt);
      var h := Height(t) - 1;
      Pow2Monotone(Height(t.lt), h);
      Pow2Monotone(Height(t.gt), h);
      assert Pow2(Height(t)) == 2 * Pow2(h);
    }
  }

  function Pow2(n: nat): nat {
    if n == 0 then 1 else 2 * Pow2(n - 1)
  }

  lemma {:induction false} Pow2Monotone(a: nat, b: nat)
    requires a <= b
    ensures Pow2(a) <= Pow2(b)
    decreases b
  {
    if a < b {
      Pow2Monotone(a, b - 1);
    }
  }

  /** `__contains__`: some node holds the name. */
  function Contains(t: KdTree, name: string): (r: bool)
    ensures r <==> HasName(Occupants(t), name)
  {
    match t
    case Empty => false
    case Node(n, _, _, lt, gt) =>
      n == name || Contains(lt, name) || Contains(gt, name)
  }

  /** `contains_point`: compare with the node's point and follow the one
      child the split rule sends `p` to. It never reports an absent point,
      and in an ordered tree it finds every stored one. */
  function ContainsPoint(t: KdTree, p: Point): (r: bool)
    ensures r ==> HasPoint(Occupants(t), p)
    ensures Ordered(t) && HasPoint(Occupants(t), p) ==> r
  {
    match t
    case Empty => false
    case Node(_, q, a, lt, gt) =>
      if q == p then true
      else if GoesLeft(a, q, p) then ContainsPoint(lt, p)
      else ContainsPoint(gt, p)
  }

  /** `_find_name`: the name of the player at `p`, found along the same path
      as `contains_point`. */
  function FindName(t: KdTree, p: Point): (r: Option<string>)
    ensures r.Some? ==> Occupant(r.value, p) in Occupants(t)
    ensures Ordered(t) && HasPoint(Occupants(t), p) ==> r.Some?
  {
    match t
    case Empty => None
    case Node(n, q, a, lt, gt) =>
      if q == p then Some(n)
      else if GoesLeft(a, q, p) then FindName(lt, p)
      else FindName(gt, p)
  }

  /** `_find_point`: the point of a player named `name`, looking at the node,
      then in `lt`, then in `gt`. */
  function FindPoint(t: KdTree, name: string): (r: Option<Point>)
    ensures r.Some? <==> HasName(Occupants(t), name)
    ensures r.Some? ==> Occupant(name, r.value) in Occupants(t)
  {
    match t
    case Empty => None
    case Node(n, q, _, lt, gt) =>
      if n == name then Some(q)
      else if Contains(lt, name) then FindPoint(lt, name)
      else if Contains(gt, name) then FindPoint(gt, name)
      else None
  }

  /** `_collect_all_nodes_info`: the players of the tree in preorder (node,
      then `lt`, then `gt`), each once. */
  function Collect(t: KdTree): (r: seq<Occupant>)
    ensures |r| == Count(t)
    ensures forall o :: o in r <==> o in Occupants(t)
  {
    match t
    case Empty => []
    case Node(n, q, _, lt, gt) => [Occupant(n, q)] + Collect(lt) + Collect(gt)
  }

  /** The four extremes `_find_info` can be asked for. */
  datatype Request = BigX | SmallX | BigY | SmallY

  function RequestAxis(req: Request): Axis {
    if req == BigX || req == SmallX then X else Y
  }

  /** The request for the greatest coordinate on axis `a`. */
  function Largest(a: Axis): (req: Request)
    ensures RequestAxis(req) == a
  {
    match a
    case X => BigX
    case Y => BigY
  }

  /** The request for the least coordinate on axis `a`. */
  function Smallest(a: Axis): (req: Request)
    ensures RequestAxis(req) == a
  {
    match a
    case X => SmallX
    case Y => SmallY
  }

  /** `o1` is strictly more extreme than `o2` for `req`. */
  predicate Beats(req: Request, o1: Occupant, o2: Occupant) {
    var a := RequestAxis(req);
    if req == BigX || req == BigY then Coord(o1.point, a) > Coord(o2.point, a)
    else Coord(o1.point, a) < Coord(o2.point, a)
  }

  /** The position of the first most extreme element of `s`: what taking
      `max` (or `min`) of the coordinates and then `index` of that value
      returns. */
  function FirstExtreme(s: seq<Occupant>, req: Request): (i: nat)
    requires |s| > 0
    ensures i < |s|
    ensures forall j :: 0 <= j < |s| ==> !Beats(req, s[j], s[i])
    ensures forall j :: 0 <= j < i ==> Beats(req, s[i], s[j])
  {
    if |s| == 1 then 0
    else
      var i := FirstExtreme(s[..|s| - 1], req);
      assert forall j :: 0 <= j < |s| - 1 ==> s[..|s| - 1][j] == s[j];
      if Beats(req, s[|s| - 1], s[i]) then |s| - 1 else i
  }

  /** `_find_info`: a player of a non-empty tree whose coordinate is extreme
      as requested; ties go to the first in preorder. */
  function FindInfo(t: KdTree, req: Request): (o: Occupant)
    requires t.Node?
    ensures o in Occupants(t)
    ensures forall o' :: o' in Occupants(t) ==> !Beats(req, o', o)
  {
    var s := Collect(t);
    s[FirstExtreme(s, req)]
  }

  /** `FindInfo` reports the first extreme player in preorder. */
  lemma FindInfoFirst(t: KdTree, req: Request)
    requires t.Node?
    ensures exists i :: 0 <= i < |Collect(t)| && Collect(t)[i] == FindInfo(t, req)
              && forall j :: 0 <= j < i ==> Beats(req, Collect(t)[i], Collect(t)[j])
  {
    var i := FirstExtreme(Collect(t), req);
    assert Collect(t)[i] == FindInfo(t, req);
  }
}
