/** Updates of the 2D tree below its root's bounds check: adding a player
    (`_insert_helper`, `_insert_node_helper`), removing one by point
    (`remove_point`), by name (`remove`), and replacing a removed inner node
    by an extreme player of a child (`_remove_root`, `_find_info`). */
module KdTreeUpdates {
  import opened Geometry
  import opened SpatialIndex
  import opened KdTrees

  /** `_insert_helper`: walk down by the split rule and hang a new node for
      `o` where the walk leaves the tree. `a` is the axis a node created at
      this position splits on: `x` for the root, and the other axis than
      the parent's below it (`_insert_node_helper`). */
  function InsertHelper(t: KdTree, a: Axis, o: Occupant): (r: KdTree)
    requires Ordered(t) && !HasPoint(Occupants(t), o.point)
    ensures Ordered(r)
    ensures Occupants(r) == Occupants(t) + {o}
    ensures Alternating(t) ==> Alternating(r)
    ensures r.Node? && r.axis == (if t.Empty? then a else t.axis)
  {
    match t
    case Empty => Node(o.name, o.point, a, Empty, Empty)
    case Node(n, q, b, lt, gt) =>
      if GoesLeft(b, q, o.point) then Node(n, q, b, InsertHelper(lt, Other(b), o), gt)
      else Node(n, q, b, lt, InsertHelper(gt, Other(b), o))
  }

  /** How `_remove_root` refills a node that has no `lt` child: as the
      source does, with the least player of `gt` on the node's axis, or with
      the greatest one, the rest of `gt` then becoming `lt`. */
  datatype RootRule = AsWritten | Corrected

  /** Removing a player with a unique point takes exactly that player out. */
  lemma WithoutOne(s: set<Occupant>, o: Occupant)
    requires UniquePoints(s) && o in s
    ensures WithoutPoint(s, o.point) == s - {o}
  {
  }

  /** `remove_point`: a leaf at `p` is cleared (a leaf child is cut off), a
      node at `p` is refilled by `_remove_root`, and otherwise the removal
      continues in the child the split rule sends `p` to. */
  function RemovePoint(t: KdTree, p: Point, rule: RootRule): (r: KdTree)
    ensures Ordered(t) ==> Occupants(r) == WithoutPoint(Occupants(t), p)
    ensures Ordered(t) && rule == Corrected ==> Ordered(r)
    ensures Alternating(t) ==> Alternating(r)
    ensures r.Node? ==> t.Node? && r.axis == t.axis
    decreases t, 1
  {
    match t
    case Empty => Empty
    case Node(n, q, a, lt, gt) =>
      if t.IsLeaf() then
        if q == p then Empty else t
      else if q == p then
        RemoveRoot(t, rule)
      else if GoesLeft(a, q, p) then
        var x := RemovePoint(lt, p, rule);
        RemovePointLeft(t, p, x);
        Node(n, q, a, x, gt)
      else
        var x := RemovePoint(gt, p, rule);
        RemovePointRight(t, p, x);
        Node(n, q, a, lt, x)
  }

  /** The removal went into `lt`: nothing else changes. */
  lemma RemovePointLeft(t: KdTree, p: Point, x: KdTree)
    requires t.Node? && p != t.point && GoesLeft(t.axis, t.point, p)
    requires Ordered(t) ==> Occupants(x) == WithoutPoint(Occupants(t.lt), p)
    ensures Ordered(t) ==> Occupants(t.(lt := x)) == WithoutPoint(Occupants(t), p)
    ensures Ordered(t) && Ordered(x) ==> Ordered(t.(lt := x))
  {
    if Ordered(t) {
      assert WithoutPoint(Occupants(t.gt), p) == Occupants(t.gt);
    }
  }

  /** The removal went into `gt`: nothing else changes. */
  lemma RemovePointRight(t: KdTree, p: Point, x: KdTree)
    requires t.Node? && p != t.point && !GoesLeft(t.axis, t.point, p)
    requires Ordered(t) ==> Occupants(x) == WithoutPoint(Occupants(t.gt), p)
    ensures Ordered(t) ==> Occupants(t.(gt := x)) == WithoutPoint(Occupants(t), p)
    ensures Ordered(t) && Ordered(x) ==> Ordered(t.(gt := x))
  {
    if Ordered(t) {
      assert WithoutPoint(Occupants(t.lt), p) == Occupants(t.lt);
    }
  }

  /** `_remove_root`: drop the player of an inner node and put in its place
      the greatest player of `lt` on the node's axis; without `lt`, the
      source takes the least player of `gt` instead, and the corrected rule
      takes the greatest one and moves what is left of `gt` to `lt`. The
      chosen player is then removed below by its point. */
  function RemoveRoot(t: KdTree, rule: RootRule): (r: KdTree)
    requires t.Node? && !t.IsLeaf()
    ensures Ordered(t) ==> Occupants(r) == Occupants(t) - {Occupant(t.name, t.point)}
    ensures Ordered(t) && rule == Corrected ==> Ordered(r)
    ensures Alternating(t) ==> Alternating(r)
    ensures r.Node? && r.axis == t.axis
    decreases t, 0
  {
    if t.lt.Node? then
      var o := FindInfo(t.lt, Largest(t.axis));
      var x := RemovePoint(t.lt, o.point, rule);
      RefillFromLeft(t, o, x);
      Node(o.name, o.point, t.axis, x, t.gt)
    else match rule
      case AsWritten =>
        var o := FindInfo(t.gt, Smallest(t.axis));
        var x := RemovePoint(t.gt, o.point, rule);
        RefillFromRight(t, o, x);
        Node(o.name, o.point, t.axis, Empty, x)
      case Corrected =>
        var o := FindInfo(t.gt, Largest(t.axis));
        var x := RemovePoint(t.gt, o.point, rule);
        RefillFromRightCorrected(t, o, x);
        Node(o.name, o.point, t.axis, x, Empty)
  }

  /** The greatest player of `lt` takes the node's place. */
  lemma RefillFromLeft(t: KdTree, o: Occupant, x: KdTree)
    requires t.Node? && t.lt.Node? && o in Occupants(t.lt)
    requires forall o' :: o' in Occupants(t.lt) ==> !Beats(Largest(t.axis), o', o)
    requires Ordered(t) ==> Occupants(x) == WithoutPoint(Occupants(t.lt), o.point)
    ensures Ordered(t) ==> Occupants(Node(o.name, o.point, t.axis, x, t.gt)) == Occupants(t) - {Occupant(t.name, t.point)}
    ensures Ordered(t) && Ordered(x) ==> Ordered(Node(o.name, o.point, t.axis, x, t.gt))
  {
    if Ordered(t) {
      OrderedUniquePoints(t.lt);
      WithoutOne(Occupants(t.lt), o);
      RootApart(t);
      ReplaceRoot(Occupant(t.name, t.point), o, Occupants(t.lt), Occupants(x), Occupants(t.gt));
      LeftRefillSplit(t, o, x);
    }
  }

  /** Swapping the root's player for a player `o` of the left part, which
      loses it, drops just the root's player. */
  lemma ReplaceRoot(root: Occupant, o: Occupant, l: set<Occupant>, x: set<Occupant>, g: set<Occupant>)
    requires root !in l + g && o in l && x == l - {o}
    ensures {o} + x + g == {root} + l + g - {root}
  {
  }

  /** The split rule at the refilled node: the rest of `lt` is not greater
      than its greatest player, and `gt` lies beyond the old node, hence
      beyond that player. */
  lemma LeftRefillSplit(t: KdTree, o: Occupant, x: KdTree)
    requires t.Node? && Ordered(t) && o in Occupants(t.lt)
    requires forall o' :: o' in Occupants(t.lt) ==> !Beats(Largest(t.axis), o', o)
    requires Occupants(x) == Occupants(t.lt) - {o} && UniquePoints(Occupants(t.lt))
    ensures Split(Node(o.name, o.point, t.axis, x, t.gt))
  {
    assert GoesLeft(t.axis, t.point, o.point);
  }

  /** The least player of `gt` takes the place of a node without `lt`. */
  lemma RefillFromRight(t: KdTree, o: Occupant, x: KdTree)
    requires t.Node? && t.lt.Empty? && o in Occupants(t.gt)
    requires Ordered(t) ==> Occupants(x) == WithoutPoint(Occupants(t.gt), o.point)
    ensures Ordered(t) ==> Occupants(Node(o.name, o.point, t.axis, Empty, x)) == Occupants(t) - {Occupant(t.name, t.point)}
  {
    if Ordered(t) {
      OrderedUniquePoints(t.gt);
      WithoutOne(Occupants(t.gt), o);
      RootApart(t);
    }
  }

  /** The greatest player of `gt` takes the place of a node without `lt`,
      and the rest of `gt`, none of it greater, becomes `lt`. */
  lemma RefillFromRightCorrected(t: KdTree, o: Occupant, x: KdTree)
    requires t.Node? && t.lt.Empty? && o in Occupants(t.gt)
    requires forall o' :: o' in Occupants(t.gt) ==> !Beats(Largest(t.axis), o', o)
    requires Ordered(t) ==> Occupants(x) == WithoutPoint(Occupants(t.gt), o.point)
    ensures Ordered(t) ==> Occupants(Node(o.name, o.point, t.axis, x, Empty)) == Occupants(t) - {Occupant(t.name, t.point)}
    ensures Ordered(t) && Ordered(x) ==> Ordered(Node(o.name, o.point, t.axis, x, Empty))
  {
    if Ordered(t) {
      OrderedUniquePoints(t.gt);
      WithoutOne(Occupants(t.gt), o);
      RootApart(t);
    }
  }

  /** Cutting off a leaf child takes out just its player. */
  lemma CutLeafKid(t: KdTree, kid: KdTree)
    requires t.Node? && kid.IsLeaf() && (kid == t.lt || kid == t.gt)
    ensures Ordered(t) ==>
              (Occupants(t) - {Occupant(kid.name, kid.point)} ==
               Occupants(if kid == t.lt then t.(lt := Empty) else t.(gt := Empty)))
  {
    if Ordered(t) {
      RootApart(t);
      KidsApart(t);
    }
  }

  /** `remove`: a leaf with the name is cleared, a node with the name is
      refilled by `_remove_root`; otherwise a leaf child with the name is cut
      off (`lt` first) or the removal continues in the first child holding
      the name. Exactly one player with the name goes, if there is one. */
  function Remove(t: KdTree, name: string, rule: RootRule): (r: KdTree)
    ensures Ordered(t) ==> RemovedOne(Occupants(t), name, Occupants(r))
    ensures Ordered(t) && rule == Corrected ==> Ordered(r)
    ensures Alternating(t) ==> Alternating(r)
    ensures r.Node? ==> t.Node? && r.axis == t.axis
    decreases t, 2
  {
    match t
    case Empty => Empty
    case Node(n, q, a, lt, gt) =>
      if t.IsLeaf() then
        if n == name then Empty else t
      else if n == name then
        RemoveRoot(t, rule)
      else if lt.IsLeaf() && lt.name == name then
        CutLeafKid(t, lt);
        Node(n, q, a, Empty, gt)
      else if gt.IsLeaf() && gt.name == name then
        CutLeafKid(t, gt);
        Node(n, q, a, lt, Empty)
      else if Contains(lt, name) then
        var x := Remove(lt, name, rule);
        RemoveLeft(t, name, x);
        Node(n, q, a, x, gt)
      else if Contains(gt, name) then
        var x := Remove(gt, name, rule);
        RemoveRight(t, name, x);
        Node(n, q, a, lt, x)
      else
        t
  }

  /** The removal by name went into `lt`: the player it took is the one the
      whole tree loses. */
  lemma RemoveLeft(t: KdTree, name: string, x: KdTree)
    requires t.Node? && t.name != name && HasName(Occupants(t.lt), name)
    requires Ordered(t) ==> RemovedOne(Occupants(t.lt), name, Occupants(x))
    ensures Ordered(t) ==> RemovedOne(Occupants(t), name, Occupants(t.(lt := x)))
    ensures Ordered(t) && Ordered(x) ==> Ordered(t.(lt := x))
  {
    if Ordered(t) {
      var o :| o in Occupants(t.lt) && o.name == name && Occupants(x) == Occupants(t.lt) - {o};
      KidsApart(t);
      assert Occupants(t.(lt := x)) == Occupants(t) - {o};
    }
  }

  /** The removal by name went into `gt`. */
  lemma RemoveRight(t: KdTree, name: string, x: KdTree)
    requires t.Node? && t.name != name && HasName(Occupants(t.gt), name)
    requires Ordered(t) ==> RemovedOne(Occupants(t.gt), name, Occupants(x))
    ensures Ordered(t) ==> RemovedOne(Occupants(t), name, Occupants(t.(gt := x)))
    ensures Ordered(t) && Ordered(x) ==> Ordered(t.(gt := x))
  {
    if Ordered(t) {
      var o :| o in Occupants(t.gt) && o.name == name && Occupants(x) == Occupants(t.gt) - {o};
      KidsApart(t);
      assert Occupants(t.(gt := x)) == Occupants(t) - {o};
    }
  }
}
