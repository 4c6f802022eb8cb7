/** `balance` of the 2D tree: while a node's two sides differ in size by more
    than one, the node's player is replaced by an extreme player of the
    larger side and inserted again; then both children are balanced. */
module KdTreeBalance {
  import opened Geometry
  import opened SpatialIndex
  import opened KdTrees
  import opened KdTreeUpdates
  import T = TwoDTrees

  /** At every node the sizes of `lt` and `gt` differ by at most one. */
  predicate Balanced(t: KdTree) {
    t.Node? ==> -1 <= Count(t.lt) - Count(t.gt) <= 1 && Balanced(t.lt) && Balanced(t.gt)
  }

  /** Some player of `s` other than `o` has the same coordinate on `a`. */
  predicate Tied(s: set<Occupant>, o: Occupant, a: Axis) {
    exists o' :: o' in s && o' != o && Coord(o'.point, a) == Coord(o.point, a)
  }

  /** What one pass of the loop keeps: the players, and with them the
      invariants. */
  ghost predicate Rearranged(t: KdTree, r: KdTree) {
    && Occupants(r) == Occupants(t) && Ordered(r)
    && (Alternating(t) ==> Alternating(r))
    && r.Node? == t.Node? && (r.Node? ==> r.axis == t.axis)
  }

  /** A node's own player is not stored below it. */
  lemma OwnPointFree(t: KdTree)
    requires t.Node? && Ordered(t)
    ensures !HasPoint(Occupants(t) - {Occupant(t.name, t.point)}, t.point)
  {
    RootApart(t);
  }

  /** `promote_left`: the greatest player of `lt` on the node's axis takes
      the node's place, and the node's player is inserted again. */
  function PromoteLeft(t: KdTree): (r: KdTree)
    requires t.Node? && t.lt.Node? && Ordered(t)
    ensures Rearranged(t, r)
  {
    OwnPointFree(t);
    InsertHelper(RemoveRoot(t, Corrected), t.axis, Occupant(t.name, t.point))
  }

  /** `promote_right`: the least player of `gt` on the node's axis takes the
      node's place, and the node's player is inserted again. When another
      player of `gt` shares that coordinate, it would stay in `gt` although
      it is not greater than the new node: this pass is refused. */
  function PromoteRight(t: KdTree): (r: Option<KdTree>)
    requires t.Node? && t.gt.Node? && Ordered(t)
    ensures r.None? <==> Tied(Occupants(t.gt), FindInfo(t.gt, Smallest(t.axis)), t.axis)
    ensures r.Some? ==> Rearranged(t, r.value)
  {
    var o := FindInfo(t.gt, Smallest(t.axis));
    if Tied(Occupants(t.gt), o, t.axis) then None
    else
      var x := RemovePoint(t.gt, o.point, Corrected);
      var base := Node(o.name, o.point, t.axis, t.lt, x);
      RightBase(t, o, x);
      Some(InsertHelper(base, t.axis, Occupant(t.name, t.point)))
  }

  /** The node with the least player of `gt` in its place, before the old
      player is inserted again. */
  lemma RightBase(t: KdTree, o: Occupant, x: KdTree)
    requires t.Node? && Ordered(t) && o in Occupants(t.gt)
    requires forall o' :: o' in Occupants(t.gt) ==> !Beats(Smallest(t.axis), o', o)
    requires !Tied(Occupants(t.gt), o, t.axis)
    requires Occupants(x) == WithoutPoint(Occupants(t.gt), o.point) && Ordered(x)
    ensures Ordered(Node(o.name, o.point, t.axis, t.lt, x))
    ensures Occupants(Node(o.name, o.point, t.axis, t.lt, x)) == Occupants(t) - {Occupant(t.name, t.point)}
    ensures !HasPoint(Occupants(Node(o.name, o.point, t.axis, t.lt, x)), t.point)
  {
    RootApart(t);
    OrderedUniquePoints(t.gt);
    WithoutOne(Occupants(t.gt), o);
    RightBaseSplit(t, o, x);
  }

  /** The split rule at the new node: `lt` lies below the old node, hence
      below `o`; the rest of `gt` lies strictly above `o`, as nothing ties
      with it. */
  lemma RightBaseSplit(t: KdTree, o: Occupant, x: KdTree)
    requires t.Node? && Ordered(t) && o in Occupants(t.gt)
    requires forall o' :: o' in Occupants(t.gt) ==> !Beats(Smallest(t.axis), o', o)
    requires !Tied(Occupants(t.gt), o, t.axis)
    requires Occupants(x) == Occupants(t.gt) - {o}
    ensures Split(Node(o.name, o.point, t.axis, t.lt, x))
  {
    var a := t.axis;
    assert !GoesLeft(a, t.point, o.point);
    forall o' | o' in Occupants(x) ensures !GoesLeft(a, o.point, o'.point) {
      assert !Beats(Smallest(a), o', o);
    }
  }

  /** The `while` loop at one node, allowed `fuel` passes: `None` when the
      passes run out or a pass is refused. */
  function Rebalance(t: KdTree, fuel: nat): (r: Option<KdTree>)
    requires Ordered(t)
    ensures r.Some? ==> Rearranged(t, r.value)
    ensures r.Some? && r.value.Node? ==> -1 <= Count(r.value.lt) - Count(r.value.gt) <= 1
    decreases fuel
  {
    match t
    case Empty => Some(t)
    case Node(_, _, _, lt, gt) =>
      if -1 <= Count(lt) - Count(gt) <= 1 then Some(t)
      else if fuel == 0 then None
      else if Count(lt) > Count(gt) then
        Rebalance(PromoteLeft(t), fuel - 1)
      else
        match PromoteRight(t)
        case None => None
        case Some(t') => Rebalance(t', fuel - 1)
  }

  /** `balance`: the loop at the node, then `balance` on each child, each
      level allowed one pass less. On success every node is balanced, and
      the players and the invariants are those of the input. */
  function Balance(t: KdTree, fuel: nat): (r: Option<KdTree>)
    requires Ordered(t)
    ensures r.Some? ==> Rearranged(t, r.value) && Balanced(r.value)
    decreases fuel
  {
    if t.Empty? then Some(t)
    else if fuel == 0 then None
    else match Rebalance(t, fuel)
      case None => None
      case Some(n) =>
        match (Balance(n.lt, fuel - 1), Balance(n.gt, fuel - 1))
        case (Some(lt), Some(gt)) =>
          Rebuilt(n, lt, gt);
          Some(n.(lt := lt, gt := gt))
        case _ => None
  }

  /** Replacing the children of a balanced node by rearrangements of them
      keeps the node's players, invariants and balance. */
  lemma Rebuilt(n: KdTree, lt: KdTree, gt: KdTree)
    requires n.Node? && Ordered(n) && -1 <= Count(n.lt) - Count(n.gt) <= 1
    requires Rearranged(n.lt, lt) && Rearranged(n.gt, gt) && Balanced(lt) && Balanced(gt)
    ensures Rearranged(n, n.(lt := lt, gt := gt)) && Balanced(n.(lt := lt, gt := gt))
  {
    var m := n.(lt := lt, gt := gt);
    assert Occupants(m) == Occupants(n);
    assert Split(m);
    CountOccupants(n.lt);
    CountOccupants(lt);
    CountOccupants(n.gt);
    CountOccupants(gt);
    assert Alternating(n) ==> Alternating(m);
  }

  /** On a tree that is already balanced, `balance` moves nobody: given one
      pass per level, it returns the tree unchanged. */
  lemma {:induction false} BalanceIdle(t: KdTree, fuel: nat)
    requires Ordered(t) && Balanced(t) && fuel >= Height(t)
    ensures Balance(t, fuel) == Some(t)
    decreases t
  {
    match t
    case Empty =>
    case Node(_, _, _, lt, gt) =>
      assert Height(lt) < fuel && Height(gt) < fuel;
      BalanceIdle(lt, fuel - 1);
      BalanceIdle(gt, fuel - 1);
      RebalanceIdle(t, fuel);
  }

  /** The loop does not run at a node whose sides already differ by at
      most one. */
  lemma RebalanceIdle(t: KdTree, fuel: nat)
    requires t.Node? && Ordered(t) && Balanced(t)
    ensures Rebalance(t, fuel) == Some(t)
  {
  }

  /** `balance` on the whole field: on success the field, its players and
      the invariants are those of the input, and every node is balanced. */
  function BalanceTree(f: T.TwoDTree, fuel: nat): (r: Option<T.TwoDTree>)
    requires T.Valid(f)
    ensures r.Some? ==>
              && T.Valid(r.value) && r.value.nw == f.nw && r.value.se == f.se
              && Occupants(r.value.root) == Occupants(f.root) && Balanced(r.value.root)
  {
    match Balance(f.root, fuel)
    case None => None
    case Some(root) => Some(f.(root := root))
  }

  /** No two players share a coordinate on either axis. */
  ghost predicate NoTies(s: set<Occupant>) {
    forall o1, o2 {:trigger Untied(o1, o2)} :: o1 in s && o2 in s ==> Untied(o1, o2)
  }

  /** Two different players differ on both coordinates. */
  predicate Untied(o1: Occupant, o2: Occupant) {
    o1 != o2 ==> o1.point.x != o2.point.x && o1.point.y != o2.point.y
  }

  /** Fewer players cannot tie more. */
  lemma NoTiesSubset(s: set<Occupant>, sub: set<Occupant>)
    requires NoTies(s) && sub <= s
    ensures NoTies(sub)
  {
  }

  /** Without ties, the old player of the node lands in `gt` after
      `promote_left`: `lt` loses one player and `gt` gains one. */
  lemma PromoteLeftShifts(t: KdTree)
    requires t.Node? && t.lt.Node? && Ordered(t) && NoTies(Occupants(t))
    ensures PromoteLeft(t).Node?
    ensures Count(PromoteLeft(t).lt) + 1 == Count(t.lt)
    ensures Count(PromoteLeft(t).gt) == Count(t.gt) + 1
  {
    var a := t.axis;
    var root := Occupant(t.name, t.point);
    var o := FindInfo(t.lt, Largest(a));
    var x := RemovePoint(t.lt, o.point, Corrected);
    RootApart(t);
    assert Untied(o, root);
    assert GoesLeft(a, t.point, o.point);
    assert !GoesLeft(a, o.point, t.point);
    var g := InsertHelper(t.gt, Other(a), root);
    assert PromoteLeft(t) == Node(o.name, o.point, a, x, g);
    OrderedUniquePoints(t.lt);
    WithoutOne(Occupants(t.lt), o);
    CountOccupants(t.lt);
    CountOccupants(x);
    CountOccupants(t.gt);
    CountOccupants(g);
  }

  /** Without ties, `promote_right` is never refused, and the old player of
      the node lands in `lt`: `gt` loses one player and `lt` gains one. */
  lemma PromoteRightShifts(t: KdTree)
    requires t.Node? && t.gt.Node? && Ordered(t) && NoTies(Occupants(t))
    ensures PromoteRight(t).Some? && PromoteRight(t).value.Node?
    ensures Count(PromoteRight(t).value.lt) == Count(t.lt) + 1
    ensures Count(PromoteRight(t).value.gt) + 1 == Count(t.gt)
  {
    var a := t.axis;
    var root := Occupant(t.name, t.point);
    var o := FindInfo(t.gt, Smallest(a));
    assert !Tied(Occupants(t.gt), o, a) by {
      forall o' | o' in Occupants(t.gt) && o' != o ensures Coord(o'.point, a) != Coord(o.point, a) {
        assert Untied(o', o);
      }
    }
    var x := RemovePoint(t.gt, o.point, Corrected);
    RootApart(t);
    assert !GoesLeft(a, t.point, o.point);
    assert GoesLeft(a, o.point, t.point);
    var l := InsertHelper(t.lt, Other(a), root);
    assert PromoteRight(t) == Some(Node(o.name, o.point, a, l, x));
    OrderedUniquePoints(t.gt);
    WithoutOne(Occupants(t.gt), o);
    CountOccupants(t.gt);
    CountOccupants(x);
    CountOccupants(t.lt);
    CountOccupants(l);
  }

  /** Without ties, every pass moves one player from the larger side to the
      smaller, so the loop ends once the fuel covers the difference. */
  lemma {:induction false} RebalanceSucceeds(t: KdTree, fuel: nat)
    requires Ordered(t) && NoTies(Occupants(t))
    requires t.Node? ==> -(fuel as int) - 1 <= Count(t.lt) - Count(t.gt) <= fuel + 1
    ensures Rebalance(t, fuel).Some?
    decreases fuel
  {
    if t.Empty? || -1 <= Count(t.lt) - Count(t.gt) <= 1 {
      PassNone(t, fuel);
    } else {
      var t' := RebalancePass(t, fuel);
      RebalanceSucceeds(t', fuel - 1);
    }
  }

  /** One pass of the loop without ties, in either direction: what remains
      fits in one pass less. */
  lemma RebalancePass(t: KdTree, fuel: nat) returns (t': KdTree)
    requires t.Node? && Ordered(t) && NoTies(Occupants(t))
    requires -(fuel as int) - 1 <= Count(t.lt) - Count(t.gt) <= fuel + 1
    requires !(-1 <= Count(t.lt) - Count(t.gt) <= 1)
    ensures fuel > 0 && Ordered(t') && NoTies(Occupants(t'))
    ensures t'.Node? ==> -((fuel - 1) as int) - 1 <= Count(t'.lt) - Count(t'.gt) <= fuel
    ensures Rebalance(t', fuel - 1).Some? ==> Rebalance(t, fuel).Some?
  {
    if Count(t.lt) > Count(t.gt) {
      t' := RebalanceLeft(t, fuel);
    } else {
      t' := RebalanceRight(t, fuel);
    }
  }

  /** The loop does not run on an empty tree or at a node whose sides
      already differ by at most one. */
  lemma PassNone(t: KdTree, fuel: nat)
    requires Ordered(t) && (t.Empty? || -1 <= Count(t.lt) - Count(t.gt) <= 1)
    ensures Rebalance(t, fuel) == Some(t)
  {
  }

  /** A `promote_left` pass without ties: it keeps the players and moves
      one of them from `lt` to `gt`. */
  lemma RebalanceLeft(t: KdTree, fuel: nat) returns (t': KdTree)
    requires t.Node? && Ordered(t) && NoTies(Occupants(t)) && fuel > 0
    requires Count(t.lt) > Count(t.gt) + 1
    ensures Ordered(t') && Occupants(t') == Occupants(t) && t'.Node? && NoTies(Occupants(t'))
    ensures Rebalance(t', fuel - 1).Some? ==> Rebalance(t, fuel).Some?
    ensures Count(t'.lt) - Count(t'.gt) == Count(t.lt) - Count(t.gt) - 2
  {
    assert t.lt.Node?;
    t' := PromoteLeft(t);
    PromoteLeftShifts(t);
    PassLeft(t, fuel);
  }

  /** A `promote_right` pass without ties: it is not refused, keeps the
      players and moves one of them from `gt` to `lt`. */
  lemma RebalanceRight(t: KdTree, fuel: nat) returns (t': KdTree)
    requires t.Node? && Ordered(t) && NoTies(Occupants(t)) && fuel > 0
    requires Count(t.lt) + 1 < Count(t.gt)
    ensures Ordered(t') && Occupants(t') == Occupants(t) && t'.Node? && NoTies(Occupants(t'))
    ensures Rebalance(t', fuel - 1).Some? ==> Rebalance(t, fuel).Some?
    ensures Count(t'.lt) - Count(t'.gt) == Count(t.lt) - Count(t.gt) + 2
  {
    assert t.gt.Node?;
    PromoteRightShifts(t);
    t' := PromoteRight(t).value;
    PassRight(t, fuel, t');
  }

  /** The loop's first pass at a node whose `lt` is larger. */
  lemma PassLeft(t: KdTree, fuel: nat)
    requires t.Node? && t.lt.Node? && Ordered(t) && fuel > 0 && Count(t.lt) > Count(t.gt) + 1
    ensures Rebalance(t, fuel) == Rebalance(PromoteLeft(t), fuel - 1)
  {
  }

  /** The loop's first pass at a node whose `gt` is larger, when it is not
      refused. */
  lemma PassRight(t: KdTree, fuel: nat, t': KdTree)
    requires t.Node? && t.gt.Node? && Ordered(t) && fuel > 0 && Count(t.lt) + 1 < Count(t.gt)
    requires PromoteRight(t) == Some(t')
    ensures Rebalance(t', fuel - 1).Some? ==> Rebalance(t, fuel).Some?
  {
  }

  /** Without ties, `balance` succeeds whenever the fuel is at least the
      number of players. */
  lemma {:induction false} BalanceSucceeds(t: KdTree, fuel: nat)
    requires Ordered(t) && NoTies(Occupants(t)) && fuel >= Count(t)
    ensures Balance(t, fuel).Some?
    decreases fuel, 1
  {
    if t.Empty? {
      BalanceNone(fuel);
    } else {
      BalanceNodeSucceeds(t, fuel);
    }
  }

  /** `balance` leaves an empty tree empty. */
  lemma BalanceNone(fuel: nat)
    ensures Balance(Empty, fuel) == Some(Empty)
  {
  }

  /** Without ties, the loop at a node succeeds, its children then fit in
      one level less, and `balance` succeeds on both. */
  lemma {:induction false} BalanceNodeSucceeds(t: KdTree, fuel: nat)
    requires t.Node? && Ordered(t) && NoTies(Occupants(t)) && fuel >= Count(t)
    ensures Balance(t, fuel).Some?
    decreases fuel, 0
  {
    RebalanceSucceeds(t, fuel);
    var n := Rebalance(t, fuel).value;
    KidsSmaller(t, n);
    NoTiesSubset(Occupants(t), Occupants(n.lt));
    NoTiesSubset(Occupants(t), Occupants(n.gt));
    var f: nat := fuel - 1;
    BalanceSucceeds(n.lt, f);
    BalanceSucceeds(n.gt, f);
    BalanceStep(t, fuel, n, f);
  }

  /** The children of a rearranged node hold fewer players than the node,
      and only players of the node. */
  lemma KidsSmaller(t: KdTree, n: KdTree)
    requires t.Node? && Ordered(t) && Rearranged(t, n)
    ensures Count(n.lt) < Count(t) && Count(n.gt) < Count(t)
    ensures Occupants(n.lt) <= Occupants(t) && Occupants(n.gt) <= Occupants(t)
  {
    CountOccupants(t);
    CountOccupants(n);
  }

  /** `balance` succeeds at a node once the loop and both children do. */
  lemma BalanceStep(t: KdTree, fuel: nat, n: KdTree, f: nat)
    requires t.Node? && Ordered(t) && fuel == f + 1 && Rebalance(t, fuel) == Some(n)
    requires Balance(n.lt, f).Some? && Balance(n.gt, f).Some?
    ensures Balance(t, fuel).Some?
  {
    Rebuilt(n, Balance(n.lt, f).value, Balance(n.gt, f).value);
  }

  /** Without ties, `balance` on the field succeeds given one unit of fuel
      per player. */
  lemma BalanceTreeSucceeds(f: T.TwoDTree, fuel: nat)
    requires T.Valid(f) && NoTies(Occupants(f.root)) && fuel >= Count(f.root)
    ensures BalanceTree(f, fuel).Some?
  {
    BalanceSucceeds(f.root, fuel);
  }

  /** Three players in a chain, each south-east of the last. */
  function Chain(): KdTree {
    Node("a", Point(10, 10), X, Empty,
      Node("b", Point(20, 20), Y, Empty, Node("c", Point(30, 30), X, Empty, Empty)))
  }

  /** The chain once balanced: "b" at the root, "a" and "c" its children. */
  function ChainBalanced(): KdTree {
    Node("b", Point(20, 20), X,
      Node("a", Point(10, 10), Y, Empty, Empty),
      Node("c", Point(30, 30), Y, Empty, Empty))
  }

  /** `balance` on the chain, given three passes or more: "b", the least of
      `gt` on `x`, takes the root, and "a" and "c" become its children. */
  lemma BalanceChain(fuel: nat)
    requires fuel >= 3
    ensures Balance(Chain(), fuel) == Some(ChainBalanced())
  {
    var t, n := Chain(), ChainBalanced();
    ChainPromoted();
    PassRightValue(t, fuel, n);
    ChainBalancedIdle(fuel - 1);
    BalanceValue(t, fuel, n);
  }

  /** The balanced chain is left as it is by the loop and by `balance` on
      its two leaves. */
  lemma ChainBalancedIdle(fuel: nat)
    requires fuel >= 2
    ensures Rebalance(ChainBalanced(), fuel) == Some(ChainBalanced())
    ensures Balance(ChainBalanced().lt, fuel) == Some(ChainBalanced().lt)
    ensures Balance(ChainBalanced().gt, fuel) == Some(ChainBalanced().gt)
  {
    var n := ChainBalanced();
    PassNone(n, fuel);
    BalanceIdle(n.lt, fuel);
    BalanceIdle(n.gt, fuel);
  }

  /** The one pass: `promote_right` with "b", which ties with no one. */
  lemma ChainPromoted()
    ensures Ordered(Chain()) && Count(Chain().gt) - Count(Chain().lt) == 2
    ensures PromoteRight(Chain()) == Some(ChainBalanced())
  {
    ChainOrdered();
    var b, c := Occupant("b", Point(20, 20)), Occupant("c", Point(30, 30));
    var gt := Chain().gt;
    assert Collect(gt) == [b, c];
    assert FindInfo(gt, SmallX) == b;
    assert !Tied(Occupants(gt), b, X) by {
      assert Occupants(gt) == {b, c};
    }
    assert Collect(gt.gt) == [c];
    assert FindInfo(gt.gt, BigY) == c;
    assert RemovePoint(gt, b.point, Corrected) == ChainBalanced().gt;
  }

  /** The chain keeps the partition rule, and its `gt` side holds two more
      players than its `lt` side. */
  lemma ChainOrdered()
    ensures Ordered(Chain()) && Count(Chain().gt) - Count(Chain().lt) == 2
  {
  }

  /** The loop's first pass at a node whose `gt` is larger, as an equation. */
  lemma PassRightValue(t: KdTree, fuel: nat, t': KdTree)
    requires t.Node? && t.gt.Node? && Ordered(t) && fuel > 0 && Count(t.lt) + 1 < Count(t.gt)
    requires PromoteRight(t) == Some(t')
    ensures Rebalance(t, fuel) == Rebalance(t', fuel - 1)
  {
  }

  /** `balance` at a node whose loop and children leave everything in
      place below the loop's result. */
  lemma BalanceValue(t: KdTree, fuel: nat, n: KdTree)
    requires t.Node? && Ordered(t) && fuel > 0 && Rebalance(t, fuel) == Some(n) && n.Node?
    requires Balance(n.lt, fuel - 1) == Some(n.lt) && Balance(n.gt, fuel - 1) == Some(n.gt)
    ensures Balance(t, fuel) == Some(n)
  {
  }

  /** Removing a point held below an inner node leaves the node's own player
      where it is. */
  lemma RemovePointBelow(t: KdTree, p: Point, rule: RootRule)
    requires t.Node? && !t.IsLeaf() && p != t.point && Ordered(t)
    ensures RemovePoint(t, p, rule).Node?
    ensures RemovePoint(t, p, rule).name == t.name && RemovePoint(t, p, rule).point == t.point
    ensures Occupants(RemovePoint(t, p, rule).lt) <= Occupants(t.lt)
    ensures Occupants(RemovePoint(t, p, rule).gt) <= Occupants(t.gt)
  {
  }

  /** `_remove_root_request` as the source writes it: the greatest player of
      `lt` on `x` (`big_x`), or the least player of `gt` on `x` (`small_x`),
      whatever axis the node splits on. That player is removed by its point,
      starting at the node and with the source's refill rule, and then
      written into the node. Only the node's own player is lost. */
  function RemoveRootRequest(t: KdTree, left: bool): (r: KdTree)
    requires t.Node? && (if left then t.lt.Node? else t.gt.Node?) && Ordered(t)
    ensures r.Node? && r.axis == t.axis
    ensures Occupants(r) == Occupants(t) - {Occupant(t.name, t.point)}
  {
    var o := if left then FindInfo(t.lt, BigX) else FindInfo(t.gt, SmallX);
    RootApart(t);
    RemovePointBelow(t, o.point, AsWritten);
    var s := RemovePoint(t, o.point, AsWritten);
    RequestLosesRoot(t, o, s);
    Node(o.name, o.point, s.axis, s.lt, s.gt)
  }

  /** The player written into the node replaces the node's own, and no one
      else is lost. */
  lemma RequestLosesRoot(t: KdTree, o: Occupant, s: KdTree)
    requires t.Node? && Ordered(t) && o in Occupants(t.lt) + Occupants(t.gt)
    requires s.Node? && s.name == t.name && s.point == t.point
    requires Occupants(s.lt) <= Occupants(t.lt) && Occupants(s.gt) <= Occupants(t.gt)
    requires Occupants(s) == WithoutPoint(Occupants(t), o.point)
    ensures Occupants(Node(o.name, o.point, s.axis, s.lt, s.gt)) == Occupants(t) - {Occupant(t.name, t.point)}
  {
    RootApart(t);
    OrderedUniquePoints(t);
    WithoutOne(Occupants(t), o);
  }

  /** A node splitting on `y` whose `lt` is two players larger than `gt`. */
  function YNode(): KdTree {
    Node("p", Point(50, 50), Y,
      Node("q", Point(10, 40), X, Empty, Node("r", Point(20, 10), Y, Empty, Empty)),
      Empty)
  }

  /** The node keeps the partition rule, and its `lt` side holds two more
      players than its `gt` side. */
  lemma YNodeOrdered()
    ensures Ordered(YNode()) && Count(YNode().lt) - Count(YNode().gt) == 2
  {
  }

  /** At a node splitting on `y`, `big_x` picks "r", the easternmost player of
      `lt`, and "q" stays in `lt` though it lies south of "r": the split rule
      breaks. */
  lemma RequestAtYNodeUnordered()
    ensures Ordered(YNode()) && Count(YNode().lt) - Count(YNode().gt) == 2
    ensures RemoveRootRequest(YNode(), true) ==
              Node("r", Point(20, 10), Y, Node("q", Point(10, 40), X, Empty, Empty), Empty)
    ensures !Ordered(RemoveRootRequest(YNode(), true))
  {
    YNodeOrdered();
  }

  /** The model's pass at the same node picks the southernmost player and
      keeps the split rule. */
  lemma YNodePromoted()
    ensures Rearranged(YNode(), PromoteLeft(YNode()))
  {
    YNodeOrdered();
  }

  /** `insert` called on a node, as the loop of `balance` does. `frame` is
      the node's `_nw` and `_se`: the field's corners at the root, `None` on
      every other node. Below the root the bounds test indexes `None` and
      raises `TypeError` (here `None`) before anything else; at the root the
      call is the field's `insert`. */
  function InsertOnNode(t: KdTree, frame: Option<(Point, Point)>, name: string, p: Point)
    : (r: Option<Result<KdTree>>)
    requires frame.Some? ==> T.Valid(T.TwoDTree(frame.value.0, frame.value.1, t))
    ensures r.None? <==> frame.None?
    ensures r.Some? ==>
              (r.value.OutOfBounds? <==>
                 !T.InField(T.TwoDTree(frame.value.0, frame.value.1, t), p) || HasPoint(Occupants(t), p))
    ensures r.Some? && r.value.Ok? ==> Occupants(r.value.value) == Occupants(t) + {Occupant(name, p)}
  {
    match frame
    case None => None
    case Some((nw, se)) =>
      match T.Insert(T.TwoDTree(nw, se, t), name, p)
      case OutOfBounds => Some(OutOfBounds)
      case Ok(f) => Some(Ok(f.root))
  }

  /** A field whose root is balanced but whose `lt` is not. */
  function LopsidedKid(): KdTree {
    Node("m", Point(50, 50), X,
      Node("a", Point(10, 10), Y, Empty,
        Node("b", Point(20, 20), X, Empty, Node("c", Point(30, 30), Y, Empty, Empty))),
      Node("d", Point(60, 60), Y, Empty, Node("e", Point(70, 70), X, Empty, Empty)))
  }

  /** The field keeps the partition rule; its root's sides hold three and
      two players, and the sides of its `lt` none and two. */
  lemma LopsidedKidOrdered()
    ensures Ordered(LopsidedKid())
    ensures -1 <= Count(LopsidedKid().lt) - Count(LopsidedKid().gt) <= 1
    ensures Count(LopsidedKid().lt.gt) - Count(LopsidedKid().lt.lt) == 2
  {
  }

  /** The loop does not run at the root, so `balance` goes on to `lt`. Its
      first pass takes "a" out of the tree and then raises `TypeError` in
      `insert`, so "a" is lost. */
  lemma BalanceBelowRootRaises()
    ensures Ordered(LopsidedKid())
    ensures -1 <= Count(LopsidedKid().lt) - Count(LopsidedKid().gt) <= 1
    ensures Count(LopsidedKid().lt.gt) - Count(LopsidedKid().lt.lt) == 2
    ensures Occupant("a", Point(10, 10)) !in Occupants(RemoveRootRequest(LopsidedKid().lt, false))
    ensures InsertOnNode(RemoveRootRequest(LopsidedKid().lt, false), None, "a", Point(10, 10)).None?
  {
    LopsidedKidOrdered();
  }

  /** The model's `balance` re-inserts from the node and balances the same
      field. */
  lemma LopsidedKidBalances(fuel: nat)
    requires fuel >= 6
    ensures Balance(LopsidedKid(), fuel).Some?
  {
    var t := LopsidedKid();
    LopsidedKidOrdered();
    var s := Occupants(t);
    BalanceSucceeds(t, fuel);
  }
}
