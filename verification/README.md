# Tag: the player indexes and the player record

This project is a Dafny model of the core of a small game of tag. Players
stand on integer points of a rectangular field. The game keeps them in a
spatial index. It asks that index which players stand near a point, and it
moves them step by step.

There are two indexes:

- **`QuadTree`**: a region quadtree. Every node has a fixed centre, and only
  leaves hold a player.
- **`TwoDTree`**: a 2-d tree. Every node holds a player, and nodes split
  alternately on `x` and `y`.

A `Player` keeps points, speed, colour, vision, lists of target and enemy
names, and a compass direction.

Throughout, a player stored in an index is an `Occupant(name, point)`, and
an index stands for the set of its occupants. Every operation is a pure
function from the old index to the new one. An operation that raises
`OutOfBoundsError` returns `OutOfBounds` and no new index, so nothing
changes. For each index, the model states its representation invariant and
proves four kinds of property about every operation:

- the operation keeps the invariant;
- it changes the set of players exactly as intended;
- the tree-directed searches (`contains_point`, `_find_name`,
  `names_in_range`) agree with brute-force definitions over that set;
- its error cases hold.

Where the source has a defect, listed under "## Findings", the operation is
modelled with the corrected rule, and a separate member models the code as
written and exhibits the defect. Rows of such operations in "## Model" say
"(corrected rule, see Findings)".

Modules follow the source:

- `Geometry`: points, directions, `_calc_point`, `_find_xy_range`.
- `SpatialIndex`: occupants and the set vocabulary shared by both trees.
- `Quadrants`, `QuadTrees`, `QuadTreeInsertion`, `QuadTreeRemoval`,
  `QuadTreeMoves`, `QuadTreeRange`, `QuadTreeBounds`: the `QuadTree`.
- `KdTrees`, `KdTreeUpdates`, `KdTreeRange`, `KdTreeBalance`, `TwoDTrees`:
  the `TwoDTree`. The node-level code lives in the `KdTree*` modules. The
  field's corners and bounds checks live in `TwoDTrees`.
- `Players`: the `Player` bookkeeping.

The source's strings for directions are datatypes here (`Dir`, `Diagonal`).
So are its `_find_info` requests (`Request`).

## Model

| member | source | states |
|---|---|---|
| Geometry.Reverse | players.py:293-310 | the opposite direction lies on the same axis and points the other way |
| Geometry.ReverseInvolution | players.py:293-310 | reversing twice gives the original direction, and no direction is its own reverse |
| Geometry.CalcPoint | trees.py:951-963 | exactly one coordinate changes, by `steps`; `y` grows southwards and `x` eastwards |
| Geometry.CalcPointReverse | trees.py:951-963 | going back the same number of steps in the reverse direction returns to the start; negative steps move the other way |
| Geometry.CalcPointAdditive | trees.py:951-963 | two moves in one direction add up to one move |
| Geometry.FindXYRange | trees.py:966-979 | the query box is spanned by the anchor and the point reached by `distance` steps along both components of the diagonal |
| Geometry.InQueryBox | trees.py:966-979 | for a non-negative distance, a point is in the box iff it is on the diagonal's side of the anchor on both axes, at most `distance` away on each |
| Geometry.AnchorInQueryBox | trees.py:966-979 | the anchor always lies in its own query box |
| Quadrants.FindRegion | trees.py:399-410 | the quadrant is a west one iff `p.x <= c.x`, and a north one iff `p.y <= c.y` |
| Quadrants.QuadrantPartition | trees.py:399-410 | every point lies in exactly one quadrant, the one `_find_region` names |
| Quadrants.TruncHalf | trees.py:426-442 | `int((a + b) / 2)` halves the sum, rounding toward zero |
| Quadrants.RootCornersFacts | trees.py:286-313 | the corners `insert` starts from form a rectangle whose midpoint is the root's centre, and the field is exactly that rectangle |
| Quadrants.QuadrantCorners | trees.py:372-397 | `_corner_helper` gives a rectangle inside the parent's, centred on the `_find_centre` point, that holds every point of the parent in that quadrant and is no wider |
| Quadrants.QuadrantShrinks | trees.py:315-370 | two distinct points of one quadrant lie in a strictly smaller square, so the demotion chain of `_insert_helper` ends |
| QuadTrees.Size | trees.py:827-848 | a tree has at least one node, and exactly one iff it is a leaf (an empty tree counts as one) |
| QuadTrees.Height | trees.py:850-872 | a tree is at least one node high, and exactly one iff it is a leaf |
| QuadTrees.HeightBounds | trees.py:850-872 | the height is at least one and at most the number of nodes |
| QuadTrees.EmptyValid | trees.py:215-229 | a new tree with a non-negative centre meets the invariant and holds no player |
| QuadTrees.EmptyIffNoOccupants | trees.py:942-948 | an ordered node is empty iff it stores no player |
| QuadTrees.CentredInside | trees.py:173-213 | every player of a centred tree lies inside its square |
| QuadTrees.OrderedUniquePoints | trees.py:173-213 | no two players of an ordered tree share a point |
| QuadTrees.Promote | trees.py:519-533 | the node keeps its players and centre; it is either unchanged or was the parent of a sole leaf and is now a leaf; it never has a sole leaf child afterwards |
| QuadTrees.PromoteOrdered | trees.py:519-533 | promotion keeps the ordering invariant and keeps a non-empty node non-empty |
| QuadTrees.PromoteCentred | trees.py:519-533 | promotion keeps a node centred in its square |
| QuadTrees.ContainsName | trees.py:231-252 | true iff some stored player has the name |
| QuadTrees.ContainsPoint | trees.py:254-284 | searching only the point's quadrant, true iff some stored player stands at the point |
| QuadTrees.FindPoint | trees.py:661-682 | finds a point iff the name is stored, and the player with that name stands there |
| QuadTrees.FindName | trees.py:744-766 | finds a name iff a player stands at the point, and that player has the name |
| QuadTrees.OccupantsBound | trees.py:827-848 | a tree has at least as many nodes as players |
| QuadTreeInsertion.InsertHelper | trees.py:315-370 | the result holds exactly the old players plus the new one; it keeps the centre, the ordering, the centring and the compactness; it is non-empty, and internal if the node was non-empty |
| QuadTreeInsertion.Demote | trees.py:323-336 | pushing a same-quadrant occupant one level down inserts exactly the new player |
| QuadTreeInsertion.Split | trees.py:337-350 | hanging both occupants as leaves in their own quadrants inserts exactly the new player |
| QuadTreeInsertion.Descend | trees.py:351-370 | passing the player to its quadrant's child, created when missing, inserts exactly that player |
| QuadTreeInsertion.Insert | trees.py:286-313 | `OutOfBounds` iff the point is outside the field or taken; otherwise the tree is valid, holds the old players plus the new one, and finds its name and point (corrected rule, see Findings) |
| QuadTreeRemoval.Remove | trees.py:444-517 | exactly one player with the name leaves the tree if there is one, else the players are unchanged; ordering, centre and compactness are kept |
| QuadTreeRemoval.RemoveValid | trees.py:444-533 | removal by name keeps the whole representation invariant |
| QuadTreeRemoval.RemoveUnique | trees.py:444-488 | with unique names, exactly the named player goes and the name is no longer found |
| QuadTreeRemoval.RemovePoint | trees.py:535-606 | exactly the player at the point goes; everything else stays; a compact tree without that point is returned unchanged |
| QuadTreeRemoval.RemovePointValid | trees.py:535-606 | removal by point keeps the whole representation invariant |
| QuadTreeRemoval.RemovePointAsWrittenAgrees | trees.py:579-606 | whenever the source's removal returns, it agrees with the model, and it returns for every stored point |
| QuadTreeRemoval.RemovePointAsWrittenFails | trees.py:579-606 | removing the unoccupied point (400, 100) from a two-player tree reaches a missing child |
| QuadTreeRemoval.RemovePointUnoccupied | trees.py:535-577 | the corrected removal leaves that tree as it is |
| QuadTreeMoves.Relocate | trees.py:608-659 | the moved player stands at the new point, and no other player changes |
| QuadTreeMoves.Move | trees.py:608-659 | an unknown name changes nothing; a target outside the field or taken raises the error; otherwise the player stands at the target, which is returned (corrected rule, see Findings) |
| QuadTreeMoves.MovePoint | trees.py:684-742 | an empty point changes nothing; a blocked target raises the error; otherwise the player `_find_name` names stands at the target (corrected rule, see Findings) |
| QuadTreeRange.NotVisitedOutside | trees.py:804-825 | with the intended tests, a skipped quadrant holds no point of the box |
| QuadTreeRange.WalkComplete | trees.py:768-825 | with the intended tests, the walk finds exactly the names the brute-force scan finds |
| QuadTreeRange.NamesInRange | trees.py:768-825 | the names listed are exactly those of the players in the query box |
| QuadTreeRange.NamesInRangeAsWritten | trees.py:768-825 | with the source's south-east test, only names from the box are listed, though some can be missed |
| QuadTreeRange.WalkSound | trees.py:768-825 | whatever the tests, no name from outside the box is listed |
| QuadTreeRange.SouthEastTestMisses | trees.py:822 | a search 20 steps south-east of (390, 190) should find "a"; the source finds nothing and the corrected search finds it |
| QuadTreeBounds.InBoundsAsWrittenAccepts | trees.py:305-306 | the source's test accepts the whole field; on non-negative points it agrees with the field; otherwise it accepts exactly the points with a negative coordinate under the upper bounds |
| QuadTreeBounds.OriginFixed | trees.py:426-442 | for a held point north-west of the origin, demotion at the origin frame stays there |
| QuadTreeBounds.DescentToOrigin | trees.py:315-352 | seven demotions towards (-10, -10) from the field of centre (50, 50) reach the origin frame |
| QuadTreeBounds.DemotionsNonNegative | trees.py:372-442 | frames reached from a non-negative frame stay non-negative |
| QuadTreeBounds.NegativeInsertNeverSplits | trees.py:305-352 | the source accepts (-10, -10) and (-20, -20), and at every depth both fall in the same quadrant, so the insertion never ends |
| QuadTreeBounds.NegativeInsertRefused | trees.py:286-313 | the corrected insertion refuses (-10, -10) |
| KdTrees.RootApart | trees.py:982-1027 | a node's player is not stored below it |
| KdTrees.KidsApart | trees.py:982-1027 | the two children hold no common point |
| KdTrees.OrderedUniquePoints | trees.py:982-1027 | no two players of an ordered tree share a point |
| KdTrees.CountOccupants | trees.py:1559-1580 | in an ordered tree the node count equals the number of players |
| KdTrees.EmptyIffNoOccupants | trees.py:1674-1687 | only the empty tree stores no player |
| KdTrees.HeightBelowCount | trees.py:1582-1609 | the height is at most the node count |
| KdTrees.CountBelowPow2 | trees.py:1582-1609 | a tree of height h has fewer than 2^h nodes |
| KdTrees.Contains | trees.py:1092-1114 | true iff some stored player has the name |
| KdTrees.ContainsPoint | trees.py:1116-1144 | never true for an absent point; in an ordered tree, true for every stored one |
| KdTrees.FindName | trees.py:1478-1497 | a reported name belongs to the player at the point; in an ordered tree every stored point is found |
| KdTrees.FindPoint | trees.py:1397-1416 | finds a point iff the name is stored, and the player with that name stands there |
| KdTrees.Collect | trees.py:1288-1304 | lists every player of the tree, one entry per node |
| KdTrees.FirstExtreme | trees.py:1273-1286 | nothing in the list beats the chosen entry, and it beats every entry before it |
| KdTrees.FindInfo | trees.py:1269-1286 | the reported player is in the tree and no player beats it on the requested extreme |
| KdTrees.FindInfoFirst | trees.py:1269-1286 | the reported player is the first such extreme in preorder |
| KdTreeUpdates.InsertHelper | trees.py:1169-1206 | the result holds the old players plus the new one, stays ordered and alternating, and is a node on the expected axis |
| KdTreeUpdates.RemovePoint | trees.py:1306-1342 | exactly the player at the point goes; the alternation and the node's axis are kept, and with the corrected refill so is the order |
| KdTreeUpdates.RemoveRoot | trees.py:1242-1267 | the node's own player goes and no other; alternation and axis are kept, and with the corrected rule so is the order |
| KdTreeUpdates.RefillFromLeft | trees.py:1246-1251 | the greatest player of `lt` in the node's place leaves every other player and keeps the order |
| KdTreeUpdates.RefillFromRight | trees.py:1252-1256 | the least player of `gt` in the place of a node without `lt` leaves every other player |
| KdTreeUpdates.RefillFromRightCorrected | trees.py:1252-1256 | the greatest player of `gt`, with the rest of `gt` moved to `lt`, leaves every other player and keeps the order |
| KdTreeUpdates.CutLeafKid | trees.py:1231-1236 | cutting off a leaf child loses exactly its player |
| KdTreeUpdates.Remove | trees.py:1208-1240 | exactly one player with the name goes if there is one; alternation and axis are kept, and with the corrected refill so is the order |
| KdTreeUpdates.RemoveLeft | trees.py:1237-1238 | a removal inside `lt` takes exactly one named player out of the whole tree |
| KdTreeUpdates.RemoveRight | trees.py:1239-1240 | a removal inside `gt` takes exactly one named player out of the whole tree |
| KdTreeRange.WalkComplete | trees.py:1499-1557 | in an ordered tree the pruned walk finds exactly the names the brute-force scan finds |
| KdTreeRange.SideComplete | trees.py:1499-1557 | a child skipped by the walk holds no player of the box |
| KdTreeBalance.OwnPointFree | trees.py:1046-1075 | a node's point is free once its player is taken out, so it can be inserted again |
| KdTreeBalance.PromoteLeft | trees.py:1060-1067 | promoting the greatest player of `lt` and re-inserting the old one keeps the players and the invariants |
| KdTreeBalance.PromoteRight | trees.py:1077-1090 | the pass is refused iff another player of `gt` ties with its least one; otherwise it keeps the players and the invariants |
| KdTreeBalance.RightBase | trees.py:1086-1090 | the least player of `gt` in the node's place gives an ordered node without the old player |
| KdTreeBalance.RightBaseSplit | trees.py:1086-1090 | that node keeps the split rule |
| KdTreeBalance.Rebalance | trees.py:1057-1070 | when the loop ends, the players and invariants are kept and the two sides differ by at most one |
| KdTreeBalance.Balance | trees.py:1046-1075 | on success, the players and invariants are kept and every node is balanced |
| KdTreeBalance.Rebuilt | trees.py:1072-1075 | balancing the children of a balanced node keeps its players, invariants and balance |
| KdTreeBalance.BalanceIdle | trees.py:1046-1075 | on a balanced tree, balancing changes nothing |
| KdTreeBalance.BalanceTree | trees.py:1046-1075 | on success the field is valid, with the same corners and players, and balanced |
| KdTreeBalance.PromoteLeftShifts | trees.py:1060-1067 | without ties, a `promote_left` pass moves exactly one player from `lt` to `gt` |
| KdTreeBalance.PromoteRightShifts | trees.py:1077-1090 | without ties, a `promote_right` pass is never refused and moves exactly one player from `gt` to `lt` |
| KdTreeBalance.RebalanceSucceeds | trees.py:1057-1070 | without ties, the loop ends once the fuel covers the difference between the two sides |
| KdTreeBalance.BalanceSucceeds | trees.py:1046-1075 | without ties, `balance` succeeds whenever the fuel is at least the number of players |
| KdTreeBalance.BalanceTreeSucceeds | trees.py:1046-1075 | without ties, balancing the field succeeds given one unit of fuel per player |
| KdTreeBalance.BalanceChain | trees.py:1046-1075 | the chain "a" (10, 10), "b" (20, 20), "c" (30, 30) is balanced to "b" with children "a" and "c" |
| KdTreeBalance.RemoveRootRequest | trees.py:1077-1090 | the source's pass asks for `big_x` or `small_x` on any axis; it loses only the node's own player |
| KdTreeBalance.RequestAtYNodeUnordered | trees.py:1077-1090 | at a node splitting on `y`, the source's `big_x` choice breaks the split rule |
| KdTreeBalance.YNodePromoted | trees.py:1060-1067 | at the same node, the corrected pass keeps the split rule |
| KdTreeBalance.InsertOnNode | trees.py:1067 | `insert` below the root raises (`None`); at the root it is the field's `insert` |
| KdTreeBalance.BalanceBelowRootRaises | trees.py:1067 | balancing a field whose root is balanced but whose `lt` is not reaches `insert` below the root, which raises after "a" was taken out |
| KdTreeBalance.LopsidedKidBalances | trees.py:1046-1075 | the corrected `balance` balances that field |
| TwoDTrees.NewTreeValid | trees.py:1029-1044 | a new tree meets the invariants and holds no player |
| TwoDTrees.Insert | trees.py:1146-1167 | `OutOfBounds` iff the point is outside the field or taken; otherwise the tree is valid, holds the old players plus the new one, and finds its name and point |
| TwoDTrees.Remove | trees.py:1208-1240 | the tree stays valid and exactly one player with the name goes, if there is one (corrected rule, see Findings) |
| TwoDTrees.RemoveUnique | trees.py:1208-1240 | with unique names, exactly the named player goes and the name is no longer found |
| TwoDTrees.RemovePoint | trees.py:1306-1342 | the tree stays valid, exactly the player at the point goes, and the point is no longer found (corrected rule, see Findings) |
| TwoDTrees.SizeAndHeight | trees.py:1559-1609 | the size is the number of players (one when empty), and the height lies between one and the size |
| TwoDTrees.NamesInRange | trees.py:1499-1557 | the names listed are exactly those of the players in the query box |
| TwoDTrees.Relocate | trees.py:1344-1395 | the moved player stands at the new point, and no other player changes |
| TwoDTrees.Move | trees.py:1344-1395 | an unknown name changes nothing; a target outside the field or taken raises the error; otherwise the player stands at the target, which is returned (corrected rule, see Findings) |
| TwoDTrees.MovePoint | trees.py:1418-1476 | an empty point changes nothing; a blocked target raises the error; otherwise the player `_find_name` names stands at the target (corrected rule, see Findings) |
| TwoDTrees.ThreePlayers | trees.py:1146-1206 | inserting "a" at (10, 10), "b" at (20, 20) and "c" at (20, 30) builds a right-leaning chain |
| TwoDTrees.BelowRootExtremes | trees.py:1269-1286 | in the subtree of "b" and "c", both tie on x, and `_find_info` reports "b" for either extreme |
| TwoDTrees.BelowRootWithoutB | trees.py:1306-1342 | removing "b" from that subtree lifts "c" into its place |
| TwoDTrees.RemoveA | trees.py:1242-1267 | removing "a" leaves "c" in `gt` as the source does, or in `lt` with the corrected rule |
| TwoDTrees.RemoveRootTieLosesPlayer | trees.py:1252-1256 | after the source's removal, "c" is still stored but `contains_point` misses it; after the corrected one, it is found |
| Players.NewPlayerInv | players.py:39-77 | a new player has no points and meets the invariants iff its vision, speed and colour are allowed |
| Players.SetColour | players.py:79-91 | an allowed colour is taken; any other changes nothing; only the colour changes; the invariants are kept |
| Players.IncreasePoints | players.py:93-103 | the points change by the amount unless they would go negative, in which case nothing changes; the invariants are kept |
| Players.SetSpeed | players.py:203-212 | a non-negative speed is taken and a negative one ignored; the invariants are kept |
| Players.ReverseDirection | players.py:191-201 | the player heads the other way along the same axis, and nothing else changes |
| Players.ReverseTwice | players.py:191-201 | reversing twice restores the player |
| Players.IndexOf | players.py:127-140 | the position of the first occurrence of the name |
| Players.RemoveFirst | players.py:127-140 | the first occurrence is deleted and the rest keeps its order; without an occurrence nothing changes |
| Players.RemoveFirstNoDuplicates | players.py:127-140 | in a list without duplicates, removal deletes exactly that name and leaves no duplicate |
| Players.RemoveAt | players.py:127-140 | deleting one position of a list without duplicates deletes the name there and no other |
| Players.SelectTarget | players.py:115-125 | a name on neither list is appended to the targets, and any other name changes nothing; afterwards the name is on a list; the invariants are kept |
| Players.SelectEnemy | players.py:153-163 | the same for the enemies |
| Players.IgnoreTarget | players.py:127-140 | the name's first occurrence leaves the targets; under the invariants the name is gone and the invariants are kept |
| Players.IgnoreEnemy | players.py:165-178 | the same for the enemies |
| Players.Move | players.py:270-290 | on `OutOfBoundsError` the player keeps its place and turns round; otherwise it takes the reported location |
| Players.MoveOnTwoDTree | players.py:270-290 | on a 2D tree, a blocked target keeps the player in place and reverses it; otherwise the player stands at the target, still facing the same way |

## Left out

- `games.py` and `visualizer.py` are not part of this model. That covers the game loop, scoring rules, drawing and timing.
- `next_direction` picks directions at random from the game's view. It is left out. The direction a `Player` starts with is a parameter of `NewPlayer`.
- `depth` compares nodes by object identity, which pure datatypes do not have. It is left out. So are `is_leaf` and `is_empty` as separate operations: they are the datatype tests.
- The runtime claims in the docstrings, and the `python_ta` checks, are not modelled.
- Player accessors (`get_points`, `get_targets`, `get_enemies`) return copies of fields. The record's fields stand for them.
- Geometry.Reverse: the source's `_reverse` returns `None` for a string that is no direction, and `_calc_point` treats every string other than N, S and W as east. Directions are a datatype here, so those branches cannot be reached.
- Players.Inv: the source also requires that a player's location lies in the game's field. The game is not modelled, so that part is not stated. The model adds that each list is duplicate-free, which the select and ignore operations keep.
- Players.Move: the field's answer is a parameter. `MoveOnTwoDTree` connects it to `TwoDTrees.Move`.
- QuadTrees.FindName: the source dereferences a missing child when the point is not stored. Its only caller asks about stored points. The model answers `None` there.
- QuadTrees.ContainsPoint: states its result only for ordered trees.
- KdTreeBalance.Balance: weaker than the source in two ways. Its contract only speaks of a `Some` result.
  - It refuses a pass in which the least player of `gt` ties with another (`None`). There the source's loop would break the split rule, and it may never end.
  - It takes a `fuel` bound on the number of passes and levels, and reports `None` when the bound runs out.
  - `BalanceSucceeds` shows that neither happens when no two players share a coordinate and the fuel is at least the number of players.
  - Two other differences are corrections, listed under "## Findings". The model picks the extreme of a child on the node's own axis. It also re-inserts the old player from the node itself.
- KdTreeBalance.Rebalance: refused passes and exhausted fuel are reported as `None` rather than modelled. `RebalanceSucceeds` gives the condition under which neither happens.
- KdTreeBalance.BalanceTree: inherits the `None` results of `Balance`. `BalanceTreeSucceeds` gives the condition under which it succeeds.
- KdTreeBalance.PromoteRight: refuses a pass on a tie, as described for `Balance`.
- KdTreeUpdates.RemovePoint: when a leaf child stands at the point, the source cuts it off directly. The model recurses into it, which empties it and gives the same tree.
- KdTreeUpdates.RemovePoint, KdTreeUpdates.RemoveRoot, KdTreeUpdates.Remove: with the as-written rule, the order is not claimed. `TwoDTrees.RemoveRootTieLosesPlayer` shows that it can break.
- Names are not unique in either tree's invariant. Removal by name therefore states that exactly one player with the name goes. `RemoveUnique` gives the consequence when names are unique.

## Findings

| source | as written | input that shows it | evidently intended | confidence | as-written member | corrected member |
|---|---|---|---|---|---|---|
| trees.py:305-306 | `insert` (and the bounds tests of `move` and `move_point`, trees.py:640-653 and 720-731) checks only the upper bounds of the field | a tree centred at (50, 50) accepts (-10, -10); inserting (-20, -20) next demotes forever, since both points fall into the same quadrant at every level | also require both coordinates to be at least zero, as the invariant demands of every point | not executed | QuadTreeBounds.NegativeInsertNeverSplits | QuadTreeBounds.NegativeInsertRefused |
| trees.py:822 | the south-east test of `names_in_range` compares the box's greatest y with the centre's x | a search 20 steps south-east of (390, 190) over "a" at (400, 200) and "b" at (260, 10) reports nothing | compare the box's greatest x with the centre's x | not executed | QuadTreeRange.SouthEastTestMisses | QuadTreeRange.NamesInRange |
| trees.py:579-606 | `_remove_point_helper` follows the child of the point's quadrant without checking that it exists | removing (400, 100) from the tree holding (100, 100) and (400, 400) dereferences the missing north-east child | an absent point leaves the tree unchanged | not executed | QuadTreeRemoval.RemovePointAsWrittenFails | QuadTreeRemoval.RemovePoint |
| trees.py:1252-1256 | `_remove_root` on a node without `lt` takes the least player of `gt`, and the rest of `gt` stays in `gt` | after inserting "a" (10, 10), "b" (20, 20), "c" (20, 30), removing "a" puts "b" at the root and keeps "c" in `gt`, though its x equals the root's; `contains_point((20, 30))` then reports False | take the greatest player of `gt` and make the rest of `gt` the new `lt` | not executed | TwoDTrees.RemoveRootTieLosesPlayer | KdTreeUpdates.RemoveRoot |
| trees.py:1077-1090 | `_remove_root_request` asks for `big_x` and `small_x` whatever axis the node splits on | at the node "p" (50, 50) splitting on `y`, with "q" (10, 40) in `lt` and "r" (20, 10) below it, `big_x` puts "r" in the node, and "q" stays in `lt` though it lies south of "r" | ask for the extreme on the node's own axis (`big_y` and `small_y` at a `y` node) | not executed | KdTreeBalance.RequestAtYNodeUnordered | KdTreeBalance.PromoteLeft |
| trees.py:1067 | `balance` re-inserts the old player with the public `insert`, whose bounds check indexes `_nw`; that is `None` on every node but the root (trees.py:1004-1005, 1161) | in the field "m" (50, 50) with `lt` "a" (10, 10) over "b" (20, 20) and "c" (30, 30), and `gt` "d" (60, 60) over "e" (70, 70), the root is balanced; at "a" the first pass takes "a" out, and `insert` then raises `TypeError`, so "a" is lost | insert the old player below the node without the field's bounds check (`_insert_helper`) | not executed | KdTreeBalance.BalanceBelowRootRaises | KdTreeBalance.LopsidedKidBalances |
