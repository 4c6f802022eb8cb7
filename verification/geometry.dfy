/** Integer geometry shared by both spatial indices: points on the field,
    single-axis moves (`_calc_point`), their reversal (`_reverse`) and the
    query box of a diagonal range search (`_find_xy_range`).
    The y axis grows southwards, so north means a smaller y. */
module Geometry {

  datatype Point = Point(x: int, y: int)

  /** Direction of a single move. */
  datatype Dir = N | S | E | W

  /** Direction of a range query. */
  datatype Diagonal = NE | NW | SE | SW

  /** True for the two directions that move along the y axis. */
  predicate IsVertical(d: Dir) {
    d == N || d == S
  }

  /** +1 for the directions that increase a coordinate (south, east), -1 otherwise. */
  function Sign(d: Dir): int {
    if d == S || d == E then 1 else -1
  }

  /** The opposite compass direction: same axis, opposite sign. */
  function Reverse(d: Dir): (r: Dir)
    ensures IsVertical(r) == IsVertical(d)
    ensures Sign(r) == -Sign(d)
  {
    match d
    case N => S
    case S => N
    case E => W
    case W => E
  }

  /** Reversing twice gives the original direction, and no direction is its own reverse. */
  lemma ReverseInvolution(d: Dir)
    ensures Reverse(Reverse(d)) == d
    ensures Reverse(d) != d
  {
  }

  /** The point `steps` away from `p` in direction `d`: exactly one coordinate
      changes, by `steps`, increasing towards the south and the east. */
  function CalcPoint(p: Point, d: Dir, steps: int): (r: Point)
    ensures IsVertical(d) ==> r.x == p.x && r.y == p.y + Sign(d) * steps
    ensures !IsVertical(d) ==> r.y == p.y && r.x == p.x + Sign(d) * steps
  {
    match d
    case N => Point(p.x, p.y - steps)
    case S => Point(p.x, p.y + steps)
    case W => Point(p.x - steps, p.y)
    case E => Point(p.x + steps, p.y)
  }

  /** Moving back the same number of steps in the reverse direction returns to the start. */
  lemma CalcPointReverse(p: Point, d: Dir, steps: int)
    ensures CalcPoint(CalcPoint(p, d, steps), Reverse(d), steps) == p
    ensures CalcPoint(p, d, -steps) == CalcPoint(p, Reverse(d), steps)
  {
  }

  /** Two successive moves in the same direction add up. */
  lemma CalcPointAdditive(p: Point, d: Dir, a: int, b: int)
    ensures CalcPoint(CalcPoint(p, d, a), d, b) == CalcPoint(p, d, a + b)
  {
  }

  /** A pair of coordinates on one axis, in either order. */
  datatype Span = Span(a: int, b: int) {
    function Lo(): int { if a <= b then a else b }
    function Hi(): int { if a <= b then b else a }
    predicate Holds(v: int) { Lo() <= v <= Hi() }
  }

  /** An axis-aligned box given by one span per axis. */
  datatype Box = Box(xs: Span, ys: Span)

  /** True if `p` lies in `b`, boundary included. */
  predicate InBox(p: Point, b: Box) {
    b.xs.Holds(p.x) && b.ys.Holds(p.y)
  }

  /** The east/west component of a diagonal. */
  function Horizontal(d: Diagonal): Dir {
    if d == NE || d == SE then E else W
  }

  /** The north/south component of a diagonal. */
  function Vertical(d: Diagonal): Dir {
    if d == NE || d == NW then N else S
  }

  /** The query box of a range search: it is spanned by the anchor and the
      point reached from it by `distance` steps along each component of the
      diagonal. */
  function FindXYRange(anchor: Point, d: Diagonal, distance: int): (b: Box)
    ensures b.xs.a == anchor.x && b.ys.a == anchor.y
    ensures Point(b.xs.b, b.ys.b) == CalcPoint(CalcPoint(anchor, Vertical(d), distance), Horizontal(d), distance)
  {
    var far := match d
      case NW => Point(anchor.x - distance, anchor.y - distance)
      case NE => Point(anchor.x + distance, anchor.y - distance)
      case SW => Point(anchor.x - distance, anchor.y + distance)
      case SE => Point(anchor.x + distance, anchor.y + distance);
    Box(Span(anchor.x, far.x), Span(anchor.y, far.y))
  }

  /** For a non-negative distance, a point is in the query box exactly when it
      lies on the diagonal's side of the anchor on both axes, at most
      `distance` away along each. */
  lemma InQueryBox(p: Point, anchor: Point, d: Diagonal, distance: int)
    requires distance >= 0
    ensures InBox(p, FindXYRange(anchor, d, distance)) <==>
              && 0 <= Sign(Horizontal(d)) * (p.x - anchor.x) <= distance
              && 0 <= Sign(Vertical(d)) * (p.y - anchor.y) <= distance
  {
  }

  /** The anchor always lies in its own query box. */
  lemma AnchorInQueryBox(anchor: Point, d: Diagonal, distance: int)
    ensures InBox(anchor, FindXYRange(anchor, d, distance))
  {
  }
}
