/** The bookkeeping of a `Player`: points, speed, colour, the lists of target
    and enemy names, the current direction, and what a refused move does to
    it. The game a player belongs to is not part of the record; where an
    operation asks the field, the field's answer is a parameter. */
module Players {
  import opened Geometry
  import opened SpatialIndex
  import K = KdTrees
  import T = TwoDTrees

  /** The colours a player may take. */
  const Colours: seq<string> := ["purple", "green", "random"]

  /** A player. `location` is whatever the field last reported, which is
      nothing once the field no longer knows the player's name. */
  datatype Player = Player(
    name: string, location: Option<Point>, colour: string,
    vision: int, speed: int, points: int,
    targets: seq<string>, enemies: seq<string>, direction: Dir)

  /** No name occurs twice. */
  predicate NoDuplicates(s: seq<string>) {
    forall i, j :: 0 <= i < j < |s| ==> s[i] != s[j]
  }

  /** No name occurs in both lists. */
  predicate Apart(a: seq<string>, b: seq<string>) {
    forall n :: n in a ==> n !in b
  }

  /** The representation invariants of a player that do not involve the
      game: vision, speed and points are not negative, the colour is an
      allowed one, and the two name lists are duplicate-free and share no
      name. */
  predicate Inv(p: Player) {
    && p.vision >= 0 && p.speed >= 0 && p.points >= 0
    && p.colour in Colours
    && NoDuplicates(p.targets) && NoDuplicates(p.enemies) && Apart(p.targets, p.enemies)
  }

  /** `__init__`: no points and no targets or enemies yet. The direction,
      which the source draws at random, is a parameter. */
  function NewPlayer(name: string, vision: int, speed: int, colour: string,
                     location: Point, direction: Dir): (p: Player)
  {
    Player(name, Some(location), colour, vision, speed, 0, [], [], direction)
  }

  /** A new player meets the invariants when its vision, speed and colour do:
      it starts with zero points and empty lists. */
  lemma NewPlayerInv(name: string, vision: int, speed: int, colour: string,
                     location: Point, direction: Dir)
    ensures (Inv(NewPlayer(name, vision, speed, colour, location, direction))
             <==> vision >= 0 && speed >= 0 && colour in Colours)
    ensures NewPlayer(name, vision, speed, colour, location, direction).points == 0
  {
  }

  /** `set_colour`: only an allowed colour is taken; any other leaves the
      player as it is. */
  function SetColour(p: Player, colour: string): (r: Player)
    ensures r == p.(colour := r.colour)
    ensures colour in Colours ==> r.colour == colour
    ensures colour !in Colours ==> r == p
    ensures Inv(p) ==> Inv(r)
  {
    if colour in Colours then p.(colour := colour) else p
  }

  /** `increase_points`: add `points` (possibly negative) unless the total
      would drop below zero, in which case nothing changes. */
  function IncreasePoints(p: Player, points: int): (r: Player)
    ensures r == p.(points := r.points)
    ensures p.points + points >= 0 ==> r.points == p.points + points
    ensures p.points + points < 0 ==> r == p
    ensures Inv(p) ==> Inv(r)
  {
    var total := p.points + points;
    if total >= 0 then p.(points := total) else p
  }

  /** `set_speed`: a negative speed is ignored. */
  function SetSpeed(p: Player, speed: int): (r: Player)
    ensures r == p.(speed := r.speed)
    ensures speed >= 0 ==> r.speed == speed
    ensures speed < 0 ==> r == p
    ensures Inv(p) ==> Inv(r)
  {
    if speed >= 0 then p.(speed := speed) else p
  }

  /** `reverse_direction`: the player now heads the opposite way. */
  function ReverseDirection(p: Player): (r: Player)
    ensures r == p.(direction := r.direction)
    ensures r.direction != p.direction && IsVertical(r.direction) == IsVertical(p.direction)
    ensures Inv(p) ==> Inv(r)
  {
    p.(direction := Reverse(p.direction))
  }

  /** Reversing twice restores the player. */
  lemma ReverseTwice(p: Player)
    ensures ReverseDirection(ReverseDirection(p)) == p
  {
    ReverseInvolution(p.direction);
  }

  /** The position of the first `x` in `s` (what `list.remove` deletes). */
  function IndexOf(s: seq<string>, x: string): (i: nat)
    requires x in s
    ensures i < |s| && s[i] == x && x !in s[..i]
  {
    if s[0] == x then 0
    else
      var i := IndexOf(s[1..], x);
      assert s[..i + 1] == [s[0]] + s[1..][..i];
      i + 1
  }

  /** `list.remove` behind a membership test: the first `x` is taken out,
      the other names keep their order; without an `x` nothing changes. */
  function RemoveFirst(s: seq<string>, x: string): (r: seq<string>)
    ensures x !in s ==> r == s
    ensures x in s ==> exists i :: 0 <= i < |s| && s[i] == x && x !in s[..i] && r == s[..i] + s[i + 1..]
  {
    if x in s then
      var i := IndexOf(s, x);
      s[..i] + s[i + 1..]
    else
      s
  }

  /** In a duplicate-free list, removal takes out exactly `x`, everywhere,
      and leaves the list duplicate-free. */
  lemma RemoveFirstNoDuplicates(s: seq<string>, x: string)
    ensures NoDuplicates(s) ==> NoDuplicates(RemoveFirst(s, x))
    ensures NoDuplicates(s) ==> forall y :: y in RemoveFirst(s, x) <==> y in s && y != x
  {
    if NoDuplicates(s) && x in s {
      RemoveAt(s, IndexOf(s, x));
    }
  }

  /** Deleting position `i` of a duplicate-free list deletes the name there
      and no other, and leaves no duplicate. */
  lemma RemoveAt(s: seq<string>, i: nat)
    requires NoDuplicates(s) && i < |s|
    ensures NoDuplicates(s[..i] + s[i + 1..])
    ensures forall y :: y in s[..i] + s[i + 1..] <==> y in s && y != s[i]
  {
    var r := s[..i] + s[i + 1..];
    assert forall k :: 0 <= k < |r| ==> r[k] == s[if k < i then k else k + 1];
    forall y ensures y in r <==> y in s && y != s[i] {
      if y in s && y != s[i] {
        var k :| 0 <= k < |s| && s[k] == y;
        assert r[if k < i then k else k - 1] == y;
      }
    }
  }

  /** `select_target`: a name on neither list is appended to the targets;
      any other name changes nothing. Afterwards the name is on one of the
      lists, and the invariants still hold. */
  function SelectTarget(p: Player, name: string): (r: Player)
    ensures r == p.(targets := r.targets)
    ensures name !in p.targets && name !in p.enemies ==> r.targets == p.targets + [name]
    ensures name in p.targets || name in p.enemies ==> r == p
    ensures name in r.targets || name in r.enemies
    ensures Inv(p) ==> Inv(r)
  {
    if name !in p.targets && name !in p.enemies then p.(targets := p.targets + [name]) else p
  }

  /** `select_enemy`: the mirror image of `select_target`. */
  function SelectEnemy(p: Player, name: string): (r: Player)
    ensures r == p.(enemies := r.enemies)
    ensures name !in p.targets && name !in p.enemies ==> r.enemies == p.enemies + [name]
    ensures name in p.targets || name in p.enemies ==> r == p
    ensures name in r.targets || name in r.enemies
    ensures Inv(p) ==> Inv(r)
  {
    if name !in p.targets && name !in p.enemies then p.(enemies := p.enemies + [name]) else p
  }

  /** `ignore_target`: the name leaves the targets if it is there; the
      remaining targets keep their order, and the invariants still hold. */
  function IgnoreTarget(p: Player, name: string): (r: Player)
    ensures r == p.(targets := r.targets)
    ensures r.targets == RemoveFirst(p.targets, name)
    ensures Inv(p) ==> Inv(r) && name !in r.targets
  {
    RemoveFirstNoDuplicates(p.targets, name);
    p.(targets := RemoveFirst(p.targets, name))
  }

  /** `ignore_enemy`: the mirror image of `ignore_target`. */
  function IgnoreEnemy(p: Player, name: string): (r: Player)
    ensures r == p.(enemies := r.enemies)
    ensures r.enemies == RemoveFirst(p.enemies, name)
    ensures Inv(p) ==> Inv(r) && name !in r.enemies
  {
    RemoveFirstNoDuplicates(p.enemies, name);
    p.(enemies := RemoveFirst(p.enemies, name))
  }

  /** `move`: the field's answer to moving this player `speed` steps in its
      direction becomes the new location; when the field raises
      `OutOfBoundsError`, the player stays where it is and turns round. */
  function Move(p: Player, outcome: Result<Option<Point>>): (r: Player)
    ensures outcome.OutOfBounds? ==> r == ReverseDirection(p) && r.location == p.location
    ensures outcome.Ok? ==> r == p.(location := outcome.value)
    ensures Inv(p) ==> Inv(r)
  {
    match outcome
    case OutOfBounds => ReverseDirection(p)
    case Ok(location) => p.(location := location)
  }

  /** What the player sees of the field's `move`: the new point, or the
      error. */
  function Reported<F>(r: Result<(F, Option<Point>)>): Result<Option<Point>> {
    match r
    case OutOfBounds => OutOfBounds
    case Ok((_, location)) => Ok(location)
  }

  /** A player moving on a 2D tree that holds it at `pt`: if the target is
      outside the field or taken, the player keeps its location and heads
      the other way; otherwise it stands at the target and keeps its
      direction. */
  lemma MoveOnTwoDTree(p: Player, f: T.TwoDTree, pt: Point)
    requires T.Valid(f) && K.FindPoint(f.root, p.name) == Some(pt)
    ensures var np := CalcPoint(pt, p.direction, p.speed);
            var r := Move(p, Reported(T.Move(f, p.name, p.direction, p.speed)));
            && (T.Blocked(f, np) ==> r.location == p.location && r.direction == Reverse(p.direction))
            && (!T.Blocked(f, np) ==> r.location == Some(np) && r.direction == p.direction)
  {
  }
}
