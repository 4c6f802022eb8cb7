/** The contract both spatial indices share (the abstract `Tree` class):
    the outcome of an operation that can fail with `OutOfBoundsError`, the
    occupants an index stores, and the sets the operations are specified by. */
module SpatialIndex {
  import opened Geometry

  datatype Option<T> = None | Some(value: T)

  /** `OutOfBounds` is the single error kind: the target point lies outside
      the field or is already occupied. It carries no tree, so a failing
      operation leaves the caller with the tree it had. */
  datatype Result<T> = Ok(value: T) | OutOfBounds

  /** A named player at a point. */
  datatype Occupant = Occupant(name: string, point: Point)

  predicate HasName(s: set<Occupant>, name: string) {
    exists o :: o in s && o.name == name
  }

  predicate HasPoint(s: set<Occupant>, p: Point) {
    exists o :: o in s && o.point == p
  }

  /** No two occupants share a point. */
  ghost predicate UniquePoints(s: set<Occupant>) {
    forall o1, o2 :: o1 in s && o2 in s && o1.point == o2.point ==> o1 == o2
  }

  /** No two occupants share a name. */
  ghost predicate UniqueNames(s: set<Occupant>) {
    forall o1, o2 :: o1 in s && o2 in s && o1.name == o2.name ==> o1 == o2
  }

  /** The occupants not named `name`. */
  function WithoutName(s: set<Occupant>, name: string): set<Occupant> {
    set o | o in s && o.name != name
  }

  /** The occupants not standing at `p`. */
  function WithoutPoint(s: set<Occupant>, p: Point): set<Occupant> {
    set o | o in s && o.point != p
  }

  /** The brute-force answer to a range query: the names of all occupants in the box. */
  function NamesInBox(s: set<Occupant>, b: Box): set<string> {
    set o | o in s && InBox(o.point, b) :: o.name
  }

  /** The elements of a list of names, forgetting order and repetition. */
  function Elements(names: seq<string>): set<string> {
    set n | n in names
  }

  lemma NamesInBoxUnion(s1: set<Occupant>, s2: set<Occupant>, b: Box)
    ensures NamesInBox(s1 + s2, b) == NamesInBox(s1, b) + NamesInBox(s2, b)
  {
  }

  /** Of two occupants, only the one inside the box is reported. */
  lemma NamesInBoxPair(inside: Occupant, outside: Occupant, b: Box)
    requires InBox(inside.point, b) && !InBox(outside.point, b)
    ensures NamesInBox({inside, outside}, b) == {inside.name}
  {
    assert inside in {inside, outside};
  }

  /** Only the occupants inside the box contribute to a range query. */
  lemma NamesInBoxOutside(s: set<Occupant>, b: Box)
    requires forall o :: o in s ==> !InBox(o.point, b)
    ensures NamesInBox(s, b) == {}
  {
  }

  /** Listing two lists one after the other lists the elements of both. */
  lemma ElementsConcat(a: seq<string>, b: seq<string>)
    ensures Elements(a + b) == Elements(a) + Elements(b)
  {
    forall n | n in Elements(a + b) ensures n in Elements(a) + Elements(b) {
      var i :| 0 <= i < |a + b| && (a + b)[i] == n;
      if i >= |a| {
        assert b[i - |a|] == n;
      }
    }
  }

  /** `s'` is `s` without one player named `name` when `s` has one, and `s`
      itself otherwise. */
  ghost predicate RemovedOne(s: set<Occupant>, name: string, s': set<Occupant>) {
    if HasName(s, name) then exists o :: o in s && o.name == name && s' == s - {o}
    else s' == s
  }

  /** Losing the part of `all` that a part loses by dropping `e` drops `e`. */
  lemma LoseOne<T>(all: set<T>, part: set<T>, e: T)
    requires e in part
    ensures all - (part - (part - {e})) == all - {e}
  {
    assert part - (part - {e}) == {e};
  }

  /** Putting back the rest of a set after replacing one part by the part
      plus a new element adds that element. */
  lemma SetAlgebra<T>(all: set<T>, others: set<T>, part: set<T>, e: T)
    requires part == all - others + {e} && others <= all
    ensures part + others == all + {e}
  {
  }

  /** The larger of two counts. */
  function Max(a: nat, b: nat): nat {
    if a < b then b else a
  }
}
