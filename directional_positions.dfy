/** `DirectionalPos<T>` of `geo/direction.rs`: a position with a heading. */
module DirectionalPositions {
  import opened Wrappers
  import opened Ints
  import opened Directions
  import opened Positions

  /** `DirectionalPos::new(pos, direction)` is the constructor. Equality
      (derived `Eq`) compares both fields. */
  datatype DirectionalPos = DirectionalPos(pos: Pos, direction: Direction)

  /** The hand-written `Ord`: only the positions are compared; the heading is
      not a tie-breaker. */
  function CompareDp(a: DirectionalPos, b: DirectionalPos): (r: Ordering)
    ensures r == Equal <==> a.pos == b.pos
    ensures r == Compare(a.pos, b.pos)
  {
    Compare(a.pos, b.pos)
  }

  /** Two headings at one position compare Equal although the values differ,
      so this ordering is not consistent with `==`. */
  lemma OrderIgnoresDirection(p: Pos, d: Direction, e: Direction)
    requires d != e
    ensures CompareDp(DirectionalPos(p, d), DirectionalPos(p, e)) == Equal
    ensures DirectionalPos(p, d) != DirectionalPos(p, e)
  {
  }

  /** The ordering test: `(1,2)` is above `(0,0)` and below `(10,0)` whatever
      the headings. */
  lemma OrderExamples(d: Direction, e: Direction)
    ensures CompareDp(DirectionalPos(Pos(1, 2), d), DirectionalPos(Pos(0, 0), e)) == Greater
    ensures CompareDp(DirectionalPos(Pos(1, 2), d), DirectionalPos(Pos(10, 0), e)) == Less
  {
  }

  /** `next(distance)`: moves along the heading, which is kept. */
  function Next(a: DirectionalPos, distance: int): (r: DirectionalPos)
    ensures r.direction == a.direction
    ensures r.pos == Add(a.pos, Mul(FromDirection(a.direction), distance))
  {
    DirectionalPos(Dest(a.pos, distance, a.direction), a.direction)
  }

  /** `checked_next(distance)`: `None` exactly when `checked_dest` is, and
      otherwise `next`. */
  function CheckedNext(t: IntType, a: DirectionalPos, distance: int): (r: Option<DirectionalPos>)
    requires InRange(t, a.pos)
    ensures r.None? <==> CheckedDest(t, a.pos, distance, a.direction).None?
    ensures r.Some? ==> r.value == Next(a, distance)
  {
    match CheckedDest(t, a.pos, distance, a.direction)
    case None => None
    case Some(q) => Some(DirectionalPos(q, a.direction))
  }

  /** `update_direction(direction)`: a new heading at the same position. */
  function UpdateDirection(a: DirectionalPos, direction: Direction): (r: DirectionalPos)
    ensures r.pos == a.pos && r.direction == direction
    ensures CompareDp(r, a) == Equal
  {
    DirectionalPos(a.pos, direction)
  }

  /** The `next` and `checked_next` unit tests. */
  lemma NextExamples()
    ensures Next(DirectionalPos(Pos(0, 0), Down), 3) == DirectionalPos(Pos(0, -3), Down)
    ensures CheckedNext(USIZE, DirectionalPos(Pos(0, 0), Up), 3) == Some(DirectionalPos(Pos(0, 3), Up))
    ensures CheckedNext(USIZE, DirectionalPos(Pos(0, 0), Down), 3) == None
  {
  }
}
