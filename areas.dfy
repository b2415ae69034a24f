/** `Area<T>` of `geo/area.rs`: an axis-aligned rectangle with inclusive
    bounds, over `int`. */
module Areas {
  import opened Wrappers
  import opened Ints
  import opened Seqs
  import opened Directions
  import opened Positions

  /** The bounds in the source's field order. The fields are public, so an
      `Area` value need not satisfy `Valid`; the constructors ensure it. */
  datatype Area = Area(maxX: int, maxY: int, minX: int, minY: int)

  datatype AreaBoundaryError = AreaBoundaryError

  /** The construction invariant: neither extent is inverted. */
  predicate Valid(a: Area) {
    a.maxX >= a.minX && a.maxY >= a.minY
  }

  /** `Area::new(max_x, max_y, min_x, min_y)`: fails exactly when an extent
      is inverted; a single point is a valid area. */
  function New(maxX: int, maxY: int, minX: int, minY: int): (r: Result<Area, AreaBoundaryError>)
    ensures r.Err? <==> maxX < minX || maxY < minY
    ensures r.Ok? ==> Valid(r.value) && r.value == Area(maxX, maxY, minX, minY)
  {
    if maxX < minX || maxY < minY then Err(AreaBoundaryError)
    else Ok(Area(maxX, maxY, minX, minY))
  }

  /** `Area::from_pos(top_left, bottom_right)`: Up is `+y`, so the top left
      corner holds `min_x` and `max_y`. It fails exactly when the corners are
      inverted, and otherwise gives back the two corners it was built from. */
  function FromPos(tl: Pos, br: Pos): (r: Result<Area, AreaBoundaryError>)
    ensures r.Err? <==> br.y > tl.y || br.x < tl.x
    ensures r.Ok? ==> Valid(r.value) && TopLeft(r.value) == tl && BottomRight(r.value) == br
    ensures r == New(br.x, tl.y, tl.x, br.y)
  {
    if br.y > tl.y || br.x < tl.x then Err(AreaBoundaryError)
    else Ok(Area(br.x, tl.y, tl.x, br.y))
  }

  /** The construction examples of the unit tests. */
  lemma ConstructionExamples()
    ensures New(10, 10, 0, 0) == Ok(Area(10, 10, 0, 0))
    ensures New(0, 0, 0, 0) == Ok(Area(0, 0, 0, 0))
    ensures New(-1, -1, 0, 0).Err?
    ensures FromPos(Pos(-1, 1), Pos(1, -1)) == Ok(Area(1, 1, -1, -1))
    ensures FromPos(Pos(0, 0), Pos(1, 1)).Err?
    ensures FromPos(Pos(0, 10), Pos(10, 0)) == Ok(Area(10, 10, 0, 0))
    ensures FromPos(Pos(0, 0), Pos(0, 0)) == Ok(Area(0, 0, 0, 0))
  {
  }

  /** `area.has(pos)`: inclusive on all four bounds, so only a valid area
      has points, and a valid area has its four corners. */
  predicate Has(a: Area, p: Pos)
    ensures Has(a, p) ==> Valid(a)
    ensures p in {TopLeft(a), TopRight(a), BottomLeft(a), BottomRight(a)} ==> (Has(a, p) <==> Valid(a))
  {
    p.x >= a.minX && p.x <= a.maxX && p.y >= a.minY && p.y <= a.maxY
  }

  /** `area.filter_pos(positions)`: the positions inside the area, in their
      input order (see `FilterPosAppend`). */
  function FilterPos(a: Area, ps: seq<Pos>): (r: seq<Pos>)
    ensures |r| <= |ps|
    ensures forall p :: p in r <==> p in ps && Has(a, p)
  {
    Filter(p => Has(a, p), ps)
  }

  /** `filter_pos` keeps the input order: it distributes over concatenation
      and keeps or drops each single position by `has`. */
  lemma FilterPosAppend(a: Area, ps: seq<Pos>, qs: seq<Pos>, p: Pos)
    ensures FilterPos(a, ps + qs) == FilterPos(a, ps) + FilterPos(a, qs)
    ensures FilterPos(a, [p]) == if Has(a, p) then [p] else []
  {
    FilterAppend(p => Has(a, p), ps, qs);
    FilterSingle(p => Has(a, p), p);
  }

  /** `area.rows()`: the number of `y` values from `min_y` to `max_y`. */
  function Rows(a: Area): (r: int)
    ensures Valid(a) ==> r >= 1
    ensures r == a.maxY - a.minY + 1
  {
    a.maxY - a.minY + 1
  }

  /** `area.cols()`: the number of `x` values from `min_x` to `max_x`. */
  function Cols(a: Area): (r: int)
    ensures Valid(a) ==> r >= 1
    ensures r == a.maxX - a.minX + 1
  {
    a.maxX - a.minX + 1
  }

  /** `area.size()`: `rows * cols`, at least one cell for a valid area. */
  function Size(a: Area): (r: int)
    ensures Valid(a) ==> r >= 1
  {
    Rows(a) * Cols(a)
  }

  /** The `rows`, `cols` and `size` unit tests. */
  lemma SizeExamples()
    ensures Rows(Area(10, 10, 0, 0)) == 11 && Cols(Area(10, 10, 0, 0)) == 11
    ensures Rows(Area(5, 10, -5, -10)) == 21 && Cols(Area(10, 5, -10, -5)) == 21
    ensures Size(Area(10, 10, 0, 0)) == 121 && Size(Area(10, 10, -10, -10)) == 441
  {
  }

  /** `area.top_left()` and the other corner accessors; Up is `+y`. */
  function TopLeft(a: Area): Pos { Pos(a.minX, a.maxY) }
  function TopRight(a: Area): Pos { Pos(a.maxX, a.maxY) }
  function BottomLeft(a: Area): Pos { Pos(a.minX, a.minY) }
  function BottomRight(a: Area): Pos { Pos(a.maxX, a.minY) }

  /** `on_x_boundary`: on the left or right edge line, so a point of the
      area is on it exactly when a horizontal step leaves the area. */
  predicate OnXBoundary(a: Area, p: Pos)
    ensures Has(a, p) ==>
      (OnXBoundary(a, p) <==> !Has(a, Pos(p.x - 1, p.y)) || !Has(a, Pos(p.x + 1, p.y)))
  {
    p.x == a.maxX || p.x == a.minX
  }

  /** `on_y_boundary`: on the top or bottom edge line, so a point of the
      area is on it exactly when a vertical step leaves the area. */
  predicate OnYBoundary(a: Area, p: Pos)
    ensures Has(a, p) ==>
      (OnYBoundary(a, p) <==> !Has(a, Pos(p.x, p.y - 1)) || !Has(a, Pos(p.x, p.y + 1)))
  {
    p.y == a.maxY || p.y == a.minY
  }

  /** `on_boundary`: a point of the area is on it exactly when one of its
      four cross neighbours is outside. */
  predicate OnBoundary(a: Area, p: Pos)
    ensures Has(a, p) ==>
      (OnBoundary(a, p) <==> !Has(a, Pos(p.x - 1, p.y)) || !Has(a, Pos(p.x + 1, p.y))
                             || !Has(a, Pos(p.x, p.y - 1)) || !Has(a, Pos(p.x, p.y + 1)))
  {
    OnXBoundary(a, p) || OnYBoundary(a, p)
  }

  /** `on_corner`: equal to one of the four corners, that is on both
      boundary lines. */
  predicate OnCorner(a: Area, p: Pos)
    ensures OnCorner(a, p) <==> OnXBoundary(a, p) && OnYBoundary(a, p)
  {
    p == TopLeft(a) || p == TopRight(a) || p == BottomRight(a) || p == BottomLeft(a)
  }

  /** A corner is exactly a point on both boundary lines; so every corner is
      on the boundary, and for a valid area every corner is inside it. */
  lemma CornerIsBothBoundaries(a: Area, p: Pos)
    ensures OnCorner(a, p) <==> OnXBoundary(a, p) && OnYBoundary(a, p)
    ensures OnCorner(a, p) ==> OnBoundary(a, p)
    ensures Valid(a) && OnCorner(a, p) ==> Has(a, p)
  {
  }

  /** Inside the area, the boundary is the complement of the strict
      interior. */
  lemma BoundaryIsNotInterior(a: Area, p: Pos)
    requires Has(a, p)
    ensures !OnBoundary(a, p) <==> a.minX < p.x < a.maxX && a.minY < p.y < a.maxY
  {
  }

  /** `area.wrap(pos)`: `modulo` by the extents `max - min` of each axis. The
      result is not offset by `min`; with a positive extent each coordinate
      lands in `[0, max - min)` and stays congruent to the input. */
  function Wrap(a: Area, p: Pos): (r: Pos)
    requires a.maxX != a.minX && a.maxY != a.minY
    ensures a.maxX > a.minX ==> 0 <= r.x < a.maxX - a.minX && r.x == p.x % (a.maxX - a.minX)
    ensures a.maxY > a.minY ==> 0 <= r.y < a.maxY - a.minY && r.y == p.y % (a.maxY - a.minY)
    ensures (p.x - r.x) % Abs(a.maxX - a.minX) == 0 && (p.y - r.y) % Abs(a.maxY - a.minY) == 0
  {
    Modulo(p, Pos(a.maxX - a.minX, a.maxY - a.minY))
  }

  /** For an area anchored at the origin, `wrap` lands inside the area, is
      idempotent, fixes the points below `max`, and never produces a `max`
      coordinate (the extents, not `rows`/`cols`, are the moduli): the far
      corner wraps to the origin and `(-1, -1)` to `(max - 1, max - 1)`, as
      in the unit tests. */
  lemma WrapAtOrigin(a: Area, p: Pos)
    requires a.minX == 0 && a.minY == 0 && a.maxX > 0 && a.maxY > 0
    ensures Has(a, Wrap(a, p))
    ensures Wrap(a, Wrap(a, p)) == Wrap(a, p)
    ensures Wrap(a, p).x != a.maxX && Wrap(a, p).y != a.maxY
    ensures 0 <= p.x < a.maxX && 0 <= p.y < a.maxY ==> Wrap(a, p) == p
    ensures p == TopRight(a) ==> Wrap(a, p) == Pos(0, 0)
    ensures p == Pos(-1, -1) ==> Wrap(a, p) == Pos(a.maxX - 1, a.maxY - 1)
  {
    var r := Wrap(a, p);
    DivModUnique(r.x, a.maxX, 0, r.x);
    DivModUnique(r.y, a.maxY, 0, r.y);
    if 0 <= p.x < a.maxX && 0 <= p.y < a.maxY {
      DivModUnique(p.x, a.maxX, 0, p.x);
      DivModUnique(p.y, a.maxY, 0, p.y);
    }
    if p == TopRight(a) {
      DivModUnique(a.maxX, a.maxX, 1, 0);
      DivModUnique(a.maxY, a.maxY, 1, 0);
    }
    if p == Pos(-1, -1) {
      DivModUnique(-1, a.maxX, -1, a.maxX - 1);
      DivModUnique(-1, a.maxY, -1, a.maxY - 1);
    }
  }

  /** The `filter_map(checked_dest)` stage of `neighbours`: the successful
      checked moves, one per direction in order. */
  function Destinations(t: IntType, p: Pos, distance: int, dirs: seq<Direction>): (r: seq<Pos>)
    requires InRange(t, p)
    ensures |r| <= |dirs|
  {
    if dirs == [] then []
    else
      var rest := Destinations(t, p, distance, dirs[1..]);
      match CheckedDest(t, p, distance, dirs[0])
      case None => rest
      case Some(q) => [q] + rest
  }

  lemma {:induction false} DestinationsMembers(t: IntType, p: Pos, distance: int, dirs: seq<Direction>, q: Pos)
    requires InRange(t, p)
    ensures q in Destinations(t, p, distance, dirs) <==>
      exists d :: d in dirs && CheckedDest(t, p, distance, d) == Some(q)
  {
    if dirs != [] {
      DestinationsMembers(t, p, distance, dirs[1..], q);
      assert forall d :: d in dirs <==> d == dirs[0] || d in dirs[1..];
    }
  }

  /** `area.neighbours(pos, distance, directions)`: the destinations at
      `distance` along the given directions whose checked move succeeds and
      that lie in the area; never more than one per direction. */
  function Neighbours(t: IntType, a: Area, p: Pos, distance: int, dirs: seq<Direction>): (r: seq<Pos>)
    requires InRange(t, p)
    ensures |r| <= |dirs|
    ensures forall q :: q in r ==> Has(a, q) && InRange(t, q)
  {
    var ds := Destinations(t, p, distance, dirs);
    assert forall q :: q in ds ==> InRange(t, q) by {
      forall q | q in ds ensures InRange(t, q) {
        DestinationsMembers(t, p, distance, dirs, q);
      }
    }
    FilterPos(a, ds)
  }

  /** A point is a neighbour exactly when it lies in the area, is a value of
      `t`, and is the `dest` of `pos` along one of the directions. */
  lemma NeighboursMembers(t: IntType, a: Area, p: Pos, distance: int, dirs: seq<Direction>, q: Pos)
    requires InRange(t, p)
    ensures q in Neighbours(t, a, p, distance, dirs) <==>
      Has(a, q) && InRange(t, q) && exists d :: d in dirs && q == Dest(p, distance, d)
  {
    DestinationsMembers(t, p, distance, dirs, q);
  }

  /** `neighbours` follows the order of `directions`: it distributes over
      concatenation of direction lists. */
  lemma {:induction false} NeighboursAppend(t: IntType, a: Area, p: Pos, distance: int,
                                            ds: seq<Direction>, es: seq<Direction>)
    requires InRange(t, p)
    ensures Neighbours(t, a, p, distance, ds + es)
         == Neighbours(t, a, p, distance, ds) + Neighbours(t, a, p, distance, es)
  {
    DestinationsAppend(t, p, distance, ds, es);
    FilterPosAppend(a, Destinations(t, p, distance, ds), Destinations(t, p, distance, es), p);
  }

  lemma {:induction false} DestinationsAppend(t: IntType, p: Pos, distance: int,
                                              ds: seq<Direction>, es: seq<Direction>)
    requires InRange(t, p)
    ensures Destinations(t, p, distance, ds + es)
         == Destinations(t, p, distance, ds) + Destinations(t, p, distance, es)
  {
    if ds == [] {
      assert ds + es == es;
    } else {
      assert (ds + es)[1..] == ds[1..] + es;
      DestinationsAppend(t, p, distance, ds[1..], es);
    }
  }

  /** A single direction whose move does not overflow contributes exactly its
      destination. */
  lemma DestinationsSingle(t: IntType, p: Pos, distance: int, d: Direction)
    requires InRange(t, p) && InRange(t, Dest(p, distance, d))
    ensures Destinations(t, p, distance, [d]) == [Dest(p, distance, d)]
  {
    assert [d][1..] == [];
  }

  /** Over `cross()`, when no move overflows, `neighbours` filters the four
      destinations Up, Down, Left, Right in that order. */
  lemma NeighboursOfCross(t: IntType, a: Area, p: Pos, distance: int)
    requires InRange(t, p)
    requires InRange(t, Dest(p, distance, Up)) && InRange(t, Dest(p, distance, Down))
    requires InRange(t, Dest(p, distance, Left)) && InRange(t, Dest(p, distance, Right))
    ensures Neighbours(t, a, p, distance, Cross())
         == FilterPos(a, [Dest(p, distance, Up), Dest(p, distance, Down),
                          Dest(p, distance, Left), Dest(p, distance, Right)])
  {
    var u, dn, l, rt := Dest(p, distance, Up), Dest(p, distance, Down),
                        Dest(p, distance, Left), Dest(p, distance, Right);
    assert Cross() == [Up, Down] + [Left, Right];
    DestinationsAppend(t, p, distance, [Up, Down], [Left, Right]);
    assert [Up, Down] == [Up] + [Down];
    DestinationsAppend(t, p, distance, [Up], [Down]);
    assert [Left, Right] == [Left] + [Right];
    DestinationsAppend(t, p, distance, [Left], [Right]);
    DestinationsSingle(t, p, distance, Up);
    DestinationsSingle(t, p, distance, Down);
    DestinationsSingle(t, p, distance, Left);
    DestinationsSingle(t, p, distance, Right);
    assert Destinations(t, p, distance, Cross()) == [u] + [dn] + ([l] + [rt]);
    assert [u] + [dn] + ([l] + [rt]) == [u, dn, l, rt];
  }

  /** The last `neighbours` unit test, over `i32`: from `(-1, 0)` with
      distance 5, only the move Right lands in `[0, 10]²`. */
  lemma NeighboursExample(a: Area, p: Pos)
    requires a == Area(10, 10, 0, 0) && p == Pos(-1, 0)
    ensures Neighbours(I32, a, p, 5, Cross()) == [Pos(4, 0)]
  {
    assert Dest(p, 5, Up) == Pos(-1, 5);
    assert Dest(p, 5, Down) == Pos(-1, -5);
    assert Dest(p, 5, Left) == Pos(-6, 0);
    assert Dest(p, 5, Right) == Pos(4, 0);
    NeighboursOfCross(I32, a, p, 5);
    CrossFilterExample(a);
  }

  /** The filtering step of that test: of the four destinations only
      `(4, 0)` lies in `[0, 10]²`. */
  lemma CrossFilterExample(a: Area)
    requires a == Area(10, 10, 0, 0)
    ensures FilterPos(a, [Pos(-1, 5), Pos(-1, -5), Pos(-6, 0), Pos(4, 0)]) == [Pos(4, 0)]
  {
    var ds := [Pos(-1, 5), Pos(-1, -5), Pos(-6, 0)];
    assert ds + [Pos(4, 0)] == [Pos(-1, 5), Pos(-1, -5), Pos(-6, 0), Pos(4, 0)];
    FilterPosAppend(a, ds, [Pos(4, 0)], Pos(4, 0));
    FilterPosAppend(a, [Pos(-1, 5), Pos(-1, -5)], [Pos(-6, 0)], Pos(-6, 0));
    FilterPosAppend(a, [Pos(-1, 5)], [Pos(-1, -5)], Pos(-1, -5));
    FilterPosAppend(a, [], [Pos(-1, 5)], Pos(-1, 5));
  }
}
