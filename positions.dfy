/** `Pos<T>` of `geo/pos.rs`: a point or vector in the plane, with `T`
    modelled by `int`; the checked operations take the range of the concrete
    `T` as an `IntType`. */
module Positions {
  import opened Wrappers
  import opened Ints
  import opened Directions

  /** A position; `Pos::new(x, y)` is the constructor `Pos(x, y)`. */
  datatype Pos = Pos(x: int, y: int)

  /** The derived `Ord` result. */
  datatype Ordering = Less | Equal | Greater

  /** Both coordinates are values of `t`: `p` is a `Pos<T>`. */
  predicate InRange(t: IntType, p: Pos) {
    Holds(t, p.x) && Holds(t, p.y)
  }

  // ---------------------------------------------------------------------
  // Component-wise operators (`Add`, `Sub`, `Mul<T>`, `Div<T>`, `Rem`, `Neg`)
  // ---------------------------------------------------------------------

  /** `p + q`: the origin is neutral on both sides (`AddGroup` gives the
      rest of the group laws). */
  function Add(p: Pos, q: Pos): (r: Pos)
    ensures q == Pos(0, 0) ==> r == p
    ensures p == Pos(0, 0) ==> r == q
  {
    Pos(p.x + q.x, p.y + q.y)
  }

  /** `p - q`: the vector that `q` must be moved by to reach `p`. */
  function Sub(p: Pos, q: Pos): (r: Pos)
    ensures Add(q, r) == p
  {
    Pos(p.x - q.x, p.y - q.y)
  }

  /** `p * k`: scaling by a scalar; 0 collapses to the origin, 1 keeps the
      point and -1 negates it. */
  function Mul(p: Pos, k: int): (r: Pos)
    ensures k == 0 ==> r == Pos(0, 0)
    ensures k == 1 ==> r == p
    ensures k == -1 ==> r == Neg(p)
  {
    Pos(p.x * k, p.y * k)
  }

  /** Truncating division by a non-zero scalar undoes scaling by it. */
  lemma MulThenDiv(p: Pos, k: int)
    requires k != 0
    ensures Div(Mul(p, k), k) == p
  {
    MulDivCancel(p.x, k);
    MulDivCancel(p.y, k);
  }

  /** `p / k` with Rust's truncating division on each axis: each quotient is
      the one whose remainder takes the dividend's sign and is smaller than
      `k`. */
  function Div(p: Pos, k: int): (r: Pos)
    requires k != 0
    ensures p.x - k * r.x == TruncRem(p.x, k) && p.y - k * r.y == TruncRem(p.y, k)
  {
    Pos(TruncDiv(p.x, k), TruncDiv(p.y, k))
  }

  /** `p % q`: Rust's truncated remainder on each axis, so its sign follows
      the dividend. */
  function Rem(p: Pos, q: Pos): (r: Pos)
    requires q.x != 0 && q.y != 0
    ensures p.x == q.x * TruncDiv(p.x, q.x) + r.x && Abs(r.x) < Abs(q.x)
    ensures p.y == q.y * TruncDiv(p.y, q.y) + r.y && Abs(r.y) < Abs(q.y)
    ensures (p.x >= 0 ==> r.x >= 0) && (p.x <= 0 ==> r.x <= 0)
    ensures (p.y >= 0 ==> r.y >= 0) && (p.y <= 0 ==> r.y <= 0)
  {
    Pos(TruncRem(p.x, q.x), TruncRem(p.y, q.y))
  }

  /** Addition is commutative and associative, and subtraction undoes it. */
  lemma AddGroup(p: Pos, q: Pos, s: Pos)
    ensures Add(p, q) == Add(q, p)
    ensures Add(Add(p, q), s) == Add(p, Add(q, s))
    ensures Sub(Add(p, q), q) == p
  {
  }

  /** `-p`: the additive inverse. */
  function Neg(p: Pos): (r: Pos)
    ensures Add(p, r) == Origin()
  {
    Pos(-p.x, -p.y)
  }

  lemma MulDivCancel(a: int, k: int)
    requires k != 0
    ensures TruncDiv(a * k, k) == a
  {
    var n := Abs(a) * Abs(k);
    assert Abs(a * k) == n;
    DivModUnique(n, Abs(k), Abs(a), 0);
  }

  // ---------------------------------------------------------------------
  // Checked operators (`CheckedAdd`, `CheckedSub`, `CheckedRem`, `CheckedNeg`)
  // ---------------------------------------------------------------------

  /** `p.checked_add(q)`: `None` exactly when a component of the sum leaves
      `t`, otherwise the unchecked sum. */
  function CheckedAddPos(t: IntType, p: Pos, q: Pos): (r: Option<Pos>)
    ensures r.Some? <==> InRange(t, Add(p, q))
    ensures r.Some? ==> r.value == Add(p, q)
  {
    match CheckedAdd(t, p.x, q.x)
    case None => None
    case Some(x) =>
      match CheckedAdd(t, p.y, q.y)
      case None => None
      case Some(y) => Some(Pos(x, y))
  }

  /** `p.checked_sub(q)`. */
  function CheckedSubPos(t: IntType, p: Pos, q: Pos): (r: Option<Pos>)
    ensures r.Some? <==> InRange(t, Sub(p, q))
    ensures r.Some? ==> r.value == Sub(p, q)
  {
    match CheckedSub(t, p.x, q.x)
    case None => None
    case Some(x) =>
      match CheckedSub(t, p.y, q.y)
      case None => None
      case Some(y) => Some(Pos(x, y))
  }

  /** `p.checked_rem(q)`: `None` when a divisor is zero or a quotient
      overflows `t`, otherwise the unchecked remainder. */
  function CheckedRemPos(t: IntType, p: Pos, q: Pos): (r: Option<Pos>)
    ensures r.Some? <==> q.x != 0 && q.y != 0
                         && Holds(t, TruncDiv(p.x, q.x)) && Holds(t, TruncDiv(p.y, q.y))
    ensures r.Some? ==> r.value == Rem(p, q)
  {
    match CheckedRem(t, p.x, q.x)
    case None => None
    case Some(x) =>
      match CheckedRem(t, p.y, q.y)
      case None => None
      case Some(y) => Some(Pos(x, y))
  }

  /** `p.checked_neg()`. */
  function CheckedNegPos(t: IntType, p: Pos): (r: Option<Pos>)
    ensures r.Some? <==> InRange(t, Neg(p))
    ensures r.Some? ==> r.value == Neg(p)
  {
    match CheckedNeg(t, p.x)
    case None => None
    case Some(x) =>
      match CheckedNeg(t, p.y)
      case None => None
      case Some(y) => Some(Pos(x, y))
  }

  /** The `usize` cases of the `checked_add` and `checked_sub` unit tests. */
  lemma CheckedAddSubUsizeExamples()
    ensures CheckedAddPos(USIZE, Pos(1, 2), Pos(3, 4)) == Some(Pos(4, 6))
    ensures CheckedAddPos(USIZE, Pos(1, 2), Pos(USIZE_MAX, USIZE_MAX)) == None
    ensures CheckedSubPos(USIZE, Pos(1, 2), Pos(USIZE_MAX, USIZE_MAX)) == None
  {
    assert CheckedAdd(USIZE, 1, 3) == Some(4) && CheckedAdd(USIZE, 2, 4) == Some(6);
    assert CheckedAdd(USIZE, 1, USIZE_MAX) == None;
    assert CheckedSub(USIZE, 1, USIZE_MAX) == None;
  }

  /** The `usize` cases of the `checked_rem` and `checked_neg` unit tests. */
  lemma CheckedRemNegUsizeExamples()
    ensures CheckedRemPos(USIZE, Pos(11, 13), Pos(10, 11)) == Some(Pos(1, 2))
    ensures CheckedRemPos(USIZE, Pos(10, 10), Pos(0, 0)) == None
    ensures CheckedNegPos(USIZE, Pos(USIZE_MAX, USIZE_MAX)) == None
  {
    assert TruncDiv(11, 10) == 1 && TruncDiv(13, 11) == 1;
    assert TruncRem(11, 10) == 1 && TruncRem(13, 11) == 2;
  }

  /** The remainder examples: the sign follows the dividend. */
  lemma RemExamples()
    ensures Rem(Pos(-1, -1), Pos(10, 10)) == Pos(-1, -1)
    ensures Rem(Pos(10, 10), Pos(-1, -1)) == Pos(0, 0)
    ensures Rem(Pos(11, 13), Pos(10, 11)) == Pos(1, 2)
  {
  }

  // ---------------------------------------------------------------------
  // Directions as unit vectors, `modulo`, `dest`, `checked_dest`
  // ---------------------------------------------------------------------

  /** `Pos::from(direction)`: the unit step of a direction, with Up being
      `+y`. Cardinal steps move one axis, diagonal steps both. */
  function FromDirection(d: Direction): (r: Pos)
    ensures d.IsCardinal() <==> Abs(r.x) + Abs(r.y) == 1
    ensures !d.IsCardinal() <==> Abs(r.x) == 1 && Abs(r.y) == 1
  {
    match d
    case Up => Pos(0, 1)
    case Down => Pos(0, -1)
    case Left => Pos(-1, 0)
    case Right => Pos(1, 0)
    case TopLeft => Pos(-1, 1)
    case TopRight => Pos(1, 1)
    case BottomLeft => Pos(-1, -1)
    case BottomRight => Pos(1, -1)
  }

  /** A quarter turn of a vector counter-clockwise, and clockwise. */
  function RotateCcw(p: Pos): Pos { Pos(-p.y, p.x) }
  function RotateCw(p: Pos): Pos { Pos(p.y, -p.x) }

  /** Distinct directions have distinct unit vectors. */
  lemma FromDirectionInjective(d: Direction, e: Direction)
    ensures FromDirection(d) == FromDirection(e) <==> d == e
  {
  }

  /** `back` negates the unit vector. */
  lemma BackIsNegation(d: Direction)
    ensures FromDirection(Back(d)) == Neg(FromDirection(d))
  {
  }

  /** `left` turns the unit vector counter-clockwise and `right` turns it
      clockwise. */
  lemma TurnsAreRotations(d: Direction)
    ensures FromDirection(TurnLeft(d)) == RotateCcw(FromDirection(d))
    ensures FromDirection(TurnRight(d)) == RotateCw(FromDirection(d))
  {
  }

  /** One axis of `modulo`: `(v % m + m) % m` with Rust's `%`. For a positive
      modulus it is the mathematical residue in `[0, m)`; for a negative one
      it lies in `(m, 0]`; in both cases it is congruent to `v`. */
  function AxisModulo(v: int, m: int): (r: int)
    requires m != 0
    ensures (v - r) % Abs(m) == 0
    ensures m > 0 ==> 0 <= r < m && r == v % m
    ensures m < 0 ==> m < r <= 0
  {
    var r := TruncRem(TruncRem(v, m) + m, m);
    AxisModuloResidue(v, m);
    r
  }

  /** The two truncated remainders of `AxisModulo` differ from `v` by a
      multiple of `m`, and the sum `v % m + m` has the sign of `m`. */
  lemma AxisModuloResidue(v: int, m: int)
    requires m != 0
    ensures var r := TruncRem(TruncRem(v, m) + m, m);
      (v - r) % Abs(m) == 0 && (m > 0 ==> 0 <= r < m && r == v % m) && (m < 0 ==> m < r <= 0)
  {
    var t := TruncRem(v, m);
    var r := TruncRem(t + m, m);
    var k := TruncDiv(v, m) + TruncDiv(t + m, m) - 1;
    TwoRemainders(v, m);
    MultipleModAbs(v - r, m, k);
    if m > 0 {
      assert t + m >= 0;
      DivModUnique(v, m, k, r);
    } else {
      assert t + m <= 0;
    }
  }

  /** `v` and the remainder of the remainder are `k` multiples of `m` apart. */
  lemma TwoRemainders(v: int, m: int)
    requires m != 0
    ensures v - TruncRem(TruncRem(v, m) + m, m)
         == m * (TruncDiv(v, m) + TruncDiv(TruncRem(v, m) + m, m) - 1)
  {
    var t := TruncRem(v, m);
    var q1, q2 := TruncDiv(v, m), TruncDiv(t + m, m);
    assert v == m * q1 + t;
    assert t + m == m * q2 + TruncRem(t + m, m);
    MulDistributes(m, q1 + q2, -1);
    MulDistributes(m, q1, q2);
  }

  /** A multiple of `m` leaves no remainder modulo `|m|`. */
  lemma MultipleModAbs(x: int, m: int, k: int)
    requires m != 0 && x == m * k
    ensures x % Abs(m) == 0
  {
    if m > 0 {
      ModAddMultiple(0, k, m);
    } else {
      assert m * k == Abs(m) * (-k);
      ModAddMultiple(0, -k, Abs(m));
    }
  }

  /** `p.modulo(m)`: the true modulo on each axis, used for toroidal
      wrap-around. */
  function Modulo(p: Pos, m: Pos): (r: Pos)
    requires m.x != 0 && m.y != 0
    ensures m.x > 0 ==> 0 <= r.x < m.x && r.x == p.x % m.x
    ensures m.y > 0 ==> 0 <= r.y < m.y && r.y == p.y % m.y
    ensures m.x < 0 ==> m.x < r.x <= 0
    ensures m.y < 0 ==> m.y < r.y <= 0
    ensures (p.x - r.x) % Abs(m.x) == 0 && (p.y - r.y) % Abs(m.y) == 0
  {
    Pos(AxisModulo(p.x, m.x), AxisModulo(p.y, m.y))
  }

  /** The `modulo` unit tests. */
  lemma ModuloExamples()
    ensures Modulo(Pos(10, 10), Pos(10, 10)) == Pos(0, 0)
    ensures Modulo(Pos(9, 9), Pos(10, 10)) == Pos(9, 9)
    ensures Modulo(Pos(-1, -1), Pos(10, 15)) == Pos(9, 14)
  {
  }

  /** `p.dest(distance, direction)`: `distance` steps of the direction's unit
      vector. */
  function Dest(p: Pos, distance: int, d: Direction): (r: Pos)
    ensures r == Add(p, Mul(FromDirection(d), distance))
  {
    match d
    case Up => Pos(p.x, p.y + distance)
    case Down => Pos(p.x, p.y - distance)
    case Left => Pos(p.x - distance, p.y)
    case Right => Pos(p.x + distance, p.y)
    case TopLeft => Pos(p.x - distance, p.y + distance)
    case TopRight => Pos(p.x + distance, p.y + distance)
    case BottomLeft => Pos(p.x - distance, p.y - distance)
    case BottomRight => Pos(p.x + distance, p.y - distance)
  }

  /** `p.checked_dest(distance, direction)`: each moved axis goes through
      `checked_add` or `checked_sub`; the move succeeds exactly when the
      destination is a `Pos<T>`, and then it is `dest`. */
  function CheckedDest(t: IntType, p: Pos, distance: int, d: Direction): (r: Option<Pos>)
    requires InRange(t, p)
    ensures r == if InRange(t, Dest(p, distance, d)) then Some(Dest(p, distance, d)) else None
  {
    match d
    case Up =>
      (match CheckedAdd(t, p.y, distance) case None => None case Some(y) => Some(Pos(p.x, y)))
    case Down =>
      (match CheckedSub(t, p.y, distance) case None => None case Some(y) => Some(Pos(p.x, y)))
    case Left =>
      (match CheckedSub(t, p.x, distance) case None => None case Some(x) => Some(Pos(x, p.y)))
    case Right =>
      (match CheckedAdd(t, p.x, distance) case None => None case Some(x) => Some(Pos(x, p.y)))
    case TopLeft =>
      (match CheckedSub(t, p.x, distance)
       case None => None
       case Some(x) => match CheckedAdd(t, p.y, distance) case None => None case Some(y) => Some(Pos(x, y)))
    case TopRight =>
      (match CheckedAdd(t, p.x, distance)
       case None => None
       case Some(x) => match CheckedAdd(t, p.y, distance) case None => None case Some(y) => Some(Pos(x, y)))
    case BottomLeft =>
      (match CheckedSub(t, p.x, distance)
       case None => None
       case Some(x) => match CheckedSub(t, p.y, distance) case None => None case Some(y) => Some(Pos(x, y)))
    case BottomRight =>
      (match CheckedAdd(t, p.x, distance)
       case None => None
       case Some(x) => match CheckedSub(t, p.y, distance) case None => None case Some(y) => Some(Pos(x, y)))
  }

  /** From the `usize` origin, a move of 5 succeeds only Up, Right and
      TopRight. */
  lemma CheckedDestFromUsizeOrigin(d: Direction)
    ensures CheckedDest(USIZE, Pos(0, 0), 5, d).Some? <==> d in {Up, Right, TopRight}
    ensures CheckedDest(USIZE, Pos(0, 0), 5, Up) == Some(Pos(0, 5))
    ensures CheckedDest(USIZE, Pos(0, 0), 5, Right) == Some(Pos(5, 0))
    ensures CheckedDest(USIZE, Pos(0, 0), 5, TopRight) == Some(Pos(5, 5))
  {
  }

  // ---------------------------------------------------------------------
  // Constants, distances and small helpers
  // ---------------------------------------------------------------------

  /** `Pos::origin()`: the additive identity. */
  function Origin(): (r: Pos)
    ensures forall p :: Add(p, r) == p
  {
    Pos(0, 0)
  }

  /** `Pos::unit_x()`: one step Right. */
  function UnitX(): (r: Pos)
    ensures r == FromDirection(Right)
  {
    Pos(1, 0)
  }

  /** `Pos::unit_y()`: one step Up. */
  function UnitY(): (r: Pos)
    ensures r == FromDirection(Up)
  {
    Pos(0, 1)
  }

  /** `p.manhattan(q)`: a distance, zero exactly between equal points. */
  function Manhattan(p: Pos, q: Pos): (r: nat)
    ensures r == 0 <==> p == q
  {
    Abs(p.x - q.x) + Abs(p.y - q.y)
  }

  /** `PosIdx::manhattan_unsigned`: the same distance, computed with
      `abs_diff` so that no intermediate difference is negative. */
  function ManhattanUnsigned(p: Pos, q: Pos): (r: nat)
    ensures r == Manhattan(p, q)
  {
    AbsDiff(p.x, q.x) + AbsDiff(p.y, q.y)
  }

  /** The Manhattan distance is a metric. */
  lemma ManhattanMetric(p: Pos, q: Pos, s: Pos)
    ensures Manhattan(p, q) == Manhattan(q, p)
    ensures Manhattan(p, s) <= Manhattan(p, q) + Manhattan(q, s)
  {
  }

  /** A move of `distance >= 0` covers `distance` along a cardinal direction
      and `2 * distance` along a diagonal. */
  lemma ManhattanOfDest(p: Pos, distance: nat, d: Direction)
    ensures Manhattan(p, Dest(p, distance, d)) == if d.IsCardinal() then distance else 2 * distance
  {
  }

  /** `p.abs()`: the magnitude of each coordinate. */
  function AbsPos(p: Pos): (r: Pos)
    ensures r.x >= 0 && r.y >= 0
    ensures r.x * r.x == p.x * p.x && r.y * r.y == p.y * p.y
    ensures Manhattan(r, Origin()) == Manhattan(p, Origin())
  {
    Pos(Abs(p.x), Abs(p.y))
  }

  /** `p.swap()`: exchanges the axes. */
  function Swap(p: Pos): (r: Pos)
    ensures r == p <==> p.x == p.y
    ensures Manhattan(r, Pos(0, 0)) == Manhattan(p, Pos(0, 0))
  {
    Pos(p.y, p.x)
  }

  lemma SwapInvolution(p: Pos)
    ensures Swap(Swap(p)) == p
    ensures Swap(p) == p <==> p.x == p.y
  {
  }

  /** `Pos::with_same(v)`: the point `v` steps TopRight of the origin. */
  function WithSame(v: int): (r: Pos)
    ensures r == Dest(Origin(), v, TopRight)
    ensures Swap(r) == r
  {
    Pos(v, v)
  }

  /** The derived `Ord` of `Pos`: by `x`, then by `y`. */
  function Compare(p: Pos, q: Pos): (r: Ordering)
    ensures r == Equal <==> p == q
  {
    if p.x < q.x then Less
    else if p.x > q.x then Greater
    else if p.y < q.y then Less
    else if p.y > q.y then Greater
    else Equal
  }

  /** `Compare` is a total order: antisymmetric and transitive. */
  lemma CompareTotalOrder(p: Pos, q: Pos, s: Pos)
    ensures Compare(p, q) == Less <==> Compare(q, p) == Greater
    ensures Compare(p, q) == Less && Compare(q, s) == Less ==> Compare(p, s) == Less
  {
  }

  // ---------------------------------------------------------------------
  // Compound assignment (`AddAssign`, `SubAssign`, `MulAssign`, `DivAssign`,
  // `RemAssign`), which update a `Pos` variable in place
  // ---------------------------------------------------------------------

  /** A mutable `Pos` place, as `let mut p: Pos<T>`. */
  class PosCell {
    var x: int
    var y: int

    function Value(): Pos
      reads this
    {
      Pos(x, y)
    }

    constructor (p: Pos)
      ensures Value() == p
    {
      x, y := p.x, p.y;
    }

    /** `p += q` leaves the value of `p + q` behind. */
    method AddAssign(q: Pos)
      modifies this
      ensures Value() == Add(old(Value()), q)
    {
      x := x + q.x;
      y := y + q.y;
    }

    /** `p -= q`. */
    method SubAssign(q: Pos)
      modifies this
      ensures Value() == Sub(old(Value()), q)
    {
      x := x - q.x;
      y := y - q.y;
    }

    /** `p *= k`. */
    method MulAssign(k: int)
      modifies this
      ensures Value() == Mul(old(Value()), k)
    {
      x := x * k;
      y := y * k;
    }

    /** `p /= k`; dividing by zero panics in the source. */
    method DivAssign(k: int)
      requires k != 0
      modifies this
      ensures Value() == Div(old(Value()), k)
    {
      x := TruncDiv(x, k);
      y := TruncDiv(y, k);
    }

    /** `p %= q`; a zero component of `q` panics in the source. */
    method RemAssign(q: Pos)
      requires q.x != 0 && q.y != 0
      modifies this
      ensures Value() == Rem(old(Value()), q)
    {
      x := TruncRem(x, q.x);
      y := TruncRem(y, q.y);
    }
  }
}
