/** Integer arithmetic as the source's numeric types perform it: fixed-width
    ranges for the checked operations, and Rust's truncating `/` and `%`. */
module Ints {
  import opened Wrappers

  /** The range `[min, max]` of a fixed-width integer type standing for `T`. */
  datatype IntType = IntType(min: int, max: int)

  const USIZE_MAX: int := 0xFFFF_FFFF_FFFF_FFFF

  /** `usize` (and `PosIdx`'s coordinates) on a 64-bit target. */
  const USIZE: IntType := IntType(0, USIZE_MAX)
  const I32: IntType := IntType(-0x8000_0000, 0x7FFF_FFFF)
  const I64: IntType := IntType(-0x8000_0000_0000_0000, 0x7FFF_FFFF_FFFF_FFFF)

  /** `v` is a value of the type `t`. */
  predicate Holds(t: IntType, v: int) {
    t.min <= v <= t.max
  }

  function Abs(a: int): nat {
    if a < 0 then -a else a
  }

  /** Rust's `/` on integers: the quotient truncated toward zero. */
  function TruncDiv(a: int, b: int): int
    requires b != 0
  {
    if (a < 0) == (b < 0) then Abs(a) / Abs(b) else -(Abs(a) / Abs(b))
  }

  /** Rust's `%` on integers: the remainder of `TruncDiv`, whose sign follows
      the dividend and whose magnitude is below the divisor's. */
  function TruncRem(a: int, b: int): (r: int)
    requires b != 0
    ensures a == b * TruncDiv(a, b) + r
    ensures Abs(r) < Abs(b)
    ensures a >= 0 ==> r >= 0
    ensures a <= 0 ==> r <= 0
  {
    var q, m := Abs(a) / Abs(b), Abs(a) % Abs(b);
    assert Abs(a) == Abs(b) * q + m;
    if a >= 0 then m else -m
  }

  /** `checked_add` on a value type: `None` when the sum leaves the type. */
  function CheckedAdd(t: IntType, a: int, b: int): Option<int> {
    if Holds(t, a + b) then Some(a + b) else None
  }

  /** `checked_sub`: `None` when the difference leaves the type. */
  function CheckedSub(t: IntType, a: int, b: int): Option<int> {
    if Holds(t, a - b) then Some(a - b) else None
  }

  /** `checked_rem`: `None` for a zero divisor, or when the quotient overflows
      (`MIN % -1` on a signed type). */
  function CheckedRem(t: IntType, a: int, b: int): Option<int> {
    if b == 0 || !Holds(t, TruncDiv(a, b)) then None else Some(TruncRem(a, b))
  }

  /** `checked_neg`: `None` when `-a` leaves the type (every non-zero value of
      an unsigned type). */
  function CheckedNeg(t: IntType, a: int): Option<int> {
    if Holds(t, -a) then Some(-a) else None
  }

  /** `abs_diff`: the distance between two values, computed without
      overflow. */
  function AbsDiff(a: int, b: int): nat {
    if a > b then a - b else b - a
  }

  /** The quotient and remainder of Euclidean division are the only ones in
      range. */
  lemma DivModUnique(n: int, m: int, q: int, r: int)
    requires m > 0 && 0 <= r < m && n == m * q + r
    ensures n / m == q && n % m == r
  {
    var q0, r0 := n / m, n % m;
    assert n == m * q0 + r0;
    var d := q - q0;
    assert m * q == m * q0 + m * d by { MulDistributes(m, q0, d); }
    assert m * d == r0 - r;
    if d > 0 {
      MulMonotone(m, d);
    } else if d < 0 {
      MulMonotone(m, -d);
    }
  }

  lemma MulDistributes(m: int, a: int, b: int)
    ensures m * (a + b) == m * a + m * b
  {
  }

  lemma MulMonotone(m: int, d: int)
    requires m > 0 && d >= 1
    ensures m * d >= m
  {
  }

  /** Adding a multiple of `m` does not change the remainder by `m`. */
  lemma ModAddMultiple(a: int, k: int, m: int)
    requires m > 0
    ensures (a + m * k) % m == a % m
  {
    DivModUnique(a + m * k, m, a / m + k, a % m);
  }
}
