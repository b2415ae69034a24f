/** `AreaIterator<T>` of `geo/area_iter.rs`: a cursor that walks the cells
    of an `Area` row by row, from the bottom row (`min_y`) up, each row from
    `min_x` to `max_x`. */
module AreaIters {
  import opened Wrappers
  import opened Ints
  import opened Positions
  import opened Areas

  /** How many points the cursor emits per row. For a valid area this is
      `cols`; when `max_x < min_x` the cursor still emits `min_x` once per row
      (it wraps as soon as `current_x >= max_x`). */
  function RowWidth(a: Area): (w: int)
    ensures w >= 1
    ensures Valid(a) ==> w == Cols(a)
  {
    if a.maxX >= a.minX then Cols(a) else 1
  }

  /** How many points the cursor emits before it is exhausted. */
  function Total(a: Area): (n: nat)
    ensures Valid(a) ==> n == Size(a)
  {
    if a.maxY >= a.minY then Rows(a) * RowWidth(a) else 0
  }

  /** The closed form of the cursor after `k` steps. */
  function NthPos(a: Area, k: nat): Pos {
    Pos(a.minX + k % RowWidth(a), a.minY + k / RowWidth(a))
  }

  /** The whole output of the iterator, in emission order. */
  function RasterOrder(a: Area): seq<Pos> {
    seq(Total(a), k requires 0 <= k => NthPos(a, k))
  }

  /** One cursor step of `next`: past the last row the cursor stays put;
      otherwise it moves right, or back to `min_x` on the next row once
      `current_x >= max_x`. */
  function Advance(a: Area, c: Pos): (r: Pos)
    ensures c.y > a.maxY ==> r == c
    ensures c.y <= a.maxY ==> RowMajorBefore(c, r)
    ensures Valid(a) && CursorInBounds(a, c) ==> CursorInBounds(a, r)
  {
    if c.y > a.maxY then c
    else if c.x >= a.maxX then Pos(a.minX, c.y + 1)
    else Pos(c.x + 1, c.y)
  }

  /** The cursor bounds of a valid area: `x` within the columns and `y` at
      most one row past the top. */
  predicate CursorInBounds(a: Area, c: Pos) {
    a.minX <= c.x <= a.maxX && a.minY <= c.y <= a.maxY + 1
  }

  /** Stepping the cursor keeps it within its bounds. */
  lemma AdvanceKeepsBounds(a: Area, c: Pos)
    requires Valid(a) && CursorInBounds(a, c)
    ensures CursorInBounds(a, Advance(a, c))
  {
  }

  /** Successor arithmetic on the row-major index: within a row the column
      grows by one; at the end of a row the next index starts a new row. */
  lemma IndexSuccessor(k: nat, w: int)
    requires w >= 1
    ensures k % w == w - 1 ==> (k + 1) % w == 0 && (k + 1) / w == k / w + 1
    ensures k % w < w - 1 ==> (k + 1) % w == k % w + 1 && (k + 1) / w == k / w
  {
    var q, r := k / w, k % w;
    assert k == w * q + r;
    if r == w - 1 {
      DivModUnique(k + 1, w, q + 1, 0);
    } else {
      DivModUnique(k + 1, w, q, r + 1);
    }
  }

  /** A step from the `k`-th cursor position, while points remain, gives the
      `(k+1)`-th: the closed form and `next` agree for every area. */
  lemma {:induction false} AdvanceNth(a: Area, k: nat)
    requires k < Total(a)
    ensures Advance(a, NthPos(a, k)) == NthPos(a, k + 1)
  {
    var w := RowWidth(a);
    IndexSuccessor(k, w);
    assert k / w < Rows(a) by {
      if k / w >= Rows(a) {
        MulMonotoneBy(w, Rows(a), k / w);
      }
    }
  }

  /** The cursor is exhausted exactly when all `Total` points are out. */
  lemma ExhaustedIffDone(a: Area, k: nat)
    requires k <= Total(a)
    ensures NthPos(a, k).y > a.maxY <==> k == Total(a)
  {
    var w := RowWidth(a);
    assert k == w * (k / w) + k % w;
    if a.maxY >= a.minY {
      if k < Total(a) {
        if k / w >= Rows(a) {
          MulMonotoneBy(w, Rows(a), k / w);
        }
      } else {
        DivModUnique(k, w, Rows(a), 0);
      }
    } else {
      assert k == 0;
    }
  }

  /** `w * a <= w * b` for `a <= b` and positive `w`. */
  lemma MulMonotoneBy(w: int, a: int, b: int)
    requires w >= 1 && a <= b
    ensures w * a <= w * b
  {
    if a < b {
      MulMonotone(w, b - a);
      MulDistributes(w, a, b - a);
    }
  }

  /** The emitted points of a valid area are exactly its cells, `size()` of
      them; a cell `p` appears at index `(p.y - min_y) * cols + (p.x - min_x)`. */
  lemma RasterCoversArea(a: Area, p: Pos)
    requires Valid(a)
    ensures |RasterOrder(a)| == Size(a)
    ensures forall k :: 0 <= k < |RasterOrder(a)| ==> Has(a, RasterOrder(a)[k])
    ensures Has(a, p) ==>
      var k := (p.y - a.minY) * Cols(a) + (p.x - a.minX);
      0 <= k < |RasterOrder(a)| && RasterOrder(a)[k] == p
  {
    forall k | 0 <= k < |RasterOrder(a)| ensures Has(a, RasterOrder(a)[k]) {
      RasterPointInArea(a, k);
    }
    if Has(a, p) {
      RasterIndexOf(a, p);
    }
  }

  /** The `k`-th emitted point of a valid area lies in it. */
  lemma RasterPointInArea(a: Area, k: nat)
    requires Valid(a) && k < Total(a)
    ensures Has(a, NthPos(a, k))
  {
    var w := Cols(a);
    assert k == w * (k / w) + k % w;
    if k / w >= Rows(a) {
      MulMonotoneBy(w, Rows(a), k / w);
    }
  }

  /** A cell of a valid area is emitted at its row-major index. */
  lemma RasterIndexOf(a: Area, p: Pos)
    requires Valid(a) && Has(a, p)
    ensures var k := (p.y - a.minY) * Cols(a) + (p.x - a.minX);
      0 <= k < Total(a) && NthPos(a, k) == p
  {
    var w := Cols(a);
    var row, col := p.y - a.minY, p.x - a.minX;
    var k := row * w + col;
    assert k == w * row + col;
    DivModUnique(k, w, row, col);
    MulMonotoneBy(w, row + 1, Rows(a));
    MulDistributes(w, row, 1);
  }

  /** Row-major order: `p` comes before `q` when it is on a lower row, or on
      the same row further left. */
  predicate RowMajorBefore(p: Pos, q: Pos) {
    p.y < q.y || (p.y == q.y && p.x < q.x)
  }

  /** The output is strictly increasing in row-major order, so no point is
      emitted twice. */
  lemma RasterStrictlyIncreasing(a: Area)
    ensures forall i, j :: 0 <= i < j < |RasterOrder(a)| ==>
      RowMajorBefore(RasterOrder(a)[i], RasterOrder(a)[j]) && RasterOrder(a)[i] != RasterOrder(a)[j]
  {
    var w := RowWidth(a);
    forall i, j | 0 <= i < j < |RasterOrder(a)|
      ensures RowMajorBefore(RasterOrder(a)[i], RasterOrder(a)[j])
    {
      assert i == w * (i / w) + i % w;
      assert j == w * (j / w) + j % w;
      if i / w > j / w {
        MulMonotoneBy(w, j / w + 1, i / w);
        MulDistributes(w, j / w, 1);
      }
    }
  }

  /** The first unit test: `x` in `[0, 2]`, `y` in `[-1, 3]` gives 15 points,
      row by row from `(0, -1)` to `(2, 3)`. */
  lemma RasterExample(a: Area)
    requires a == Area(2, 3, 0, -1)
    ensures |RasterOrder(a)| == 15
    ensures RasterOrder(a)[0] == Pos(0, -1) && RasterOrder(a)[1] == Pos(1, -1)
    ensures RasterOrder(a)[2] == Pos(2, -1) && RasterOrder(a)[3] == Pos(0, 0)
    ensures RasterOrder(a)[7] == Pos(1, 1) && RasterOrder(a)[11] == Pos(2, 2)
    ensures RasterOrder(a)[12] == Pos(0, 3) && RasterOrder(a)[14] == Pos(2, 3)
  {
  }

  /** The second unit test: a single-point area emits that point once. */
  lemma SinglePointRaster(a: Area)
    requires a == Area(0, 0, 0, 0)
    ensures RasterOrder(a) == [Pos(0, 0)]
  {
  }

  /** The iterator state: the area it walks and the cursor. `emitted` counts
      the points handed out so far and ties the cursor to `NthPos`. */
  class AreaIterator {
    var area: Area
    var currentX: int
    var currentY: int
    ghost var emitted: nat

    function Cursor(): Pos
      reads this
    {
      Pos(currentX, currentY)
    }

    /** The cursor invariant: it stands at the `emitted`-th point of the
        raster, and no more than `Total` points have been emitted. */
    ghost predicate Raster()
      reads this
    {
      emitted <= Total(area) && Cursor() == NthPos(area, emitted)
    }

    /** `area.into_iter()`: the cursor starts at `(min_x, min_y)`. */
    constructor (a: Area)
      ensures area == a && Cursor() == BottomLeft(a)
      ensures emitted == 0 && Raster()
    {
      area := a;
      currentX := a.minX;
      currentY := a.minY;
      emitted := 0;
    }

    /** `next()`: past the last row it returns `None` and leaves the cursor
        where it is; otherwise it returns the cursor and advances it. Under
        the raster invariant the result is the next point of `RasterOrder`. */
    method Next() returns (r: Option<Pos>)
      modifies this
      ensures area == old(area)
      ensures r == if old(currentY) > area.maxY then None else Some(old(Cursor()))
      ensures Cursor() == Advance(area, old(Cursor()))
      ensures emitted == if r.Some? then old(emitted) + 1 else old(emitted)
      ensures old(Raster()) ==> Raster()
      ensures old(Raster()) ==>
        r == if old(emitted) < Total(area) then Some(NthPos(area, old(emitted))) else None
      ensures Valid(area) && CursorInBounds(area, old(Cursor())) ==> CursorInBounds(area, Cursor())
    {
      if currentY > area.maxY {
        if Raster() {
          ExhaustedIffDone(area, emitted);
        }
        return None;
      }
      if Raster() {
        ExhaustedIffDone(area, emitted);
        AdvanceNth(area, emitted);
      }
      r := Some(Pos(currentX, currentY));
      if currentX >= area.maxX {
        currentX := area.minX;
        currentY := currentY + 1;
      } else {
        currentX := currentX + 1;
      }
      emitted := emitted + 1;
    }
  }

  /** `area.into_iter().collect()`: drains a fresh iterator; the result is
      the whole raster of the area. */
  method Collect(a: Area) returns (ps: seq<Pos>)
    ensures ps == RasterOrder(a)
  {
    var it := new AreaIterator(a);
    ps := [];
    while true
      invariant it.area == a && it.Raster()
      invariant ps == RasterOrder(a)[..it.emitted]
      decreases Total(a) - it.emitted
    {
      var r := it.Next();
      if r.None? {
        break;
      }
      ps := ps + [r.value];
    }
  }
}
