# aoc-rs geometry toolkit, modelled in Dafny

This project models the 2D geometry toolkit that every puzzle solver of the
aoc-rs workspace builds on (`aoc-rs/src/geo`). It proves properties of that
model. The toolkit has five parts, and each has its own module:

- `Directions` (`direction.rs`) is the closed eight-value `Direction` enum. It
  covers the byte decoder, the `all`, `cross` and `diagonal` lists, and the
  `back`, `left` and `right` rotation tables.
- `Positions` (`pos.rs`) is `Pos`, a point or vector over `int`. It has
  component-wise operators and checked variants against an explicit integer
  range (`usize`, `i32`, `i64`). Rust's `%` truncates toward zero, and the
  model does the same. It also covers `From<Direction>`, true `modulo`,
  movement along a direction (`dest`, `checked_dest`), Manhattan distance,
  `abs`, `swap`, `with_same` and the constant points. The in-place operators
  (`+=`, `-=`, `*=`, `/=`, `%=`) are methods of a small `PosCell` class that
  holds one `Pos`.
- `DirectionalPositions` (`direction.rs`) is a position with a heading. Its
  ordering looks only at the position, and it can step forward or turn.
- `Areas` (`area.rs`) is an inclusive axis-aligned rectangle. It has
  validating constructors, containment, boundary and corner predicates,
  sizes, toroidal `wrap`, and the `filter_pos` and `neighbours` filters.
- `AreaIters` (`area_iter.rs`) is the `AreaIterator` cursor, a class whose
  `Next` method advances `current_x` and `current_y` in place. A ghost count
  of emitted points ties the cursor to the closed form `NthPos`.
  `RasterOrder` is the iterator's whole output, and the `Collect` loop
  drains a fresh iterator into exactly that output.
- `Grids` (`grid.rs`) is `Grid<T>`, a class holding `width`, `height` and
  the flat row-major `data`. It covers the validating constructors and
  `from_str` over the bytes of the text, including a model of `str::lines`.
  It covers indexing at `width * y + x`, in-place `IndexMut` writes and
  `swap`, and `find`, `find_all`, `extract` and `destination`. `Display` is
  two nested loops proved against the `Layout` function.

`Wrappers` holds `Option` and `Result`. `Ints` holds the integer ranges and
the truncating `/` and `%`. `Seqs` holds the sequence functions that model
the iterator adaptors (`filter`, `position`, `chunks`, `flat_map`).

Several behaviours of the code differ from what its documentation suggests.
The model follows the code in each case:

- `Grid::from_str` compares only the total number of line bytes with
  first-line length times line count. The ragged text `"ab\na\nabc"` is
  accepted (`Grids.ParseRaggedExample`).
- `"\n"` is one empty line, so it parses to a grid of width 0
  (`Grids.ParseNewlineExample`).
- `Area::wrap` reduces by the extents `max - min`, not by `cols` and
  `rows`, and it does not offset by `min`. On an area based at the origin it
  therefore maps into `[0, max)`, and `max` itself wraps to 0
  (`Areas.WrapAtOrigin`).
- A `CharGrid` displays each cell as a decimal number, so `Display` is
  modelled over a cell-rendering function `show`.
- `AreaIterator` also runs over areas with inverted extents. It then emits
  `min_x` once per row, and `AreaIters.RowWidth` records this.

## Model

| member | source | states |
|---|---|---|
| `Ints.TruncRem` | aoc-rs/src/geo/pos.rs:103-110 | Rust's integer `%`: `a == b * (a / b truncated toward zero) + r`, `r` is smaller in magnitude than `b`, and the sign of `r` follows the dividend |
| `Directions.FromByte` | aoc-rs/src/geo/direction.rs:35-45 | `'^'` decodes to Up, `'<'` to Left, `'>'` to Right, and every other byte to Down (each an if-and-only-if) |
| `Directions.Back` | aoc-rs/src/geo/direction.rs:77-88 | `back` never returns its input and keeps a direction cardinal or diagonal |
| `Directions.TurnLeft` | aoc-rs/src/geo/direction.rs:92-103 | `left` is neither the input nor its back, and keeps a direction cardinal or diagonal |
| `Directions.TurnRight` | aoc-rs/src/geo/direction.rs:107-118 | `right` is neither the input nor its back, and keeps a direction cardinal or diagonal |
| `Directions.BackInvolution` | aoc-rs/src/geo/direction.rs:77-88 | `back` is an involution |
| `Directions.TurnsInverse` | aoc-rs/src/geo/direction.rs:92-118 | `left` and `right` undo each other in both orders |
| `Directions.TurnCycles` | aoc-rs/src/geo/direction.rs:77-118 | two lefts (or two rights) make a `back`, and four return to the start |
| `Directions.All` | aoc-rs/src/geo/direction.rs:50-61 | `all()` lists eight pairwise distinct directions (`Directions.AllExactlyOnce` adds that every variant is there) |
| `Directions.Cross` | aoc-rs/src/geo/direction.rs:64-67 | `cross()` lists four directions, all cardinal (`Directions.CrossDiagonalPartition` adds that it is exactly the cardinals) |
| `Directions.Diagonal` | aoc-rs/src/geo/direction.rs:70-73 | `diagonal()` lists four directions, none cardinal (`Directions.CrossDiagonalPartition` adds that it is exactly the diagonals) |
| `Directions.AllExactlyOnce` | aoc-rs/src/geo/direction.rs:50-61 | `all()` lists eight directions, every variant, with no repeats |
| `Directions.CrossDiagonalPartition` | aoc-rs/src/geo/direction.rs:50-73 | `cross()` holds exactly the cardinals and `diagonal()` exactly the diagonals, and together they make `all()` in order |
| `Positions.Add` | aoc-rs/src/geo/pos.rs:21-28 | the origin is neutral for `+` on either side; `Positions.AddGroup` proves commutativity, associativity and that `-` undoes `+` |
| `Positions.Sub` | aoc-rs/src/geo/pos.rs:45-52 | `p - q` is the vector that, added to `q`, gives back `p` |
| `Positions.Mul` | aoc-rs/src/geo/pos.rs:69-76 | scaling by 0 gives the origin, by 1 the point, by -1 its negation; `Positions.MulThenDiv` proves that division by a non-zero `k` undoes it |
| `Positions.Div` | aoc-rs/src/geo/pos.rs:86-93 | each component is divided by the scalar and truncated toward zero, leaving the truncated remainder |
| `Positions.MulThenDiv` | aoc-rs/src/geo/pos.rs:69-93 | scaling by a non-zero `k` and then dividing by `k` gives the point back |
| `Positions.Rem` | aoc-rs/src/geo/pos.rs:103-110 | component-wise truncated remainder: quotient and remainder rebuild each component, the remainder is smaller than the divisor, and its sign follows the dividend |
| `Positions.RemExamples` | aoc-rs/src/geo/pos.rs:385-397 | `(-1,-1) % (10,10) == (-1,-1)`, `(10,10) % (-1,-1) == (0,0)` and `(11,13) % (10,11) == (1,2)` |
| `Positions.AddGroup` | aoc-rs/src/geo/pos.rs:21-52 | `+` is commutative and associative, and `-` undoes `+` |
| `Positions.Neg` | aoc-rs/src/geo/pos.rs:127-134 | `-p` is the additive inverse of `p` |
| `Positions.CheckedAddPos` | aoc-rs/src/geo/pos.rs:38-43 | `checked_add` is `Some` exactly when both sums lie in the integer range, and then it equals `p + q` |
| `Positions.CheckedSubPos` | aoc-rs/src/geo/pos.rs:62-67 | `checked_sub` is `Some` exactly when both differences lie in the range, and then it equals `p - q` |
| `Positions.CheckedRemPos` | aoc-rs/src/geo/pos.rs:120-125 | `checked_rem` is `Some` exactly when both divisors are non-zero and neither quotient overflows, and then it equals `p % q` |
| `Positions.CheckedNegPos` | aoc-rs/src/geo/pos.rs:136-141 | `checked_neg` is `Some` exactly when both negations lie in the range, and then it equals `-p` |
| `Positions.CheckedAddSubUsizeExamples` | aoc-rs/src/geo/pos.rs:295-342 | for `usize`, `(1,2) + (3,4) == (4,6)`, while `(1,2) + (MAX,MAX)` and `(1,2) - (MAX,MAX)` are `None` |
| `Positions.CheckedRemNegUsizeExamples` | aoc-rs/src/geo/pos.rs:411-432 | for `usize`, `(11,13) % (10,11) == (1,2)`, while rem by `(0,0)` and negation of `(MAX,MAX)` are `None` |
| `Positions.FromDirection` | aoc-rs/src/geo/pos.rs:143-157 | a cardinal becomes a unit step on one axis, and a diagonal a unit step on both axes |
| `Positions.FromDirectionInjective` | aoc-rs/src/geo/pos.rs:143-157 | distinct directions give distinct unit vectors |
| `Positions.BackIsNegation` | aoc-rs/src/geo/pos.rs:143-157 | the vector of `back()` is the negated vector |
| `Positions.TurnsAreRotations` | aoc-rs/src/geo/pos.rs:143-157 | `left()` rotates the direction's vector a quarter turn counter-clockwise, and `right()` clockwise |
| `Positions.AxisModulo` | aoc-rs/src/geo/pos.rs:170-172 | `((v % m) + m) % m` differs from `v` by a multiple of `m`; for `m > 0` it lies in `[0, m)` and equals the Euclidean `v mod m`, and for `m < 0` it lies in `(m, 0]` |
| `Positions.AxisModuloResidue` | aoc-rs/src/geo/pos.rs:170-172 | the same facts about the two truncated remainders written out |
| `Positions.Modulo` | aoc-rs/src/geo/pos.rs:170-172 | on each axis with a positive modulus the result lies in `[0, m)` and is the Euclidean residue; with a negative modulus it lies in `(m, 0]`; on both axes it differs from the input by a multiple of the modulus |
| `Positions.ModuloExamples` | aoc-rs/src/geo/pos.rs:441-450 | `(10,10) mod (10,10) == (0,0)`, `(9,9) mod (10,10) == (9,9)` and `(-1,-1) mod (10,15) == (9,14)` |
| `Positions.Dest` | aoc-rs/src/geo/pos.rs:176-187 | `dest(d, dir)` is `p + Pos::from(dir) * d` |
| `Positions.CheckedDest` | aoc-rs/src/geo/pos.rs:208-223 | `checked_dest` is `Some(dest)` exactly when the destination lies in the integer range, and `None` otherwise |
| `Positions.CheckedDestFromUsizeOrigin` | aoc-rs/src/geo/pos.rs:503-513 | from the `usize` origin with distance 5, exactly Up, Right and TopRight succeed, at `(0,5)`, `(5,0)` and `(5,5)` |
| `Positions.Origin` | aoc-rs/src/geo/pos.rs:191-193 | the origin is the identity of `+` |
| `Positions.UnitX` | aoc-rs/src/geo/pos.rs:197-199 | `unit_x` is the vector of Right |
| `Positions.UnitY` | aoc-rs/src/geo/pos.rs:203-205 | `unit_y` is the vector of Up |
| `Positions.Manhattan` | aoc-rs/src/geo/pos.rs:228-230 | the distance is a natural number that is zero exactly for equal points |
| `Positions.ManhattanMetric` | aoc-rs/src/geo/pos.rs:228-230 | the distance is symmetric and obeys the triangle inequality |
| `Positions.ManhattanOfDest` | aoc-rs/src/geo/pos.rs:176-187 | a move of `d` steps lies at distance `d` along a cardinal and `2d` along a diagonal |
| `Positions.ManhattanUnsigned` | aoc-rs/src/geo/pos.rs:255-261 | the `abs_diff` form gives the same value as `manhattan` |
| `Positions.AbsPos` | aoc-rs/src/geo/pos.rs:234-236 | both components become non-negative with the same magnitude, so the distance from the origin is unchanged |
| `Positions.Swap` | aoc-rs/src/geo/pos.rs:242-244 | `swap` fixes a point exactly when `x == y` and keeps its distance from the origin; `Positions.SwapInvolution` proves it is an involution |
| `Positions.SwapInvolution` | aoc-rs/src/geo/pos.rs:242-244 | `swap` is an involution and fixes exactly the points with `x == y` |
| `Positions.WithSame` | aoc-rs/src/geo/pos.rs:248-250 | `with_same(v)` is the origin moved `v` steps TopRight, a point on the diagonal |
| `Positions.Compare` | aoc-rs/src/geo/pos.rs:8-12 | the derived order compares equal exactly for equal points |
| `Positions.CompareTotalOrder` | aoc-rs/src/geo/pos.rs:8-12 | the derived order is antisymmetric and transitive |
| `Positions.PosCell.constructor` | aoc-rs/src/geo/pos.rs:159-164 | a cell starts out holding the given point |
| `Positions.PosCell.AddAssign` | aoc-rs/src/geo/pos.rs:30-36 | `p += q` leaves `old(p) + q` in place |
| `Positions.PosCell.SubAssign` | aoc-rs/src/geo/pos.rs:54-60 | `p -= q` leaves `old(p) - q` in place |
| `Positions.PosCell.MulAssign` | aoc-rs/src/geo/pos.rs:78-84 | `p *= k` leaves `old(p) * k` in place |
| `Positions.PosCell.DivAssign` | aoc-rs/src/geo/pos.rs:95-101 | `p /= k` leaves the truncated `old(p) / k` in place |
| `Positions.PosCell.RemAssign` | aoc-rs/src/geo/pos.rs:112-118 | `p %= q` leaves the truncated `old(p) % q` in place |
| `DirectionalPositions.CompareDp` | aoc-rs/src/geo/direction.rs:128-138 | the order is the order of the positions and is Equal exactly when the positions are equal |
| `DirectionalPositions.OrderIgnoresDirection` | aoc-rs/src/geo/direction.rs:128-138 | equal positions with different headings compare Equal but are not `==` |
| `DirectionalPositions.OrderExamples` | aoc-rs/src/geo/direction.rs:276-286 | `(1,2)` is above `(0,0)` and below `(10,0)`, whatever the headings |
| `DirectionalPositions.Next` | aoc-rs/src/geo/direction.rs:150-152 | `next(d)` keeps the heading and moves the position `d` steps along it |
| `DirectionalPositions.CheckedNext` | aoc-rs/src/geo/direction.rs:164-166 | `checked_next` is `None` exactly when `checked_dest` is, and otherwise equals `next` |
| `DirectionalPositions.UpdateDirection` | aoc-rs/src/geo/direction.rs:156-158 | only the heading changes, so the result compares Equal to the input |
| `DirectionalPositions.NextExamples` | aoc-rs/src/geo/direction.rs:289-306 | Down 3 from the origin is `(0,-3)`; for `usize`, Up 3 succeeds at `(0,3)` and Down 3 is `None` |
| `Areas.New` | aoc-rs/src/geo/area.rs:31-36 | `new` fails exactly when an extent is inverted, and otherwise returns the valid area of the given bounds |
| `Areas.FromPos` | aoc-rs/src/geo/area.rs:103-108 | `from_pos` fails exactly when `br.y > tl.y` or `br.x < tl.x`, and otherwise its `top_left` and `bottom_right` are the given corners |
| `Areas.ConstructionExamples` | aoc-rs/src/geo/area.rs:169-329 | the construction cases of the unit tests: `new` of `[0,10]²`, of a single point and of an inverted area, and `from_pos` of `(-1,1)`-`(1,-1)`, of `(0,10)`-`(10,0)`, of a single point and of inverted corners |
| `Areas.Has` | aoc-rs/src/geo/area.rs:39-41 | only a valid area has points, and a valid area has each of its four corners (an if-and-only-if for the corners) |
| `Areas.FilterPos` | aoc-rs/src/geo/area.rs:46-48 | `filter_pos` keeps exactly the input points that the area has |
| `Areas.FilterPosAppend` | aoc-rs/src/geo/area.rs:46-48 | `filter_pos` keeps input order: it distributes over concatenation and keeps a single point exactly when the area has it |
| `Areas.Rows` | aoc-rs/src/geo/area.rs:54-56 | `rows` is `max_y - min_y + 1`, at least 1 for a valid area |
| `Areas.Cols` | aoc-rs/src/geo/area.rs:60-62 | `cols` is `max_x - min_x + 1`, at least 1 for a valid area |
| `Areas.Size` | aoc-rs/src/geo/area.rs:66-68 | `size` is positive for a valid area; `AreaIters.Total` and `AreaIters.RasterCoversArea` prove it is the number of points the area holds |
| `Areas.SizeExamples` | aoc-rs/src/geo/area.rs:217-241 | the rows, cols and size values of the unit tests (11, 21, 121, 441) |
| `Areas.OnXBoundary` | aoc-rs/src/geo/area.rs:78-80 | a point of the area is on an x boundary exactly when its left or right neighbour is outside the area |
| `Areas.OnYBoundary` | aoc-rs/src/geo/area.rs:84-86 | a point of the area is on a y boundary exactly when its lower or upper neighbour is outside the area |
| `Areas.OnBoundary` | aoc-rs/src/geo/area.rs:72-74 | a point of the area is on the boundary exactly when one of its four cross neighbours is outside the area |
| `Areas.OnCorner` | aoc-rs/src/geo/area.rs:90-92 | a point is one of the four corners exactly when it is on an x and on a y boundary (`Areas.CornerIsBothBoundaries` adds the corners themselves) |
| `Areas.CornerIsBothBoundaries` | aoc-rs/src/geo/area.rs:72-134 | a point is on a corner exactly when it is on an x and a y boundary; every corner is on the boundary and, in a valid area, inside it |
| `Areas.BoundaryIsNotInterior` | aoc-rs/src/geo/area.rs:72-86 | a point of the area is off the boundary exactly when it is strictly inside both extents |
| `Areas.Wrap` | aoc-rs/src/geo/area.rs:96-98 | `wrap` reduces each axis modulo the extent `max - min`: for a positive extent into `[0, extent)`, always congruent to the input |
| `Areas.WrapAtOrigin` | aoc-rs/src/geo/area.rs:96-98 | for an area at the origin the result lies in the area and off its top and right edges, `wrap` is idempotent and fixes points below `max`, `(max_x, max_y)` wraps to `(0,0)`, and `(-1,-1)` to `(max_x-1, max_y-1)` |
| `Areas.Destinations` | aoc-rs/src/geo/area.rs:140-150 | the `filter_map(checked_dest)` stage yields at most one point per direction |
| `Areas.DestinationsMembers` | aoc-rs/src/geo/area.rs:140-150 | a point is yielded exactly when `checked_dest` gives it for some listed direction |
| `Areas.Neighbours` | aoc-rs/src/geo/area.rs:140-150 | every neighbour is in the area and in the integer range, at most one per direction |
| `Areas.NeighboursMembers` | aoc-rs/src/geo/area.rs:140-150 | a point is a neighbour exactly when the area has it, it is in range, and it is `dest` of the start along a listed direction |
| `Areas.NeighboursAppend` | aoc-rs/src/geo/area.rs:140-150 | neighbours keep the order of the directions: the result distributes over concatenation of direction lists |
| `Areas.DestinationsAppend` | aoc-rs/src/geo/area.rs:140-150 | the destinations stage distributes over concatenation of direction lists |
| `Areas.DestinationsSingle` | aoc-rs/src/geo/area.rs:140-150 | one direction whose destination is in range yields that destination |
| `Areas.NeighboursOfCross` | aoc-rs/src/geo/area.rs:140-150 | over `cross()`, when all four moves stay in range, the neighbours are the Up, Down, Left and Right destinations filtered by the area |
| `Areas.NeighboursExample` | aoc-rs/src/geo/area.rs:355-372 | from `(-1,0)` with distance 5 in `[0,10]²`, only `(4,0)` is a neighbour |
| `AreaIters.RowWidth` | aoc-rs/src/geo/area_iter.rs:21-28 | the cursor emits at least one point per row, and `cols` of them in a valid area |
| `AreaIters.Total` | aoc-rs/src/geo/area_iter.rs:16-28 | the number of points emitted is `size()` for a valid area |
| `AreaIters.Advance` | aoc-rs/src/geo/area_iter.rs:21-27 | past the last row the cursor stays; otherwise a step moves it strictly forward in row-major order and keeps it in bounds; `AreaIters.AdvanceNth` gives the closed form |
| `AreaIters.AdvanceKeepsBounds` | aoc-rs/src/geo/area_iter.rs:21-28 | a step keeps the cursor within `min_x..max_x` and `min_y..max_y + 1` |
| `AreaIters.AdvanceNth` | aoc-rs/src/geo/area_iter.rs:21-28 | stepping from the `k`-th point gives the `(k+1)`-th: `(min_x + k % cols, min_y + k / cols)` is the cursor's closed form |
| `AreaIters.ExhaustedIffDone` | aoc-rs/src/geo/area_iter.rs:16-19 | the cursor is past the last row exactly when all points have been emitted |
| `AreaIters.RasterCoversArea` | aoc-rs/src/geo/area_iter.rs:37-61 | a valid area emits `size()` points, each inside the area, and each cell `p` of the area at index `(p.y - min_y) * cols + (p.x - min_x)` |
| `AreaIters.RasterPointInArea` | aoc-rs/src/geo/area_iter.rs:21-28 | every emitted point of a valid area lies in it |
| `AreaIters.RasterIndexOf` | aoc-rs/src/geo/area_iter.rs:21-28 | every cell of a valid area is emitted, at its row-major index |
| `AreaIters.RasterStrictlyIncreasing` | aoc-rs/src/geo/area_iter.rs:37-56 | the output is strictly increasing in row-major `(y, x)` order, so no point is emitted twice |
| `AreaIters.RasterExample` | aoc-rs/src/geo/area_iter.rs:37-56 | `x` in `[0,2]`, `y` in `[-1,3]` gives 15 points, from `(0,-1)` row by row to `(2,3)` |
| `AreaIters.SinglePointRaster` | aoc-rs/src/geo/area_iter.rs:57-60 | a single-point area emits just that point |
| `AreaIters.AreaIterator.constructor` | aoc-rs/src/geo/area.rs:24-26 | `into_iter` starts the cursor at `(min_x, min_y)`, with nothing emitted |
| `AreaIters.AreaIterator.Next` | aoc-rs/src/geo/area_iter.rs:16-29 | past the last row `next` returns `None` and leaves the cursor; otherwise it returns the cursor and steps it. It keeps the cursor bounds, and from a fresh iterator it returns the points of the closed form in turn, then `None` |
| `AreaIters.Collect` | aoc-rs/src/geo/area_iter.rs:37-61 | draining a fresh iterator gives exactly the raster order of the area |
| `Seqs.Filter` | aoc-rs/src/geo/area.rs:46-48 | `filter` keeps exactly the elements that pass, and no more than the input holds |
| `Seqs.FilterAppend` | aoc-rs/src/geo/grid.rs:134-136 | `filter` keeps the input order: it distributes over concatenation |
| `Seqs.FirstIndex` | aoc-rs/src/geo/grid.rs:112-117 | `position` is `None` exactly when the value is absent, and otherwise the smallest index holding it |
| `Seqs.IndicesOf` | aoc-rs/src/geo/grid.rs:121-128 | the `enumerate().filter_map` stage yields exactly the indices holding the value, in increasing order |
| `Seqs.Chunks` | aoc-rs/src/geo/grid.rs:38 | `chunks(w)` gives non-empty pieces of at most `w`, all but the last exactly `w` |
| `Seqs.ConcatChunks` | aoc-rs/src/geo/grid.rs:38 | the chunks laid end to end give the data back |
| `Seqs.ChunksConcat` | aoc-rs/src/geo/grid.rs:62-71 | lines of one length `w`, laid end to end and chunked by `w`, give the lines back |
| `Grids.FlatIndexRoundTrip` | aoc-rs/src/geo/grid.rs:79-128 | `(i % w, i / w)` and `w * y + x` are inverse to each other on indices and on positions with `x < width` |
| `Grids.FlatIndexInBounds` | aoc-rs/src/geo/grid.rs:79-81 | a position the grid has lands within `width * height` cells |
| `Grids.LineEnd` | aoc-rs/src/geo/grid.rs:62 | the first line runs up to, and not into, the first `'\n'` |
| `Grids.Lines` | aoc-rs/src/geo/grid.rs:62 | `lines()` gives no lines for empty text and never a line holding `'\n'` |
| `Grids.LinesCons` | aoc-rs/src/geo/grid.rs:62 | a plain line followed by `'\n'` is the first line of the text |
| `Grids.LinesLast` | aoc-rs/src/geo/grid.rs:62 | text without `'\n'` is one line |
| `Grids.LinesOfTerminated` | aoc-rs/src/geo/grid.rs:62 | `lines()` undoes writing plain lines one per text line |
| `Grids.Parses` | aoc-rs/src/geo/grid.rs:57-70 | text that passes the check is non-empty with at least one line, and for a non-empty first line its bytes are exactly `width` times the number of lines; `Grids.FromStr` ties the check to the result |
| `Grids.ParsesWith` | aoc-rs/src/geo/grid.rs:63-70 | lines that pass the byte-count check with a non-empty first line hold a whole number of rows, as many as there are lines |
| `Grids.RectangularTextParses` | aoc-rs/src/geo/grid.rs:57-72 | text whose lines have equal lengths passes the dimension check, and the grid's rows are exactly its lines |
| `Grids.ParseTwoLinesExample` | aoc-rs/src/geo/grid.rs:194-196 | `"abc\ndef"` is two lines of three and parses |
| `Grids.ParseOneLineExample` | aoc-rs/src/geo/grid.rs:198-199 | `"123"` is one line and parses |
| `Grids.ParseEmptyExample` | aoc-rs/src/geo/grid.rs:201-202 | `""` is rejected |
| `Grids.ParseShortLineExample` | aoc-rs/src/geo/grid.rs:204-205 | `"123\n45"` is two lines of 3 and 2 bytes and is rejected |
| `Grids.ParseNewlineExample` | aoc-rs/src/geo/grid.rs:57-72 | `"\n"` is one empty line and passes the check, giving width 0 |
| `Grids.RaggedLinesExample` | aoc-rs/src/geo/grid.rs:62 | `"ab\na\nabc"` is three lines of 2, 1 and 3 bytes |
| `Grids.ParseRaggedExample` | aoc-rs/src/geo/grid.rs:63-70 | the ragged `"ab\na\nabc"` passes the byte-count check, since 6 bytes equal 2 times 3 lines |
| `Grids.FlattenLines` | aoc-rs/src/geo/grid.rs:65-66 | the `extend(flat_map)` loop gives all the line bytes, line after line |
| `Grids.FromStr` | aoc-rs/src/geo/grid.rs:57-72 | `from_str` fails exactly when the text does not pass the dimension check; otherwise the width is the first line's length, the height the line count, the data the lines laid end to end, and the grid is valid |
| `Grids.LayoutLines` | aoc-rs/src/geo/grid.rs:37-51 | when cells render without a newline, the layout of `n` rows holds exactly `n - 1` newlines, so there is none at the end |
| `Grids.RowTextCount` | aoc-rs/src/geo/grid.rs:43-48 | a row of cells rendered without newlines has no newline |
| `Grids.ChunksExample` | aoc-rs/src/geo/grid.rs:188-190 | 1 to 9 in chunks of 3 are the three rows of the display test |
| `Grids.LayoutExample` | aoc-rs/src/geo/grid.rs:188-190 | the grid of 1 to 9 lays out as `"1 2 3\n4 5 6\n7 8 9"` |
| `Grids.LayoutThree` | aoc-rs/src/geo/grid.rs:38-41 | three rows lay out as their texts separated by newlines |
| `Grids.RowDigitsExample` | aoc-rs/src/geo/grid.rs:43-48 | a row of three digits lays out as the digits separated by single spaces |
| `Grids.RenderRow` | aoc-rs/src/geo/grid.rs:43-48 | the inner loop writes the row's text: the cells separated by single spaces |
| `Grids.Grid.Display` | aoc-rs/src/geo/grid.rs:36-52 | the outer loop writes the layout of the `width`-chunks of the data |
| `Grids.Grid.constructor` | aoc-rs/src/geo/grid.rs:28-32 | the struct literal holds the given fields |
| `Grids.Grid.New` | aoc-rs/src/geo/grid.rs:93-98 | `new` fails exactly when a dimension is zero; otherwise the grid is valid, has the given dimensions, and every cell holds the value |
| `Grids.Grid.WithData` | aoc-rs/src/geo/grid.rs:101-106 | `with_data` fails exactly when the width is zero, the data is empty or not a whole number of rows; otherwise the grid holds the data with `len / width` rows |
| `Grids.Grid.Size` | aoc-rs/src/geo/grid.rs:163-165 | `size()` is the number of cells of a valid grid |
| `Grids.Grid.Area` | aoc-rs/src/geo/grid.rs:151-153 | `area()` is a valid area with `size()` cells that has exactly the positions the grid has |
| `Grids.Grid.Has` | aoc-rs/src/geo/grid.rs:157-159 | a position the grid has lies at a flat index within `width * height` cells; `Grids.Grid.Area` proves it agrees with the grid's area |
| `Grids.Grid.Get` | aoc-rs/src/geo/grid.rs:79-81 | indexing yields one of the grid's cells; `Grids.Grid.GetInBounds` gives the flat index that maps back to the position |
| `Grids.Grid.GetInBounds` | aoc-rs/src/geo/grid.rs:79-81 | indexing a position the grid has reads inside the data, at the flat index that maps back to that position |
| `Grids.Grid.Set` | aoc-rs/src/geo/grid.rs:84-89 | an `IndexMut` write changes the addressed cell to the value and no other cell or dimension |
| `Grids.Grid.Swap` | aoc-rs/src/geo/grid.rs:169-171 | the data becomes the old data with the two addressed cells' values exchanged: they trade values, the other cells, the dimensions and the multiset of cells stay |
| `Grids.Grid.Find` | aoc-rs/src/geo/grid.rs:112-117 | `find` is `None` exactly when the value is absent; otherwise the position has `x < width`, holds the value, and no smaller flat index does |
| `Grids.Grid.FindAll` | aoc-rs/src/geo/grid.rs:121-128 | `find_all` reports only positions holding the value, reports every cell that holds it, and gives them in increasing flat-index order |
| `Grids.ToPositions` | aoc-rs/src/geo/grid.rs:124-127 | each flat index becomes the position `(i % w, i / w)`, whose flat index is `i` again |
| `Grids.PositionsHold` | aoc-rs/src/geo/grid.rs:121-128 | every position `find_all` reports holds the value, in increasing flat-index order |
| `Grids.PositionsComplete` | aoc-rs/src/geo/grid.rs:121-128 | every cell holding the value is reported by `find_all` |
| `Grids.Grid.Extract` | aoc-rs/src/geo/grid.rs:134-136 | `extract` yields no more values than positions given |
| `Grids.Grid.ExtractAppend` | aoc-rs/src/geo/grid.rs:134-136 | `extract` keeps the input order: it distributes over concatenation |
| `Grids.Grid.ExtractSingle` | aoc-rs/src/geo/grid.rs:134-136 | one position gives its cell exactly when the grid has it, and nothing otherwise |
| `Grids.Grid.ExtractSkipsOutside` | aoc-rs/src/geo/grid.rs:132-136 | removing a position the grid does not have leaves the output unchanged |
| `Grids.Grid.ExtractMatchesArea` | aoc-rs/src/geo/grid.rs:134-153 | `extract` yields one value per position that `area()` keeps |
| `Grids.Grid.Destination` | aoc-rs/src/geo/grid.rs:140-145 | `destination` is `Some` exactly when the move stays in `usize` and lands on a position the grid has, and then it is that cell |
| `Grids.IndexExamples` | aoc-rs/src/geo/grid.rs:209-215 | in the grid of 1 to 9, `(0,0)`, `(1,1)`, `(1,2)` and `(2,2)` hold 1, 5, 8 and 9 |
| `Grids.DimensionExamples` | aoc-rs/src/geo/grid.rs:294-316 | a 10 by 10 grid has `(0,0)`, `(5,5)` and `(9,9)` but not `(10,9)` or `(9,10)`, its size is 100 and its area is `[0,9]²` |
| `Grids.FindFirstExample` | aoc-rs/src/geo/grid.rs:254 | 1 is found at `(0,0)` |
| `Grids.FindRowEndExample` | aoc-rs/src/geo/grid.rs:255 | 3 is found at `(2,0)` |
| `Grids.FindLastExample` | aoc-rs/src/geo/grid.rs:256 | 9 is found at `(2,2)` |
| `Grids.FindMissingExample` | aoc-rs/src/geo/grid.rs:257 | 10 is not found |
| `Grids.FindAllExamples` | aoc-rs/src/geo/grid.rs:261-266 | in the grid `1 2 3 / 3 2 1 / 2 1 3`, `(0,0)`, `(2,1)` and `(1,2)` are reported for 1 and hold 1, and 4 gives nothing |
| `Grids.ExtractTailExample` | aoc-rs/src/geo/grid.rs:277-278 | `[(99,99), (1,1), (2,2)]` extracts `[5, 9]`: the out-of-range position is skipped |
| `Grids.DestinationUpExample` | aoc-rs/src/geo/grid.rs:284 | one step Up from `(1,1)` reads 8 |
| `Grids.DestinationDownExample` | aoc-rs/src/geo/grid.rs:285 | one step Down from `(1,1)` reads 2 |
| `Grids.DestinationLeftExample` | aoc-rs/src/geo/grid.rs:286 | one step Left from `(1,1)` reads 4 |
| `Grids.DestinationRightExample` | aoc-rs/src/geo/grid.rs:287 | one step Right from `(1,1)` reads 6 |
| `Grids.DestinationReentryExample` | aoc-rs/src/geo/grid.rs:288 | one step Left from the outside position `(3,2)` reads 9 |
| `Grids.DestinationLeavesExample` | aoc-rs/src/geo/grid.rs:289 | two steps Right from `(1,1)` leave the grid: `None` |
| `Grids.DestinationOutsideExample` | aoc-rs/src/geo/grid.rs:290 | three steps Up from `(10,10)` stay outside: `None` |

## Left out

- Integer widths: every coordinate is an unbounded `int`. The unchecked operators (`+`, `-`, `*`, `/`, `%`, unary `-`), `dest`, `manhattan`, `abs`, `rows`, `cols`, `size`, the grid's index arithmetic and `Grid::area`'s `width - 1` would overflow, wrap or panic in a fixed-width type. The model does not capture that. Only the checked variants (`checked_add`, `checked_sub`, `checked_rem`, `checked_neg`, `checked_dest`, `checked_next`, `neighbours`, `destination`) carry an explicit range.
- Rust's generic numeric traits (`Num`, `Signed`, `CheckedAdd`, …) are not modelled. One model over `int` serves every `T`, and the range of the `T` a checked call uses is passed as a parameter.
- The `Display` impls of `Direction`, `Pos` and `DirectionalPos` are not modelled. They are number-to-text formatting only.
- Grids.Grid.Display renders each cell with a caller-supplied `show` function, because `{}` formatting of numbers is not modelled. The layout itself (spaces, newlines, no trailing newline) is modelled. Write errors of the formatter are not modelled either.
- `CharGrid::extract_string` is `Grids.Grid.Extract` on a byte grid followed by `String::from_utf8`. The UTF-8 validation is a library call and is not modelled; the bytes handed to it are exactly those of `Extract`.
- Grids.Grid.Extract requires the grid to be `Valid` (data of `width * height` cells). The source only panics when a position it has lies past the data, which can happen for a grid built through its public fields.
- Grids.Grid.Destination requires a `Valid` grid for the same reason.
- Grids.Grid.Area requires `width > 0` and `height > 0`: the model makes the `usize` underflow of `width - 1` and `height - 1` a precondition, so it does not apply to the width-0 grid that `from_str("\n")` yields (see `Grids.ParseNewlineExample`), on which the source would panic or wrap.
- Grids.FindAllExamples states the three positions reported for 1 and that 4 gives nothing. The exact list for 1 follows from `Grids.Grid.FindAll`'s increasing order, but it is not restated, and the `find_all(3)` case is not stated.
- Grids.ExtractTailExample covers the out-of-range case of the third `extract` unit test without its leading `(0,0)`. `Grids.Grid.ExtractSkipsOutside` proves in general that the out-of-range position is dropped. The first two `extract` cases and the `extract_string`, `index_mut`, `new`, `with_data`, `swap` and 1 by 1 `area` unit tests are covered by the general contracts of those members and are not restated as example lemmas. The same holds for the `Area` unit tests of `has`, `filter_pos`, the boundary and corner predicates and the corner accessors, and the first two `neighbours` cases.
- `Pos::new` and `DirectionalPos::new` are the datatype constructors `Pos(x, y)` and `DirectionalPos(pos, direction)`. The corner accessors `top_left`, `top_right`, `bottom_left` and `bottom_right` are plain functions, used by `Areas.FromPos` and `Areas.CornerIsBothBoundaries`.
- The laziness of the iterator adaptors (`filter_pos`, `neighbours`, `find_all`, `extract`) is not modelled; each is a function returning the whole sequence.
- Division by zero, slice indexing past the end and the zero-width `chunks` panic are preconditions, not modelled errors.
- `aoc-rs/src/input.rs` (file I/O), `aoc-rs/src/math.rs` (`gcd`/`lcm` folds over a foreign crate), `aoc-rs/src/lib.rs` (module plumbing) and the per-day puzzle crates are not part of this model.
