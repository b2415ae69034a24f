/** `Grid<T>` of `geo/grid.rs`: a dense rectangular store whose cells sit row
    after row in one flat vector, the cell at `(x, y)` at `width * y + x`. */
module Grids {
  import opened Wrappers
  import opened Ints
  import opened Seqs
  import opened Directions
  import opened Positions
  import Areas

  datatype GridDimensionError = GridDimensionError
  datatype ParseGridError = ParseGridError

  /** `PosIdx = Pos<usize>`: both coordinates are `usize` values. */
  predicate IsIdx(p: Pos) {
    0 <= p.x <= USIZE_MAX && 0 <= p.y <= USIZE_MAX
  }

  /** Every position of `ps` is an index position. */
  predicate AllIdx(ps: seq<Pos>) {
    forall p :: p in ps ==> IsIdx(p)
  }

  // ---------------------------------------------------------------------
  // Flat indices

  /** The flat index `width * y + x` used by `Index`, `IndexMut` and `swap`. */
  function FlatIndex(w: int, p: Pos): int {
    w * p.y + p.x
  }

  /** The position `(i % width, i / width)` that `find` and `find_all` give
      for a flat index. */
  function FromFlatIndex(w: nat, i: nat): Pos
    requires w > 0
  {
    Pos(i % w, i / w)
  }

  /** The two index maps are inverse to each other: every flat index comes
      back from its position, and every position with `x < width` comes
      back from its flat index. */
  lemma FlatIndexRoundTrip(w: nat, i: nat, p: Pos)
    requires w > 0
    ensures FlatIndex(w, FromFlatIndex(w, i)) == i
    ensures 0 <= p.x < w && 0 <= p.y ==> FromFlatIndex(w, FlatIndex(w, p)) == p
  {
    if 0 <= p.x < w && 0 <= p.y {
      assert w * p.y >= 0 by {
        if p.y > 0 {
          MulMonotone(w, p.y);
        }
      }
      DivModUnique(FlatIndex(w, p), w, p.y, p.x);
    }
  }

  /** A position inside a `width` by `height` grid has a flat index inside
      its `width * height` cells. */
  lemma FlatIndexInBounds(w: nat, h: nat, p: Pos)
    requires 0 <= p.x < w && 0 <= p.y < h
    ensures 0 <= FlatIndex(w, p) < w * h
  {
    MulMonotoneLe(w, p.y + 1, h);
    MulDistributes(w, p.y, 1);
    MulMonotoneLe(w, 0, p.y);
  }

  /** `w * a <= w * b` for `a <= b` and non-negative `w`. */
  lemma MulMonotoneLe(w: nat, a: int, b: int)
    requires a <= b
    ensures w * a <= w * b
  {
    if w > 0 && a < b {
      MulMonotone(w, b - a);
      MulDistributes(w, a, b - a);
    }
  }

  // ---------------------------------------------------------------------
  // Text input: `str::lines` over the bytes of the text

  const NL: byte := 10
  const CR: byte := 13

  /** The length of the first line: the bytes before the first `'\n'`. */
  function LineEnd(s: seq<byte>): (i: nat)
    ensures i <= |s|
    ensures forall j :: 0 <= j < i ==> s[j] != NL
    ensures i < |s| ==> s[i] == NL
  {
    if s == [] || s[0] == NL then 0 else 1 + LineEnd(s[1..])
  }

  /** A line ended by `"\r\n"` loses its `'\r'` too. */
  function StripCr(l: seq<byte>): seq<byte> {
    if l != [] && l[|l| - 1] == CR then l[..|l| - 1] else l
  }

  /** `s.lines()`: the text split at `'\n'`, each line without its line
      ending (`"\n"` or `"\r\n"`); a final line ending opens no further
      line, and the empty text has no lines. */
  function Lines(s: seq<byte>): (r: seq<seq<byte>>)
    ensures r == [] <==> s == []
    ensures forall k :: 0 <= k < |r| ==> NL !in r[k]
    decreases |s|
  {
    if s == [] then []
    else
      var i := LineEnd(s);
      assert NL !in s[..i];
      if i == |s| then [s]
      else [StripCr(s[..i])] + Lines(s[i + 1..])
  }

  /** Each line followed by `'\n'`, the way a text file ends its lines. */
  function Terminated(ls: seq<seq<byte>>): seq<byte> {
    if ls == [] then [] else ls[0] + [NL] + Terminated(ls[1..])
  }

  /** A line that `lines()` hands back unchanged: no `'\n'` inside and no
      `'\r'` at its end. */
  predicate PlainLine(l: seq<byte>) {
    NL !in l && (l == [] || l[|l| - 1] != CR)
  }

  /** A line without `'\n'` runs to the end of the text. */
  lemma {:induction false} LineEndAll(l: seq<byte>)
    requires NL !in l
    ensures LineEnd(l) == |l|
  {
    if l != [] {
      LineEndAll(l[1..]);
    }
  }

  lemma {:induction false} LineEndOf(l: seq<byte>, rest: seq<byte>)
    requires NL !in l
    ensures LineEnd(l + [NL] + rest) == |l|
  {
    if l != [] {
      assert (l + [NL] + rest)[1..] == l[1..] + [NL] + rest;
      LineEndOf(l[1..], rest);
    }
  }

  /** A plain line followed by `'\n'` is the first of the lines. */
  lemma LinesCons(l: seq<byte>, rest: seq<byte>)
    requires PlainLine(l)
    ensures Lines(l + [NL] + rest) == [l] + Lines(rest)
  {
    var s := l + [NL] + rest;
    LineEndOf(l, rest);
    assert s[..|l|] == l;
    assert s[|l| + 1..] == rest;
  }

  /** Unterminated text without `'\n'` is a single line, kept as it is. */
  lemma LinesLast(l: seq<byte>)
    requires l != [] && NL !in l
    ensures Lines(l) == [l]
  {
    LineEndAll(l);
  }

  /** `lines()` undoes writing plain lines one per text line. */
  lemma {:induction false} LinesOfTerminated(ls: seq<seq<byte>>)
    requires forall k :: 0 <= k < |ls| ==> PlainLine(ls[k])
    ensures Lines(Terminated(ls)) == ls
  {
    if ls != [] {
      LinesCons(ls[0], Terminated(ls[1..]));
      LinesOfTerminated(ls[1..]);
    }
  }

  /** The dimension check of `from_str`: the text is not empty and its line
      bytes number exactly first-line length times line count. Line lengths
      are not compared one by one. */
  predicate Parses(s: seq<byte>)
    ensures Parses(s) ==> s != [] && Lines(s) != []
    ensures Parses(s) && |Lines(s)[0]| > 0 ==>
      |Concat(Lines(s))| % |Lines(s)[0]| == 0 && |Concat(Lines(s))| / |Lines(s)[0]| == |Lines(s)|
  {
    s != [] && ParsesWith(Lines(s))
  }

  /** The byte-count check on the lines of a text: when it holds for a
      non-empty first line, the bytes split into whole rows of that width,
      one per line. */
  predicate ParsesWith(ls: seq<seq<byte>>)
    requires ls != []
    ensures ParsesWith(ls) && |ls[0]| > 0 ==>
      |Concat(ls)| % |ls[0]| == 0 && |Concat(ls)| / |ls[0]| == |ls|
  {
    var ok := |Concat(ls)| == |ls[0]| * |ls|;
    if ok && |ls[0]| > 0 then
      DivModUnique(|Concat(ls)|, |ls[0]|, |ls|, 0);
      ok
    else ok
  }

  /** Text whose lines all have the same length parses, and the grid's rows
      (the `width`-chunks of its data) are exactly those lines. */
  lemma RectangularTextParses(s: seq<byte>)
    requires s != []
    requires forall k :: 0 <= k < |Lines(s)| ==> |Lines(s)[k]| == |Lines(s)[0]|
    ensures Parses(s)
    ensures |Lines(s)[0]| > 0 ==> Chunks(Concat(Lines(s)), |Lines(s)[0]|) == Lines(s)
  {
    var ls := Lines(s);
    var w := |ls[0]|;
    if w > 0 {
      ChunksConcat(ls, w);
    } else {
      ConcatOfEmpties(ls);
    }
  }

  lemma {:induction false} ConcatOfEmpties<T>(ls: seq<seq<T>>)
    requires forall k :: 0 <= k < |ls| ==> ls[k] == []
    ensures Concat(ls) == []
  {
    if ls != [] {
      ConcatOfEmpties(ls[1..]);
    }
  }

  /** Two lines joined back give their bytes, one after the other. */
  lemma ConcatTwo(l: seq<byte>, m: seq<byte>)
    ensures Concat([l, m]) == l + m
  {
    assert [l, m][1..] == [m] && [m][1..] == [];
    assert Concat([m]) == m + Concat([]);
    assert m + [] == m;
  }

  /** The `from_str` unit test on `"abc\ndef"`: two lines of three. */
  lemma ParseTwoLinesExample()
    ensures Lines([97, 98, 99, NL, 100, 101, 102]) == [[97, 98, 99], [100, 101, 102]]
    ensures Parses([97, 98, 99, NL, 100, 101, 102])
  {
    var abc: seq<byte>, def: seq<byte> := [97, 98, 99], [100, 101, 102];
    LinesCons(abc, def);
    LinesLast(def);
    assert abc + [NL] + def == [97, 98, 99, NL, 100, 101, 102];
    ConcatTwo(abc, def);
  }

  /** The `from_str` unit test on `"123"`: one line. */
  lemma ParseOneLineExample()
    ensures Lines([49, 50, 51]) == [[49, 50, 51]] && Parses([49, 50, 51])
  {
    var l: seq<byte> := [49, 50, 51];
    LinesLast(l);
    assert [l][1..] == [];
    assert Concat([l]) == l + Concat([]);
    assert l + [] == l;
  }

  /** The `from_str` unit test on `""`: rejected. */
  lemma ParseEmptyExample()
    ensures !Parses([])
  {
  }

  /** The `from_str` unit test on `"123\n45"`: 5 bytes are not a multiple
      of the first line's 3, so rejected. */
  lemma ParseShortLineExample()
    ensures Lines([49, 50, 51, NL, 52, 53]) == [[49, 50, 51], [52, 53]]
    ensures !Parses([49, 50, 51, NL, 52, 53])
  {
    var n123: seq<byte>, n45: seq<byte> := [49, 50, 51], [52, 53];
    LinesCons(n123, n45);
    LinesLast(n45);
    assert n123 + [NL] + n45 == [49, 50, 51, NL, 52, 53];
    ConcatTwo(n123, n45);
  }

  /** `"\n"` is one empty line: the byte-count check passes, giving a grid
      of width 0. */
  lemma ParseNewlineExample()
    ensures Lines([NL]) == [[]] && Parses([NL])
  {
    var empty: seq<byte> := [];
    LinesCons(empty, empty);
    assert empty + [NL] + empty == [NL];
    assert [empty][1..] == [];
    assert Concat([empty]) == empty + Concat([]);
  }

  /** The ragged `"ab\na\nabc"` is three lines of lengths 2, 1 and 3. */
  lemma RaggedLinesExample()
    ensures Lines([97, 98, NL, 97, NL, 97, 98, 99]) == [[97, 98], [97], [97, 98, 99]]
  {
    var ab: seq<byte>, rest: seq<byte> := [97, 98], [97, NL, 97, 98, 99];
    LinesCons(ab, rest);
    RaggedTailExample();
    assert ab + [NL] + rest == [97, 98, NL, 97, NL, 97, 98, 99];
  }

  /** The last two lines of the ragged text. */
  lemma RaggedTailExample()
    ensures Lines([97, NL, 97, 98, 99]) == [[97], [97, 98, 99]]
  {
    var a: seq<byte>, abc: seq<byte> := [97], [97, 98, 99];
    LinesCons(a, abc);
    LinesLast(abc);
    assert a + [NL] + abc == [97, NL, 97, 98, 99];
  }

  /** The ragged text has 6 bytes over 3 lines of first length 2, so the
      byte-count check lets it through. */
  lemma ParseRaggedExample()
    ensures Parses([97, 98, NL, 97, NL, 97, 98, 99])
  {
    var ab: seq<byte>, a: seq<byte>, abc: seq<byte> := [97, 98], [97], [97, 98, 99];
    RaggedLinesExample();
    assert [ab, a, abc][1..] == [a, abc];
    ConcatTwo(a, abc);
    assert Concat([ab, a, abc]) == ab + (a + abc);
  }

  /** The `Vec::extend(lines.iter().flat_map(..))` step of `from_str`: all
      line bytes, line after line. */
  method FlattenLines(lines: seq<seq<byte>>) returns (data: seq<byte>)
    ensures data == Concat(lines)
  {
    data := [];
    for i := 0 to |lines|
      invariant data == Concat(lines[..i])
    {
      ConcatSnoc(lines[..i], lines[i]);
      assert lines[..i + 1] == lines[..i] + [lines[i]];
      data := data + lines[i];
    }
    assert lines[..|lines|] == lines;
  }

  // ---------------------------------------------------------------------
  // Display layout

  /** Parts joined by a separator, with none before the first part or after
      the last. */
  function JoinWith(parts: seq<seq<char>>, sep: seq<char>): seq<char> {
    if parts == [] then []
    else if |parts| == 1 then parts[0]
    else JoinWith(parts[..|parts| - 1], sep) + sep + parts[|parts| - 1]
  }

  /** One row of the `Display` layout: the rendered cells separated by one
      space. */
  function RowText<T>(row: seq<T>, show: T -> seq<char>): seq<char> {
    JoinWith(Map(show, row), " ")
  }

  /** The `Display` layout: rows separated by `'\n'`, no trailing newline. */
  function Layout<T>(rows: seq<seq<T>>, show: T -> seq<char>): seq<char> {
    JoinWith(Map(row => RowText(row, show), rows), "\n")
  }

  /** How often `c` occurs in `s`. */
  function Count(s: seq<char>, c: char): nat {
    if s == [] then 0 else (if s[0] == c then 1 else 0) + Count(s[1..], c)
  }

  lemma {:induction false} CountAppend(s: seq<char>, t: seq<char>, c: char)
    ensures Count(s + t, c) == Count(s, c) + Count(t, c)
  {
    if s == [] {
      assert s + t == t;
    } else {
      assert (s + t)[1..] == s[1..] + t;
      CountAppend(s[1..], t, c);
    }
  }

  /** When no part contains the separator character, joining `n` parts puts
      exactly `n - 1` separators into the text. */
  lemma {:induction false} JoinWithCount(parts: seq<seq<char>>, c: char)
    requires parts != []
    requires forall k :: 0 <= k < |parts| ==> Count(parts[k], c) == 0
    ensures Count(JoinWith(parts, [c]), c) == |parts| - 1
  {
    if |parts| > 1 {
      var n := |parts| - 1;
      JoinWithCount(parts[..n], c);
      CountAppend(JoinWith(parts[..n], [c]) + [c], parts[n], c);
      CountAppend(JoinWith(parts[..n], [c]), [c], c);
      assert [c][1..] == [];
    }
  }

  /** A layout of rows whose cells render without a newline has one line per
      row: `rows - 1` newlines and none at the end. */
  lemma LayoutLines<T>(rows: seq<seq<T>>, show: T -> seq<char>)
    requires rows != []
    requires forall x :: Count(show(x), '\n') == 0
    ensures Count(Layout(rows, show), '\n') == |rows| - 1
  {
    var texts := Map(row => RowText(row, show), rows);
    forall i | 0 <= i < |rows| ensures Count(texts[i], '\n') == 0 {
      RowTextCount(rows[i], show);
    }
    JoinWithCount(texts, '\n');
  }

  lemma {:induction false} RowTextCount<T>(row: seq<T>, show: T -> seq<char>)
    requires forall x :: Count(show(x), '\n') == 0
    ensures Count(RowText(row, show), '\n') == 0
    decreases |row|
  {
    if |row| > 1 {
      var n := |row| - 1;
      RowTextCount(row[..n], show);
      assert Map(show, row)[..n] == Map(show, row[..n]);
      CountAppend(RowText(row[..n], show) + " ", show(row[n]), '\n');
      CountAppend(RowText(row[..n], show), " ", '\n');
      assert " "[1..] == [];
    }
  }

  /** A one-character rendering of the digits 1 to 9, as `{}` prints them. */
  function Digit(n: int): seq<char> {
    if 0 <= n <= 9 then [(n + 48) as char] else "?"
  }

  /** Three parts joined. */
  lemma JoinWithThree(a: seq<char>, b: seq<char>, c: seq<char>, sep: seq<char>)
    ensures JoinWith([a, b, c], sep) == a + sep + b + sep + c
  {
    assert [a, b, c][..2] == [a, b];
    assert [a, b][..1] == [a];
    assert JoinWith([a], sep) == a;
    assert JoinWith([a, b], sep) == a + sep + b;
    assert JoinWith([a, b, c], sep) == JoinWith([a, b], sep) + sep + c;
  }

  /** The rows of the `Display` unit test: 1 to 9 in chunks of 3. */
  lemma ChunksExample()
    ensures Chunks([1, 2, 3, 4, 5, 6, 7, 8, 9], 3) == [[1, 2, 3], [4, 5, 6], [7, 8, 9]]
  {
    var d: seq<int> := [1, 2, 3, 4, 5, 6, 7, 8, 9];
    assert d[..3] == [1, 2, 3] && d[3..] == [4, 5, 6, 7, 8, 9];
    var e := d[3..];
    assert e[..3] == [4, 5, 6] && e[3..] == [7, 8, 9];
    assert Chunks(e[3..], 3) == [[7, 8, 9]];
    assert Chunks(e, 3) == [[4, 5, 6]] + [[7, 8, 9]];
  }

  /** The `Display` unit test: the 3 by 3 grid of 1 to 9. */
  lemma LayoutExample()
    ensures Layout([[1, 2, 3], [4, 5, 6], [7, 8, 9]], Digit) == "1 2 3\n4 5 6\n7 8 9"
  {
    LayoutThree([1, 2, 3], [4, 5, 6], [7, 8, 9], Digit);
    RowDigitsExample(1, 2, 3);
    RowDigitsExample(4, 5, 6);
    RowDigitsExample(7, 8, 9);
  }

  /** Three rows laid out: their texts separated by newlines. */
  lemma LayoutThree<T>(r1: seq<T>, r2: seq<T>, r3: seq<T>, show: T -> seq<char>)
    ensures Layout([r1, r2, r3], show)
         == RowText(r1, show) + "\n" + RowText(r2, show) + "\n" + RowText(r3, show)
  {
    var texts := Map(row => RowText(row, show), [r1, r2, r3]);
    assert texts == [RowText(r1, show), RowText(r2, show), RowText(r3, show)];
    JoinWithThree(RowText(r1, show), RowText(r2, show), RowText(r3, show), "\n");
  }

  /** A row of three digits renders as the digits with single spaces. */
  lemma RowDigitsExample(a: int, b: int, c: int)
    requires 1 <= a <= 9 && 1 <= b <= 9 && 1 <= c <= 9
    ensures RowText([a, b, c], Digit) == [(a + 48) as char, ' ', (b + 48) as char, ' ', (c + 48) as char]
  {
    RowExample(a, b, c);
  }

  lemma RowExample(a: int, b: int, c: int)
    requires 1 <= a <= 9 && 1 <= b <= 9 && 1 <= c <= 9
    ensures RowText([a, b, c], Digit) == Digit(a) + " " + Digit(b) + " " + Digit(c)
  {
    var cells := Map(Digit, [a, b, c]);
    assert cells[0] == Digit(a) && cells[1] == Digit(b) && cells[2] == Digit(c);
    assert cells == [Digit(a), Digit(b), Digit(c)];
    JoinWithThree(Digit(a), Digit(b), Digit(c), " ");
  }

  // ---------------------------------------------------------------------
  // The grid

  /** `Grid<T>`: `width`, `height` and the cells `data`, row after row. The
      fields are public, so a grid need not satisfy `Valid`; the
      constructors `New`, `WithData` and `FromStr` ensure it. */
  class Grid<T(==)> {
    var width: nat
    var height: nat
    var data: seq<T>

    /** The struct literal `Grid { width, height, data }`. */
    constructor (w: nat, h: nat, d: seq<T>)
      ensures width == w && height == h && data == d
    {
      width := w;
      height := h;
      data := d;
    }

    /** The data holds exactly `width * height` cells. */
    predicate Valid()
      reads this
    {
      |data| == width * height
    }

    /** `Grid::new(width, height, value)`: fails exactly when a dimension is
        zero; otherwise every one of the `width * height` cells holds
        `value`. */
    static method New(w: nat, h: nat, v: T) returns (r: Result<Grid<T>, GridDimensionError>)
      ensures r.Err? <==> w == 0 || h == 0
      ensures r.Ok? ==> r.value.width == w && r.value.height == h && r.value.Valid()
      ensures r.Ok? ==> forall i :: 0 <= i < |r.value.data| ==> r.value.data[i] == v
    {
      if w == 0 || h == 0 {
        return Err(GridDimensionError);
      }
      MulMonotoneLe(w, 0, h);
      var g := new Grid(w, h, seq(w * h, _ => v));
      return Ok(g);
    }

    /** `Grid::with_data(width, data)`: fails exactly when `width` is zero,
        `data` is empty or not a whole number of rows; otherwise the grid
        holds `data` with `|data| / width` rows. */
    static method WithData(w: nat, d: seq<T>) returns (r: Result<Grid<T>, GridDimensionError>)
      ensures r.Err? <==> w == 0 || d == [] || |d| % w != 0
      ensures r.Ok? ==> r.value.width == w && r.value.height == |d| / w
                        && r.value.data == d && r.value.Valid()
    {
      if w == 0 || d == [] || |d| % w != 0 {
        return Err(GridDimensionError);
      }
      var g := new Grid(w, |d| / w, d);
      return Ok(g);
    }

    /** `grid.has(pos)`: the position lies within the dimensions. */
    predicate Has(p: Pos)
      reads this
      ensures Has(p) && IsIdx(p) ==> 0 <= FlatIndex(width, p) < width * height
    {
      if p.x < width && p.y < height && IsIdx(p) then
        FlatIndexInBounds(width, height, p);
        true
      else
        p.x < width && p.y < height
    }

    /** `grid.size()`: `width * height`, the number of cells of a valid grid. */
    function Size(): (n: nat)
      reads this
      ensures Valid() ==> n == |data|
    {
      MulMonotoneLe(width, 0, height);
      width * height
    }

    /** `grid.area()`: the area `[0, width - 1] × [0, height - 1]`, which
        holds exactly the positions the grid has. The subtractions underflow
        for an empty dimension. */
    function Area(): (r: Areas.Area)
      reads this
      requires width > 0 && height > 0
      ensures Areas.Valid(r) && Areas.Size(r) == Size()
      ensures forall p :: IsIdx(p) ==> (Areas.Has(r, p) <==> Has(p))
    {
      Areas.Area(width - 1, height - 1, 0, 0)
    }

    /** `grid[pos]`: the cell at flat index `width * y + x`; it panics when
        that index is past the data. */
    function Get(p: Pos): (r: T)
      reads this
      requires IsIdx(p) && FlatIndex(width, p) < |data|
      ensures r in data
    {
      MulMonotoneLe(width, 0, p.y);
      data[FlatIndex(width, p)]
    }

    /** The cell of every position the grid has is in the data. */
    lemma GetInBounds(p: Pos)
      requires Valid() && IsIdx(p) && Has(p)
      ensures FlatIndex(width, p) < |data|
      ensures FromFlatIndex(width, FlatIndex(width, p)) == p
    {
      FlatIndexInBounds(width, height, p);
      FlatIndexRoundTrip(width, 0, p);
    }

    /** `grid[pos] = value` (`IndexMut`): that one cell changes and nothing
        else does. */
    method Set(p: Pos, v: T)
      modifies this
      requires IsIdx(p) && FlatIndex(width, p) < |data|
      ensures width == old(width) && height == old(height) && |data| == old(|data|)
      ensures data == old(data)[FlatIndex(width, p) := v]
      ensures Get(p) == v
      ensures forall q :: IsIdx(q) && FlatIndex(width, q) < |data| && FlatIndex(width, q) != FlatIndex(width, p)
                ==> Get(q) == old(Get(q))
    {
      MulMonotoneLe(width, 0, p.y);
      data := data[FlatIndex(width, p) := v];
    }

    /** `grid.swap(pos, other)`: the two addressed cells trade places; the
        other cells, the dimensions and the multiset of cells stay. */
    method Swap(p: Pos, q: Pos)
      modifies this
      requires IsIdx(p) && FlatIndex(width, p) < |data|
      requires IsIdx(q) && FlatIndex(width, q) < |data|
      ensures width == old(width) && height == old(height) && |data| == old(|data|)
      ensures data == old(data)[FlatIndex(width, p) := old(Get(q))][FlatIndex(width, q) := old(Get(p))]
      ensures Get(p) == old(Get(q)) && Get(q) == old(Get(p))
      ensures forall o :: IsIdx(o) && FlatIndex(width, o) < |data|
                && FlatIndex(width, o) != FlatIndex(width, p) && FlatIndex(width, o) != FlatIndex(width, q)
                ==> Get(o) == old(Get(o))
      ensures multiset(data) == multiset(old(data))
    {
      MulMonotoneLe(width, 0, p.y);
      MulMonotoneLe(width, 0, q.y);
      var i, j := FlatIndex(width, p), FlatIndex(width, q);
      data := data[i := data[j]][j := data[i]];
    }

    /** `grid.find(value)`: the position of the first cell holding `value`,
        or `None` when no cell does; it divides by `width` only when it found
        the value. */
    function Find(v: T): (r: Option<Pos>)
      reads this
      requires width > 0 || v !in data
      ensures r.None? <==> v !in data
      ensures r.Some? ==> 0 <= r.value.x < width && 0 <= r.value.y
      ensures r.Some? ==> var i := FlatIndex(width, r.value);
                          0 <= i < |data| && data[i] == v
                          && forall j :: 0 <= j < i ==> data[j] != v
    {
      match FirstIndex(data, v)
      case None => None
      case Some(i) =>
        FlatIndexRoundTrip(width, i, Pos(0, 0));
        Some(FromFlatIndex(width, i))
    }

    /** `grid.find_all(value)`: the positions of all cells holding `value`,
        in increasing flat-index order. */
    function FindAll(v: T): (r: seq<Pos>)
      reads this
      requires width > 0 || v !in data
      ensures forall k :: 0 <= k < |r| ==>
        0 <= r[k].x < width && 0 <= FlatIndex(width, r[k]) < |data| && data[FlatIndex(width, r[k])] == v
      ensures forall i :: 0 <= i < |data| && data[i] == v ==> FromFlatIndex(width, i) in r
      ensures forall k, l :: 0 <= k < l < |r| ==> FlatIndex(width, r[k]) < FlatIndex(width, r[l])
    {
      var idx := IndicesOf(data, v);
      assert idx != [] ==> width > 0 by {
        if idx != [] {
          assert idx[0] in idx;
        }
      }
      var r := ToPositions(width, idx);
      if width > 0 then
        PositionsHold(width, data, v, idx, r);
        PositionsComplete(width, data, v, idx, r);
        r
      else r
    }

    /** `grid.extract(positions)`: the cells of the positions the grid has,
        in the order given; the others are skipped. */
    function Extract(ps: seq<Pos>): (r: seq<T>)
      reads this
      requires Valid() && AllIdx(ps)
      ensures |r| <= |ps|
      decreases |ps|
    {
      if ps == [] then []
      else
        var rest := Extract(ps[1..]);
        if Has(ps[0]) then
          GetInBounds(ps[0]);
          [Get(ps[0])] + rest
        else rest
    }

    /** `extract` keeps its input order: it distributes over concatenation,
        and a single position gives its cell exactly when the grid has it. */
    lemma {:induction false} ExtractAppend(ps: seq<Pos>, qs: seq<Pos>)
      requires Valid()
      requires AllIdx(ps)
      requires AllIdx(qs)
      ensures Extract(ps + qs) == Extract(ps) + Extract(qs)
      decreases |ps|
    {
      if ps == [] {
        assert ps + qs == qs;
      } else {
        assert (ps + qs)[1..] == ps[1..] + qs;
        ExtractAppend(ps[1..], qs);
      }
    }

    lemma ExtractSingle(p: Pos)
      requires Valid() && IsIdx(p)
      ensures Has(p) ==> FlatIndex(width, p) < |data| && Extract([p]) == [Get(p)]
      ensures !Has(p) ==> Extract([p]) == []
    {
      assert [p][1..] == [];
      if Has(p) {
        GetInBounds(p);
      }
    }

    /** Out-of-range positions are ignored: dropping one from the input
        leaves the output unchanged. */
    lemma ExtractSkipsOutside(ps: seq<Pos>, p: Pos, qs: seq<Pos>)
      requires Valid() && AllIdx(ps) && IsIdx(p) && AllIdx(qs) && !Has(p)
      ensures Extract(ps + [p] + qs) == Extract(ps + qs)
    {
      var left := ps + [p];
      assert AllIdx(left);
      assert Extract(left) == Extract(ps) by {
        ExtractAppend(ps, [p]);
        ExtractSingle(p);
      }
      assert Extract(left + qs) == Extract(left) + Extract(qs) by {
        ExtractAppend(left, qs);
      }
      ExtractAppend(ps, qs);
    }

    /** `extract` yields one cell per position the grid's `area()` keeps. */
    lemma {:induction false} ExtractMatchesArea(ps: seq<Pos>)
      requires Valid() && width > 0 && height > 0
      requires AllIdx(ps)
      ensures |Extract(ps)| == |Areas.FilterPos(Area(), ps)|
      decreases |ps|
    {
      if ps != [] {
        ExtractMatchesArea(ps[1..]);
        assert ps == [ps[0]] + ps[1..];
        Areas.FilterPosAppend(Area(), [ps[0]], ps[1..], ps[0]);
      }
    }

    /** `grid.destination(pos, distance, direction)`: the cell `distance`
        steps away, when the move stays within `usize` and inside the grid. */
    function Destination(p: Pos, distance: int, d: Direction): (r: Option<T>)
      reads this
      requires Valid() && IsIdx(p) && Holds(USIZE, distance)
      ensures r.Some? <==> IsIdx(Dest(p, distance, d)) && Has(Dest(p, distance, d))
      ensures r.Some? ==> FlatIndex(width, Dest(p, distance, d)) < |data|
                          && r.value == Get(Dest(p, distance, d))
    {
      match CheckedDest(USIZE, p, distance, d)
      case Some(q) =>
        if Has(q) then
          FlatIndexInBounds(width, height, q);
          Some(Get(q))
        else None
      case None => None
    }

    /** `Display`: the rows (the `width`-chunks of the data) laid out with
        `show` rendering each cell. */
    method Display(show: T -> seq<char>) returns (text: seq<char>)
      requires width > 0
      ensures text == Layout(Chunks(data, width), show)
    {
      var rows := Chunks(data, width);
      text := [];
      for i := 0 to |rows|
        invariant text == Layout(rows[..i], show)
      {
        if i > 0 {
          text := text + "\n";
        }
        var line := RenderRow(rows[i], show);
        text := text + line;
        LayoutSnoc(rows, i, show);
      }
      assert rows[..|rows|] == rows;
    }
  }

  /** The inner loop of `Display`: the cells of one row, separated by one
      space. */
  method RenderRow<T>(row: seq<T>, show: T -> seq<char>) returns (text: seq<char>)
    ensures text == RowText(row, show)
  {
    text := [];
    for j := 0 to |row|
      invariant text == RowText(row[..j], show)
    {
      if j > 0 {
        text := text + " ";
      }
      text := text + show(row[j]);
      RowTextSnoc(row, j, show);
    }
    assert row[..|row|] == row;
  }

  /** The `map(|idx| Pos { x: idx % width, y: idx / width })` stage of
      `find_all`: each flat index as a position, in order. */
  function ToPositions(w: nat, idx: seq<nat>): (r: seq<Pos>)
    requires w > 0 || idx == []
    ensures |r| == |idx|
    ensures forall k :: 0 <= k < |r| ==> r[k] == FromFlatIndex(w, idx[k])
    ensures forall k :: 0 <= k < |r| ==> 0 <= r[k].x < w && FlatIndex(w, r[k]) == idx[k]
  {
    if idx == [] then []
    else
      FlatIndexRoundTrip(w, idx[0], Pos(0, 0));
      [FromFlatIndex(w, idx[0])] + ToPositions(w, idx[1..])
  }

  /** Each position `find_all` reports holds the value, and they come in
      increasing flat-index order. */
  lemma PositionsHold<T>(w: nat, d: seq<T>, v: T, idx: seq<nat>, r: seq<Pos>)
    requires w > 0 && idx == IndicesOf(d, v) && r == ToPositions(w, idx)
    ensures forall k :: 0 <= k < |r| ==>
      0 <= r[k].x < w && 0 <= FlatIndex(w, r[k]) < |d| && d[FlatIndex(w, r[k])] == v
    ensures forall k, l :: 0 <= k < l < |r| ==> FlatIndex(w, r[k]) < FlatIndex(w, r[l])
  {
    forall k | 0 <= k < |r| ensures 0 <= idx[k] < |d| && d[idx[k]] == v {
      assert idx[k] in idx;
    }
  }

  /** Every cell holding the value is reported by `find_all`. */
  lemma PositionsComplete<T>(w: nat, d: seq<T>, v: T, idx: seq<nat>, r: seq<Pos>)
    requires w > 0 && idx == IndicesOf(d, v) && r == ToPositions(w, idx)
    ensures forall i :: 0 <= i < |d| && d[i] == v ==> FromFlatIndex(w, i) in r
  {
    forall i | 0 <= i < |d| && d[i] == v ensures FromFlatIndex(w, i) in r {
      assert i in idx;
      var k :| 0 <= k < |idx| && idx[k] == i;
      assert r[k] == FromFlatIndex(w, i);
    }
  }

  /** Appending the `j`-th cell to a row's text. */
  lemma RowTextSnoc<T>(row: seq<T>, j: nat, show: T -> seq<char>)
    requires j < |row|
    ensures RowText(row[..j + 1], show)
         == (if j == 0 then [] else RowText(row[..j], show) + " ") + show(row[j])
  {
    assert Map(show, row[..j + 1])[..j] == Map(show, row[..j]);
  }

  /** Appending the `i`-th row to the layout. */
  lemma LayoutSnoc<T>(rows: seq<seq<T>>, i: nat, show: T -> seq<char>)
    requires i < |rows|
    ensures Layout(rows[..i + 1], show)
         == (if i == 0 then [] else Layout(rows[..i], show) + "\n") + RowText(rows[i], show)
  {
    var f := row => RowText(row, show);
    assert Map(f, rows[..i + 1])[..i] == Map(f, rows[..i]);
  }

  /** `CharGrid = Grid<u8>`. */
  type CharGrid = Grid<byte>

  /** `CharGrid::from_str(s)`: fails on empty text and when the line bytes
      do not number first-line length times line count; otherwise the lines
      laid end to end are the data. */
  method FromStr(s: seq<byte>) returns (r: Result<CharGrid, ParseGridError>)
    ensures r.Err? <==> !Parses(s)
    ensures r.Ok? ==> r.value.width == |Lines(s)[0]| && r.value.height == |Lines(s)|
                      && r.value.data == Concat(Lines(s)) && r.value.Valid()
  {
    if s == [] {
      return Err(ParseGridError);
    }
    var lines := Lines(s);
    var width := |lines[0]|;
    var height := |lines|;
    var data := FlattenLines(lines);
    if width * height != |data| {
      return Err(ParseGridError);
    }
    var g := new Grid(width, height, data);
    return Ok(g);
  }

  /** The grid of most unit tests: 3 by 3, holding 1 to 9 row after row. */
  predicate CountingGrid(g: Grid<int>)
    reads g
  {
    g.width == 3 && g.height == 3 && |g.data| == 9
    && forall i :: 0 <= i < 9 ==> g.data[i] == i + 1
  }

  /** The `Index` unit test. */
  lemma IndexExamples(g: Grid<int>)
    requires CountingGrid(g)
    ensures g.Get(Pos(0, 0)) == 1 && g.Get(Pos(1, 1)) == 5
    ensures g.Get(Pos(1, 2)) == 8 && g.Get(Pos(2, 2)) == 9
  {
    assert g.Get(Pos(0, 0)) == 1 by {
      IndexCell(g, Pos(0, 0));
      assert FlatIndex(3, Pos(0, 0)) == 0;
    }
    assert g.Get(Pos(1, 1)) == 5 by { IndexCell(g, Pos(1, 1)); }
    assert g.Get(Pos(1, 2)) == 8 by { IndexCell(g, Pos(1, 2)); }
    assert g.Get(Pos(2, 2)) == 9 by { IndexCell(g, Pos(2, 2)); }
  }

  /** In the grid of 1 to 9, the cell at a position holds its flat index
      plus one. */
  lemma IndexCell(g: Grid<int>, p: Pos)
    requires CountingGrid(g) && 0 <= p.x < 3 && 0 <= p.y < 3
    ensures IsIdx(p) && FlatIndex(3, p) < 9 && g.Get(p) == FlatIndex(3, p) + 1
  {
    FlatIndexInBounds(3, 3, p);
  }

  /** The `has`, `size` and `area` unit tests on a 10 by 10 grid. */
  lemma DimensionExamples(g: Grid<int>)
    requires g.width == 10 && g.height == 10
    ensures g.Has(Pos(0, 0)) && g.Has(Pos(5, 5)) && g.Has(Pos(9, 9))
    ensures !g.Has(Pos(10, 9)) && !g.Has(Pos(9, 10))
    ensures g.Size() == 100 && g.Area() == Areas.Area(9, 9, 0, 0)
  {
  }

  /** The `find` unit test, first part: 1 is in the first cell. */
  lemma FindFirstExample(g: Grid<int>)
    requires CountingGrid(g)
    ensures g.Find(1) == Some(Pos(0, 0))
  {
    FindPresent(g, 0);
  }

  /** The `find` unit test, second part: 3 ends the bottom row. */
  lemma FindRowEndExample(g: Grid<int>)
    requires CountingGrid(g)
    ensures g.Find(3) == Some(Pos(2, 0))
  {
    FindPresent(g, 2);
    assert FromFlatIndex(3, 2) == Pos(2, 0);
  }

  /** The `find` unit test, third part: 9 is in the last cell. */
  lemma FindLastExample(g: Grid<int>)
    requires CountingGrid(g)
    ensures g.Find(9) == Some(Pos(2, 2))
  {
    FindPresent(g, 8);
    assert FromFlatIndex(3, 8) == Pos(2, 2);
  }

  /** The `find` unit test, last part: 10 is nowhere. */
  lemma FindMissingExample(g: Grid<int>)
    requires CountingGrid(g)
    ensures g.Find(10) == None
  {
    FindAbsent(g, 10);
  }

  /** In the grid of 1 to 9, value `i + 1` is first found at flat index `i`. */
  lemma FindPresent(g: Grid<int>, i: nat)
    requires CountingGrid(g) && i < 9
    ensures g.Find(i + 1) == Some(FromFlatIndex(3, i))
  {
    assert g.data[i] == i + 1;
  }

  /** In the grid of 1 to 9, a value outside 1 to 9 is not found. */
  lemma FindAbsent(g: Grid<int>, v: int)
    requires CountingGrid(g) && !(1 <= v <= 9)
    ensures g.Find(v) == None
  {
  }

  /** The `find_all` unit test: the three cells holding 1 are found, each
      found cell holds 1, and a value no cell holds gives nothing. */
  lemma FindAllExamples(g: Grid<int>)
    requires g.width == 3 && g.data == [1, 2, 3, 3, 2, 1, 2, 1, 3]
    ensures Pos(0, 0) in g.FindAll(1) && Pos(2, 1) in g.FindAll(1) && Pos(1, 2) in g.FindAll(1)
    ensures forall p :: p in g.FindAll(1) ==> g.data[FlatIndex(3, p)] == 1
    ensures g.FindAll(4) == []
  {
    FindAllFinds(g, 0);
    FindAllFinds(g, 5);
    FindAllFinds(g, 7);
    FindAllAbsent(g);
  }

  /** A cell holding 1 is among the results of `find_all(1)`. */
  lemma FindAllFinds(g: Grid<int>, i: nat)
    requires g.width == 3 && g.data == [1, 2, 3, 3, 2, 1, 2, 1, 3]
    requires i < 9 && g.data[i] == 1
    ensures FromFlatIndex(3, i) in g.FindAll(1)
  {
  }

  /** No cell holds 4. */
  lemma FindAllAbsent(g: Grid<int>)
    requires g.width == 3 && g.data == [1, 2, 3, 3, 2, 1, 2, 1, 3]
    ensures g.FindAll(4) == []
  {
  }

  /** The `extract` unit test from the skipped point `(99, 99)` on: it is
      ignored and the diagonal cells follow. */
  lemma ExtractTailExample(g: Grid<int>)
    requires CountingGrid(g)
    ensures g.Extract([Pos(99, 99), Pos(1, 1), Pos(2, 2)]) == [5, 9]
  {
    ExtractCell(g, Pos(99, 99), [Pos(1, 1), Pos(2, 2)]);
    ExtractCell(g, Pos(1, 1), [Pos(2, 2)]);
    ExtractCell(g, Pos(2, 2), []);
  }

  /** One step of `extract` on the grid of 1 to 9: a cell inside contributes
      the number at its flat index, a point outside nothing. */
  lemma ExtractCell(g: Grid<int>, p: Pos, ps: seq<Pos>)
    requires CountingGrid(g) && IsIdx(p) && AllIdx(ps)
    ensures g.Extract([p] + ps) ==
      (if g.Has(p) then [FlatIndex(3, p) + 1] else []) + g.Extract(ps)
  {
    assert ([p] + ps)[1..] == ps;
  }

  /** A `destination` unit test: one step up from the centre; Up is `+y`. */
  lemma DestinationUpExample(g: Grid<int>)
    requires CountingGrid(g)
    ensures g.Destination(Pos(1, 1), 1, Up) == Some(8)
  {
    DestinationLands(g, Pos(1, 1), 1, Up, Pos(1, 2));
  }

  /** A `destination` unit test: one step down from the centre. */
  lemma DestinationDownExample(g: Grid<int>)
    requires CountingGrid(g)
    ensures g.Destination(Pos(1, 1), 1, Down) == Some(2)
  {
    DestinationLands(g, Pos(1, 1), 1, Down, Pos(1, 0));
  }

  /** A `destination` unit test: one step left from the centre. */
  lemma DestinationLeftExample(g: Grid<int>)
    requires CountingGrid(g)
    ensures g.Destination(Pos(1, 1), 1, Left) == Some(4)
  {
    DestinationLands(g, Pos(1, 1), 1, Left, Pos(0, 1));
  }

  /** A `destination` unit test: one step right from the centre. */
  lemma DestinationRightExample(g: Grid<int>)
    requires CountingGrid(g)
    ensures g.Destination(Pos(1, 1), 1, Right) == Some(6)
  {
    DestinationLands(g, Pos(1, 1), 1, Right, Pos(2, 1));
  }

  /** A `destination` unit test: from just outside the right edge back in. */
  lemma DestinationReentryExample(g: Grid<int>)
    requires CountingGrid(g)
    ensures g.Destination(Pos(3, 2), 1, Left) == Some(9)
  {
    DestinationLands(g, Pos(3, 2), 1, Left, Pos(2, 2));
  }

  /** A `destination` unit test: two steps right leave the grid. */
  lemma DestinationLeavesExample(g: Grid<int>)
    requires CountingGrid(g)
    ensures g.Destination(Pos(1, 1), 2, Right) == None
  {
    DestinationLands(g, Pos(1, 1), 2, Right, Pos(3, 1));
  }

  /** A `destination` unit test: from far outside, further out. */
  lemma DestinationOutsideExample(g: Grid<int>)
    requires CountingGrid(g)
    ensures g.Destination(Pos(10, 10), 3, Up) == None
  {
    DestinationLands(g, Pos(10, 10), 3, Up, Pos(10, 13));
  }

  /** One `destination` test on the grid of 1 to 9: the move lands on `q`,
      which gives the number at `q`'s flat index when `q` is inside. */
  lemma DestinationLands(g: Grid<int>, p: Pos, distance: int, d: Direction, q: Pos)
    requires CountingGrid(g)
    requires IsIdx(p) && Holds(USIZE, distance) && IsIdx(q)
    requires Dest(p, distance, d) == q
    ensures g.Destination(p, distance, d) == if g.Has(q) then Some(FlatIndex(3, q) + 1) else None
  {
    if g.Has(q) {
      assert g.data[FlatIndex(3, q)] == FlatIndex(3, q) + 1;
    }
  }
}
