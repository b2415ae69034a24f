/** The eight compass directions of the toolkit (`Direction` in
    `geo/direction.rs`) and their rotation algebra. */
module Directions {

  /** A byte of input text, as `u8`. */
  newtype byte = b: int | 0 <= b < 256

  /** The closed set of movement directions: four cardinal, four diagonal. */
  datatype Direction =
    | Up | Down | Left | Right
    | TopLeft | TopRight | BottomLeft | BottomRight
  {
    predicate IsCardinal() {
      Up? || Down? || Left? || Right?
    }
  }

  /** `From<u8>`: `^`, `<` and `>` name Up, Left and Right; every other byte
      is Down. */
  function FromByte(b: byte): (d: Direction)
    ensures d.Up? <==> b == 0x5E
    ensures d.Left? <==> b == 0x3C
    ensures d.Right? <==> b == 0x3E
    ensures d.Down? <==> b !in {0x5E, 0x3C, 0x3E}
  {
    match b
    case 0x5E => Up
    case 0x3C => Left
    case 0x3E => Right
    case _ => Down
  }

  /** `Direction::all()`, in declaration order. */
  function All(): (r: seq<Direction>)
    ensures |r| == 8
    ensures forall i, j :: 0 <= i < j < |r| ==> r[i] != r[j]
  {
    [Up, Down, Left, Right, TopLeft, TopRight, BottomLeft, BottomRight]
  }

  /** `Direction::cross()`: the cardinal directions. */
  function Cross(): (r: seq<Direction>)
    ensures |r| == 4
    ensures forall k :: 0 <= k < |r| ==> r[k].IsCardinal()
  {
    [Up, Down, Left, Right]
  }

  /** `Direction::diagonal()`. */
  function Diagonal(): (r: seq<Direction>)
    ensures |r| == 4
    ensures forall k :: 0 <= k < |r| ==> !r[k].IsCardinal()
  {
    [TopLeft, TopRight, BottomLeft, BottomRight]
  }

  /** The opposite direction. */
  function Back(d: Direction): (r: Direction)
    ensures r != d
    ensures r.IsCardinal() == d.IsCardinal()
  {
    match d
    case Up => Down
    case Down => Up
    case Left => Right
    case Right => Left
    case TopLeft => BottomRight
    case TopRight => BottomLeft
    case BottomLeft => TopRight
    case BottomRight => TopLeft
  }

  /** A quarter turn counter-clockwise. */
  function TurnLeft(d: Direction): (r: Direction)
    ensures r != d && r != Back(d)
    ensures r.IsCardinal() == d.IsCardinal()
  {
    match d
    case Up => Left
    case Down => Right
    case Left => Down
    case Right => Up
    case TopLeft => BottomLeft
    case TopRight => TopLeft
    case BottomLeft => BottomRight
    case BottomRight => TopRight
  }

  /** A quarter turn clockwise. */
  function TurnRight(d: Direction): (r: Direction)
    ensures r != d && r != Back(d)
    ensures r.IsCardinal() == d.IsCardinal()
  {
    match d
    case Up => Right
    case Down => Left
    case Left => Up
    case Right => Down
    case TopLeft => TopRight
    case TopRight => BottomRight
    case BottomLeft => TopLeft
    case BottomRight => BottomLeft
  }

  /** `back` is an involution. */
  lemma BackInvolution(d: Direction)
    ensures Back(Back(d)) == d
  {
  }

  /** `left` and `right` undo each other. */
  lemma TurnsInverse(d: Direction)
    ensures TurnRight(TurnLeft(d)) == d
    ensures TurnLeft(TurnRight(d)) == d
  {
  }

  /** Two quarter turns either way face back; four return to the start. */
  lemma TurnCycles(d: Direction)
    ensures TurnLeft(TurnLeft(d)) == Back(d)
    ensures TurnRight(TurnRight(d)) == Back(d)
    ensures TurnLeft(TurnLeft(TurnLeft(TurnLeft(d)))) == d
    ensures TurnRight(TurnRight(TurnRight(TurnRight(d)))) == d
  {
  }

  /** `all()` lists each of the eight directions exactly once. */
  lemma AllExactlyOnce()
    ensures |All()| == 8
    ensures forall d: Direction :: d in All()
    ensures forall i, j :: 0 <= i < j < |All()| ==> All()[i] != All()[j]
  {
    forall d: Direction ensures d in All() {
      match d
      case Up => assert All()[0] == d;
      case Down => assert All()[1] == d;
      case Left => assert All()[2] == d;
      case Right => assert All()[3] == d;
      case TopLeft => assert All()[4] == d;
      case TopRight => assert All()[5] == d;
      case BottomLeft => assert All()[6] == d;
      case BottomRight => assert All()[7] == d;
    }
  }

  /** `cross()` and `diagonal()` split `all()` into the cardinal and the
      diagonal directions. */
  lemma CrossDiagonalPartition()
    ensures forall d: Direction :: d in Cross() <==> d.IsCardinal()
    ensures forall d: Direction :: d in Diagonal() <==> !d.IsCardinal()
    ensures Cross() + Diagonal() == All()
  {
  }
}
