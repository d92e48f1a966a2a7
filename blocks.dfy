/** The piece catalogue: the seven tetromino kinds, their patterns and colours,
    and the cells each pattern fills. Everything here is constant data. */
module Blocks {

  /** The terminal colours the catalogue uses; `Rgb` is a 24-bit colour.
      The board engine only carries colours along. */
  datatype Color = Yellow | Magenta | Cyan | Blue | Red | Green | Rgb(r: nat, g: nat, b: nat)

  /** A coloured cell: column `x`, row `y` (row 0 is the top). */
  datatype Coords = Coords(x: nat, y: nat, color: Color)

  datatype Block = Square | T | Line | L | J | Z | S

  /** The order in which random selection indexes the kinds. */
  const BLOCK: seq<Block> := [J, L, Line, S, Square, T, Z]

  /** A pattern of rows, top to bottom, each a sequence of "x" (filled) or "." (empty). */
  datatype Shape = Shape(pattern: seq<seq<string>>, color: Color)

  function ShapeOf(b: Block): (r: Shape)
    ensures |r.pattern| == (if b == Line then 1 else 2)
    ensures forall i :: 0 <= i < |r.pattern| ==> |r.pattern[i]| == |r.pattern[0]|
    ensures forall i, j :: 0 <= i < |r.pattern| && 0 <= j < |r.pattern[i]| ==> r.pattern[i][j] in {"x", "."}
  {
    match b
    case Square => Shape([["x", "x"], ["x", "x"]], Yellow)
    case T => Shape([[".", "x", "."], ["x", "x", "x"]], Magenta)
    case Line => Shape([["x", "x", "x", "x"]], Cyan)
    case L => Shape([[".", ".", "x"], ["x", "x", "x"]], Rgb(255, 127, 0))
    case J => Shape([["x", ".", "."], ["x", "x", "x"]], Blue)
    case Z => Shape([["x", "x", "."], [".", "x", "x"]], Red)
    case S => Shape([[".", "x", "x"], ["x", "x", "."]], Green)
  }

  /** The width of a kind's pattern: the length of its first row. */
  function ColumnsLen(b: Block): (w: nat)
    ensures w == (match b case Square => 2 case Line => 4 case _ => 3)
    ensures forall i :: 0 <= i < |ShapeOf(b).pattern| ==> |ShapeOf(b).pattern[i]| == w
  {
    |ShapeOf(b).pattern[0]|
  }

  /** The filled cells of a kind's pattern, as (column, row) pairs relative to the
      pattern's top-left corner, each with the kind's colour. */
  function GetCoordinates(b: Block): (r: set<Coords>)
    ensures forall c :: c in r ==>
              c.x < ColumnsLen(b) && c.y < |ShapeOf(b).pattern| <= 2 && c.color == ShapeOf(b).color
  {
    var shape := ShapeOf(b);
    set i, j | 0 <= i < |shape.pattern| && 0 <= j < |shape.pattern[i]| && shape.pattern[i][j] == "x"
      :: Coords(j, i, shape.color)
  }

  /** The filled cells of every pattern, listed by hand. */
  function ListedCells(b: Block): set<Coords>
  {
    match b
    case Square => {Coords(0, 0, Yellow), Coords(1, 0, Yellow), Coords(0, 1, Yellow), Coords(1, 1, Yellow)}
    case T => {Coords(1, 0, Magenta), Coords(0, 1, Magenta), Coords(1, 1, Magenta), Coords(2, 1, Magenta)}
    case Line => {Coords(0, 0, Cyan), Coords(1, 0, Cyan), Coords(2, 0, Cyan), Coords(3, 0, Cyan)}
    case L =>
      var o := Rgb(255, 127, 0);
      {Coords(2, 0, o), Coords(0, 1, o), Coords(1, 1, o), Coords(2, 1, o)}
    case J => {Coords(0, 0, Blue), Coords(0, 1, Blue), Coords(1, 1, Blue), Coords(2, 1, Blue)}
    case Z => {Coords(0, 0, Red), Coords(1, 0, Red), Coords(1, 1, Red), Coords(2, 1, Red)}
    case S => {Coords(1, 0, Green), Coords(2, 0, Green), Coords(0, 1, Green), Coords(1, 1, Green)}
  }

  /** A cell belongs to a kind's coordinates exactly when its pattern holds "x"
      at that (column, row) and the cell has the kind's colour. */
  lemma CoordinatesMatchPattern(b: Block, c: Coords)
    ensures c in GetCoordinates(b) <==>
              c.y < |ShapeOf(b).pattern| && c.x < |ShapeOf(b).pattern[c.y]| &&
              ShapeOf(b).pattern[c.y][c.x] == "x" && c.color == ShapeOf(b).color
  {
  }

  /** The computed coordinates agree with the hand-listed table, so every kind
      fills exactly four cells. */
  lemma CoordinatesOfEachKind(b: Block)
    ensures GetCoordinates(b) == ListedCells(b)
    ensures |GetCoordinates(b)| == 4
  {
    ListedCellsFilled(b);
    forall c | c in GetCoordinates(b) ensures c in ListedCells(b) {
      PatternCellListed(b, c);
    }
    ListedCellsCount(b);
  }

  lemma ListedCellsFilled(b: Block)
    ensures ListedCells(b) <= GetCoordinates(b)
  {
    forall c | c in ListedCells(b) ensures c in GetCoordinates(b) {
      CoordinatesMatchPattern(b, c);
    }
  }

  lemma PatternCellListed(b: Block, c: Coords)
    requires c in GetCoordinates(b)
    ensures c in ListedCells(b)
  {
    CoordinatesMatchPattern(b, c);
    var p := ShapeOf(b).pattern;
    assert c.y == 0 || c.y == 1;
    if c.y == 0 {
      assert p[0][c.x] == "x";
    } else {
      assert p[1][c.x] == "x";
    }
  }

  lemma ListedCellsCount(b: Block)
    ensures |ListedCells(b)| == 4
  {
  }

  /** The seven kinds have seven different colours. */
  lemma ColorsDistinct(a: Block, b: Block)
    requires a != b
    ensures ShapeOf(a).color != ShapeOf(b).color
  {
  }

  /** The position of a kind in `BLOCK`. */
  function IndexOf(b: Block): (i: nat)
    ensures i < |BLOCK| && BLOCK[i] == b
  {
    match b
    case J => 0
    case L => 1
    case Line => 2
    case S => 3
    case Square => 4
    case T => 5
    case Z => 6
  }

  /** Random selection, with the random index supplied by the caller:
      `BLOCK[index]`, the kind whose position is `index`. */
  function Select(index: nat): (b: Block)
    requires index < |BLOCK|
    ensures IndexOf(b) == index
  {
    BLOCK[index]
  }

  /** `BLOCK` holds each kind exactly once: distinct positions hold distinct kinds,
      and every kind is selected by some index. */
  lemma BlockOrderIsPermutation()
    ensures |BLOCK| == 7
    ensures forall i, j :: 0 <= i < j < |BLOCK| ==> BLOCK[i] != BLOCK[j]
    ensures forall b: Block :: Select(IndexOf(b)) == b
  {
  }
}
