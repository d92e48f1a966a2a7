/** What the display buffer shows at each position: the falling piece drawn over
    the settled cells, drawn over the empty grid. */
module Projection {
  import opened Blocks
  import opened Grid

  /** One buffer entry: a piece of text, unstyled or in a colour. */
  datatype Glyph = Plain(text: string) | Styled(text: string, color: Color)

  /** The glyph of a settled cell. */
  const SETTLED: string := "■"

  /** The glyph of a falling cell. */
  const FALLING: string := "□"

  /** The empty grid: a blank top row, "." on every other row. */
  function Background(y: nat): Glyph
  {
    if y == 0 then Plain(" ") else Plain(".")
  }

  /** The colour of the cell of `s` at (x, y), if there is one. */
  ghost function Occupant(s: set<Coords>, x: nat, y: nat): Option<Color>
  {
    if exists c :: c in s && c.x == x && c.y == y then
      var c :| c in s && c.x == x && c.y == y;
      Some(c.color)
    else
      None
  }

  /** The settled layer over the empty grid. */
  ghost function SettledGlyph(settled: set<Coords>, x: nat, y: nat): Glyph
  {
    match Occupant(settled, x, y)
    case Some(color) => Styled(SETTLED, color)
    case None => Background(y)
  }

  /** The falling layer over the settled layer over the empty grid. */
  ghost function Projected(settled: set<Coords>, falling: set<Coords>, x: nat, y: nat): Glyph
  {
    match Occupant(falling, x, y)
    case Some(color) => Styled(FALLING, color)
    case None => SettledGlyph(settled, x, y)
  }

  /** When positions are unique, the occupant of a cell's position is that cell. */
  lemma OccupantOf(s: set<Coords>, c: Coords)
    requires UniquePositions(s)
    requires c in s
    ensures Occupant(s, c.x, c.y) == Some(c.color)
  {
  }

  /** A position no cell of `s` holds has no occupant. */
  lemma NoOccupant(s: set<Coords>, x: nat, y: nat)
    requires forall c :: c in s ==> c.x != x || c.y != y
    ensures Occupant(s, x, y) == None
  {
  }

  /** Adding one cell at a fresh position changes the occupant of that position
      only. */
  lemma OccupantAdd(s: set<Coords>, c: Coords, x: nat, y: nat)
    requires UniquePositions(s + {c})
    ensures Occupant(s + {c}, x, y) ==
              if x == c.x && y == c.y then Some(c.color) else Occupant(s, x, y)
  {
    if x == c.x && y == c.y {
      OccupantOf(s + {c}, c);
    } else if exists d :: d in s && d.x == x && d.y == y {
      var d :| d in s && d.x == x && d.y == y;
      OccupantOf(s + {c}, d);
      OccupantOf(s, d);
    }
  }

  /** A falling cell is drawn as the falling glyph in its colour, whatever lies
      beneath it. */
  lemma FallingDrawnOnTop(settled: set<Coords>, falling: set<Coords>, c: Coords)
    requires UniquePositions(falling)
    requires c in falling
    ensures Projected(settled, falling, c.x, c.y) == Styled(FALLING, c.color)
  {
    OccupantOf(falling, c);
  }

  /** A settled cell with no falling cell on it is drawn as the settled glyph in
      its colour. */
  lemma SettledDrawnBelow(settled: set<Coords>, falling: set<Coords>, c: Coords)
    requires UniquePositions(settled)
    requires c in settled
    requires Disjoint(settled, falling)
    ensures Projected(settled, falling, c.x, c.y) == Styled(SETTLED, c.color)
  {
    NoOccupant(falling, c.x, c.y);
    OccupantOf(settled, c);
  }

  /** A position no cell holds shows the empty grid: blank on the top row, "."
      below it. */
  lemma EmptyDrawnAsGrid(settled: set<Coords>, falling: set<Coords>, x: nat, y: nat)
    requires forall c :: c in settled ==> c.x != x || c.y != y
    requires forall c :: c in falling ==> c.x != x || c.y != y
    ensures Projected(settled, falling, x, y) == Plain(if y == 0 then " " else ".")
  {
    NoOccupant(falling, x, y);
    NoOccupant(settled, x, y);
  }
}
