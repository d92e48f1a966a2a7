/** Cell-set geometry shared by the board engine: the collision predicate and the
    candidate sets that spawning, horizontal shifting and descending compute
    before the engine accepts or rejects them. */
module Grid {
  import opened Blocks

  datatype Option<T> = None | Some(value: T)

  /** The two keys that move a piece sideways. */
  datatype Direction = Left | Right

  /** Every cell lies on a board of `columnsLen` columns and `rowsLen` rows. */
  predicate InBounds(s: set<Coords>, columnsLen: nat, rowsLen: nat)
  {
    forall c :: c in s ==> c.x < columnsLen && c.y < rowsLen
  }

  /** No two cells of `s` share a position (whatever their colours). */
  predicate UniquePositions(s: set<Coords>)
  {
    forall c, d :: c in s && d in s && c.x == d.x && c.y == d.y ==> c == d
  }

  /** No cell of `a` shares a position with a cell of `b`. */
  predicate Disjoint(a: set<Coords>, b: set<Coords>)
  {
    forall c, d :: c in a && d in b ==> c.x != d.x || c.y != d.y
  }

  /** The (x, y) projection of a set of cells, colour dropped. */
  function Positions(s: set<Coords>): set<(nat, nat)>
  {
    set c | c in s :: (c.x, c.y)
  }

  /** The collision test: the candidate shares a position with a settled cell, or
      one of its cells lies strictly below row `rowsLen` (a cell on row `rowsLen`
      itself is not flagged). */
  function Colliding(settled: set<Coords>, candidate: set<Coords>, rowsLen: nat): (r: bool)
    ensures r <==> !Disjoint(settled, candidate) || exists d :: d in candidate && d.y > rowsLen
  {
    var boardCoords := Positions(settled);
    var blockCoords := Positions(candidate);
    assert forall d :: d in candidate ==> (d.x, d.y) in blockCoords;
    !(boardCoords !! blockCoords) || exists p :: p in blockCoords && p.1 > rowsLen
  }

  /** For candidates that stay within `rowsLen` rows the bound test never fires:
      collision is overlap alone, and it is symmetric. */
  lemma CollidingWithinRows(a: set<Coords>, b: set<Coords>, rowsLen: nat)
    requires forall c :: c in a ==> c.y <= rowsLen
    requires forall c :: c in b ==> c.y <= rowsLen
    ensures Colliding(a, b, rowsLen) <==> !Disjoint(a, b)
    ensures Colliding(a, b, rowsLen) == Colliding(b, a, rowsLen)
  {
  }

  /** Every cell of `s` moved by `dx` columns and `dy` rows, colour kept. */
  function Translated(s: set<Coords>, dx: int, dy: int): set<Coords>
    requires forall c :: c in s ==> c.x + dx >= 0 && c.y + dy >= 0
  {
    set c | c in s :: Coords(c.x + dx, c.y + dy, c.color)
  }

  /** Translation moves cells without merging any two of them, so the size is
      kept. */
  lemma {:induction false} TranslatedSize(s: set<Coords>, dx: int, dy: int)
    requires forall c :: c in s ==> c.x + dx >= 0 && c.y + dy >= 0
    ensures |Translated(s, dx, dy)| == |s|
    decreases s
  {
    if s != {} {
      var c :| c in s;
      TranslatedSize(s - {c}, dx, dy);
      TranslatedRemove(s, c, dx, dy);
    }
  }

  lemma TranslatedRemove(s: set<Coords>, c: Coords, dx: int, dy: int)
    requires forall c :: c in s ==> c.x + dx >= 0 && c.y + dy >= 0
    requires c in s
    ensures Translated(s, dx, dy) == Translated(s - {c}, dx, dy) + {Coords(c.x + dx, c.y + dy, c.color)}
    ensures Coords(c.x + dx, c.y + dy, c.color) !in Translated(s - {c}, dx, dy)
  {
  }

  /** Translating back by the opposite amounts restores the original set. */
  lemma TranslatedBack(s: set<Coords>, dx: int, dy: int, backX: int, backY: int)
    requires forall c :: c in s ==> c.x + dx >= 0 && c.y + dy >= 0
    requires backX == -dx && backY == -dy
    ensures forall d :: d in Translated(s, dx, dy) ==> d.x + backX >= 0 && d.y + backY >= 0
    ensures Translated(Translated(s, dx, dy), backX, backY) == s
  {
    var there := Translated(s, dx, dy);
    forall c | c in s ensures c in Translated(there, backX, backY) {
      assert Coords(c.x + dx, c.y + dy, c.color) in there;
    }
  }

  /** True when the shift in `dir` would push `c` off the board. */
  predicate Blocked(c: Coords, dir: Direction, columnsLen: nat)
  {
    match dir
    case Left => c.x == 0
    case Right => c.x == columnsLen - 1
  }

  /** The column step of a shift: -1 for Left, +1 for Right. */
  function Step(dir: Direction): int
  {
    if dir == Left then -1 else 1
  }

  /** The cell one column over in `dir`, row and colour kept. */
  function Moved(c: Coords, dir: Direction): Coords
    requires c.x + Step(dir) >= 0
  {
    Coords(c.x + Step(dir), c.y, c.color)
  }

  /** The candidate of a horizontal shift: every cell moved one column, or None as
      soon as one cell is blocked (the shift is all or nothing). */
  function ShiftX(block: set<Coords>, dir: Direction, columnsLen: nat): (r: Option<set<Coords>>)
    ensures r.None? <==> exists c :: c in block && Blocked(c, dir, columnsLen)
    ensures r.Some? ==> |r.value| == |block|
    ensures r.Some? ==> forall c :: c in block ==> c.x + Step(dir) >= 0
  {
    if exists c :: c in block && Blocked(c, dir, columnsLen) then None
    else
      TranslatedSize(block, Step(dir), 0);
      Some(Translated(block, Step(dir), 0))
  }

  /** An accepted shift moves every cell exactly one column towards `dir`, row
      and colour kept, and produces no other cell. */
  lemma ShiftXCells(block: set<Coords>, dir: Direction, columnsLen: nat)
    requires ShiftX(block, dir, columnsLen).Some?
    ensures forall c :: c in block ==> c.x + Step(dir) >= 0
    ensures forall c {:trigger Moved(c, dir)} :: c in block ==> Moved(c, dir) in ShiftX(block, dir, columnsLen).value
    ensures forall d :: d in ShiftX(block, dir, columnsLen).value ==>
              exists c :: c in block && d == Coords(c.x + Step(dir), c.y, c.color)
  {
  }

  /** A shift in one direction followed by a shift in the other gives back the
      original cells, for cells inside the board. */
  lemma ShiftRoundTrip(block: set<Coords>, dir: Direction, columnsLen: nat)
    requires forall c :: c in block ==> c.x < columnsLen
    requires ShiftX(block, dir, columnsLen).Some?
    ensures ShiftX(ShiftX(block, dir, columnsLen).value, if dir == Left then Right else Left, columnsLen) == Some(block)
  {
    var back := if dir == Left then Right else Left;
    var moved := Translated(block, Step(dir), 0);
    assert !exists c :: c in block && Blocked(c, dir, columnsLen);
    assert ShiftX(block, dir, columnsLen) == Some(moved);
    ShiftBackUnblocked(block, dir, columnsLen);
    TranslatedBack(block, Step(dir), 0, Step(back), 0);
    assert ShiftX(moved, back, columnsLen) == Some(Translated(moved, Step(back), 0));
  }

  lemma ShiftBackUnblocked(block: set<Coords>, dir: Direction, columnsLen: nat)
    requires forall c :: c in block ==> c.x < columnsLen
    requires !exists c :: c in block && Blocked(c, dir, columnsLen)
    ensures var back := if dir == Left then Right else Left;
            var moved := Translated(block, Step(dir), 0);
            !exists d :: d in moved && Blocked(d, back, columnsLen)
  {
    var back := if dir == Left then Right else Left;
    var moved := Translated(block, Step(dir), 0);
    forall d | d in moved ensures !Blocked(d, back, columnsLen) {
      var c :| c in block && d == Coords(c.x + Step(dir), c.y, c.color);
    }
  }

  /** The candidate of one gravity step: every cell one row lower, or None when
      some cell would leave the `rowsLen` rows. */
  function Descended(block: set<Coords>, rowsLen: nat): (r: Option<set<Coords>>)
    ensures r.None? <==> exists c :: c in block && c.y + 1 >= rowsLen
    ensures r.Some? ==> |r.value| == |block|
    ensures r.Some? ==> forall d :: d in r.value ==> 1 <= d.y < rowsLen
  {
    if exists c :: c in block && c.y + 1 >= rowsLen then None
    else
      TranslatedSize(block, 0, 1);
      Some(Translated(block, 0, 1))
  }

  /** An accepted gravity step moves every cell exactly one row down, column and
      colour kept, and produces no other cell. */
  lemma DescendedCells(block: set<Coords>, rowsLen: nat)
    requires Descended(block, rowsLen).Some?
    ensures forall c :: c in block ==> Coords(c.x, c.y + 1, c.color) in Descended(block, rowsLen).value
    ensures forall d :: d in Descended(block, rowsLen).value ==>
              exists c :: c in block && d == Coords(c.x, c.y + 1, c.color)
  {
  }

  /** Translation keeps positions distinct. */
  lemma TranslatedUnique(s: set<Coords>, dx: int, dy: int)
    requires forall c :: c in s ==> c.x + dx >= 0 && c.y + dy >= 0
    requires UniquePositions(s)
    ensures UniquePositions(Translated(s, dx, dy))
  {
    var t := Translated(s, dx, dy);
    forall d, e | d in t && e in t && d.x == e.x && d.y == e.y ensures d == e {
      var c :| c in s && d == Coords(c.x + dx, c.y + dy, c.color);
      var b :| b in s && e == Coords(b.x + dx, b.y + dy, b.color);
      assert b.x == c.x && b.y == c.y;
    }
  }

  /** Two disjoint sets with distinct positions merge into one with distinct
      positions. */
  lemma UnionUnique(a: set<Coords>, b: set<Coords>)
    requires UniquePositions(a) && UniquePositions(b)
    requires Disjoint(a, b)
    ensures UniquePositions(a + b)
  {
  }

  /** An accepted shift keeps the piece on the board with distinct positions. */
  lemma ShiftKeepsBoard(block: set<Coords>, dir: Direction, columnsLen: nat, rowsLen: nat)
    requires InBounds(block, columnsLen, rowsLen)
    requires UniquePositions(block)
    requires ShiftX(block, dir, columnsLen).Some?
    ensures InBounds(ShiftX(block, dir, columnsLen).value, columnsLen, rowsLen)
    ensures UniquePositions(ShiftX(block, dir, columnsLen).value)
  {
    assert ShiftX(block, dir, columnsLen).value == Translated(block, Step(dir), 0);
    TranslatedUnique(block, Step(dir), 0);
  }

  /** An accepted gravity step keeps the piece on the board with distinct
      positions. */
  lemma DescendedKeepsBoard(block: set<Coords>, columnsLen: nat, rowsLen: nat)
    requires InBounds(block, columnsLen, rowsLen)
    requires UniquePositions(block)
    requires Descended(block, rowsLen).Some?
    ensures InBounds(Descended(block, rowsLen).value, columnsLen, rowsLen)
    ensures UniquePositions(Descended(block, rowsLen).value)
  {
    assert Descended(block, rowsLen).value == Translated(block, 0, 1);
    TranslatedUnique(block, 0, 1);
  }

  /** The column offset that centres a pattern of `width` columns; the subtraction
      cannot go below zero when the board has at least four columns. */
  function CenterOffset(width: nat, columnsLen: nat): (off: nat)
    requires columnsLen >= 4 && width <= 4
    ensures off + width == columnsLen / 2 + width / 2
    ensures off + width <= columnsLen
  {
    columnsLen / 2 - width / 2 - width % 2
  }

  /** The candidate of a spawn: the kind's cells moved right by the centring offset,
      rows and colour kept. */
  function Spawned(b: Block, columnsLen: nat): (r: set<Coords>)
    requires columnsLen >= 4
    ensures |r| == 4
    ensures InBounds(r, columnsLen, 2)
    ensures UniquePositions(r)
  {
    var off := CenterOffset(ColumnsLen(b), columnsLen);
    CoordinatesOfEachKind(b);
    TranslatedSize(GetCoordinates(b), off, 0);
    Translated(GetCoordinates(b), off, 0)
  }

  /** The spawned cells are exactly the kind's cells moved right by the centring
      offset, with row and colour kept. */
  lemma SpawnedCells(b: Block, columnsLen: nat)
    requires columnsLen >= 4
    ensures var off := CenterOffset(ColumnsLen(b), columnsLen);
            (forall c :: c in GetCoordinates(b) ==> Coords(c.x + off, c.y, c.color) in Spawned(b, columnsLen)) &&
            (forall d :: d in Spawned(b, columnsLen) ==>
               exists c :: c in GetCoordinates(b) && d == Coords(c.x + off, c.y, c.color))
  {
  }
}
