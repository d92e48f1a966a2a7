/** The board engine: the settled cells, the falling piece and its flag, and the
    display buffer, updated in place by spawning, shifting, gravity and line
    clearing. */
module Engine {
  import opened Blocks
  import opened Grid
  import opened LineClear
  import opened Projection

  /** The outcome of an operation that can refuse: `Err` carries the reason. */
  datatype Status = Ok | Err(message: string)

  const NO_ROOM: string := "no more blocks can be inserted"
  const HIT_BOTTOM: string := "block collides with shape"
  const HIT_BLOCK: string := "block collides with a block"

  class Board {
    const columnsLen: nat
    const rowsLen: nat
    /** The settled cells. */
    var coordinates: set<Coords>
    /** The cells of the falling piece. */
    var blockCoordinates: set<Coords>
    /** The display buffer, one glyph per row and column. */
    const board: array2<Glyph>
    var isBlockFalling: bool

    /** Both sets lie on the board with distinct positions and do not overlap,
        and the flag says whether a piece is falling. */
    ghost predicate Valid()
      reads this
    {
      columnsLen >= 4 && rowsLen >= 2 &&
      board.Length0 == rowsLen && board.Length1 == columnsLen &&
      InBounds(coordinates, columnsLen, rowsLen) && InBounds(blockCoordinates, columnsLen, rowsLen) &&
      UniquePositions(coordinates) && UniquePositions(blockCoordinates) &&
      Disjoint(coordinates, blockCoordinates) &&
      (isBlockFalling <==> blockCoordinates != {})
    }

    /** An empty board: no cells, no falling piece, every buffer entry an
        unstyled empty string. */
    constructor (columnsLen: nat, rowsLen: nat)
      requires columnsLen >= 4 && rowsLen >= 2
      ensures Valid()
      ensures this.columnsLen == columnsLen && this.rowsLen == rowsLen
      ensures coordinates == {} && blockCoordinates == {} && !isBlockFalling
      ensures fresh(board)
      ensures forall y, x :: 0 <= y < rowsLen && 0 <= x < columnsLen ==> board[y, x] == Plain("")
    {
      this.columnsLen := columnsLen;
      this.rowsLen := rowsLen;
      coordinates := {};
      blockCoordinates := {};
      board := new Glyph[rowsLen, columnsLen]((y, x) => Plain(""));
      isBlockFalling := false;
    }

    /** Replaces the settled cells by their line-cleared form. */
    method ClearLines()
      requires forall c :: c in coordinates ==> c.y < rowsLen
      modifies this`coordinates
      ensures coordinates == LinesCleared(old(coordinates), columnsLen, rowsLen)
    {
      coordinates := LinesCleared(coordinates, columnsLen, rowsLen);
    }

    /** Spawns `block` centred on the top rows, unless it would overlap a settled
        cell; a refused spawn changes nothing. */
    method TryInsertBlock(block: Block) returns (status: Status)
      requires Valid()
      modifies this
      ensures Valid()
      ensures status.Err? <==> Colliding(old(coordinates), Spawned(block, columnsLen), rowsLen)
      ensures status.Err? ==> status == Err(NO_ROOM) && unchanged(this)
      ensures status.Ok? ==>
                blockCoordinates == Spawned(block, columnsLen) && isBlockFalling &&
                coordinates == old(coordinates)
    {
      var candidate := Spawned(block, columnsLen);
      if Colliding(coordinates, candidate, rowsLen) {
        return Err(NO_ROOM);
      }
      blockCoordinates := candidate;
      isBlockFalling := true;
      return Ok;
    }

    /** Moves the falling piece one column towards `dir` when every cell can move
        and the moved piece overlaps no settled cell; otherwise nothing changes.
        The settled cells and the flag never change. */
    method MoveBlockXAxis(dir: Direction)
      requires Valid()
      modifies this
      ensures Valid()
      ensures coordinates == old(coordinates) && isBlockFalling == old(isBlockFalling)
      ensures var moved := ShiftX(old(blockCoordinates), dir, columnsLen);
              blockCoordinates ==
                if moved.Some? && !Colliding(coordinates, moved.value, rowsLen) then moved.value
                else old(blockCoordinates)
    {
      var moved := ShiftX(blockCoordinates, dir, columnsLen);
      if moved.None? || Colliding(coordinates, moved.value, rowsLen) {
        return;
      }
      ShiftKeepsBoard(blockCoordinates, dir, columnsLen, rowsLen);
      blockCoordinates := moved.value;
    }

    /** One gravity step. The falling piece moves one row down when it can; when
        it reaches the bottom row or would overlap a settled cell it is merged,
        unmoved, into the settled cells, completed lines are cleared and no piece
        is falling any more. */
    method TryMoveBlockDownOrSet() returns (status: Status)
      requires Valid()
      modifies this
      ensures Valid()
      ensures var moved := Descended(old(blockCoordinates), rowsLen);
              (status == Err(HIT_BOTTOM) <==> moved.None?) &&
              (status == Err(HIT_BLOCK) <==> moved.Some? && Colliding(old(coordinates), moved.value, rowsLen)) &&
              (status.Ok? <==> moved.Some? && !Colliding(old(coordinates), moved.value, rowsLen)) &&
              (status.Ok? ==>
                 blockCoordinates == moved.value &&
                 coordinates == old(coordinates) && isBlockFalling == old(isBlockFalling))
      ensures status.Err? ==>
                coordinates == LinesCleared(old(coordinates) + old(blockCoordinates), columnsLen, rowsLen) &&
                blockCoordinates == {} && !isBlockFalling
    {
      var moved := Descended(blockCoordinates, rowsLen);
      if moved.None? {
        SetBlock();
        return Err(HIT_BOTTOM);
      }
      if Colliding(coordinates, moved.value, rowsLen) {
        SetBlock();
        return Err(HIT_BLOCK);
      }
      DescendedKeepsBoard(blockCoordinates, columnsLen, rowsLen);
      blockCoordinates := moved.value;
      return Ok;
    }

    /** Merges the falling piece, where it is, into the settled cells, clears the
        completed lines and leaves no piece falling. */
    method SetBlock()
      requires Valid()
      modifies this
      ensures Valid()
      ensures coordinates == LinesCleared(old(coordinates) + old(blockCoordinates), columnsLen, rowsLen)
      ensures blockCoordinates == {} && !isBlockFalling
    {
      UnionUnique(coordinates, blockCoordinates);
      coordinates := coordinates + blockCoordinates;
      blockCoordinates := {};
      ClearLines();
      ClearLinesKeepsBoard(old(coordinates) + old(blockCoordinates), columnsLen, rowsLen);
      isBlockFalling := false;
    }

    /** Redraws the buffer: the empty grid, then every settled cell, then every
        falling cell on top. */
    method FillBoard()
      requires Valid()
      modifies board
      ensures forall y, x :: 0 <= y < rowsLen && 0 <= x < columnsLen ==>
                board[y, x] == Projected(coordinates, blockCoordinates, x, y)
    {
      for x := 0 to columnsLen
        invariant forall i :: 0 <= i < x ==> board[0, i] == Background(0)
      {
        board[0, x] := Plain(" ");
      }
      for y := 1 to rowsLen
        invariant forall j, i :: 0 <= j < y && 0 <= i < columnsLen ==> board[j, i] == Background(j)
      {
        for x := 0 to columnsLen
          invariant forall j, i :: 0 <= j < y && 0 <= i < columnsLen ==> board[j, i] == Background(j)
          invariant forall i :: 0 <= i < x ==> board[y, i] == Background(y)
        {
          board[y, x] := Plain(".");
        }
      }
      DrawSettled();
      DrawFalling();
    }

    /** Draws every settled cell over the empty grid. */
    method DrawSettled()
      requires Valid()
      requires forall j, i :: 0 <= j < rowsLen && 0 <= i < columnsLen ==> board[j, i] == Background(j)
      modifies board
      ensures forall j, i :: 0 <= j < rowsLen && 0 <= i < columnsLen ==>
                board[j, i] == SettledGlyph(coordinates, i, j)
    {
      var pending := coordinates;
      ghost var drawn: set<Coords> := {};
      while pending != {}
        invariant pending + drawn == coordinates && pending !! drawn
        invariant forall j, i :: 0 <= j < rowsLen && 0 <= i < columnsLen ==>
                    board[j, i] == SettledGlyph(drawn, i, j)
        decreases pending
      {
        var c :| c in pending;
        board[c.y, c.x] := Styled(SETTLED, c.color);
        forall j, i | 0 <= j < rowsLen && 0 <= i < columnsLen
          ensures SettledGlyph(drawn + {c}, i, j) == if i == c.x && j == c.y then Styled(SETTLED, c.color) else SettledGlyph(drawn, i, j)
        {
          OccupantAdd(drawn, c, i, j);
        }
        pending := pending - {c};
        drawn := drawn + {c};
      }
    }

    /** Draws every falling cell over the settled layer. */
    method DrawFalling()
      requires Valid()
      requires forall j, i :: 0 <= j < rowsLen && 0 <= i < columnsLen ==>
                 board[j, i] == SettledGlyph(coordinates, i, j)
      modifies board
      ensures forall j, i :: 0 <= j < rowsLen && 0 <= i < columnsLen ==>
                board[j, i] == Projected(coordinates, blockCoordinates, i, j)
    {
      var pending := blockCoordinates;
      ghost var drawn: set<Coords> := {};
      while pending != {}
        invariant pending + drawn == blockCoordinates && pending !! drawn
        invariant forall j, i :: 0 <= j < rowsLen && 0 <= i < columnsLen ==>
                    board[j, i] == Projected(coordinates, drawn, i, j)
        decreases pending
      {
        var c :| c in pending;
        board[c.y, c.x] := Styled(FALLING, c.color);
        forall j, i | 0 <= j < rowsLen && 0 <= i < columnsLen
          ensures Projected(coordinates, drawn + {c}, i, j) == if i == c.x && j == c.y then Styled(FALLING, c.color) else Projected(coordinates, drawn, i, j)
        {
          OccupantAdd(drawn, c, i, j);
        }
        pending := pending - {c};
        drawn := drawn + {c};
      }
    }
  }

  /** The hard drop: gravity steps until one of them refuses. Each accepted step
      lowers every falling cell by one row and no cell can reach row `rowsLen`,
      so fewer than `rowsLen` steps are accepted and the loop ends with the piece
      settled. */
  method HardDrop(b: Board) returns (drops: nat)
    requires b.Valid() && b.isBlockFalling
    modifies b
    ensures b.Valid() && !b.isBlockFalling && b.blockCoordinates == {}
    ensures drops < b.rowsLen
  {
    drops := 0;
    while true
      invariant b.Valid() && b.isBlockFalling
      invariant forall c :: c in b.blockCoordinates ==> c.y >= drops
      invariant drops < b.rowsLen
      decreases b.rowsLen - drops
    {
      ghost var before := b.blockCoordinates;
      var status := b.TryMoveBlockDownOrSet();
      if status.Err? {
        return;
      }
      DescendedCells(before, b.rowsLen);
      forall d | d in b.blockCoordinates ensures d.y >= drops + 1 {
        var c :| c in before && d == Coords(c.x, c.y + 1, c.color);
      }
      drops := drops + 1;
      ghost var d :| d in b.blockCoordinates;
    }
  }
}
