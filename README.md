# tetrus board engine in Dafny

tetrus is a terminal Tetris written in Rust. This project models its game core,
which is the board engine of `src/board.rs` and the piece catalogue of
`src/blocks.rs`, and proves what the engine guarantees.

- **Blocks** (`blocks.dfy`) holds the seven tetromino kinds. Each has its pattern
  of `"x"`/`"."` rows, its colour and its width. `GetCoordinates` gives the cells
  the pattern fills. `BLOCK` is the order random selection indexes, and `Select`
  picks a kind from an index the caller supplies.
- **Grid** (`grid.dfy`) holds the geometry the engine works on: cell sets, the
  collision test, and the candidate sets for a spawn (centred on the top rows),
  a horizontal shift and a gravity step. The shift and the gravity step are all
  or nothing: the candidate is `None` as soon as one cell cannot move.
- **LineClear** (`line_clear.dfy`) models `clear_lines` as a pure function:
  1. bucket the settled cells by row;
  2. drop full rows and empty rows;
  3. restack the remaining rows, bottom-aligned and in their original order.

  The lemmas prove the cell count, cell provenance (x and colour kept, never
  moved up), bottom compaction, the absence of full rows afterwards, and
  idempotence.
- **Projection** (`projection.dfy`) says what the display buffer holds at each
  position: the falling piece drawn over the settled cells, drawn over the empty
  grid.
- **Engine** (`board.dfy`) holds the `Board` class with the fields of the Rust
  struct. Its methods update the sets and the buffer in place. `Valid()` is the
  class invariant, and every public method keeps it:
  - both sets lie on the board;
  - no two cells of either set share a position;
  - the two sets do not overlap;
  - the falling flag holds exactly when a piece is falling.

  `HardDrop` models the space-bar loop of `src/main.rs`, which applies gravity
  until the piece settles.

## Model

| member | source | states |
|---|---|---|
| Blocks.ShapeOf | src/blocks.rs:28-45 | The Line pattern has one row and every other pattern has two. Every pattern is rectangular and holds only "x" and "." symbols. |
| Blocks.ColumnsLen | src/blocks.rs:47-49 | The width is 2 for Square, 4 for Line and 3 for the rest, and every row of the pattern has that width. |
| Blocks.GetCoordinates | src/blocks.rs:54-65 | Every produced cell lies inside the pattern (column below the width, row below the row count, at most 2 rows) and carries the kind's colour. |
| Blocks.CoordinatesMatchPattern | src/blocks.rs:54-65 | A cell (j, i, colour) is produced if and only if pattern row i holds "x" at column j and the colour is the kind's colour. |
| Blocks.CoordinatesOfEachKind | src/blocks.rs:30-43 | The computed cells equal the hand-listed table for each kind, so every kind fills exactly four cells. |
| Blocks.ColorsDistinct | src/blocks.rs:30-43 | Different kinds have different colours. |
| Blocks.IndexOf | src/blocks.rs:17-25 | Every kind has a position below 7 in `BLOCK`, and `BLOCK` holds that kind at that position. |
| Blocks.Select | src/blocks.rs:67-70 | Picking index i gives the kind whose position in `BLOCK` is i, so selection and `IndexOf` are inverse. |
| Blocks.BlockOrderIsPermutation | src/blocks.rs:17-25 | `BLOCK` has 7 pairwise distinct entries, and every kind is selected by its own index. |
| Grid.Colliding | src/board.rs:48-55 | True if and only if the candidate shares an (x, y) position with a settled cell (colour ignored) or has a cell strictly below row `rowsLen`. |
| Grid.CollidingWithinRows | src/board.rs:48-55 | For sets within the rows, collision is exactly position overlap, and it is symmetric. |
| Grid.TranslatedSize | src/board.rs:101-104 | `Translated` models the maps that move every cell by a fixed offset (the spawn, the shift and the gravity step). It never merges two cells, so the size is kept. |
| Grid.TranslatedUnique | src/board.rs:101-104 | Translation keeps positions distinct. |
| Grid.TranslatedBack | src/board.rs:119-127 | Translating back by the opposite offsets restores the original set. |
| Grid.ShiftX | src/board.rs:115-129 | The shifted candidate is None if and only if some cell sits on the edge in the direction of the shift. Otherwise it has as many cells as the piece. |
| Grid.ShiftXCells | src/board.rs:119-127 | An accepted shift moves every cell one column towards the direction, with row and colour kept, and creates no other cell. |
| Grid.ShiftRoundTrip | src/board.rs:115-136 | For cells on the board, shifting one way and then the other gives back the original piece. |
| Grid.ShiftKeepsBoard | src/board.rs:115-136 | An accepted shift keeps the piece on the board with distinct positions. |
| Grid.Descended | src/board.rs:139-146 | The gravity candidate is None if and only if some cell is on the last row. Otherwise it has the same size, and every cell lies on rows 1 to `rowsLen`-1. |
| Grid.DescendedCells | src/board.rs:142-145 | An accepted gravity step moves every cell one row down, with column and colour kept, and creates no other cell. |
| Grid.DescendedKeepsBoard | src/board.rs:138-166 | An accepted gravity step keeps the piece on the board with distinct positions. |
| Grid.CenterOffset | src/board.rs:98-99 | For a board of at least 4 columns the centring offset does not underflow. Offset + width is half the columns plus half the width, which fits on the board. |
| Grid.Spawned | src/board.rs:97-104 | A spawned piece has four cells, all on the top two rows and inside the columns, with distinct positions. |
| Grid.SpawnedCells | src/board.rs:98-104 | The spawned cells are exactly the kind's cells moved right by the centring offset, with row and colour kept. |
| LineClear.Buckets | src/board.rs:58-65 | Folding the settled cells by row gives one bucket per row of the board. A cell is in bucket y exactly when it is a settled cell on row y. |
| LineClear.UncompletedKept | src/board.rs:67-76 | Every row the filter keeps is neither full nor empty. |
| LineClear.Uncompleted | src/board.rs:67-76 | The filter over the buckets, with `Kept` (neither `columnsLen` cells nor empty) as its condition. It never yields more rows than it is given. Its meaning is stated by `UncompletedIsFilter`. |
| LineClear.KeptIndices | src/board.rs:67-76 | The indices of the buckets the filter keeps, one per surviving row. |
| LineClear.KeptIndicesSelect | src/board.rs:67-76 | The k-th filtered row is the bucket at the k-th kept index, and every bucket that is neither full nor empty has its index kept. |
| LineClear.UncompletedIsFilter | src/board.rs:67-76 | The filtered rows are the buckets at the kept indices, and those indices strictly increase, so the original order is kept. A bucket is selected if and only if it is neither full nor empty. |
| LineClear.LinesCleared | src/board.rs:57-91 | The cleared set stays within the rows of the board. |
| LineClear.SurvivorsAreKept | src/board.rs:67-76 | The surviving rows are strictly increasing board rows. A row survives if and only if it is neither full nor empty. |
| LineClear.SurvivorPlaced | src/board.rs:78-90 | The k-th of n surviving rows lands on row `rowsLen`-n+k, never above where it was. Its cells keep their x and colour. |
| LineClear.AboveSurvivorsEmpty | src/board.rs:78-90 | Every row above the restacked survivors is empty. |
| LineClear.ClearedRow | src/board.rs:78-90 | Each row of the result is either the relabelled surviving row that lands there or empty. |
| LineClear.ClearLinesKeepsCells | src/board.rs:67-90 | Every cell of the result comes from a cell of a non-full row with the same x and colour, at or above it. Every cell of a non-full row reappears with its x and colour, at or below its old row. |
| LineClear.ClearLinesCount | src/board.rs:57-91 | The result has exactly `columnsLen` cells fewer per full row. |
| LineClear.ClearLinesCompacts | src/board.rs:78-90 | After clearing, no row is full. Exactly the bottom n rows are non-empty, where n is the number of surviving rows. |
| LineClear.ClearLinesIdempotent | src/board.rs:57-91 | Clearing a cleared set changes nothing. |
| LineClear.ClearLinesKeepsBoard | src/board.rs:57-91 | Clearing keeps the settled cells on the board with distinct positions. |
| LineClear.RestackRow | src/board.rs:78-88 | `Restack` models the reversed, enumerated fold. Row y of a restack of n rows onto `bottom` is the matching input row moved onto y when y is among the n rows above `bottom`, and is empty otherwise. |
| LineClear.RestackBounds | src/board.rs:78-88 | A restack of n rows occupies only the n rows above `bottom`. |
| LineClear.RelabelSize | src/board.rs:81-84 | `Relabel` models the map that moves a surviving row onto its new row. On a single-row bucket it merges no two cells, so the size is kept. |
| LineClear.RestackSize | src/board.rs:78-88 | Restacking single-row buckets keeps the total number of cells. |
| LineClear.UncompletedSum | src/board.rs:67-76 | The filtered rows plus the full rows account for every bucketed cell. |
| Projection.FallingDrawnOnTop | src/board.rs:181-183 | A falling cell shows the falling glyph in its colour, whatever lies beneath it. |
| Projection.SettledDrawnBelow | src/board.rs:178-180 | A settled cell with no falling cell on it shows the settled glyph in its colour. |
| Projection.EmptyDrawnAsGrid | src/board.rs:169-183 | A position that no cell holds shows the empty grid: an unstyled " " on the top row and an unstyled "." on every other row. |
| Engine.Board.constructor | src/board.rs:22-46 | A new board has no cells, no falling piece, the given dimensions, every buffer entry an unstyled empty string, and satisfies the invariant. |
| Engine.Board.ClearLines | src/board.rs:57-91 | The settled cells become their line-cleared form, and nothing else changes. |
| Engine.Board.TryInsertBlock | src/board.rs:97-113 | Err(NO_ROOM) is returned if and only if the centred piece collides with the settled cells, and then nothing changes. Otherwise the centred piece becomes the falling piece and the flag is set. |
| Engine.Board.MoveBlockXAxis | src/board.rs:115-136 | The piece moves one column only if every cell can move and the moved piece overlaps nothing. Otherwise the piece is unchanged. The settled cells and the flag never change, and the invariant holds. |
| Engine.Board.TryMoveBlockDownOrSet | src/board.rs:138-166 | Err(HIT_BOTTOM) exactly when some cell is on the last row. Err(HIT_BLOCK) exactly when the lowered piece collides. Ok exactly when the lowered piece fits and does not collide. On Ok the piece is lowered, with the settled cells and the flag unchanged. On Err the unmoved piece is merged, the lines are cleared and no piece is falling. The invariant holds throughout. |
| Engine.Board.SetBlock | src/board.rs:149-152 | The falling piece is merged unmoved into the settled cells and the lines are cleared. The piece set is emptied and the flag is cleared, and the invariant holds. |
| Engine.Board.FillBoard | src/board.rs:169-183 | Afterwards every buffer entry is the projection at its position. |
| Engine.Board.DrawSettled | src/board.rs:178-180 | Over the empty grid, each position shows its settled cell or the grid. |
| Engine.Board.DrawFalling | src/board.rs:181-183 | Over the settled layer, each position shows its falling cell if there is one. |
| Engine.HardDrop | src/main.rs:47-51 | The loop ends with the piece settled, no piece falling and the invariant kept. It accepts fewer than `rowsLen` gravity steps. |

## Left out

- `try_rotate_block` (src/board.rs:93-95) is `todo!()` in the source and has no behaviour to model.
- `get_formated_board` builds a string after filling the buffer. The title, the padding computed from the terminal width and the assembly into one string (src/board.rs:185-199) are terminal output and are left out. The title built in `new` is left out for the same reason.
- The glyphs carry a crossterm colour. `Color` is an enumeration of the colours the catalogue uses, and `Rgb` components are unbounded naturals rather than bytes.
- `get_random` draws its index from a random generator. `Blocks.Select` takes the index as a parameter.
- Everything else in `src/main.rs` is left out: event polling, timing, the terminal, and the loop that spawns pieces and steps gravity. Only the hard-drop loop is modelled, as `Engine.HardDrop`. Its calls name the engine methods differently from `src/board.rs`, and the model follows `src/board.rs`.
- `move_block_x_axis` takes any `KeyCode`. Every key other than Left shifts right, and only Right is stopped at the last column (src/board.rs:120-125), so another key could push a cell past it. `Direction` has only Left and Right, the two keys the game forwards.
- The source builds the moved piece with `map_while` over a `HashSet`. Iteration stops at the first blocked cell, so which partial set is built depends on hash order. Only its size is used, and any blocked cell makes it shorter. The model states the resulting all-or-nothing decision directly.
- In `clear_lines`, the `retain` on the settled cells at src/board.rs:71 has no effect on the result, because src/board.rs:90 overwrites the settled cells. It is not modelled.
- Set iteration order in the buffer fill is not modelled. Positions within each set are distinct, so the order does not change the result.
- Boards the source mishandles are excluded by preconditions. The `Board` constructor requires at least 4 columns and 2 rows:
  - With 2 rows or more, the two pattern rows of a spawned piece lie on the board. On a 1-row board a two-row piece gets y = 1 = `rows_len`, which the strict `>` at src/board.rs:54 does not flag. The buffer writes at src/board.rs:183 and the bucket index at src/board.rs:62 then go out of range.
  - With 4 columns or more, the centring offset at src/board.rs:99 cannot underflow for any kind. On 2 or 3 columns the source still spawns the Square (offset 0) and underflows only for the three- and four-wide kinds. The model does not cover such boards.
  - The `columns_len - 1` at src/board.rs:121 underflows only on a 0-column board, which the precondition rules out.
  - `LinesCleared` requires every settled cell to lie within the rows, which is what keeps the bucket index at src/board.rs:62 in range. The `rows_len - 1 - i` at src/board.rs:83 never underflows, because i counts the surviving rows, of which there are at most `rows_len`.
- `Projection.Occupant`, `Projection.SettledGlyph` and `Projection.Projected` are ghost functions. They describe the buffer and are not computed.
- Engine.HardDrop: states that the piece settles, and it bounds the number of accepted steps. It does not state the row where the piece lands.
