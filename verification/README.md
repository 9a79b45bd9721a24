# Hex minesweeper in Dafny

A model of the game logic of a hexagonal minesweeper. The board is a hexagon
with `N` tiles per side. Each tile is stored in a `(2N - 1) x (2N - 1)` square
buffer addressed by pointy-top axial coordinates. Cells whose coordinate sum
lies outside `N - 1 ..= 3(N - 1)` are clipped, so the square's corners are
padding.

Modules:

- `HexagonalTable`: the generic storage with its window test, `get`, `get_mut`
  and a write through `get_mut`. It also counts the window's cells:
  `3N^2 - 3N + 1`.
- `RealRound`, `HexGrid`, `HexagonalCoordinate`: snapping an axial point to
  the nearest cell by cube rounding. The game has this rule twice, and the two
  copies are proved to agree. Every snapped cell contains the point: no
  neighbouring centre is closer. Every cell centre snaps back to its cell.
- `Events`: the events the systems exchange.
- `Model`: `TileState`, `GameBoard`, the board queries (adjacent mines, the
  whole-board counts, remaining mines) and loading a board from text.
- `Systems`: the try-open, try-flag and undo systems as pure steps. Each step
  returns the new board and the events it writes. `Run` is the left fold over
  a queue of intents. Proved about them:
  - undo takes back exactly one move;
  - re-applying the popped move restores the board;
  - repeated intents are idempotent;
  - mines never move;
  - the invariant `Consistent` is preserved. It says that no tile is both
    open and flagged, that every stacked move is still in effect, and that no
    two stacked moves share a cell.
- `Scene`: the three-state scene and the systems that end a round.
- `Controller`: the input gating. Buttons and keys are booleans, and the cell
  under the cursor is given.
- `View`: the text a tile shows. The lemma `TileTextReveals` proves that the
  text identifies the tile's state exactly.

Integers are unbounded. `f32` is modelled by `real` with exact arithmetic.

## Model

| member | source | states |
|---|---|---|
| HexagonalTable.New | src/hexagonal_table.rs:15-22 | a fresh table has bound `2N - 1` and a `bound^2` buffer; every in-window cell reads the default and every other cell reads `None` |
| HexagonalTable.HexagonsPerSide | src/hexagonal_table.rs:25-27 | the side length of a valid table is at least 1 and fixes the number of playable cells at `3N^2 - 3N + 1` |
| HexagonalTable.HexagonsBound | src/hexagonal_table.rs:30-32 | the bound of a valid table is `2N - 1` for its side `N`, and the buffer holds `bound^2` slots |
| HexagonalTable.OutOfBoundIsDistance | src/hexagonal_table.rs:55-64 | a cell is outside the window exactly when its hexagonal (cube) distance from the centre cell `(N - 1, N - 1)` exceeds `N - 1` |
| HexagonalTable.Get | src/hexagonal_table.rs:35-42 | on a valid table the read fails exactly outside the clipped window; otherwise it yields the slot `y * bound + x`, which lies inside the buffer |
| HexagonalTable.GetMut | src/hexagonal_table.rs:45-52 | mutable access fails under the same condition as `get` and designates the slot `y * bound + x` inside the buffer |
| HexagonalTable.Write | src/hexagonal_table.rs:45-52 | a write through `get_mut` keeps the table's shape and is read back at that cell (nothing is written off the window) |
| HexagonalTable.GetMatchesGetMut | src/hexagonal_table.rs:35-52 | `get` returns the content of the slot `get_mut` designates, and both fail together |
| HexagonalTable.SlotInRange | src/hexagonal_table.rs:55-64 | every cell that passes the window test has an index inside the buffer |
| HexagonalTable.SlotInjective | src/hexagonal_table.rs:40 | distinct in-window cells map to distinct slots |
| HexagonalTable.WriteFrame | src/hexagonal_table.rs:45-52 | a write through one cell leaves every other cell's reading unchanged |
| HexagonalTable.InBoundCount | src/hexagonal_table.rs:55-64 | the clipped window holds exactly `3N^2 - 3N + 1` cells, the size of a hexagon with `N` cells per side |
| RealRound.Round | src/hexgrid.rs:49 | `round` gives an integer within one half of its argument; at an exact half it gives the one farther from zero |
| RealRound.RoundUnique | src/hexgrid.rs:49 | no other integer satisfies the rounding contract |
| HexGrid.NearestGrid | src/hexgrid.rs:43-66 | the snapped cell's closed hexagon contains the point; each axial component is within 2/3 of the point; at most one of q and r differs from plain rounding |
| HexGrid.Repair | src/hexgrid.rs:56-60 | recomputing the component with the strictly largest rounding error from the other two yields a cell whose hexagon contains the point |
| HexGrid.RepairQ | src/hexgrid.rs:56-57 | when q's rounding error is the largest, recomputing q from r and s gives a cell whose hexagon contains the point |
| HexGrid.RepairR | src/hexgrid.rs:58-59 | when r's rounding error is the largest, recomputing r from q and s gives a cell whose hexagon contains the point |
| HexGrid.RepairS | src/hexgrid.rs:56-60 | when s's rounding error is the largest, keeping the rounded q and r gives a cell whose hexagon contains the point |
| HexGrid.RepairLargest | src/hexgrid.rs:56-60 | three rounding errors of at most one half summing to an integer leave a valid cube offset once the largest is corrected |
| HexGrid.NearestGridTieBreak | src/hexgrid.rs:56-60 | q is recomputed only when its error is strictly largest; r only when its error strictly exceeds s's and is not below q's; never both |
| HexGrid.NearestGridOfCentre | src/hexgrid.rs:43-66 | the centre of a cell snaps to that cell |
| HexGrid.WithinHexagonIsNearest | src/hexgrid.rs:43-66 | a point inside a cell's hexagon is at least as close to that cell's centre as to any of its six neighbours' |
| HexagonalCoordinate.SnapHexagonalToHexagonalGrid | src/hexagonal_coordinate.rs:29-45 | the snapped pair's hexagon contains the point; at most one of q and r differs from plain rounding |
| HexagonalCoordinate.SnapRounded | src/hexagonal_coordinate.rs:38-44 | the tie-break on plain pairs computes the same cell as the repair step of the grid module |
| HexagonalCoordinate.SnapMatchesHexGrid | src/hexagonal_coordinate.rs:29-45 | the pair snap and the grid snap in hexgrid.rs return the same cell for every point |
| HexagonalCoordinate.SnapIntegral | src/hexagonal_coordinate.rs:29-45 | an integral axial point snaps to itself |
| HexagonalCoordinate.ToHexagonal | src/hexagonal_coordinate.rs:5-10 | with an exact root of three the conversion preserves distance: the squared Cartesian length is three times the axial form `q^2 + qr + r^2` |
| HexagonalCoordinate.ToCartesian | src/hexagonal_coordinate.rs:14-16 | with an exact root of three, converting an axial point to Cartesian and back gives the point again |
| HexagonalCoordinate.HexagonalGrid | src/hexagonal_coordinate.rs:20-25 | the centre of a cell is the Cartesian image of the cell's integer coordinates |
| HexagonalCoordinate.ConversionsInverse | src/hexagonal_coordinate.rs:5-16 | with an exact root of three, converting a Cartesian point to axial and back gives the point again |
| HexagonalCoordinate.SnapCartesianToHexagonalGrid | src/hexagonal_coordinate.rs:49-51 | the cell snapped from a Cartesian point contains that point's axial image |
| HexagonalCoordinate.ToHexagonalOfCentre | src/hexagonal_coordinate.rs:5-25 | converting a cell's Cartesian centre back to axial gives the cell |
| HexagonalCoordinate.SnapCartesianOfCentre | src/hexagonal_coordinate.rs:49-51 | every cell's Cartesian centre snaps back to that cell |
| Model.New | src/model.rs:55-61 | a fresh board has `(2N - 1)^2` default slots, an empty move stack and satisfies the invariant |
| Model.OutOfBoundIsDistance | src/model.rs:134-141 | a cell is off a side-`N` board exactly when its hexagonal distance from the centre cell `(N - 1, N - 1)` exceeds `N - 1`; with `N = 0` no cell is on the board |
| Model.Get | src/model.rs:116-123 | a read that succeeds is of an on-board cell and returns the slot `y * (2N - 1) + x`, which lies inside the buffer; on a valid board the read fails exactly off the board |
| Model.GetMut | src/model.rs:125-132 | mutable access designates the board slot `y * (2N - 1) + x`, succeeds exactly when `get` does, and addresses the tile `get` reads |
| Model.TableView | src/model.rs:116-141 | the board's window test, index, `get` and `get_mut` coincide with the hexagonal table's over the same buffer |
| Model.GetSpec | src/model.rs:116-132 | on a valid board `get` and `get_mut` fail exactly off the board and otherwise address the same slot |
| Model.PutSpec | src/model.rs:125-132 | writing through `get_mut` changes the target's reading only, and keeps the shape and move stack |
| Model.IndexInjective | src/model.rs:121 | distinct on-board cells have distinct indices |
| Model.CountAdjacentMines | src/model.rs:143-161 | `None` exactly off the board; otherwise the number of the six directions whose neighbour is on the board and mined, so at most 6 |
| Model.CountSetIsCardinality | src/model.rs:147-158 | the loop's running count over the flags equals the number of positions at which a flag is set, so it is at most the number of flags scanned |
| Model.CountRemainingMines | src/model.rs:184-186 | the subtraction never underflows; the result is at most the mine count and is zero exactly when every mine carries a flag |
| Model.FlaggedMinesBound | src/model.rs:170-182 | flagged mines never outnumber mines, and equal them exactly when every mine is flagged |
| Model.CountIsCardinality | src/model.rs:163-182 | each whole-board count is the size of the set of slots its filter accepts |
| Model.CountOpenTile | src/model.rs:163-168 | the number of buffer slots whose tile is open |
| Model.CountMines | src/model.rs:170-175 | the number of buffer slots whose tile holds a mine |
| Model.CountFlaggedMines | src/model.rs:177-182 | the number of buffer slots whose tile is a flagged mine |
| Model.DecodeTile | src/model.rs:85-103 | a character decodes exactly when it is `.`, `O` or `M`; decoded tiles are never flagged and never open mines |
| Model.DecodeEncode | src/model.rs:85-103 | decoding is a bijection between the three tile characters and the tiles a text can describe (unflagged, not an open mine) |
| Model.Load | src/model.rs:63-110 | side 0 is an invalid size; otherwise the load succeeds exactly when every on-board cell has a tile character. A loaded board has side `N`, an empty stack and satisfies the invariant. It reads each on-board cell as the text gives it, and every padding slot keeps the default tile, so characters off the board are ignored |
| Systems.TryOpenTile | src/model.rs:189-216 | the mines stay put; a move is pushed and reported exactly when the target is on the board, closed and unflagged; a loss is reported exactly when the target is an on-board mine; otherwise the board is unchanged |
| Systems.TryFlagTile | src/model.rs:218-250 | the mines stay put; a move is pushed exactly when the target is playable; a loss exactly when a safe tile gets flagged; a clear exactly when the target is on the board and every mine is flagged afterwards |
| Systems.Undo | src/model.rs:252-275 | an empty stack changes nothing; otherwise the last move is popped and its reversal reported, and no other event is written |
| Systems.TryOpenTileEffect | src/model.rs:197-201 | opening sets the open bit of the target only, and only when it was playable |
| Systems.TryFlagTileEffect | src/model.rs:227-230 | flagging sets the flag bit of the target only, and only when it was playable |
| Systems.UndoEffect | src/model.rs:258-272 | undo clears the open or flag bit of the popped move's target and touches no other cell |
| Systems.UndoAfterOpen | src/model.rs:258-265 | a successful open followed by undo restores the board and the stack exactly |
| Systems.UndoAfterFlag | src/model.rs:258-271 | a successful flag followed by undo restores the board and the stack exactly |
| Systems.RedoAfterUndo | src/model.rs:252-275 | on a consistent board, undo followed by replaying the popped move restores the board and the stack |
| Systems.TryOpenTileIdempotent | src/model.rs:196-206 | a repeated open intent changes nothing, reports no move and repeats the loss report |
| Systems.TryFlagTileIdempotent | src/model.rs:226-241 | a repeated flag intent changes nothing, reports no move and no loss, and repeats the clear report |
| Systems.CountUpdate | src/model.rs:163-182 | rewriting one slot changes a whole-board count by the difference of the old and new tile's contributions |
| Systems.FlagRemainingMines | src/model.rs:228-240 | flagging keeps the mine count and lowers the remaining-mine count by one exactly when a closed, unflagged mine is flagged |
| Systems.OpenTileCount | src/model.rs:163-168 | a successful open raises the open-tile count by one; every other open intent leaves it unchanged |
| Systems.TryOpenTileConsistent | src/model.rs:189-216 | the open system preserves the board invariant |
| Systems.TryFlagTileConsistent | src/model.rs:218-250 | the flag system preserves the board invariant |
| Systems.UndoConsistent | src/model.rs:252-275 | the undo system preserves the board invariant |
| Systems.ApplyConsistent | src/model.rs:189-275 | any single intent preserves the board invariant |
| Systems.Run | src/model.rs:189-275 | handling a queue of intents in order: an empty queue changes nothing; each intent reports at most one move or undo, one loss and one clear; the stack grows by the moves reported and shrinks by the undos reported |
| Systems.RunConsistent | src/model.rs:189-275 | any queue of intents preserves the board invariant |
| Systems.RunAppend | src/model.rs:195 | handling two queues one after the other is handling their concatenation, with the events concatenated |
| Systems.RunSameMines | src/model.rs:189-275 | no queue of intents changes the board's shape or any mine bit |
| Scene.CheckGameOver | src/scene.rs:21-25 | the scene becomes `Over` exactly when at least one loss event was read, and is otherwise unchanged |
| Scene.CheckGameClear | src/scene.rs:27-31 | the scene becomes `Clear` exactly when at least one clear event was read, and is otherwise unchanged |
| Controller.CheckTryMoveTile | src/controller.rs:19-43 | an open (flag) intent is written exactly when the game is running, the cell is on the board and the left (right) button was released; every intent names that cell |
| Controller.CheckRetry | src/controller.rs:45-60 | a retry is written and the scene returns to the game exactly when the round is over or cleared and a button was released |
| Controller.CheckTryUndo | src/controller.rs:62-72 | an undo intent is written exactly when the game is running, left Control is held and Z was released |
| Controller.IntentsReachTheBoard | src/controller.rs:35-42 | every cell in a written open or flag intent is readable on the board |
| Controller.RoundEndFreezesInput | src/controller.rs:19-72 | after a loss or clear is read, no open, flag or undo intent is written |
| Controller.RetryReturnsToGame | src/controller.rs:45-60 | a retry returns to the game, and a second retry check does nothing |
| View.Decimal | src/view.rs:232 | the decimal text of a count is non-empty, all digits, and has no leading zero |
| View.DecimalRoundTrip | src/view.rs:232 | reading the decimal text back gives the count |
| View.TileTextAndColor | src/view.rs:221-246 | an off-board cell shows `ERROR` in pink; an open tile never shows `F` or a blank |
| View.TileTextReveals | src/view.rs:221-246 | on a valid board each text identifies its case exactly: `ERROR` off the board, `M` for an open mine, `F` for a closed flagged tile, a blank for a closed unflagged tile; an open safe tile shows one digit `0`-`6` that reads back as its adjacent-mine count |

## Left out

- File access and token parsing in `load`. `Model.Load` receives `N` and the rows already split into characters. read_macro.rs is not part of this model. The game panics on a missing row, a short row or an unknown character; the model returns `MalformedBoard` for each. The game underflows on `N = 0`; the model returns `InvalidSize`.
- Model.New, HexagonalTable.New: both require `N >= 1`. With `N = 0` the game computes `2 * 0 - 1` in `usize`, which underflows.
- Machine integer widths: the `i32` and `usize` casts and overflow of index arithmetic. Coordinates are unbounded integers, so huge coordinates that would wrap in the game are simply off the board here.
- Floating point. `f32` is modelled as exact `real`, so rounding error in the conversions and in `round` is not modelled. The root of three is a parameter that the lemmas take to be exact.
- The Cartesian conversions in hexgrid.rs (`pointy_hex_grid_to_cartesian`, `cartesian_to_pointy_hex`, `pointy_hex_to_cartesian`, `cartesian_point_to_nearest_pointy_hex_grid`) are not modelled. Their copies in hexagonal_coordinate.rs are modelled over exact reals only to state the composition in `snap_cartesian_to_hexagonal_grid`.
- HexagonalCoordinate.ConversionsInverse: holds only for exact reals and an exact root of three; in `f32` the conversions are approximate, so a point on a cell border may snap to either side.
- HexagonalCoordinate.ToHexagonal: holds only for exact reals and an exact root of three; in `f32` the conversions are approximate, so a point on a cell border may snap to either side.
- HexagonalCoordinate.ToCartesian: holds only for exact reals and an exact root of three; in `f32` the conversions are approximate, so a point on a cell border may snap to either side.
- HexagonalCoordinate.ToHexagonalOfCentre: holds only for exact reals and an exact root of three; in `f32` the conversions are approximate, so a point on a cell border may snap to either side.
- HexagonalCoordinate.SnapCartesianOfCentre: holds only for exact reals and an exact root of three; in `f32` the conversions are approximate, so a point on a cell border may snap to either side.
- The controller's cursor arithmetic (cursor position minus the tilemap translation, divided by the tile size). The cell under the cursor is a parameter.
- Engine scheduling. Bevy runs each system over its own event queue, in an order the engine chooses. `Systems.Run` folds a single mixed queue in arrival order, which is one such interleaving.
- Plugin setup and the load of board 1 at start-up in the model plugin.
- Everything in view.rs except `get_tile_text_and_color`: rendering, overlays, sound and the retry, move and undo handlers. Colours are tags (`MineColor`, `HintColor`, `FlagColor`, `Pink`) instead of configured values.
- Board reset on retry. In this code the retry event only reaches view.rs, which hides the overlays. The board and move stack are not reset, so the model has no reset.
- Event shapes. events.rs declares `OnGameOver` as a unit struct and lacks the undo and retry events, while model.rs writes `OnGameOver::Open { target }` and `OnGameOver::Flag { target }`. The model follows model.rs.
