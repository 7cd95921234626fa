# Tetris board, modelled in Dafny

This project models the game state of a terminal Tetris: the `Board` class of
`board.py`. A board holds:

- a grid of `rows` × `columns` cells, each empty or holding a locked block that
  records its own row and column;
- the falling piece and the next (preview) piece;
- the score and the level.

It offers these commands: start the game, spawn a new piece, move left or
right, rotate, fall one row (the tick and the down key), and hard-drop.
Locking a piece writes its blocks into the grid, then clears the full rows and
compacts the columns. The clear pays `20 * 2^(k-1)` points for `k` rows and
raises the level by one once the score exceeds `200 * level`. The game ends
when a newly spawned piece, or a piece being locked, has no free position. The
source raises `GameOverError(score, level)` at that point; here it is the
`GameOver(score, level)` outcome of the command.

Files and modules:

- `optional.dfy`, module `Optional`: the `Option` type.
- `pieces.dfy`, module `Pieces`: pieces as values (an anchor plus four block
  offsets), with translations and a stand-in rotation.
- `grid.dfy`, module `Grid`: the grid and the collision test
  (`shape_cannot_be_placed`). It also has `Merge`, which writes a piece's
  blocks into the grid.
- `drop.dfy`, module `Drop`: how far "lower until blocked, then raise one row"
  takes a piece. This loop is used by `drop_shape` and by the shadow
  projection in `BoardDrawer.update_shadow`.
- `lines.dfy`, module `Lines`:
  - which rows are full and how far each surviving block drops;
  - `LinesCleared`, a relational specification of the whole clear;
  - the award and the level rule.
- `board.dfy`, module `GameBoard`: the `Board` class. Its fields are the
  source's attributes, and its methods change them in place.

The random piece supplier `Shape.random` is a parameter. Every command that
spawns a piece takes the piece it would have drawn (`supplied`).

In the usual rule every row above the removed ones drops. The code's loop
`range(lowest_row_removed, 0, -1)` (board.py:64) never visits row 0, so a block
in the top row stays where it is; the model follows the code. `ColumnCompacted`
states exactly that: rows 0 and below `lowest_row_removed` are untouched.

## Model

| member | source | states |
|---|---|---|
| `Pieces.MoveTo` | board.py:40 | the piece keeps its shape and colour; every block keeps its offset from the new anchor |
| `Pieces.Translate` | board.py:95-97 | every block moves by the same row and column amount; shape and colour kept |
| `Pieces.ShiftsInverse` | board.py:93-107 | a shift left is undone by a shift right, and a lower by a raise, so a rejected move restores the exact previous piece |
| `Pieces.LowerByLower` | board.py:134-136 | lowering one row after `n` rows is lowering `n+1` rows; raising after `n` rows is `n-1` rows |
| `Pieces.RotateClockwise` | board.py:111 | stand-in turn: keeps the anchor, the colour and the four blocks |
| `Pieces.RotateCounterclockwise` | board.py:113 | stand-in turn back: keeps the anchor, the colour and the four blocks |
| `Pieces.RotationsInverse` | board.py:109-115 | the two rotations undo each other, so a rejected rotation restores the piece |
| `Grid.EmptyGrid` | board.py:14-15 | the initial grid has the board's size, and every cell is empty |
| `Grid.AnyBlockedIff` | board.py:146-152 | the early-return scan over the blocks answers true exactly when some block is blocked |
| `Grid.BlockedIff` | board.py:143-152 | a piece cannot be placed exactly when a block's column is outside [0, columns), its row is outside [0, rows), or its cell is occupied |
| `Grid.PlaceableFits` | board.py:143-152 | a placeable piece lies inside the grid on empty cells |
| `Grid.Merge` | board.py:88-90 | writing the blocks keeps the grid's size and keeps every stored block at its own coordinates |
| `Grid.MergeCells` | board.py:85-90 | after locking, exactly the covered cells hold blocks of the piece's colour recording those cells; every other cell is unchanged |
| `Drop.FallDepth` | board.py:134-135 | the loop's number of steps is the first depth at which the piece is blocked; every smaller depth is free |
| `Drop.Shadow` | board.py:213-217 | the projected piece has four blocks, and one row below it is always blocked |
| `Drop.ShadowIsLowestFree` | board.py:213-217 | from a free position, the shadow is the same piece lowered by some rows; it and every position on the way are free, and one row lower is blocked |
| `Drop.ShadowOfBlocked` | board.py:134-136 | if the piece is already blocked, the loop does not run and the result is the piece raised one row |
| `Drop.SoftDropAgrees` | board.py:117-141 | a one-row fall does not change where a hard drop lands; a piece that cannot fall is its own shadow |
| `Lines.FullRowsBefore` | board.py:51-54 | the recorded rows are ascending, all full, all scanned, and include every full scanned row |
| `Lines.RemovedBelow` | board.py:68-71 | the drop distance is at most the number of removed rows |
| `Lines.AllCounted` | board.py:68-71 | when every removed row is below `r`, all of them count |
| `Lines.NoneCounted` | board.py:68-71 | when no removed row is below `r`, the distance is 0 |
| `Lines.CountGap` | board.py:68-72 | a higher row drops at most `r2 - r1 - 1` rows further than a surviving lower row |
| `Lines.PlanHolds` | board.py:63-75 | for any full-row list: no block in rows up to `lowest_row_removed` drops past it, and surviving rows keep their order, so no block overwrites another |
| `Lines.Blanked` | board.py:51-56 | the first phase empties exactly the full rows and leaves all other cells |
| `Lines.BlankedByCells` | board.py:51-56 | a grid that matches the first phase cell by cell is the first phase's result |
| `Lines.ColumnCompactedFrame` | board.py:63-64 | a column's compaction depends only on that column, so compacting later columns keeps earlier ones compacted |
| `Lines.CompactedFromDone` | board.py:64 | once the upward scan has passed row 1, the column is compacted |
| `Lines.CompactStep` | board.py:64-75 | moving row `i`'s block down by its distance extends the compacted part of the column to row `i` |
| `Lines.NoFullRowsNoChange` | board.py:57 | without full rows, the clear leaves the grid unchanged |
| `Lines.CompactedCellDetermined` | board.py:63-75 | two grids that are both the compaction of a column agree on every cell of it |
| `Lines.LinesClearedDeterministic` | board.py:48-75 | the grid a clear leaves is uniquely determined by the grid before it |
| `Lines.SurvivorsDrop` | board.py:63-75 | a surviving block at row `r` in 1..lowest lands on row `r` + (removed rows below `r`), with its recorded row updated |
| `Lines.SurvivorsKept` | board.py:63-75 | the clear loses no block: two surviving blocks of one column end on two different rows, in their old order, each cell holding its block with the new row recorded |
| `Lines.Pow2` | board.py:58 | a power of two is at least 1 |
| `Lines.Award` | board.py:57-59 | the award is zero exactly when no rows are cleared, and otherwise a multiple of 20 |
| `Lines.AwardDoubles` | board.py:58 | each extra row cleared at once doubles the award: 20, 40, 80, 160 |
| `Lines.LevelAfter` | board.py:60-61 | the level rises by exactly one when rows were cleared and the new score exceeds 200 × level; otherwise it is unchanged |
| `GameBoard.Board.constructor` | board.py:11-26 | an empty grid of the given size, no pieces, score 0, and level 1 when the given level is absent or 0 |
| `GameBoard.Board.StartGame` | board.py:28-33 | score 0 and level 1; with no next piece dealt, the first piece is spawned and the second queued; otherwise pieces are unchanged |
| `GameBoard.Board.NewShape` | board.py:38-46 | the queued piece spawns at (0, 4) and the supplied piece waits at (1, 12); if the spawn is blocked, there is no falling piece, the blocked piece returns to the preview, and the game is over |
| `GameBoard.Board.ClearFullRows` | board.py:49-56 | the grid becomes the first phase of the clear; the removed rows are the full rows, and the lowest is the last of them or 0 |
| `GameBoard.Board.BlankRow` | board.py:55-56 | emptying a full row through its blocks' own coordinates empties exactly that row |
| `GameBoard.Board.CompactColumn` | board.py:64-75 | one column is compacted, and every other column is unchanged |
| `GameBoard.Board.CompactColumns` | board.py:63-75 | every column is compacted |
| `GameBoard.Board.RemoveCompletedLines` | board.py:48-75 | the grid is the clear of the old grid; the score grows by the award, and the level follows the level rule |
| `GameBoard.Board.SettleShape` | board.py:85-91 | the grid, score and level become the merge of the piece followed by the clear |
| `GameBoard.Board.SettleFallingShape` | board.py:77-83 | with a falling piece: it is locked, the next piece spawns, and the outcome is game over when that spawn is blocked; with none: nothing changes |
| `GameBoard.Board.MoveShapeLeft` | board.py:93-99 | the piece moves one column left exactly when that position is free, and the result says whether it moved; only the falling piece can change, and a piece that fitted still fits |
| `GameBoard.Board.MoveShapeRight` | board.py:101-107 | the mirror image of the left move |
| `GameBoard.Board.RotateShape` | board.py:109-115 | the piece turns clockwise exactly when the turned position is free, and otherwise stays as it was |
| `GameBoard.Board.LetShapeFall` | board.py:117-128 | there are three cases: lower one row when free; game over when the piece is blocked where it is; otherwise lock the piece and spawn the next one |
| `GameBoard.Board.LowerUntilBlocked` | board.py:134-135 | the lowering loop ends with the piece lowered by its fall depth |
| `GameBoard.Board.DropShape` | board.py:130-141 | the piece goes to its shadow; if the shadow is blocked, the game is over with the piece there; otherwise the shadow is locked and the next piece spawns |

## Left out

- Drawing is not modelled. That covers `BoardDrawer`, curses, colours, the score panel and the preview panel. The one exception is the shadow loop (board.py:213-217), which is `Drop.Shadow`.
- game.py and main.py are not part of this model. They hold the key handling, the timer that drives `let_shape_fall`, and the process entry point.
- Module `pieces` is not part of this model: the piece catalogue, its rotations and `Shape.random`. The rotation is a stand-in quarter turn about the anchor. The board depends only on the counterclockwise turn undoing the clockwise one. `Shape.random` becomes the `supplied` parameter.
- `copy.deepcopy` of the removed rows is not modelled. The model records the removed rows' indices, because only their `row_position` is ever read.
- Blocks are values in the model, not shared mutable objects. Aliasing between a piece's blocks and the grid cells is not modelled. `block.row_position = new_row_index` becomes storing a copy with the new row.
- `lowest_row_removed` is taken from the row index. The source reads `row[0].row_position`, which is the same value while every block records its own cell; the invariant `Valid` guarantees that.
- The score is an integer. `math.pow` makes the source's score a float after the first clear.
- `GameBoard.Board.RemoveCompletedLines` does not model the crash on a board with zero columns. There, every row counts as full, and the source fails with an index error at `row[0]`. The model clears those empty rows and pays for them.
- The constructor takes natural sizes. The source's defaults of `None` for rows and columns fail at construction and are not modelled. A level given as any other falsy value is also not modelled; only absent and 0 are.
- The Python exception mechanics of `end_game` are not modelled. Callers observe the `GameOver` outcome instead, with the board in the state the source leaves it in when it raises.
