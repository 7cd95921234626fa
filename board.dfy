/**
 * The board state machine (`Board` in board.py): the grid of locked blocks,
 * the falling piece, the next piece, the score and the level, with the
 * commands the game loop issues.
 *
 * Game over, which the source signals by raising `GameOverError(score, level)`,
 * is the `GameOver` outcome; a command that returns normally gives `Returned`
 * with the value the source returns (`None` is `false`).  The random piece
 * supplier `Shape.random` is a parameter (`supplied`), which the board places
 * at the preview position.
 */
module GameBoard {
  import opened Optional
  import opened Pieces
  import opened Grid
  import opened Drop
  import opened Lines

  const PreviewColumn := 12
  const PreviewRow := 1
  const StartingColumn := 4
  const StartingRow := 0

  datatype Outcome = Returned(value: bool) | GameOver(score: int, level: int)

  class Board {
    const numRows: nat
    const numColumns: nat
    var grid: Grid
    var fallingShape: Option<Piece>
    var nextShape: Option<Piece>
    var score: int
    var level: int

    /** The board's invariant: the grid has its size and every block records its own cell. */
    predicate Valid()
      reads this
    {
      Shaped(grid, numRows, numColumns) && WellPlaced(grid) &&
      (fallingShape.Some? ==> WellFormed(fallingShape.value) && nextShape.Some?) &&
      (nextShape.Some? ==> WellFormed(nextShape.value))
    }

    /** The falling piece, if any, lies inside the grid on empty cells. */
    predicate FallingFits()
      reads this
      requires Shaped(grid, numRows, numColumns)
    {
      fallingShape.Some? ==> !Blocked(grid, numRows, numColumns, fallingShape.value)
    }

    /**
     * The fields after `new_shape` promoted `queued` and took `supplied` as
     * the next piece: the promoted piece stands at the spawn position, unless
     * it is blocked there, in which case there is no falling piece and it
     * waits at the preview position instead.
     */
    ghost predicate Spawned(queued: Piece, supplied: Piece)
      reads this
      requires Shaped(grid, numRows, numColumns)
    {
      var spawned := MoveTo(queued, StartingColumn, StartingRow);
      if Blocked(grid, numRows, numColumns, spawned) then
        fallingShape == None && nextShape == Some(MoveTo(spawned, PreviewColumn, PreviewRow))
      else
        fallingShape == Some(spawned) && nextShape == Some(MoveTo(supplied, PreviewColumn, PreviewRow))
    }

    /** What a command that spawned a piece reports: game over when none could be placed. */
    function AfterSpawn(returned: bool): Outcome
      reads this
    {
      if fallingShape.None? then GameOver(score, level) else Returned(returned)
    }

    /**
     * The grid, score and level after locking `p` into `before` at score
     * `score0` and level `level0`: the blocks are merged, the full rows are
     * cleared and compacted, the clear is paid for and the level checked.
     */
    ghost predicate Settled(before: Grid, p: Piece, score0: int, level0: int)
      reads this
    {
      Shaped(before, numRows, numColumns) && Fits(numRows, numColumns, Blocks(p)) &&
      var merged := Merge(before, numRows, numColumns, Blocks(p));
      var k := |FullRows(merged)|;
      LinesCleared(merged, grid, numRows, numColumns) &&
      score == score0 + Award(k) && level == LevelAfter(score, level0, k)
    }

    /** `Board(columns, rows, level)`; a level of `None` or 0 starts at 1. */
    constructor (columns: nat, rows: nat, initialLevel: Option<int>)
      ensures Valid()
      ensures numColumns == columns && numRows == rows
      ensures grid == EmptyGrid(rows, columns)
      ensures fallingShape == None && nextShape == None && score == 0
      ensures level == if initialLevel.None? || initialLevel.value == 0 then 1 else initialLevel.value
    {
      numRows := rows;
      numColumns := columns;
      grid := EmptyGrid(rows, columns);
      fallingShape := None;
      nextShape := None;
      score := 0;
      level := if initialLevel.None? || initialLevel.value == 0 then 1 else initialLevel.value;
    }

    /**
     * `start_game`: score 0 and level 1; when no piece has been dealt yet, deal
     * `first` as the next piece and spawn it, with `second` as the new next piece.
     */
    method StartGame(first: Piece, second: Piece) returns (outcome: Outcome)
      requires Valid() && WellFormed(first) && WellFormed(second)
      modifies this
      ensures Valid() && grid == old(grid) && score == 0 && level == 1
      ensures old(nextShape).Some? ==>
        outcome == Returned(false) &&
        fallingShape == old(fallingShape) && nextShape == old(nextShape)
      ensures old(nextShape).None? ==>
        Spawned(MoveTo(first, PreviewColumn, PreviewRow), second) && FallingFits() &&
        outcome == AfterSpawn(false)
    {
      score := 0;
      level := 1;
      outcome := Returned(false);
      if nextShape.None? {
        nextShape := Some(MoveTo(first, PreviewColumn, PreviewRow));
        outcome := NewShape(second);
      }
    }

    /**
     * `new_shape`: the next piece moves to the spawn position and becomes the
     * falling piece, and `supplied` becomes the next piece.  If the spawned
     * piece is blocked, the game is over: there is no falling piece and the
     * blocked piece goes back to the preview as the next piece.
     */
    method NewShape(supplied: Piece) returns (outcome: Outcome)
      requires Valid() && nextShape.Some? && WellFormed(supplied)
      modifies this`fallingShape, this`nextShape
      ensures Valid()
      ensures Spawned(old(nextShape).value, supplied) && FallingFits()
      ensures outcome == AfterSpawn(false)
    {
      fallingShape := nextShape;
      fallingShape := Some(MoveTo(fallingShape.value, StartingColumn, StartingRow));
      nextShape := Some(MoveTo(supplied, PreviewColumn, PreviewRow));
      if Blocked(grid, numRows, numColumns, fallingShape.value) {
        nextShape := fallingShape;
        fallingShape := None;
        nextShape := Some(MoveTo(nextShape.value, PreviewColumn, PreviewRow));
        outcome := GameOver(score, level);
      } else {
        outcome := Returned(false);
      }
    }

    /**
     * First phase of `remove_completed_lines`: scan the rows top to bottom,
     * record each full row and empty it through its blocks' own coordinates.
     */
    method ClearFullRows() returns (removed: seq<int>, lowest: int)
      requires Shaped(grid, numRows, numColumns) && WellPlaced(grid)
      modifies this`grid
      ensures Shaped(grid, numRows, numColumns) && WellPlaced(grid)
      ensures grid == Blanked(old(grid))
      ensures removed == FullRows(old(grid)) && lowest == LastOr0(removed)
    {
      ghost var g := grid;
      removed, lowest := [], 0;
      var r := 0;
      while r < numRows
        invariant 0 <= r <= numRows
        invariant Shaped(grid, numRows, numColumns) && WellPlaced(grid)
        invariant removed == FullRowsBefore(g, r) && lowest == LastOr0(removed)
        invariant forall i, j :: 0 <= i < numRows && 0 <= j < numColumns ==>
          grid[i][j] == if i < r && RowFull(g[i]) then Empty else g[i][j]
      {
        assert grid[r] == g[r];
        if RowFull(grid[r]) {
          lowest := if r > lowest then r else lowest;
          removed := removed + [r];
          BlankRow(r);
        }
        r := r + 1;
      }
      BlankedByCells(g, grid);
    }

    /** The inner loop of `remove_completed_lines`: empty the cell of every block of a full row. */
    method BlankRow(r: nat)
      requires Shaped(grid, numRows, numColumns) && WellPlaced(grid)
      requires r < numRows && RowFull(grid[r])
      modifies this`grid
      ensures Shaped(grid, numRows, numColumns) && WellPlaced(grid)
      ensures forall i, j :: 0 <= i < numRows && 0 <= j < numColumns ==>
        grid[i][j] == if i == r then Empty else old(grid)[i][j]
    {
      ghost var g := grid;
      var c := 0;
      while c < numColumns
        invariant 0 <= c <= numColumns
        invariant Shaped(grid, numRows, numColumns) && WellPlaced(grid)
        invariant forall i, j :: 0 <= i < numRows && 0 <= j < numColumns ==>
          grid[i][j] == if i == r && j < c then Empty else g[i][j]
      {
        var block := grid[r][c].block;
        grid := Put(grid, block.row, block.column, Empty);
        c := c + 1;
      }
    }

    /**
     * One column of the compaction in `remove_completed_lines`: rows `lowest`
     * up to 1 (never row 0), each block dropping by the number of removed rows
     * below it and recording its new row.
     */
    method CompactColumn(c: nat, removed: seq<int>, lowest: int)
      requires Shaped(grid, numRows, numColumns) && WellPlaced(grid)
      requires c < numColumns && 0 <= lowest < numRows
      requires ShiftPlan(removed, lowest)
      requires forall r :: 0 <= r < numRows && r in removed ==> grid[r][c] == Empty
      modifies this`grid
      ensures Shaped(grid, numRows, numColumns) && WellPlaced(grid)
      ensures forall r, j :: 0 <= r < numRows && 0 <= j < numColumns && j != c ==>
        grid[r][j] == old(grid)[r][j]
      ensures ColumnCompacted(old(grid), grid, removed, lowest, c)
    {
      ghost var g := grid;
      var i := lowest;
      while i > 0
        invariant 0 <= i <= lowest
        invariant Shaped(grid, numRows, numColumns) && WellPlaced(grid)
        invariant forall r, j :: 0 <= r < numRows && 0 <= j < numColumns && j != c ==>
          grid[r][j] == g[r][j]
        invariant CompactedFrom(g, grid, removed, lowest, c, i)
      {
        CompactStep(g, grid, removed, lowest, c, i);
        if grid[i][c].Filled? {
          var block := grid[i][c].block;
          var distance := RemovedBelow(removed, block.row);
          var newRow := i + distance;
          grid := Put(grid, i, c, Empty);
          grid := Put(grid, newRow, c, Filled(block.(row := newRow)));
        }
        i := i - 1;
      }
      CompactedFromDone(g, grid, removed, lowest, c);
    }

    /** The column loop of `remove_completed_lines`: compact every column in turn. */
    method CompactColumns(removed: seq<int>, lowest: int)
      requires Shaped(grid, numRows, numColumns) && WellPlaced(grid)
      requires 0 <= lowest < numRows && ShiftPlan(removed, lowest)
      requires forall r, c :: 0 <= r < numRows && 0 <= c < numColumns && r in removed ==>
        grid[r][c] == Empty
      modifies this`grid
      ensures Shaped(grid, numRows, numColumns) && WellPlaced(grid)
      ensures forall c :: 0 <= c < numColumns ==> ColumnCompacted(old(grid), grid, removed, lowest, c)
    {
      ghost var g := grid;
      var c := 0;
      while c < numColumns
        invariant 0 <= c <= numColumns
        invariant Shaped(grid, numRows, numColumns) && WellPlaced(grid)
        invariant forall j :: 0 <= j < c ==> ColumnCompacted(g, grid, removed, lowest, j)
        invariant forall r, j :: 0 <= r < numRows && c <= j < numColumns ==> grid[r][j] == g[r][j]
      {
        ghost var before := grid;
        CompactColumn(c, removed, lowest);
        forall j | 0 <= j < c
          ensures ColumnCompacted(g, grid, removed, lowest, j)
        {
          ColumnCompactedFrame(g, before, grid, removed, lowest, j);
        }
        c := c + 1;
      }
    }

    /**
     * `remove_completed_lines`: clear every full row, pay
     * `points_per_line * 2 ** (k - 1)` for k rows, raise the level by one when
     * the score passes `points_per_level * level`, and compact the columns.
     */
    method RemoveCompletedLines()
      requires Valid()
      modifies this`grid, this`score, this`level
      ensures Valid()
      ensures LinesCleared(old(grid), grid, numRows, numColumns)
      ensures score == old(score) + Award(|FullRows(old(grid))|) && score >= old(score)
      ensures level == LevelAfter(score, old(level), |FullRows(old(grid))|)
    {
      var removed, lowest := ClearFullRows();
      if |removed| > 0 {
        score := score + Award(|removed|);
        if score > PointsPerLevel * level {
          level := level + 1;
        }
        PlanHolds(removed, lowest);
        CompactColumns(removed, lowest);
      } else {
        NoFullRowsNoChange(old(grid), numRows, numColumns);
      }
    }

    /** `_settle_shape`: write the piece's blocks into the grid, then clear lines. */
    method SettleShape(p: Piece)
      requires Valid() && Fits(numRows, numColumns, Blocks(p))
      modifies this`grid, this`score, this`level
      ensures Valid()
      ensures Settled(old(grid), p, old(score), old(level))
    {
      var blocks := Blocks(p);
      var j := 0;
      while j < |blocks|
        invariant 0 <= j <= |blocks|
        invariant grid == Merge(old(grid), numRows, numColumns, blocks[..j])
        invariant score == old(score) && level == old(level)
      {
        assert blocks[..j + 1][..j] == blocks[..j];
        grid := Put(grid, blocks[j].row, blocks[j].column, Filled(blocks[j]));
        j := j + 1;
      }
      assert blocks[..j] == blocks;
      RemoveCompletedLines();
    }

    /**
     * `settle_falling_shape`: lock the falling piece, drop it, and spawn the
     * next one with `supplied` as the new next piece.
     */
    method SettleFallingShape(supplied: Piece) returns (outcome: Outcome)
      requires Valid() && WellFormed(supplied)
      requires fallingShape.Some? ==> Fits(numRows, numColumns, Blocks(fallingShape.value))
      modifies this
      ensures Valid()
      ensures old(fallingShape).None? ==>
        outcome == Returned(false) && grid == old(grid) && score == old(score) &&
        level == old(level) && fallingShape == old(fallingShape) && nextShape == old(nextShape)
      ensures old(fallingShape).Some? ==>
        Settled(old(grid), old(fallingShape).value, old(score), old(level)) &&
        Spawned(old(nextShape).value, supplied) && FallingFits() && outcome == AfterSpawn(false)
    {
      outcome := Returned(false);
      if fallingShape.Some? {
        SettleShape(fallingShape.value);
        fallingShape := None;
        outcome := NewShape(supplied);
      }
    }

    /**
     * `move_shape_left`: shift the falling piece one column left, and shift it
     * back if that position is blocked.  Only the falling piece can change.
     */
    method MoveShapeLeft() returns (moved: bool)
      requires Valid()
      modifies this`fallingShape
      ensures Valid()
      ensures old(fallingShape).None? ==> !moved && fallingShape == None
      ensures old(fallingShape).Some? ==>
        var p := old(fallingShape).value;
        moved == !Blocked(grid, numRows, numColumns, ShiftLeft(p)) &&
        fallingShape == Some(if moved then ShiftLeft(p) else p)
      ensures old(FallingFits()) ==> FallingFits()
    {
      moved := false;
      if fallingShape.Some? {
        ghost var p := fallingShape.value;
        fallingShape := Some(ShiftLeft(fallingShape.value));
        if Blocked(grid, numRows, numColumns, fallingShape.value) {
          fallingShape := Some(ShiftRight(fallingShape.value));
          ShiftsInverse(p);
          return false;
        }
        return true;
      }
    }

    /** `move_shape_right`: the mirror image of `MoveShapeLeft`. */
    method MoveShapeRight() returns (moved: bool)
      requires Valid()
      modifies this`fallingShape
      ensures Valid()
      ensures old(fallingShape).None? ==> !moved && fallingShape == None
      ensures old(fallingShape).Some? ==>
        var p := old(fallingShape).value;
        moved == !Blocked(grid, numRows, numColumns, ShiftRight(p)) &&
        fallingShape == Some(if moved then ShiftRight(p) else p)
      ensures old(FallingFits()) ==> FallingFits()
    {
      moved := false;
      if fallingShape.Some? {
        ghost var p := fallingShape.value;
        fallingShape := Some(ShiftRight(fallingShape.value));
        if Blocked(grid, numRows, numColumns, fallingShape.value) {
          fallingShape := Some(ShiftLeft(fallingShape.value));
          ShiftsInverse(p);
          return false;
        }
        return true;
      }
    }

    /**
     * `rotate_shape`: turn the falling piece clockwise, and turn it back
     * counterclockwise if the turned position is blocked.
     */
    method RotateShape() returns (moved: bool)
      requires Valid()
      modifies this`fallingShape
      ensures Valid()
      ensures old(fallingShape).None? ==> !moved && fallingShape == None
      ensures old(fallingShape).Some? ==>
        var p := old(fallingShape).value;
        moved == !Blocked(grid, numRows, numColumns, RotateClockwise(p)) &&
        fallingShape == Some(if moved then RotateClockwise(p) else p)
      ensures old(FallingFits()) ==> FallingFits()
    {
      moved := false;
      if fallingShape.Some? {
        ghost var p := fallingShape.value;
        fallingShape := Some(RotateClockwise(fallingShape.value));
        if Blocked(grid, numRows, numColumns, fallingShape.value) {
          fallingShape := Some(RotateCounterclockwise(fallingShape.value));
          RotationsInverse(p);
          return false;
        }
        return true;
      }
    }

    /**
     * `let_shape_fall`, run on every tick and on the down key: lower the
     * falling piece one row; if that is blocked, raise it back and either end
     * the game (when it is blocked even there) or settle it.
     */
    method LetShapeFall(supplied: Piece) returns (outcome: Outcome)
      requires Valid() && WellFormed(supplied)
      modifies this
      ensures Valid()
      ensures old(fallingShape).None? ==>
        outcome == Returned(false) && grid == old(grid) && score == old(score) &&
        level == old(level) && fallingShape == old(fallingShape) && nextShape == old(nextShape)
      ensures old(fallingShape).Some? ==>
        var p := old(fallingShape).value;
        if !Blocked(old(grid), numRows, numColumns, Lower(p)) then
          outcome == Returned(true) && fallingShape == Some(Lower(p)) &&
          grid == old(grid) && score == old(score) && level == old(level) &&
          nextShape == old(nextShape)
        else if Blocked(old(grid), numRows, numColumns, p) then
          outcome == GameOver(old(score), old(level)) && fallingShape == Some(p) &&
          grid == old(grid) && score == old(score) && level == old(level) &&
          nextShape == old(nextShape)
        else
          Settled(old(grid), p, old(score), old(level)) &&
          Spawned(old(nextShape).value, supplied) && outcome == AfterSpawn(true)
      ensures old(FallingFits()) ==> FallingFits()
    {
      outcome := Returned(false);
      if fallingShape.Some? {
        ghost var p := fallingShape.value;
        ShiftsInverse(p);
        fallingShape := Some(Lower(fallingShape.value));
        if Blocked(grid, numRows, numColumns, fallingShape.value) {
          fallingShape := Some(Raise(fallingShape.value));
          if Blocked(grid, numRows, numColumns, fallingShape.value) {
            return GameOver(score, level);
          } else {
            PlaceableFits(grid, numRows, numColumns, p);
            outcome := SettleFallingShape(supplied);
          }
        }
        outcome := AfterSpawn(true);
      }
    }

    /** The lowering loop of `drop_shape`: down one row at a time until blocked. */
    method LowerUntilBlocked()
      requires Valid() && fallingShape.Some?
      modifies this`fallingShape
      ensures Valid()
      ensures fallingShape == Some(LowerBy(old(fallingShape).value,
        FallDepth(grid, numRows, numColumns, old(fallingShape).value)))
    {
      ghost var p := fallingShape.value;
      ghost var depth := 0;
      LowerByLower(p, 0);
      while !Blocked(grid, numRows, numColumns, fallingShape.value)
        invariant Valid() && fallingShape.Some?
        invariant depth >= 0 && fallingShape.value == LowerBy(p, depth)
        invariant forall m :: 0 <= m < depth ==> !Blocked(grid, numRows, numColumns, LowerBy(p, m))
        decreases numRows - (fallingShape.value.row + fallingShape.value.offsets[0].dr)
      {
        assert !CellBlocked(grid, numRows, numColumns, Blocks(fallingShape.value)[0]);
        LowerByLower(p, depth);
        fallingShape := Some(Lower(fallingShape.value));
        depth := depth + 1;
      }
      assert depth == FallDepth(grid, numRows, numColumns, p);
    }

    /**
     * `drop_shape`: lower the falling piece until it is blocked, raise it back
     * one row, then end the game if it is blocked there or settle it.
     */
    method DropShape(supplied: Piece) returns (outcome: Outcome)
      requires Valid() && WellFormed(supplied)
      modifies this
      ensures Valid()
      ensures old(fallingShape).None? ==>
        outcome == Returned(false) && grid == old(grid) && score == old(score) &&
        level == old(level) && fallingShape == old(fallingShape) && nextShape == old(nextShape)
      ensures old(fallingShape).Some? ==>
        var s := Shadow(old(grid), numRows, numColumns, old(fallingShape).value);
        if Blocked(old(grid), numRows, numColumns, s) then
          outcome == GameOver(old(score), old(level)) && fallingShape == Some(s) &&
          grid == old(grid) && score == old(score) && level == old(level) &&
          nextShape == old(nextShape)
        else
          Settled(old(grid), s, old(score), old(level)) &&
          Spawned(old(nextShape).value, supplied) && outcome == AfterSpawn(true)
      ensures old(FallingFits()) ==> FallingFits()
    {
      outcome := Returned(false);
      if fallingShape.Some? {
        ghost var p := fallingShape.value;
        LowerUntilBlocked();
        LowerByLower(p, FallDepth(grid, numRows, numColumns, p));
        fallingShape := Some(Raise(fallingShape.value));
        assert fallingShape.value == Shadow(grid, numRows, numColumns, p);
        if Blocked(grid, numRows, numColumns, fallingShape.value) {
          if !Blocked(grid, numRows, numColumns, p) {
            ShadowIsLowestFree(grid, numRows, numColumns, p);
          }
          return GameOver(score, level);
        }
        PlaceableFits(grid, numRows, numColumns, fallingShape.value);
        outcome := SettleFallingShape(supplied);
        outcome := AfterSpawn(true);
      }
    }
  }
}
