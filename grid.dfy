/**
 * The board's grid of locked blocks (`Board.array`) and the collision test.
 *
 * The grid is a list of `rows` rows of `cols` cells; a cell is empty (`None` in
 * the source) or holds a locked block that records its own coordinates.
 */
module Grid {
  import opened Pieces

  datatype Cell = Empty | Filled(block: Block)

  type Grid = seq<seq<Cell>>

  /** `rows` rows of `cols` cells each. */
  predicate Shaped(g: Grid, rows: int, cols: int) {
    |g| == rows && forall r :: 0 <= r < |g| ==> |g[r]| == cols
  }

  /** The grid invariant: a block stored at (r, c) records row r and column c. */
  predicate WellPlaced(g: Grid) {
    forall r, c :: 0 <= r < |g| && 0 <= c < |g[r]| && g[r][c].Filled? ==>
      g[r][c].block.row == r && g[r][c].block.column == c
  }

  /** The grid the constructor builds: every cell empty. */
  function EmptyGrid(rows: nat, cols: nat): (g: Grid)
    ensures Shaped(g, rows, cols) && WellPlaced(g)
    ensures forall r, c :: 0 <= r < rows && 0 <= c < cols ==> g[r][c] == Empty
  {
    seq(rows, _ => seq(cols, _ => Empty))
  }

  /** The grid with cell (r, c) replaced by `v` (`array[r][c] = v`). */
  function Put(g: Grid, r: int, c: int, v: Cell): (h: Grid)
    requires 0 <= r < |g| && 0 <= c < |g[r]|
    ensures |h| == |g| && forall i :: 0 <= i < |g| ==> |h[i]| == |g[i]|
    ensures forall i, j :: 0 <= i < |g| && 0 <= j < |g[i]| ==>
      h[i][j] == if i == r && j == c then v else g[i][j]
  {
    g[r := g[r][c := v]]
  }

  /** A block of a candidate piece that is off the grid or on a locked block. */
  predicate CellBlocked(g: Grid, rows: int, cols: int, b: Block)
    requires Shaped(g, rows, cols)
  {
    b.column < 0 || b.column >= cols || b.row < 0 || b.row >= rows ||
    g[b.row][b.column] != Empty
  }

  /** The source's scan over the blocks, which stops at the first blocked one. */
  predicate AnyBlocked(g: Grid, rows: int, cols: int, bs: seq<Block>)
    requires Shaped(g, rows, cols)
  {
    |bs| > 0 && (CellBlocked(g, rows, cols, bs[0]) || AnyBlocked(g, rows, cols, bs[1..]))
  }

  /** `shape_cannot_be_placed`: the one legality test every move goes through. */
  predicate Blocked(g: Grid, rows: int, cols: int, p: Piece)
    requires Shaped(g, rows, cols)
  {
    AnyBlocked(g, rows, cols, Blocks(p))
  }

  /** The scan answers true exactly when some block is blocked. */
  lemma {:induction false} AnyBlockedIff(g: Grid, rows: int, cols: int, bs: seq<Block>)
    requires Shaped(g, rows, cols)
    ensures AnyBlocked(g, rows, cols, bs) <==>
      exists i :: 0 <= i < |bs| && CellBlocked(g, rows, cols, bs[i])
  {
    if |bs| > 0 {
      AnyBlockedIff(g, rows, cols, bs[1..]);
      if CellBlocked(g, rows, cols, bs[0]) {
        assert CellBlocked(g, rows, cols, bs[0]);
      } else if AnyBlocked(g, rows, cols, bs[1..]) {
        var i :| 0 <= i < |bs[1..]| && CellBlocked(g, rows, cols, bs[1..][i]);
        assert bs[1..][i] == bs[i + 1];
      } else {
        forall i | 0 <= i < |bs|
          ensures !CellBlocked(g, rows, cols, bs[i])
        {
          if i > 0 {
            assert bs[1..][i - 1] == bs[i];
          }
        }
      }
    }
  }

  /**
   * A piece is blocked exactly when one of its blocks has a column outside
   * [0, cols), a row outside [0, rows), or lies on a locked block.
   */
  lemma BlockedIff(g: Grid, rows: int, cols: int, p: Piece)
    requires Shaped(g, rows, cols)
    ensures Blocked(g, rows, cols, p) <==>
      exists i :: 0 <= i < |Blocks(p)| &&
        (Blocks(p)[i].column < 0 || Blocks(p)[i].column >= cols ||
         Blocks(p)[i].row < 0 || Blocks(p)[i].row >= rows ||
         g[Blocks(p)[i].row][Blocks(p)[i].column].Filled?)
  {
    AnyBlockedIff(g, rows, cols, Blocks(p));
  }

  /** Every block lies inside the grid. */
  predicate Fits(rows: int, cols: int, bs: seq<Block>) {
    forall i :: 0 <= i < |bs| ==> 0 <= bs[i].row < rows && 0 <= bs[i].column < cols
  }

  /** A piece that is not blocked lies inside the grid on empty cells. */
  lemma PlaceableFits(g: Grid, rows: int, cols: int, p: Piece)
    requires Shaped(g, rows, cols) && !Blocked(g, rows, cols, p)
    ensures Fits(rows, cols, Blocks(p))
    ensures forall i :: 0 <= i < |Blocks(p)| ==> g[Blocks(p)[i].row][Blocks(p)[i].column] == Empty
  {
    AnyBlockedIff(g, rows, cols, Blocks(p));
    forall i | 0 <= i < |Blocks(p)|
      ensures 0 <= Blocks(p)[i].row < rows && 0 <= Blocks(p)[i].column < cols
      ensures g[Blocks(p)[i].row][Blocks(p)[i].column] == Empty
    {
      assert !CellBlocked(g, rows, cols, Blocks(p)[i]);
    }
  }

  /** Some block of `bs` sits at (r, c). */
  predicate Covers(bs: seq<Block>, r: int, c: int) {
    exists i :: 0 <= i < |bs| && bs[i].row == r && bs[i].column == c
  }

  /** The grid after writing each block at its own coordinates, in order (`_settle_shape`). */
  function Merge(g: Grid, rows: int, cols: int, bs: seq<Block>): (m: Grid)
    requires Shaped(g, rows, cols) && Fits(rows, cols, bs)
    ensures Shaped(m, rows, cols)
    ensures WellPlaced(g) ==> WellPlaced(m)
    decreases |bs|
  {
    if bs == [] then g
    else
      var last := bs[|bs| - 1];
      Put(Merge(g, rows, cols, bs[..|bs| - 1]), last.row, last.column, Filled(last))
  }

  /**
   * Locking a piece of one colour fills exactly the cells its blocks cover, each
   * with a block of that colour recording the cell's coordinates, and leaves
   * every other cell as it was.
   */
  lemma {:induction false} MergeCells(g: Grid, rows: int, cols: int, bs: seq<Block>, color: int)
    requires Shaped(g, rows, cols) && Fits(rows, cols, bs)
    requires forall i :: 0 <= i < |bs| ==> bs[i].color == color
    ensures forall r, c :: 0 <= r < rows && 0 <= c < cols ==>
      Merge(g, rows, cols, bs)[r][c] ==
        if Covers(bs, r, c) then Filled(Block(color, r, c)) else g[r][c]
    decreases |bs|
  {
    if bs != [] {
      var init := bs[..|bs| - 1];
      var last := bs[|bs| - 1];
      MergeCells(g, rows, cols, init, color);
      forall r, c | 0 <= r < rows && 0 <= c < cols
        ensures Merge(g, rows, cols, bs)[r][c] ==
          if Covers(bs, r, c) then Filled(Block(color, r, c)) else g[r][c]
      {
        if r == last.row && c == last.column {
          assert Covers(bs, r, c) by { assert bs[|bs| - 1] == last; }
        } else if Covers(init, r, c) {
          var i :| 0 <= i < |init| && init[i].row == r && init[i].column == c;
          assert bs[i] == init[i];
        } else {
          forall i | 0 <= i < |bs|
            ensures !(bs[i].row == r && bs[i].column == c)
          {
            if i < |init| {
              assert init[i] == bs[i];
            }
          }
        }
      }
    }
  }
}
