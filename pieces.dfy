/**
 * Falling pieces, as values.
 *
 * A piece is an anchor (row, column) plus the offsets of its four blocks from
 * that anchor.  Row 0 is the top of the grid and rows grow downwards, so
 * "lowering" a piece adds one to its rows.  Module `pieces` (the piece
 * catalogue, its rotations and `Shape.random`) is not part of this model: the
 * rotation below is a stand-in, a quarter turn of the offsets about the anchor,
 * chosen because it has the one property the board relies on, namely that a
 * clockwise turn is undone by a counterclockwise one.
 */
module Pieces {

  /** One square: its colour and its grid coordinates. */
  datatype Block = Block(color: int, row: int, column: int)

  /** Where a block sits relative to its piece's anchor. */
  datatype Offset = Offset(dr: int, dc: int)

  /** A piece of one colour: its anchor and the offsets of its blocks. */
  datatype Piece = Piece(color: int, row: int, column: int, offsets: seq<Offset>)

  const BlocksPerPiece := 4

  /** Every piece the game deals has four blocks. */
  predicate WellFormed(p: Piece) {
    |p.offsets| == BlocksPerPiece
  }

  /** The blocks of a piece at its current position (`shape.blocks`). */
  function Blocks(p: Piece): (bs: seq<Block>) {
    seq(|p.offsets|, i requires 0 <= i < |p.offsets| =>
      Block(p.color, p.row + p.offsets[i].dr, p.column + p.offsets[i].dc))
  }

  /** `move_to(column, row)`: the same shape with its anchor at (row, column). */
  function MoveTo(p: Piece, column: int, row: int): (q: Piece)
    ensures q.offsets == p.offsets && q.color == p.color
    ensures forall i :: 0 <= i < |Blocks(q)| ==>
      Blocks(q)[i].row - row == Blocks(p)[i].row - p.row &&
      Blocks(q)[i].column - column == Blocks(p)[i].column - p.column
  {
    p.(row := row, column := column)
  }

  /** Translation by `dr` rows and `dc` columns. */
  function Translate(p: Piece, dr: int, dc: int): (q: Piece)
    ensures q.offsets == p.offsets && q.color == p.color
    ensures |Blocks(q)| == |Blocks(p)|
    ensures forall i :: 0 <= i < |Blocks(p)| ==>
      Blocks(q)[i] == Block(p.color, Blocks(p)[i].row + dr, Blocks(p)[i].column + dc)
  {
    p.(row := p.row + dr, column := p.column + dc)
  }

  /** `shift_shape_left_by_one_column`. */
  function ShiftLeft(p: Piece): (q: Piece) { Translate(p, 0, -1) }

  /** `shift_shape_right_by_one_column`. */
  function ShiftRight(p: Piece): (q: Piece) { Translate(p, 0, 1) }

  /** `lower_shape_by_one_row`: one row down the screen. */
  function Lower(p: Piece): (q: Piece) { Translate(p, 1, 0) }

  /** `raise_shape_by_one_row`: one row up the screen. */
  function Raise(p: Piece): (q: Piece) { Translate(p, -1, 0) }

  /** The piece lowered `n` times (raised when `n` is negative). */
  function LowerBy(p: Piece, n: int): (q: Piece) { Translate(p, n, 0) }

  /** Each one-step translation is undone by the opposite one. */
  lemma ShiftsInverse(p: Piece)
    ensures ShiftRight(ShiftLeft(p)) == p && ShiftLeft(ShiftRight(p)) == p
    ensures Raise(Lower(p)) == p && Lower(Raise(p)) == p
  {
  }

  /** Lowering composes additively. */
  lemma LowerByLower(p: Piece, n: int)
    ensures LowerBy(Lower(p), n) == LowerBy(p, n + 1)
    ensures Raise(LowerBy(p, n)) == LowerBy(p, n - 1)
    ensures LowerBy(p, 0) == p
  {
  }

  /** Stand-in for `rotate_clockwise`: a quarter turn of every offset about the anchor. */
  function RotateClockwise(p: Piece): (q: Piece)
    ensures q.row == p.row && q.column == p.column && q.color == p.color
    ensures |q.offsets| == |p.offsets|
  {
    p.(offsets := seq(|p.offsets|, i requires 0 <= i < |p.offsets| =>
      Offset(p.offsets[i].dc, -p.offsets[i].dr)))
  }

  /** Stand-in for `rotate_counterclockwise`: the opposite quarter turn. */
  function RotateCounterclockwise(p: Piece): (q: Piece)
    ensures q.row == p.row && q.column == p.column && q.color == p.color
    ensures |q.offsets| == |p.offsets|
  {
    p.(offsets := seq(|p.offsets|, i requires 0 <= i < |p.offsets| =>
      Offset(-p.offsets[i].dc, p.offsets[i].dr)))
  }

  /** The two rotations undo each other, so a rejected rotation restores the exact prior cells. */
  lemma RotationsInverse(p: Piece)
    ensures RotateCounterclockwise(RotateClockwise(p)) == p
    ensures RotateClockwise(RotateCounterclockwise(p)) == p
  {
    var q := RotateCounterclockwise(RotateClockwise(p));
    assert q.offsets == p.offsets;
    var q' := RotateClockwise(RotateCounterclockwise(p));
    assert q'.offsets == p.offsets;
  }
}
