/**
 * Hard-drop geometry: how far the "lower until blocked" loop of `drop_shape`
 * (and of the shadow projection in `BoardDrawer.update_shadow`) takes a piece.
 */
module Drop {
  import opened Pieces
  import opened Grid

  /**
   * The number of times the loop lowers the piece: the first depth at which
   * the piece is blocked.  The loop stops because the piece's first block
   * leaves the grid after at most `rows` steps.
   */
  function FallDepth(g: Grid, rows: int, cols: int, p: Piece): (n: nat)
    requires Shaped(g, rows, cols) && WellFormed(p)
    ensures Blocked(g, rows, cols, LowerBy(p, n))
    ensures forall m :: 0 <= m < n ==> !Blocked(g, rows, cols, LowerBy(p, m))
    decreases rows - (p.row + p.offsets[0].dr)
  {
    LowerByLower(p, 0);
    if Blocked(g, rows, cols, p) then 0
    else
      assert !CellBlocked(g, rows, cols, Blocks(p)[0]);
      var n := 1 + FallDepth(g, rows, cols, Lower(p));
      LowerByLower(p, n - 1);
      assert forall m :: 1 <= m < n ==> LowerBy(p, m) == LowerBy(Lower(p), m - 1);
      n
  }

  /** The lowest free position: lowered until blocked, then raised back by one row. */
  function Shadow(g: Grid, rows: int, cols: int, p: Piece): (s: Piece)
    requires Shaped(g, rows, cols) && WellFormed(p)
    ensures WellFormed(s)
    ensures Blocked(g, rows, cols, Lower(s))
  {
    var n := FallDepth(g, rows, cols, p);
    LowerByLower(p, n - 1);
    LowerByLower(LowerBy(p, n - 1), 0);
    LowerBy(p, n - 1)
  }

  /**
   * From a free position, the shadow is the same piece some rows lower, every
   * position on the way is free, the shadow itself is free, and one more row
   * down is blocked.
   */
  lemma ShadowIsLowestFree(g: Grid, rows: int, cols: int, p: Piece)
    requires Shaped(g, rows, cols) && WellFormed(p)
    requires !Blocked(g, rows, cols, p)
    ensures var s := Shadow(g, rows, cols, p);
      s.row >= p.row && s == LowerBy(p, s.row - p.row) &&
      (forall m :: 0 <= m <= s.row - p.row ==> !Blocked(g, rows, cols, LowerBy(p, m))) &&
      !Blocked(g, rows, cols, s) && Blocked(g, rows, cols, Lower(s))
  {
    var n := FallDepth(g, rows, cols, p);
    LowerByLower(p, 0);
    assert n >= 1;
    LowerByLower(p, n - 1);
    LowerByLower(LowerBy(p, n - 1), 0);
    assert Lower(LowerBy(p, n - 1)) == LowerBy(p, n);
  }

  /** From a blocked position the loop does not lower at all: the shadow is one row up. */
  lemma ShadowOfBlocked(g: Grid, rows: int, cols: int, p: Piece)
    requires Shaped(g, rows, cols) && WellFormed(p)
    requires Blocked(g, rows, cols, p)
    ensures Shadow(g, rows, cols, p) == Raise(p)
  {
    LowerByLower(p, 0);
  }

  /**
   * Soft drops reach the same resting place: a free piece that can go one row
   * lower has the same shadow from there, and one that cannot is its own shadow.
   */
  lemma SoftDropAgrees(g: Grid, rows: int, cols: int, p: Piece)
    requires Shaped(g, rows, cols) && WellFormed(p)
    requires !Blocked(g, rows, cols, p)
    ensures !Blocked(g, rows, cols, Lower(p)) ==>
      Shadow(g, rows, cols, Lower(p)) == Shadow(g, rows, cols, p)
    ensures Blocked(g, rows, cols, Lower(p)) ==> Shadow(g, rows, cols, p) == p
  {
    LowerByLower(p, 0);
    var n := FallDepth(g, rows, cols, p);
    if Blocked(g, rows, cols, Lower(p)) {
      assert LowerBy(p, 1) == Lower(p);
      assert n == 1;
    } else {
      var k := FallDepth(g, rows, cols, Lower(p));
      LowerByLower(p, k);
      LowerByLower(p, k - 1);
      forall m | 0 <= m < k + 1
        ensures !Blocked(g, rows, cols, LowerBy(p, m))
      {
        if m > 0 {
          LowerByLower(p, m - 1);
        }
      }
      assert n == k + 1;
      LowerByLower(p, k - 1);
    }
  }
}
