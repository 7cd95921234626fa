/**
 * Line clearing (`Board.remove_completed_lines`): which rows are full, how far
 * each surviving row drops, and the score and level the clear earns.
 */
module Lines {
  import opened Pieces
  import opened Grid

  const PointsPerLine := 20
  const PointsPerLevel := 200

  /** `all(row)`: every cell holds a block. */
  predicate RowFull(row: seq<Cell>) {
    forall c :: 0 <= c < |row| ==> row[c].Filled?
  }

  predicate Ascending(k: seq<int>) {
    forall i, j :: 0 <= i < j < |k| ==> k[i] < k[j]
  }

  /**
   * The indices of the full rows among the first `n` rows, top to bottom: the
   * `rows_removed` list the scan builds (by index, not by copy).
   */
  function FullRowsBefore(g: Grid, n: nat): (k: seq<int>)
    requires n <= |g|
    ensures Ascending(k)
    ensures forall i :: 0 <= i < |k| ==> 0 <= k[i] < n && RowFull(g[k[i]])
    ensures forall r :: 0 <= r < n && RowFull(g[r]) ==> r in k
  {
    if n == 0 then []
    else FullRowsBefore(g, n - 1) + (if RowFull(g[n - 1]) then [n - 1] else [])
  }

  /** The full rows of the whole grid. */
  function FullRows(g: Grid): (k: seq<int>) {
    FullRowsBefore(g, |g|)
  }

  /** `lowest_row_removed`: the bottom-most cleared row, or 0 when none is. */
  function LastOr0(k: seq<int>): (low: int) {
    if |k| == 0 then 0 else k[|k| - 1]
  }

  /** How many of the cleared rows `k` lie strictly below row `r` (have a larger index). */
  function RemovedBelow(k: seq<int>, r: int): (n: nat)
    ensures n <= |k|
  {
    if k == [] then 0 else (if k[0] > r then 1 else 0) + RemovedBelow(k[1..], r)
  }

  lemma {:induction false} AllCounted(k: seq<int>, y: int)
    requires forall i :: 0 <= i < |k| ==> k[i] > y
    ensures RemovedBelow(k, y) == |k|
  {
    if k != [] {
      AllCounted(k[1..], y);
    }
  }

  lemma {:induction false} NoneCounted(k: seq<int>, y: int)
    requires forall i :: 0 <= i < |k| ==> k[i] <= y
    ensures RemovedBelow(k, y) == 0
  {
    if k != [] {
      NoneCounted(k[1..], y);
    }
  }

  /**
   * Distinct cleared rows strictly between r1 and r2 number at most r2 - r1 - 1,
   * so a row r1 drops at most that much further than a surviving row r2 below it.
   */
  lemma {:induction false} CountGap(k: seq<int>, r1: int, r2: int)
    requires Ascending(k) && r1 < r2 && r2 !in k
    ensures RemovedBelow(k, r1) <= RemovedBelow(k, r2) + (r2 - r1 - 1)
  {
    if k != [] {
      var x := k[0];
      var rest := k[1..];
      assert Ascending(rest);
      assert forall i :: 0 <= i < |rest| ==> rest[i] > x by {
        forall i | 0 <= i < |rest| ensures rest[i] > x { assert rest[i] == k[i + 1]; }
      }
      if x <= r1 {
        CountGap(rest, r1, r2);
      } else if x < r2 {
        AllCounted(rest, x);
        AllCounted(rest, r1);
        CountGap(rest, x, r2);
      } else {
        assert x > r2;
        AllCounted(rest, r2);
        AllCounted(rest, r1);
      }
    }
  }

  /**
   * What compaction needs of the cleared rows: no row at or above `low` drops
   * past `low`, and two rows keep their order when the lower one survives, so
   * no surviving block is ever written over another.
   */
  predicate ShiftPlan(k: seq<int>, low: int) {
    (forall r :: 0 <= r <= low ==> r + RemovedBelow(k, r) <= low) &&
    (forall r1, r2 :: 0 <= r1 < r2 <= low && r2 !in k ==>
      r1 + RemovedBelow(k, r1) < r2 + RemovedBelow(k, r2))
  }

  /** The full rows of any grid, with their last index as `low`, form such a plan. */
  lemma PlanHolds(k: seq<int>, low: int)
    requires Ascending(k) && low == LastOr0(k)
    requires forall i :: 0 <= i < |k| ==> 0 <= k[i]
    ensures ShiftPlan(k, low)
  {
    assert forall i :: 0 <= i < |k| ==> k[i] <= low by {
      forall i | 0 <= i < |k| ensures k[i] <= low {
        if i < |k| - 1 { assert k[i] < k[|k| - 1]; }
      }
    }
    forall r | 0 <= r <= low
      ensures r + RemovedBelow(k, r) <= low
    {
      NoneCounted(k, low + 1);
      CountGap(k, r, low + 1);
    }
    forall r1, r2 | 0 <= r1 < r2 <= low && r2 !in k
      ensures r1 + RemovedBelow(k, r1) < r2 + RemovedBelow(k, r2)
    {
      CountGap(k, r1, r2);
    }
  }

  /** The grid once the full rows have been emptied (first phase of the clear). */
  function Blanked(g: Grid): (b: Grid)
    ensures |b| == |g| && forall r :: 0 <= r < |g| ==> |b[r]| == |g[r]|
    ensures forall r, c :: 0 <= r < |g| && 0 <= c < |g[r]| ==>
      b[r][c] == if RowFull(g[r]) then Empty else g[r][c]
  {
    seq(|g|, r requires 0 <= r < |g| =>
      if RowFull(g[r]) then seq(|g[r]|, _ => Empty) else g[r])
  }

  /** The row a block of row `r` drops to: `row_index + distance_to_drop`. */
  function Dest(k: seq<int>, r: int): (d: int) {
    r + RemovedBelow(k, r)
  }

  /** A grid that agrees with `Blanked(g)` cell by cell is `Blanked(g)`. */
  lemma BlankedByCells(g: Grid, h: Grid)
    requires |h| == |g| && forall r :: 0 <= r < |g| ==> |h[r]| == |g[r]|
    requires forall r, c :: 0 <= r < |g| && 0 <= c < |g[r]| ==>
      h[r][c] == if RowFull(g[r]) then Empty else g[r][c]
    ensures h == Blanked(g)
  {
    forall r | 0 <= r < |g|
      ensures h[r] == Blanked(g)[r]
    {
    }
  }

  /** Compaction of one column depends only on that column of the result. */
  lemma ColumnCompactedFrame(g: Grid, a1: Grid, a2: Grid, k: seq<int>, low: int, c: int)
    requires ColumnCompacted(g, a1, k, low, c)
    requires |a2| == |a1| && forall r :: 0 <= r < |a1| ==> |a2[r]| == |a1[r]|
    requires forall r :: 0 <= r < |a1| ==> a2[r][c] == a1[r][c]
    ensures ColumnCompacted(g, a2, k, low, c)
  {
    forall d | 1 <= d <= low && d < |g| && a2[d][c].Filled?
      ensures exists r :: 1 <= r <= low && r < |g| && g[r][c].Filled? && Dest(k, r) == d
    {
      assert a1[d][c].Filled?;
    }
  }

  /** A cell moved to row `r`: its block, if any, records the new row. */
  function Moved(cell: Cell, r: int): (moved: Cell) {
    match cell
    case Empty => Empty
    case Filled(b) => Filled(b.(row := r))
  }

  /**
   * Column `c` of `a` is column `c` of the blanked grid `g` compacted: rows 0
   * and below `low` are untouched, each block in rows 1..low drops by the
   * number of cleared rows below it, and every block in rows 1..low of `a`
   * arrived that way.
   */
  ghost predicate ColumnCompacted(g: Grid, a: Grid, k: seq<int>, low: int, c: int)
  {
    |a| == |g| && 0 <= c &&
    (forall r {:trigger g[r]} :: 0 <= r < |g| ==> c < |g[r]|) &&
    (forall r {:trigger a[r]} :: 0 <= r < |a| ==> c < |a[r]|) &&
    (forall r {:trigger a[r]} :: 0 <= r < |g| && (r == 0 || r > low) ==> a[r][c] == g[r][c]) &&
    (forall r :: 1 <= r <= low && r < |g| && g[r][c].Filled? ==>
      Dest(k, r) < |g| && a[Dest(k, r)][c] == Moved(g[r][c], Dest(k, r))) &&
    (forall d :: 1 <= d <= low && d < |g| && a[d][c].Filled? ==>
      exists r :: 1 <= r <= low && r < |g| && g[r][c].Filled? && Dest(k, r) == d)
  }

  /**
   * Part way through compacting column `c` of `g` into `a`, scanning upwards:
   * rows `i+1 .. low` are done, everything else is still as in `g`.
   */
  ghost predicate CompactedFrom(g: Grid, a: Grid, k: seq<int>, low: int, c: int, i: int)
  {
    |a| == |g| && 0 <= c && 0 <= i <= low && low < |g| &&
    (forall r {:trigger g[r]} :: 0 <= r < |g| ==> c < |g[r]|) &&
    (forall r {:trigger a[r]} :: 0 <= r < |a| ==> c < |a[r]|) &&
    (forall r {:trigger a[r]} :: 0 <= r < |g| && (r <= i || r > low) ==> a[r][c] == g[r][c]) &&
    (forall r :: i < r <= low && g[r][c].Filled? ==>
      Dest(k, r) < |g| && a[Dest(k, r)][c] == Moved(g[r][c], Dest(k, r))) &&
    (forall d :: i < d <= low && a[d][c].Filled? ==>
      exists r :: i < r <= low && g[r][c].Filled? && Dest(k, r) == d)
  }

  /** Once the scan has passed row 1 the column is compacted. */
  lemma CompactedFromDone(g: Grid, a: Grid, k: seq<int>, low: int, c: int)
    requires CompactedFrom(g, a, k, low, c, 0)
    ensures ColumnCompacted(g, a, k, low, c)
  {
  }

  /**
   * One step of the scan: moving the block of row `i` (if any) down by the
   * number of cleared rows below it extends the finished part to row `i`.
   */
  lemma CompactStep(g: Grid, a: Grid, k: seq<int>, low: int, c: int, i: int)
    requires CompactedFrom(g, a, k, low, c, i) && 1 <= i
    requires ShiftPlan(k, low)
    requires forall r :: 0 <= r < |g| && r in k ==> g[r][c] == Empty
    ensures Dest(k, i) < |a|
    ensures a[i][c].Filled? ==>
      CompactedFrom(g, Put(Put(a, i, c, Empty), Dest(k, i), c, Moved(a[i][c], Dest(k, i))), k, low, c, i - 1)
    ensures a[i][c].Empty? ==> CompactedFrom(g, a, k, low, c, i - 1)
  {
    var D := Dest(k, i);
    if a[i][c].Filled? {
      var b: seq<seq<Cell>> := Put(Put(a, i, c, Empty), D, c, Moved(a[i][c], D));
      assert i !in k;
      forall r: int | i < r <= low && g[r][c].Filled?
        ensures Dest(k, r) != D
      {
        assert r !in k;
      }
      forall d: int | i - 1 < d <= low && b[d][c].Filled?
        ensures exists r :: i - 1 < r <= low && g[r][c].Filled? && Dest(k, r) == d
      {
        if d == D {
          assert g[i][c].Filled? && Dest(k, i) == d;
        } else {
          assert a[d][c].Filled?;
        }
      }
    }
  }

  /** `after` is what clearing the full rows of `before` leaves, column by column. */
  ghost predicate LinesCleared(before: Grid, after: Grid, rows: int, cols: int) {
    Shaped(before, rows, cols) && Shaped(after, rows, cols) &&
    forall c :: 0 <= c < cols ==>
      ColumnCompacted(Blanked(before), after, FullRows(before), LastOr0(FullRows(before)), c)
  }

  /** Without full rows, nothing moves. */
  lemma NoFullRowsNoChange(g: Grid, rows: int, cols: int)
    requires Shaped(g, rows, cols) && |FullRows(g)| == 0
    ensures LinesCleared(g, g, rows, cols)
  {
    assert Blanked(g) == g by {
      forall r | 0 <= r < |g| ensures Blanked(g)[r] == g[r] {
        assert r !in FullRows(g);
      }
    }
  }

  /** One cell of a compacted column is determined by the blanked grid. */
  lemma CompactedCellDetermined(g: Grid, a1: Grid, a2: Grid, k: seq<int>, low: int, c: int, r: int)
    requires ColumnCompacted(g, a1, k, low, c) && ColumnCompacted(g, a2, k, low, c)
    requires 0 <= r < |g|
    ensures r < |a1| && r < |a2|
    ensures c < |a1[r]|
    ensures a1[r][c] == a2[r][c]
  {
    if 1 <= r <= low {
      if a1[r][c].Filled? {
        var s :| 1 <= s <= low && s < |g| && g[s][c].Filled? && Dest(k, s) == r;
        assert a1[r][c] == Moved(g[s][c], r) == a2[r][c];
      }
    }
  }

  /** The relation is a function: the grid a clear leaves is uniquely determined. */
  lemma LinesClearedDeterministic(before: Grid, a1: Grid, a2: Grid, rows: int, cols: int)
    requires LinesCleared(before, a1, rows, cols) && LinesCleared(before, a2, rows, cols)
    ensures a1 == a2
  {
    var g := Blanked(before);
    var k := FullRows(before);
    var low := LastOr0(k);
    forall r | 0 <= r < rows
      ensures a1[r] == a2[r]
    {
      forall c | 0 <= c < cols
        ensures a1[r][c] == a2[r][c]
      {
        CompactedCellDetermined(g, a1, a2, k, low, c, r);
      }
    }
  }

  /**
   * Each surviving block at row r, 1 <= r <= low, lands on row r + (number of cleared
   * rows below r) with its recorded row updated.
   */
  lemma SurvivorsDrop(before: Grid, after: Grid, rows: int, cols: int, r: int, c: int)
    requires LinesCleared(before, after, rows, cols)
    requires 1 <= r <= LastOr0(FullRows(before)) && r < rows && 0 <= c < cols
    requires !RowFull(before[r]) && before[r][c].Filled?
    ensures var d := r + RemovedBelow(FullRows(before), r);
      d < rows && after[d][c] == Filled(before[r][c].block.(row := d))
  {
    assert ColumnCompacted(Blanked(before), after, FullRows(before), LastOr0(FullRows(before)), c);
  }

  /** The row a block of row `r` ends on after the clear: rows 1..low drop, the others stay. */
  function Final(k: seq<int>, low: int, r: int): (f: int)
    ensures f >= r
  {
    if 1 <= r <= low then Dest(k, r) else r
  }

  /**
   * The clear loses no block: two surviving blocks of one column end on two
   * different rows of the grid, in their old order, each cell holding its
   * block with the recorded row updated.
   */
  lemma SurvivorsKept(before: Grid, after: Grid, rows: int, cols: int, r1: int, r2: int, c: int)
    requires LinesCleared(before, after, rows, cols) && WellPlaced(before)
    requires 0 <= r1 < r2 < rows && 0 <= c < cols
    requires !RowFull(before[r1]) && !RowFull(before[r2])
    requires before[r1][c].Filled? && before[r2][c].Filled?
    ensures var k := FullRows(before);
      var low := LastOr0(k);
      Final(k, low, r1) < Final(k, low, r2) < rows &&
      after[Final(k, low, r1)][c] == Moved(before[r1][c], Final(k, low, r1)) &&
      after[Final(k, low, r2)][c] == Moved(before[r2][c], Final(k, low, r2))
  {
    var k := FullRows(before);
    var low := LastOr0(k);
    var g := Blanked(before);
    PlanHolds(k, low);
    assert ColumnCompacted(g, after, k, low, c);
    assert r1 !in k && r2 !in k;
    assert g[r1][c] == before[r1][c] && g[r2][c] == before[r2][c];
  }

  /** `2 ** n`. */
  function Pow2(n: nat): (p: nat)
    ensures p >= 1
  {
    if n == 0 then 1 else 2 * Pow2(n - 1)
  }

  /** Points for clearing `k` rows at once: `points_per_line * 2 ** (k - 1)`, nothing for none. */
  function Award(k: nat): (points: nat)
    ensures points == 0 <==> k == 0
    ensures k >= 1 ==> points % PointsPerLine == 0
  {
    if k == 0 then 0 else PointsPerLine * Pow2(k - 1)
  }

  /** Each extra row cleared at once doubles the award: 20, 40, 80, 160. */
  lemma AwardDoubles(k: nat)
    requires k >= 1
    ensures Award(k + 1) == 2 * Award(k)
    ensures Award(1) == 20 && Award(2) == 40 && Award(3) == 80 && Award(4) == 160
  {
  }

  /**
   * The level after a clear of `k` rows that brought the score to `score`: up
   * by exactly one when rows were cleared and the score exceeds
   * `points_per_level * level`, otherwise unchanged.
   */
  function LevelAfter(score: int, level: int, k: nat): (l: int)
    ensures l == level || l == level + 1
    ensures l == level + 1 <==> k > 0 && score > PointsPerLevel * level
  {
    if k > 0 && score > PointsPerLevel * level then level + 1 else level
  }
}
