/** Vote grids stored row by row (cell (col, row) at index row * cols + col) and the
    local-maximum test both Hough detectors run on them: a cell is a peak when no in-bounds
    cell of the 5 x 5 window of offsets {-2, -1, 0, 1, 2} * step strictly beats it; ties
    never eliminate a cell. */
module PeakWindow {

  predicate InGrid(cols: int, rows: int, col: int, row: int)
  {
    0 <= col < cols && 0 <= row < rows
  }

  lemma CellIndexInRange(cols: int, rows: int, col: int, row: int)
    requires InGrid(cols, rows, col, row)
    ensures 0 <= row * cols + col < cols * rows
  {
    assert row * cols <= (rows - 1) * cols;
  }

  /** The vote count of an in-bounds cell. */
  function Cell(grid: seq<nat>, cols: nat, rows: nat, col: int, row: int): nat
    requires |grid| == cols * rows
    requires InGrid(cols, rows, col, row)
  {
    CellIndexInRange(cols, rows, col, row);
    grid[row * cols + col]
  }

  /** The window offsets -2*step, -step, 0, step, 2*step. */
  predicate IsOffset(d: int, step: int)
  {
    d == -2 * step || d == -step || d == 0 || d == step || d == 2 * step
  }

  /** The cell at offset (dc, dr) from (col, row) exists and has strictly more than `votes`. */
  predicate Beats(grid: seq<nat>, cols: nat, rows: nat, col: int, row: int, dc: int, dr: int, votes: int)
    requires |grid| == cols * rows
  {
    InGrid(cols, rows, col + dc, row + dr) && Cell(grid, cols, rows, col + dc, row + dr) > votes
  }

  /** No in-bounds cell of the window around (col, row) has strictly more than `votes`. */
  ghost predicate IsWindowMax(grid: seq<nat>, cols: nat, rows: nat, col: int, row: int, step: int, votes: int)
    requires |grid| == cols * rows
  {
    forall dr, dc :: IsOffset(dr, step) && IsOffset(dc, step) ==> !Beats(grid, cols, rows, col, row, dc, dr, votes)
  }

  /** The `isMax` flag loop of both detectors: row offsets outside, column offsets inside,
      leaving the inner loop at the first stronger neighbour and the outer one as soon as
      the flag is down. (The line detector nests the two axes the other way round; the flag
      it computes is the same, since it only asks whether some window cell is stronger.) */
  method CheckWindowMax(grid: seq<nat>, cols: nat, rows: nat, col: int, row: int, step: int, votes: int)
    returns (isMax: bool)
    requires |grid| == cols * rows
    requires step > 0
    ensures isMax <==> IsWindowMax(grid, cols, rows, col, row, step, votes)
  {
    isMax := true;
    var dr := -2 * step;
    while dr <= 2 * step && isMax
      invariant dr == -2 * step || dr == -step || dr == 0 || dr == step || dr == 2 * step || dr == 3 * step
      invariant isMax ==> forall r, c :: IsOffset(r, step) && r < dr && IsOffset(c, step) ==>
                            !Beats(grid, cols, rows, col, row, c, r, votes)
      invariant !isMax ==> exists r, c :: IsOffset(r, step) && IsOffset(c, step) &&
                             Beats(grid, cols, rows, col, row, c, r, votes)
      decreases 3 * step - dr, isMax
    {
      var beaten := RowBeats(grid, cols, rows, col, row, step, dr, votes);
      if beaten {
        isMax := false;
      }
      dr := dr + step;
    }
  }

  /** The inner loop over the column offsets of one row offset `dr`: it leaves at the first
      stronger cell and reports whether there was one. */
  method RowBeats(grid: seq<nat>, cols: nat, rows: nat, col: int, row: int, step: int, dr: int, votes: int)
    returns (beaten: bool)
    requires |grid| == cols * rows
    requires step > 0
    ensures beaten <==> exists c :: IsOffset(c, step) && Beats(grid, cols, rows, col, row, c, dr, votes)
  {
    var dc := -2 * step;
    while dc <= 2 * step
      invariant dc == -2 * step || dc == -step || dc == 0 || dc == step || dc == 2 * step || dc == 3 * step
      invariant forall c :: IsOffset(c, step) && c < dc ==> !Beats(grid, cols, rows, col, row, c, dr, votes)
      decreases 3 * step - dc
    {
      var nr := row + dr;
      var nc := col + dc;
      if 0 <= nr < rows && 0 <= nc < cols {
        if Cell(grid, cols, rows, nc, nr) > votes {
          assert Beats(grid, cols, rows, col, row, dc, dr, votes);
          return true;
        }
      }
      dc := dc + step;
    }
    return false;
  }
}
