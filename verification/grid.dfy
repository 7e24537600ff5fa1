/**
 * The schedule grid: one row per worker, one column per day of the month.
 * A cell is what the data frame holds there: nothing yet (NaN), a working
 * mark `"X"`, a day off `""`, or the short-staffing flag `"?"`.
 */
module Schedule {
  import opened Sequences

  datatype Cell = Unset | Work | Off | Short

  /** Rows are workers, columns are days. */
  type Grid = seq<seq<Cell>>

  /** Every row has `cols` cells. */
  predicate IsGrid(g: Grid, cols: int)
  {
    forall w :: 0 <= w < |g| ==> |g[w]| == cols
  }

  /** Every row has a cell for day `d`. */
  predicate HasColumn(g: Grid, d: int)
  {
    0 <= d && forall w :: 0 <= w < |g| ==> d < |g[w]|
  }

  /** No cell carries the shortfall flag `"?"`. */
  predicate NoShort(g: Grid)
  {
    forall w, j :: 0 <= w < |g| && 0 <= j < |g[w]| ==> g[w][j] != Short
  }

  /** A fresh frame built from row and column labels only: every cell is NaN. */
  function Blank(rows: nat, cols: nat): (g: Grid)
    ensures |g| == rows && IsGrid(g, cols)
    ensures forall w, d :: 0 <= w < rows && 0 <= d < cols ==> g[w][d] == Unset
  {
    seq(rows, _ => seq(cols, _ => Unset))
  }

  /** The cells of day `d`, one per worker (`data_f.iloc[:, d]`). */
  function Column(g: Grid, d: int): (col: seq<Cell>)
    requires HasColumn(g, d)
    ensures |col| == |g| && forall w :: 0 <= w < |g| ==> col[w] == g[w][d]
  {
    seq(|g|, w requires 0 <= w < |g| => g[w][d])
  }

  /** The cells of a two-dimensional array as a grid value. */
  function Contents(a: array2<Cell>): (g: Grid)
    reads a
    ensures |g| == a.Length0 && IsGrid(g, a.Length1)
    ensures forall i, j :: 0 <= i < a.Length0 && 0 <= j < a.Length1 ==> g[i][j] == a[i, j]
  {
    seq(a.Length0, i requires 0 <= i < a.Length0 reads a =>
      seq(a.Length1, j requires 0 <= j < a.Length1 reads a => a[i, j]))
  }

  /** Two grids of the same shape that agree on every cell are equal. */
  lemma GridExt(g: Grid, h: Grid, cols: int)
    requires |g| == |h| && IsGrid(g, cols) && IsGrid(h, cols)
    requires forall i, j :: 0 <= i < |g| && 0 <= j < cols ==> g[i][j] == h[i][j]
    ensures g == h
  {
    forall i | 0 <= i < |g|
      ensures g[i] == h[i]
    {
      assert forall j :: 0 <= j < cols ==> g[i][j] == h[i][j];
    }
  }
}
