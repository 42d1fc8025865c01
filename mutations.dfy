/** The grid edits of the reducer as values: setting one cell, resizing and clearing
    (the reducer's `updateCell`, `updateGridSize` and `clearGrid` branches). */
module Mutations {
  import opened Boundaries
  import opened Life

  /** `updateCell`: exactly cell (row, column) takes the new state; the shape and every
      other cell are unchanged. */
  function SetCell(g: Grid, row: nat, column: nat, cellState: Cell): (r: Grid)
    requires row < |g| && column < |g[row]|
    ensures |r| == |g| && forall i :: 0 <= i < |g| ==> |r[i]| == |g[i]|
    ensures r[row][column] == cellState
    ensures forall i, j :: 0 <= i < |g| && 0 <= j < |g[i]| && (i, j) != (row, column) ==> r[i][j] == g[i][j]
  {
    var newRow: seq<Cell> := g[row][column := cellState];
    g[row := newRow]
  }

  /** `updateGridSize`: a rows x cols grid holding the old cell where the old grid has one
      and a dead cell elsewhere. */
  function Resize(g: Grid, rows: nat, cols: nat): (r: Grid)
    ensures |r| == rows && Rectangular(r) && (rows > 0 ==> Width(r) == cols)
  {
    seq(rows, i requires 0 <= i < rows =>
      seq(cols, j requires 0 <= j < cols => if i < |g| && j < |g[i]| then g[i][j] else 0))
  }

  /** `clearGrid`: same shape, every cell dead. */
  function Clear(g: Grid): (r: Grid)
    ensures |r| == |g| && forall i :: 0 <= i < |g| ==> |r[i]| == |g[i]|
    ensures AllDead(r)
  {
    seq(|g|, i requires 0 <= i < |g| => seq(|g[i]|, j => 0))
  }

  /** Resizing a grid to its own size changes nothing. */
  lemma ResizeSameSize(g: Grid)
    requires Rectangular(g)
    ensures Resize(g, |g|, Width(g)) == g
  {
    var same := Resize(g, |g|, Width(g));
    forall i | 0 <= i < |g| ensures same[i] == g[i] {
    }
  }

  /** Growing a grid and shrinking it back to its old size restores it. */
  lemma ResizeRoundTrip(g: Grid, rows: nat, cols: nat)
    requires Rectangular(g) && rows >= |g| && cols >= Width(g)
    ensures Resize(Resize(g, rows, cols), |g|, Width(g)) == g
  {
    var big := Resize(g, rows, cols);
    var back := Resize(big, |g|, Width(g));
    forall i | 0 <= i < |g| ensures back[i] == g[i] {
      forall j | 0 <= j < Width(g) ensures back[i][j] == g[i][j] {
        assert big[i][j] == g[i][j];
      }
    }
  }

  /** Shrinking keeps the overlapping top-left block and nothing else: resizing twice is
      resizing once, provided the first step did not cut off anything the second keeps. */
  lemma ResizeTwice(g: Grid, rows1: nat, cols1: nat, rows2: nat, cols2: nat)
    requires Rectangular(g) && (rows2 <= rows1 || rows1 >= |g|) && (cols2 <= cols1 || cols1 >= Width(g))
    ensures Resize(Resize(g, rows1, cols1), rows2, cols2) == Resize(g, rows2, cols2)
  {
    var once := Resize(g, rows1, cols1);
    var twice := Resize(once, rows2, cols2);
    var direct := Resize(g, rows2, cols2);
    forall i | 0 <= i < rows2 ensures twice[i] == direct[i] {
      forall j | 0 <= j < cols2 ensures twice[i][j] == direct[i][j] {
      }
    }
  }

  /** Clearing twice is clearing once. */
  lemma ClearIdempotent(g: Grid)
    ensures Clear(Clear(g)) == Clear(g)
  {
    var once := Clear(g);
    var twice := Clear(once);
    forall i | 0 <= i < |g| ensures twice[i] == once[i] {
    }
  }

  /** A cleared grid is a fixed point of every boundary mode's generation step. */
  lemma ClearedGridIsStable(g: Grid, b: Boundary)
    requires Steppable(g, b)
    ensures NextGrid(Clear(g), b) == Clear(g)
  {
    var c := Clear(g);
    assert |c| > 0 ==> Width(c) == Width(g);
    DeadGridStaysDead(c, b);
  }
}
