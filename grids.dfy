/** The reducer's loops over the grid array: counting neighbours, computing a generation
    into a fresh array, setting a cell in place, resizing and clearing. Each is proved
    against the value-level functions of `Life` and `Mutations` through `Cells`. */
module Grids {
  import opened Boundaries
  import opened Life
  import opened Mutations

  /** The contents of a grid array as rows of cells. */
  function Cells(a: array2<Cell>): (g: Grid)
    reads a
    ensures |g| == a.Length0 && Rectangular(g) && (a.Length0 > 0 ==> Width(g) == a.Length1)
    ensures forall i, j {:trigger a[i, j]} :: 0 <= i < a.Length0 && 0 <= j < a.Length1 ==> g[i][j] == a[i, j]
  {
    seq(a.Length0, i requires 0 <= i < a.Length0 reads a =>
      seq(a.Length1, j requires 0 <= j < a.Length1 reads a => a[i, j]))
  }

  /** The body of the reducer's inner loop for offset (i, j): the cell the boundary mode
      reads for that offset, or nothing (0) when it reads none. */
  method ReadOffset(grid: array2<Cell>, b: Boundary, l: nat, m: nat, i: int, j: int) returns (v: Cell)
    requires l < grid.Length0 && m < grid.Length1 && Supported(grid.Length0, grid.Length1, b)
    requires IsOffset(i) && IsOffset(j)
    ensures v == Contribution(Cells(grid), b, l, m, i, j)
  {
    var p := Resolve(grid.Length0, grid.Length1, b, l, m, i, j);
    if p.At? {
      v := grid[p.row, p.column];
    } else {
      v := 0;
    }
  }

  /** The reducer's inner loop over the offsets (i, -1), (i, 0), (i, 1): the value each
      reads under the boundary mode is added to the running count. */
  method CountOffsetRow(grid: array2<Cell>, b: Boundary, l: nat, m: nat, i: int, alive0: int) returns (alive: int)
    requires l < grid.Length0 && m < grid.Length1 && Supported(grid.Length0, grid.Length1, b)
    requires IsOffset(i) && alive0 == RunningCount(Cells(grid), b, l, m, i, -1)
    ensures alive == RunningCount(Cells(grid), b, l, m, i + 1, -1)
  {
    ghost var g := Cells(grid);
    alive := alive0;
    for j := -1 to 2
      invariant alive == RunningCount(g, b, l, m, i, j)
    {
      var v := ReadOffset(grid, b, l, m, i, j);
      alive := alive + v;
    }
  }

  /** The neighbour count of cell (l, m): the reducer's two nested loops add the value
      each of the nine offsets reads under the boundary mode, then the cell itself is
      subtracted. */
  method CountAliveNeighbors(grid: array2<Cell>, b: Boundary, l: nat, m: nat) returns (alive: int)
    requires l < grid.Length0 && m < grid.Length1 && Supported(grid.Length0, grid.Length1, b)
    ensures alive == AliveNeighbors(Cells(grid), b, l, m)
  {
    ghost var g := Cells(grid);
    alive := 0;
    for i := -1 to 2
      invariant alive == RunningCount(g, b, l, m, i, -1)
    {
      alive := CountOffsetRow(grid, b, l, m, i, alive);
    }
    alive := alive - grid[l, m];
  }

  /** One cell of `nextGeneration`: the life rule applied to the cell and its count is
      stored at (l, m) of `newGrid`; no other cell changes. */
  method StoreNextState(grid: array2<Cell>, ghost g: Grid, b: Boundary, l: nat, m: nat, newGrid: array2<Cell>)
    requires l < grid.Length0 && m < grid.Length1 && Supported(grid.Length0, grid.Length1, b)
    requires g == Cells(grid) && newGrid != grid && newGrid.Length0 == grid.Length0 && newGrid.Length1 == grid.Length1
    modifies newGrid
    ensures newGrid[l, m] == NextCell(g, b, l, m)
    ensures forall r, c :: 0 <= r < newGrid.Length0 && 0 <= c < newGrid.Length1 && (r, c) != (l, m) ==>
      newGrid[r, c] == old(newGrid[r, c])
  {
    var alive := CountAliveNeighbors(grid, b, l, m);
    if grid[l, m] == 1 && alive < 2 {
      newGrid[l, m] := 0;
    } else if grid[l, m] == 1 && alive > 3 {
      newGrid[l, m] := 0;
    } else if grid[l, m] == 0 && alive == 3 {
      newGrid[l, m] := 1;
    } else {
      newGrid[l, m] := grid[l, m];
    }
  }

  /** One row of `nextGeneration`: row l of `newGrid` receives the next state of row l
      of `grid`; every other row is left as it was. */
  method NextRow(grid: array2<Cell>, b: Boundary, l: nat, newGrid: array2<Cell>)
    requires l < grid.Length0 && Supported(grid.Length0, grid.Length1, b)
    requires newGrid != grid && newGrid.Length0 == grid.Length0 && newGrid.Length1 == grid.Length1
    modifies newGrid
    ensures forall c :: 0 <= c < grid.Length1 ==> newGrid[l, c] == NextCell(Cells(grid), b, l, c)
    ensures forall r, c :: 0 <= r < grid.Length0 && r != l && 0 <= c < grid.Length1 ==>
      newGrid[r, c] == old(newGrid[r, c])
  {
    ghost var g := Cells(grid);
    for m := 0 to grid.Length1
      invariant forall c :: 0 <= c < m ==> newGrid[l, c] == NextCell(g, b, l, c)
      invariant forall r, c :: 0 <= r < grid.Length0 && r != l && 0 <= c < grid.Length1 ==>
        newGrid[r, c] == old(newGrid[r, c])
    {
      StoreNextState(grid, g, b, l, m, newGrid);
    }
  }

  /** `nextGeneration`: a fresh array of the same shape whose every cell follows the life
      rule applied to the old grid; the old grid is only read. */
  method NextGeneration(grid: array2<Cell>, b: Boundary) returns (newGrid: array2<Cell>)
    requires Supported(grid.Length0, grid.Length1, b)
    ensures fresh(newGrid)
    ensures newGrid.Length0 == grid.Length0 && newGrid.Length1 == grid.Length1
    ensures Cells(newGrid) == NextGrid(Cells(grid), b)
  {
    ghost var g := Cells(grid);
    newGrid := new Cell[grid.Length0, grid.Length1]((_, _) => 0);
    for l := 0 to grid.Length0
      invariant forall r, c :: 0 <= r < l && 0 <= c < grid.Length1 ==> newGrid[r, c] == NextCell(g, b, r, c)
    {
      NextRow(grid, b, l, newGrid);
    }
    IsNextGrid(g, b, Cells(newGrid));
  }

  /** `updateCell`: the one cell is overwritten in place; the array keeps its shape. */
  method UpdateCell(grid: array2<Cell>, row: nat, column: nat, cellState: Cell)
    requires row < grid.Length0 && column < grid.Length1
    modifies grid
    ensures Cells(grid) == SetCell(old(Cells(grid)), row, column, cellState)
  {
    ghost var before := Cells(grid);
    grid[row, column] := cellState;
    ghost var after := SetCell(before, row, column, cellState);
    forall r | 0 <= r < grid.Length0 ensures Cells(grid)[r] == after[r] {
    }
  }

  /** An all-dead array, built row by row as the initial grid and the first loop of
      `updateGridSize` build it. */
  method DeadGrid(rows: nat, cols: nat) returns (grid: array2<Cell>)
    ensures fresh(grid) && grid.Length0 == rows && grid.Length1 == cols
    ensures forall i, j :: 0 <= i < rows && 0 <= j < cols ==> grid[i, j] == 0
  {
    grid := new Cell[rows, cols];
    for i := 0 to rows
      invariant forall r, c :: 0 <= r < i && 0 <= c < cols ==> grid[r, c] == 0
    {
      for j := 0 to cols
        invariant forall r, c :: 0 <= r < i && 0 <= c < cols ==> grid[r, c] == 0
        invariant forall c :: 0 <= c < j ==> grid[i, c] == 0
      {
        grid[i, j] := 0;
      }
    }
  }

  /** `updateGridSize`: a fresh numOfRows x numOfColumns array holding the old cell where
      the old grid has one and a dead cell elsewhere. */
  method UpdateGridSize(grid: array2<Cell>, numOfRows: nat, numOfColumns: nat) returns (newGrid: array2<Cell>)
    ensures fresh(newGrid)
    ensures newGrid.Length0 == numOfRows && newGrid.Length1 == numOfColumns
    ensures forall i, j :: 0 <= i < numOfRows && 0 <= j < numOfColumns ==>
      newGrid[i, j] == if i < grid.Length0 && j < grid.Length1 then grid[i, j] else 0
    ensures Cells(newGrid) == Resize(Cells(grid), numOfRows, numOfColumns)
  {
    newGrid := DeadGrid(numOfRows, numOfColumns);
    for i := 0 to numOfRows
      invariant forall r, c :: 0 <= r < i && 0 <= c < numOfColumns ==>
        newGrid[r, c] == if r < grid.Length0 && c < grid.Length1 then grid[r, c] else 0
      invariant forall r, c :: i <= r < numOfRows && 0 <= c < numOfColumns ==> newGrid[r, c] == 0
    {
      for j := 0 to numOfColumns
        invariant forall r, c :: 0 <= r < i && 0 <= c < numOfColumns ==>
          newGrid[r, c] == if r < grid.Length0 && c < grid.Length1 then grid[r, c] else 0
        invariant forall r, c :: i < r < numOfRows && 0 <= c < numOfColumns ==> newGrid[r, c] == 0
        invariant forall c :: 0 <= c < j ==>
          newGrid[i, c] == if i < grid.Length0 && c < grid.Length1 then grid[i, c] else 0
        invariant forall c :: j <= c < numOfColumns ==> newGrid[i, c] == 0
      {
        if i < grid.Length0 && j < grid.Length1 {
          newGrid[i, j] := grid[i, j];
        }
      }
    }
    ghost var resized := Resize(Cells(grid), numOfRows, numOfColumns);
    forall r | 0 <= r < numOfRows ensures Cells(newGrid)[r] == resized[r] {
    }
  }

  /** `clearGrid`: a fresh all-dead array of the same shape. */
  method ClearGrid(grid: array2<Cell>) returns (newGrid: array2<Cell>)
    ensures fresh(newGrid)
    ensures newGrid.Length0 == grid.Length0 && newGrid.Length1 == grid.Length1
    ensures Cells(newGrid) == Clear(Cells(grid))
  {
    newGrid := new Cell[grid.Length0, grid.Length1]((_, _) => 0);
    ghost var cleared := Clear(Cells(grid));
    forall r | 0 <= r < grid.Length0 ensures Cells(newGrid)[r] == cleared[r] {
    }
  }
}
