/** The hook's state, its six actions and the reducer that dispatches on them
    (`useGameOfLife` and `gameOfLifeReducer`). The grid is an array the reducer either
    replaces by a fresh one or, for `updateCell`, changes in place. */
module GameOfLife {
  import opened Boundaries
  import opened Life
  import opened Mutations
  import Grids

  datatype State = State(grid: array2<Cell>, boundary: Boundary)

  datatype Action =
    | NextGeneration
    | UpdateCell(row: nat, column: nat, cellState: Cell)
    | UpdateGrid(newGrid: array2<Cell>)
    | UpdateGridSize(numOfRows: nat, numOfColumns: nat)
    | ClearGrid
    | UpdateGridBoundary(newBoundary: Boundary)

  /** The state the hook starts from: an all-dead numOfRows x numOfColumns grid and the
      given boundary. */
  method InitialState(numOfRows: nat, numOfColumns: nat, boundary: Boundary) returns (state: State)
    ensures fresh(state.grid)
    ensures state.grid.Length0 == numOfRows && state.grid.Length1 == numOfColumns
    ensures AllDead(Grids.Cells(state.grid)) && state.boundary == boundary
  {
    var grid := Grids.DeadGrid(numOfRows, numOfColumns);
    state := State(grid, boundary);
  }

  /** The reducer. Every action but `updateGridBoundary` keeps the boundary; every action
      but `updateCell` leaves the old grid array untouched. */
  method Reduce(state: State, action: Action) returns (next: State)
    requires action.NextGeneration? ==> Supported(state.grid.Length0, state.grid.Length1, state.boundary)
    requires action.UpdateCell? ==> action.row < state.grid.Length0 && action.column < state.grid.Length1
    modifies if action.UpdateCell? then {state.grid} else {}
    ensures action.NextGeneration? ==>
      fresh(next.grid) && next.boundary == state.boundary &&
      next.grid.Length0 == state.grid.Length0 && next.grid.Length1 == state.grid.Length1 &&
      Grids.Cells(next.grid) == NextGrid(Grids.Cells(state.grid), state.boundary)
    ensures action.UpdateCell? ==>
      next == state &&
      Grids.Cells(next.grid) == SetCell(old(Grids.Cells(state.grid)), action.row, action.column, action.cellState)
    ensures action.UpdateGrid? ==> next == State(action.newGrid, state.boundary)
    ensures action.UpdateGridSize? ==>
      fresh(next.grid) && next.boundary == state.boundary &&
      next.grid.Length0 == action.numOfRows && next.grid.Length1 == action.numOfColumns &&
      Grids.Cells(next.grid) == Resize(Grids.Cells(state.grid), action.numOfRows, action.numOfColumns)
    ensures action.ClearGrid? ==>
      fresh(next.grid) && next.boundary == state.boundary &&
      next.grid.Length0 == state.grid.Length0 && next.grid.Length1 == state.grid.Length1 &&
      Grids.Cells(next.grid) == Clear(Grids.Cells(state.grid))
    ensures action.UpdateGridBoundary? ==> next == State(state.grid, action.newBoundary)
  {
    match action
    case NextGeneration =>
      var newGrid := Grids.NextGeneration(state.grid, state.boundary);
      next := State(newGrid, state.boundary);
    case UpdateCell(row, column, cellState) =>
      Grids.UpdateCell(state.grid, row, column, cellState);
      next := State(state.grid, state.boundary);
    case UpdateGrid(newGrid) =>
      next := State(newGrid, state.boundary);
    case UpdateGridSize(numOfRows, numOfColumns) =>
      var newGrid := Grids.UpdateGridSize(state.grid, numOfRows, numOfColumns);
      next := State(newGrid, state.boundary);
    case ClearGrid =>
      var newGrid := Grids.ClearGrid(state.grid);
      next := State(newGrid, state.boundary);
    case UpdateGridBoundary(newBoundary) =>
      next := State(state.grid, newBoundary);
  }

  /** `updateCell` followed by `nextGeneration`: the new generation is computed from the
      grid with the cell already set, because the first action wrote into the array the
      second one reads. */
  method UpdateThenStep(state: State, row: nat, column: nat, cellState: Cell) returns (next: State)
    requires row < state.grid.Length0 && column < state.grid.Length1
    requires Supported(state.grid.Length0, state.grid.Length1, state.boundary)
    modifies state.grid
    ensures Steppable(SetCell(old(Grids.Cells(state.grid)), row, column, cellState), state.boundary)
    ensures Grids.Cells(next.grid) ==
      NextGrid(SetCell(old(Grids.Cells(state.grid)), row, column, cellState), state.boundary)
    ensures next.boundary == state.boundary
  {
    var updated := Reduce(state, UpdateCell(row, column, cellState));
    next := Reduce(updated, NextGeneration);
  }
}
