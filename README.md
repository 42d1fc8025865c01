# Game of Life reducer, modelled in Dafny

This project models the state logic of the `useGameOfLife` React hook. The hook
holds a grid of cells (each 0 = dead or 1 = alive) and a boundary mode. Its reducer
handles six actions:

- `nextGeneration` computes one step of Conway's B3/S23 rule. The neighbour count
  depends on the boundary: `hard` (outside cells are dead), `torus`, `kleinBottle`
  or `projectivePlane`.
- `updateCell` sets one cell in place.
- `updateGrid` replaces the grid.
- `updateGridSize` resizes the grid. It keeps the overlapping cells and fills the rest
  with dead cells.
- `clearGrid` kills every cell.
- `updateGridBoundary` switches the boundary mode.

The model has two layers.

- **Values** (`Arith`, `Boundaries`, `Life`, `Mutations`). A grid is a `seq<seq<Cell>>`.
  - `Boundaries.Resolve` states which cell, if any, each of the nine neighbour offsets
    of a cell reads. It has the same branches and index expressions as the reducer.
    Its `mod` is `Arith.Mod`, the non-negative remainder; `Arith.ModIsJsMod` proves
    it equal to the reducer's `((n % m) + m) % m` with JavaScript's truncating `%`
    (`Arith.JsMod`).
  - `Life` sums the nine offsets in the reducer's loop order (`RunningCount` is the
    count the nested loops hold at each offset), subtracts the cell itself and applies
    the rule.
  - `Mutations` states the grid edits.
- **Arrays** (`Grids`, `GameOfLife`). The reducer's loops run over an `array2<Cell>`.
  Each loop is proved against the value layer through `Grids.Cells`, the contents of
  the array as rows. The source repeats the offset loops once per boundary mode; the
  model has one loop nest that reads through `Boundaries.Resolve`, with the inner loop
  (`Grids.CountOffsetRow`) and its body (`Grids.ReadOffset`) as methods of their own.
  `GameOfLife.Reduce` dispatches on the action.
  - `nextGeneration`, `updateGridSize` and `clearGrid` return a fresh array.
  - `updateGrid` returns the array the caller passed in.
  - `updateGridBoundary` returns the old array unchanged.
  - `updateCell` writes into the existing array and returns a state holding that same
    array, as the reducer does.

In two places the model's behaviour differs from the usual identification; the model follows the source:

- **Klein-bottle mirror.** When an offset crosses the top or bottom edge, the source
  mirrors the column as `mod(cols - m + j - 1, cols)`. That is the mirror of `m - j`;
  the textbook mirror is of `m + j`.
  - The two differ offset by offset.
  - Each row of three offsets reads the same three cells under both, so the Klein-bottle
    counts agree (`Life.KleinCountMatchesMirror`).
  - The projective plane's edge branches use the same kind of mirror
    (`Boundaries.ProjectiveEdgeReads` gives their reads in closed form); no count
    lemma compares them with a textbook identification.
- **Projective-plane corners.** At a corner cell only five offsets read anything:
  - (-1,-1) reads the corner itself;
  - (-1,0) and (0,-1) both read the opposite corner;
  - (1,-1) and (-1,1) read the cells next to the opposite corner.

  The other four offsets, (0,0) included, read nothing
  (`Boundaries.ProjectiveCornerReads`, `Life.ProjectiveCornerCount`). The corner's own
  in-grid neighbours therefore count only when the table reaches them, which happens on
  grids with two rows or two columns (on a 2 x 2 grid the diagonal neighbour is the
  opposite corner and counts twice, `Life.TwoByTwoCornerCount`). So on a grid of at least 3 x 3 a 2 x 2 block in a
  corner is not a still life under the projective plane: its corner cell dies whenever
  the opposite corner and the two cells next to it are dead, whatever the rest of the
  grid holds (`Life.LiveCornerDiesWhenOppositeDead`).

The source's types map to these Dafny types:

- `Boundary` (hooks/use-game-of-life/use-game-of-life.tsx line 4) is `Boundaries.Boundary`, with one constructor per mode.
- A cell `0 | 1` and a grid `(0 | 1)[][]` (line 7) are `Life.Cell` and `Life.Grid` on
  the value side, and `array2<Cell>` on the array side.
- `GameOfLifeState` (lines 6-9) is `GameOfLife.State`.
- `GameOfLifeAction` and its payloads (lines 11-66) are `GameOfLife.Action`, one
  constructor per action type.

## Model

All source paths are `hooks/use-game-of-life/use-game-of-life.tsx`.

| member | source | states |
|---|---|---|
| Arith.JsRem | hooks/use-game-of-life/use-game-of-life.tsx:265-267 | JavaScript's `%`: the remainder lies strictly inside (-d, d), has the dividend's sign, differs from the dividend by a multiple of d, and equals the Euclidean remainder for non-negative dividends |
| Arith.JsMod | hooks/use-game-of-life/use-game-of-life.tsx:266-268 | the reducer's literal formula `((n % m) + m) % m` with truncating `%`; its result lies in [0, d) |
| Arith.Mod | hooks/use-game-of-life/use-game-of-life.tsx:266-268 | `mod` returns an index in [0, d) and is the identity on [0, d) |
| Arith.ModIsJsMod | hooks/use-game-of-life/use-game-of-life.tsx:266-268 | the source's `((n % m) + m) % m` with truncating `%` (JsMod) equals Mod, the non-negative remainder, for every integer n |
| Arith.ModMirror | hooks/use-game-of-life/use-game-of-life.tsx:129-131 | mirroring commutes with `mod`: `mod(d - 1 - x, d) == d - 1 - mod(x, d)` |
| Boundaries.Resolve | hooks/use-game-of-life/use-game-of-life.tsx:100-192 | the cell each offset reads under each boundary; every cell read lies inside the grid |
| Boundaries.InteriorOffsetReadsItself | hooks/use-game-of-life/use-game-of-life.tsx:103-106 | except at a projective-plane corner, an offset that stays in the grid reads exactly that cell in all four modes |
| Boundaries.SelfIsRead | hooks/use-game-of-life/use-game-of-life.tsx:100-192 | the cell's own value is among the nine read: offset (0,0), or (-1,-1) at a projective-plane corner |
| Boundaries.TorusWraps | hooks/use-game-of-life/use-game-of-life.tsx:111-118 | the torus reads every offset, wrapping both indices; row -1 becomes rows-1, row rows becomes 0, and likewise for columns |
| Boundaries.TorusCornerDiagonal | hooks/use-game-of-life/use-game-of-life.tsx:115 | on an N x N torus, offset (-1,-1) of (0,0) reads (N-1, N-1) |
| Boundaries.KleinVerticalWrap | hooks/use-game-of-life/use-game-of-life.tsx:126-132 | crossing the top or bottom edge of a Klein bottle wraps the row and mirrors the column: (0,c) reads (rows-1, cols-1-c) and (rows-1,c) reads (0, cols-1-c) |
| Boundaries.KleinMirror | hooks/use-game-of-life/use-game-of-life.tsx:120-135 | the textbook Klein-bottle identification, which mirrors `m + j`, always reads an in-grid cell |
| Boundaries.KleinMatchesMirror | hooks/use-game-of-life/use-game-of-life.tsx:120-135 | the source's offset j reads what the textbook's offset j reads inside the rows, and what its offset -j reads across the top or bottom edge |
| Boundaries.ProjectiveCornerReads | hooks/use-game-of-life/use-game-of-life.tsx:140-161 | at a projective-plane corner an offset reads a cell exactly when i == -1 or j == -1; (-1,0) and (0,-1) read the opposite corner |
| Boundaries.ProjectiveEdgeReads | hooks/use-game-of-life/use-game-of-life.tsx:161-189 | away from the corners every offset reads a cell; crossing a column edge reads row rows-1-(l-i), crossing a row edge reads column cols-1-(m-j) |
| Life.Contribution | hooks/use-game-of-life/use-game-of-life.tsx:100-192 | what one offset adds to `aliveNeighbors`: 1 exactly when the cell the boundary mode reads is alive, 0 when it reads a dead cell or nothing |
| Life.RunningCount | hooks/use-game-of-life/use-game-of-life.tsx:98-192 | the value of the `aliveNeighbors` accumulator when the nested loops reach offset (i, j); it lies between 0 and the number of offsets already visited |
| Life.NeighborSum | hooks/use-game-of-life/use-game-of-life.tsx:98-192 | the accumulator after all nine offsets, before the subtraction; it lies in 0..9 |
| Life.RowTerms | hooks/use-game-of-life/use-game-of-life.tsx:101-108 | one pass of the inner loop raises the running count by exactly the values read at the three offsets of that row |
| Life.NeighborSumTerms | hooks/use-game-of-life/use-game-of-life.tsx:100-109 | the count over the nested loops is the sum of the values read at all nine offsets |
| Life.AliveNeighbors | hooks/use-game-of-life/use-game-of-life.tsx:98-195 | the count after subtracting the cell lies in 0..8, and in 0..4 at a projective-plane corner |
| Life.SelfIsCounted | hooks/use-game-of-life/use-game-of-life.tsx:194-195 | the nine-offset sum includes the cell's own value, so subtracting it leaves 0..8 (0..4 at a projective-plane corner) |
| Life.NextCell | hooks/use-game-of-life/use-game-of-life.tsx:194-210 | the next state of one cell: alive exactly when it has three live neighbours, or two and is alive itself |
| Life.LifeRule | hooks/use-game-of-life/use-game-of-life.tsx:197-210 | the next state is alive if and only if the cell is alive with 2 or 3 neighbours, or dead with exactly 3 |
| Life.NextGrid | hooks/use-game-of-life/use-game-of-life.tsx:92-96 | the next generation has the same number of rows and columns |
| Life.IsNextGrid | hooks/use-game-of-life/use-game-of-life.tsx:92-214 | a grid of the same shape whose every cell is the rule's outcome is the next generation |
| Life.HardCountMatchesReference | hooks/use-game-of-life/use-game-of-life.tsx:100-109 | under the hard boundary the count equals the number of live cells among the in-grid positions of the eight surrounding offsets |
| Life.KleinCountMatchesMirror | hooks/use-game-of-life/use-game-of-life.tsx:120-135 | the Klein-bottle nine-offset sum equals the sum over the textbook mirror identification |
| Life.DeadGridStaysDead | hooks/use-game-of-life/use-game-of-life.tsx:92-214 | an all-dead grid is a fixed point of a generation in every boundary mode |
| Life.ProjectiveCornerCount | hooks/use-game-of-life/use-game-of-life.tsx:140-161 | at a projective-plane corner the count is twice the opposite corner plus its two neighbours in the corner's row and column |
| Life.TwoByTwoCornerCount | hooks/use-game-of-life/use-game-of-life.tsx:140-161 | on a 2 x 2 projective plane the top-left corner counts all three of its own neighbours, the diagonal one twice |
| Life.LiveCornerDiesWhenOppositeDead | hooks/use-game-of-life/use-game-of-life.tsx:140-161 | the top-left corner counts no live neighbour and is dead next generation under the projective plane when the opposite corner and the two cells next to it are dead, whatever the rest of the grid holds |
| Mutations.SetCell | hooks/use-game-of-life/use-game-of-life.tsx:217-222 | exactly the one cell takes the new state; the shape and every other cell are unchanged |
| Mutations.Resize | hooks/use-game-of-life/use-game-of-life.tsx:230-248 | the result has exactly numOfRows rows of numOfColumns cells |
| Mutations.Clear | hooks/use-game-of-life/use-game-of-life.tsx:250-254 | same shape as before, every cell dead |
| Mutations.ResizeSameSize | hooks/use-game-of-life/use-game-of-life.tsx:230-248 | resizing a grid to its own size changes nothing |
| Mutations.ResizeRoundTrip | hooks/use-game-of-life/use-game-of-life.tsx:230-248 | growing a grid and shrinking it back restores it |
| Mutations.ResizeTwice | hooks/use-game-of-life/use-game-of-life.tsx:230-248 | two resizes equal one resize to the second size, when the first did not cut off cells the second keeps |
| Mutations.ClearIdempotent | hooks/use-game-of-life/use-game-of-life.tsx:250-254 | clearing twice is clearing once |
| Mutations.ClearedGridIsStable | hooks/use-game-of-life/use-game-of-life.tsx:250-254 | a cleared grid is unchanged by a generation in every boundary mode |
| Grids.Cells | hooks/use-game-of-life/use-game-of-life.tsx:7-8 | the array's contents as rectangular rows, cell for cell |
| Grids.ReadOffset | hooks/use-game-of-life/use-game-of-life.tsx:100-192 | the value one offset adds in the boundary mode's inner loop body: the cell that mode reads, or nothing |
| Grids.CountOffsetRow | hooks/use-game-of-life/use-game-of-life.tsx:100-192 | the inner loop over j (one per boundary mode in the source) adds the three offsets of row i to the running count |
| Grids.CountAliveNeighbors | hooks/use-game-of-life/use-game-of-life.tsx:98-195 | the reducer's two nested offset loops followed by the subtraction compute exactly the specified count |
| Grids.StoreNextState | hooks/use-game-of-life/use-game-of-life.tsx:98-210 | the rule's if-chain stores the specified next state at cell (l, m) and changes no other cell |
| Grids.NextRow | hooks/use-game-of-life/use-game-of-life.tsx:96-211 | the loop over columns fills row l with the next states and leaves the other rows untouched |
| Grids.NextGeneration | hooks/use-game-of-life/use-game-of-life.tsx:92-214 | a fresh array of the same shape holding exactly the next generation of the old grid |
| Grids.UpdateCell | hooks/use-game-of-life/use-game-of-life.tsx:217-222 | the array in place becomes the old contents with the one cell set |
| Grids.DeadGrid | hooks/use-game-of-life/use-game-of-life.tsx:75-79 | a fresh rows x cols array of dead cells |
| Grids.UpdateGridSize | hooks/use-game-of-life/use-game-of-life.tsx:230-248 | a fresh numOfRows x numOfColumns array holding the old cell where one exists and a dead cell elsewhere |
| Grids.ClearGrid | hooks/use-game-of-life/use-game-of-life.tsx:250-254 | a fresh all-dead array of the same shape |
| GameOfLife.InitialState | hooks/use-game-of-life/use-game-of-life.tsx:70-86 | the hook starts from a fresh all-dead numOfRows x numOfColumns grid and the given boundary |
| GameOfLife.UpdateThenStep | hooks/use-game-of-life/use-game-of-life.tsx:92-222 | `updateCell` then `nextGeneration`: the new generation is that of the old grid with the cell set, since the first action wrote into the array the second reads |
| GameOfLife.Reduce | hooks/use-game-of-life/use-game-of-life.tsx:88-263 | each action's new state: a fresh next-generation, resized or cleared grid with the boundary kept; the same state with one cell set in place; the given grid; or the same grid with the new boundary |

## Left out

- React plumbing is not modelled: `useReducer`, the dispatch function and the hook's
  returned pair. `InitialState` and `Reduce` stand for the initial value and the
  reducer.
- The UI components (board, cell, page) that render the grid and dispatch actions are
  not part of this model.
- `components/grid/grid.tsx` (line 6) calls the hook without a boundary, so its state
  holds an undefined boundary. A `nextGeneration` then matches no branch, and the count
  is 0 minus the cell itself, so every live cell dies. `Boundary` has only the four
  named modes, so this case cannot be expressed.
- Boundaries.Resolve and Grids.NextGeneration require `Supported`, which excludes a
  projective-plane grid with exactly one row or one column.
  - With one row, the corner branch reads row `rows - 2 = -1` and the reducer throws.
  - With one column, it reads column `-1`. The count becomes `NaN`, every comparison in
    the rule is false, and the corner cells keep their state.
- Grids.UpdateCell and GameOfLife.Reduce require the cell of `updateCell` to lie inside
  the grid. In the source an out-of-range row throws, and an out-of-range column
  lengthens that one row, making the grid jagged.
- GameOfLife.Action takes sizes and indices as `nat`. Negative or fractional sizes and
  indices are not modelled.
- The final `return state` of the reducer is not modelled: a typed action always
  matches one of the six branches.
- Grids: each grid is one `array2`, not an array of row arrays. So the model does not
  capture that `updateGrid` may hand the reducer rows shared with other code.
- After `updateCell` the previous state object also sees the change, because the
  source mutates its grid. The model shows this through `Reduce` returning a state
  that holds the same array, and through `GameOfLife.UpdateThenStep`.
