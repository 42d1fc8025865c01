/** One generation of the game as a value: the neighbour count of every boundary
    mode and the B3/S23 rule (the reducer's `nextGeneration` branch). */
module Life {
  import opened Boundaries

  /** A cell is dead (0) or alive (1). */
  type Cell = c: int | c == 0 || c == 1

  /** A grid as a sequence of rows. */
  type Grid = seq<seq<Cell>>

  function Width(g: Grid): (w: nat) {
    if |g| == 0 then 0 else |g[0]|
  }

  predicate Rectangular(g: Grid) {
    forall r :: 0 <= r < |g| ==> |g[r]| == Width(g)
  }

  predicate AllDead(g: Grid) {
    forall r, c :: 0 <= r < |g| && 0 <= c < |g[r]| ==> g[r][c] == 0
  }

  /** A grid on which a generation under `b` is defined. */
  predicate Steppable(g: Grid, b: Boundary) {
    Rectangular(g) && Supported(|g|, Width(g), b)
  }

  predicate IsCellOf(g: Grid, l: int, m: int) {
    InGrid(|g|, Width(g), l, m)
  }

  /** What offset (i, j) adds to the running neighbour count of cell (l, m): one
      exactly when the offset reads a live cell. */
  function Contribution(g: Grid, b: Boundary, l: int, m: int, i: int, j: int): (v: Cell)
    requires Steppable(g, b) && IsCellOf(g, l, m) && IsOffset(i) && IsOffset(j)
    ensures v == 1 <==> var p := Resolve(|g|, Width(g), b, l, m, i, j); p.At? && g[p.row][p.column] == 1
  {
    match Resolve(|g|, Width(g), b, l, m, i, j)
    case Nothing => 0
    case At(r, c) => g[r][c]
  }

  /** The running count of the reducer's two nested loops when they reach offset (i, j):
      the contributions of every offset before (i, j) in row-major order. Offset (i, -1)
      is the start of row i, and (2, -1) lies past the last row. The `|g|` in the
      measure never decides termination; it only stops the verifier from unfolding
      the count at literal offsets all the way down in every proof that mentions it. */
  function RunningCount(g: Grid, b: Boundary, l: int, m: int, i: int, j: int): (n: int)
    requires Steppable(g, b) && IsCellOf(g, l, m)
    requires -1 <= i <= 2 && -1 <= j <= 2 && (i == 2 ==> j == -1)
    ensures 0 <= n <= 3 * (i + 1) + (j + 1)
    decreases i + 1, j + 1, |g|
  {
    if j == -1 then
      if i == -1 then 0 else RunningCount(g, b, l, m, i - 1, 2)
    else
      RunningCount(g, b, l, m, i, j - 1) + Contribution(g, b, l, m, i, j - 1)
  }

  /** The sum over all nine offsets, the cell's own value included. */
  function NeighborSum(g: Grid, b: Boundary, l: int, m: int): (n: int)
    requires Steppable(g, b) && IsCellOf(g, l, m)
    ensures 0 <= n <= 9
  {
    RunningCount(g, b, l, m, 2, -1)
  }

  /** One pass of the inner loop adds the three offsets of row i. */
  lemma RowTerms(g: Grid, b: Boundary, l: int, m: int, i: int)
    requires Steppable(g, b) && IsCellOf(g, l, m) && IsOffset(i)
    ensures RunningCount(g, b, l, m, i + 1, -1) == RunningCount(g, b, l, m, i, -1) +
      Contribution(g, b, l, m, i, -1) + Contribution(g, b, l, m, i, 0) + Contribution(g, b, l, m, i, 1)
  {
    assert RunningCount(g, b, l, m, i, 0) == RunningCount(g, b, l, m, i, -1) + Contribution(g, b, l, m, i, -1);
    assert RunningCount(g, b, l, m, i, 1) == RunningCount(g, b, l, m, i, 0) + Contribution(g, b, l, m, i, 0);
    assert RunningCount(g, b, l, m, i, 2) == RunningCount(g, b, l, m, i, 1) + Contribution(g, b, l, m, i, 1);
  }

  /** The nine-offset sum written out term by term. */
  lemma NeighborSumTerms(g: Grid, b: Boundary, l: int, m: int)
    requires Steppable(g, b) && IsCellOf(g, l, m)
    ensures NeighborSum(g, b, l, m) ==
      Contribution(g, b, l, m, -1, -1) + Contribution(g, b, l, m, -1, 0) + Contribution(g, b, l, m, -1, 1) +
      Contribution(g, b, l, m, 0, -1) + Contribution(g, b, l, m, 0, 0) + Contribution(g, b, l, m, 0, 1) +
      Contribution(g, b, l, m, 1, -1) + Contribution(g, b, l, m, 1, 0) + Contribution(g, b, l, m, 1, 1)
  {
    RowTerms(g, b, l, m, -1);
    RowTerms(g, b, l, m, 0);
    RowTerms(g, b, l, m, 1);
  }

  /** The number of live neighbours: the nine-offset sum less the cell itself. Because the
      cell's own value is one of the nine, the count lies in 0..8, and in 0..4 at a
      projective-plane corner, where only five offsets read anything. */
  function AliveNeighbors(g: Grid, b: Boundary, l: int, m: int): (n: int)
    requires Steppable(g, b) && IsCellOf(g, l, m)
    ensures 0 <= n <= 8
    ensures b == ProjectivePlane && IsCorner(|g|, Width(g), l, m) ==> n <= 4
  {
    SelfIsCounted(g, b, l, m);
    NeighborSum(g, b, l, m) - g[l][m]
  }

  /** The nine-offset sum holds the cell's own value once, and at a projective-plane
      corner the four offsets that read nothing add nothing. */
  lemma SelfIsCounted(g: Grid, b: Boundary, l: int, m: int)
    requires Steppable(g, b) && IsCellOf(g, l, m)
    ensures 0 <= NeighborSum(g, b, l, m) - g[l][m] <= 8
    ensures b == ProjectivePlane && IsCorner(|g|, Width(g), l, m) ==> NeighborSum(g, b, l, m) - g[l][m] <= 4
  {
    SelfIsRead(|g|, Width(g), b, l, m);
    NeighborSumTerms(g, b, l, m);
    if b == ProjectivePlane && IsCorner(|g|, Width(g), l, m) {
      forall i, j | IsOffset(i) && IsOffset(j) && !(i == -1 || j == -1)
        ensures Contribution(g, b, l, m, i, j) == 0
      {
        ProjectiveCornerReads(|g|, Width(g), l, m, i, j);
      }
    }
  }

  /** B3/S23: a cell is alive next generation exactly when it is alive with two or three
      live neighbours, or dead with exactly three. */
  function LifeRule(cell: Cell, alive: int): (next: Cell)
    ensures next == 1 <==> (cell == 1 && (alive == 2 || alive == 3)) || (cell == 0 && alive == 3)
  {
    if cell == 1 && alive < 2 then 0
    else if cell == 1 && alive > 3 then 0
    else if cell == 0 && alive == 3 then 1
    else cell
  }

  /** The state of cell (l, m) in the next generation: alive exactly when it has three
      live neighbours, or two and is alive itself. */
  function NextCell(g: Grid, b: Boundary, l: int, m: int): (next: Cell)
    requires Steppable(g, b) && IsCellOf(g, l, m)
    ensures next == 1 <==> AliveNeighbors(g, b, l, m) == 3 || (g[l][m] == 1 && AliveNeighbors(g, b, l, m) == 2)
  {
    LifeRule(g[l][m], AliveNeighbors(g, b, l, m))
  }

  /** The next generation keeps the number of rows and columns. */
  function NextGrid(g: Grid, b: Boundary): (next: Grid)
    requires Steppable(g, b)
    ensures |next| == |g| && Width(next) == Width(g) && Rectangular(next)
  {
    seq(|g|, l requires 0 <= l < |g| =>
      seq(Width(g), m requires 0 <= m < Width(g) => NextCell(g, b, l, m)))
  }

  /** A grid of the same shape whose every cell is the rule's outcome is the next
      generation. */
  lemma IsNextGrid(g: Grid, b: Boundary, h: Grid)
    requires Steppable(g, b) && |h| == |g| && forall r :: 0 <= r < |h| ==> |h[r]| == Width(g)
    requires forall r, c :: 0 <= r < |g| && 0 <= c < Width(g) ==> h[r][c] == NextCell(g, b, r, c)
    ensures h == NextGrid(g, b)
  {
    var next := NextGrid(g, b);
    forall r | 0 <= r < |g| ensures h[r] == next[r] {
    }
  }

  // ---------------------------------------------------------------------------
  // The hard boundary against a count that skips the cell itself

  const EightOffsets: seq<(int, int)> :=
    [(-1, -1), (-1, 0), (-1, 1), (0, -1), (0, 1), (1, -1), (1, 0), (1, 1)]

  /** 1 when the position lies in the grid and holds a live cell. */
  function LiveCell(g: Grid, r: int, c: int): (v: nat)
    requires Rectangular(g)
    ensures v <= 1
  {
    if InGrid(|g|, Width(g), r, c) && g[r][c] == 1 then 1 else 0
  }

  /** The live cells among the in-grid positions at the given offsets from (l, m). */
  function LiveAt(g: Grid, l: int, m: int, offsets: seq<(int, int)>): (n: nat)
    requires Rectangular(g)
    ensures n <= |offsets|
  {
    if offsets == [] then 0
    else LiveCell(g, l + offsets[0].0, m + offsets[0].1) + LiveAt(g, l, m, offsets[1..])
  }

  /** Under the hard boundary, "sum the whole 3 x 3 block, then subtract the cell" counts
      exactly the live cells among the eight surrounding positions that lie in the grid. */
  lemma HardCountMatchesReference(g: Grid, l: int, m: int)
    requires Rectangular(g) && IsCellOf(g, l, m)
    ensures AliveNeighbors(g, Hard, l, m) == LiveAt(g, l, m, EightOffsets)
  {
    EightOffsetsTerms(g, l, m);
    NeighborSumTerms(g, Hard, l, m);
    forall i, j | IsOffset(i) && IsOffset(j)
      ensures Contribution(g, Hard, l, m, i, j) == LiveCell(g, l + i, m + j)
    {
      HardContribution(g, l, m, i, j);
    }
  }

  /** The reference count written out as its eight positions. */
  lemma EightOffsetsTerms(g: Grid, l: int, m: int)
    requires Rectangular(g)
    ensures LiveAt(g, l, m, EightOffsets) ==
      LiveCell(g, l - 1, m - 1) + LiveCell(g, l - 1, m) + LiveCell(g, l - 1, m + 1) +
      LiveCell(g, l, m - 1) + LiveCell(g, l, m + 1) +
      LiveCell(g, l + 1, m - 1) + LiveCell(g, l + 1, m) + LiveCell(g, l + 1, m + 1)
  {
    var o := EightOffsets;
    assert LiveAt(g, l, m, o[8..]) == 0;
    assert LiveAt(g, l, m, o[7..]) == LiveCell(g, l + 1, m + 1) + LiveAt(g, l, m, o[8..]);
    assert LiveAt(g, l, m, o[6..]) == LiveCell(g, l + 1, m) + LiveAt(g, l, m, o[7..]);
    assert LiveAt(g, l, m, o[5..]) == LiveCell(g, l + 1, m - 1) + LiveAt(g, l, m, o[6..]);
    assert LiveAt(g, l, m, o[4..]) == LiveCell(g, l, m + 1) + LiveAt(g, l, m, o[5..]);
    assert LiveAt(g, l, m, o[3..]) == LiveCell(g, l, m - 1) + LiveAt(g, l, m, o[4..]);
    assert LiveAt(g, l, m, o[2..]) == LiveCell(g, l - 1, m + 1) + LiveAt(g, l, m, o[3..]);
    assert LiveAt(g, l, m, o[1..]) == LiveCell(g, l - 1, m) + LiveAt(g, l, m, o[2..]);
    assert LiveAt(g, l, m, o) == LiveCell(g, l - 1, m - 1) + LiveAt(g, l, m, o[1..]);
  }

  lemma HardContribution(g: Grid, l: int, m: int, i: int, j: int)
    requires Rectangular(g) && IsCellOf(g, l, m) && IsOffset(i) && IsOffset(j)
    ensures Contribution(g, Hard, l, m, i, j) == LiveCell(g, l + i, m + j)
  {
  }

  // ---------------------------------------------------------------------------
  // The Klein bottle against the textbook mirror

  function MirrorRead(g: Grid, l: int, m: int, i: int, j: int): (v: Cell)
    requires Rectangular(g) && IsCellOf(g, l, m) && IsOffset(i) && IsOffset(j)
  {
    var p := KleinMirror(|g|, Width(g), l, m, i, j);
    g[p.row][p.column]
  }

  /** The Klein-bottle count of the reducer equals the count over the textbook
      identification, which mirrors the column as `cols - 1 - mod(m + j, cols)`. */
  lemma KleinCountMatchesMirror(g: Grid, l: int, m: int)
    requires Rectangular(g) && IsCellOf(g, l, m)
    ensures NeighborSum(g, KleinBottle, l, m) ==
      MirrorRead(g, l, m, -1, -1) + MirrorRead(g, l, m, -1, 0) + MirrorRead(g, l, m, -1, 1) +
      MirrorRead(g, l, m, 0, -1) + MirrorRead(g, l, m, 0, 0) + MirrorRead(g, l, m, 0, 1) +
      MirrorRead(g, l, m, 1, -1) + MirrorRead(g, l, m, 1, 0) + MirrorRead(g, l, m, 1, 1)
  {
    NeighborSumTerms(g, KleinBottle, l, m);
    forall i, j | IsOffset(i) && IsOffset(j)
      ensures 0 <= l + i < |g| ==> Contribution(g, KleinBottle, l, m, i, j) == MirrorRead(g, l, m, i, j)
      ensures !(0 <= l + i < |g|) ==> Contribution(g, KleinBottle, l, m, i, j) == MirrorRead(g, l, m, i, -j)
    {
      KleinMatchesMirror(|g|, Width(g), l, m, i, j);
    }
  }

  // ---------------------------------------------------------------------------
  // Whole-grid properties

  /** An all-dead grid stays all dead in every boundary mode. */
  lemma DeadGridStaysDead(g: Grid, b: Boundary)
    requires Steppable(g, b) && AllDead(g)
    ensures NextGrid(g, b) == g
  {
    var next := NextGrid(g, b);
    forall l | 0 <= l < |g| ensures next[l] == g[l] {
      forall m | 0 <= m < Width(g) ensures next[l][m] == g[l][m] {
        NeighborSumTerms(g, b, l, m);
        forall i, j | IsOffset(i) && IsOffset(j) ensures Contribution(g, b, l, m, i, j) == 0 {
          DeadContribution(g, b, l, m, i, j);
        }
      }
    }
  }

  lemma DeadContribution(g: Grid, b: Boundary, l: int, m: int, i: int, j: int)
    requires Steppable(g, b) && AllDead(g) && IsCellOf(g, l, m) && IsOffset(i) && IsOffset(j)
    ensures Contribution(g, b, l, m, i, j) == 0
  {
  }

  // ---------------------------------------------------------------------------
  // The projective-plane corners

  /** At a projective-plane corner the count is twice the opposite corner plus the two
      cells next to the opposite corner; the corner's own in-grid neighbours count only
      when they are among these, as on grids with two rows or two columns. */
  lemma ProjectiveCornerCount(g: Grid, l: int, m: int)
    requires Steppable(g, ProjectivePlane) && IsCellOf(g, l, m) && IsCorner(|g|, Width(g), l, m)
    ensures var rows, cols := |g|, Width(g);
      var r, c := if l == 0 then rows - 1 else 0, if m == 0 then cols - 1 else 0;
      var r', c' := if l == 0 then rows - 2 else 1, if m == 0 then cols - 2 else 1;
      AliveNeighbors(g, ProjectivePlane, l, m) == 2 * (g[r][c] as int) + g[r'][c] as int + g[r][c'] as int
  {
    var b := ProjectivePlane;
    NeighborSumTerms(g, b, l, m);
    forall i, j | IsOffset(i) && IsOffset(j) && !(i == -1 || j == -1)
      ensures Contribution(g, b, l, m, i, j) == 0
    {
      ProjectiveCornerReads(|g|, Width(g), l, m, i, j);
    }
  }

  /** On a 2 x 2 grid the table reaches every neighbour of the top-left corner, and the
      diagonal one, which is also the opposite corner, counts twice. */
  lemma TwoByTwoCornerCount(g: Grid)
    requires Steppable(g, ProjectivePlane) && |g| == 2 && Width(g) == 2
    ensures AliveNeighbors(g, ProjectivePlane, 0, 0) ==
      2 * (g[1][1] as int) + g[1][0] as int + g[0][1] as int
  {
    ProjectiveCornerCount(g, 0, 0);
  }

  /** By that count a live top-left corner dies under the projective plane whenever the opposite
      corner and the two cells next to it are dead, whatever the rest of the grid holds:
      a 2 x 2 block in that corner of a 4 x 4 grid is not a still life there. */
  lemma LiveCornerDiesWhenOppositeDead(g: Grid)
    requires Steppable(g, ProjectivePlane) && |g| >= 2 && Width(g) >= 2
    requires var rows, cols := |g|, Width(g);
      g[rows - 1][cols - 1] == 0 && g[rows - 2][cols - 1] == 0 && g[rows - 1][cols - 2] == 0
    ensures AliveNeighbors(g, ProjectivePlane, 0, 0) == 0
    ensures NextCell(g, ProjectivePlane, 0, 0) == 0
  {
    ProjectiveCornerCount(g, 0, 0);
  }
}
