/** The four boundary topologies of the reducer and, for each, which cell of the
    grid a neighbour offset of a cell reads in the reducer's four counting branches
    (`hard`, `torus`, `kleinBottle`, `projectivePlane`). */
module Boundaries {
  import opened Arith

  datatype Boundary = Hard | Torus | KleinBottle | ProjectivePlane

  /** What one neighbour offset contributes: nothing, or the value of one cell. */
  datatype Read = Nothing | At(row: int, column: int)

  predicate IsOffset(k: int) {
    -1 <= k <= 1
  }

  /** The grid sizes on which a generation is defined: the projective-plane corner
      table reads row `rows - 2` and column `columns - 2`. */
  predicate Supported(rows: int, cols: int, b: Boundary) {
    b == ProjectivePlane && rows > 0 && cols > 0 ==> rows >= 2 && cols >= 2
  }

  predicate IsCorner(rows: int, cols: int, l: int, m: int) {
    (l == 0 || l == rows - 1) && (m == 0 || m == cols - 1)
  }

  predicate InGrid(rows: int, cols: int, r: int, c: int) {
    0 <= r < rows && 0 <= c < cols
  }

  /** The cell read for offset (i, j) of cell (l, m) under boundary `b`, with the index
      expressions of the reducer; every cell read lies inside the grid. */
  function Resolve(rows: int, cols: int, b: Boundary, l: int, m: int, i: int, j: int): (p: Read)
    requires InGrid(rows, cols, l, m) && IsOffset(i) && IsOffset(j)
    requires Supported(rows, cols, b)
    ensures p.At? ==> InGrid(rows, cols, p.row, p.column)
  {
    var rowIn := 0 <= l + i < rows;
    var colIn := 0 <= m + j < cols;
    match b
    case Hard =>
      if rowIn && colIn then At(l + i, m + j) else Nothing
    case Torus =>
      At(Mod(l + i, rows), Mod(m + j, cols))
    case KleinBottle =>
      if rowIn then At(l + i, Mod(m + j, cols))
      else At(Mod(l + i, rows), Mod(cols - m + j - 1, cols))
    case ProjectivePlane =>
      if IsCorner(rows, cols, l, m) then
        if i == -1 && j == -1 then
          At(l, m)
        else if (i == -1 && j == 0) || (i == 0 && j == -1) then
          At(if l == 0 then rows - 1 else 0, if m == 0 then cols - 1 else 0)
        else if i == 1 && j == -1 then
          At(if l == 0 then rows - 2 else 1, if m == 0 then cols - 1 else 0)
        else if i == -1 && j == 1 then
          At(if l == 0 then rows - 1 else 0, if m == 0 then cols - 2 else 1)
        else
          Nothing
      else if rowIn && colIn then
        At(l + i, m + j)
      else if rowIn && !colIn then
        At(Mod(rows - l + i - 1, rows), Mod(m + j, cols))
      else if !rowIn && colIn then
        At(Mod(l + i, rows), Mod(cols - m + j - 1, cols))
      else
        Nothing
  }

  /** Every topology reads an in-grid offset as that cell, except at a
      projective-plane corner. */
  lemma InteriorOffsetReadsItself(rows: int, cols: int, b: Boundary, l: int, m: int, i: int, j: int)
    requires InGrid(rows, cols, l, m) && IsOffset(i) && IsOffset(j)
    requires Supported(rows, cols, b)
    requires InGrid(rows, cols, l + i, m + j)
    requires !(b == ProjectivePlane && IsCorner(rows, cols, l, m))
    ensures Resolve(rows, cols, b, l, m, i, j) == At(l + i, m + j)
  {
  }

  /** The cell's own value is among the values summed: offset (0, 0), or (-1, -1) at a
      projective-plane corner. */
  lemma SelfIsRead(rows: int, cols: int, b: Boundary, l: int, m: int)
    requires InGrid(rows, cols, l, m) && Supported(rows, cols, b)
    ensures b == ProjectivePlane && IsCorner(rows, cols, l, m) ==> Resolve(rows, cols, b, l, m, -1, -1) == At(l, m)
    ensures !(b == ProjectivePlane && IsCorner(rows, cols, l, m)) ==> Resolve(rows, cols, b, l, m, 0, 0) == At(l, m)
  {
    if !(b == ProjectivePlane && IsCorner(rows, cols, l, m)) {
      InteriorOffsetReadsItself(rows, cols, b, l, m, 0, 0);
    }
  }

  /** A torus reads every offset, wrapping both indices independently. */
  lemma TorusWraps(rows: int, cols: int, l: int, m: int, i: int, j: int)
    requires InGrid(rows, cols, l, m) && IsOffset(i) && IsOffset(j)
    ensures Resolve(rows, cols, Torus, l, m, i, j) == At((l + i) % rows, (m + j) % cols)
    ensures l + i == -1 ==> Resolve(rows, cols, Torus, l, m, i, j).row == rows - 1
    ensures l + i == rows ==> Resolve(rows, cols, Torus, l, m, i, j).row == 0
    ensures m + j == -1 ==> Resolve(rows, cols, Torus, l, m, i, j).column == cols - 1
    ensures m + j == cols ==> Resolve(rows, cols, Torus, l, m, i, j).column == 0
  {
    var p := Resolve(rows, cols, Torus, l, m, i, j);
    if l + i == -1 {
      DivMod(-1, rows, -1, rows - 1);
    }
    if l + i == rows {
      DivMod(rows, rows, 1, 0);
    }
    if m + j == -1 {
      DivMod(-1, cols, -1, cols - 1);
    }
    if m + j == cols {
      DivMod(cols, cols, 1, 0);
    }
  }

  /** On an N x N torus the corner (0, 0) sees (N - 1, N - 1) at offset (-1, -1). */
  lemma TorusCornerDiagonal(n: int)
    requires n >= 1
    ensures Resolve(n, n, Torus, 0, 0, -1, -1) == At(n - 1, n - 1)
  {
    TorusWraps(n, n, 0, 0, -1, -1);
  }

  /** Under the Klein bottle an in-range row keeps its index and wraps the column; crossing
      the top or bottom edge wraps the row and mirrors the column, so from (0, c) the
      offset (-1, 0) reads (rows - 1, cols - 1 - c) and from (rows - 1, c) the offset
      (1, 0) reads (0, cols - 1 - c). */
  lemma KleinVerticalWrap(rows: int, cols: int, c: int)
    requires rows >= 1 && 0 <= c < cols
    ensures Resolve(rows, cols, KleinBottle, 0, c, -1, 0) == At(rows - 1, cols - 1 - c)
    ensures Resolve(rows, cols, KleinBottle, rows - 1, c, 1, 0) == At(0, cols - 1 - c)
  {
    DivMod(-1, rows, -1, rows - 1);
    DivMod(rows, rows, 1, 0);
  }

  /** The mirror of the textbook description: crossing a row edge reads column
      `cols - 1 - mod(m + j, cols)`. */
  function KleinMirror(rows: int, cols: int, l: int, m: int, i: int, j: int): (p: Read)
    requires InGrid(rows, cols, l, m) && IsOffset(i) && IsOffset(j)
    ensures p.At? && InGrid(rows, cols, p.row, p.column)
  {
    if 0 <= l + i < rows then At(l + i, Mod(m + j, cols))
    else At(Mod(l + i, rows), cols - 1 - Mod(m + j, cols))
  }

  /** The reducer mirrors `m - j` where the textbook mirrors `m + j`: offset j of the
      reducer reads what offset -j of the textbook reads, so each row of three offsets
      reads the same three cells. */
  lemma KleinMatchesMirror(rows: int, cols: int, l: int, m: int, i: int, j: int)
    requires InGrid(rows, cols, l, m) && IsOffset(i) && IsOffset(j)
    ensures 0 <= l + i < rows ==>
      Resolve(rows, cols, KleinBottle, l, m, i, j) == KleinMirror(rows, cols, l, m, i, j)
    ensures !(0 <= l + i < rows) ==>
      Resolve(rows, cols, KleinBottle, l, m, i, j) == KleinMirror(rows, cols, l, m, i, -j)
  {
    if !(0 <= l + i < rows) {
      assert cols - m + j - 1 == cols - 1 - (m - j);
      ModMirror(m - j, cols);
    }
  }

  /** At a projective-plane corner only five offsets read a cell: (-1, -1) the corner
      itself, (-1, 0) and (0, -1) the opposite corner, (1, -1) and (-1, 1) the cells next
      to it; the other four, (0, 0) included, read nothing. On grids with two rows or two
      columns the cells the table names can be the corner's own in-grid neighbours. */
  lemma ProjectiveCornerReads(rows: int, cols: int, l: int, m: int, i: int, j: int)
    requires InGrid(rows, cols, l, m) && IsOffset(i) && IsOffset(j)
    requires Supported(rows, cols, ProjectivePlane) && IsCorner(rows, cols, l, m)
    ensures Resolve(rows, cols, ProjectivePlane, l, m, i, j).At? <==>
      i == -1 || j == -1
    ensures var opposite := At(if l == 0 then rows - 1 else 0, if m == 0 then cols - 1 else 0);
      (i, j) in {(-1, 0), (0, -1)} ==> Resolve(rows, cols, ProjectivePlane, l, m, i, j) == opposite
  {
  }

  /** Away from the corners a projective plane reads a cell for every offset; an offset
      that leaves the grid through one edge wraps its index and mirrors the other. */
  lemma ProjectiveEdgeReads(rows: int, cols: int, l: int, m: int, i: int, j: int)
    requires InGrid(rows, cols, l, m) && IsOffset(i) && IsOffset(j)
    requires Supported(rows, cols, ProjectivePlane) && !IsCorner(rows, cols, l, m)
    ensures Resolve(rows, cols, ProjectivePlane, l, m, i, j).At?
    ensures 0 <= l + i < rows && !(0 <= m + j < cols) ==>
      Resolve(rows, cols, ProjectivePlane, l, m, i, j) == At(rows - 1 - (l - i), Mod(m + j, cols))
    ensures !(0 <= l + i < rows) && 0 <= m + j < cols ==>
      Resolve(rows, cols, ProjectivePlane, l, m, i, j) == At(Mod(l + i, rows), cols - 1 - (m - j))
  {
    if 0 <= l + i < rows && !(0 <= m + j < cols) {
      assert 0 < l < rows - 1;
      DivMod(rows - l + i - 1, rows, 0, rows - 1 - (l - i));
    }
    if !(0 <= l + i < rows) && 0 <= m + j < cols {
      assert 0 < m < cols - 1;
      DivMod(cols - m + j - 1, cols, 0, cols - 1 - (m - j));
    }
  }
}
