/** The eight primitive traversals. Each loop `for (i = start; i < end; i++)`
    is modelled as recursion on the range it still has to visit, and each
    traversal's contract says which part of the reference reading of the
    matrix it produces. The ranges are resolved ones: the second component of
    each is an exclusive end index. */
module Iterators {
  import opened Matrices
  import opened Jagged

  // ---------------------------------------------------------------------------
  // Axis traversals: one row or one column over a range of the other axis.

  /** The values of row `row` over the column range, left to right. In the
      source this loop steps along the columns and is named `ColIterator`. */
  function RowValues<T>(m: Matrix<T>, row: int, cols: Range): (r: seq<T>)
    requires 0 <= row < m.rows && cols.Within(m.cols)
    ensures r == ToJaggedRowMajor(m)[row][cols.start..cols.end]
    decreases cols.Len()
  {
    if cols.start < cols.end then
      [At(m, row, cols.start)] + RowValues(m, row, cols.Rest())
    else
      []
  }

  /** The cells of row `row` over the column range, tagged with their
      coordinates (the source's `IndexedColIterator`). */
  function RowCells<T>(m: Matrix<T>, row: int, cols: Range): (r: seq<Cell<T>>)
    requires 0 <= row < m.rows && cols.Within(m.cols)
    ensures r == ToJaggedRowMajorIdx(m)[row][cols.start..cols.end]
    decreases cols.Len()
  {
    if cols.start < cols.end then
      [Cell(At(m, row, cols.start), row, cols.start)] + RowCells(m, row, cols.Rest())
    else
      []
  }

  /** The values of column `col` over the row range, top to bottom. In the
      source this loop steps along the rows and is named `RowIterator`. */
  function ColValues<T>(m: Matrix<T>, col: int, rows: Range): (r: seq<T>)
    requires 0 <= col < m.cols && rows.Within(m.rows)
    ensures r == ToJaggedColMajor(m)[col][rows.start..rows.end]
    decreases rows.Len()
  {
    if rows.start < rows.end then
      [At(m, rows.start, col)] + ColValues(m, col, rows.Rest())
    else
      []
  }

  /** The cells of column `col` over the row range, tagged with their
      coordinates (the source's `IndexedRowIterator`). */
  function ColCells<T>(m: Matrix<T>, col: int, rows: Range): (r: seq<Cell<T>>)
    requires 0 <= col < m.cols && rows.Within(m.rows)
    ensures r == ToJaggedColMajorIdx(m)[col][rows.start..rows.end]
    decreases rows.Len()
  {
    if rows.start < rows.end then
      [Cell(At(m, rows.start, col), rows.start, col)] + ColCells(m, col, rows.Rest())
    else
      []
  }

  // ---------------------------------------------------------------------------
  // Cell traversals: nested loops over a whole region.

  /** Row-major reading of the region: rows outer, columns inner. */
  function CellByRow<T>(m: Matrix<T>, rows: Range, cols: Range): (r: seq<T>)
    requires rows.Within(m.rows) && cols.Within(m.cols)
    ensures r == Flatten(Window(ToJaggedRowMajor(m), rows, cols))
    decreases rows.Len()
  {
    if rows.start < rows.end then
      WindowUnfold(ToJaggedRowMajor(m), rows, cols);
      RowValues(m, rows.start, cols) + CellByRow(m, rows.Rest(), cols)
    else
      []
  }

  /** Column-major reading of the region: columns outer, rows inner. The
      ranges still name rows and columns of the original matrix. */
  function CellByCol<T>(m: Matrix<T>, rows: Range, cols: Range): (r: seq<T>)
    requires rows.Within(m.rows) && cols.Within(m.cols)
    ensures r == Flatten(Window(ToJaggedColMajor(m), cols, rows))
    decreases cols.Len()
  {
    if cols.start < cols.end then
      WindowUnfold(ToJaggedColMajor(m), cols, rows);
      ColValues(m, cols.start, rows) + CellByCol(m, rows, cols.Rest())
    else
      []
  }

  /** Row-major reading of the region as tagged cells. */
  function IndexedCellByRow<T>(m: Matrix<T>, rows: Range, cols: Range): (r: seq<Cell<T>>)
    requires rows.Within(m.rows) && cols.Within(m.cols)
    ensures r == Flatten(Window(ToJaggedRowMajorIdx(m), rows, cols))
    decreases rows.Len()
  {
    if rows.start < rows.end then
      WindowUnfold(ToJaggedRowMajorIdx(m), rows, cols);
      RowCells(m, rows.start, cols) + IndexedCellByRow(m, rows.Rest(), cols)
    else
      []
  }

  /** Column-major reading of the region as tagged cells; each cell keeps its
      coordinates in the original matrix. */
  function IndexedCellByCol<T>(m: Matrix<T>, rows: Range, cols: Range): (r: seq<Cell<T>>)
    requires rows.Within(m.rows) && cols.Within(m.cols)
    ensures r == Flatten(Window(ToJaggedColMajorIdx(m), cols, rows))
    decreases cols.Len()
  {
    if cols.start < cols.end then
      WindowUnfold(ToJaggedColMajorIdx(m), cols, rows);
      ColCells(m, cols.start, rows) + IndexedCellByCol(m, rows, cols.Rest())
    else
      []
  }

  // ---------------------------------------------------------------------------
  // The row-major nested loop over a heap array.

  /** The matrix a two-dimensional array holds. */
  function FromArray<T>(a: array2<T>): (m: Matrix<T>)
    reads a
    ensures m.rows == a.Length0 && m.cols == a.Length1
    ensures forall i, j :: 0 <= i < a.Length0 && 0 <= j < a.Length1 ==> At(m, i, j) == a[i, j]
  {
    Array2D(a.Length0, a.Length1,
      seq(a.Length0, i requires 0 <= i < a.Length0 reads a =>
        seq(a.Length1, j requires 0 <= j < a.Length1 reads a => a[i, j])))
  }

  /** The inner loop of the source's row-major traversal over an array:
      the values of row `row` across the column range. */
  method RowLoop<T>(a: array2<T>, row: int, cols: Range) returns (line: seq<T>)
    requires 0 <= row < a.Length0 && cols.Within(a.Length1)
    ensures line == ToJaggedRowMajor(FromArray(a))[row][cols.start..cols.end]
  {
    ghost var m := FromArray(a);
    line := [];
    var j := cols.start;
    while j < cols.end
      invariant cols.start <= j <= cols.end
      invariant line == m.data[row][cols.start..j]
    {
      assert m.data[row][j] == a[row, j];
      line := line + [a[row, j]];
      j := j + 1;
    }
  }

  /** The source's row-major nested loop run over an array, collecting what
      it yields: exactly the functional row-major reading. */
  method CellByRowLoop<T>(a: array2<T>, rows: Range, cols: Range) returns (out: seq<T>)
    requires rows.Within(a.Length0) && cols.Within(a.Length1)
    ensures out == CellByRow(FromArray(a), rows, cols)
  {
    ghost var jag := ToJaggedRowMajor(FromArray(a));
    out := [];
    var i := rows.start;
    while i < rows.end
      invariant rows.start <= i <= rows.end
      invariant out == Flatten(Window(jag, Range(rows.start, i), cols))
    {
      var line := RowLoop(a, i, cols);
      WindowExtend(jag, Range(rows.start, i), cols);
      out := out + line;
      i := i + 1;
    }
    assert Range(rows.start, i) == rows;
  }
}
