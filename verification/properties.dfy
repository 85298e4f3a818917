/** Laws that relate the public operations to one another and to the matrix
    they read. */
module Properties {
  import opened Failures
  import opened Matrices
  import opened Jagged
  import opened Slice
  import opened Iterators
  import opened ArrayExtensions

  // ---------------------------------------------------------------------------
  // Projections flatten to the cell traversals.

  /** Flattening the rows gives the row-major cells, and both calls fail
      alike. */
  lemma RowsFlattenToCells<T>(matrix: Option<Matrix<T>>, rowSkip: int, rowTake: int, colSkip: int, colTake: int)
    ensures EnumerateRows(matrix, rowSkip, rowTake, colSkip, colTake).Ok? == EnumerateCells(matrix, rowSkip, rowTake, colSkip, colTake).Ok?
    ensures EnumerateRows(matrix, rowSkip, rowTake, colSkip, colTake).Err? ==>
      EnumerateRows(matrix, rowSkip, rowTake, colSkip, colTake).error == EnumerateCells(matrix, rowSkip, rowTake, colSkip, colTake).error
    ensures EnumerateRows(matrix, rowSkip, rowTake, colSkip, colTake).Ok? ==>
      Flatten(EnumerateRows(matrix, rowSkip, rowTake, colSkip, colTake).value) == EnumerateCells(matrix, rowSkip, rowTake, colSkip, colTake).value
  {
  }

  /** Flattening the columns gives the column-major cells. */
  lemma ColsFlattenToTransposedCells<T>(matrix: Option<Matrix<T>>, rowSkip: int, rowTake: int, colSkip: int, colTake: int)
    ensures EnumerateCols(matrix, rowSkip, rowTake, colSkip, colTake).Ok? == TransposeCells(matrix, rowSkip, rowTake, colSkip, colTake).Ok?
    ensures EnumerateCols(matrix, rowSkip, rowTake, colSkip, colTake).Err? ==>
      EnumerateCols(matrix, rowSkip, rowTake, colSkip, colTake).error == TransposeCells(matrix, rowSkip, rowTake, colSkip, colTake).error
    ensures EnumerateCols(matrix, rowSkip, rowTake, colSkip, colTake).Ok? ==>
      Flatten(EnumerateCols(matrix, rowSkip, rowTake, colSkip, colTake).value) == TransposeCells(matrix, rowSkip, rowTake, colSkip, colTake).value
  {
  }

  /** Flattening the indexed rows gives the indexed cells. */
  lemma IndexedRowsFlattenToIndexedCells<T>(matrix: Option<Matrix<T>>, rowSkip: int, rowTake: int, colSkip: int, colTake: int)
    ensures IndexedRows(matrix, rowSkip, rowTake, colSkip, colTake).Ok? == IndexedCells(matrix, rowSkip, rowTake, colSkip, colTake).Ok?
    ensures IndexedRows(matrix, rowSkip, rowTake, colSkip, colTake).Ok? ==>
      Flatten(IndexedRows(matrix, rowSkip, rowTake, colSkip, colTake).value) == IndexedCells(matrix, rowSkip, rowTake, colSkip, colTake).value
  {
  }

  /** Flattening the indexed columns gives the transposed indexed cells. */
  lemma IndexedColsFlattenToIndexedTransposeCells<T>(matrix: Option<Matrix<T>>, rowSkip: int, rowTake: int, colSkip: int, colTake: int)
    ensures IndexedCols(matrix, rowSkip, rowTake, colSkip, colTake).Ok? == IndexedTransposeCells(matrix, rowSkip, rowTake, colSkip, colTake).Ok?
    ensures IndexedCols(matrix, rowSkip, rowTake, colSkip, colTake).Ok? ==>
      Flatten(IndexedCols(matrix, rowSkip, rowTake, colSkip, colTake).value) == IndexedTransposeCells(matrix, rowSkip, rowTake, colSkip, colTake).value
  {
  }

  // ---------------------------------------------------------------------------
  // Tagged cells carry the right values and the original coordinates.

  /** Dropping the coordinates distributes over flattening. */
  lemma {:induction false} ValuesOfFlatten<T>(ss: seq<seq<Cell<T>>>, ts: seq<seq<T>>)
    requires |ss| == |ts|
    requires forall k :: 0 <= k < |ss| ==> Values(ss[k]) == ts[k]
    ensures Values(Flatten(ss)) == Flatten(ts)
  {
    if |ss| > 0 {
      ValuesOfFlatten(ss[1..], ts[1..]);
      ValuesAppend(ss[0], Flatten(ss[1..]));
    }
  }

  /** The indexed rows of a window, stripped of coordinates, are the plain
      rows of the same window. */
  lemma RowWindowValues<T>(m: Matrix<T>, rows: Range, cols: Range)
    requires rows.Within(m.rows) && cols.Within(m.cols)
    ensures forall k :: 0 <= k < rows.Len() ==>
      Values(Window(ToJaggedRowMajorIdx(m), rows, cols)[k]) == Window(ToJaggedRowMajor(m), rows, cols)[k]
  {
    forall k | 0 <= k < rows.Len()
      ensures Values(Window(ToJaggedRowMajorIdx(m), rows, cols)[k]) == Window(ToJaggedRowMajor(m), rows, cols)[k]
    {
      var i := rows.start + k;
      assert Values(ToJaggedRowMajorIdx(m)[i][cols.start..cols.end]) == ToJaggedRowMajor(m)[i][cols.start..cols.end];
    }
  }

  /** The indexed columns of a window, stripped of coordinates, are the plain
      columns of the same window. */
  lemma ColWindowValues<T>(m: Matrix<T>, rows: Range, cols: Range)
    requires rows.Within(m.rows) && cols.Within(m.cols)
    ensures forall k :: 0 <= k < cols.Len() ==>
      Values(Window(ToJaggedColMajorIdx(m), cols, rows)[k]) == Window(ToJaggedColMajor(m), cols, rows)[k]
  {
    forall k | 0 <= k < cols.Len()
      ensures Values(Window(ToJaggedColMajorIdx(m), cols, rows)[k]) == Window(ToJaggedColMajor(m), cols, rows)[k]
    {
      var j := cols.start + k;
      assert Values(ToJaggedColMajorIdx(m)[j][rows.start..rows.end]) == ToJaggedColMajor(m)[j][rows.start..rows.end];
    }
  }

  /** The values of the indexed cells, in either order, are exactly the plain
      cells of the same call. */
  lemma IndexedValuesAreCells<T>(matrix: Option<Matrix<T>>, rowSkip: int, rowTake: int, colSkip: int, colTake: int)
    ensures IndexedCells(matrix, rowSkip, rowTake, colSkip, colTake).Ok? ==>
      Values(IndexedCells(matrix, rowSkip, rowTake, colSkip, colTake).value) == EnumerateCells(matrix, rowSkip, rowTake, colSkip, colTake).value
    ensures IndexedTransposeCells(matrix, rowSkip, rowTake, colSkip, colTake).Ok? ==>
      Values(IndexedTransposeCells(matrix, rowSkip, rowTake, colSkip, colTake).value) == TransposeCells(matrix, rowSkip, rowTake, colSkip, colTake).value
  {
    if matrix.Some? && ResolveSlice(matrix.value, rowSkip, rowTake, colSkip, colTake).Ok? {
      var m := matrix.value;
      var g := RegionOf(matrix, rowSkip, rowTake, colSkip, colTake);
      WindowIsSliced(ToJaggedRowMajorIdx(m), g.rows, g.cols);
      WindowIsSliced(ToJaggedRowMajor(m), g.rows, g.cols);
      WindowIsSliced(ToJaggedColMajorIdx(m), g.cols, g.rows);
      WindowIsSliced(ToJaggedColMajor(m), g.cols, g.rows);
      RowWindowValues(m, g.rows, g.cols);
      ColWindowValues(m, g.rows, g.cols);
      ValuesOfFlatten(Window(ToJaggedRowMajorIdx(m), g.rows, g.cols), Window(ToJaggedRowMajor(m), g.rows, g.cols));
      ValuesOfFlatten(Window(ToJaggedColMajorIdx(m), g.cols, g.rows), Window(ToJaggedColMajor(m), g.cols, g.rows));
    }
  }

  /** `c` is the cell of `m` at its own coordinates, inside the region. */
  ghost predicate IsCellOf<T>(m: Matrix<T>, g: Region, c: Cell<T>)
    requires g.Fits(m)
  {
    g.rows.Contains(c.r) && g.cols.Contains(c.c) && c.v == At(m, c.r, c.c)
  }

  /** An element of the row-major tagged window is a cell of the region. */
  lemma RowWindowCellIsInRegion<T>(m: Matrix<T>, g: Region, c: Cell<T>, k: int, t: int)
    requires g.Fits(m)
    requires 0 <= k < g.rows.Len() && 0 <= t < g.cols.Len()
    requires Window(ToJaggedRowMajorIdx(m), g.rows, g.cols)[k][t] == c
    ensures IsCellOf(m, g, c)
  {
    var jag := ToJaggedRowMajorIdx(m);
    var i, j := g.rows.start + k, g.cols.start + t;
    assert Window(jag, g.rows, g.cols)[k] == jag[i][g.cols.start..g.cols.end];
    assert c == jag[i][j] == Cell(At(m, i, j), i, j);
  }

  /** A cell of the region sits in the row-major tagged window at its own
      offset from the region's corner. */
  lemma RegionCellIsInRowWindow<T>(m: Matrix<T>, g: Region, c: Cell<T>)
    requires g.Fits(m)
    requires IsCellOf(m, g, c)
    ensures Window(ToJaggedRowMajorIdx(m), g.rows, g.cols)[c.r - g.rows.start][c.c - g.cols.start] == c
  {
    var jag := ToJaggedRowMajorIdx(m);
    assert Window(jag, g.rows, g.cols)[c.r - g.rows.start] == jag[c.r][g.cols.start..g.cols.end];
    assert jag[c.r][c.c] == Cell(At(m, c.r, c.c), c.r, c.c);
  }

  /** The row-major tagged window holds exactly the cells of the region. */
  lemma InRowWindow<T>(m: Matrix<T>, g: Region, c: Cell<T>)
    requires g.Fits(m)
    ensures c in Flatten(Window(ToJaggedRowMajorIdx(m), g.rows, g.cols)) <==> IsCellOf(m, g, c)
  {
    var w := Window(ToJaggedRowMajorIdx(m), g.rows, g.cols);
    InFlatten(w, c);
    if c in Flatten(w) {
      var k :| 0 <= k < |w| && c in w[k];
      var t :| 0 <= t < |w[k]| && w[k][t] == c;
      RowWindowCellIsInRegion(m, g, c, k, t);
    }
    if IsCellOf(m, g, c) {
      RegionCellIsInRowWindow(m, g, c);
      assert c in w[c.r - g.rows.start];
    }
  }

  /** An element of the column-major tagged window is a cell of the region. */
  lemma ColWindowCellIsInRegion<T>(m: Matrix<T>, g: Region, c: Cell<T>, k: int, t: int)
    requires g.Fits(m)
    requires 0 <= k < g.cols.Len() && 0 <= t < g.rows.Len()
    requires Window(ToJaggedColMajorIdx(m), g.cols, g.rows)[k][t] == c
    ensures IsCellOf(m, g, c)
  {
    var jag := ToJaggedColMajorIdx(m);
    var i, j := g.rows.start + t, g.cols.start + k;
    assert Window(jag, g.cols, g.rows)[k] == jag[j][g.rows.start..g.rows.end];
    assert c == jag[j][i] == Cell(At(m, i, j), i, j);
  }

  /** A cell of the region sits in the column-major tagged window at its own
      offset from the region's corner. */
  lemma RegionCellIsInColWindow<T>(m: Matrix<T>, g: Region, c: Cell<T>)
    requires g.Fits(m)
    requires IsCellOf(m, g, c)
    ensures Window(ToJaggedColMajorIdx(m), g.cols, g.rows)[c.c - g.cols.start][c.r - g.rows.start] == c
  {
    var jag := ToJaggedColMajorIdx(m);
    assert Window(jag, g.cols, g.rows)[c.c - g.cols.start] == jag[c.c][g.rows.start..g.rows.end];
    assert jag[c.c][c.r] == Cell(At(m, c.r, c.c), c.r, c.c);
  }

  /** The column-major tagged window holds exactly the cells of the region. */
  lemma InColWindow<T>(m: Matrix<T>, g: Region, c: Cell<T>)
    requires g.Fits(m)
    ensures c in Flatten(Window(ToJaggedColMajorIdx(m), g.cols, g.rows)) <==> IsCellOf(m, g, c)
  {
    var w := Window(ToJaggedColMajorIdx(m), g.cols, g.rows);
    InFlatten(w, c);
    if c in Flatten(w) {
      var k :| 0 <= k < |w| && c in w[k];
      var t :| 0 <= t < |w[k]| && w[k][t] == c;
      ColWindowCellIsInRegion(m, g, c, k, t);
    }
    if IsCellOf(m, g, c) {
      RegionCellIsInColWindow(m, g, c);
      assert c in w[c.c - g.cols.start];
    }
  }

  /** Every cell the tagged traversals yield, in either order, holds the
      matrix value at its own ORIGINAL coordinates, which lie inside the
      resolved region; and every cell of the region is yielded. So both
      orders yield the same cells. */
  lemma CellsCarryOriginalCoordinates<T>(matrix: Option<Matrix<T>>, rowSkip: int, rowTake: int, colSkip: int, colTake: int, c: Cell<T>)
    ensures IndexedCells(matrix, rowSkip, rowTake, colSkip, colTake).Ok? ==>
      (c in IndexedCells(matrix, rowSkip, rowTake, colSkip, colTake).value <==>
       IsCellOf(matrix.value, RegionOf(matrix, rowSkip, rowTake, colSkip, colTake), c))
    ensures IndexedTransposeCells(matrix, rowSkip, rowTake, colSkip, colTake).Ok? ==>
      (c in IndexedTransposeCells(matrix, rowSkip, rowTake, colSkip, colTake).value <==>
       IsCellOf(matrix.value, RegionOf(matrix, rowSkip, rowTake, colSkip, colTake), c))
  {
    if matrix.Some? && ResolveSlice(matrix.value, rowSkip, rowTake, colSkip, colTake).Ok? {
      var m := matrix.value;
      var g := RegionOf(matrix, rowSkip, rowTake, colSkip, colTake);
      WindowIsSliced(ToJaggedRowMajorIdx(m), g.rows, g.cols);
      WindowIsSliced(ToJaggedColMajorIdx(m), g.cols, g.rows);
      InRowWindow(m, g, c);
      InColWindow(m, g, c);
    }
  }

  // ---------------------------------------------------------------------------
  // Groupings.

  /** The k-th row grouping is keyed by the row's original index and its
      members, stripped of coordinates, are the k-th row of `EnumerateRows`. */
  lemma GroupedRowsMatchRows<T>(matrix: Option<Matrix<T>>, rowSkip: int, rowTake: int, colSkip: int, colTake: int)
    ensures GroupedRows(matrix, rowSkip, rowTake, colSkip, colTake).Ok? == EnumerateRows(matrix, rowSkip, rowTake, colSkip, colTake).Ok?
    ensures GroupedRows(matrix, rowSkip, rowTake, colSkip, colTake).Ok? ==>
      var groups := GroupedRows(matrix, rowSkip, rowTake, colSkip, colTake).value;
      var rows := EnumerateRows(matrix, rowSkip, rowTake, colSkip, colTake).value;
      var g := RegionOf(matrix, rowSkip, rowTake, colSkip, colTake);
      |groups| == |rows| &&
      forall k :: 0 <= k < |groups| ==>
        groups[k].key == g.rows.start + k &&
        groups[k].values == IndexedRows(matrix, rowSkip, rowTake, colSkip, colTake).value[k] &&
        Values(groups[k].values) == rows[k]
  {
    if matrix.Some? && ResolveSlice(matrix.value, rowSkip, rowTake, colSkip, colTake).Ok? {
      var m := matrix.value;
      var g := RegionOf(matrix, rowSkip, rowTake, colSkip, colTake);
      WindowIsSliced(ToJaggedRowMajorIdx(m), g.rows, g.cols);
      WindowIsSliced(ToJaggedRowMajor(m), g.rows, g.cols);
      RowWindowValues(m, g.rows, g.cols);
    }
  }

  /** The k-th column grouping is keyed by the column's original index and
      its members, stripped of coordinates, are the k-th column of
      `EnumerateCols`. */
  lemma GroupedColsMatchCols<T>(matrix: Option<Matrix<T>>, rowSkip: int, rowTake: int, colSkip: int, colTake: int)
    ensures GroupedCols(matrix, rowSkip, rowTake, colSkip, colTake).Ok? == EnumerateCols(matrix, rowSkip, rowTake, colSkip, colTake).Ok?
    ensures GroupedCols(matrix, rowSkip, rowTake, colSkip, colTake).Ok? ==>
      var groups := GroupedCols(matrix, rowSkip, rowTake, colSkip, colTake).value;
      var cols := EnumerateCols(matrix, rowSkip, rowTake, colSkip, colTake).value;
      var g := RegionOf(matrix, rowSkip, rowTake, colSkip, colTake);
      |groups| == |cols| &&
      forall k :: 0 <= k < |groups| ==>
        groups[k].key == g.cols.start + k &&
        groups[k].values == IndexedCols(matrix, rowSkip, rowTake, colSkip, colTake).value[k] &&
        Values(groups[k].values) == cols[k]
  {
    if matrix.Some? && ResolveSlice(matrix.value, rowSkip, rowTake, colSkip, colTake).Ok? {
      var m := matrix.value;
      var g := RegionOf(matrix, rowSkip, rowTake, colSkip, colTake);
      WindowIsSliced(ToJaggedColMajorIdx(m), g.cols, g.rows);
      WindowIsSliced(ToJaggedColMajor(m), g.cols, g.rows);
      ColWindowValues(m, g.rows, g.cols);
    }
  }

  function Sum(s: seq<int>): int {
    if |s| == 0 then 0 else s[0] + Sum(s[1..])
  }

  /** The tagged cells of row `i`, stripped of coordinates, are that row. */
  lemma IndexedRowValues<T>(m: Matrix<T>, i: int)
    requires 0 <= i < m.rows
    ensures Values(ToJaggedRowMajorIdx(m)[i]) == m.data[i]
  {
  }

  /** Aggregating per key: over the whole matrix, the i-th row grouping has
      key `i` and its members sum to the sum of the i-th row. */
  lemma GroupSumsMatchRowSums(m: Matrix<int>)
    ensures GroupedRows(Some(m), 0, 0, 0, 0).Ok?
    ensures var groups := GroupedRows(Some(m), 0, 0, 0, 0).value;
      |groups| == m.rows &&
      forall i :: 0 <= i < |groups| ==> groups[i].key == i && Sum(Values(groups[i].values)) == Sum(m.data[i])
  {
    UnspecifiedSliceIsWholeMatrix(m, 0, 0);
    var jag := ToJaggedRowMajorIdx(m);
    SlicedWhole(jag, m.cols);
    var groups := GroupedRows(Some(m), 0, 0, 0, 0).value;
    assert |groups| == m.rows;
    forall i | 0 <= i < |groups|
      ensures groups[i].key == i && Sum(Values(groups[i].values)) == Sum(m.data[i])
    {
      assert groups[i] == Grouping(i, jag[i]);
      IndexedRowValues(m, i);
    }
  }

  // ---------------------------------------------------------------------------
  // Results as plain windows of the resolved region.

  /** Once the slice has resolved to `g`, the rows are the window `g` of the
      matrix: row `g.rows.start + k`, columns `g.cols`, for each `k`. */
  lemma RowsAreWindow<T>(m: Matrix<T>, rowSkip: int, rowTake: int, colSkip: int, colTake: int, g: Region)
    requires ResolveSlice(m, rowSkip, rowTake, colSkip, colTake) == Ok(g)
    ensures EnumerateRows(Some(m), rowSkip, rowTake, colSkip, colTake) == Ok(Window(ToJaggedRowMajor(m), g.rows, g.cols))
  {
    WindowIsSliced(ToJaggedRowMajor(m), g.rows, g.cols);
  }

  /** Once the slice has resolved to `g`, the columns are the window `g` of
      the matrix's columns. */
  lemma ColsAreWindow<T>(m: Matrix<T>, rowSkip: int, rowTake: int, colSkip: int, colTake: int, g: Region)
    requires ResolveSlice(m, rowSkip, rowTake, colSkip, colTake) == Ok(g)
    ensures EnumerateCols(Some(m), rowSkip, rowTake, colSkip, colTake) == Ok(Window(ToJaggedColMajor(m), g.cols, g.rows))
  {
    WindowIsSliced(ToJaggedColMajor(m), g.cols, g.rows);
  }

  /** Once the slice has resolved to `g`, the cells are the window `g` read
      row by row. */
  lemma CellsAreWindow<T>(m: Matrix<T>, rowSkip: int, rowTake: int, colSkip: int, colTake: int, g: Region)
    requires ResolveSlice(m, rowSkip, rowTake, colSkip, colTake) == Ok(g)
    ensures EnumerateCells(Some(m), rowSkip, rowTake, colSkip, colTake) == Ok(Flatten(Window(ToJaggedRowMajor(m), g.rows, g.cols)))
  {
    WindowIsSliced(ToJaggedRowMajor(m), g.rows, g.cols);
  }

  /** Once the slice has resolved to `g`, the transposed cells are the window
      `g` read column by column. */
  lemma TransposedCellsAreWindow<T>(m: Matrix<T>, rowSkip: int, rowTake: int, colSkip: int, colTake: int, g: Region)
    requires ResolveSlice(m, rowSkip, rowTake, colSkip, colTake) == Ok(g)
    ensures TransposeCells(Some(m), rowSkip, rowTake, colSkip, colTake) == Ok(Flatten(Window(ToJaggedColMajor(m), g.cols, g.rows)))
  {
    WindowIsSliced(ToJaggedColMajor(m), g.cols, g.rows);
  }

  /** Once the slice has resolved to `g`, the tagged cells are the tagged
      window `g` read row by row. */
  lemma IndexedCellsAreWindow<T>(m: Matrix<T>, rowSkip: int, rowTake: int, colSkip: int, colTake: int, g: Region)
    requires ResolveSlice(m, rowSkip, rowTake, colSkip, colTake) == Ok(g)
    ensures IndexedCells(Some(m), rowSkip, rowTake, colSkip, colTake) == Ok(Flatten(Window(ToJaggedRowMajorIdx(m), g.rows, g.cols)))
  {
    WindowIsSliced(ToJaggedRowMajorIdx(m), g.rows, g.cols);
  }

  // ---------------------------------------------------------------------------
  // Unsliced calls, empty matrices and null.

  /** Without slice arguments every operation reads the whole matrix, as the
      tests' unsliced expectations state. */
  lemma WholeMatrixReadings<T>(m: Matrix<T>)
    ensures EnumerateCells(Some(m), 0, 0, 0, 0) == Ok(Flatten(ToJaggedRowMajor(m)))
    ensures TransposeCells(Some(m), 0, 0, 0, 0) == Ok(Flatten(ToJaggedColMajor(m)))
    ensures IndexedCells(Some(m), 0, 0, 0, 0) == Ok(Flatten(ToJaggedRowMajorIdx(m)))
    ensures IndexedTransposeCells(Some(m), 0, 0, 0, 0) == Ok(Flatten(ToJaggedColMajorIdx(m)))
    ensures EnumerateRows(Some(m), 0, 0, 0, 0) == Ok(ToJaggedRowMajor(m))
    ensures EnumerateCols(Some(m), 0, 0, 0, 0) == Ok(ToJaggedColMajor(m))
    ensures IndexedRows(Some(m), 0, 0, 0, 0) == Ok(ToJaggedRowMajorIdx(m))
    ensures IndexedCols(Some(m), 0, 0, 0, 0) == Ok(ToJaggedColMajorIdx(m))
  {
    SlicedWhole(ToJaggedRowMajor(m), m.cols);
    SlicedWhole(ToJaggedColMajor(m), m.rows);
    SlicedWhole(ToJaggedRowMajorIdx(m), m.cols);
    SlicedWhole(ToJaggedColMajorIdx(m), m.rows);
  }

  /** A product with a zero factor is zero. */
  lemma ZeroArea(a: int, b: int)
    requires a == 0 || b == 0
    ensures a * b == 0
  {
  }

  /** A matrix with no rows or no columns resolves, whatever is asked of it,
      to a region with no rows or no columns, so one of area 0. */
  lemma EmptyMatrixHasEmptyRegion<T>(m: Matrix<T>, rowSkip: int, rowTake: int, colSkip: int, colTake: int)
    requires m.rows == 0 || m.cols == 0
    requires ResolveSlice(m, rowSkip, rowTake, colSkip, colTake).Ok?
    ensures var g := RegionOf(Some(m), rowSkip, rowTake, colSkip, colTake);
      (m.rows == 0 ==> g.rows.Len() == 0) && (m.cols == 0 ==> g.cols.Len() == 0) &&
      g.rows.Len() * g.cols.Len() == 0
  {
    var g := RegionOf(Some(m), rowSkip, rowTake, colSkip, colTake);
    ZeroArea(g.rows.Len(), g.cols.Len());
  }

  // The four cell traversals over a matrix with no rows or no columns, one
  // lemma each so that each proof only unfolds one operation.

  lemma EnumerateCellsOfEmpty<T>(m: Matrix<T>, rowSkip: int, rowTake: int, colSkip: int, colTake: int)
    requires m.rows == 0 || m.cols == 0
    ensures EnumerateCells(Some(m), rowSkip, rowTake, colSkip, colTake).Ok? ==> EnumerateCells(Some(m), rowSkip, rowTake, colSkip, colTake).value == []
  {
    if ResolveSlice(m, rowSkip, rowTake, colSkip, colTake).Ok? {
      EmptyMatrixHasEmptyRegion(m, rowSkip, rowTake, colSkip, colTake);
    }
  }

  lemma TransposeCellsOfEmpty<T>(m: Matrix<T>, rowSkip: int, rowTake: int, colSkip: int, colTake: int)
    requires m.rows == 0 || m.cols == 0
    ensures TransposeCells(Some(m), rowSkip, rowTake, colSkip, colTake).Ok? ==> TransposeCells(Some(m), rowSkip, rowTake, colSkip, colTake).value == []
  {
    if ResolveSlice(m, rowSkip, rowTake, colSkip, colTake).Ok? {
      EmptyMatrixHasEmptyRegion(m, rowSkip, rowTake, colSkip, colTake);
    }
  }

  lemma IndexedCellsOfEmpty<T>(m: Matrix<T>, rowSkip: int, rowTake: int, colSkip: int, colTake: int)
    requires m.rows == 0 || m.cols == 0
    ensures IndexedCells(Some(m), rowSkip, rowTake, colSkip, colTake).Ok? ==> IndexedCells(Some(m), rowSkip, rowTake, colSkip, colTake).value == []
  {
    if ResolveSlice(m, rowSkip, rowTake, colSkip, colTake).Ok? {
      EmptyMatrixHasEmptyRegion(m, rowSkip, rowTake, colSkip, colTake);
    }
  }

  lemma IndexedTransposeCellsOfEmpty<T>(m: Matrix<T>, rowSkip: int, rowTake: int, colSkip: int, colTake: int)
    requires m.rows == 0 || m.cols == 0
    ensures IndexedTransposeCells(Some(m), rowSkip, rowTake, colSkip, colTake).Ok? ==> IndexedTransposeCells(Some(m), rowSkip, rowTake, colSkip, colTake).value == []
  {
    if ResolveSlice(m, rowSkip, rowTake, colSkip, colTake).Ok? {
      EmptyMatrixHasEmptyRegion(m, rowSkip, rowTake, colSkip, colTake);
    }
  }

  /** A matrix with no rows or no columns yields no cells: a call either
      fails (an explicit take on the other, non-empty axis can still be out
      of range) or yields the empty sequence. */
  lemma EmptyMatrixYieldsNoCells<T>(m: Matrix<T>, rowSkip: int, rowTake: int, colSkip: int, colTake: int)
    requires m.rows == 0 || m.cols == 0
    ensures EnumerateCells(Some(m), rowSkip, rowTake, colSkip, colTake).Ok? ==> EnumerateCells(Some(m), rowSkip, rowTake, colSkip, colTake).value == []
    ensures TransposeCells(Some(m), rowSkip, rowTake, colSkip, colTake).Ok? ==> TransposeCells(Some(m), rowSkip, rowTake, colSkip, colTake).value == []
    ensures IndexedCells(Some(m), rowSkip, rowTake, colSkip, colTake).Ok? ==> IndexedCells(Some(m), rowSkip, rowTake, colSkip, colTake).value == []
    ensures IndexedTransposeCells(Some(m), rowSkip, rowTake, colSkip, colTake).Ok? ==> IndexedTransposeCells(Some(m), rowSkip, rowTake, colSkip, colTake).value == []
  {
    EnumerateCellsOfEmpty(m, rowSkip, rowTake, colSkip, colTake);
    TransposeCellsOfEmpty(m, rowSkip, rowTake, colSkip, colTake);
    IndexedCellsOfEmpty(m, rowSkip, rowTake, colSkip, colTake);
    IndexedTransposeCellsOfEmpty(m, rowSkip, rowTake, colSkip, colTake);
  }

  /** A `0 x 0` matrix never fails and every cell traversal yields nothing. */
  lemma EmptyMatrixYieldsNothing<T>(m: Matrix<T>, rowSkip: int, rowTake: int, colSkip: int, colTake: int)
    requires m.rows == 0 && m.cols == 0
    ensures EnumerateCells(Some(m), rowSkip, rowTake, colSkip, colTake) == Ok([])
    ensures TransposeCells(Some(m), rowSkip, rowTake, colSkip, colTake) == Ok([])
    ensures IndexedCells(Some(m), rowSkip, rowTake, colSkip, colTake) == Ok([])
    ensures IndexedTransposeCells(Some(m), rowSkip, rowTake, colSkip, colTake) == Ok([])
  {
    EmptyMatrixNeverFails(m, rowSkip, rowTake, colSkip, colTake);
    EmptyMatrixYieldsNoCells(m, rowSkip, rowTake, colSkip, colTake);
  }

  /** A `0 x 0` matrix never fails and every projection yields no rows,
      columns or groupings. */
  lemma EmptyMatrixHasNoRowsOrCols<T>(m: Matrix<T>, rowSkip: int, rowTake: int, colSkip: int, colTake: int)
    requires m.rows == 0 && m.cols == 0
    ensures EnumerateRows(Some(m), rowSkip, rowTake, colSkip, colTake) == Ok([])
    ensures EnumerateCols(Some(m), rowSkip, rowTake, colSkip, colTake) == Ok([])
    ensures IndexedRows(Some(m), rowSkip, rowTake, colSkip, colTake) == Ok([])
    ensures IndexedCols(Some(m), rowSkip, rowTake, colSkip, colTake) == Ok([])
    ensures GroupedRows(Some(m), rowSkip, rowTake, colSkip, colTake) == Ok([])
    ensures GroupedCols(Some(m), rowSkip, rowTake, colSkip, colTake) == Ok([])
  {
    EmptyMatrixNeverFails(m, rowSkip, rowTake, colSkip, colTake);
    var g := Region(Range(0, 0), Range(0, 0));
    assert RowMajorExpected(ToJaggedRowMajor(m), g) == [];
    assert ColMajorExpected(ToJaggedColMajor(m), g) == [];
    assert RowMajorExpected(ToJaggedRowMajorIdx(m), g) == [];
    assert ColMajorExpected(ToJaggedColMajorIdx(m), g) == [];
  }

  /** A matrix with no rows still has its columns: unsliced, `EnumerateCols`
      yields one empty sequence per column rather than nothing. */
  lemma NoRowsStillHasColumns<T>(m: Matrix<T>)
    requires m.rows == 0
    ensures EnumerateCols(Some(m), 0, 0, 0, 0) == Ok(seq(m.cols, k => []))
  {
    var g := Region(Range(0, 0), Range(0, m.cols));
    var w := Window(ToJaggedColMajor(m), g.cols, g.rows);
    assert EnumerateCols(Some(m), 0, 0, 0, 0) == Ok(w) by {
      UnspecifiedSliceIsWholeMatrix(m, 0, 0);
      ColsAreWindow(m, 0, 0, 0, 0, g);
    }
    assert w == seq(m.cols, k => []) by {
      EmptyInnerWindow(ToJaggedColMajor(m), g.cols, g.rows);
    }
  }

  /** A null matrix fails every operation with an error naming `matrix`,
      whatever the slice arguments, including ones the resolver would reject. */
  lemma NullMatrixFailsFirst<T>(rowSkip: int, rowTake: int, colSkip: int, colTake: int)
    ensures EnumerateCells<T>(None, rowSkip, rowTake, colSkip, colTake) == Err(NullArgument("matrix"))
    ensures TransposeCells<T>(None, rowSkip, rowTake, colSkip, colTake) == Err(NullArgument("matrix"))
    ensures IndexedCells<T>(None, rowSkip, rowTake, colSkip, colTake) == Err(NullArgument("matrix"))
    ensures IndexedTransposeCells<T>(None, rowSkip, rowTake, colSkip, colTake) == Err(NullArgument("matrix"))
    ensures EnumerateRows<T>(None, rowSkip, rowTake, colSkip, colTake) == Err(NullArgument("matrix"))
    ensures EnumerateCols<T>(None, rowSkip, rowTake, colSkip, colTake) == Err(NullArgument("matrix"))
    ensures IndexedRows<T>(None, rowSkip, rowTake, colSkip, colTake) == Err(NullArgument("matrix"))
    ensures IndexedCols<T>(None, rowSkip, rowTake, colSkip, colTake) == Err(NullArgument("matrix"))
    ensures GroupedRows<T>(None, rowSkip, rowTake, colSkip, colTake) == Err(NullArgument("matrix"))
    ensures GroupedCols<T>(None, rowSkip, rowTake, colSkip, colTake) == Err(NullArgument("matrix"))
  {
  }
}
