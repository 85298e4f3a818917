/** The ten public operations. Each validates eagerly (null guard, then the
    slice resolver) and only then builds its sequence, so every failure is
    reported before any element exists. Laziness is not modelled: each
    result is the finite sequence the deferred enumeration would yield. */
module ArrayExtensions {
  import opened Failures
  import opened Matrices
  import opened Jagged
  import opened Slice
  import opened Iterators

  /** The outcome the eager prefix dictates: a null matrix fails first, with
      an error naming `matrix`; otherwise the call fails exactly when the
      slice resolver does, with the resolver's error. */
  predicate Validated<T, U>(matrix: Option<Matrix<T>>, rowSkip: int, rowTake: int, colSkip: int, colTake: int, r: Result<U>) {
    match matrix
    case None => r == Err(NullArgument("matrix"))
    case Some(m) =>
      var g := ResolveSlice(m, rowSkip, rowTake, colSkip, colTake);
      (r.Ok? <==> g.Ok?) && (r.Err? ==> r.error == g.error)
  }

  /** The region a call that passed validation traverses. */
  function RegionOf<T>(matrix: Option<Matrix<T>>, rowSkip: int, rowTake: int, colSkip: int, colTake: int): (g: Region)
    requires matrix.Some? && ResolveSlice(matrix.value, rowSkip, rowTake, colSkip, colTake).Ok?
    ensures g.Fits(matrix.value)
  {
    ResolveSlice(matrix.value, rowSkip, rowTake, colSkip, colTake).value
  }

  /** The tests' row-major expectation for a region:
      `ToJaggedRowMajor(m).Select(r => r.Skip(cs).Take(ct)).Skip(rs).Take(rt)`. */
  function RowMajorExpected<U>(jag: seq<seq<U>>, g: Region): seq<seq<U>> {
    Sliced(jag, g.rows.start, g.rows.Len(), g.cols.start, g.cols.Len())
  }

  /** The tests' column-major expectation for a region:
      `ToJaggedColMajor(m).Select(r => r.Skip(rs).Take(rt)).Skip(cs).Take(ct)`. */
  function ColMajorExpected<U>(jag: seq<seq<U>>, g: Region): seq<seq<U>> {
    Sliced(jag, g.cols.start, g.cols.Len(), g.rows.start, g.rows.Len())
  }

  // ---------------------------------------------------------------------------
  // Internal composition.

  /** Chooses the row-major or the column-major value traversal. Either way
      it yields one value per cell of the region. */
  function IterateCells<T>(m: Matrix<T>, isRowMajor: bool, g: Region): (r: seq<T>)
    requires g.Fits(m)
    ensures |r| == g.rows.Len() * g.cols.Len()
    ensures isRowMajor ==> r == Flatten(RowMajorExpected(ToJaggedRowMajor(m), g))
    ensures !isRowMajor ==> r == Flatten(ColMajorExpected(ToJaggedColMajor(m), g))
  {
    WindowIsSliced(ToJaggedRowMajor(m), g.rows, g.cols);
    WindowIsSliced(ToJaggedColMajor(m), g.cols, g.rows);
    FlattenWindowLength(ToJaggedRowMajor(m), g.rows, g.cols);
    FlattenWindowLength(ToJaggedColMajor(m), g.cols, g.rows);
    if isRowMajor then CellByRow(m, g.rows, g.cols) else CellByCol(m, g.rows, g.cols)
  }

  /** Chooses the row-major or the column-major tagged traversal. Either way
      it yields one cell per cell of the region. */
  function IterateIndexedCells<T>(m: Matrix<T>, isRowMajor: bool, g: Region): (r: seq<Cell<T>>)
    requires g.Fits(m)
    ensures |r| == g.rows.Len() * g.cols.Len()
    ensures isRowMajor ==> r == Flatten(RowMajorExpected(ToJaggedRowMajorIdx(m), g))
    ensures !isRowMajor ==> r == Flatten(ColMajorExpected(ToJaggedColMajorIdx(m), g))
  {
    WindowIsSliced(ToJaggedRowMajorIdx(m), g.rows, g.cols);
    WindowIsSliced(ToJaggedColMajorIdx(m), g.cols, g.rows);
    FlattenWindowLength(ToJaggedRowMajorIdx(m), g.rows, g.cols);
    FlattenWindowLength(ToJaggedColMajorIdx(m), g.cols, g.rows);
    if isRowMajor then IndexedCellByRow(m, g.rows, g.cols) else IndexedCellByCol(m, g.rows, g.cols)
  }

  // ---------------------------------------------------------------------------
  // The deferred outer loops of the projections: `for (row = start; row < end; row++)`
  // yielding one inner traversal (or one grouping around it) per index.

  /** One value sequence per row of the range. */
  function RowsOf<T>(m: Matrix<T>, rows: Range, cols: Range): (r: seq<seq<T>>)
    requires rows.Within(m.rows) && cols.Within(m.cols)
    ensures r == Window(ToJaggedRowMajor(m), rows, cols)
    decreases rows.Len()
  {
    if rows.start < rows.end then
      WindowCons(ToJaggedRowMajor(m), rows, cols);
      [RowValues(m, rows.start, cols)] + RowsOf(m, rows.Rest(), cols)
    else
      []
  }

  /** One value sequence per column of the range. */
  function ColsOf<T>(m: Matrix<T>, rows: Range, cols: Range): (r: seq<seq<T>>)
    requires rows.Within(m.rows) && cols.Within(m.cols)
    ensures r == Window(ToJaggedColMajor(m), cols, rows)
    decreases cols.Len()
  {
    if cols.start < cols.end then
      WindowCons(ToJaggedColMajor(m), cols, rows);
      [ColValues(m, cols.start, rows)] + ColsOf(m, rows, cols.Rest())
    else
      []
  }

  /** One tagged cell sequence per row of the range. */
  function IndexedRowsOf<T>(m: Matrix<T>, rows: Range, cols: Range): (r: seq<seq<Cell<T>>>)
    requires rows.Within(m.rows) && cols.Within(m.cols)
    ensures r == Window(ToJaggedRowMajorIdx(m), rows, cols)
    decreases rows.Len()
  {
    if rows.start < rows.end then
      WindowCons(ToJaggedRowMajorIdx(m), rows, cols);
      [RowCells(m, rows.start, cols)] + IndexedRowsOf(m, rows.Rest(), cols)
    else
      []
  }

  /** One tagged cell sequence per column of the range. */
  function IndexedColsOf<T>(m: Matrix<T>, rows: Range, cols: Range): (r: seq<seq<Cell<T>>>)
    requires rows.Within(m.rows) && cols.Within(m.cols)
    ensures r == Window(ToJaggedColMajorIdx(m), cols, rows)
    decreases cols.Len()
  {
    if cols.start < cols.end then
      WindowCons(ToJaggedColMajorIdx(m), cols, rows);
      [ColCells(m, cols.start, rows)] + IndexedColsOf(m, rows, cols.Rest())
    else
      []
  }

  /** One grouping per row of the range: the k-th is keyed by the row index
      `rows.start + k` and holds that row's tagged cells. */
  function GroupedRowsOf<T>(m: Matrix<T>, rows: Range, cols: Range): (r: seq<Grouping<T>>)
    requires rows.Within(m.rows) && cols.Within(m.cols)
    ensures |r| == rows.Len()
    ensures forall k :: 0 <= k < |r| ==>
      r[k] == Grouping(rows.start + k, Window(ToJaggedRowMajorIdx(m), rows, cols)[k])
    decreases rows.Len()
  {
    if rows.start < rows.end then
      WindowCons(ToJaggedRowMajorIdx(m), rows, cols);
      [Grouping(rows.start, RowCells(m, rows.start, cols))] + GroupedRowsOf(m, rows.Rest(), cols)
    else
      []
  }

  /** One grouping per column of the range: the k-th is keyed by the column
      index `cols.start + k` and holds that column's tagged cells. */
  function GroupedColsOf<T>(m: Matrix<T>, rows: Range, cols: Range): (r: seq<Grouping<T>>)
    requires rows.Within(m.rows) && cols.Within(m.cols)
    ensures |r| == cols.Len()
    ensures forall k :: 0 <= k < |r| ==>
      r[k] == Grouping(cols.start + k, Window(ToJaggedColMajorIdx(m), cols, rows)[k])
    decreases cols.Len()
  {
    if cols.start < cols.end then
      WindowCons(ToJaggedColMajorIdx(m), cols, rows);
      [Grouping(cols.start, ColCells(m, cols.start, rows))] + GroupedColsOf(m, rows, cols.Rest())
    else
      []
  }

  // ---------------------------------------------------------------------------
  // Cells.

  /** The values of the region in row-major order. */
  function EnumerateCells<T>(matrix: Option<Matrix<T>>, rowSkip: int, rowTake: int, colSkip: int, colTake: int): (r: Result<seq<T>>)
    ensures Validated(matrix, rowSkip, rowTake, colSkip, colTake, r)
    ensures r.Ok? ==>
      var g := RegionOf(matrix, rowSkip, rowTake, colSkip, colTake);
      r.value == Flatten(RowMajorExpected(ToJaggedRowMajor(matrix.value), g)) &&
      |r.value| == g.rows.Len() * g.cols.Len()
  {
    var m :- CheckNotNull(matrix, "matrix");
    var g :- ResolveSlice(m, rowSkip, rowTake, colSkip, colTake);
    Ok(IterateCells(m, true, g))
  }

  /** The values of the region in column-major order; the slice arguments
      still name rows and columns of the original matrix. */
  function TransposeCells<T>(matrix: Option<Matrix<T>>, rowSkip: int, rowTake: int, colSkip: int, colTake: int): (r: Result<seq<T>>)
    ensures Validated(matrix, rowSkip, rowTake, colSkip, colTake, r)
    ensures r.Ok? ==>
      var g := RegionOf(matrix, rowSkip, rowTake, colSkip, colTake);
      r.value == Flatten(ColMajorExpected(ToJaggedColMajor(matrix.value), g)) &&
      |r.value| == g.rows.Len() * g.cols.Len()
  {
    var m :- CheckNotNull(matrix, "matrix");
    var g :- ResolveSlice(m, rowSkip, rowTake, colSkip, colTake);
    Ok(IterateCells(m, false, g))
  }

  /** The cells of the region in row-major order, tagged with coordinates. */
  function IndexedCells<T>(matrix: Option<Matrix<T>>, rowSkip: int, rowTake: int, colSkip: int, colTake: int): (r: Result<seq<Cell<T>>>)
    ensures Validated(matrix, rowSkip, rowTake, colSkip, colTake, r)
    ensures r.Ok? ==>
      var g := RegionOf(matrix, rowSkip, rowTake, colSkip, colTake);
      r.value == Flatten(RowMajorExpected(ToJaggedRowMajorIdx(matrix.value), g)) &&
      |r.value| == g.rows.Len() * g.cols.Len()
  {
    var m :- CheckNotNull(matrix, "matrix");
    var g :- ResolveSlice(m, rowSkip, rowTake, colSkip, colTake);
    Ok(IterateIndexedCells(m, true, g))
  }

  /** The cells of the region in column-major order, each still tagged with
      its coordinates in the original matrix. */
  function IndexedTransposeCells<T>(matrix: Option<Matrix<T>>, rowSkip: int, rowTake: int, colSkip: int, colTake: int): (r: Result<seq<Cell<T>>>)
    ensures Validated(matrix, rowSkip, rowTake, colSkip, colTake, r)
    ensures r.Ok? ==>
      var g := RegionOf(matrix, rowSkip, rowTake, colSkip, colTake);
      r.value == Flatten(ColMajorExpected(ToJaggedColMajorIdx(matrix.value), g)) &&
      |r.value| == g.rows.Len() * g.cols.Len()
  {
    var m :- CheckNotNull(matrix, "matrix");
    var g :- ResolveSlice(m, rowSkip, rowTake, colSkip, colTake);
    Ok(IterateIndexedCells(m, false, g))
  }

  // ---------------------------------------------------------------------------
  // Rows and columns.

  /** One value sequence per row of the region, top to bottom. */
  function EnumerateRows<T>(matrix: Option<Matrix<T>>, rowSkip: int, rowTake: int, colSkip: int, colTake: int): (r: Result<seq<seq<T>>>)
    ensures Validated(matrix, rowSkip, rowTake, colSkip, colTake, r)
    ensures r.Ok? ==>
      r.value == RowMajorExpected(ToJaggedRowMajor(matrix.value), RegionOf(matrix, rowSkip, rowTake, colSkip, colTake))
  {
    var m :- CheckNotNull(matrix, "matrix");
    var g :- ResolveSlice(m, rowSkip, rowTake, colSkip, colTake);
    WindowIsSliced(ToJaggedRowMajor(m), g.rows, g.cols);
    Ok(RowsOf(m, g.rows, g.cols))
  }

  /** One value sequence per column of the region, left to right. */
  function EnumerateCols<T>(matrix: Option<Matrix<T>>, rowSkip: int, rowTake: int, colSkip: int, colTake: int): (r: Result<seq<seq<T>>>)
    ensures Validated(matrix, rowSkip, rowTake, colSkip, colTake, r)
    ensures r.Ok? ==>
      r.value == ColMajorExpected(ToJaggedColMajor(matrix.value), RegionOf(matrix, rowSkip, rowTake, colSkip, colTake))
  {
    var m :- CheckNotNull(matrix, "matrix");
    var g :- ResolveSlice(m, rowSkip, rowTake, colSkip, colTake);
    WindowIsSliced(ToJaggedColMajor(m), g.cols, g.rows);
    Ok(ColsOf(m, g.rows, g.cols))
  }

  /** One tagged cell sequence per row of the region. */
  function IndexedRows<T>(matrix: Option<Matrix<T>>, rowSkip: int, rowTake: int, colSkip: int, colTake: int): (r: Result<seq<seq<Cell<T>>>>)
    ensures Validated(matrix, rowSkip, rowTake, colSkip, colTake, r)
    ensures r.Ok? ==>
      r.value == RowMajorExpected(ToJaggedRowMajorIdx(matrix.value), RegionOf(matrix, rowSkip, rowTake, colSkip, colTake))
  {
    var m :- CheckNotNull(matrix, "matrix");
    var g :- ResolveSlice(m, rowSkip, rowTake, colSkip, colTake);
    WindowIsSliced(ToJaggedRowMajorIdx(m), g.rows, g.cols);
    Ok(IndexedRowsOf(m, g.rows, g.cols))
  }

  /** One tagged cell sequence per column of the region. */
  function IndexedCols<T>(matrix: Option<Matrix<T>>, rowSkip: int, rowTake: int, colSkip: int, colTake: int): (r: Result<seq<seq<Cell<T>>>>)
    ensures Validated(matrix, rowSkip, rowTake, colSkip, colTake, r)
    ensures r.Ok? ==>
      r.value == ColMajorExpected(ToJaggedColMajorIdx(matrix.value), RegionOf(matrix, rowSkip, rowTake, colSkip, colTake))
  {
    var m :- CheckNotNull(matrix, "matrix");
    var g :- ResolveSlice(m, rowSkip, rowTake, colSkip, colTake);
    WindowIsSliced(ToJaggedColMajorIdx(m), g.cols, g.rows);
    Ok(IndexedColsOf(m, g.rows, g.cols))
  }

  /** One grouping per row of the region, keyed by the row's index in the
      original matrix and holding that row's tagged cells. */
  function GroupedRows<T>(matrix: Option<Matrix<T>>, rowSkip: int, rowTake: int, colSkip: int, colTake: int): (r: Result<seq<Grouping<T>>>)
    ensures Validated(matrix, rowSkip, rowTake, colSkip, colTake, r)
    ensures r.Ok? ==>
      var g := RegionOf(matrix, rowSkip, rowTake, colSkip, colTake);
      var rows := RowMajorExpected(ToJaggedRowMajorIdx(matrix.value), g);
      |r.value| == |rows| &&
      forall k :: 0 <= k < |r.value| ==> r.value[k] == Grouping(g.rows.start + k, rows[k])
  {
    var m :- CheckNotNull(matrix, "matrix");
    var g :- ResolveSlice(m, rowSkip, rowTake, colSkip, colTake);
    WindowIsSliced(ToJaggedRowMajorIdx(m), g.rows, g.cols);
    Ok(GroupedRowsOf(m, g.rows, g.cols))
  }

  /** One grouping per column of the region, keyed by the column's index in
      the original matrix and holding that column's tagged cells. */
  function GroupedCols<T>(matrix: Option<Matrix<T>>, rowSkip: int, rowTake: int, colSkip: int, colTake: int): (r: Result<seq<Grouping<T>>>)
    ensures Validated(matrix, rowSkip, rowTake, colSkip, colTake, r)
    ensures r.Ok? ==>
      var g := RegionOf(matrix, rowSkip, rowTake, colSkip, colTake);
      var cols := ColMajorExpected(ToJaggedColMajorIdx(matrix.value), g);
      |r.value| == |cols| &&
      forall k :: 0 <= k < |r.value| ==> r.value[k] == Grouping(g.cols.start + k, cols[k])
  {
    var m :- CheckNotNull(matrix, "matrix");
    var g :- ResolveSlice(m, rowSkip, rowTake, colSkip, colTake);
    WindowIsSliced(ToJaggedColMajorIdx(m), g.cols, g.rows);
    Ok(GroupedColsOf(m, g.rows, g.cols))
  }
}
