/** The library's worked example, the 3 x 3 matrix
        0 1 2
        3 4 5
        6 7 8
    read through the operations, and the outcomes of its table of slice
    arguments on that matrix. The lemmas take the matrix as a parameter
    equal to `Sample` rather than naming the constant in their calls. */
module Examples {
  import opened Failures
  import opened Matrices
  import opened Jagged
  import opened Slice
  import opened ArrayExtensions
  import opened Properties

  const Sample: Matrix<int> := Array2D(3, 3, [[0, 1, 2], [3, 4, 5], [6, 7, 8]])

  /** Two sequences of three elements that agree element by element. */
  lemma Seq3<T>(s: seq<T>, a: T, b: T, c: T)
    requires |s| == 3 && s[0] == a && s[1] == b && s[2] == c
    ensures s == [a, b, c]
  {
  }

  /** Flattening two inner sequences concatenates them. */
  lemma Flatten2<T>(a: seq<T>, b: seq<T>)
    ensures Flatten([a, b]) == a + b
  {
    assert [a, b][1..] == [b];
    assert [b][1..] == [];
    assert Flatten([b]) == b;
  }

  /** Flattening three inner sequences concatenates them. */
  lemma Flatten3<T>(a: seq<T>, b: seq<T>, c: seq<T>)
    ensures Flatten([a, b, c]) == a + b + c
  {
    assert [a, b, c][1..] == [b, c];
    Flatten2(b, c);
  }

  /** The sample's rows, flattened. */
  lemma SampleRowsFlatten()
    ensures Flatten([[0, 1, 2], [3, 4, 5], [6, 7, 8]]) == [0, 1, 2, 3, 4, 5, 6, 7, 8]
  {
    Flatten3([0, 1, 2], [3, 4, 5], [6, 7, 8]);
    assert [0, 1, 2] + [3, 4, 5] == [0, 1, 2, 3, 4, 5];
  }

  /** The sample's columns, flattened. */
  lemma SampleColsFlatten()
    ensures Flatten([[0, 3, 6], [1, 4, 7], [2, 5, 8]]) == [0, 3, 6, 1, 4, 7, 2, 5, 8]
  {
    Flatten3([0, 3, 6], [1, 4, 7], [2, 5, 8]);
    assert [0, 3, 6] + [1, 4, 7] == [0, 3, 6, 1, 4, 7];
  }

  // ---------------------------------------------------------------------------
  // The whole matrix.

  /** The sample read column by column. */
  lemma SampleColumns(m: Matrix<int>)
    requires m == Sample
    ensures ToJaggedColMajor(m) == [[0, 3, 6], [1, 4, 7], [2, 5, 8]]
  {
    var cols := ToJaggedColMajor(m);
    Seq3(cols[0], 0, 3, 6);
    Seq3(cols[1], 1, 4, 7);
    Seq3(cols[2], 2, 5, 8);
    Seq3(cols, [0, 3, 6], [1, 4, 7], [2, 5, 8]);
  }

  /** Unsliced, the cells come out row by row. */
  lemma SampleCells(m: Matrix<int>)
    requires m == Sample
    ensures EnumerateCells(Some(m), 0, 0, 0, 0) == Ok([0, 1, 2, 3, 4, 5, 6, 7, 8])
  {
    assert EnumerateCells(Some(m), 0, 0, 0, 0) == Ok(Flatten(ToJaggedRowMajor(m))) by {
      WholeMatrixReadings(m);
    }
    assert ToJaggedRowMajor(m) == [[0, 1, 2], [3, 4, 5], [6, 7, 8]];
    SampleRowsFlatten();
  }

  /** Unsliced and transposed, the cells come out column by column. */
  lemma SampleTransposedCells(m: Matrix<int>)
    requires m == Sample
    ensures TransposeCells(Some(m), 0, 0, 0, 0) == Ok([0, 3, 6, 1, 4, 7, 2, 5, 8])
  {
    assert TransposeCells(Some(m), 0, 0, 0, 0) == Ok(Flatten(ToJaggedColMajor(m))) by {
      WholeMatrixReadings(m);
    }
    SampleColumns(m);
    SampleColsFlatten();
  }

  /** Unsliced, the columns are those of the matrix. */
  lemma SampleCols(m: Matrix<int>)
    requires m == Sample
    ensures EnumerateCols(Some(m), 0, 0, 0, 0) == Ok([[0, 3, 6], [1, 4, 7], [2, 5, 8]])
  {
    assert EnumerateCols(Some(m), 0, 0, 0, 0) == Ok(ToJaggedColMajor(m)) by {
      WholeMatrixReadings(m);
    }
    SampleColumns(m);
  }

  /** The first four tagged cells of the sample, row by row. */
  lemma SampleIndexedPrefix(m: Matrix<int>)
    requires m == Sample
    ensures |Flatten(ToJaggedRowMajorIdx(m))| == 9
    ensures Flatten(ToJaggedRowMajorIdx(m))[0] == Cell(0, 0, 0)
    ensures Flatten(ToJaggedRowMajorIdx(m))[3] == Cell(3, 1, 0)
  {
    var jag := ToJaggedRowMajorIdx(m);
    Seq3(jag, jag[0], jag[1], jag[2]);
    Flatten3(jag[0], jag[1], jag[2]);
    assert jag[0][0] == Cell(0, 0, 0);
    assert jag[1][0] == Cell(3, 1, 0);
  }

  /** Tagged cells carry their coordinates: in row-major order the first
      cell is the value 0 at row 0, column 0, and the fourth is the value 3
      at row 1, column 0. */
  lemma SampleIndexedCells(m: Matrix<int>)
    requires m == Sample
    ensures IndexedCells(Some(m), 0, 0, 0, 0).Ok?
    ensures |IndexedCells(Some(m), 0, 0, 0, 0).value| == 9
    ensures IndexedCells(Some(m), 0, 0, 0, 0).value[0] == Cell(0, 0, 0)
    ensures IndexedCells(Some(m), 0, 0, 0, 0).value[3] == Cell(3, 1, 0)
  {
    assert IndexedCells(Some(m), 0, 0, 0, 0) == Ok(Flatten(ToJaggedRowMajorIdx(m))) by {
      WholeMatrixReadings(m);
    }
    SampleIndexedPrefix(m);
  }

  // ---------------------------------------------------------------------------
  // A window: rows 0 and 1 crossed with columns 1 and 2.

  /** The slice `(0, 2, 1, 2)` resolves to rows `[0, 2)` and columns `[1, 3)`. */
  lemma SampleWindowRegion(m: Matrix<int>)
    requires m == Sample
    ensures ResolveSlice(m, 0, 2, 1, 2) == Ok(Region(Range(0, 2), Range(1, 3)))
  {
  }

  /** The window read from the rows of the sample. */
  lemma SampleRowWindow(m: Matrix<int>)
    requires m == Sample
    ensures Window(ToJaggedRowMajor(m), Range(0, 2), Range(1, 3)) == [[1, 2], [4, 5]]
  {
    var w := Window(ToJaggedRowMajor(m), Range(0, 2), Range(1, 3));
    assert w[0] == m.data[0][1..3] == [1, 2];
    assert w[1] == m.data[1][1..3] == [4, 5];
  }

  /** The window read from the columns of the sample. */
  lemma SampleColWindow(m: Matrix<int>)
    requires m == Sample
    ensures Window(ToJaggedColMajor(m), Range(1, 3), Range(0, 2)) == [[1, 4], [2, 5]]
  {
    SampleColumns(m);
    var cols := ToJaggedColMajor(m);
    var v := Window(cols, Range(1, 3), Range(0, 2));
    assert v[0] == cols[1][0..2] == [1, 4];
    assert v[1] == cols[2][0..2] == [2, 5];
  }

  /** The window's rows and its columns, flattened. */
  lemma WindowFlatten()
    ensures Flatten([[1, 2], [4, 5]]) == [1, 2, 4, 5]
    ensures Flatten([[1, 4], [2, 5]]) == [1, 4, 2, 5]
  {
    Flatten2([1, 2], [4, 5]);
    Flatten2([1, 4], [2, 5]);
  }

  /** The window read as rows. */
  lemma SampleWindowRows(m: Matrix<int>)
    requires m == Sample
    ensures EnumerateRows(Some(m), 0, 2, 1, 2) == Ok([[1, 2], [4, 5]])
  {
    SampleWindowRegion(m);
    RowsAreWindow(m, 0, 2, 1, 2, Region(Range(0, 2), Range(1, 3)));
    SampleRowWindow(m);
  }

  /** The window read as cells: its rows, flattened. */
  lemma SampleWindowCells(m: Matrix<int>)
    requires m == Sample
    ensures EnumerateCells(Some(m), 0, 2, 1, 2) == Ok([1, 2, 4, 5])
  {
    assert EnumerateCells(Some(m), 0, 2, 1, 2) == Ok(Flatten([[1, 2], [4, 5]])) by {
      SampleWindowRegion(m);
      CellsAreWindow(m, 0, 2, 1, 2, Region(Range(0, 2), Range(1, 3)));
      SampleRowWindow(m);
    }
    WindowFlatten();
  }

  /** The window read as transposed cells: its columns, flattened. */
  lemma SampleWindowTransposed(m: Matrix<int>)
    requires m == Sample
    ensures TransposeCells(Some(m), 0, 2, 1, 2) == Ok([1, 4, 2, 5])
  {
    assert TransposeCells(Some(m), 0, 2, 1, 2) == Ok(Flatten([[1, 4], [2, 5]])) by {
      SampleWindowRegion(m);
      TransposedCellsAreWindow(m, 0, 2, 1, 2, Region(Range(0, 2), Range(1, 3)));
      SampleColWindow(m);
    }
    WindowFlatten();
  }

  // ---------------------------------------------------------------------------
  // Guards.

  /** The table of slice arguments the library's guards are exercised with,
      each as `(rowSkip, rowTake, colSkip, colTake)` on the sample: the
      full slice passes, each single bad skip or take fails naming it. Every
      operation fails with the resolver's error, so these are the outcomes
      of all ten. */
  lemma SampleRangeGuards(m: Matrix<int>)
    requires m == Sample
    ensures ResolveSlice(m, 0, 3, 0, 3) == Ok(Region(Range(0, 3), Range(0, 3)))
    ensures ResolveSlice(m, -1, 3, 0, 3) == Err(OutOfRange(Skip))
    ensures ResolveSlice(m, 3, 3, 0, 3) == Err(OutOfRange(Skip))
    ensures ResolveSlice(m, 0, -1, 0, 3) == Err(OutOfRange(Take))
    ensures ResolveSlice(m, 0, 4, 0, 3) == Err(OutOfRange(Take))
    ensures ResolveSlice(m, 0, 3, -1, 3) == Err(OutOfRange(Skip))
    ensures ResolveSlice(m, 0, 3, 3, 3) == Err(OutOfRange(Skip))
    ensures ResolveSlice(m, 0, 3, 0, -1) == Err(OutOfRange(Take))
    ensures ResolveSlice(m, 0, 3, 0, 4) == Err(OutOfRange(Take))
  {
  }

  /** A bad row take and a bad column skip together: the row axis is
      validated first, so the call fails naming the take, although the
      column skip alone fails naming the skip. */
  lemma RowErrorMasksColumnError(m: Matrix<int>)
    requires m == Sample
    ensures EnumerateCells(Some(m), 0, 4, 3, 3) == Err(OutOfRange(Take))
    ensures EnumerateCells(Some(m), 0, 3, 3, 3) == Err(OutOfRange(Skip))
  {
  }
}
