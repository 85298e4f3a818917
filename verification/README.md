# Unravel.Array in Dafny

A model of the core of Unravel.Array, a C# library of extension methods that
turn a regular two-dimensional array `T[,]` into sequences. The library has
two parts:

- **The slice resolver** (`Slice`). It turns the caller's optional
  `(rowSkip, rowTake, colSkip, colTake)` into a row range and a column range,
  or it fails with an out-of-range error that names `skip` or `take`.
  - A take of 0 means "not specified": that axis spans its full extent and
    its skip is ignored.
  - An axis of extent 0 always resolves to `(0, 0)`.
  - The second component of a resolved pair is an exclusive END index
    (`skip + take`), although the library's callers go on calling it
    `rowTake` or `lengthRow`. The model names it `Range.end`.
- **The traversal engine** (`ArrayExtensions`, `Iterators`). Eight loops
  read the region row-major or column-major, as plain values or as `Cell`s
  tagged with their original coordinates. Ten public operations compose them
  with the resolver:
  - `EnumerateCells`, `TransposeCells`, `IndexedCells`, `IndexedTransposeCells`;
  - `EnumerateRows`, `EnumerateCols`, `IndexedRows`, `IndexedCols`;
  - `GroupedRows`, `GroupedCols`.

Modules, one per file:

| file | module | contents |
|---|---|---|
| `failures.dfy` | `Failures` | `Option` for a nullable argument; `Result`/`Error` for the two eager failures; the null guard |
| `matrices.dfy` | `Matrices` | the rectangular `Matrix`, `Range`, `Region`, `Cell`, `Grouping` |
| `slice.dfy` | `Slice` | the resolver, plus the 32-bit version of its arithmetic |
| `jagged.dfy` | `Jagged` | reference readings used as partners: the matrix as a jagged sequence of rows or columns, LINQ `Skip`/`Take`/`SelectMany`, and the `Window` of slices |
| `iterators.dfy` | `Iterators` | the eight loops as recursion on the range still to visit, plus one imperative nested loop over `array2` |
| `array_extensions.dfy` | `ArrayExtensions` | `IterateCells`, `IterateIndexedCells` and the ten public operations |
| `properties.dfy` | `Properties` | laws relating the operations to each other and to the matrix |
| `examples.dfy` | `Examples` | the library's 3 x 3 example `[[0,1,2],[3,4,5],[6,7,8]]` and its table of guard cases |

How the pieces are modelled:

- A call that throws becomes `Err(...)`. A call that succeeds becomes
  `Ok(s)`, where `s` is the finite sequence the deferred enumeration would
  yield. Every operation validates eagerly, so every failure is reported
  before any element exists.
- Every operation's contract does two things:
  - it ties the outcome to the resolver (`Validated`): a null matrix fails
    first, and otherwise the call fails exactly when the resolver does, with
    the resolver's error;
  - it equates the result with the LINQ expression the library's tests
    expect, `jag.Select(r => r.Skip(..).Take(..)).Skip(..).Take(..)`.

## Model

| member | source | states |
|---|---|---|
| `Failures.CheckNotNull` | ArrayExtensions/ArrayExtensions.cs:374-380 | fails exactly on a null argument, with an error carrying the parameter's name; otherwise passes the value through |
| `Slice.ResolveAxis` | ArrayExtensions/Slice.cs:27-38 | accepts iff the extent is 0 or `0 <= skip`, `1 <= take`, `skip + take <= extent`; a bad skip is reported before the take is looked at; an empty axis gives `(0,0)`; otherwise the range starts at `skip`, has length `take`, is non-empty and lies inside the axis |
| `Slice.AxisDefault` | ArrayExtensions/Slice.cs:69-77 | the default range starts at the lower bound 0 and its second component is the axis length; it contains exactly the indices `0 <= i < extent` |
| `Slice.RowDefault` | ArrayExtensions/Slice.cs:66 | the default row range lies inside the matrix and contains exactly the row indices `0 <= i < rows` |
| `Slice.ColDefault` | ArrayExtensions/Slice.cs:67 | the default column range lies inside the matrix and contains exactly the column indices `0 <= j < cols` |
| `Slice.SliceDefault` | ArrayExtensions/Slice.cs:65 | the default region fits the matrix, spans all its rows and columns, and holds a coordinate pair exactly when it is a cell of the matrix |
| `Slice.ResolveSlice` | ArrayExtensions/Slice.cs:40-63 | succeeds iff every axis with a non-zero take accepts its arguments; on success both ranges fit the matrix, and an axis with take 0 (or extent 0) spans its full extent; on failure the error is the row axis's error if that axis was requested and rejected, else the column axis's |
| `Slice.UnspecifiedSliceIsWholeMatrix` | ArrayExtensions/Slice.cs:57-77 | with both takes 0 the whole matrix is selected and the call never fails, whatever the skips are |
| `Slice.UnrequestedSkipIsIgnored` | ArrayExtensions/Slice.cs:47-56 | when one axis's take is 0, that axis's skip changes neither the outcome nor the error |
| `Slice.EmptyMatrixNeverFails` | ArrayExtensions/Slice.cs:29-30 | a 0 x 0 matrix resolves to `((0,0),(0,0))` for any arguments |
| `Slice.ResolveAxisAsWritten` | ArrayExtensions/Slice.cs:27-38 | the resolver with unchecked 32-bit `take + skip`; it agrees with `ResolveAxis` whenever the sum fits in 32 bits |
| `Slice.OverflowingTakeIsAccepted` | ArrayExtensions/Slice.cs:34-37 | every valid skip whose sum with the take exceeds `int.MaxValue` passes the source's check and gives a range whose end lies below its start; the intended check rejects the take |
| `Slice.OverflowExample` | ArrayExtensions/Slice.cs:34-37 | on a 3-row axis, `skip = 1, take = int.MaxValue` is accepted as written and resolves to `(1, int.MinValue)` |
| `Jagged.WindowIsSliced` | Tests/Tests.cs:104-115 | for ranges inside the data, the tests' Skip/Take expression equals the window of plain slices `[outer) x [inner)` |
| `Jagged.FlattenWindowLength` | ArrayExtensions/ArrayExtensions.cs:320-346 | a flattened window has exactly `outer.Len() * inner.Len()` elements |
| `Jagged.InFlatten` | Tests/Tests.cs:35 | an element is in a flattening iff it is in one of the inner sequences |
| `Iterators.RowValues` | ArrayExtensions/ArrayExtensions.cs:360-364 | the column loop over row `row` yields that row's elements in the column range, in order |
| `Iterators.RowCells` | ArrayExtensions/ArrayExtensions.cs:366-370 | the same loop yields the tagged cells of that row segment |
| `Iterators.ColValues` | ArrayExtensions/ArrayExtensions.cs:348-352 | the row loop over column `col` yields that column's elements in the row range, in order |
| `Iterators.ColCells` | ArrayExtensions/ArrayExtensions.cs:354-358 | the same loop yields the tagged cells of that column segment |
| `Iterators.CellByRow` | ArrayExtensions/ArrayExtensions.cs:327-332 | rows outer, columns inner: the flattening of the row-major window |
| `Iterators.CellByCol` | ArrayExtensions/ArrayExtensions.cs:320-325 | columns outer, rows inner: the flattening of the column-major window, with the ranges still naming source rows and columns |
| `Iterators.IndexedCellByRow` | ArrayExtensions/ArrayExtensions.cs:341-346 | the flattening of the row-major tagged window |
| `Iterators.IndexedCellByCol` | ArrayExtensions/ArrayExtensions.cs:334-339 | the flattening of the column-major tagged window |
| `Iterators.RowLoop` | ArrayExtensions/ArrayExtensions.cs:360-364 | the imperative column loop over an `array2` collects exactly the row segment |
| `Iterators.CellByRowLoop` | ArrayExtensions/ArrayExtensions.cs:327-332 | the imperative nested loop over an `array2` collects exactly what the functional row-major traversal yields |
| `ArrayExtensions.IterateCells` | ArrayExtensions/ArrayExtensions.cs:135-141 | the flag picks the order; the result is the row-major or column-major LINQ expectation, with one value per cell of the region |
| `ArrayExtensions.IterateIndexedCells` | ArrayExtensions/ArrayExtensions.cs:143-149 | the same, for tagged cells |
| `ArrayExtensions.RowsOf` | ArrayExtensions/ArrayExtensions.cs:225-231 | the deferred row loop yields the row-major window, one row segment per row |
| `ArrayExtensions.ColsOf` | ArrayExtensions/ArrayExtensions.cs:253-259 | the deferred column loop yields the column-major window |
| `ArrayExtensions.IndexedRowsOf` | ArrayExtensions/ArrayExtensions.cs:197-203 | the tagged row-major window |
| `ArrayExtensions.IndexedColsOf` | ArrayExtensions/ArrayExtensions.cs:281-287 | the tagged column-major window |
| `ArrayExtensions.GroupedRowsOf` | ArrayExtensions/ArrayExtensions.cs:169-175 | one grouping per row; the k-th has key `rows.start + k` and holds the k-th tagged row segment |
| `ArrayExtensions.GroupedColsOf` | ArrayExtensions/ArrayExtensions.cs:309-315 | one grouping per column; the k-th has key `cols.start + k` and holds the k-th tagged column segment |
| `ArrayExtensions.EnumerateCells` | ArrayExtensions/ArrayExtensions.cs:60-66 | fails with the null-argument error on a null matrix, otherwise exactly when the slice resolver fails and with its error; on success it equals the tests' expression: the rows of the matrix, each trimmed with Skip/Take to the resolved columns, trimmed to the resolved rows, then flattened |
| `ArrayExtensions.TransposeCells` | ArrayExtensions/ArrayExtensions.cs:83-89 | fails with the null-argument error on a null matrix, otherwise exactly when the slice resolver fails and with its error; on success it equals the same expression over the columns of the matrix (columns trimmed to the resolved rows, trimmed to the resolved columns), flattened |
| `ArrayExtensions.IndexedCells` | ArrayExtensions/ArrayExtensions.cs:104-110 | fails with the null-argument error on a null matrix, otherwise exactly when the slice resolver fails and with its error; on success it equals the row-major expression over the matrix's tagged cells, flattened |
| `ArrayExtensions.IndexedTransposeCells` | ArrayExtensions/ArrayExtensions.cs:127-133 | fails with the null-argument error on a null matrix, otherwise exactly when the slice resolver fails and with its error; on success it equals the column-major expression over the matrix's tagged cells, flattened |
| `ArrayExtensions.EnumerateRows` | ArrayExtensions/ArrayExtensions.cs:220-232 | fails with the null-argument error on a null matrix, otherwise exactly when the slice resolver fails and with its error; on success it equals the row-major Skip/Take expression itself, one sequence per selected row |
| `ArrayExtensions.EnumerateCols` | ArrayExtensions/ArrayExtensions.cs:248-260 | fails with the null-argument error on a null matrix, otherwise exactly when the slice resolver fails and with its error; on success it equals the column-major Skip/Take expression, one sequence per selected column |
| `ArrayExtensions.IndexedRows` | ArrayExtensions/ArrayExtensions.cs:192-204 | fails with the null-argument error on a null matrix, otherwise exactly when the slice resolver fails and with its error; on success it equals the row-major Skip/Take expression over tagged cells |
| `ArrayExtensions.IndexedCols` | ArrayExtensions/ArrayExtensions.cs:276-288 | fails with the null-argument error on a null matrix, otherwise exactly when the slice resolver fails and with its error; on success it equals the column-major Skip/Take expression over tagged cells |
| `ArrayExtensions.GroupedRows` | ArrayExtensions/ArrayExtensions.cs:164-176 | fails with the null-argument error on a null matrix, otherwise exactly when the slice resolver fails and with its error; on success the k-th grouping has key `rowStart + k` (the row's original index) and holds the k-th row of the row-major tagged expression |
| `ArrayExtensions.GroupedCols` | ArrayExtensions/ArrayExtensions.cs:304-316 | fails with the null-argument error on a null matrix, otherwise exactly when the slice resolver fails and with its error; on success the k-th grouping has key `colStart + k` and holds the k-th column of the column-major tagged expression |
| `Properties.RowsFlattenToCells` | ArrayExtensions/ArrayExtensions.cs:220-232 | `EnumerateRows` and `EnumerateCells` fail alike, and flattening the rows gives the cells |
| `Properties.ColsFlattenToTransposedCells` | ArrayExtensions/ArrayExtensions.cs:248-260 | `EnumerateCols` and `TransposeCells` fail alike, and flattening the columns gives the transposed cells |
| `Properties.IndexedRowsFlattenToIndexedCells` | ArrayExtensions/ArrayExtensions.cs:192-204 | flattening `IndexedRows` gives `IndexedCells` |
| `Properties.IndexedColsFlattenToIndexedTransposeCells` | ArrayExtensions/ArrayExtensions.cs:276-288 | flattening `IndexedCols` gives `IndexedTransposeCells` |
| `Properties.IndexedValuesAreCells` | ArrayExtensions/ArrayExtensions.cs:334-346 | the values of the tagged cells, in either order, are the plain cells of the same call |
| `Properties.InRowWindow` | ArrayExtensions/ArrayExtensions.cs:341-346 | a cell is in the row-major tagged window iff it holds the matrix value at its own coordinates inside the region |
| `Properties.InColWindow` | ArrayExtensions/ArrayExtensions.cs:334-339 | the same for the column-major tagged window |
| `Properties.CellsCarryOriginalCoordinates` | ArrayExtensions/ArrayExtensions.cs:334-346 | every cell `IndexedCells` or `IndexedTransposeCells` yields has `V == matrix[R, C]` with `R`, `C` the original coordinates inside the resolved ranges, and every cell of the region is yielded |
| `Properties.GroupedRowsMatchRows` | ArrayExtensions/ArrayExtensions.cs:164-176 | the k-th row grouping has key `rowStart + k`, holds the k-th element of `IndexedRows`, and its values are the k-th element of `EnumerateRows` |
| `Properties.GroupedColsMatchCols` | ArrayExtensions/ArrayExtensions.cs:304-316 | the column counterpart, with key `colStart + k` |
| `Properties.GroupSumsMatchRowSums` | Tests/Tests.cs:392-404 | over the whole matrix, grouping `i` has key `i` and its values sum to the sum of row `i` |
| `Properties.RowsAreWindow` | ArrayExtensions/ArrayExtensions.cs:220-232 | once the slice resolves to a region, `EnumerateRows` is that region's window of plain row slices |
| `Properties.ColsAreWindow` | ArrayExtensions/ArrayExtensions.cs:248-260 | the same for `EnumerateCols` and column slices |
| `Properties.CellsAreWindow` | ArrayExtensions/ArrayExtensions.cs:60-66 | `EnumerateCells` is the flattened row window of the resolved region |
| `Properties.TransposedCellsAreWindow` | ArrayExtensions/ArrayExtensions.cs:83-89 | `TransposeCells` is the flattened column window of the resolved region |
| `Properties.IndexedCellsAreWindow` | ArrayExtensions/ArrayExtensions.cs:104-110 | `IndexedCells` is the flattened tagged row window of the resolved region |
| `Properties.WholeMatrixReadings` | Tests/Tests.cs:81-86 | with no slice arguments each operation reads the whole matrix: the flat row-major or column-major reading, or the rows or columns themselves |
| `Properties.EmptyMatrixHasEmptyRegion` | ArrayExtensions/Slice.cs:29-30 | a matrix with no rows or no columns resolves to a region of area 0 |
| `Properties.EmptyMatrixYieldsNoCells` | ArrayExtensions/ArrayExtensions.cs:320-346 | on a matrix with no rows or no columns, the four cell traversals either fail or yield nothing |
| `Properties.EmptyMatrixYieldsNothing` | Tests/Tests.cs:596-607 | a 0 x 0 matrix never fails, and every cell traversal yields the empty sequence |
| `Properties.EmptyMatrixHasNoRowsOrCols` | Tests/Tests.cs:596-607 | a 0 x 0 matrix never fails, and every projection yields no rows, columns or groupings |
| `Properties.NoRowsStillHasColumns` | ArrayExtensions/ArrayExtensions.cs:248-260 | on an `0 x n` matrix, unsliced `EnumerateCols` yields `n` empty columns, not nothing |
| `Properties.NullMatrixFailsFirst` | ArrayExtensions/ArrayExtensions.cs:62 | a null matrix fails all ten operations with the null-argument error naming `matrix`, whatever the slice arguments |
| `Examples.SampleCells` | Tests/Tests.cs:68-78 | unsliced, the example's cells are `0..8` in row-major order |
| `Examples.SampleTransposedCells` | Tests/Tests.cs:131-141 | unsliced and transposed they are `0,3,6,1,4,7,2,5,8` |
| `Examples.SampleCols` | Tests/Tests.cs:433-446 | unsliced, the columns are `[0,3,6],[1,4,7],[2,5,8]` |
| `Examples.SampleIndexedCells` | Tests/Tests.cs:177-186 | unsliced, there are 9 tagged cells; the first is value 0 at `(0,0)` and the fourth is value 3 at `(1,0)` |
| `Examples.SampleWindowCells` | Tests/Tests.cs:89-102 | the slice `(0,2,1,2)` yields the cells `[1,2,4,5]` |
| `Examples.SampleWindowRows` | Tests/Tests.cs:282-296 | the same slice yields the rows `[[1,2],[4,5]]` |
| `Examples.SampleWindowTransposed` | ArrayExtensions/ArrayExtensions.cs:320-325 | the same slice, transposed, yields `[1,4,2,5]` |
| `Examples.SampleRangeGuards` | Tests/Tests.cs:609-622 | the nine guard cases: the full slice passes; a skip of -1 or 3 fails naming `skip`; a take of -1 or 4 fails naming `take` |
| `Examples.RowErrorMasksColumnError` | ArrayExtensions/Slice.cs:42-46 | a bad row take together with a bad column skip fails naming `take`, although the column skip alone fails naming `skip` |

## Left out

- Deferred execution is left out: the `yield` state machines, the `IEnumerable`, `IEnumerator` and `IGrouping` interface plumbing, and `Cell.Deconstruct`. Each result is the finite sequence the enumeration would produce.
- Default parameter values: in C# all four slice arguments of every operation default to 0. The model's operations take all four explicitly, so the unsliced call is `(0, 0, 0, 0)`, as in `Properties.WholeMatrixReadings`.
- Exception types and message texts are left out. Only the distinction between a null argument (naming `matrix`) and an out-of-range argument (naming `skip` or `take`) is kept.
- Arrays with non-zero lower bounds (`GetLowerBound`) are not modelled. Every matrix is zero-based, and `Slice.AxisDefault` returns the lower bound 0.
- Concurrent mutation of the array while it is being enumerated is not modelled. The matrix is an immutable value.
- Integer width: the model uses unbounded integers. The one place where 32-bit arithmetic changes behaviour, `take + skip`, is modelled separately by `Slice.ResolveAxisAsWritten` (see Findings). Extents and coordinates fit in 32 bits for any real array.
- The test harness in `Tests/Tests.cs` is not modelled. Its expected equations appear as the reference definitions in `Jagged` and as the lemmas cited above.
- `Iterators.CellByRowLoop`: only the row-major nested loop is also written imperatively over `array2`. The other seven loops are modelled functionally only.

Where the code and the library's own documentation differ, the model follows the code:

- The documentation comments say the operations throw when any skip or take is out of range. The code never looks at a skip whose take is 0 (`Slice.UnrequestedSkipIsIgnored`).
- The guard test helper at `Tests/Tests.cs:581-594` expects an error naming `skip` whenever any skip is out of range. The code validates the row axis completely before the column axis, so `(0, 4, 3, 3)` on a 3 x 3 matrix fails naming `take` (`Examples.RowErrorMasksColumnError`). The test table never contains that combination.
- An empty matrix is not empty for every operation: on a `0 x n` matrix, `EnumerateCols` yields `n` empty columns (`Properties.NoRowsStillHasColumns`).

## Findings

| source | as written | input that shows it | evidently intended | confidence | as-written member | corrected member |
|---|---|---|---|---|---|---|
| ArrayExtensions/Slice.cs:34-37 | `take + skip` is computed in unchecked 32-bit arithmetic, both in the bound test and in the returned end | a matrix with 3 rows, `rowSkip = 1`, `rowTake = int.MaxValue`: the sum wraps to `int.MinValue`, passes `take + skip > length`, and the axis resolves to `(1, int.MinValue)`; instead of throwing, the four cell traversals and the three projections along the overflowing axis yield nothing, while the three projections along the other axis (here `EnumerateCols`, `IndexedCols`, `GroupedCols` with `colTake = 0`) yield one empty column or grouping per column | reject the take with an out-of-range error naming `take`, as for any take that runs past the end of the axis | not executed | `Slice.ResolveAxisAsWritten` (shown by `Slice.OverflowingTakeIsAccepted`, `Slice.OverflowExample`) | `Slice.ResolveAxis` |
