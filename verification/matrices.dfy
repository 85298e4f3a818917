/** The value types of the library: the rectangular two-dimensional array it
    reads, and the `Cell` and `Grouping` carriers it produces. */
module Matrices {

  /** A zero-based two-dimensional array of `rows` by `cols` elements, stored
      row by row. The extents are kept explicitly so that a `0 x n` array and
      an `n x 0` array stay distinct. */
  datatype Array2D<T> = Array2D(rows: nat, cols: nat, data: seq<seq<T>>) {
    predicate Rectangular() {
      |data| == rows && forall i :: 0 <= i < |data| ==> |data[i]| == cols
    }
  }

  /** Every two-dimensional array is rectangular: jagged shapes do not exist. */
  type Matrix<T> = a: Array2D<T> | a.Rectangular() witness Array2D(0, 0, [])

  /** The element at row `i`, column `j`. */
  function At<T>(m: Matrix<T>, i: int, j: int): T
    requires 0 <= i < m.rows && 0 <= j < m.cols
  {
    m.data[i][j]
  }

  /** A value together with the row and column it was read from. The
      coordinates are always those of the original array, whatever the
      traversal order. */
  datatype Cell<T> = Cell(v: T, r: int, c: int)

  /** A row or column index together with the cells of that row or column. */
  datatype Grouping<T> = Grouping(key: int, values: seq<Cell<T>>)

  /** A half-open index range `[start, end)` on one axis. The second component
      is an exclusive END index, not a count of elements, although the
      resolver's callers keep calling it a "take" or a "length". */
  datatype Range = Range(start: int, end: int) {

    /** The number of indices in the range. */
    function Len(): int {
      end - start
    }

    /** The range lies inside an axis of the given extent. */
    predicate Within(extent: int) {
      0 <= start <= end <= extent
    }

    /** The range that remains once the loop has visited `start`. */
    function Rest(): Range {
      Range(start + 1, end)
    }

    predicate Contains(i: int) {
      start <= i < end
    }
  }

  /** A resolved rectangular sub-region: a row range and a column range. */
  datatype Region = Region(rows: Range, cols: Range) {
    predicate Fits<T>(m: Matrix<T>) {
      rows.Within(m.rows) && cols.Within(m.cols)
    }
  }

  /** The values carried by a sequence of cells, in order. */
  function Values<T>(cells: seq<Cell<T>>): seq<T> {
    seq(|cells|, k requires 0 <= k < |cells| => cells[k].v)
  }

  /** Taking the values distributes over concatenation: the values of a
      traversal are the values of its parts, in order. */
  lemma ValuesAppend<T>(a: seq<Cell<T>>, b: seq<Cell<T>>)
    ensures Values(a + b) == Values(a) + Values(b)
  {
    var l := Values(a + b);
    var rr := Values(a) + Values(b);
    assert |l| == |rr|;
    forall k | 0 <= k < |l|
      ensures l[k] == rr[k]
    {
      if k < |a| {
        assert (a + b)[k] == a[k];
      } else {
        assert (a + b)[k] == b[k - |a|];
      }
    }
  }
}
