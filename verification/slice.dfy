/** The slice resolver: turns the caller's `(rowSkip, rowTake, colSkip, colTake)`
    into a row range and a column range, or fails naming `skip` or `take`.
    A take of 0 means "not specified": that axis then spans its full extent. */
module Slice {
  import opened Failures
  import opened Matrices

  /** What one explicitly requested axis accepts: an axis of extent 0 accepts
      anything, otherwise the window `[skip, skip + take)` must be non-empty
      and lie inside the axis. */
  predicate AxisAccepts(extent: int, skip: int, take: int) {
    extent == 0 || (0 <= skip && 1 <= take && skip + take <= extent)
  }

  /** The error a rejected axis reports: a bad skip is reported before the
      take is looked at. */
  function AxisError(extent: int, skip: int): Error {
    if skip < 0 || skip > extent - 1 then OutOfRange(Skip) else OutOfRange(Take)
  }

  /** The error a rejected slice reports: the row axis's error if the row
      axis was requested and rejected, the column axis's error otherwise. */
  function SliceError<T>(m: Matrix<T>, rowSkip: int, rowTake: int, colSkip: int): Error {
    if rowTake != 0 && !AxisAccepts(m.rows, rowSkip, rowTake)
    then AxisError(m.rows, rowSkip)
    else AxisError(m.cols, colSkip)
  }

  /** The range an accepted axis stands for: the full extent when the take is
      unspecified or the axis is empty, the requested window otherwise. */
  function Requested(extent: nat, skip: int, take: int): Range {
    if take == 0 || extent == 0 then Range(0, extent) else Range(skip, skip + take)
  }

  /** Validates one explicitly requested axis. On success the range's second
      component is the exclusive end `skip + take`, so its length is `take`. */
  function ResolveAxis(extent: nat, skip: int, take: int): (r: Result<Range>)
    ensures r.Ok? <==> AxisAccepts(extent, skip, take)
    ensures r.Err? ==> r.error == AxisError(extent, skip)
    ensures r.Ok? ==> r.value.Within(extent)
    ensures r.Ok? && extent == 0 ==> r.value == Range(0, 0)
    ensures r.Ok? && extent > 0 ==> r.value.start == skip && r.value.Len() == take && r.value.start < r.value.end
  {
    if extent == 0 then
      Ok(Range(0, 0))
    else if skip < 0 || skip > extent - 1 then
      Err(OutOfRange(Skip))
    else if take < 1 || take + skip > extent then
      Err(OutOfRange(Take))
    else
      Ok(Range(skip, take + skip))
  }

  /** The full extent of an axis of a zero-based array: it starts at the lower
      bound 0 and its second component is the axis length, which is also its
      exclusive end only because the lower bound is 0. */
  function AxisDefault(extent: nat): (r: Range)
    ensures r.Within(extent) && r.Len() == extent
    ensures forall i :: r.Contains(i) <==> 0 <= i < extent
  {
    Range(0, extent)
  }

  /** Every row of the matrix. */
  function RowDefault<T>(m: Matrix<T>): (r: Range)
    ensures r.Within(m.rows)
    ensures forall i :: r.Contains(i) <==> 0 <= i < m.rows
  {
    AxisDefault(m.rows)
  }

  /** Every column of the matrix. */
  function ColDefault<T>(m: Matrix<T>): (r: Range)
    ensures r.Within(m.cols)
    ensures forall j :: r.Contains(j) <==> 0 <= j < m.cols
  {
    AxisDefault(m.cols)
  }

  /** The whole matrix: a region that fits it and holds every one of its
      cells. */
  function SliceDefault<T>(m: Matrix<T>): (r: Region)
    ensures r.Fits(m)
    ensures r.rows.Len() == m.rows && r.cols.Len() == m.cols
    ensures forall i, j :: r.rows.Contains(i) && r.cols.Contains(j) <==> 0 <= i < m.rows && 0 <= j < m.cols
  {
    Region(RowDefault(m), ColDefault(m))
  }

  /** Resolves all four slice arguments. Only an axis whose take is non-zero
      is validated; when both are, the row axis is validated first, so a row
      error masks any column error. */
  function ResolveSlice<T>(m: Matrix<T>, rowSkip: int, rowTake: int, colSkip: int, colTake: int): (r: Result<Region>)
    ensures r.Ok? <==>
      (rowTake != 0 ==> AxisAccepts(m.rows, rowSkip, rowTake)) &&
      (colTake != 0 ==> AxisAccepts(m.cols, colSkip, colTake))
    ensures r.Ok? ==> r.value.Fits(m)
    ensures r.Ok? ==> r.value.rows == Requested(m.rows, rowSkip, rowTake)
    ensures r.Ok? ==> r.value.cols == Requested(m.cols, colSkip, colTake)
    ensures r.Err? ==> r.error == SliceError(m, rowSkip, rowTake, colSkip)
  {
    if rowTake != 0 && colTake != 0 then
      var rows :- ResolveAxis(m.rows, rowSkip, rowTake);
      var cols :- ResolveAxis(m.cols, colSkip, colTake);
      Ok(Region(rows, cols))
    else if rowTake != 0 then
      var rows :- ResolveAxis(m.rows, rowSkip, rowTake);
      Ok(Region(rows, ColDefault(m)))
    else if colTake != 0 then
      var cols :- ResolveAxis(m.cols, colSkip, colTake);
      Ok(Region(RowDefault(m), cols))
    else
      Ok(SliceDefault(m))
  }

  /** Leaving both takes at 0 selects the whole matrix and never fails, even
      when the skips are non-zero or out of range. */
  lemma UnspecifiedSliceIsWholeMatrix<T>(m: Matrix<T>, rowSkip: int, colSkip: int)
    ensures ResolveSlice(m, rowSkip, 0, colSkip, 0) == Ok(Region(Range(0, m.rows), Range(0, m.cols)))
  {
  }

  /** An axis whose take is 0 is not looked at: its skip changes neither
      the outcome nor the error of the whole resolution. */
  lemma UnrequestedSkipIsIgnored<T>(m: Matrix<T>, rowSkip: int, rowTake: int, colSkip: int, colTake: int, otherSkip: int)
    ensures ResolveSlice(m, rowSkip, rowTake, colSkip, 0) == ResolveSlice(m, rowSkip, rowTake, otherSkip, 0)
    ensures ResolveSlice(m, rowSkip, 0, colSkip, colTake) == ResolveSlice(m, otherSkip, 0, colSkip, colTake)
  {
  }

  /** An axis of extent 0 resolves to `(0, 0)` whatever is asked of it, so an
      empty matrix never makes the resolver fail. */
  lemma EmptyMatrixNeverFails<T>(m: Matrix<T>, rowSkip: int, rowTake: int, colSkip: int, colTake: int)
    requires m.rows == 0 && m.cols == 0
    ensures ResolveSlice(m, rowSkip, rowTake, colSkip, colTake) == Ok(Region(Range(0, 0), Range(0, 0)))
  {
  }

  // ---------------------------------------------------------------------------
  // The resolver as written, with 32-bit arithmetic.

  const INT_MIN: int := -0x8000_0000
  const INT_MAX: int := 0x7fff_ffff

  predicate IsInt32(x: int) {
    INT_MIN <= x <= INT_MAX
  }

  /** Two's-complement wrap-around of an unchecked 32-bit addition. */
  function Wrap32(x: int): (r: int)
    ensures IsInt32(r)
    ensures IsInt32(x) ==> r == x
  {
    (x - INT_MIN) % 0x1_0000_0000 + INT_MIN
  }

  /** Per-axis validation exactly as the source computes it, with `take + skip`
      evaluated in unchecked 32-bit arithmetic both in the bound test and in
      the returned end. It agrees with `ResolveAxis` whenever the sum does not
      overflow. */
  function ResolveAxisAsWritten(extent: nat, skip: int, take: int): (r: Result<Range>)
    requires extent <= INT_MAX && IsInt32(skip) && IsInt32(take)
    ensures IsInt32(skip + take) ==> r == ResolveAxis(extent, skip, take)
  {
    if extent == 0 then
      Ok(Range(0, 0))
    else if skip < 0 || skip > extent - 1 then
      Err(OutOfRange(Skip))
    else if take < 1 || Wrap32(take + skip) > extent then
      Err(OutOfRange(Take))
    else
      Ok(Range(skip, Wrap32(take + skip)))
  }

  /** Every take whose sum with a valid skip overflows 32 bits passes the
      source's bound test and comes back as an inverted range whose end lies
      below its start, where the intended check rejects the take. */
  lemma OverflowingTakeIsAccepted(extent: nat, skip: int, take: int)
    requires 0 < extent <= INT_MAX && IsInt32(skip) && IsInt32(take)
    requires 0 <= skip < extent && skip + take > INT_MAX
    ensures ResolveAxisAsWritten(extent, skip, take).Ok?
    ensures ResolveAxisAsWritten(extent, skip, take).value.end < ResolveAxisAsWritten(extent, skip, take).value.start
    ensures ResolveAxis(extent, skip, take) == Err(OutOfRange(Take))
  {
    var w := Wrap32(take + skip);
    assert take + skip - INT_MIN < 2 * 0x1_0000_0000;
    assert (take + skip - INT_MIN) % 0x1_0000_0000 == take + skip - INT_MIN - 0x1_0000_0000;
    assert w < 0;
  }

  /** The concrete input: on a 3-row matrix, `skip = 1, take = int.MaxValue`
      is accepted and resolves to the range `[1, int.MinValue)`. */
  lemma OverflowExample()
    ensures ResolveAxisAsWritten(3, 1, INT_MAX) == Ok(Range(1, INT_MIN))
    ensures ResolveAxis(3, 1, INT_MAX) == Err(OutOfRange(Take))
  {
    OverflowingTakeIsAccepted(3, 1, INT_MAX);
  }
}
