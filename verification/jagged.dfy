/** Reference definitions of the traversals, independent of the library's
    loops: the matrix read out as a jagged sequence of rows (or of columns),
    trimmed with LINQ-style `Skip`/`Take` and flattened with `SelectMany`,
    the way the library's own tests state what each traversal must yield. */
module Jagged {
  import opened Matrices

  /** The rows of the matrix, each row left to right. */
  function ToJaggedRowMajor<T>(m: Matrix<T>): (r: seq<seq<T>>)
    ensures |r| == m.rows
    ensures forall i :: 0 <= i < |r| ==> |r[i]| == m.cols
  {
    m.data
  }

  /** The columns of the matrix, each column top to bottom. */
  function ToJaggedColMajor<T>(m: Matrix<T>): (r: seq<seq<T>>)
    ensures |r| == m.cols
    ensures forall j :: 0 <= j < |r| ==> |r[j]| == m.rows
  {
    seq(m.cols, j requires 0 <= j < m.cols =>
      seq(m.rows, i requires 0 <= i < m.rows => At(m, i, j)))
  }

  /** The rows of the matrix as cells tagged with their coordinates. */
  function ToJaggedRowMajorIdx<T>(m: Matrix<T>): (r: seq<seq<Cell<T>>>)
    ensures |r| == m.rows
    ensures forall i :: 0 <= i < |r| ==> |r[i]| == m.cols
  {
    seq(m.rows, i requires 0 <= i < m.rows =>
      seq(m.cols, j requires 0 <= j < m.cols => Cell(At(m, i, j), i, j)))
  }

  /** The columns of the matrix as cells tagged with their coordinates. */
  function ToJaggedColMajorIdx<T>(m: Matrix<T>): (r: seq<seq<Cell<T>>>)
    ensures |r| == m.cols
    ensures forall j :: 0 <= j < |r| ==> |r[j]| == m.rows
  {
    seq(m.cols, j requires 0 <= j < m.cols =>
      seq(m.rows, i requires 0 <= i < m.rows => Cell(At(m, i, j), i, j)))
  }

  /** `SelectMany(x => x)`: the concatenation of the inner sequences. */
  function Flatten<T>(ss: seq<seq<T>>): seq<T> {
    if |ss| == 0 then [] else ss[0] + Flatten(ss[1..])
  }

  /** LINQ `Skip`: drops the first `n` elements; a negative `n` drops none,
      an `n` past the end drops all. */
  function Skip<T>(s: seq<T>, n: int): seq<T> {
    if n <= 0 then s else if n >= |s| then [] else s[n..]
  }

  /** LINQ `Take`: keeps the first `n` elements; a non-positive `n` keeps
      none, an `n` past the end keeps all. */
  function Take<T>(s: seq<T>, n: int): seq<T> {
    if n <= 0 then [] else if n >= |s| then s else s[..n]
  }

  /** `Select(r => r.Skip(skip).Take(take))` over the inner sequences. */
  function SelectSkipTake<T>(jag: seq<seq<T>>, skip: int, take: int): seq<seq<T>> {
    seq(|jag|, k requires 0 <= k < |jag| => Take(Skip(jag[k], skip), take))
  }

  /** The tests' slicing expression
      `jag.Select(r => r.Skip(innerSkip).Take(innerTake)).Skip(outerSkip).Take(outerTake)`. */
  function Sliced<T>(jag: seq<seq<T>>, outerSkip: int, outerTake: int, innerSkip: int, innerTake: int): seq<seq<T>> {
    Take(Skip(SelectSkipTake(jag, innerSkip, innerTake), outerSkip), outerTake)
  }

  /** The outer range lies inside `jag` and the inner range inside each of
      the inner sequences the outer range selects. */
  predicate Covers<T>(jag: seq<seq<T>>, outer: Range, inner: Range) {
    outer.Within(|jag|) &&
    forall k :: outer.start <= k < outer.end ==> inner.Within(|jag[k]|)
  }

  /** The rectangular window `outer x inner` of `jag`, as plain slices. */
  function Window<T>(jag: seq<seq<T>>, outer: Range, inner: Range): (r: seq<seq<T>>)
    requires Covers(jag, outer, inner)
    ensures |r| == outer.Len()
  {
    seq(outer.Len(), k requires 0 <= k < outer.Len() =>
      assert inner.Within(|jag[outer.start + k]|);
      jag[outer.start + k][inner.start..inner.end])
  }

  /** A non-empty window is its first inner slice followed by the rest of
      the window: the step of every outer loop. */
  lemma WindowCons<T>(jag: seq<seq<T>>, outer: Range, inner: Range)
    requires Covers(jag, outer, inner)
    requires outer.start < outer.end
    ensures Covers(jag, outer.Rest(), inner)
    ensures inner.Within(|jag[outer.start]|)
    ensures Window(jag, outer, inner)
         == [jag[outer.start][inner.start..inner.end]] + Window(jag, outer.Rest(), inner)
  {
    var w := Window(jag, outer, inner);
    assert w[1..] == Window(jag, outer.Rest(), inner);
    assert w == [w[0]] + w[1..];
  }

  /** Flattening a window is its first inner slice followed by the flattened
      rest of the window: the step of every nested loop. */
  lemma WindowUnfold<T>(jag: seq<seq<T>>, outer: Range, inner: Range)
    requires Covers(jag, outer, inner)
    requires outer.start < outer.end
    ensures Covers(jag, outer.Rest(), inner)
    ensures inner.Within(|jag[outer.start]|)
    ensures Flatten(Window(jag, outer, inner))
         == jag[outer.start][inner.start..inner.end] + Flatten(Window(jag, outer.Rest(), inner))
  {
    var w := Window(jag, outer, inner);
    assert w[1..] == Window(jag, outer.Rest(), inner);
  }

  /** An empty outer range gives an empty flattening. */
  lemma WindowEmpty<T>(jag: seq<seq<T>>, outer: Range, inner: Range)
    requires Covers(jag, outer, inner)
    requires outer.start == outer.end
    ensures Flatten(Window(jag, outer, inner)) == []
  {
  }

  /** A window over an empty inner range is a run of empty slices. */
  lemma EmptyInnerWindow<T>(jag: seq<seq<T>>, outer: Range, inner: Range)
    requires Covers(jag, outer, inner)
    requires inner.start == inner.end
    ensures forall k :: 0 <= k < outer.Len() ==> Window(jag, outer, inner)[k] == []
  {
  }

  /** A flattened window holds exactly `outer.Len() * inner.Len()` elements. */
  lemma {:induction false} FlattenWindowLength<T>(jag: seq<seq<T>>, outer: Range, inner: Range)
    requires Covers(jag, outer, inner)
    ensures |Flatten(Window(jag, outer, inner))| == outer.Len() * inner.Len()
    decreases outer.Len()
  {
    if outer.start < outer.end {
      WindowUnfold(jag, outer, inner);
      FlattenWindowLength(jag, outer.Rest(), inner);
      assert outer.Len() * inner.Len() == inner.Len() + outer.Rest().Len() * inner.Len();
    }
  }

  /** For ranges inside the data, the tests' Skip/Take expression and the
      window are the same jagged sequence. */
  lemma WindowIsSliced<T>(jag: seq<seq<T>>, outer: Range, inner: Range)
    requires Covers(jag, outer, inner)
    ensures Window(jag, outer, inner) == Sliced(jag, outer.start, outer.Len(), inner.start, inner.Len())
  {
    var sel := SelectSkipTake(jag, inner.start, inner.Len());
    var s := Sliced(jag, outer.start, outer.Len(), inner.start, inner.Len());
    var w := Window(jag, outer, inner);
    assert Skip(sel, outer.start) == sel[outer.start..];
    assert |s| == |w|;
    forall k | 0 <= k < |w|
      ensures s[k] == w[k]
    {
      var row := jag[outer.start + k];
      assert s[k] == sel[outer.start + k];
      assert Skip(row, inner.start) == row[inner.start..];
      assert Take(row[inner.start..], inner.Len()) == row[inner.start..inner.end];
    }
  }

  /** An element occurs in a flattening exactly when it occurs in one of the
      inner sequences. */
  lemma {:induction false} InFlatten<T>(ss: seq<seq<T>>, x: T)
    ensures x in Flatten(ss) <==> exists k :: 0 <= k < |ss| && x in ss[k]
  {
    if |ss| > 0 {
      InFlatten(ss[1..], x);
      if x in Flatten(ss[1..]) {
        var k :| 0 <= k < |ss[1..]| && x in ss[1..][k];
        assert x in ss[k + 1];
      }
      if exists k :: 0 <= k < |ss| && x in ss[k] {
        var k :| 0 <= k < |ss| && x in ss[k];
        if k > 0 {
          assert x in ss[1..][k - 1];
        }
      }
    }
  }

  /** Flattening distributes over concatenation. */
  lemma {:induction false} FlattenAppend<T>(ss: seq<seq<T>>, s: seq<T>)
    ensures Flatten(ss + [s]) == Flatten(ss) + s
  {
    if |ss| > 0 {
      assert (ss + [s])[1..] == ss[1..] + [s];
      FlattenAppend(ss[1..], s);
    } else {
      assert (ss + [s])[1..] == [];
    }
  }

  /** Extending a window's outer range by one appends that inner slice to
      the flattening: the step of a loop that accumulates what it yields. */
  lemma WindowExtend<T>(jag: seq<seq<T>>, outer: Range, inner: Range)
    requires outer.start <= outer.end
    requires Covers(jag, Range(outer.start, outer.end + 1), inner)
    ensures Covers(jag, outer, inner) && inner.Within(|jag[outer.end]|)
    ensures Flatten(Window(jag, Range(outer.start, outer.end + 1), inner))
         == Flatten(Window(jag, outer, inner)) + jag[outer.end][inner.start..inner.end]
  {
    assert inner.Within(|jag[outer.end]|) by {
      var ext := Range(outer.start, outer.end + 1);
      assert ext.start <= outer.end < ext.end;
    }
    var w := Window(jag, outer, inner);
    var row := jag[outer.end][inner.start..inner.end];
    assert Window(jag, Range(outer.start, outer.end + 1), inner) == w + [row];
    FlattenAppend(w, row);
  }

  /** Slicing nothing away: skipping 0 and taking everything on both levels
      gives back a jagged sequence whose inner sequences all have `width`
      elements. */
  lemma SlicedWhole<T>(jag: seq<seq<T>>, width: nat)
    requires forall k :: 0 <= k < |jag| ==> |jag[k]| == width
    ensures Sliced(jag, 0, |jag|, 0, width) == jag
  {
    var sel := SelectSkipTake(jag, 0, width);
    forall k | 0 <= k < |jag|
      ensures sel[k] == jag[k]
    {
      if width == 0 {
        assert jag[k] == [];
      }
    }
    assert sel == jag;
  }
}
