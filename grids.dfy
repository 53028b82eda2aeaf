/** Rectangular grids of samples: the shape shared by every image the
    programs work on (an OpenCV single-channel matrix, a bitmap's rows of
    pixels, a spectrum). Row-major: `g[row][col]`. */
module Grids {

  /** An unsigned 8-bit sample (`uint8_t`). */
  type byte = x: int | 0 <= x < 256

  datatype Option<+T> = None | Some(value: T)

  /** `g` has `rows` rows of `cols` entries each. */
  ghost predicate IsGrid<T>(g: seq<seq<T>>, rows: nat, cols: nat) {
    |g| == rows && forall r :: 0 <= r < rows ==> |g[r]| == cols
  }

  /** The number of columns of a grid (0 for a grid without rows). */
  function Cols<T>(g: seq<seq<T>>): nat {
    if |g| == 0 then 0 else |g[0]|
  }

  /** The contents of a two-dimensional array, as a grid value. */
  ghost function Cells<T>(a: array2<T>): (g: seq<seq<T>>)
    reads a
    ensures IsGrid(g, a.Length0, a.Length1)
    ensures forall r, c :: 0 <= r < a.Length0 && 0 <= c < a.Length1 ==> g[r][c] == a[r, c]
  {
    seq(a.Length0, r requires 0 <= r < a.Length0 reads a =>
      seq(a.Length1, c requires 0 <= c < a.Length1 reads a => a[r, c]))
  }

  /** Two grids of the same shape that agree cell by cell are equal. */
  lemma GridExtensionality<T>(g: seq<seq<T>>, h: seq<seq<T>>, rows: nat, cols: nat)
    requires IsGrid(g, rows, cols) && IsGrid(h, rows, cols)
    requires forall r, c :: 0 <= r < rows && 0 <= c < cols ==> g[r][c] == h[r][c]
    ensures g == h
  {
    forall r | 0 <= r < rows
      ensures g[r] == h[r]
    {
      assert forall c :: 0 <= c < cols ==> g[r][c] == h[r][c];
    }
  }

  /** The transpose of a `rows` x `cols` grid: entry (i, j) is the old (j, i). */
  function Transposed<T>(g: seq<seq<T>>, rows: nat, cols: nat): (t: seq<seq<T>>)
    requires IsGrid(g, rows, cols)
    ensures IsGrid(t, cols, rows)
  {
    seq(cols, i requires 0 <= i < cols => seq(rows, j requires 0 <= j < rows => g[j][i]))
  }

  /** Transposing twice gives back the original grid. */
  lemma TransposedTwice<T>(g: seq<seq<T>>, rows: nat, cols: nat)
    requires IsGrid(g, rows, cols)
    ensures Transposed(Transposed(g, rows, cols), cols, rows) == g
  {
    var t := Transposed(Transposed(g, rows, cols), cols, rows);
    GridExtensionality(t, g, rows, cols);
  }

  /** Transposes a square array in place by swapping (i, j) with (j, i) for
      every j < i; the diagonal is never touched. */
  method TransposeSquare<T>(a: array2<T>)
    requires a.Length0 == a.Length1
    modifies a
    ensures forall i, j :: 0 <= i < a.Length0 && 0 <= j < a.Length1 ==> a[i, j] == old(a[j, i])
    ensures Cells(a) == Transposed(old(Cells(a)), a.Length0, a.Length1)
  {
    var n := a.Length0;
    for i := 0 to n
      invariant forall p, q :: 0 <= p < n && 0 <= q < n ==>
        a[p, q] == if p < i && q < i then old(a[q, p]) else old(a[p, q])
    {
      for j := 0 to i
        invariant forall p, q :: 0 <= p < n && 0 <= q < n ==>
          a[p, q] == if (p < i && q < i) || (p == i && q < j) || (q == i && p < j)
                     then old(a[q, p]) else old(a[p, q])
      {
        a[i, j], a[j, i] := a[j, i], a[i, j];
      }
    }
    GridExtensionality(Cells(a), Transposed(old(Cells(a)), n, n), n, n);
  }
}
