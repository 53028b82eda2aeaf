/** Binary morphology: the threshold that turns a grayscale image into a
    binary one, the table of structuring elements, and erosion, dilation,
    opening and closing with the trackbar dispatch. A binary image holds
    only 0 and 255. */
module Morphology {
  import opened Grids

  /** A structuring element: rows of integers, an entry covers its offset
      when it is non-zero. */
  type Kernel = seq<seq<int>>

  /** The threshold at and above which a sample becomes white. */
  const BinThresh: byte := 135

  ghost predicate IsBinary(g: seq<seq<byte>>, rows: nat, cols: nat)
    requires IsGrid(g, rows, cols)
  {
    forall i, j :: 0 <= i < rows && 0 <= j < cols ==> g[i][j] == 0 || g[i][j] == 255
  }

  /** `g` is nowhere above `h`. */
  ghost predicate Below(g: seq<seq<byte>>, h: seq<seq<byte>>, rows: nat, cols: nat)
    requires IsGrid(g, rows, cols) && IsGrid(h, rows, cols)
  {
    forall i, j :: 0 <= i < rows && 0 <= j < cols ==> g[i][j] <= h[i][j]
  }

  // ---------------------------------------------------------------------
  // Threshold

  /** The binary image of imcvtBinary: 255 where the sample reaches the
      threshold, 0 elsewhere. */
  function Thresholded(g: seq<seq<byte>>, rows: nat, cols: nat): (b: seq<seq<byte>>)
    requires IsGrid(g, rows, cols)
    ensures IsGrid(b, rows, cols) && IsBinary(b, rows, cols)
    ensures forall i, j :: 0 <= i < rows && 0 <= j < cols ==> (b[i][j] == 255 <==> g[i][j] >= BinThresh)
  {
    seq(rows, i requires 0 <= i < rows =>
      seq(cols, j requires 0 <= j < cols => if g[i][j] >= BinThresh then 255 else 0))
  }

  /** cv::imcvtBinary: a new image of the same size, filled cell by cell. */
  method ImcvtBinary(input: array2<byte>) returns (ret: array2<byte>)
    ensures fresh(ret) && ret.Length0 == input.Length0 && ret.Length1 == input.Length1
    ensures Cells(ret) == Thresholded(Cells(input), input.Length0, input.Length1)
  {
    var rows, cols := input.Length0, input.Length1;
    ret := new byte[rows, cols];
    for i := 0 to rows
      invariant forall p, q :: 0 <= p < i && 0 <= q < cols ==>
        (ret[p, q] == if input[p, q] >= BinThresh then 255 else 0)
    {
      for j := 0 to cols
        invariant forall p, q :: ((0 <= p < i && 0 <= q < cols) || (p == i && 0 <= q < j)) ==>
          (ret[p, q] == if input[p, q] >= BinThresh then 255 else 0)
      {
        if input[i, j] >= BinThresh {
          ret[i, j] := 255;
        } else {
          ret[i, j] := 0;
        }
      }
    }
    GridExtensionality(Cells(ret), Thresholded(Cells(input), rows, cols), rows, cols);
  }

  // ---------------------------------------------------------------------
  // Structuring elements

  /** A kernel has at least one row, and every row is as long as the first,
      which is not empty (the loops run over `h[0].size()` columns). */
  ghost predicate IsKernel(h: Kernel) {
    |h| >= 1 && |h[0]| >= 1 && forall k :: 0 <= k < |h| ==> |h[k]| == |h[0]|
  }

  function Square(n: nat): (h: Kernel)
    ensures |h| == n && forall k :: 0 <= k < n ==> |h[k]| == n
  {
    seq(n, _ => seq(n, _ => 1))
  }

  /** The `kernels` table, indexed by the structuring-element trackbar:
      RECT_1x2, DIAMOND_3x3, SQUARE_3x3, SQUARE_9x9, SQUARE_15x15. */
  function Kernels(pos: int): (h: Kernel)
    requires 0 <= pos <= 4
    ensures IsKernel(h)
  {
    if pos == 0 then [[0, 1, 1]]
    else if pos == 1 then [[0, 1, 0], [1, 1, 1], [0, 1, 0]]
    else if pos == 2 then Square(3)
    else if pos == 3 then Square(9)
    else Square(15)
  }

  /** The image row an entry in kernel row `k` looks at from row `i`. */
  function RowOffset(h: Kernel, i: int, k: int): int {
    i + k - |h| / 2
  }

  /** The image column an entry in kernel column `l` looks at from column `j`. */
  function ColOffset(h: Kernel, j: int, l: int): int
    requires |h| >= 1
  {
    j + l - |h[0]| / 2
  }

  /** Kernel entry (k, l) covers a pixel of the image from (i, j). */
  ghost predicate Covers(h: Kernel, rows: nat, cols: nat, i: int, j: int, k: int, l: int)
    requires IsKernel(h) && 0 <= k < |h| && 0 <= l < |h[0]|
  {
    h[k][l] != 0 && 0 <= RowOffset(h, i, k) < rows && 0 <= ColOffset(h, j, l) < cols
  }

  /** (k, l) comes before (kEnd, lEnd) in the row-major scan of the kernel. */
  predicate Before(k: int, l: int, kEnd: int, lEnd: int) {
    k < kEnd || (k == kEnd && l < lEnd)
  }

  /** RECT_1x2 covers exactly the pixel itself and the one to its right. */
  lemma Rect1x2Offsets(k: int, l: int)
    requires 0 <= k < 1 && 0 <= l < 3
    ensures Kernels(0)[k][l] != 0 <==>
      (RowOffset(Kernels(0), 0, k), ColOffset(Kernels(0), 0, l)) in {(0, 0), (0, 1)}
  {
  }

  // ---------------------------------------------------------------------
  // Erosion and dilation, as specified

  /** Some entry scanned before (kEnd, lEnd) covers a black pixel. */
  ghost predicate ZeroBefore(g: seq<seq<byte>>, rows: nat, cols: nat, h: Kernel, i: int, j: int, kEnd: int, lEnd: int)
    requires IsGrid(g, rows, cols) && IsKernel(h)
  {
    exists k, l :: 0 <= k < |h| && 0 <= l < |h[0]| && Before(k, l, kEnd, lEnd) &&
      Covers(h, rows, cols, i, j, k, l) && g[RowOffset(h, i, k)][ColOffset(h, j, l)] == 0
  }

  /** Some entry scanned before (kEnd, lEnd) covers a non-black pixel. */
  ghost predicate NonzeroBefore(g: seq<seq<byte>>, rows: nat, cols: nat, h: Kernel, i: int, j: int, kEnd: int, lEnd: int)
    requires IsGrid(g, rows, cols) && IsKernel(h)
  {
    exists k, l :: 0 <= k < |h| && 0 <= l < |h[0]| && Before(k, l, kEnd, lEnd) &&
      Covers(h, rows, cols, i, j, k, l) && g[RowOffset(h, i, k)][ColOffset(h, j, l)] != 0
  }

  /** The eroded value at (i, j): black when the kernel covers a black
      pixel, the input value otherwise. */
  ghost function ErodedAt(g: seq<seq<byte>>, rows: nat, cols: nat, h: Kernel, i: int, j: int): byte
    requires IsGrid(g, rows, cols) && IsKernel(h) && 0 <= i < rows && 0 <= j < cols
  {
    if ZeroBefore(g, rows, cols, h, i, j, |h|, 0) then 0 else g[i][j]
  }

  /** The dilated value at (i, j): white when the kernel covers a
      non-black pixel, the input value otherwise. */
  ghost function DilatedAt(g: seq<seq<byte>>, rows: nat, cols: nat, h: Kernel, i: int, j: int): byte
    requires IsGrid(g, rows, cols) && IsKernel(h) && 0 <= i < rows && 0 <= j < cols
  {
    if NonzeroBefore(g, rows, cols, h, i, j, |h|, 0) then 255 else g[i][j]
  }

  ghost function Eroded(g: seq<seq<byte>>, rows: nat, cols: nat, h: Kernel): (e: seq<seq<byte>>)
    requires IsGrid(g, rows, cols) && IsKernel(h)
    ensures IsGrid(e, rows, cols)
    ensures forall i, j :: 0 <= i < rows && 0 <= j < cols ==> e[i][j] == ErodedAt(g, rows, cols, h, i, j)
  {
    seq(rows, i requires 0 <= i < rows =>
      seq(cols, j requires 0 <= j < cols => ErodedAt(g, rows, cols, h, i, j)))
  }

  ghost function Dilated(g: seq<seq<byte>>, rows: nat, cols: nat, h: Kernel): (d: seq<seq<byte>>)
    requires IsGrid(g, rows, cols) && IsKernel(h)
    ensures IsGrid(d, rows, cols)
    ensures forall i, j :: 0 <= i < rows && 0 <= j < cols ==> d[i][j] == DilatedAt(g, rows, cols, h, i, j)
  {
    seq(rows, i requires 0 <= i < rows =>
      seq(cols, j requires 0 <= j < cols => DilatedAt(g, rows, cols, h, i, j)))
  }

  /** Finishing a kernel row is the same as starting the next one. */
  lemma ZeroRowDone(g: seq<seq<byte>>, rows: nat, cols: nat, h: Kernel, i: int, j: int, k: int)
    requires IsGrid(g, rows, cols) && IsKernel(h) && 0 <= k < |h|
    ensures ZeroBefore(g, rows, cols, h, i, j, k, |h[0]|) == ZeroBefore(g, rows, cols, h, i, j, k + 1, 0)
  {
    if ZeroBefore(g, rows, cols, h, i, j, k + 1, 0) {
      var k', l' :| 0 <= k' < |h| && 0 <= l' < |h[0]| && Before(k', l', k + 1, 0) &&
        Covers(h, rows, cols, i, j, k', l') && g[RowOffset(h, i, k')][ColOffset(h, j, l')] == 0;
      assert Before(k', l', k, |h[0]|);
    }
  }

  lemma NonzeroRowDone(g: seq<seq<byte>>, rows: nat, cols: nat, h: Kernel, i: int, j: int, k: int)
    requires IsGrid(g, rows, cols) && IsKernel(h) && 0 <= k < |h|
    ensures NonzeroBefore(g, rows, cols, h, i, j, k, |h[0]|) == NonzeroBefore(g, rows, cols, h, i, j, k + 1, 0)
  {
    if NonzeroBefore(g, rows, cols, h, i, j, k + 1, 0) {
      var k', l' :| 0 <= k' < |h| && 0 <= l' < |h[0]| && Before(k', l', k + 1, 0) &&
        Covers(h, rows, cols, i, j, k', l') && g[RowOffset(h, i, k')][ColOffset(h, j, l')] != 0;
      assert Before(k', l', k, |h[0]|);
    }
  }

  /** Scanning one more entry adds exactly that entry's hit. */
  lemma ZeroStep(g: seq<seq<byte>>, rows: nat, cols: nat, h: Kernel, i: int, j: int, k: int, l: int)
    requires IsGrid(g, rows, cols) && IsKernel(h) && 0 <= k < |h| && 0 <= l < |h[0]|
    ensures ZeroBefore(g, rows, cols, h, i, j, k, l + 1) <==>
      ZeroBefore(g, rows, cols, h, i, j, k, l) ||
      (Covers(h, rows, cols, i, j, k, l) && g[RowOffset(h, i, k)][ColOffset(h, j, l)] == 0)
  {
    if ZeroBefore(g, rows, cols, h, i, j, k, l + 1) {
      var k', l' :| 0 <= k' < |h| && 0 <= l' < |h[0]| && Before(k', l', k, l + 1) &&
        Covers(h, rows, cols, i, j, k', l') && g[RowOffset(h, i, k')][ColOffset(h, j, l')] == 0;
      if (k', l') != (k, l) {
        assert Before(k', l', k, l);
      }
    }
    if ZeroBefore(g, rows, cols, h, i, j, k, l) {
      var k', l' :| 0 <= k' < |h| && 0 <= l' < |h[0]| && Before(k', l', k, l) &&
        Covers(h, rows, cols, i, j, k', l') && g[RowOffset(h, i, k')][ColOffset(h, j, l')] == 0;
      assert Before(k', l', k, l + 1);
    }
    if Covers(h, rows, cols, i, j, k, l) && g[RowOffset(h, i, k)][ColOffset(h, j, l)] == 0 {
      assert Before(k, l, k, l + 1);
    }
  }

  lemma NonzeroStep(g: seq<seq<byte>>, rows: nat, cols: nat, h: Kernel, i: int, j: int, k: int, l: int)
    requires IsGrid(g, rows, cols) && IsKernel(h) && 0 <= k < |h| && 0 <= l < |h[0]|
    ensures NonzeroBefore(g, rows, cols, h, i, j, k, l + 1) <==>
      NonzeroBefore(g, rows, cols, h, i, j, k, l) ||
      (Covers(h, rows, cols, i, j, k, l) && g[RowOffset(h, i, k)][ColOffset(h, j, l)] != 0)
  {
    if NonzeroBefore(g, rows, cols, h, i, j, k, l + 1) {
      var k', l' :| 0 <= k' < |h| && 0 <= l' < |h[0]| && Before(k', l', k, l + 1) &&
        Covers(h, rows, cols, i, j, k', l') && g[RowOffset(h, i, k')][ColOffset(h, j, l')] != 0;
      if (k', l') != (k, l) {
        assert Before(k', l', k, l);
      }
    }
    if NonzeroBefore(g, rows, cols, h, i, j, k, l) {
      var k', l' :| 0 <= k' < |h| && 0 <= l' < |h[0]| && Before(k', l', k, l) &&
        Covers(h, rows, cols, i, j, k', l') && g[RowOffset(h, i, k')][ColOffset(h, j, l')] != 0;
      assert Before(k', l', k, l + 1);
    }
    if Covers(h, rows, cols, i, j, k, l) && g[RowOffset(h, i, k)][ColOffset(h, j, l)] != 0 {
      assert Before(k, l, k, l + 1);
    }
  }

  // ---------------------------------------------------------------------
  // Erosion and dilation, as the program computes them

  /** `input.clone()`. */
  method Clone(input: array2<byte>) returns (ret: array2<byte>)
    ensures fresh(ret) && ret.Length0 == input.Length0 && ret.Length1 == input.Length1
    ensures forall i, j :: 0 <= i < input.Length0 && 0 <= j < input.Length1 ==> ret[i, j] == input[i, j]
  {
    ret := new byte[input.Length0, input.Length1]((i, j) reads input =>
      if 0 <= i < input.Length0 && 0 <= j < input.Length1 then input[i, j] else 0);
  }

  /** morphology::erode: a copy of the input in which every pixel whose
      kernel covers a black input pixel is set to black. Only the input is
      read, so the scan order does not matter. */
  method Erode(input: array2<byte>, h: Kernel) returns (ret: array2<byte>)
    requires IsKernel(h)
    ensures fresh(ret) && ret.Length0 == input.Length0 && ret.Length1 == input.Length1
    ensures Cells(ret) == Eroded(Cells(input), input.Length0, input.Length1, h)
  {
    ghost var g := Cells(input);
    var rows, cols := input.Length0, input.Length1;
    ret := Clone(input);
    for i := 0 to rows
      invariant forall p, q :: 0 <= p < rows && 0 <= q < cols ==>
        ret[p, q] == if p < i then ErodedAt(g, rows, cols, h, p, q) else g[p][q]
    {
      for j := 0 to cols
        invariant forall p, q :: 0 <= p < rows && 0 <= q < cols ==>
          ret[p, q] == if Before(p, q, i, j) then ErodedAt(g, rows, cols, h, p, q) else g[p][q]
      {
        ErodePixel(input, ret, h, i, j);
      }
    }
    GridExtensionality(Cells(ret), Eroded(g, rows, cols, h), rows, cols);
  }

  /** The two kernel loops of erode for one pixel (i, j) of `ret`, which
      still holds the input value there. Only that pixel is written. */
  method ErodePixel(input: array2<byte>, ret: array2<byte>, h: Kernel, i: int, j: int)
    requires IsKernel(h) && ret != input
    requires ret.Length0 == input.Length0 && ret.Length1 == input.Length1
    requires 0 <= i < input.Length0 && 0 <= j < input.Length1 && ret[i, j] == input[i, j]
    modifies ret
    ensures ret[i, j] == ErodedAt(Cells(input), input.Length0, input.Length1, h, i, j)
    ensures forall p, q :: 0 <= p < ret.Length0 && 0 <= q < ret.Length1 && (p, q) != (i, j) ==>
      ret[p, q] == old(ret[p, q])
  {
    ghost var g := Cells(input);
    var rows, cols := input.Length0, input.Length1;
    for k := 0 to |h|
      invariant forall p, q :: 0 <= p < rows && 0 <= q < cols && (p, q) != (i, j) ==> ret[p, q] == old(ret[p, q])
      invariant ret[i, j] == if ZeroBefore(g, rows, cols, h, i, j, k, 0) then 0 else g[i][j]
    {
      for l := 0 to |h[0]|
        invariant forall p, q :: 0 <= p < rows && 0 <= q < cols && (p, q) != (i, j) ==> ret[p, q] == old(ret[p, q])
        invariant ret[i, j] == if ZeroBefore(g, rows, cols, h, i, j, k, l) then 0 else g[i][j]
      {
        ZeroStep(g, rows, cols, h, i, j, k, l);
        var row, col := i + k - |h| / 2, j + l - |h[0]| / 2;
        if h[k][l] != 0 && 0 <= row < rows && 0 <= col < cols {
          if input[row, col] == 0 {
            ret[i, j] := 0;
          }
        }
      }
      ZeroRowDone(g, rows, cols, h, i, j, k);
    }
  }

  /** morphology::dilate: a copy of the input in which every pixel whose
      kernel covers a non-black input pixel is set to white. */
  method Dilate(input: array2<byte>, h: Kernel) returns (ret: array2<byte>)
    requires IsKernel(h)
    ensures fresh(ret) && ret.Length0 == input.Length0 && ret.Length1 == input.Length1
    ensures Cells(ret) == Dilated(Cells(input), input.Length0, input.Length1, h)
  {
    ghost var g := Cells(input);
    var rows, cols := input.Length0, input.Length1;
    ret := Clone(input);
    for i := 0 to rows
      invariant forall p, q :: 0 <= p < rows && 0 <= q < cols ==>
        ret[p, q] == if p < i then DilatedAt(g, rows, cols, h, p, q) else g[p][q]
    {
      for j := 0 to cols
        invariant forall p, q :: 0 <= p < rows && 0 <= q < cols ==>
          ret[p, q] == if Before(p, q, i, j) then DilatedAt(g, rows, cols, h, p, q) else g[p][q]
      {
        DilatePixel(input, ret, h, i, j);
      }
    }
    GridExtensionality(Cells(ret), Dilated(g, rows, cols, h), rows, cols);
  }

  /** The two kernel loops of dilate for one pixel (i, j) of `ret`, which
      still holds the input value there. Only that pixel is written. */
  method DilatePixel(input: array2<byte>, ret: array2<byte>, h: Kernel, i: int, j: int)
    requires IsKernel(h) && ret != input
    requires ret.Length0 == input.Length0 && ret.Length1 == input.Length1
    requires 0 <= i < input.Length0 && 0 <= j < input.Length1 && ret[i, j] == input[i, j]
    modifies ret
    ensures ret[i, j] == DilatedAt(Cells(input), input.Length0, input.Length1, h, i, j)
    ensures forall p, q :: 0 <= p < ret.Length0 && 0 <= q < ret.Length1 && (p, q) != (i, j) ==>
      ret[p, q] == old(ret[p, q])
  {
    ghost var g := Cells(input);
    var rows, cols := input.Length0, input.Length1;
    for k := 0 to |h|
      invariant forall p, q :: 0 <= p < rows && 0 <= q < cols && (p, q) != (i, j) ==> ret[p, q] == old(ret[p, q])
      invariant ret[i, j] == if NonzeroBefore(g, rows, cols, h, i, j, k, 0) then 255 else g[i][j]
    {
      for l := 0 to |h[0]|
        invariant forall p, q :: 0 <= p < rows && 0 <= q < cols && (p, q) != (i, j) ==> ret[p, q] == old(ret[p, q])
        invariant ret[i, j] == if NonzeroBefore(g, rows, cols, h, i, j, k, l) then 255 else g[i][j]
      {
        NonzeroStep(g, rows, cols, h, i, j, k, l);
        var row, col := i + k - |h| / 2, j + l - |h[0]| / 2;
        if h[k][l] != 0 && 0 <= row < rows && 0 <= col < cols {
          if input[row, col] != 0 {
            ret[i, j] := 255;
          }
        }
      }
      NonzeroRowDone(g, rows, cols, h, i, j, k);
    }
  }

  /** morphology::open: erosion, then dilation. */
  method Open(input: array2<byte>, h: Kernel) returns (ret: array2<byte>)
    requires IsKernel(h)
    ensures fresh(ret) && ret.Length0 == input.Length0 && ret.Length1 == input.Length1
    ensures Cells(ret) == Opened(Cells(input), input.Length0, input.Length1, h)
  {
    var temp := Erode(input, h);
    ret := Dilate(temp, h);
  }

  /** morphology::close: dilation, then erosion. */
  method Close(input: array2<byte>, h: Kernel) returns (ret: array2<byte>)
    requires IsKernel(h)
    ensures fresh(ret) && ret.Length0 == input.Length0 && ret.Length1 == input.Length1
    ensures Cells(ret) == Closed(Cells(input), input.Length0, input.Length1, h)
  {
    var temp := Dilate(input, h);
    ret := Erode(temp, h);
  }

  ghost function Opened(g: seq<seq<byte>>, rows: nat, cols: nat, h: Kernel): (o: seq<seq<byte>>)
    requires IsGrid(g, rows, cols) && IsKernel(h)
    ensures IsGrid(o, rows, cols)
  {
    Dilated(Eroded(g, rows, cols, h), rows, cols, h)
  }

  ghost function Closed(g: seq<seq<byte>>, rows: nat, cols: nat, h: Kernel): (c: seq<seq<byte>>)
    requires IsGrid(g, rows, cols) && IsKernel(h)
    ensures IsGrid(c, rows, cols)
  {
    Eroded(Dilated(g, rows, cols, h), rows, cols, h)
  }

  // ---------------------------------------------------------------------
  // The trackbar dispatch

  /** The image callBack shows for an operation position (erode, dilate,
      open, close) and a structuring-element position. */
  ghost function Operated(g: seq<seq<byte>>, rows: nat, cols: nat, operationPos: int, kernelPos: int): (r: seq<seq<byte>>)
    requires IsGrid(g, rows, cols) && 0 <= operationPos <= 3 && 0 <= kernelPos <= 4
    ensures IsGrid(r, rows, cols)
  {
    var h := Kernels(kernelPos);
    if operationPos == 0 then Eroded(g, rows, cols, h)
    else if operationPos == 1 then Dilated(g, rows, cols, h)
    else if operationPos == 2 then Opened(g, rows, cols, h)
    else Closed(g, rows, cols, h)
  }

  /** The switch of callBack; the trackbars keep both positions in range. */
  method Operate(inputBinary: array2<byte>, operationPos: int, kernelPos: int) returns (output: array2<byte>)
    requires 0 <= operationPos <= 3 && 0 <= kernelPos <= 4
    ensures fresh(output) && output.Length0 == inputBinary.Length0 && output.Length1 == inputBinary.Length1
    ensures Cells(output) == Operated(Cells(inputBinary), inputBinary.Length0, inputBinary.Length1, operationPos, kernelPos)
  {
    var h := Kernels(kernelPos);
    if operationPos == 0 {
      output := Erode(inputBinary, h);
    } else if operationPos == 1 {
      output := Dilate(inputBinary, h);
    } else if operationPos == 2 {
      output := Open(inputBinary, h);
    } else {
      output := Close(inputBinary, h);
    }
  }

  // ---------------------------------------------------------------------
  // Properties

  /** Erosion only ever darkens: a pixel is black afterwards exactly when
      it was black or its kernel covers a black pixel. */
  lemma ErodeShrinks(g: seq<seq<byte>>, rows: nat, cols: nat, h: Kernel)
    requires IsGrid(g, rows, cols) && IsKernel(h)
    ensures Below(Eroded(g, rows, cols, h), g, rows, cols)
    ensures forall i, j :: 0 <= i < rows && 0 <= j < cols ==>
      (Eroded(g, rows, cols, h)[i][j] == 0 <==> g[i][j] == 0 || ZeroBefore(g, rows, cols, h, i, j, |h|, 0))
  {
  }

  /** Dilation only ever brightens: a pixel is white afterwards exactly
      when it was white or its kernel covers a non-black pixel. */
  lemma DilateGrows(g: seq<seq<byte>>, rows: nat, cols: nat, h: Kernel)
    requires IsGrid(g, rows, cols) && IsKernel(h)
    ensures Below(g, Dilated(g, rows, cols, h), rows, cols)
    ensures forall i, j :: 0 <= i < rows && 0 <= j < cols ==>
      (Dilated(g, rows, cols, h)[i][j] == 255 <==> g[i][j] == 255 || NonzeroBefore(g, rows, cols, h, i, j, |h|, 0))
  {
  }

  /** On a binary image all four operations give binary images. */
  lemma BinaryPreserved(g: seq<seq<byte>>, rows: nat, cols: nat, h: Kernel)
    requires IsGrid(g, rows, cols) && IsKernel(h) && IsBinary(g, rows, cols)
    ensures IsBinary(Eroded(g, rows, cols, h), rows, cols)
    ensures IsBinary(Dilated(g, rows, cols, h), rows, cols)
    ensures IsBinary(Opened(g, rows, cols, h), rows, cols)
    ensures IsBinary(Closed(g, rows, cols, h), rows, cols)
  {
    var e, d := Eroded(g, rows, cols, h), Dilated(g, rows, cols, h);
    assert IsBinary(e, rows, cols);
    assert IsBinary(d, rows, cols);
    assert IsBinary(Dilated(e, rows, cols, h), rows, cols);
    assert IsBinary(Eroded(d, rows, cols, h), rows, cols);
  }

  /** Whatever the operation and structuring element, the image callBack
      shows for a thresholded input is binary. */
  lemma OperatedBinary(g: seq<seq<byte>>, rows: nat, cols: nat, operationPos: int, kernelPos: int)
    requires IsGrid(g, rows, cols) && 0 <= operationPos <= 3 && 0 <= kernelPos <= 4
    ensures IsBinary(Operated(Thresholded(g, rows, cols), rows, cols, operationPos, kernelPos), rows, cols)
  {
    BinaryPreserved(Thresholded(g, rows, cols), rows, cols, Kernels(kernelPos));
  }

  /** Both operations are monotone: a darker input never gives a brighter
      output. */
  lemma Monotone(g1: seq<seq<byte>>, g2: seq<seq<byte>>, rows: nat, cols: nat, h: Kernel)
    requires IsGrid(g1, rows, cols) && IsGrid(g2, rows, cols) && IsKernel(h)
    requires Below(g1, g2, rows, cols)
    ensures Below(Eroded(g1, rows, cols, h), Eroded(g2, rows, cols, h), rows, cols)
    ensures Below(Dilated(g1, rows, cols, h), Dilated(g2, rows, cols, h), rows, cols)
  {
    forall i, j | 0 <= i < rows && 0 <= j < cols
      ensures ErodedAt(g1, rows, cols, h, i, j) <= ErodedAt(g2, rows, cols, h, i, j)
      ensures DilatedAt(g1, rows, cols, h, i, j) <= DilatedAt(g2, rows, cols, h, i, j)
    {
      if ZeroBefore(g2, rows, cols, h, i, j, |h|, 0) {
        var k, l :| 0 <= k < |h| && 0 <= l < |h[0]| && Before(k, l, |h|, 0) &&
          Covers(h, rows, cols, i, j, k, l) && g2[RowOffset(h, i, k)][ColOffset(h, j, l)] == 0;
        assert g1[RowOffset(h, i, k)][ColOffset(h, j, l)] == 0;
      }
      if NonzeroBefore(g1, rows, cols, h, i, j, |h|, 0) {
        var k, l :| 0 <= k < |h| && 0 <= l < |h[0]| && Before(k, l, |h|, 0) &&
          Covers(h, rows, cols, i, j, k, l) && g1[RowOffset(h, i, k)][ColOffset(h, j, l)] != 0;
        assert g2[RowOffset(h, i, k)][ColOffset(h, j, l)] != 0;
      }
    }
  }

  /** Opening and closing both lie between the erosion and the dilation. */
  lemma OpenCloseBetween(g: seq<seq<byte>>, rows: nat, cols: nat, h: Kernel)
    requires IsGrid(g, rows, cols) && IsKernel(h)
    ensures Below(Eroded(g, rows, cols, h), Opened(g, rows, cols, h), rows, cols)
    ensures Below(Opened(g, rows, cols, h), Dilated(g, rows, cols, h), rows, cols)
    ensures Below(Eroded(g, rows, cols, h), Closed(g, rows, cols, h), rows, cols)
    ensures Below(Closed(g, rows, cols, h), Dilated(g, rows, cols, h), rows, cols)
  {
    var e, d := Eroded(g, rows, cols, h), Dilated(g, rows, cols, h);
    ErodeShrinks(g, rows, cols, h);
    DilateGrows(g, rows, cols, h);
    DilateGrows(e, rows, cols, h);
    ErodeShrinks(d, rows, cols, h);
    Monotone(e, g, rows, cols, h);
    Monotone(g, d, rows, cols, h);
  }

  /** The photographic negative `255 - g`. */
  function Inverted(g: seq<seq<byte>>, rows: nat, cols: nat): (n: seq<seq<byte>>)
    requires IsGrid(g, rows, cols)
    ensures IsGrid(n, rows, cols)
    ensures forall i, j :: 0 <= i < rows && 0 <= j < cols ==> n[i][j] as int + g[i][j] as int == 255
  {
    seq(rows, i requires 0 <= i < rows =>
      seq(cols, j requires 0 <= j < cols => 255 - g[i][j]))
  }

  /** On a binary image, dilating the negative is the negative of the
      erosion. */
  lemma Duality(g: seq<seq<byte>>, rows: nat, cols: nat, h: Kernel)
    requires IsGrid(g, rows, cols) && IsKernel(h) && IsBinary(g, rows, cols)
    ensures Dilated(Inverted(g, rows, cols), rows, cols, h) == Inverted(Eroded(g, rows, cols, h), rows, cols)
  {
    var n := Inverted(g, rows, cols);
    forall i, j | 0 <= i < rows && 0 <= j < cols
      ensures NonzeroBefore(n, rows, cols, h, i, j, |h|, 0) == ZeroBefore(g, rows, cols, h, i, j, |h|, 0)
    {
      if ZeroBefore(g, rows, cols, h, i, j, |h|, 0) {
        var k, l :| 0 <= k < |h| && 0 <= l < |h[0]| && Before(k, l, |h|, 0) &&
          Covers(h, rows, cols, i, j, k, l) && g[RowOffset(h, i, k)][ColOffset(h, j, l)] == 0;
        assert n[RowOffset(h, i, k)][ColOffset(h, j, l)] != 0;
      }
      if NonzeroBefore(n, rows, cols, h, i, j, |h|, 0) {
        var k, l :| 0 <= k < |h| && 0 <= l < |h[0]| && Before(k, l, |h|, 0) &&
          Covers(h, rows, cols, i, j, k, l) && n[RowOffset(h, i, k)][ColOffset(h, j, l)] != 0;
        assert g[RowOffset(h, i, k)][ColOffset(h, j, l)] == 0;
      }
    }
    GridExtensionality(Dilated(n, rows, cols, h), Inverted(Eroded(g, rows, cols, h), rows, cols), rows, cols);
  }

  // ---------------------------------------------------------------------
  // The bounds check as written

  /** `0 <= row < rows` as C++ reads it: `(0 <= row) < rows`, a bool
      promoted to 0 or 1 and compared with the number of rows. */
  function WrittenInBounds(row: int, rows: int): bool {
    (if 0 <= row then 1 else 0) < rows
  }

  /** The written check passes every row of an image with two or more
      rows: at pixel (0, 0) with DIAMOND_3x3, entry (0, 1) reads row -1. */
  lemma WrittenCheckAdmitsOutside(rows: int, cols: int)
    requires rows >= 2 && cols >= 2
    ensures forall row :: WrittenInBounds(row, rows)
    ensures Kernels(1)[0][1] != 0 && RowOffset(Kernels(1), 0, 0) == -1 && ColOffset(Kernels(1), 0, 1) == 0
    ensures WrittenInBounds(RowOffset(Kernels(1), 0, 0), rows) && WrittenInBounds(ColOffset(Kernels(1), 0, 1), cols)
    ensures !Covers(Kernels(1), rows, cols, 0, 0, 0, 1)
  {
  }
}
