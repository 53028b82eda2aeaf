/** Neighbourhood mean and median filters of an 8-bit single-channel image.
    The neighbourhood of pixel (i, j) for an odd kernel size is the pixels
    (i + k, j + l) with k and l between -kernel/2 and kernel/2 that lie
    inside the image, gathered with k outer and l inner. */
module Spatial {
  import opened Grids
  import opened Arithmetic

  // ---------------------------------------------------------------------
  // The neighbourhood

  /** `0 <= x < n`. */
  predicate Inside(x: int, n: int) {
    0 <= x && x < n
  }

  /** The samples (i + k, j + l) inside the image for l from -half up to
      but not including `lEnd`, in that order. */
  function RowPart(g: seq<seq<byte>>, rows: nat, cols: nat, i: int, j: int, k: int, half: nat, lEnd: int): seq<byte>
    requires IsGrid(g, rows, cols)
    decreases lEnd + half
  {
    if lEnd <= -(half as int) then []
    else
      RowPart(g, rows, cols, i, j, k, half, lEnd - 1)
      + (if Inside(i + k, rows) && Inside(j + lEnd - 1, cols) then [g[i + k][j + lEnd - 1]] else [])
  }

  /** The samples of rows k from -half up to but not including `kEnd`. */
  function Gather(g: seq<seq<byte>>, rows: nat, cols: nat, i: int, j: int, half: nat, kEnd: int): seq<byte>
    requires IsGrid(g, rows, cols)
    decreases kEnd + half
  {
    if kEnd <= -(half as int) then []
    else Gather(g, rows, cols, i, j, half, kEnd - 1) + RowPart(g, rows, cols, i, j, kEnd - 1, half, half + 1)
  }

  /** The neighbourhood of (i, j) for a kernel reaching `half` pixels each way. */
  function Window(g: seq<seq<byte>>, rows: nat, cols: nat, i: int, j: int, half: nat): seq<byte>
    requires IsGrid(g, rows, cols)
  {
    Gather(g, rows, cols, i, j, half, half + 1)
  }

  /** The neighbourhood-gathering loops shared by Mean and Median: the
      vector is cleared, then every in-image neighbour is pushed back. */
  method GatherWindow(input: array2<byte>, i: int, j: int, kernel: nat) returns (nb: seq<byte>)
    ensures nb == Window(Cells(input), input.Length0, input.Length1, i, j, kernel / 2)
  {
    ghost var g := Cells(input);
    var rows, cols, half := input.Length0, input.Length1, kernel / 2;
    nb := [];
    for k := -(half as int) to half + 1
      invariant nb == Gather(g, rows, cols, i, j, half, k)
    {
      for l := -(half as int) to half + 1
        invariant nb == Gather(g, rows, cols, i, j, half, k) + RowPart(g, rows, cols, i, j, k, half, l)
      {
        if 0 <= i + k < rows && 0 <= j + l < cols {
          assert g[i + k][j + l] == input[i + k, j + l];
          nb := nb + [input[i + k, j + l]];
        }
      }
    }
  }

  /** The number of integers of [a, b) that lie in [0, n). */
  function Overlap(a: int, b: int, n: nat): (c: nat)
    ensures c <= n
    ensures c <= if a < b then b - a else 0
  {
    var lo := if a < 0 then 0 else a;
    var hi := if b < n then b else n;
    if hi <= lo then 0 else hi - lo
  }

  lemma {:induction false} RowPartLength(g: seq<seq<byte>>, rows: nat, cols: nat, i: int, j: int, k: int, half: nat, lEnd: int)
    requires IsGrid(g, rows, cols) && lEnd >= -(half as int)
    decreases lEnd + half
    ensures |RowPart(g, rows, cols, i, j, k, half, lEnd)| ==
      if Inside(i + k, rows) then Overlap(j - half, j + lEnd, cols) else 0
  {
    if lEnd > -(half as int) {
      RowPartLength(g, rows, cols, i, j, k, half, lEnd - 1);
    }
  }

  lemma {:induction false} GatherLength(g: seq<seq<byte>>, rows: nat, cols: nat, i: int, j: int, half: nat, kEnd: int)
    requires IsGrid(g, rows, cols) && kEnd >= -(half as int)
    decreases kEnd + half
    ensures |Gather(g, rows, cols, i, j, half, kEnd)| ==
      Overlap(i - half, i + kEnd, rows) * Overlap(j - half, j + half + 1, cols)
  {
    if kEnd > -(half as int) {
      GatherLength(g, rows, cols, i, j, half, kEnd - 1);
      RowPartLength(g, rows, cols, i, j, kEnd - 1, half, half + 1);
      var c := Overlap(j - half, j + half + 1, cols);
      var r := Overlap(i - half, i + kEnd - 1, rows);
      OverlapStep(i - half, i + kEnd - 1, rows);
      if Inside(i + kEnd - 1, rows) {
        RowTimes(r, c);
      }
    }
  }

  /** Widening [a, b) by one to the right adds `b` when `b` is in [0, n). */
  lemma OverlapStep(a: int, b: int, n: nat)
    requires a <= b
    ensures Overlap(a, b + 1, n) == Overlap(a, b, n) + (if Inside(b, n) then 1 else 0)
  {
  }

  lemma RowTimes(r: nat, c: nat)
    ensures (r + 1) * c == r * c + c
  {
  }

  /** The neighbourhood holds one sample for every in-image row offset
      times every in-image column offset. */
  lemma WindowLength(g: seq<seq<byte>>, rows: nat, cols: nat, i: int, j: int, half: nat)
    requires IsGrid(g, rows, cols)
    ensures |Window(g, rows, cols, i, j, half)| ==
      Overlap(i - half, i + half + 1, rows) * Overlap(j - half, j + half + 1, cols)
  {
    GatherLength(g, rows, cols, i, j, half, half + 1);
  }

  /** Away from the border the neighbourhood is the full kernel x kernel square. */
  lemma InteriorWindowLength(g: seq<seq<byte>>, rows: nat, cols: nat, i: int, j: int, kernel: nat)
    requires IsGrid(g, rows, cols) && kernel % 2 == 1
    requires kernel / 2 <= i < rows - kernel / 2 && kernel / 2 <= j < cols - kernel / 2
    ensures |Window(g, rows, cols, i, j, kernel / 2)| == kernel * kernel
  {
    WindowLength(g, rows, cols, i, j, kernel / 2);
  }

  lemma {:induction false} RowPartHasCentre(g: seq<seq<byte>>, rows: nat, cols: nat, i: nat, j: nat, half: nat, lEnd: int)
    requires IsGrid(g, rows, cols) && i < rows && j < cols && lEnd > 0
    ensures g[i][j] in RowPart(g, rows, cols, i, j, 0, half, lEnd)
  {
    if lEnd > 1 {
      RowPartHasCentre(g, rows, cols, i, j, half, lEnd - 1);
    }
  }

  lemma {:induction false} GatherHasCentre(g: seq<seq<byte>>, rows: nat, cols: nat, i: nat, j: nat, half: nat, kEnd: int)
    requires IsGrid(g, rows, cols) && i < rows && j < cols && kEnd > 0
    ensures g[i][j] in Gather(g, rows, cols, i, j, half, kEnd)
  {
    if kEnd > 1 {
      GatherHasCentre(g, rows, cols, i, j, half, kEnd - 1);
    } else {
      RowPartHasCentre(g, rows, cols, i, j, half, half + 1);
    }
  }

  /** The neighbourhood of a pixel of the image contains the pixel itself,
      so it is never empty. */
  lemma WindowHasCentre(g: seq<seq<byte>>, rows: nat, cols: nat, i: nat, j: nat, half: nat)
    requires IsGrid(g, rows, cols) && i < rows && j < cols
    ensures g[i][j] in Window(g, rows, cols, i, j, half)
    ensures |Window(g, rows, cols, i, j, half)| > 0
  {
    GatherHasCentre(g, rows, cols, i, j, half, half + 1);
  }

  // ---------------------------------------------------------------------
  // Mean

  /** `std::accumulate` from 0. */
  function Sum(s: seq<byte>): int {
    if s == [] then 0 else s[0] + Sum(s[1..])
  }

  /** The integer mean the Mean filter writes. */
  function MeanOf(s: seq<byte>): int
    requires |s| > 0
  {
    Sum(s) / |s|
  }

  lemma {:induction false} SumBounds(s: seq<byte>, lo: int, hi: int)
    requires forall k :: 0 <= k < |s| ==> lo <= s[k] <= hi
    ensures lo * |s| <= Sum(s) <= hi * |s|
  {
    if s != [] {
      SumBounds(s[1..], lo, hi);
      var n := |s[1..]|;
      assert |s| == n + 1;
      assert lo * (n + 1) == lo * n + lo;
      assert hi * (n + 1) == hi * n + hi;
    }
  }

  /** The mean lies between any bounds of the samples, so it is a sample
      value (0..255) and the mean of a constant neighbourhood is that constant. */
  lemma MeanWithin(s: seq<byte>, lo: nat, hi: nat)
    requires |s| > 0 && forall k :: 0 <= k < |s| ==> lo <= s[k] <= hi
    ensures lo <= MeanOf(s) <= hi
  {
    SumBounds(s, lo, hi);
    DivMonotone(lo * |s|, Sum(s), |s|);
    DivMonotone(Sum(s), hi * |s|, |s|);
    DivExact(lo, |s|);
    DivExact(hi, |s|);
  }

  /** Mean: each output pixel is the integer mean of its neighbourhood. */
  method Mean(input: array2<byte>, kernel: nat) returns (output: array2<byte>)
    ensures fresh(output)
    ensures output.Length0 == input.Length0 && output.Length1 == input.Length1
    ensures forall i, j :: 0 <= i < input.Length0 && 0 <= j < input.Length1 ==>
      |Window(Cells(input), input.Length0, input.Length1, i, j, kernel / 2)| > 0
      && output[i, j] == MeanOf(Window(Cells(input), input.Length0, input.Length1, i, j, kernel / 2))
  {
    ghost var g := Cells(input);
    var rows, cols := input.Length0, input.Length1;
    output := new byte[rows, cols];
    for i := 0 to rows
      invariant forall p, q :: 0 <= p < i && 0 <= q < cols ==>
        |Window(g, rows, cols, p, q, kernel / 2)| > 0
        && output[p, q] == MeanOf(Window(g, rows, cols, p, q, kernel / 2))
    {
      for j := 0 to cols
        invariant forall p, q :: ((0 <= p < i && 0 <= q < cols) || (p == i && 0 <= q < j)) ==>
          |Window(g, rows, cols, p, q, kernel / 2)| > 0
          && output[p, q] == MeanOf(Window(g, rows, cols, p, q, kernel / 2))
      {
        var nb := GatherWindow(input, i, j, kernel);
        WindowHasCentre(g, rows, cols, i, j, kernel / 2);
        MeanWithin(nb, 0, 255);
        output[i, j] := Sum(nb) / |nb|;
      }
    }
  }

  // ---------------------------------------------------------------------
  // Median

  ghost predicate Sorted(s: seq<byte>) {
    forall j, k :: 0 <= j <= k < |s| ==> s[j] <= s[k]
  }

  /** `x` placed before the first entry of `t` that is not smaller. */
  function Insert(x: byte, t: seq<byte>): (r: seq<byte>)
    ensures |r| == |t| + 1
  {
    if t == [] || x <= t[0] then [x] + t else [t[0]] + Insert(x, t[1..])
  }

  /** The neighbourhood after `std::sort`, by insertion. */
  function Sort(s: seq<byte>): (t: seq<byte>)
    ensures |t| == |s|
  {
    if s == [] then [] else Insert(s[0], Sort(s[1..]))
  }

  /** Inserting into a sorted sequence keeps it sorted, and the new head
      is `x` or the old head. */
  lemma {:induction false} InsertSorted(x: byte, t: seq<byte>)
    requires Sorted(t)
    ensures Sorted(Insert(x, t))
    ensures Insert(x, t)[0] == x || (t != [] && Insert(x, t)[0] == t[0])
  {
    if t != [] && x > t[0] {
      var rest := Insert(x, t[1..]);
      InsertSorted(x, t[1..]);
      assert Insert(x, t) == [t[0]] + rest;
      SortedCons(t[0], rest);
    } else {
      SortedCons(x, t);
    }
  }

  /** Inserting adds exactly `x` to the contents. */
  lemma {:induction false} InsertPermutes(x: byte, t: seq<byte>)
    ensures multiset(Insert(x, t)) == multiset(t) + multiset{x}
  {
    if t != [] && x > t[0] {
      InsertPermutes(x, t[1..]);
      assert Insert(x, t) == [t[0]] + Insert(x, t[1..]);
      assert t == [t[0]] + t[1..];
    }
  }

  /** A sorted sequence stays sorted with an entry no larger than its head
      in front. */
  lemma SortedCons(a: byte, s: seq<byte>)
    requires Sorted(s) && (s == [] || a <= s[0])
    ensures Sorted([a] + s)
  {
    var r := [a] + s;
    forall j, k | 0 <= j <= k < |r|
      ensures r[j] <= r[k]
    {
      if j == 0 && k > 0 {
        assert r[k] == s[k - 1] && s[0] <= s[k - 1];
      }
    }
  }

  /** Sort returns the sorted permutation of its input. */
  lemma {:induction false} SortSorted(s: seq<byte>)
    ensures Sorted(Sort(s)) && multiset(Sort(s)) == multiset(s)
  {
    if s != [] {
      SortSorted(s[1..]);
      InsertSorted(s[0], Sort(s[1..]));
      InsertPermutes(s[0], Sort(s[1..]));
      assert s == [s[0]] + s[1..];
    }
  }

  /** The median as Median computes it: for an odd count the middle
      sample; for an even count the mean of the samples just below the
      middle and one PAST it (`at(size/2 + 1)`), and no value at all
      (`std::out_of_range` is thrown) when there are two samples, or none
      (`size/2 - 1` wraps around as an unsigned size). */
  function WrittenMedian(s: seq<byte>): (r: Option<byte>)
    ensures r.None? <==> |s| == 0 || |s| == 2
  {
    var t, n := Sort(s), |s|;
    if n % 2 == 0 then
      if 0 < n && n / 2 + 1 < n then Some((t[n / 2 - 1] as int + t[n / 2 + 1] as int) / 2) else None
    else Some(t[n / 2])
  }

  /** Whenever Median writes a value, it lies between the smallest and the
      largest sample of the neighbourhood, and is never below the lower
      middle sample; both ends are samples of the neighbourhood. */
  lemma WrittenMedianWithin(s: seq<byte>)
    ensures WrittenMedian(s).Some? ==> (|s| > 0
      && Sort(s)[0] <= Sort(s)[(|s| - 1) / 2] <= WrittenMedian(s).value <= Sort(s)[|s| - 1]
      && Sort(s)[0] in s && Sort(s)[|s| - 1] in s)
  {
    SortSorted(s);
    if WrittenMedian(s).Some? {
      var t := Sort(s);
      assert t[0] in multiset(t) && t[|s| - 1] in multiset(t);
    }
  }

  /** The median of an even count is the mean of the two middle samples. */
  function MedianOf(s: seq<byte>): (m: byte)
    requires |s| > 0
    ensures Sort(s)[(|s| - 1) / 2] <= m <= Sort(s)[|s| / 2]
  {
    SortSorted(s);
    var t, n := Sort(s), |s|;
    if n % 2 == 0 then (t[n / 2 - 1] as int + t[n / 2] as int) / 2 else t[n / 2]
  }

  /** How many samples of `s` are below `m`. */
  function CountLess(s: seq<byte>, m: int): nat {
    if s == [] then 0 else (if s[0] < m then 1 else 0) + CountLess(s[1..], m)
  }

  /** How many samples of `s` are above `m`. */
  function CountGreater(s: seq<byte>, m: int): nat {
    if s == [] then 0 else (if s[0] > m then 1 else 0) + CountGreater(s[1..], m)
  }

  lemma {:induction false} InsertCounts(x: byte, t: seq<byte>, m: int)
    ensures CountLess(Insert(x, t), m) == CountLess(t, m) + (if x < m then 1 else 0)
    ensures CountGreater(Insert(x, t), m) == CountGreater(t, m) + (if x > m then 1 else 0)
  {
    if t == [] || x <= t[0] {
      assert ([x] + t)[1..] == t;
    } else {
      InsertCounts(x, t[1..], m);
      assert ([t[0]] + Insert(x, t[1..]))[1..] == Insert(x, t[1..]);
    }
  }

  /** Sorting keeps the number of samples below and above any value. */
  lemma {:induction false} SortCounts(s: seq<byte>, m: int)
    ensures CountLess(Sort(s), m) == CountLess(s, m)
    ensures CountGreater(Sort(s), m) == CountGreater(s, m)
  {
    if s != [] {
      SortCounts(s[1..], m);
      InsertCounts(s[0], Sort(s[1..]), m);
    }
  }

  /** If every entry from position `p` on is at least `m`, at most `p`
      entries are below `m`. */
  lemma {:induction false} FewLess(t: seq<byte>, m: int, p: nat)
    requires p <= |t| && forall k :: p <= k < |t| ==> t[k] >= m
    ensures CountLess(t, m) <= p
  {
    if t != [] {
      FewLess(t[1..], m, if p == 0 then 0 else p - 1);
    }
  }

  /** If every entry before position `q` is at most `m`, at most
      `|t| - q` entries are above `m`. */
  lemma {:induction false} FewGreater(t: seq<byte>, m: int, q: nat)
    requires q <= |t| && forall k :: 0 <= k < q ==> t[k] <= m
    ensures CountGreater(t, m) <= |t| - q
  {
    if t != [] {
      FewGreater(t[1..], m, if q == 0 then 0 else q - 1);
    }
  }

  /** The median splits the neighbourhood: at most half of the samples are
      below it and at most half above it. */
  lemma MedianSplits(s: seq<byte>)
    requires |s| > 0
    ensures CountLess(s, MedianOf(s)) <= |s| / 2
    ensures CountGreater(s, MedianOf(s)) <= |s| / 2
  {
    var t, m := Sort(s), MedianOf(s);
    SortSorted(s);
    FewLess(t, m, |s| / 2);
    FewGreater(t, m, (|s| - 1) / 2 + 1);
    SortCounts(s, m);
  }

  /** The value Median writes for [0, 0, 0, 20] is 10, above three of the
      four samples, where the median is 0. */
  lemma WrittenMedianExample()
    ensures WrittenMedian([0, 0, 0, 20]) == Some(10)
    ensures CountLess([0, 0, 0, 20], 10) == 3 > |[0, 0, 0, 20]| / 2
    ensures MedianOf([0, 0, 0, 20]) == 0
  {
    var s: seq<byte> := [0, 0, 0, 20];
    var t := Sort(s);
    assert s[1..] == [0, 0, 20];
    assert s[1..][1..] == [0, 20];
    assert s[1..][1..][1..] == [20];
    assert s[1..][1..][1..][1..] == [];
    assert Sort([20]) == [20];
    assert Sort([0, 20]) == [0, 20];
    assert Sort([0, 0, 20]) == [0, 0, 20];
    assert t == [0, 0, 0, 20];
  }

  /** The per-pixel step of Median: the size is taken, the neighbourhood
      sorted, and the middle sample (odd size) or the mean of the samples
      at `size/2 - 1` and `size/2 + 1` (even size) chosen; `at` throws
      for a size of two. */
  method WindowMedian(nb: seq<byte>) returns (r: Option<byte>)
    ensures r == WrittenMedian(nb)
  {
    var size := |nb|;
    var sorted := Sort(nb);
    if size % 2 == 0 {
      if size == 0 || size / 2 + 1 >= size {
        return None;
      }
      r := Some((sorted[size / 2 - 1] as int + sorted[size / 2 + 1] as int) / 2);
    } else {
      r := Some(sorted[size / 2]);
    }
  }

  /** The value Median writes at (i, j), or -1 where it throws. */
  ghost function MedianPixel(g: seq<seq<byte>>, rows: nat, cols: nat, i: int, j: int, half: nat): int
    requires IsGrid(g, rows, cols)
  {
    var m := WrittenMedian(Window(g, rows, cols, i, j, half));
    if m.Some? then m.value else -1
  }

  /** Median: each output pixel is WrittenMedian of its neighbourhood; the
      first neighbourhood of exactly two samples throws, and nothing is
      produced. */
  method Median(input: array2<byte>, kernel: nat) returns (r: Option<array2<byte>>)
    ensures r.None? <==> exists i, j :: (0 <= i < input.Length0 && 0 <= j < input.Length1
      && |Window(Cells(input), input.Length0, input.Length1, i, j, kernel / 2)| == 2)
    ensures r.Some? ==> fresh(r.value)
    ensures r.Some? ==> r.value.Length0 == input.Length0 && r.value.Length1 == input.Length1
    ensures r.Some? ==> forall i, j :: 0 <= i < input.Length0 && 0 <= j < input.Length1 ==>
      WrittenMedian(Window(Cells(input), input.Length0, input.Length1, i, j, kernel / 2)) == Some(r.value[i, j])
  {
    ghost var g := Cells(input);
    var rows, cols := input.Length0, input.Length1;
    var output := new byte[rows, cols];
    for i := 0 to rows
      invariant forall p, q :: 0 <= p < i && 0 <= q < cols ==>
        output[p, q] == MedianPixel(g, rows, cols, p, q, kernel / 2)
    {
      var ok := MedianRow(input, output, i, kernel);
      if !ok {
        return None;
      }
    }
    forall p, q | 0 <= p < rows && 0 <= q < cols
      ensures WrittenMedian(Window(g, rows, cols, p, q, kernel / 2)) == Some(output[p, q])
    {
      WindowHasCentre(g, rows, cols, p, q, kernel / 2);
    }
    r := Some(output);
  }

  /** One row of Median: every pixel of row i gets WrittenMedian of its
      neighbourhood, or the row stops at a neighbourhood of two samples. */
  method MedianRow(input: array2<byte>, output: array2<byte>, i: nat, kernel: nat) returns (ok: bool)
    requires output != input
    requires output.Length0 == input.Length0 && output.Length1 == input.Length1
    requires i < input.Length0
    modifies output
    ensures ok ==> forall q :: 0 <= q < input.Length1 ==>
      output[i, q] == MedianPixel(Cells(input), input.Length0, input.Length1, i, q, kernel / 2)
    ensures !ok ==> exists q :: (0 <= q < input.Length1
      && |Window(Cells(input), input.Length0, input.Length1, i, q, kernel / 2)| == 2)
    ensures forall p, q :: 0 <= p < output.Length0 && 0 <= q < output.Length1 && p != i ==>
      output[p, q] == old(output[p, q])
  {
    ghost var g := Cells(input);
    var rows, cols := input.Length0, input.Length1;
    for j := 0 to cols
      invariant forall q :: 0 <= q < j ==> output[i, q] == MedianPixel(g, rows, cols, i, q, kernel / 2)
      invariant forall p, q :: 0 <= p < rows && 0 <= q < cols && p != i ==> output[p, q] == old(output[p, q])
    {
      var nb := GatherWindow(input, i, j, kernel);
      WindowHasCentre(g, rows, cols, i, j, kernel / 2);
      var m := WindowMedian(nb);
      if m.None? {
        assert g == Cells(input);
        assert |Window(g, rows, cols, i, j, kernel / 2)| == 2;
        return false;
      }
      output[i, j] := m.value;
    }
    ok := true;
  }

  // ---------------------------------------------------------------------
  // The trackbar callback

  /** The kernel size of each position of the kernel trackbar (0..2). */
  function KernelSize(kernelPos: int): (kernel: nat)
    requires 0 <= kernelPos <= 2
    ensures kernel % 2 == 1 && kernel / 2 == kernelPos + 1
  {
    if kernelPos == 0 then 3 else if kernelPos == 1 then 5 else 7
  }

  /** What a trackbar change shows: the mean or the median of the chosen
      image, or nothing new for the other filter positions, whose cases
      the program does not handle. */
  datatype Shown = Filtered(output: array2<byte>) | Thrown | Unchanged

  /** callBack: the kernel trackbar picks the size, the filter trackbar
      picks Mean (0) or Median (1). */
  method CallBack(input: array2<byte>, filterPos: int, kernelPos: int) returns (shown: Shown)
    requires 0 <= kernelPos <= 2
    ensures (filterPos == 0 || filterPos == 1) <==> !shown.Unchanged?
    ensures shown.Thrown? ==> filterPos == 1
    ensures shown.Filtered? ==> fresh(shown.output)
    ensures shown.Filtered? ==> shown.output.Length0 == input.Length0 && shown.output.Length1 == input.Length1
    ensures shown.Filtered? && filterPos == 0 ==>
      forall i, j :: 0 <= i < input.Length0 && 0 <= j < input.Length1 ==>
        |Window(Cells(input), input.Length0, input.Length1, i, j, kernelPos + 1)| > 0
        && shown.output[i, j] == MeanOf(Window(Cells(input), input.Length0, input.Length1, i, j, kernelPos + 1))
    ensures shown.Filtered? && filterPos == 1 ==>
      forall i, j :: 0 <= i < input.Length0 && 0 <= j < input.Length1 ==>
        WrittenMedian(Window(Cells(input), input.Length0, input.Length1, i, j, kernelPos + 1))
          == Some(shown.output[i, j])
  {
    var kernel := KernelSize(kernelPos);
    if filterPos == 0 {
      var output := Mean(input, kernel);
      shown := Filtered(output);
    } else if filterPos == 1 {
      var r := Median(input, kernel);
      shown := if r.Some? then Filtered(r.value) else Thrown;
    } else {
      shown := Unchanged;
    }
  }
}
