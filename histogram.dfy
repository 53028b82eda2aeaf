/** Histogram equalisation and matching of an 8-bit single-channel image:
    a 256-bin histogram, its running sum normalised to 0..255, and a
    per-pixel lookup of the first reference level above the pixel's
    normalised cumulative count. */
module Histogram {
  import opened Grids
  import opened Arithmetic

  /** The largest value of a C++ `int`. */
  const IntMax := 0x7fff_ffff

  // ---------------------------------------------------------------------
  // Counting

  /** The samples of a grid in the order an OpenCV matrix iterator visits
      them: row by row, left to right. */
  function Flatten(g: seq<seq<byte>>): seq<byte> {
    if g == [] then [] else Flatten(g[..|g| - 1]) + g[|g| - 1]
  }

  lemma {:induction false} FlattenLength(g: seq<seq<byte>>, rows: nat, cols: nat)
    requires IsGrid(g, rows, cols)
    ensures |Flatten(g)| == rows * cols
  {
    if g != [] {
      FlattenLength(g[..|g| - 1], rows - 1, cols);
      assert (rows - 1) * cols + cols == rows * cols;
    }
  }

  /** How many samples of `s` equal `v`. */
  function Count(s: seq<byte>, v: int): nat {
    if s == [] then 0
    else Count(s[..|s| - 1], v) + (if s[|s| - 1] == v then 1 else 0)
  }

  /** How many samples of `s` are below `n`. */
  function CountBelow(s: seq<byte>, n: int): nat {
    if s == [] then 0
    else CountBelow(s[..|s| - 1], n) + (if s[|s| - 1] < n then 1 else 0)
  }

  /** The histogram of a sequence of samples: bin `v` counts the samples
      equal to `v`. */
  function HistogramOf(s: seq<byte>): (h: seq<int>)
    ensures |h| == 256
    ensures forall v :: 0 <= v < 256 ==> h[v] == Count(s, v)
  {
    seq(256, v requires 0 <= v < 256 => Count(s, v))
  }

  /** The sum of a sequence of integers. */
  function Total(h: seq<int>): int {
    if h == [] then 0 else Total(h[..|h| - 1]) + h[|h| - 1]
  }

  /** One more sample `x` adds one to bin `x` and leaves the other bins. */
  lemma HistogramAppend(s: seq<byte>, x: byte)
    ensures HistogramOf(s + [x]) == HistogramOf(s)[x := HistogramOf(s)[x] + 1]
  {
    assert (s + [x])[..|s|] == s;
  }

  /** getHistogram: 256 zeroed bins, one increment per pixel visited. */
  method GetHistogram(src: array2<byte>) returns (ret: array<int>)
    ensures fresh(ret) && ret.Length == 256
    ensures ret[..] == HistogramOf(Flatten(Cells(src)))
  {
    ret := new int[256](_ => 0);
    ghost var g := Cells(src);
    assert ret[..] == HistogramOf([]);
    for i := 0 to src.Length0
      invariant ret[..] == HistogramOf(Flatten(g[..i]))
    {
      assert Flatten(g[..i]) + g[i][..0] == Flatten(g[..i]);
      for j := 0 to src.Length1
        invariant ret[..] == HistogramOf(Flatten(g[..i]) + g[i][..j])
      {
        var v := src[i, j];
        assert v == g[i][j];
        HistogramAppend(Flatten(g[..i]) + g[i][..j], v);
        assert g[i][..j + 1] == g[i][..j] + [v];
        assert Flatten(g[..i]) + g[i][..j + 1] == (Flatten(g[..i]) + g[i][..j]) + [v];
        ret[v] := ret[v] + 1;
      }
      assert g[..i + 1][..i] == g[..i];
      assert g[i][..src.Length1] == g[i];
      assert Flatten(g[..i + 1]) == Flatten(g[..i]) + g[i];
    }
    assert g[..src.Length0] == g;
  }

  /** Adding bin `n` to the samples below `n` gives the samples below `n + 1`. */
  lemma {:induction false} CountBelowStep(s: seq<byte>, n: int)
    ensures CountBelow(s, n + 1) == CountBelow(s, n) + Count(s, n)
  {
    if s != [] {
      CountBelowStep(s[..|s| - 1], n);
    }
  }

  /** When every sample is below `n`, all of them are counted. */
  lemma {:induction false} CountBelowAll(s: seq<byte>, n: int)
    requires forall k :: 0 <= k < |s| ==> s[k] < n
    ensures CountBelow(s, n) == |s|
  {
    if s != [] {
      CountBelowAll(s[..|s| - 1], n);
    }
  }

  lemma {:induction false} CountBelowAtMost(s: seq<byte>, n: int)
    ensures CountBelow(s, n) <= |s|
  {
    if s != [] {
      CountBelowAtMost(s[..|s| - 1], n);
    }
  }

  /** The first `n` bins add up to the number of samples below `n`. */
  lemma {:induction false} BinsBelow(s: seq<byte>, n: nat)
    requires n <= 256
    ensures Total(HistogramOf(s)[..n]) == CountBelow(s, n)
  {
    var h := HistogramOf(s);
    if n == 0 {
      CountBelowAll([], 0);
      if s != [] {
        CountBelowZero(s);
      }
    } else {
      BinsBelow(s, n - 1);
      assert h[..n][..n - 1] == h[..n - 1];
      CountBelowStep(s, n - 1);
    }
  }

  lemma {:induction false} CountBelowZero(s: seq<byte>)
    ensures CountBelow(s, 0) == 0
  {
    if s != [] {
      CountBelowZero(s[..|s| - 1]);
    }
  }

  /** The bins of a histogram add up to the number of pixels. */
  lemma BinsSumToPixelCount(s: seq<byte>)
    ensures Total(HistogramOf(s)) == |s|
  {
    BinsBelow(s, 256);
    assert HistogramOf(s)[..256] == HistogramOf(s);
    CountBelowAll(s, 256);
  }

  // ---------------------------------------------------------------------
  // Running sums and normalisation

  /** Entry `k` is the sum of entries `0..k` (`std::partial_sum`). */
  function PartialSums(h: seq<int>): (c: seq<int>)
    ensures |c| == |h|
  {
    seq(|h|, k requires 0 <= k < |h| => Total(h[..k + 1]))
  }

  /** `std::partial_sum(begin(ret), end(ret), begin(ret))`: each entry
      becomes the running sum, overwriting the array left to right. */
  method PartialSum(a: array<int>)
    modifies a
    ensures a[..] == PartialSums(old(a[..]))
  {
    ghost var o := a[..];
    if a.Length == 0 {
      return;
    }
    assert o[..1] == [o[0]];
    assert o[..1][..0] == [];
    for k := 1 to a.Length
      invariant forall p :: 0 <= p < k ==> a[p] == Total(o[..p + 1])
      invariant forall p :: k <= p < a.Length ==> a[p] == o[p]
    {
      assert o[..k + 1][..k] == o[..k];
      a[k] := a[k - 1] + a[k];
    }
  }

  /** Entries never decrease from left to right. */
  ghost predicate Sorted(s: seq<int>) {
    forall j, k :: 0 <= j <= k < |s| ==> s[j] <= s[k]
  }

  /** The running sums of a histogram of `s` are the number of samples
      up to each level: they never decrease and end with the pixel count. */
  lemma CumulativeCounts(s: seq<byte>)
    ensures |PartialSums(HistogramOf(s))| == 256
    ensures forall k :: 0 <= k < 256 ==> PartialSums(HistogramOf(s))[k] == CountBelow(s, k + 1)
    ensures forall k :: 0 <= k < 256 ==> 0 <= PartialSums(HistogramOf(s))[k] <= |s|
    ensures Sorted(PartialSums(HistogramOf(s)))
    ensures PartialSums(HistogramOf(s))[255] == |s|
  {
    var c := PartialSums(HistogramOf(s));
    forall k | 0 <= k < 256
      ensures c[k] == CountBelow(s, k + 1) && 0 <= c[k] <= |s|
    {
      BinsBelow(s, k + 1);
      CountBelowAtMost(s, k + 1);
    }
    forall j, k | 0 <= j <= k < 256
      ensures c[j] <= c[k]
    {
      CountBelowMonotone(s, j + 1, k + 1);
    }
    CountBelowAll(s, 256);
  }

  lemma {:induction false} CountBelowMonotone(s: seq<byte>, m: int, n: int)
    requires m <= n
    ensures CountBelow(s, m) <= CountBelow(s, n)
  {
    if s != [] {
      CountBelowMonotone(s[..|s| - 1], m, n);
    }
  }

  /** The largest entry (`valarray::max`). */
  function MaxOf(s: seq<int>): (m: int)
    requires |s| > 0
    ensures forall k :: 0 <= k < |s| ==> s[k] <= m
    ensures exists k :: 0 <= k < |s| && s[k] == m
  {
    if |s| == 1 then s[0]
    else
      var m' := MaxOf(s[..|s| - 1]);
      assert forall k :: 0 <= k < |s| - 1 ==> s[..|s| - 1][k] == s[k];
      if s[|s| - 1] > m' then s[|s| - 1] else m'
  }

  /** The largest entry of a nondecreasing sequence is its last one. */
  lemma MaxOfSorted(s: seq<int>)
    requires |s| > 0 && Sorted(s)
    ensures MaxOf(s) == s[|s| - 1]
  {
  }

  /** C++ integer division, which truncates toward zero. */
  function Quot(a: int, b: int): (q: int)
    requires b > 0
    ensures a >= 0 ==> q == a / b
  {
    if a >= 0 then a / b else -((-a) / b)
  }

  /** Truncating division by a positive number keeps the order of its operands. */
  lemma QuotMonotone(a: int, b: int, m: int)
    requires 0 <= a <= b && m > 0
    ensures Quot(a, m) <= Quot(b, m)
  {
    DivMonotone(a, b, m);
  }

  /** A multiple of 255 of a value between 0 and `m`, divided by `m`, is a level. */
  lemma QuotLevel(x: int, m: int)
    requires 0 <= x <= m && m > 0
    ensures 0 <= Quot(255 * x, m) <= 255
    ensures x == m ==> Quot(255 * x, m) == 255
  {
    DivMonotone(0, 255 * x, m);
    DivMonotone(255 * x, 255 * m, m);
    DivExact(255, m);
  }

  /** `255 * ret / ret.max()`, entry by entry. */
  function Normalized(c: seq<int>): (n: seq<int>)
    requires |c| > 0 && MaxOf(c) > 0
    ensures |n| == |c|
  {
    seq(|c|, k requires 0 <= k < |c| => Quot(255 * c[k], MaxOf(c)))
  }

  /** Normalising a nonnegative, nondecreasing table with a positive last
      entry gives a nondecreasing table of levels 0..255 ending at 255. */
  lemma NormalizedLevels(c: seq<int>)
    requires |c| > 0 && Sorted(c) && c[0] >= 0 && c[|c| - 1] > 0
    ensures MaxOf(c) == c[|c| - 1]
    ensures Sorted(Normalized(c))
    ensures forall k :: 0 <= k < |c| ==> 0 <= Normalized(c)[k] <= 255
    ensures Normalized(c)[|c| - 1] == 255
  {
    MaxOfSorted(c);
    var m := c[|c| - 1];
    var n := Normalized(c);
    forall j, k | 0 <= j <= k < |c|
      ensures n[j] <= n[k]
    {
      assert n[j] == Quot(255 * c[j], m) && n[k] == Quot(255 * c[k], m);
      QuotMonotone(255 * c[j], 255 * c[k], m);
    }
    forall k | 0 <= k < |c|
      ensures 0 <= n[k] <= 255
    {
      assert n[k] == Quot(255 * c[k], m);
      QuotLevel(c[k], m);
    }
    QuotLevel(m, m);
  }

  /** The normalised cumulative histogram of the pixels of `g`. */
  function CumulativeNormalized(g: seq<seq<byte>>): (hx: seq<int>)
    requires |Flatten(g)| > 0
    ensures |hx| == 256
  {
    var c := PartialSums(HistogramOf(Flatten(g)));
    CumulativeCounts(Flatten(g));
    NormalizedLevels(c);
    Normalized(c)
  }

  /** The normalised cumulative histogram levels run from 0 to 255, never
      decrease, and reach 255 at level 255. */
  lemma CumulativeNormalizedLevels(g: seq<seq<byte>>)
    requires |Flatten(g)| > 0
    ensures Sorted(CumulativeNormalized(g))
    ensures forall k :: 0 <= k < 256 ==> 0 <= CumulativeNormalized(g)[k] <= 255
    ensures CumulativeNormalized(g)[255] == 255
  {
    CumulativeCounts(Flatten(g));
    NormalizedLevels(PartialSums(HistogramOf(Flatten(g))));
  }

  /** getCumulativeHistogramNormalized on a single-channel image: the
      histogram, its running sums in place, then the normalisation. The
      image must not be empty (the maximum is a divisor) and 255 times its
      pixel count must fit in an `int`. */
  method CumulativeHistogramNormalized(src: array2<byte>) returns (ret: seq<int>)
    requires src.Length0 * src.Length1 > 0
    requires 255 * (src.Length0 * src.Length1) <= IntMax
    ensures |Flatten(Cells(src))| == src.Length0 * src.Length1
    ensures ret == CumulativeNormalized(Cells(src))
    ensures Sorted(ret) && ret[255] == 255
    ensures forall k :: 0 <= k < 256 ==> 0 <= ret[k] <= 255
  {
    ghost var s := Flatten(Cells(src));
    FlattenLength(Cells(src), src.Length0, src.Length1);
    var h := GetHistogram(src);
    PartialSum(h);
    CumulativeCounts(s);
    ghost var c := h[..];
    forall k | 0 <= k < 256
      ensures 255 * c[k] <= IntMax
    {
    }
    NormalizedLevels(c);
    ret := Normalized(h[..]);
    CumulativeNormalizedLevels(Cells(src));
  }

  // ---------------------------------------------------------------------
  // Lookup into the reference table

  /** The position `std::upper_bound` finds in a sorted table: the first
      entry greater than `v`, or the end. */
  function UpperBound(table: seq<int>, v: int): (i: nat)
    ensures i <= |table|
    ensures forall k :: 0 <= k < i ==> table[k] <= v
    ensures i < |table| ==> table[i] > v
  {
    if table == [] then 0
    else if table[0] > v then 0
    else 1 + UpperBound(table[1..], v)
  }

  /** In a sorted table every entry from the upper bound on exceeds `v`. */
  lemma UpperBoundSplits(table: seq<int>, v: int)
    requires Sorted(table)
    ensures forall k :: UpperBound(table, v) <= k < |table| ==> table[k] > v
  {
  }

  /** The equalisation reference table: `std::iota` from 0 over 256 entries. */
  function Identity(): (t: seq<int>)
    ensures |t| == 256 && Sorted(t)
  {
    seq(256, k requires 0 <= k < 256 => k)
  }

  /** The conversion of an `int` to `uint8_t` on assignment. */
  function ByteOf(x: int): (b: byte)
    ensures 0 <= x < 256 ==> b == x
  {
    x % 256
  }

  /** The value matchHistogram writes for a source sample `v`. */
  function MatchedSample(table: seq<int>, hx: seq<int>, v: byte): byte
    requires |hx| == 256 && UpperBound(table, hx[v]) < |table|
  {
    ByteOf(table[UpperBound(table, hx[v])])
  }

  /** matchHistogram: the normalised cumulative histogram of `src` is
      computed before any pixel is written, then each pixel of `dest` is
      the first reference entry above that histogram at the source pixel.
      Every such entry must exist (the source would dereference `end()`).
      Each write reads only the source pixel at the same position, so the
      call with `dest` the very array `src` gives the same result. */
  method MatchHistogram(src: array2<byte>, dest: array2<byte>, table: seq<int>)
    requires dest.Length0 == src.Length0 && dest.Length1 == src.Length1
    requires src.Length0 * src.Length1 > 0
    requires 255 * (src.Length0 * src.Length1) <= IntMax
    requires Sorted(table)
    requires |Flatten(Cells(src))| > 0
    requires forall i, j :: 0 <= i < src.Length0 && 0 <= j < src.Length1 ==>
      UpperBound(table, CumulativeNormalized(Cells(src))[src[i, j]]) < |table|
    modifies dest
    ensures forall i, j :: 0 <= i < src.Length0 && 0 <= j < src.Length1 ==>
      dest[i, j] == MatchedSample(table, CumulativeNormalized(old(Cells(src))), old(src[i, j]))
  {
    var hx := CumulativeHistogramNormalized(src);
    WriteMatched(src, dest, table, hx);
  }

  /** The pixel loop of matchHistogram, once the table `hx` is known: each
      pixel of `dest` is the sample matched to the source pixel at the same
      place, as it was before the loop (`dest` may be `src` itself). */
  method WriteMatched(src: array2<byte>, dest: array2<byte>, table: seq<int>, hx: seq<int>)
    requires dest.Length0 == src.Length0 && dest.Length1 == src.Length1 && |hx| == 256
    requires forall i, j :: 0 <= i < src.Length0 && 0 <= j < src.Length1 ==>
      UpperBound(table, hx[src[i, j]]) < |table|
    modifies dest
    ensures forall i, j :: 0 <= i < src.Length0 && 0 <= j < src.Length1 ==>
      dest[i, j] == MatchedSample(table, hx, old(src[i, j]))
  {
    ghost var g := Cells(src);
    var rows, cols := src.Length0, src.Length1;
    ghost var out := seq(rows, p requires 0 <= p < rows =>
      seq(cols, q requires 0 <= q < cols => MatchedSample(table, hx, g[p][q])));
    for i := 0 to rows
      invariant forall p, q :: 0 <= p < i && 0 <= q < cols ==> dest[p, q] == out[p][q]
      invariant forall p, q :: i <= p < rows && 0 <= q < cols ==> src[p, q] == g[p][q]
    {
      for j := 0 to cols
        invariant forall p, q :: 0 <= p < i && 0 <= q < cols ==> dest[p, q] == out[p][q]
        invariant forall q :: 0 <= q < j ==> dest[i, q] == out[i][q]
        invariant forall p, q :: i < p < rows && 0 <= q < cols ==> src[p, q] == g[p][q]
        invariant forall q :: j <= q < cols ==> src[i, q] == g[i][q]
      {
        var v := src[i, j];
        dest[i, j] := ByteOf(table[UpperBound(table, hx[v])]);
      }
    }
  }

  /** On the identity table the upper bound of a level `v` in 0..255 is
      `v + 1`: equalisation as written outputs one more than the normalised
      cumulative histogram, and the end of the table for level 255. */
  lemma UpperBoundOfIdentity(v: int)
    requires -1 <= v <= 255
    ensures UpperBound(Identity(), v) == v + 1
  {
    var t := Identity();
    var i := UpperBound(t, v);
    assert i < |t| ==> t[i] == i;
    if v + 1 < |t| {
      assert t[v + 1] == v + 1;
    }
  }

  /** The brightest level of a nonempty image has normalised cumulative
      level 255. */
  lemma BrightestNormalized(g: seq<seq<byte>>, m: byte)
    requires |Flatten(g)| > 0
    requires forall k :: 0 <= k < |Flatten(g)| ==> Flatten(g)[k] <= m
    ensures CumulativeNormalized(g)[m] == 255
  {
    var s := Flatten(g);
    CumulativeCounts(s);
    var c := PartialSums(HistogramOf(s));
    CountBelowAll(s, m + 1);
    assert c[m] == |s|;
    NormalizedLevels(c);
    assert CumulativeNormalized(g)[m] == Quot(255 * |s|, |s|) == 255;
  }

  /** Equalisation as written cannot be run on any image: its brightest
      pixel has normalised cumulative level 255, whose upper bound in the
      identity table is the end of the table. */
  lemma IdentityReferenceHitsEnd(g: seq<seq<byte>>, rows: nat, cols: nat)
    requires IsGrid(g, rows, cols) && rows * cols > 0
    ensures |Flatten(g)| > 0
    ensures exists i, j :: (0 <= i < rows && 0 <= j < cols
      && UpperBound(Identity(), CumulativeNormalized(g)[g[i][j]]) == |Identity()|)
  {
    FlattenLength(g, rows, cols);
    var s := Flatten(g);
    var m := MaxOf(s);
    var k :| 0 <= k < |s| && s[k] == m;
    assert exists i, j :: 0 <= i < rows && 0 <= j < cols && g[i][j] == m by {
      var i, j := FlattenIndex(g, rows, cols, k);
    }
    var i, j :| 0 <= i < rows && 0 <= j < cols && g[i][j] == m;
    BrightestNormalized(g, g[i][j]);
    UpperBoundOfIdentity(255);
  }

  /** Position `k` of the flattened grid is cell (k / cols, k % cols):
      the pixel iterator walks the rows in order. */
  lemma {:induction false} FlattenIndex(g: seq<seq<byte>>, rows: nat, cols: nat, k: nat)
    returns (i: nat, j: nat)
    requires IsGrid(g, rows, cols) && k < rows * cols
    ensures |Flatten(g)| == rows * cols
    ensures i < rows && j < cols && Flatten(g)[k] == g[i][j]
    ensures k == i * cols + j && i == k / cols && j == k % cols
  {
    FlattenLength(g, rows, cols);
    var front := g[..|g| - 1];
    FlattenLength(front, rows - 1, cols);
    if k < (rows - 1) * cols {
      i, j := FlattenIndex(front, rows - 1, cols, k);
    } else {
      i, j := rows - 1, k - (rows - 1) * cols;
      assert (rows - 1) * cols + cols == rows * cols;
    }
    DivModUnique(k, i, j, cols);
  }

  // ---------------------------------------------------------------------
  // The lookup the comment at the matching loop describes

  /** The first entry of `table` at least `v` (`std::lower_bound`), or the end. */
  function LowerBound(table: seq<int>, v: int): (i: nat)
    ensures i <= |table|
    ensures forall k :: 0 <= k < i ==> table[k] < v
    ensures i < |table| ==> table[i] >= v
  {
    if table == [] then 0
    else if table[0] >= v then 0
    else 1 + LowerBound(table[1..], v)
  }

  /** The matched level of a source sample with the lower bound: the
      smallest reference level whose normalised cumulative count reaches
      the sample's. */
  function MatchedLevel(table: seq<int>, hx: seq<int>, v: byte): (level: nat)
    requires |hx| == 256 && LowerBound(table, hx[v]) < |table|
    ensures level < |table| && table[level] >= hx[v]
  {
    LowerBound(table, hx[v])
  }

  /** The lower bound always exists for a table that reaches 255 and a
      level of at most 255, so both references of the program are safe. */
  lemma LowerBoundExists(table: seq<int>, v: int)
    requires |table| > 0 && table[|table| - 1] == 255 && v <= 255
    ensures LowerBound(table, v) < |table|
  {
  }

  /** On the identity table the lower bound of a level is the level
      itself: equalisation outputs the normalised cumulative histogram of
      the pixel, `equalized(x, y) = H(image(x, y))`. */
  lemma EqualizedIsCumulative(g: seq<seq<byte>>, v: byte)
    requires |Flatten(g)| > 0
    ensures LowerBound(Identity(), CumulativeNormalized(g)[v]) < 256
    ensures MatchedLevel(Identity(), CumulativeNormalized(g), v) == CumulativeNormalized(g)[v]
  {
    CumulativeNormalizedLevels(g);
    var t, h := Identity(), CumulativeNormalized(g)[v];
    assert t[h] == h;
    var i := LowerBound(t, h);
    assert i < |t| ==> t[i] == i;
  }
}
