/** The BMP reader, grayscale converter and writer of 1/1.cpp. A file is a
    sequence of bytes; its header is a Windows BITMAPFILEHEADER followed by
    a BITMAPINFOHEADER, every field little-endian. Rows are stored
    bottom-up and, as in the program, without padding to 4 bytes. */
module Bmp {
  import opened Grids

  type u16 = x: int | 0 <= x < 0x1_0000
  type u32 = x: int | 0 <= x < 0x1_0000_0000

  /** First byte after the BITMAPINFOHEADER: where the input stream stands
      when the pixel loops start reading. */
  const HeaderSize := 0x36
  /** 256 palette entries of 4 bytes. */
  const PaletteSize := 1024
  /** "BM" */
  const Signature: seq<byte> := [0x42, 0x4d]

  /** The header fields the program keeps (the signature is always "BM"). */
  datatype Header = Header(
    fileSize: u32,
    pixelArrayOffset: u32,
    dibHeaderSize: u32,
    width: u32,
    height: u32,
    planes: u16,
    depth: u16,
    compression: u32,
    imageSize: u32,
    horizontalRes: u32,
    verticalRes: u32,
    colorPalette: u32,
    importantColors: u32)

  /** An exception thrown by a decoder, with its message. */
  datatype Result<T> = Ok(value: T) | Err(message: string)

  // ---------------------------------------------------------------------
  // Little-endian fields

  function LE16(s: seq<byte>, at: nat): u16
    requires at + 2 <= |s|
  {
    s[at] as int + 0x100 * s[at + 1] as int
  }

  function LE32(s: seq<byte>, at: nat): u32
    requires at + 4 <= |s|
  {
    s[at] as int + 0x100 * (s[at + 1] as int + 0x100 * (s[at + 2] as int + 0x100 * s[at + 3] as int))
  }

  /** What `os << v` writes for a `uint16_t`. */
  function Bytes16(v: u16): (b: seq<byte>)
    ensures |b| == 2 && LE16(b, 0) == v
  {
    [v % 0x100, v / 0x100]
  }

  /** What `os << v` writes for a `uint32_t`. */
  function Bytes32(v: u32): (b: seq<byte>)
    ensures |b| == 4 && LE32(b, 0) == v
  {
    var x := v / 0x100;
    var y := x / 0x100;
    [v % 0x100, x % 0x100, y % 0x100, y / 0x100]
  }

  /** Division by 256 undoes `q * 256 + r` for a byte `r`. */
  lemma DivModByte(n: int, q: int, r: int)
    requires 0 <= r < 0x100 && n == q * 0x100 + r
    ensures n / 0x100 == q && n % 0x100 == r
  {
  }

  /** Reading a field back and writing it again reproduces its bytes. */
  lemma Bytes16OfLE16(s: seq<byte>, at: nat)
    requires at + 2 <= |s|
    ensures Bytes16(LE16(s, at)) == s[at..at + 2]
  {
  }

  lemma Bytes32OfLE32(s: seq<byte>, at: nat)
    requires at + 4 <= |s|
    ensures Bytes32(LE32(s, at)) == s[at..at + 4]
  {
    var y := s[at + 2] as int + 0x100 * s[at + 3] as int;
    var x := s[at + 1] as int + 0x100 * y;
    DivModByte(LE32(s, at), x, s[at]);
    DivModByte(x, y, s[at + 1]);
    DivModByte(y, s[at + 3], s[at + 2]);
  }

  lemma LE16OfSlice(s: seq<byte>, at: nat, v: u16)
    requires at + 2 <= |s| && s[at..at + 2] == Bytes16(v)
    ensures LE16(s, at) == v
  {
    assert s[at] == s[at..at + 2][0] && s[at + 1] == s[at..at + 2][1];
  }

  lemma LE32OfSlice(s: seq<byte>, at: nat, v: u32)
    requires at + 4 <= |s| && s[at..at + 4] == Bytes32(v)
    ensures LE32(s, at) == v
  {
    var b := s[at..at + 4];
    assert s[at] == b[0] && s[at + 1] == b[1] && s[at + 2] == b[2] && s[at + 3] == b[3];
  }

  // ---------------------------------------------------------------------
  // Header decode (BitMapFile(bstream&)) and encode (the header part of save)

  /** The fields at their fixed offsets: file size at 0x02, pixel array
      offset at 0x0a, then the eleven info-header fields back to back from
      0x0e with sizes 4,4,4,2,2,4,4,4,4,4,4. */
  function DecodeHeader(file: seq<byte>): Header
    requires |file| >= HeaderSize
  {
    Header(
      LE32(file, 0x02), LE32(file, 0x0a),
      LE32(file, 0x0e), LE32(file, 0x12), LE32(file, 0x16),
      LE16(file, 0x1a), LE16(file, 0x1c),
      LE32(file, 0x1e), LE32(file, 0x22), LE32(file, 0x26),
      LE32(file, 0x2a), LE32(file, 0x2e), LE32(file, 0x32))
  }

  /** Byte `k` of the header `save` writes: "BM", the file size at 0x02,
      the pixel array offset at 0x0a and the info-header fields from 0x0e.
      `save` seeks past bytes 6..9 (reserved) without writing them; in a new
      file they read as zero. */
  function HeaderByte(h: Header, k: nat): byte
    requires k < HeaderSize
  {
    if k < 0x02 then Signature[k]
    else if k < 0x06 then Bytes32(h.fileSize)[k - 0x02]
    else if k < 0x0a then 0
    else if k < 0x0e then Bytes32(h.pixelArrayOffset)[k - 0x0a]
    else if k < 0x12 then Bytes32(h.dibHeaderSize)[k - 0x0e]
    else if k < 0x16 then Bytes32(h.width)[k - 0x12]
    else if k < 0x1a then Bytes32(h.height)[k - 0x16]
    else if k < 0x1c then Bytes16(h.planes)[k - 0x1a]
    else if k < 0x1e then Bytes16(h.depth)[k - 0x1c]
    else if k < 0x22 then Bytes32(h.compression)[k - 0x1e]
    else if k < 0x26 then Bytes32(h.imageSize)[k - 0x22]
    else if k < 0x2a then Bytes32(h.horizontalRes)[k - 0x26]
    else if k < 0x2e then Bytes32(h.verticalRes)[k - 0x2a]
    else if k < 0x32 then Bytes32(h.colorPalette)[k - 0x2e]
    else Bytes32(h.importantColors)[k - 0x32]
  }

  /** The first 0x36 bytes of a saved file. */
  function EncodeHeader(h: Header): (b: seq<byte>)
    ensures |b| == HeaderSize
  {
    seq(HeaderSize, k requires 0 <= k < HeaderSize => HeaderByte(h, k))
  }

  /** Decoding a saved header gives back every field, whatever follows it. */
  lemma HeaderRoundTrip(h: Header, rest: seq<byte>)
    ensures DecodeHeader(EncodeHeader(h) + rest) == h
  {
    var e := EncodeHeader(h) + rest;
    LE32OfSlice(e, 0x02, h.fileSize);
    LE32OfSlice(e, 0x0a, h.pixelArrayOffset);
    LE32OfSlice(e, 0x0e, h.dibHeaderSize);
    LE32OfSlice(e, 0x12, h.width);
    LE32OfSlice(e, 0x16, h.height);
    LE16OfSlice(e, 0x1a, h.planes);
    LE16OfSlice(e, 0x1c, h.depth);
    LE32OfSlice(e, 0x1e, h.compression);
    LE32OfSlice(e, 0x22, h.imageSize);
    LE32OfSlice(e, 0x26, h.horizontalRes);
    LE32OfSlice(e, 0x2a, h.verticalRes);
    LE32OfSlice(e, 0x2e, h.colorPalette);
    LE32OfSlice(e, 0x32, h.importantColors);
  }

  /** Conversely, a header that starts with "BM" and has zero reserved bytes
      is exactly what `save` writes for the fields read from it. */
  lemma HeaderBytesRoundTrip(file: seq<byte>)
    requires |file| >= HeaderSize
    requires file[..2] == Signature && file[6..10] == [0, 0, 0, 0]
    ensures EncodeHeader(DecodeHeader(file)) == file[..HeaderSize]
  {
    var f := file;
    var e := EncodeHeader(DecodeHeader(f));
    forall k | 0 <= k < HeaderSize
      ensures e[k] == f[k]
    {
      if k < 0x02 {
        assert f[k] == f[..2][k];
      } else if k < 0x06 {
        Field32At(f, 0x02, k);
      } else if k < 0x0a {
        assert f[k] == f[6..10][k - 6];
      } else if k < 0x0e {
        Field32At(f, 0x0a, k);
      } else if k < 0x12 {
        Field32At(f, 0x0e, k);
      } else if k < 0x16 {
        Field32At(f, 0x12, k);
      } else if k < 0x1a {
        Field32At(f, 0x16, k);
      } else if k < 0x1c {
        Field16At(f, 0x1a, k);
      } else if k < 0x1e {
        Field16At(f, 0x1c, k);
      } else if k < 0x22 {
        Field32At(f, 0x1e, k);
      } else if k < 0x26 {
        Field32At(f, 0x22, k);
      } else if k < 0x2a {
        Field32At(f, 0x26, k);
      } else if k < 0x2e {
        Field32At(f, 0x2a, k);
      } else if k < 0x32 {
        Field32At(f, 0x2e, k);
      } else {
        Field32At(f, 0x32, k);
      }
    }
  }

  /** Byte `k` of a 16-bit field re-encoded is byte `k` of the file. */
  lemma Field16At(f: seq<byte>, at: nat, k: nat)
    requires at <= k < at + 2 <= |f|
    ensures Bytes16(LE16(f, at))[k - at] == f[k]
  {
    Bytes16OfLE16(f, at);
    assert f[k] == f[at..at + 2][k - at];
  }

  /** Byte `k` of a 32-bit field re-encoded is byte `k` of the file. */
  lemma Field32At(f: seq<byte>, at: nat, k: nat)
    requires at <= k < at + 4 <= |f|
    ensures Bytes32(LE32(f, at))[k - at] == f[k]
  {
    Bytes32OfLE32(f, at);
    assert f[k] == f[at..at + 4][k - at];
  }

  // ---------------------------------------------------------------------
  // Pixel arrays

  /** A 24-bit pixel as the program keeps it: red, green, blue. */
  datatype Pixel = Pixel(red: byte, green: byte, blue: byte)

  /** Row-major position `i * w + j` lies inside an `h` x `w` array. */
  lemma RowMajorInside(i: nat, j: nat, h: nat, w: nat)
    requires i < h && j < w
    ensures i * w + j < h * w
  {
    assert (h - 1 - i) * w >= 0;
    assert h * w == i * w + w + (h - 1 - i) * w;
  }

  /** The pixel stored for file row `i`, column `j` of a `w`-wide 24-bit
      pixel array starting at byte `start`: three bytes, blue first. */
  function FilePixel(file: seq<byte>, start: nat, h: nat, w: nat, i: nat, j: nat): Pixel
    requires i < h && j < w && start + 3 * (h * w) <= |file|
  {
    RowMajorInside(i, j, h, w);
    var at := start + 3 * (i * w + j);
    Pixel(file[at + 2], file[at + 1], file[at])
  }

  /** The sample stored for file row `i`, column `j` of a `w`-wide 8-bit
      pixel array starting at byte `start`. */
  function FileSample(file: seq<byte>, start: nat, h: nat, w: nat, i: nat, j: nat): byte
    requires i < h && j < w && start + h * w <= |file|
  {
    RowMajorInside(i, j, h, w);
    file[start + i * w + j]
  }

  /** The three bytes at `pos`, the start of file pixel (i, j), are inside
      the file and are that pixel, blue first. */
  lemma ReadPixel(file: seq<byte>, h: nat, w: nat, i: nat, j: nat, pos: int)
    requires i < h && j < w && HeaderSize + 3 * (h * w) <= |file|
    requires pos == HeaderSize + 3 * (i * w) + 3 * j
    ensures 0 <= pos && pos + 3 <= |file|
    ensures FilePixel(file, HeaderSize, h, w, i, j) == Pixel(file[pos + 2], file[pos + 1], file[pos])
  {
    RowMajorInside(i, j, h, w);
  }

  /** A decoded 24-bit file: its header and `bitmap[row][col]`, row 0 at the top. */
  datatype ColourBitmap = ColourBitmap(header: Header, bitmap: seq<seq<Pixel>>)

  /** ColourBitMapFile(bstream&): reads the header, refuses any depth but
      24, then reads `height` rows of `width` pixels from where the header
      ends (byte 0x36, whatever the pixel array offset says). File row `i`
      is image row `height - 1 - i`; each pixel is stored blue, green, red. */
  method DecodeColour(file: seq<byte>) returns (r: Result<ColourBitmap>)
    requires |file| >= HeaderSize
    requires DecodeHeader(file).depth == 24 ==>
      HeaderSize + 3 * (DecodeHeader(file).height * DecodeHeader(file).width) <= |file|
    ensures r.Err? <==> DecodeHeader(file).depth != 24
    ensures r.Ok? ==> r.value.header == DecodeHeader(file)
    ensures r.Ok? ==> IsGrid(r.value.bitmap, r.value.header.height, r.value.header.width)
    ensures r.Ok? ==> forall i, j :: 0 <= i < r.value.header.height && 0 <= j < r.value.header.width ==>
      r.value.bitmap[r.value.header.height - 1 - i][j]
        == FilePixel(file, HeaderSize, r.value.header.height, r.value.header.width, i, j)
  {
    var header := DecodeHeader(file);
    var h: nat, w: nat := header.height, header.width;
    if header.depth != 24 {
      return Err("Input file is a grayscale image");
    }
    var bitmap := seq(h, _ => seq(w, _ => Pixel(0, 0, 0)));
    var pos := HeaderSize;
    for i := 0 to h
      invariant IsGrid(bitmap, h, w)
      invariant pos == HeaderSize + 3 * (i * w)
      invariant forall p, q :: 0 <= p < i && 0 <= q < w ==>
        bitmap[h - 1 - p][q] == FilePixel(file, HeaderSize, h, w, p, q)
    {
      var row := bitmap[h - 1 - i];
      for j := 0 to w
        invariant |row| == w
        invariant pos == HeaderSize + 3 * (i * w) + 3 * j
        invariant forall q :: 0 <= q < j ==> row[q] == FilePixel(file, HeaderSize, h, w, i, q)
      {
        ReadPixel(file, h, w, i, j, pos);
        var blue, green, red := file[pos], file[pos + 1], file[pos + 2];
        pos := pos + 3;
        row := row[j := Pixel(red, green, blue)];
      }
      bitmap := bitmap[h - 1 - i := row];
      assert i * w + w == (i + 1) * w;
    }
    r := Ok(ColourBitmap(header, bitmap));
  }

  /** Rows last-first, concatenated: the pixel bytes `save` streams. */
  function BottomUp(g: seq<seq<byte>>): seq<byte> {
    if g == [] then [] else BottomUp(g[1..]) + g[0]
  }

  lemma {:induction false} BottomUpLength(g: seq<seq<byte>>, h: nat, w: nat)
    requires IsGrid(g, h, w)
    ensures |BottomUp(g)| == h * w
  {
    if g != [] {
      BottomUpLength(g[1..], h - 1, w);
      assert (h - 1) * w + w == h * w;
    }
  }

  /** Byte `i * w + j` of the saved pixels is image row `h - 1 - i`, column `j`. */
  lemma {:induction false} BottomUpAt(g: seq<seq<byte>>, h: nat, w: nat, i: nat, j: nat)
    requires IsGrid(g, h, w) && i < h && j < w
    ensures |BottomUp(g)| == h * w
    ensures i * w + j < |BottomUp(g)| && BottomUp(g)[i * w + j] == g[h - 1 - i][j]
  {
    BottomUpLength(g, h, w);
    RowMajorInside(i, j, h, w);
    var rest := BottomUp(g[1..]);
    BottomUpLength(g[1..], h - 1, w);
    assert BottomUp(g) == rest + g[0];
    if i < h - 1 {
      RowMajorInside(i, j, h - 1, w);
      BottomUpAt(g[1..], h - 1, w, i, j);
      assert g[1..][h - 2 - i] == g[h - 1 - i];
    } else {
      assert i * w + j == |rest| + j;
    }
  }

  /** Image row `r` of a grayscale bitmap read from `file` starting at
      byte `start`: it is file row `h - 1 - r`. */
  function GrayRow(file: seq<byte>, start: nat, h: nat, w: nat, r: nat): (row: seq<byte>)
    requires r < h && start + h * w <= |file|
    ensures |row| == w
    ensures forall c :: 0 <= c < w ==> row[c] == FileSample(file, start, h, w, h - 1 - r, c)
  {
    seq(w, c requires 0 <= c < w => FileSample(file, start, h, w, h - 1 - r, c))
  }

  /** The grayscale bitmap read from `file` the way the pixel loops do it,
      starting at byte `start`. */
  function GrayPixels(file: seq<byte>, start: nat, h: nat, w: nat): (g: seq<seq<byte>>)
    requires start + h * w <= |file|
    ensures IsGrid(g, h, w)
    ensures forall r, c :: 0 <= r < h && 0 <= c < w ==>
      g[r][c] == FileSample(file, start, h, w, h - 1 - r, c)
  {
    seq(h, r requires 0 <= r < h => GrayRow(file, start, h, w, r))
  }

  /** `file` followed by zero bytes up to length `n`. */
  function PadTo(file: seq<byte>, n: int): (p: seq<byte>)
    ensures |p| == if |file| < n then n else |file|
    ensures n <= |p|
    ensures forall k :: 0 <= k < |file| ==> p[k] == file[k]
    ensures forall k :: |file| <= k < |p| ==> p[k] == 0
    ensures n <= |file| ==> p == file
  {
    if |file| < n then file + seq(n - |file|, _ => 0) else file
  }

  /** What the pixel loops see of a file: a sample inside the file is
      read, one past its end is 0, because a read at the end of the stream
      stores nothing and the bitmap starts zeroed. */
  lemma GrayPixelsOfShortFile(file: seq<byte>, start: nat, h: nat, w: nat, r: nat, c: nat, pos: nat)
    requires r < h && c < w && pos == start + (h - 1 - r) * w + c
    ensures pos < start + h * w
    ensures GrayPixels(PadTo(file, start + h * w), start, h, w)[r][c] == if pos < |file| then file[pos] else 0
  {
    var padded := PadTo(file, start + h * w);
    RowMajorInside(h - 1 - r, c, h, w);
    assert GrayPixels(padded, start, h, w)[r][c] == FileSample(padded, start, h, w, h - 1 - r, c) == padded[pos];
  }

  /** The pixel loops of GrayScaleBitMapFile(bstream&): `h` rows of `w`
      samples read one after the other from byte `start`, file row `i`
      going to image row `h - 1 - i`. The bitmap starts zeroed; once the
      file is exhausted a read stores nothing, so the remaining samples
      stay 0. */
  method ReadGray(file: seq<byte>, start: nat, h: nat, w: nat) returns (a: array2<byte>)
    ensures fresh(a) && a.Length0 == h && a.Length1 == w
    ensures Cells(a) == GrayPixels(PadTo(file, start + h * w), start, h, w)
  {
    ghost var padded := PadTo(file, start + h * w);
    a := new byte[h, w]((_, _) => 0);
    var pos := start;
    for i := 0 to h
      invariant pos == start + i * w
      invariant forall p, q :: 0 <= p < i && 0 <= q < w ==>
        a[h - 1 - p, q] == FileSample(padded, start, h, w, p, q)
      invariant forall r, q :: 0 <= r < h - i && 0 <= q < w ==> a[r, q] == 0
    {
      for j := 0 to w
        invariant pos == start + i * w + j
        invariant forall p, q :: 0 <= p < i && 0 <= q < w ==>
          a[h - 1 - p, q] == FileSample(padded, start, h, w, p, q)
        invariant forall q :: 0 <= q < j ==> a[h - 1 - i, q] == FileSample(padded, start, h, w, i, q)
        invariant forall r, q :: ((0 <= r < h - 1 - i && 0 <= q < w) || (r == h - 1 - i && j <= q < w)) ==>
          a[r, q] == 0
      {
        RowMajorInside(i, j, h, w);
        if pos < |file| {
          a[h - 1 - i, j] := file[pos];
        }
        pos := pos + 1;
      }
      assert i * w + w == (i + 1) * w;
    }
    GridExtensionality(Cells(a), GrayPixels(padded, start, h, w), h, w);
  }

  /** Pixels written after a prefix are read back by decoding from the
      prefix's end. */
  lemma GrayPixelsOfBottomUp(prefix: seq<byte>, g: seq<seq<byte>>, h: nat, w: nat, rest: seq<byte>)
    requires IsGrid(g, h, w)
    ensures |prefix + BottomUp(g) + rest| >= |prefix| + h * w
    ensures GrayPixels(prefix + BottomUp(g) + rest, |prefix|, h, w) == g
  {
    BottomUpLength(g, h, w);
    var file := prefix + BottomUp(g) + rest;
    var d := GrayPixels(file, |prefix|, h, w);
    forall r, c | 0 <= r < h && 0 <= c < w
      ensures d[r][c] == g[r][c]
    {
      BottomUpAt(g, h, w, h - 1 - r, c);
      RowMajorInside(h - 1 - r, c, h, w);
    }
    GridExtensionality(d, g, h, w);
  }

  // ---------------------------------------------------------------------
  // Grayscale conversion and the grayscale file

  /** The header of the grayscale file made from a 24-bit one: a third of
      the depth and image size, a 1024-byte palette added before the pixels,
      everything else copied. The arithmetic is on `uint32_t` and wraps. */
  function GrayHeader(c: Header): Header {
    c.(fileSize := (c.fileSize - c.imageSize + c.imageSize / 3 + PaletteSize) % 0x1_0000_0000,
       pixelArrayOffset := (c.pixelArrayOffset + PaletteSize) % 0x1_0000_0000,
       depth := c.depth / 3,
       imageSize := c.imageSize / 3)
  }

  /** A header whose size is its pixel offset plus its image size keeps
      that shape through the conversion, when nothing wraps; a 24-bit depth
      becomes 8. */
  lemma GrayHeaderConsistent(c: Header)
    requires c.fileSize == c.pixelArrayOffset + c.imageSize
    requires c.pixelArrayOffset + PaletteSize + c.imageSize / 3 < 0x1_0000_0000
    ensures GrayHeader(c).fileSize == GrayHeader(c).pixelArrayOffset + GrayHeader(c).imageSize
    ensures c.depth == 24 ==> GrayHeader(c).depth == 8
    ensures GrayHeader(c).pixelArrayOffset == c.pixelArrayOffset + PaletteSize
  {
  }

  /** The grayscale palette: entry `k` is (k, k, k, 0). */
  function Palette(): (p: seq<byte>)
    ensures |p| == PaletteSize
    ensures forall k :: 0 <= k < 256 ==>
      p[4 * k] == k && p[4 * k + 1] == k && p[4 * k + 2] == k && p[4 * k + 3] == 0
  {
    seq(PaletteSize, n requires 0 <= n < PaletteSize => if n % 4 == 3 then 0 else n / 4)
  }

  /** Everything `save` writes: header, palette, then the pixels bottom-up. */
  function SaveBytes(h: Header, g: seq<seq<byte>>): seq<byte> {
    EncodeHeader(h) + Palette() + BottomUp(g)
  }

  /** The header fields after `transpose`: width and height exchanged, and
      the two resolutions exchanged. */
  function TransposedHeader(h: Header): Header {
    h.(width := h.height, height := h.width,
       horizontalRes := h.verticalRes, verticalRes := h.horizontalRes)
  }

  /** GrayScaleBitMapFile: a header and an 8-bit bitmap, `bitmap[row, col]`
      with row 0 the top of the image. */
  class GrayScaleBitmap {
    var header: Header
    var bitmap: array2<byte>

    ghost predicate Valid()
      reads this
    {
      bitmap.Length0 == header.height && bitmap.Length1 == header.width
    }

    ghost function Pixels(): seq<seq<byte>>
      reads this, bitmap
    {
      Cells(bitmap)
    }

    /** GrayScaleBitMapFile(bstream&): the header, then `height` rows of
        `width` samples read from where the header ends (byte 0x36), the
        first file row being the bottom image row; samples past the end
        of the file are 0. */
    constructor FromFile(file: seq<byte>)
      requires |file| >= HeaderSize
      ensures Valid() && fresh(bitmap)
      ensures header == DecodeHeader(file)
      ensures Pixels() == GrayPixels(PadTo(file, HeaderSize + header.height * header.width),
        HeaderSize, header.height, header.width)
    {
      var hd := DecodeHeader(file);
      var h: nat, w: nat := hd.height, hd.width;
      var a := ReadGray(file, HeaderSize, h, w);
      header, bitmap := hd, a;
    }

    /** GrayScaleBitMapFile(ColourBitMapFile): the converted header and
        each pixel mapped through the luma weighting `luma`. */
    constructor FromColour(bmp: ColourBitmap, luma: Pixel -> byte)
      requires IsGrid(bmp.bitmap, bmp.header.height, bmp.header.width)
      ensures Valid() && fresh(bitmap)
      ensures header == GrayHeader(bmp.header)
      ensures forall i, j :: 0 <= i < header.height && 0 <= j < header.width ==>
        bitmap[i, j] == luma(bmp.bitmap[i][j])
    {
      var h, w := bmp.header.height, bmp.header.width;
      var a := new byte[h, w];
      for i := 0 to h
        invariant forall p, q :: 0 <= p < i && 0 <= q < w ==> a[p, q] == luma(bmp.bitmap[p][q])
      {
        for j := 0 to w
          invariant forall p, q :: ((0 <= p < i && 0 <= q < w) || (p == i && 0 <= q < j)) ==>
            a[p, q] == luma(bmp.bitmap[p][q])
        {
          a[i, j] := luma(bmp.bitmap[i][j]);
        }
      }
      header := GrayHeader(bmp.header);
      bitmap := a;
    }

    /** transpose: swaps (i, j) with (j, i) below the diagonal, then the
        width/height and resolution fields. Needs a square bitmap. */
    method Transpose()
      requires Valid() && header.height == header.width
      modifies this, bitmap
      ensures Valid() && bitmap == old(bitmap)
      ensures header == TransposedHeader(old(header))
      ensures Pixels() == Transposed(old(Pixels()), header.width, header.height)
    {
      TransposeSquare(bitmap);
      header := TransposedHeader(header);
    }

    /** save: the bytes written to the output stream. */
    method Save() returns (out: seq<byte>)
      requires Valid()
      ensures out == SaveBytes(header, Pixels())
    {
      out := EncodeHeader(header);
      out := out + [0, 0, 0, 0];
      var i: byte := 1;
      while i != 0
        invariant out == EncodeHeader(header) + Palette()[..4 * (if i == 0 then 256 else i)]
        decreases if i == 0 then 0 else 256 - i
      {
        assert Palette()[..4 * (i + 1)] == Palette()[..4 * i] + [i, i, i, 0];
        out := out + [i, i, i, 0];
        i := (i + 1) % 256;
      }
      var h, w := header.height, header.width;
      var g := Pixels();
      for r := 0 to h
        invariant out == EncodeHeader(header) + Palette() + BottomUp(g[h - r..])
      {
        for c := 0 to w
          invariant out == EncodeHeader(header) + Palette() + BottomUp(g[h - r..]) + g[h - 1 - r][..c]
        {
          assert g[h - 1 - r][..c + 1] == g[h - 1 - r][..c] + [bitmap[h - 1 - r, c]];
          out := out + [bitmap[h - 1 - r, c]];
        }
        assert g[h - 1 - r..][1..] == g[h - r..];
        assert g[h - 1 - r][..w] == g[h - 1 - r];
      }
      assert g[0..] == g;
    }
  }

  /** Transposing twice restores the header and the bitmap. */
  lemma TransposeTwice(h: Header, g: seq<seq<byte>>)
    requires IsGrid(g, h.height, h.width)
    ensures TransposedHeader(TransposedHeader(h)) == h
    ensures Transposed(Transposed(g, h.height, h.width), h.width, h.height) == g
  {
    TransposedTwice(g, h.height, h.width);
  }

  /** The size a converted header claims is the number of bytes `save`
      writes, for a 24-bit file whose pixels start right after its header. */
  lemma SavedSizeMatchesHeader(c: Header, g: seq<seq<byte>>)
    requires c.pixelArrayOffset == HeaderSize && c.imageSize == 3 * (c.height * c.width)
    requires c.fileSize == HeaderSize + c.imageSize
    requires HeaderSize + PaletteSize + c.height * c.width < 0x1_0000_0000
    requires IsGrid(g, c.height, c.width)
    ensures |SaveBytes(GrayHeader(c), g)| == GrayHeader(c).fileSize
  {
    BottomUpLength(g, c.height, c.width);
  }

  /** The grayscale file read with the pixel array taken from the offset
      its header gives. */
  function DecodeGray(file: seq<byte>): (Header, seq<seq<byte>>)
    requires |file| >= HeaderSize
    requires DecodeHeader(file).pixelArrayOffset
      + DecodeHeader(file).height * DecodeHeader(file).width <= |file|
  {
    var h := DecodeHeader(file);
    (h, GrayPixels(file, h.pixelArrayOffset, h.height, h.width))
  }

  /** A saved file starts with the header it was saved with. */
  lemma SavedHeaderReadBack(h: Header, g: seq<seq<byte>>)
    ensures |SaveBytes(h, g)| >= HeaderSize
    ensures DecodeHeader(SaveBytes(h, g)) == h
  {
    var head, pal, px := EncodeHeader(h), Palette(), BottomUp(g);
    assert SaveBytes(h, g) == head + (pal + px);
    HeaderRoundTrip(h, pal + px);
  }

  /** A saved file holds its bitmap right after header and palette. */
  lemma SavedPixelsReadBack(h: Header, g: seq<seq<byte>>)
    requires IsGrid(g, h.height, h.width)
    ensures |SaveBytes(h, g)| >= HeaderSize + PaletteSize + h.height * h.width
    ensures GrayPixels(SaveBytes(h, g), HeaderSize + PaletteSize, h.height, h.width) == g
  {
    var head, pal, px := EncodeHeader(h), Palette(), BottomUp(g);
    assert SaveBytes(h, g) == (head + pal) + px + [];
    GrayPixelsOfBottomUp(head + pal, g, h.height, h.width, []);
  }

  /** With the pixel array read from the offset the header gives, a saved
      file decodes to the header and the bitmap it was saved from. */
  lemma GrayRoundTrip(h: Header, g: seq<seq<byte>>)
    requires IsGrid(g, h.height, h.width)
    requires h.pixelArrayOffset == HeaderSize + PaletteSize
    ensures |SaveBytes(h, g)| >= HeaderSize + PaletteSize + h.height * h.width
    ensures DecodeHeader(SaveBytes(h, g)) == h
    ensures DecodeGray(SaveBytes(h, g)) == (h, g)
  {
    SavedHeaderReadBack(h, g);
    SavedPixelsReadBack(h, g);
    DecodeGrayOf(SaveBytes(h, g), h, g);
  }

  lemma DecodeGrayOf(file: seq<byte>, h: Header, g: seq<seq<byte>>)
    requires |file| >= HeaderSize && DecodeHeader(file) == h
    requires h.pixelArrayOffset + h.height * h.width <= |file|
    requires GrayPixels(file, h.pixelArrayOffset, h.height, h.width) == g
    ensures DecodeGray(file) == (h, g)
  {
  }

  /** As written, the grayscale reader starts at byte 0x36, where `save`
      put the palette: the bottom-left pixel of any saved non-empty image
      reads back as 0 (palette entry 0), whatever it was. */
  lemma GrayReadAsWrittenHitsPalette(h: Header, g: seq<seq<byte>>)
    requires IsGrid(g, h.height, h.width) && h.height > 0 && h.width > 0
    ensures HeaderSize + h.height * h.width <= |SaveBytes(h, g)|
    ensures GrayPixels(SaveBytes(h, g), HeaderSize, h.height, h.width)[h.height - 1][0] == 0
  {
    BottomUpLength(g, h.height, h.width);
    var s := SaveBytes(h, g);
    assert s[HeaderSize] == Palette()[0];
  }

  /** So a saved 1 x 1 image whose pixel is 7 reads back as 0. */
  lemma GrayReadAsWrittenExample(h: Header)
    requires h.height == 1 && h.width == 1 && h.pixelArrayOffset == HeaderSize + PaletteSize
    ensures HeaderSize + 1 <= |SaveBytes(h, [[7]])|
    ensures GrayPixels(SaveBytes(h, [[7]]), HeaderSize, 1, 1) == [[0]]
    ensures DecodeGray(SaveBytes(h, [[7]])).1 == [[7]]
  {
    GrayReadAsWrittenHitsPalette(h, [[7]]);
    GrayRoundTrip(h, [[7]]);
    var d := GrayPixels(SaveBytes(h, [[7]]), HeaderSize, 1, 1);
    assert d[0] == [d[0][0]];
  }
}
