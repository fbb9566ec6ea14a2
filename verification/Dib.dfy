/** The decoder of Windows device-independent bitmaps (internal/clipboard/dib.go).

Pixels of an image are four bytes: red, green, blue, alpha. `Decoded` says what the lines of an accepted
bitmap are; `DecodeDib` computes them with the loops and the machine arithmetic of the source. */
module Dib {
  import opened Bytes

  const HEADER_MIN: nat := 40
  const BI_RGB: nat := 0
  const BI_BITFIELDS: nat := 3
  const MAX_DIMENSION: int := 16384

  // ---------------------------------------------------------------- numbers of the machine

  function Wrap32(v: int): (r: int)
    ensures -0x8000_0000 <= r < 0x8000_0000
    ensures -0x8000_0000 <= v < 0x8000_0000 ==> r == v
  {
    (v + 0x8000_0000) % 0x1_0000_0000 - 0x8000_0000
  }

  function AsUint64(v: int): nat {
    v % 0x1_0000_0000_0000_0000
  }

  function Uint16At(d: Bytes, i: nat): (r: nat)
    requires i + 2 <= |d|
    ensures r < 65536
  {
    (d[i] as int) + 256 * (d[i + 1] as int)
  }

  function Uint32At(d: Bytes, i: nat): (r: nat)
    requires i + 4 <= |d|
    ensures r < 0x1_0000_0000
  {
    Uint16At(d, i) + 65536 * Uint16At(d, i + 2)
  }

  // ---------------------------------------------------------------- the bitmap

  /** The fields of the header that matter; width and height are signed. */
  datatype Header = Header(size: nat, width: int, height: int, bitCount: nat, compression: nat)

  /** What the field widths allow. */
  predicate Possible(h: Header) {
    h.size < 0x1_0000_0000 && h.width < 0x8000_0000 && -0x8000_0000 <= h.height < 0x8000_0000
  }

  function ReadHeader(d: Bytes): (h: Header)
    requires |d| >= HEADER_MIN
    ensures Possible(h)
  {
    Header(Uint32At(d, 0), Wrap32(Uint32At(d, 4)), Wrap32(Uint32At(d, 8)), Uint16At(d, 14), Uint32At(d, 16))
  }

  function PixelOffset(h: Header): nat {
    h.size + if h.compression == BI_BITFIELDS && h.size == HEADER_MIN then 12 else 0
  }

  function Rows(h: Header): nat {
    if h.height < 0 then -h.height else h.height
  }

  /** Bytes that `w` pixels take in a stored row. */
  function Packed(w: nat, bitCount: nat): nat {
    if bitCount == 32 then 4 * w else 3 * w
  }

  /** Bytes of a stored row: padded to the next multiple of four. */
  function Stride(w: nat, bitCount: nat): (stride: nat)
    ensures stride % 4 == 0 && Packed(w, bitCount) <= stride < Packed(w, bitCount) + 4
    ensures 0 < w <= MAX_DIMENSION ==> 4 <= stride <= 65536
  {
    (8 * Packed(w, bitCount) + 31) / 32 * 4
  }

  /** Bytes that `n` rows of `stride` bytes take: their product, kept out of sight of the proofs that need
  no multiplication. */
  function Span(stride: nat, n: nat): nat {
    if n == 0 then 0 else Span(stride, n - 1) + stride
  }

  lemma {:induction false} SpanIsProduct(stride: nat, n: nat)
    ensures Span(stride, n) == stride * n
  {
    if n > 0 {
      SpanIsProduct(stride, n - 1);
      assert stride * n == stride * (n - 1) + stride;
    }
  }

  lemma {:induction false} RowFits(stride: nat, k: nat, n: nat)
    requires k < n
    ensures Span(stride, k) + stride == Span(stride, k + 1) <= Span(stride, n)
  {
    if k + 1 < n {
      RowFits(stride, k, n - 1);
    }
  }

  /** The headers the decoder is for, apart from the height. */
  predicate Supported(h: Header) {
    && HEADER_MIN <= h.size
    && 0 < h.width <= MAX_DIMENSION
    && h.height != 0
    && (h.compression == BI_RGB || h.compression == BI_BITFIELDS)
    && (h.bitCount == 24 || h.bitCount == 32)
  }

  /** The bitmaps the decoder is for, by header and length, in unbounded arithmetic. */
  predicate Acceptable(h: Header, length: nat) {
    && Supported(h)
    && Rows(h) <= MAX_DIMENSION
    && PixelOffset(h) + Span(Stride(h.width, h.bitCount), Rows(h)) <= length
  }

  // ---------------------------------------------------------------- pixels of a row

  /** Pixel `x` of a stored row, which has blue first. */
  function PixelAt(row: Bytes, bitCount: nat, solid: bool, x: nat): (r: Bytes)
    requires bitCount == 24 || bitCount == 32
    requires Packed(x + 1, bitCount) <= |row|
    ensures |r| == 4
  {
    if bitCount == 32 then [row[x * 4 + 2], row[x * 4 + 1], row[x * 4], if solid then 255 else row[x * 4 + 3]]
    else [row[x * 3 + 2], row[x * 3 + 1], row[x * 3], 255]
  }

  /** The first `n` pixels of a stored row. */
  function RowPixels(row: Bytes, bitCount: nat, solid: bool, n: nat): (r: Bytes)
    requires bitCount == 24 || bitCount == 32
    requires Packed(n, bitCount) <= |row|
    ensures |r| == 4 * n
  {
    if n == 0 then [] else RowPixels(row, bitCount, solid, n - 1) + PixelAt(row, bitCount, solid, n - 1)
  }

  predicate RowHasAlpha(row: Bytes, w: nat)
    requires 4 * w <= |row|
  {
    exists x :: 0 <= x < w && row[x * 4 + 3] != 0
  }

  // ---------------------------------------------------------------- rows of a bitmap

  /** The stored rows in `pixels`, in the order they are stored. */
  function Chop(pixels: Bytes, stride: nat, n: nat): (rows: seq<Bytes>)
    requires |pixels| == Span(stride, n)
    ensures |rows| == n
    ensures forall k :: 0 <= k < n ==> |rows[k]| == stride
    decreases n
  {
    if n == 0 then [] else
      [pixels[..stride]] + Chop(pixels[stride..], stride, n - 1)
  }

  function Flat(rows: seq<Bytes>): Bytes {
    if rows == [] then [] else Flat(rows[..|rows| - 1]) + rows[|rows| - 1]
  }

  lemma {:induction false} ChopAt(pixels: Bytes, stride: nat, n: nat, k: nat)
    requires |pixels| == Span(stride, n) && k < n
    ensures Span(stride, k) + stride <= |pixels|
    ensures Chop(pixels, stride, n)[k] <= pixels[Span(stride, k)..]
    decreases n
  {
    RowFits(stride, n - 1, n);
    RowFits(stride, k, n);
    if k > 0 {
      RowFits(stride, k - 1, k);
      ChopAt(pixels[stride..], stride, n - 1, k - 1);
      ChopAtNext(pixels, stride, Span(stride, k - 1), Chop(pixels[stride..], stride, n - 1)[k - 1]);
    }
  }

  lemma ChopAtNext(pixels: Bytes, stride: nat, from: nat, row: Bytes)
    requires stride + from <= |pixels| && row <= pixels[stride..][from..]
    ensures row <= pixels[from + stride..]
  {
    assert pixels[stride..][from..] == pixels[from + stride..];
  }

  lemma FlatGrows(rows: seq<Bytes>, y: nat)
    requires y < |rows|
    ensures Flat(rows[..y + 1]) == Flat(rows[..y]) + rows[y]
  {
    assert rows[..y + 1][..y] == rows[..y];
  }

  function Reversed(rows: seq<Bytes>): (r: seq<Bytes>)
    ensures |r| == |rows|
    ensures forall k :: 0 <= k < |r| ==> r[k] == rows[|rows| - 1 - k]
  {
    seq(|rows|, k requires 0 <= k < |rows| => rows[|rows| - 1 - k])
  }

  /** Some stored pixel is not fully transparent. */
  predicate HasAlpha(rows: seq<Bytes>, w: nat)
    requires forall k :: 0 <= k < |rows| ==> 4 * w <= |rows[k]|
  {
    exists k :: 0 <= k < |rows| && RowHasAlpha(rows[k], w)
  }

  predicate Hold(rows: seq<Bytes>, bitCount: nat, w: nat) {
    && (bitCount == 24 || bitCount == 32)
    && forall k :: 0 <= k < |rows| ==> Packed(w, bitCount) <= |rows[k]|
  }

  /** 32-bit pixels keep their alpha unless all of them are zero; 24-bit pixels are solid. */
  predicate Solid(rows: seq<Bytes>, bitCount: nat, w: nat)
    requires Hold(rows, bitCount, w)
  {
    bitCount == 24 || !HasAlpha(rows, w)
  }

  /** The lines of the image, from the top, given the stored rows. */
  function Lines(rows: seq<Bytes>, bitCount: nat, topDown: bool, w: nat): (lines: seq<Bytes>)
    requires Hold(rows, bitCount, w)
    ensures |lines| == |rows|
    ensures forall y :: 0 <= y < |lines| ==> |lines[y]| == 4 * w
  {
    var ordered, solid := if topDown then rows else Reversed(rows), Solid(rows, bitCount, w);
    seq(|rows|, y requires 0 <= y < |rows| => RowPixels(ordered[y], bitCount, solid, w))
  }

  /** The stored rows of an acceptable bitmap. */
  function StoredRows(h: Header, d: Bytes): (rows: seq<Bytes>)
    requires Acceptable(h, |d|)
    ensures |rows| == Rows(h) && Hold(rows, h.bitCount, h.width)
  {
    var stride := Stride(h.width, h.bitCount);
    Chop(d[PixelOffset(h)..PixelOffset(h) + Span(stride, Rows(h))], stride, Rows(h))
  }

  /** The image in an acceptable bitmap, line by line from the top. */
  function Decoded(h: Header, d: Bytes): seq<Bytes>
    requires Acceptable(h, |d|)
  {
    Lines(StoredRows(h, d), h.bitCount, h.height < 0, h.width)
  }

  // ---------------------------------------------------------------- the decoder

  datatype Result = Image(width: nat, height: nat, pix: array<Byte>) | Rejected

  /** The pixels from stored row `k` on. */
  method RowsFrom(pixels: Bytes, stride: nat, n: nat, k: nat) returns (src: Bytes)
    requires |pixels| == Span(stride, n) && k < n
    ensures Chop(pixels, stride, n)[k] <= src
  {
    ChopAt(pixels, stride, n, k);
    SpanIsProduct(stride, k);
    src := pixels[stride * k..];
  }

  method ScanRow(row: Bytes, ghost stored: Bytes, w: nat) returns (found: bool)
    requires stored <= row && 4 * w <= |stored|
    ensures found <==> RowHasAlpha(stored, w)
  {
    for x := 0 to w
      invariant forall i :: 0 <= i < x ==> stored[i * 4 + 3] == 0
    {
      if row[x * 4 + 3] != 0 {
        assert stored[x * 4 + 3] != 0;
        return true;
      }
    }
    return false;
  }

  /** Whether any pixel has alpha, row by row until one is found. */
  method ScanAlpha(pixels: Bytes, stride: nat, n: nat, w: nat) returns (found: bool)
    requires |pixels| == Span(stride, n) && 4 * w <= stride
    ensures found <==> HasAlpha(Chop(pixels, stride, n), w)
  {
    ghost var rows := Chop(pixels, stride, n);
    found := false;
    var y := 0;
    while y < n && !found
      invariant 0 <= y <= n
      invariant found ==> HasAlpha(rows, w)
      invariant !found ==> forall k :: 0 <= k < y ==> !RowHasAlpha(rows[k], w)
    {
      var row := RowsFrom(pixels, stride, n, y);
      found := ScanRow(row, rows[y], w);
      y := y + 1;
    }
  }

  /** `pix` begins with `done`. */
  ghost predicate Begins(pix: array<Byte>, done: Bytes)
    reads pix
  {
    |done| <= pix.Length && pix[..|done|] == done
  }

  /** Writes pixel `x` of a stored row at `at`, after what is done already; `src` begins with that row. */
  method CopyPixel(src: Bytes, ghost row: Bytes, bitCount: nat, solid: bool, x: nat, pix: array<Byte>, at: nat, ghost done: Bytes)
    requires bitCount == 24 || bitCount == 32
    requires row <= src && Packed(x + 1, bitCount) <= |row|
    requires Begins(pix, done) && |done| == at && at + 4 <= pix.Length
    modifies pix
    ensures Begins(pix, done + PixelAt(row, bitCount, solid, x))
  {
    if bitCount == 32 {
      var b, g, r, a := src[x * 4], src[x * 4 + 1], src[x * 4 + 2], src[x * 4 + 3];
      if solid {
        a := 255;
      }
      pix[at], pix[at + 1], pix[at + 2], pix[at + 3] := r, g, b, a;
    } else {
      var b, g, r := src[x * 3], src[x * 3 + 1], src[x * 3 + 2];
      pix[at], pix[at + 1], pix[at + 2], pix[at + 3] := r, g, b, 255;
    }
  }

  /** Writes the pixels of a stored row from `base` on; `src` begins with that row. */
  method CopyRow(src: Bytes, ghost row: Bytes, bitCount: nat, solid: bool, w: nat, pix: array<Byte>, base: nat, ghost done: Bytes)
    requires bitCount == 24 || bitCount == 32
    requires row <= src && Packed(w, bitCount) <= |row|
    requires Begins(pix, done) && |done| == base && base + 4 * w <= pix.Length
    modifies pix
    ensures Begins(pix, done + RowPixels(row, bitCount, solid, w))
  {
    assert done + RowPixels(row, bitCount, solid, 0) == done;
    for x := 0 to w
      invariant Begins(pix, done + RowPixels(row, bitCount, solid, x))
    {
      CopyPixel(src, row, bitCount, solid, x, pix, base + 4 * x, done + RowPixels(row, bitCount, solid, x));
      Regroup(done, RowPixels(row, bitCount, solid, x), PixelAt(row, bitCount, solid, x));
    }
  }

  lemma {:induction false} FlatSize(rows: seq<Bytes>, length: nat)
    requires forall k :: 0 <= k < |rows| ==> |rows[k]| == length
    ensures |Flat(rows)| == Span(length, |rows|)
  {
    if rows != [] {
      FlatSize(rows[..|rows| - 1], length);
    }
  }

  /** Copies line `y` of the image to its place. */
  method CopyLine(pixels: Bytes, stride: nat, n: nat, bitCount: nat, topDown: bool, solid: bool, w: nat, y: nat,
                  pix: array<Byte>, base: nat, ghost lines: seq<Bytes>)
    requires |pixels| == Span(stride, n) && Hold(Chop(pixels, stride, n), bitCount, w) && y < n
    requires solid == Solid(Chop(pixels, stride, n), bitCount, w)
    requires lines == Lines(Chop(pixels, stride, n), bitCount, topDown, w)
    requires Begins(pix, Flat(lines[..y])) && |Flat(lines[..y])| == base && base + 4 * w <= pix.Length
    modifies pix
    ensures Begins(pix, Flat(lines[..y + 1]))
  {
    var srcRow := if topDown then y else n - 1 - y;
    var src := RowsFrom(pixels, stride, n, srcRow);
    CopyRow(src, Chop(pixels, stride, n)[srcRow], bitCount, solid, w, pix, base, Flat(lines[..y]));
    FlatGrows(lines, y);
  }

  /** The place of line `y` among lines of `line` bytes. */
  method LineStart(line: nat, y: nat, n: nat, ghost lines: seq<Bytes>) returns (at: nat)
    requires y < n == |lines| && forall k :: 0 <= k < n ==> |lines[k]| == line
    ensures at == |Flat(lines[..y])| && at + line <= Span(line, n)
  {
    SpanIsProduct(line, y);
    FlatSize(lines[..y], line);
    RowFits(line, y, n);
    at := line * y;
  }

  /** Fills the image, line by line from the top. */
  method CopyRows(pixels: Bytes, stride: nat, n: nat, bitCount: nat, topDown: bool, solid: bool, w: nat,
                  pix: array<Byte>, line: nat, ghost lines: seq<Bytes>)
    requires |pixels| == Span(stride, n) && Hold(Chop(pixels, stride, n), bitCount, w)
    requires solid == Solid(Chop(pixels, stride, n), bitCount, w)
    requires lines == Lines(Chop(pixels, stride, n), bitCount, topDown, w)
    requires line == 4 * w && pix.Length == Span(line, n)
    modifies pix
    ensures pix[..] == Flat(lines)
  {
    for y := 0 to n
      invariant Begins(pix, Flat(lines[..y]))
    {
      var base := LineStart(line, y, n, lines);
      CopyLine(pixels, stride, n, bitCount, topDown, solid, w, y, pix, base, lines);
    }
    assert lines[..n] == lines;
    FlatSize(lines, line);
  }

  /** The one height whose negation wraps: the extent it gives wraps too, to more than any slice holds. */
  lemma WrappedExtent(stride: nat, offset: nat)
    requires 4 <= stride <= 65536 && offset <= 0x1_0000_000C
    ensures AsUint64(offset + AsUint64(stride * AsUint64(-0x8000_0000))) > 0x8000_0000_0000_0000
  {
    var rest := 0x1_0000_0000_0000_0000 - stride * 0x8000_0000;
    assert stride * AsUint64(-0x8000_0000) == (stride - 1) * 0x1_0000_0000_0000_0000 + rest;
    ModShift(stride - 1, rest);
  }

  lemma ModShift(k: nat, r: nat)
    requires r < 0x1_0000_0000_0000_0000
    ensures AsUint64(k * 0x1_0000_0000_0000_0000 + r) == r
  {
  }

  lemma Area(stride: nat, rows: nat)
    requires stride <= 65536 && rows <= MAX_DIMENSION
    ensures 0 <= stride * rows <= 0x4000_0000
  {
    assert stride * rows <= 65536 * rows;
  }

  /** For every other height the machine computes the true extent. */
  lemma TrueExtent(stride: nat, offset: nat, rows: nat)
    requires stride <= 65536 && offset <= 0x1_0000_000C && rows <= MAX_DIMENSION
    ensures AsUint64(offset + AsUint64(stride * AsUint64(rows))) == offset + stride * rows
  {
    Area(stride, rows);
    ModShift(0, rows);
    ModShift(0, stride * rows);
    ModShift(0, offset + stride * rows);
  }

  method MachineExtent(stride: nat, offset: nat, absHeight: int) returns (extent: nat)
    requires 4 <= stride <= 65536 && offset <= 0x1_0000_000C
    requires -0x8000_0000 == absHeight || 0 <= absHeight <= MAX_DIMENSION
    ensures absHeight < 0 ==> extent > 0x8000_0000_0000_0000
    ensures absHeight >= 0 ==> extent == offset + Span(stride, absHeight)
  {
    extent := AsUint64(offset + AsUint64(stride * AsUint64(absHeight)));
    if absHeight < 0 {
      WrappedExtent(stride, offset);
    } else {
      TrueExtent(stride, offset, absHeight);
      SpanIsProduct(stride, absHeight);
    }
  }

  /** The checks on the header alone: where the pixels begin, and the height as the machine negates it. */
  method CheckHeader(h: Header, length: nat) returns (r: Option<(nat, int)>)
    requires Possible(h)
    ensures r.Some? ==>
      && Supported(h)
      && r.value.0 == PixelOffset(h)
      && (r.value.1 == Rows(h) <= MAX_DIMENSION || r.value.1 == h.height == -0x8000_0000)
    ensures length < 0x1_0000_0000 && Supported(h) && PixelOffset(h) <= length && Rows(h) <= MAX_DIMENSION ==> r.Some?
  {
    if length % 0x1_0000_0000 < h.size || h.size < HEADER_MIN {
      return None;
    }
    if h.width <= 0 || h.height == 0 {
      return None;
    }
    if h.compression != BI_RGB && h.compression != BI_BITFIELDS {
      return None;
    }
    if h.bitCount != 24 && h.bitCount != 32 {
      return None;
    }
    var pixelOffset := h.size;
    if h.compression == BI_BITFIELDS && h.size == HEADER_MIN {
      pixelOffset := pixelOffset + 12;
      if length % 0x1_0000_0000 < pixelOffset {
        return None;
      }
    }
    var absHeight := if h.height < 0 then Wrap32(-h.height) else h.height;
    if h.width > MAX_DIMENSION || absHeight > MAX_DIMENSION {
      return None;
    }
    return Some((pixelOffset, absHeight));
  }

  /** The checks before any pixel is read: the place of the pixels, if they pass. */
  method Check(h: Header, length: nat) returns (r: Option<(nat, nat)>)
    requires length < 0x8000_0000_0000_0000 && Possible(h)
    ensures r.Some? ==> Acceptable(h, length)
    ensures r.Some? ==> r.value == (PixelOffset(h), PixelOffset(h) + Span(Stride(h.width, h.bitCount), Rows(h)))
    ensures length < 0x1_0000_0000 && Acceptable(h, length) ==> r.Some?
  {
    var checked := CheckHeader(h, length);
    if checked.None? {
      return None;
    }
    var (pixelOffset, absHeight) := checked.value;
    var stride := Stride(h.width, h.bitCount);
    var expected := MachineExtent(stride, pixelOffset, absHeight);
    if expected > length {
      return None;
    }
    return Some((pixelOffset, expected));
  }

  /** The pixels of an image whose stored rows are `pixels`. */
  method Render(pixels: Bytes, stride: nat, n: nat, bitCount: nat, topDown: bool, w: nat) returns (pix: array<Byte>)
    requires |pixels| == Span(stride, n) && Hold(Chop(pixels, stride, n), bitCount, w) && Packed(w, bitCount) <= stride
    ensures fresh(pix)
    ensures pix[..] == Flat(Lines(Chop(pixels, stride, n), bitCount, topDown, w))
  {
    var alphaIsValid := false;
    if bitCount == 32 {
      alphaIsValid := ScanAlpha(pixels, stride, n, w);
    }
    var line := 4 * w;
    SpanIsProduct(line, n);
    pix := new Byte[line * n];
    CopyRows(pixels, stride, n, bitCount, topDown, !alphaIsValid, w, pix, line, Lines(Chop(pixels, stride, n), bitCount, topDown, w));
  }

  /** Decodes `d`, whose length fits the machine's int. Every accepted bitmap is acceptable in unbounded
  arithmetic, so no size was wrapped into range, and below 2^32 bytes every acceptable one is accepted. */
  method DecodeDib(d: Bytes) returns (r: Result)
    requires |d| < 0x8000_0000_0000_0000
    ensures r.Image? ==> |d| >= HEADER_MIN && Acceptable(ReadHeader(d), |d|) && fresh(r.pix)
    ensures r.Image? ==> r.width == ReadHeader(d).width && r.height == Rows(ReadHeader(d))
    ensures r.Image? ==> r.pix[..] == Flat(Decoded(ReadHeader(d), d))
    ensures HEADER_MIN <= |d| < 0x1_0000_0000 && Acceptable(ReadHeader(d), |d|) ==> r.Image?
  {
    if |d| < HEADER_MIN {
      return Rejected;
    }
    var h := ReadHeader(d);
    r := DecodeWith(h, d);
  }

  method DecodeWith(h: Header, d: Bytes) returns (r: Result)
    requires |d| < 0x8000_0000_0000_0000
    requires Possible(h)
    ensures r.Image? ==> Acceptable(h, |d|) && fresh(r.pix)
    ensures r.Image? ==> r.width == h.width && r.height == Rows(h)
    ensures r.Image? ==> r.pix[..] == Flat(Decoded(h, d))
    ensures |d| < 0x1_0000_0000 && Acceptable(h, |d|) ==> r.Image?
  {
    var checked := Check(h, |d|);
    if checked.None? {
      return Rejected;
    }
    var (start, end) := checked.value;
    var stride := Stride(h.width, h.bitCount);
    assert StoredRows(h, d) == Chop(d[start..end], stride, Rows(h));
    var pix := Render(d[start..end], stride, Rows(h), h.bitCount, h.height < 0, h.width);
    r := Image(h.width, Rows(h), pix);
  }
}
