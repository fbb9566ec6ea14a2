/** Encoding an image as a device-independent bitmap, in every layout the decoder takes, and the round trip. */
module DibEncoding {
  import opened Bytes
  import opened Dib

  /** A layout: pixel size, row order, header size, what the fields the decoder skips hold, the padding of a
  row, and what follows the pixels. */
  datatype Layout = Layout(bitCount: nat, topDown: bool, compression: nat, size: nat, planes: Bytes, rest: Bytes,
                           masks: Bytes, padding: Bytes, trailer: Bytes)

  predicate Usable(l: Layout, w: nat) {
    && (l.bitCount == 24 || l.bitCount == 32)
    && (l.compression == BI_RGB || l.compression == BI_BITFIELDS)
    && HEADER_MIN <= l.size < 0x1_0000_0000
    && |l.planes| == 2
    && |l.rest| == l.size - 20
    && |l.masks| == (if l.compression == BI_BITFIELDS && l.size == HEADER_MIN then 12 else 0)
    && |l.padding| < 4 && ((if l.bitCount == 24 then 3 else 4) * w + |l.padding|) % 4 == 0
  }

  /** The padding of a row is the least that makes its length a multiple of four. */
  lemma PaddedRow(l: Layout, w: nat)
    requires Usable(l, w)
    ensures Packed(w, l.bitCount) + |l.padding| == Stride(w, l.bitCount)
  {
    SameMultiple(Packed(w, l.bitCount) + |l.padding|, Stride(w, l.bitCount));
  }

  lemma SameMultiple(a: nat, b: nat)
    requires a % 4 == 0 && b % 4 == 0 && a < b + 4 && b < a + 4
    ensures a == b
  {
    assert a == 4 * (a / 4) && b == 4 * (b / 4);
  }

  /** An image: `w` pixels a line, four bytes a pixel. */
  predicate IsImage(lines: seq<Bytes>, w: nat) {
    forall y :: 0 <= y < |lines| ==> |lines[y]| == 4 * w
  }

  // ---------------------------------------------------------------- the encoder

  function Little16(v: nat): (r: Bytes)
    requires v < 65536
    ensures |r| == 2
  {
    [v % 256, v / 256]
  }

  function Little32(v: nat): (r: Bytes)
    requires v < 0x1_0000_0000
    ensures |r| == 4
  {
    Little16(v % 65536) + Little16(v / 65536)
  }

  /** The height field: negative for top-down rows. */
  function Height(l: Layout, n: nat): int {
    if l.topDown then -(n as int) else n
  }

  /** Two's complement. */
  function Unsigned32(v: int): (r: nat)
    requires -0x8000_0000 <= v < 0x8000_0000
    ensures r < 0x1_0000_0000 && Wrap32(r) == v
  {
    v % 0x1_0000_0000
  }

  function EncodeSize(l: Layout, w: nat, n: nat): (r: Bytes)
    requires Usable(l, w) && w <= MAX_DIMENSION && n <= MAX_DIMENSION
    ensures |r| == 12
  {
    Little32(l.size) + Little32(w) + Little32(Unsigned32(Height(l, n)))
  }

  function EncodeKind(l: Layout, w: nat): (r: Bytes)
    requires Usable(l, w)
    ensures |r| == 8
  {
    l.planes + Little16(l.bitCount) + Little32(l.compression)
  }

  function EncodeHeader(l: Layout, w: nat, n: nat): (r: Bytes)
    requires Usable(l, w) && w <= MAX_DIMENSION && n <= MAX_DIMENSION
    ensures |r| == l.size + |l.masks|
  {
    EncodeSize(l, w, n) + EncodeKind(l, w) + l.rest + l.masks
  }

  function EncodePixel(line: Bytes, bitCount: nat, x: nat): Bytes
    requires 4 * x + 4 <= |line|
  {
    if bitCount == 32 then [line[4 * x + 2], line[4 * x + 1], line[4 * x], line[4 * x + 3]]
    else [line[4 * x + 2], line[4 * x + 1], line[4 * x]]
  }

  /** The first `n` pixels of a line, as stored. */
  function EncodePixels(line: Bytes, bitCount: nat, n: nat): (r: Bytes)
    requires 4 * n <= |line|
    ensures |r| == Packed(n, bitCount)
  {
    if n == 0 then [] else EncodePixels(line, bitCount, n - 1) + EncodePixel(line, bitCount, n - 1)
  }

  /** The rows as stored: top-down or, as is usual, bottom-up. */
  function EncodeRows(l: Layout, w: nat, lines: seq<Bytes>): (rows: seq<Bytes>)
    requires Usable(l, w) && IsImage(lines, w)
    ensures |rows| == |lines|
    ensures forall k :: 0 <= k < |rows| ==> |rows[k]| == Stride(w, l.bitCount)
  {
    var ordered := if l.topDown then lines else Reversed(lines);
    PaddedRow(l, w);
    seq(|lines|, k requires 0 <= k < |lines| => EncodePixels(ordered[k], l.bitCount, w) + l.padding)
  }

  function Encode(l: Layout, w: nat, lines: seq<Bytes>): Bytes
    requires Usable(l, w) && IsImage(lines, w) && w <= MAX_DIMENSION && |lines| <= MAX_DIMENSION
  {
    EncodeHeader(l, w, |lines|) + Flat(EncodeRows(l, w, lines)) + l.trailer
  }

  // ---------------------------------------------------------------- reading the header back

  lemma Reads16(d: Bytes, i: nat, v: nat)
    requires v < 65536 && i + 2 <= |d| && d[i..i + 2] == Little16(v)
    ensures Uint16At(d, i) == v
  {
    assert d[i] == d[i..i + 2][0] && d[i + 1] == d[i..i + 2][1];
  }

  lemma Reads32(d: Bytes, i: nat, v: nat)
    requires v < 0x1_0000_0000 && i + 4 <= |d| && d[i..i + 4] == Little32(v)
    ensures Uint32At(d, i) == v
  {
    assert d[i..i + 2] == d[i..i + 4][..2] == Little16(v % 65536);
    assert d[i + 2..i + 4] == d[i..i + 4][2..] == Little16(v / 65536);
    Reads16(d, i, v % 65536);
    Reads16(d, i + 2, v / 65536);
  }

  lemma SliceOfSlice(d: Bytes, a: nat, b: nat, i: nat, j: nat)
    requires a <= b <= |d| && i <= j <= b - a
    ensures d[a..b][i..j] == d[a + i..a + j]
  {
    var piece := d[a..b];
    assert forall k :: 0 <= k < j - i ==> piece[i..j][k] == d[a + i..a + j][k];
  }

  /** Three pieces, each found at its place. */
  lemma ThreePieces(a: Bytes, b: Bytes, c: Bytes)
    ensures (a + b + c)[0..|a|] == a
    ensures (a + b + c)[|a|..|a| + |b|] == b
    ensures (a + b + c)[|a| + |b|..|a| + |b| + |c|] == c
  {
  }

  lemma SizeReadsBack(l: Layout, w: nat, n: nat, d: Bytes)
    requires Usable(l, w) && w <= MAX_DIMENSION && n <= MAX_DIMENSION
    requires EncodeSize(l, w, n) <= d
    ensures Uint32At(d, 0) == l.size && Uint32At(d, 4) == w && Wrap32(Uint32At(d, 8)) == Height(l, n)
  {
    var height := Unsigned32(Height(l, n));
    ThreePieces(Little32(l.size), Little32(w), Little32(height));
    assert EncodeSize(l, w, n) == d[0..12];
    SliceOfSlice(d, 0, 12, 0, 4);
    SliceOfSlice(d, 0, 12, 4, 8);
    SliceOfSlice(d, 0, 12, 8, 12);
    Reads32(d, 0, l.size);
    Reads32(d, 4, w);
    Reads32(d, 8, height);
  }

  lemma KindReadsBack(l: Layout, w: nat, d: Bytes)
    requires Usable(l, w) && |d| >= 20 && EncodeKind(l, w) == d[12..20]
    ensures Uint16At(d, 14) == l.bitCount && Uint32At(d, 16) == l.compression
  {
    ThreePieces(l.planes, Little16(l.bitCount), Little32(l.compression));
    SliceOfSlice(d, 12, 20, 2, 4);
    SliceOfSlice(d, 12, 20, 4, 8);
    Reads16(d, 14, l.bitCount);
    Reads32(d, 16, l.compression);
  }

  lemma HeaderReadsBack(l: Layout, w: nat, n: nat, d: Bytes)
    requires Usable(l, w) && w <= MAX_DIMENSION && n <= MAX_DIMENSION
    requires EncodeHeader(l, w, n) <= d
    ensures ReadHeader(d) == Header(l.size, w, Height(l, n), l.bitCount, l.compression)
  {
    var head := EncodeHeader(l, w, n);
    assert head[..12] == EncodeSize(l, w, n);
    assert d[12..20] == head[12..20] == EncodeKind(l, w);
    SizeReadsBack(l, w, n, d);
    KindReadsBack(l, w, d);
  }

  // ---------------------------------------------------------------- cutting the rows apart again

  lemma {:induction false} FlatFromFront(row: Bytes, rows: seq<Bytes>)
    ensures Flat([row] + rows) == row + Flat(rows)
  {
    if rows == [] {
      assert [row] + rows == [row];
    } else {
      var n := |rows| - 1;
      FlatFromFront(row, rows[..n]);
      assert ([row] + rows)[..n + 1] == [row] + rows[..n];
      Regroup(row, Flat(rows[..n]), rows[n]);
    }
  }

  /** Rows of one length come apart as they were joined. */
  lemma {:induction false} ChopFlat(rows: seq<Bytes>, stride: nat)
    requires forall k :: 0 <= k < |rows| ==> |rows[k]| == stride
    ensures |Flat(rows)| == Span(stride, |rows|)
    ensures Chop(Flat(rows), stride, |rows|) == rows
  {
    if rows != [] {
      ChopFlat(rows[1..], stride);
      FlatFromFront(rows[0], rows[1..]);
      assert rows == [rows[0]] + rows[1..];
      assert Flat(rows)[stride..] == Flat(rows[1..]);
    }
  }

  // ---------------------------------------------------------------- reading a row back

  /** Pixel `x` with alpha kept or made opaque. */
  function Shade(line: Bytes, solid: bool, x: nat): (r: Bytes)
    requires 4 * x + 4 <= |line|
    ensures |r| == 4
  {
    [line[4 * x], line[4 * x + 1], line[4 * x + 2], if solid then 255 else line[4 * x + 3]]
  }

  function ShadeLine(line: Bytes, solid: bool, n: nat): (r: Bytes)
    requires 4 * n <= |line|
    ensures |r| == 4 * n
  {
    if n == 0 then [] else ShadeLine(line, solid, n - 1) + Shade(line, solid, n - 1)
  }

  lemma LastPixelReadsBack(line: Bytes, bitCount: nat, n: nat, row: Bytes, before: Bytes, solid: bool)
    requires bitCount == 24 || bitCount == 32
    requires 4 * n + 4 <= |line| && |before| == Packed(n, bitCount) && before + EncodePixel(line, bitCount, n) <= row
    requires bitCount == 24 ==> solid
    ensures PixelAt(row, bitCount, solid, n) == Shade(line, solid, n)
    ensures bitCount == 32 ==> row[n * 4 + 3] == line[n * 4 + 3]
  {
    var last := EncodePixel(line, bitCount, n);
    assert forall i :: 0 <= i < |last| ==> row[|before| + i] == (before + last)[|before| + i] == last[i];
  }

  lemma {:induction false} PixelReadsBack(line: Bytes, bitCount: nat, n: nat, row: Bytes, x: nat, solid: bool)
    requires bitCount == 24 || bitCount == 32
    requires x < n && 4 * n <= |line| && EncodePixels(line, bitCount, n) <= row
    requires bitCount == 24 ==> solid
    ensures PixelAt(row, bitCount, solid, x) == Shade(line, solid, x)
    ensures bitCount == 32 ==> row[x * 4 + 3] == line[x * 4 + 3]
  {
    var before := EncodePixels(line, bitCount, n - 1);
    assert before <= before + EncodePixel(line, bitCount, n - 1) <= row;
    if x < n - 1 {
      PixelReadsBack(line, bitCount, n - 1, row, x, solid);
    } else {
      LastPixelReadsBack(line, bitCount, x, row, before, solid);
    }
  }

  lemma {:induction false} SamePixels(line: Bytes, bitCount: nat, row: Bytes, n: nat, solid: bool)
    requires bitCount == 24 || bitCount == 32
    requires 4 * n <= |line| && Packed(n, bitCount) <= |row|
    requires forall x :: 0 <= x < n ==> PixelAt(row, bitCount, solid, x) == Shade(line, solid, x)
    ensures RowPixels(row, bitCount, solid, n) == ShadeLine(line, solid, n)
  {
    if n > 0 {
      SamePixels(line, bitCount, row, n - 1, solid);
    }
  }

  lemma RowReadsBack(line: Bytes, bitCount: nat, w: nat, row: Bytes, solid: bool)
    requires bitCount == 24 || bitCount == 32
    requires 4 * w <= |line| && EncodePixels(line, bitCount, w) <= row
    requires bitCount == 24 ==> solid
    ensures RowPixels(row, bitCount, solid, w) == ShadeLine(line, solid, w)
  {
    forall x | 0 <= x < w
      ensures PixelAt(row, bitCount, solid, x) == Shade(line, solid, x)
    {
      PixelReadsBack(line, bitCount, w, row, x, solid);
    }
    SamePixels(line, bitCount, row, w, solid);
  }

  lemma AlphaReadsBack(line: Bytes, w: nat, row: Bytes)
    requires 4 * w <= |line| && EncodePixels(line, 32, w) <= row
    ensures RowHasAlpha(row, w) <==> RowHasAlpha(line, w)
  {
    forall x | 0 <= x < w
      ensures row[x * 4 + 3] == line[x * 4 + 3]
    {
      PixelReadsBack(line, 32, w, row, x, false);
    }
  }

  // ---------------------------------------------------------------- reading the image back

  /** What comes back of an image: itself if its alpha was stored and is not zero throughout, else the same
  colours made opaque. */
  function Shown(lines: seq<Bytes>, bitCount: nat, w: nat): seq<Bytes>
    requires IsImage(lines, w)
  {
    var solid := bitCount == 24 || !HasAlpha(lines, w);
    seq(|lines|, y requires 0 <= y < |lines| => ShadeLine(lines[y], solid, w))
  }

  /** The line that stored row `k` is made of. */
  function LineOf(l: Layout, n: nat, k: nat): nat
    requires k < n
  {
    if l.topDown then k else n - 1 - k
  }

  /** The alpha of stored row `k` is that of its line. */
  lemma RowAlpha(l: Layout, w: nat, lines: seq<Bytes>, k: nat)
    requires Usable(l, w) && IsImage(lines, w) && l.bitCount == 32 && k < |lines|
    ensures RowHasAlpha(EncodeRows(l, w, lines)[k], w) <==> RowHasAlpha(lines[LineOf(l, |lines|, k)], w)
  {
    AlphaReadsBack(lines[LineOf(l, |lines|, k)], w, EncodeRows(l, w, lines)[k]);
  }

  lemma StoredAlpha(l: Layout, w: nat, lines: seq<Bytes>)
    requires Usable(l, w) && IsImage(lines, w) && l.bitCount == 32
    ensures HasAlpha(EncodeRows(l, w, lines), w) <==> HasAlpha(lines, w)
  {
    var rows := EncodeRows(l, w, lines);
    if HasAlpha(lines, w) {
      var y: nat :| y < |lines| && RowHasAlpha(lines[y], w);
      RowAlpha(l, w, lines, LineOf(l, |lines|, y));
      assert RowHasAlpha(rows[LineOf(l, |lines|, y)], w);
    } else {
      forall k | 0 <= k < |rows|
        ensures !RowHasAlpha(rows[k], w)
      {
        RowAlpha(l, w, lines, k);
        assert !RowHasAlpha(lines[LineOf(l, |lines|, k)], w);
      }
    }
  }

  lemma LineReadsBack(l: Layout, w: nat, lines: seq<Bytes>, y: nat, solid: bool)
    requires Usable(l, w) && IsImage(lines, w) && y < |lines| && (l.bitCount == 24 ==> solid)
    ensures RowPixels(EncodeRows(l, w, lines)[LineOf(l, |lines|, y)], l.bitCount, solid, w) == ShadeLine(lines[y], solid, w)
  {
    var row := EncodeRows(l, w, lines)[LineOf(l, |lines|, y)];
    assert row == EncodePixels(lines[y], l.bitCount, w) + l.padding;
    RowReadsBack(lines[y], l.bitCount, w, row, solid);
  }

  lemma StoredSolid(l: Layout, w: nat, lines: seq<Bytes>)
    requires Usable(l, w) && IsImage(lines, w)
    ensures Solid(EncodeRows(l, w, lines), l.bitCount, w) <==> l.bitCount == 24 || !HasAlpha(lines, w)
  {
    if l.bitCount == 32 {
      StoredAlpha(l, w, lines);
    }
  }

  /** Lines that agree with given ones one by one. */
  lemma SameLines(rows: seq<Bytes>, bitCount: nat, topDown: bool, w: nat, solid: bool, shown: seq<Bytes>)
    requires Hold(rows, bitCount, w) && Solid(rows, bitCount, w) == solid && |shown| == |rows|
    requires forall y :: 0 <= y < |rows| ==>
      RowPixels(rows[if topDown then y else |rows| - 1 - y], bitCount, solid, w) == shown[y]
    ensures Lines(rows, bitCount, topDown, w) == shown
  {
  }

  lemma LinesReadBack(l: Layout, w: nat, lines: seq<Bytes>)
    requires Usable(l, w) && IsImage(lines, w)
    ensures Lines(EncodeRows(l, w, lines), l.bitCount, l.topDown, w) == Shown(lines, l.bitCount, w)
  {
    var rows, solid := EncodeRows(l, w, lines), l.bitCount == 24 || !HasAlpha(lines, w);
    StoredSolid(l, w, lines);
    forall y | 0 <= y < |rows|
      ensures RowPixels(rows[LineOf(l, |lines|, y)], l.bitCount, solid, w) == Shown(lines, l.bitCount, w)[y]
    {
      LineReadsBack(l, w, lines, y, solid);
    }
    SameLines(rows, l.bitCount, l.topDown, w, solid, Shown(lines, l.bitCount, w));
  }

  /** The decoder finds rows of the right length after the right offset. */
  lemma FindsRows(h: Header, d: Bytes, head: Bytes, rows: seq<Bytes>, trailer: Bytes)
    requires Supported(h) && Rows(h) <= MAX_DIMENSION
    requires |head| == PixelOffset(h) && |rows| == Rows(h)
    requires forall k :: 0 <= k < |rows| ==> |rows[k]| == Stride(h.width, h.bitCount)
    requires d == head + Flat(rows) + trailer
    ensures Acceptable(h, |d|) && StoredRows(h, d) == rows
  {
    ChopFlat(rows, Stride(h.width, h.bitCount));
    ThreePieces(head, Flat(rows), trailer);
  }

  /** The decoder finds the rows that were stored. */
  lemma RowsReadBack(l: Layout, w: nat, lines: seq<Bytes>, h: Header, d: Bytes)
    requires Usable(l, w) && IsImage(lines, w) && 0 < w <= MAX_DIMENSION && 0 < |lines| <= MAX_DIMENSION
    requires d == Encode(l, w, lines)
    requires h == Header(l.size, w, Height(l, |lines|), l.bitCount, l.compression)
    ensures Acceptable(h, |d|) && StoredRows(h, d) == EncodeRows(l, w, lines)
  {
    FindsRows(h, d, EncodeHeader(l, w, |lines|), EncodeRows(l, w, lines), l.trailer);
  }

  lemma {:induction false} ShadedAt(line: Bytes, solid: bool, n: nat, x: nat)
    requires x < n && 4 * n <= |line|
    ensures ShadeLine(line, solid, n)[4 * x..4 * x + 4] == Shade(line, solid, x)
  {
    if x < n - 1 {
      ShadedAt(line, solid, n - 1, x);
      assert ShadeLine(line, solid, n)[..4 * (n - 1)] == ShadeLine(line, solid, n - 1);
      assert ShadeLine(line, solid, n)[4 * x..4 * x + 4] == ShadeLine(line, solid, n - 1)[4 * x..4 * x + 4];
    }
  }

  function Alpha(line: Bytes, x: nat): Byte
    requires 4 * x + 4 <= |line|
  {
    line[x * 4 + 3]
  }

  /** Some pixel of the image is not fully transparent. */
  ghost predicate AlphaSomewhere(lines: seq<Bytes>, w: nat)
    requires IsImage(lines, w)
  {
    exists y: nat, x: nat :: y < |lines| && x < w && Alpha(lines[y], x) != 0
  }

  lemma HasAlphaIff(lines: seq<Bytes>, w: nat)
    requires IsImage(lines, w)
    ensures HasAlpha(lines, w) <==> AlphaSomewhere(lines, w)
  {
    if AlphaSomewhere(lines, w) {
      var y: nat, x: nat :| y < |lines| && x < w && Alpha(lines[y], x) != 0;
      assert lines[y][x * 4 + 3] != 0 && RowHasAlpha(lines[y], w);
    }
    if HasAlpha(lines, w) {
      var y: nat :| y < |lines| && RowHasAlpha(lines[y], w);
      var x: nat :| x < w && lines[y][x * 4 + 3] != 0;
      assert Alpha(lines[y], x) != 0;
    }
  }

  /** What comes back of a pixel: its colours, and its alpha or 255. */
  lemma ShownPixel(lines: seq<Bytes>, bitCount: nat, w: nat, y: nat, x: nat)
    requires IsImage(lines, w) && y < |lines| && x < w && (bitCount == 24 || bitCount == 32)
    ensures var p, q := lines[y][4 * x..4 * x + 4], Shown(lines, bitCount, w)[y];
      && |q| == 4 * w
      && q[4 * x..4 * x + 4] == p[..3] + [if bitCount == 32 && AlphaSomewhere(lines, w) then p[3] else 255]
  {
    var solid := bitCount == 24 || !HasAlpha(lines, w);
    HasAlphaIff(lines, w);
    ShadedAt(lines[y], solid, w, x);
    ShadeSpells(lines[y], solid, x, lines[y][4 * x..4 * x + 4]);
    assert Shown(lines, bitCount, w)[y] == ShadeLine(lines[y], solid, w);
  }

  lemma ShadeSpells(line: Bytes, solid: bool, x: nat, p: Bytes)
    requires 4 * x + 4 <= |line| && p == line[4 * x..4 * x + 4]
    ensures Shade(line, solid, x) == p[..3] + [if solid then 255 else p[3]]
  {
    assert p[0] == line[4 * x] && p[1] == line[4 * x + 1] && p[2] == line[4 * x + 2] && p[3] == line[4 * x + 3];
  }

  /** Decoding any encoding of an image gives the image back as `Shown` says, whatever the layout. */
  lemma RoundTrip(l: Layout, w: nat, lines: seq<Bytes>)
    requires Usable(l, w) && IsImage(lines, w) && 0 < w <= MAX_DIMENSION && 0 < |lines| <= MAX_DIMENSION
    ensures var d := Encode(l, w, lines);
      && |d| >= HEADER_MIN
      && Acceptable(ReadHeader(d), |d|)
      && ReadHeader(d).width == w && Rows(ReadHeader(d)) == |lines|
      && Decoded(ReadHeader(d), d) == Shown(lines, l.bitCount, w)
  {
    var d := Encode(l, w, lines);
    HeaderReadsBack(l, w, |lines|, d);
    RowsReadBack(l, w, lines, ReadHeader(d), d);
    LinesReadBack(l, w, lines);
  }

  // ---------------------------------------------------------------- exactly when nothing is lost

  predicate Opaque(line: Bytes, w: nat)
    requires 4 * w <= |line|
  {
    forall x :: 0 <= x < w ==> line[x * 4 + 3] == 255
  }

  lemma ShadedPixel(line: Bytes, solid: bool, x: nat)
    requires 4 * x + 4 <= |line|
    ensures Shade(line, solid, x) == line[4 * x..4 * x + 4] <==> (!solid || line[x * 4 + 3] == 255)
  {
    assert line[4 * x..4 * x + 4][3] == line[x * 4 + 3];
  }

  lemma SameHalves(a: Bytes, b: Bytes, c: Bytes, d: Bytes)
    requires |a| == |c|
    ensures a + b == c + d <==> a == c && b == d
  {
    assert a == (a + b)[..|a|] && b == (a + b)[|a|..];
    assert c == (c + d)[..|a|] && d == (c + d)[|a|..];
  }

  lemma {:induction false} ShadedLine(line: Bytes, solid: bool, n: nat)
    requires 4 * n <= |line|
    ensures ShadeLine(line, solid, n) == line[..4 * n] <==> (!solid || Opaque(line, n))
  {
    if n > 0 {
      ShadedLine(line, solid, n - 1);
      ShadedPixel(line, solid, n - 1);
      assert line[..4 * n] == line[..4 * (n - 1)] + line[4 * (n - 1)..4 * (n - 1) + 4];
      SameHalves(ShadeLine(line, solid, n - 1), Shade(line, solid, n - 1), line[..4 * (n - 1)], line[4 * (n - 1)..4 * (n - 1) + 4]);
      assert Opaque(line, n) <==> Opaque(line, n - 1) && line[(n - 1) * 4 + 3] == 255;
    }
  }

  lemma OpaqueIff(lines: seq<Bytes>, w: nat)
    requires IsImage(lines, w)
    ensures (forall y: nat, x: nat :: y < |lines| && x < w ==> Alpha(lines[y], x) == 255) <==>
            forall y :: 0 <= y < |lines| ==> Opaque(lines[y], w)
  {
    if forall y: nat, x: nat :: y < |lines| && x < w ==> Alpha(lines[y], x) == 255 {
      forall y | 0 <= y < |lines|
        ensures Opaque(lines[y], w)
      {
        forall x | 0 <= x < w
          ensures lines[y][x * 4 + 3] == 255
        {
          assert Alpha(lines[y], x) == 255;
        }
      }
    }
  }

  /** An image comes back unchanged exactly if it is opaque or its alpha is stored and not zero throughout. */
  lemma UnchangedIff(lines: seq<Bytes>, bitCount: nat, w: nat)
    requires IsImage(lines, w) && (bitCount == 24 || bitCount == 32)
    ensures Shown(lines, bitCount, w) == lines <==>
      || (bitCount == 32 && AlphaSomewhere(lines, w))
      || forall y: nat, x: nat :: y < |lines| && x < w ==> Alpha(lines[y], x) == 255
  {
    HasAlphaIff(lines, w);
    var solid := bitCount == 24 || !HasAlpha(lines, w);
    var shown := Shown(lines, bitCount, w);
    forall y | 0 <= y < |lines|
      ensures shown[y] == lines[y] <==> (!solid || Opaque(lines[y], w))
    {
      ShadedLine(lines[y], solid, w);
      assert lines[y][..4 * w] == lines[y];
    }
    if solid && shown == lines {
      assert forall y :: 0 <= y < |lines| ==> shown[y] == lines[y] && Opaque(lines[y], w);
    }
    OpaqueIff(lines, w);
  }
}
