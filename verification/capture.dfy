/** The capture side of `src/window.rs`: the row alignment a GPU buffer copy
    needs, and the repacking of a captured frame from padded rows of RGBA
    pixels into tightly packed `Rgb8` or `Rgba8` rows. */
module CushyCapture {
  import opened Common

  /** `wgpu::COPY_BYTES_PER_ROW_ALIGNMENT`. */
  const COPY_ALIGNMENT: nat := 256

  /** `copy_buffer_aligned_bytes_per_row`: the smallest multiple of the
      alignment that holds `width` bytes. */
  function AlignedBytesPerRow(width: nat): (r: nat)
    ensures r % COPY_ALIGNMENT == 0
    ensures width <= r < width + COPY_ALIGNMENT
  {
    (width + COPY_ALIGNMENT - 1) / COPY_ALIGNMENT * COPY_ALIGNMENT
  }

  /** No smaller multiple of the alignment holds `width` bytes. */
  lemma AlignedIsLeast(width: nat, k: nat)
    requires k * COPY_ALIGNMENT >= width
    ensures AlignedBytesPerRow(width) <= k * COPY_ALIGNMENT
  {
    var q := (width + COPY_ALIGNMENT - 1) / COPY_ALIGNMENT;
    assert (q - 1) * COPY_ALIGNMENT < width;
  }

  datatype CaptureFormat = Rgb8 | Rgba8

  /** Whether `convert_rgba` keeps the byte at `index` of the padded
      buffer: a byte of the first `width` pixels of its row, and for `Rgb8`
      not an alpha byte. */
  predicate Keep(format: CaptureFormat, index: nat, width: nat, bytesPerRow: nat)
    requires bytesPerRow > 0
  {
    Column(index, bytesPerRow) < width * 4 && (format == Rgba8 || index % 4 < 3)
  }

  /** The column of byte `index` in rows of `bytesPerRow` bytes, which the
      source computes as `index % bytes_per_row`; here by repeated
      subtraction, equal to the remainder by `ColumnIsRemainder`. */
  function Column(index: nat, bytesPerRow: nat): (r: nat)
    requires bytesPerRow > 0
    ensures r < bytesPerRow
    decreases index
  {
    if index < bytesPerRow then index else Column(index - bytesPerRow, bytesPerRow)
  }

  /** The bytes of `data[lo..hi]` that are kept, in order. */
  function Retained(format: CaptureFormat, data: seq<U8>, lo: nat, hi: nat, width: nat, bytesPerRow: nat): seq<U8>
    requires lo <= hi <= |data| && bytesPerRow > 0
    decreases hi - lo
  {
    if lo == hi then []
    else (Retained(format, data, lo, hi - 1, width, bytesPerRow)
          + (if Keep(format, hi - 1, width, bytesPerRow) then [data[hi - 1]] else []))
  }

  /** `Keep` for the byte in column `col` of its row, once rows are a whole
      number of pixels long. */
  predicate KeepColumn(format: CaptureFormat, col: nat, width: nat)
  {
    col < width * 4 && (format == Rgba8 || col % 4 < 3)
  }

  /** The kept bytes among the first `col` bytes of the row at `base`. */
  function RowRetained(format: CaptureFormat, data: seq<U8>, base: nat, col: nat, width: nat): seq<U8>
    requires base + col <= |data|
  {
    if col == 0 then []
    else (RowRetained(format, data, base, col - 1, width)
          + (if KeepColumn(format, col - 1, width) then [data[base + col - 1]] else []))
  }

  /** The pixel starting at `p`: red, green and blue, and alpha for
      `Rgba8`. */
  function PixelBytes(format: CaptureFormat, data: seq<U8>, p: nat): (r: seq<U8>)
    requires p + 4 <= |data|
    ensures |r| == (if format == Rgb8 then 3 else 4)
  {
    if format == Rgb8 then [data[p], data[p + 1], data[p + 2]]
    else [data[p], data[p + 1], data[p + 2], data[p + 3]]
  }

  /** The first `pixels` pixels of the row starting at `base`, each packed. */
  function PackedRow(format: CaptureFormat, data: seq<U8>, base: nat, pixels: nat): (r: seq<U8>)
    requires base + 4 * pixels <= |data|
    ensures |r| == PackedLength(format, pixels)
  {
    if pixels == 0 then []
    else PackedRow(format, data, base, pixels - 1) + PixelBytes(format, data, base + 4 * (pixels - 1))
  }

  /** Whether `base` is where a row starts: a whole number of rows of
      `bytesPerRow` bytes. */
  predicate IsRowStart(base: nat, bytesPerRow: nat)
    requires bytesPerRow > 0
    decreases base
  {
    base == 0 || (base >= bytesPerRow && IsRowStart(base - bytesPerRow, bytesPerRow))
  }

  /** The rows of `bytesPerRow` bytes that end at `base`, each packed to
      its first `width` pixels. */
  function PackedRows(format: CaptureFormat, data: seq<U8>, base: nat, width: nat, bytesPerRow: nat): seq<U8>
    requires 0 < bytesPerRow && 4 * width <= bytesPerRow && base <= |data|
    decreases base
  {
    if base < bytesPerRow then []
    else PackedRows(format, data, base - bytesPerRow, width, bytesPerRow) + PackedRow(format, data, base - bytesPerRow, width)
  }

  lemma {:induction false} MulAtLeast(m: int, k: int)
    requires m > 0 && k >= 1
    ensures m * k >= m
  {
    if k > 1 {
      MulAtLeast(m, k - 1);
      assert m * k == m * (k - 1) + m;
    }
  }

  /** Euclidean remainders are unique. */
  lemma ModUnique(y: int, m: int, q: int, r: int)
    requires m > 0 && 0 <= r < m && y == q * m + r
    ensures y % m == r
  {
    var d := y / m;
    var k := q - d;
    assert y == m * d + y % m;
    assert m * k == y % m - r by {
      assert m * k == m * q - m * d;
    }
    if k > 0 {
      MulAtLeast(m, k);
    } else if k < 0 {
      assert m * (-k) == -(m * k);
      MulAtLeast(m, -k);
    }
  }

  lemma {:induction false} ColumnIsRemainder(index: nat, bytesPerRow: nat)
    requires bytesPerRow > 0
    ensures Column(index, bytesPerRow) == index % bytesPerRow
    decreases index
  {
    if index < bytesPerRow {
      ModUnique(index, bytesPerRow, 0, index);
    } else {
      var rest := index - bytesPerRow;
      ColumnIsRemainder(rest, bytesPerRow);
      var q := rest / bytesPerRow;
      assert rest == q * bytesPerRow + rest % bytesPerRow;
      assert index == (q + 1) * bytesPerRow + rest % bytesPerRow;
      ModUnique(index, bytesPerRow, q + 1, rest % bytesPerRow);
    }
  }

  /** The byte in column `col` of the row starting at `base` is in column
      `col`. */
  lemma {:induction false} ColumnAfterRowStart(base: nat, bytesPerRow: nat, col: nat)
    requires bytesPerRow > 0 && IsRowStart(base, bytesPerRow) && col < bytesPerRow
    ensures Column(base + col, bytesPerRow) == col
    decreases base
  {
    if base > 0 {
      ColumnAfterRowStart(base - bytesPerRow, bytesPerRow, col);
    }
  }

  /** Rows that are a whole number of pixels long start on a pixel. */
  lemma {:induction false} RowStartOnPixel(base: nat, bytesPerRow: nat) returns (pixels: nat)
    requires bytesPerRow > 0 && bytesPerRow % 4 == 0 && IsRowStart(base, bytesPerRow)
    ensures base == 4 * pixels
    decreases base
  {
    if base > 0 {
      var before := RowStartOnPixel(base - bytesPerRow, bytesPerRow);
      pixels := before + bytesPerRow / 4;
    } else {
      pixels := 0;
    }
  }

  /** Within a frame whose rows are a whole number of pixels long, `Keep`
      depends only on the byte's column. */
  lemma KeepByColumn(format: CaptureFormat, base: nat, col: nat, index: nat, width: nat, bytesPerRow: nat)
    requires bytesPerRow > 0 && bytesPerRow % 4 == 0 && IsRowStart(base, bytesPerRow)
    requires col < bytesPerRow && index == base + col
    ensures Keep(format, index, width, bytesPerRow) == KeepColumn(format, col, width)
  {
    ColumnAfterRowStart(base, bytesPerRow, col);
    var pixels := RowStartOnPixel(base, bytesPerRow);
    ModUnique(index, 4, pixels + col / 4, col % 4);
  }

  /** A row start plus a column is a row start only when the column is 0. */
  lemma RowStartUnique(base: nat, col: nat, bytesPerRow: nat)
    requires bytesPerRow > 0 && col < bytesPerRow
    requires IsRowStart(base, bytesPerRow) && IsRowStart(base + col, bytesPerRow)
    ensures col == 0
  {
    ColumnAfterRowStart(base, bytesPerRow, col);
    ColumnAfterRowStart(base + col, bytesPerRow, 0);
  }

  /** One pixel of the row: its colour bytes are kept, and its alpha byte
      exactly for `Rgba8`. */
  lemma RowRetainedPixel(format: CaptureFormat, data: seq<U8>, base: nat, pixels: nat, width: nat)
    requires 0 < pixels <= width && base + 4 * pixels <= |data|
    ensures RowRetained(format, data, base, 4 * pixels, width)
      == RowRetained(format, data, base, 4 * (pixels - 1), width) + PixelBytes(format, data, base + 4 * (pixels - 1))
  {
    var c := pixels - 1;
    var j3 := 4 * c + 3;
    var j4 := 4 * pixels;
    var p := base + 4 * c;
    assert j4 == j3 + 1 && base + j3 == p + 3;
    RowRetainedColours(format, data, base, c, width);
    KeepColumnOfPixel(format, c, 3, j3, width);
    var r0 := RowRetained(format, data, base, 4 * c, width);
    if format == Rgba8 {
      RowRetainedKept(format, data, base, j3, j4, width);
      AppendFour(r0, data[p], data[p + 1], data[p + 2], data[p + 3]);
    } else {
      RowRetainedDropped(format, data, base, j3, j4, width);
    }
  }

  /** The three colour bytes of pixel `c` are kept. */
  lemma RowRetainedColours(format: CaptureFormat, data: seq<U8>, base: nat, c: nat, width: nat)
    requires c < width && base + 4 * c + 4 <= |data|
    ensures RowRetained(format, data, base, 4 * c + 3, width)
      == RowRetained(format, data, base, 4 * c, width) + [data[base + 4 * c], data[base + 4 * c + 1], data[base + 4 * c + 2]]
  {
    var j0 := 4 * c;
    var j1 := 4 * c + 1;
    var j2 := 4 * c + 2;
    var j3 := 4 * c + 3;
    var p := base + 4 * c;
    assert base + j0 == p && base + j1 == p + 1 && base + j2 == p + 2;
    KeepColumnOfPixel(format, c, 0, j0, width);
    KeepColumnOfPixel(format, c, 1, j1, width);
    KeepColumnOfPixel(format, c, 2, j2, width);
    RowRetainedKept(format, data, base, j0, j1, width);
    RowRetainedKept(format, data, base, j1, j2, width);
    RowRetainedKept(format, data, base, j2, j3, width);
    AppendThree(RowRetained(format, data, base, j0, width), data[p], data[p + 1], data[p + 2]);
  }

  /** Byte `k` of pixel `c` is kept exactly when it is a colour byte or the
      format keeps alpha. */
  lemma KeepColumnOfPixel(format: CaptureFormat, c: nat, k: nat, col: nat, width: nat)
    requires c < width && k < 4 && col == 4 * c + k
    ensures KeepColumn(format, col, width) <==> k < 3 || format == Rgba8
  {
    ModUnique(col, 4, c, k);
  }

  lemma RowRetainedKept(format: CaptureFormat, data: seq<U8>, base: nat, col: nat, next: nat, width: nat)
    requires base + col < |data| && next == col + 1 && KeepColumn(format, col, width)
    ensures RowRetained(format, data, base, next, width) == RowRetained(format, data, base, col, width) + [data[base + col]]
  {
  }

  lemma RowRetainedDropped(format: CaptureFormat, data: seq<U8>, base: nat, col: nat, next: nat, width: nat)
    requires base + col < |data| && next == col + 1 && !KeepColumn(format, col, width)
    ensures RowRetained(format, data, base, next, width) == RowRetained(format, data, base, col, width)
  {
  }

  lemma AppendThree(s: seq<U8>, a: U8, b: U8, c: U8)
    ensures s + [a] + [b] + [c] == s + [a, b, c]
  {
  }

  lemma AppendFour(s: seq<U8>, a: U8, b: U8, c: U8, d: U8)
    ensures s + [a, b, c] + [d] == s + [a, b, c, d]
  {
  }

  /** The kept bytes of the first `pixels` pixels of a row are those pixels,
      packed. */
  lemma {:induction false} RowRetainedPixels(format: CaptureFormat, data: seq<U8>, base: nat, pixels: nat, width: nat)
    requires pixels <= width && base + 4 * pixels <= |data|
    ensures RowRetained(format, data, base, 4 * pixels, width) == PackedRow(format, data, base, pixels)
  {
    if pixels > 0 {
      var p := base + 4 * (pixels - 1);
      RowRetainedPixels(format, data, base, pixels - 1, width);
      RowRetainedPixel(format, data, base, pixels, width);
      PackedRowLast(format, data, base, pixels, p);
      AppendEqual(RowRetained(format, data, base, 4 * (pixels - 1), width), PackedRow(format, data, base, pixels - 1), PixelBytes(format, data, p));
    }
  }

  lemma AppendEqual(a: seq<U8>, b: seq<U8>, c: seq<U8>)
    requires a == b
    ensures a + c == b + c
  {
  }

  /** Nothing past the first `width` pixels of a row is kept. */
  lemma {:induction false} RowRetainedPadding(format: CaptureFormat, data: seq<U8>, base: nat, col: nat, width: nat)
    requires 4 * width <= col && base + col <= |data|
    ensures RowRetained(format, data, base, col, width) == RowRetained(format, data, base, 4 * width, width)
  {
    if col > 4 * width {
      RowRetainedPadding(format, data, base, col - 1, width);
    }
  }

  /** A whole row is packed to its first `width` pixels, without alpha for
      `Rgb8`. */
  lemma RowRetainedFull(format: CaptureFormat, data: seq<U8>, base: nat, width: nat, bytesPerRow: nat)
    requires 4 * width <= bytesPerRow && base + bytesPerRow <= |data|
    ensures RowRetained(format, data, base, bytesPerRow, width) == PackedRow(format, data, base, width)
  {
    RowRetainedPadding(format, data, base, bytesPerRow, width);
    RowRetainedPixels(format, data, base, width, width);
  }

  /** `convert_rgba`, which repacks a captured frame in place by retaining
      bytes; `Rgba8` skips the pass when the rows carry no padding. For a
      frame of whole rows whose length is a whole number of pixels, the
      result is each row packed to its first `width` pixels. */
  method ConvertRgba(format: CaptureFormat, data: seq<U8>, width: nat, bytesPerRow: nat) returns (packed: seq<U8>)
    requires data != [] && !(format == Rgba8 && width * 4 == bytesPerRow) ==> bytesPerRow > 0
    ensures data == [] ==> packed == []
    ensures format == Rgba8 && width * 4 == bytesPerRow ==> packed == data
    ensures data != [] && !(format == Rgba8 && width * 4 == bytesPerRow) ==>
      packed == Retained(format, data, 0, |data|, width, bytesPerRow)
    ensures bytesPerRow > 0 && bytesPerRow % 4 == 0 && 4 * width <= bytesPerRow && IsRowStart(|data|, bytesPerRow) ==>
      packed == PackedRows(format, data, |data|, width, bytesPerRow)
  {
    if format == Rgba8 && width * 4 == bytesPerRow {
      if bytesPerRow > 0 && IsRowStart(|data|, bytesPerRow) {
        PackedRowsUnpadded(data, |data|, width, bytesPerRow);
        assert data[..|data|] == data;
      }
      return data;
    }
    packed := [];
    var index := 0;
    while index < |data|
      invariant 0 <= index <= |data|
      invariant data != [] ==> packed == Retained(format, data, 0, index, width, bytesPerRow)
      invariant data == [] ==> packed == []
    {
      var retain := Keep(format, index, width, bytesPerRow);
      if retain {
        packed := packed + [data[index]];
      }
      index := index + 1;
    }
    if bytesPerRow > 0 && bytesPerRow % 4 == 0 && 4 * width <= bytesPerRow && IsRowStart(|data|, bytesPerRow) {
      RetainedWholeRows(format, data, |data|, width, bytesPerRow);
    }
  }

  /** Over whole rows that are a whole number of pixels long, the retained
      bytes are the rows, each packed. */
  lemma RetainedWholeRows(format: CaptureFormat, data: seq<U8>, base: nat, width: nat, bytesPerRow: nat)
    requires bytesPerRow > 0 && bytesPerRow % 4 == 0 && 4 * width <= bytesPerRow
    requires IsRowStart(base, bytesPerRow) && base <= |data|
    ensures Retained(format, data, 0, base, width, bytesPerRow) == PackedRows(format, data, base, width, bytesPerRow)
  {
    RetainedByRows(format, data, base, 0, width, bytesPerRow);
    var packed := PackedRows(format, data, base, width, bytesPerRow);
    assert packed + [] == packed;
  }

  /** Over whole rows that are a whole number of pixels long, the retained
      bytes are the rows before `base`, each packed, followed by what is
      retained of the first `col` bytes of the row at `base`. */
  lemma {:induction false} RetainedByRows(format: CaptureFormat, data: seq<U8>, base: nat, col: nat, width: nat, bytesPerRow: nat)
    requires bytesPerRow > 0 && bytesPerRow % 4 == 0 && 4 * width <= bytesPerRow
    requires IsRowStart(base, bytesPerRow) && col <= bytesPerRow && base + col <= |data|
    ensures Retained(format, data, 0, base + col, width, bytesPerRow)
      == PackedRows(format, data, base, width, bytesPerRow) + RowRetained(format, data, base, col, width)
    decreases base, col
  {
    if col > 0 {
      RetainedByRows(format, data, base, col - 1, width, bytesPerRow);
      RetainedStep(format, data, base, col, width, bytesPerRow);
    } else if base > 0 {
      RetainedByRows(format, data, base - bytesPerRow, bytesPerRow, width, bytesPerRow);
      RetainedRowBoundary(format, data, base, width, bytesPerRow);
    }
  }

  /** The byte in column `col - 1` extends both sides of `RetainedByRows`
      alike. */
  lemma RetainedStep(format: CaptureFormat, data: seq<U8>, base: nat, col: nat, width: nat, bytesPerRow: nat)
    requires bytesPerRow > 0 && bytesPerRow % 4 == 0 && 4 * width <= bytesPerRow
    requires IsRowStart(base, bytesPerRow) && 0 < col <= bytesPerRow && base + col <= |data|
    requires Retained(format, data, 0, base + (col - 1), width, bytesPerRow)
      == PackedRows(format, data, base, width, bytesPerRow) + RowRetained(format, data, base, col - 1, width)
    ensures Retained(format, data, 0, base + col, width, bytesPerRow)
      == PackedRows(format, data, base, width, bytesPerRow) + RowRetained(format, data, base, col, width)
  {
    var j := col - 1;
    var i := base + (col - 1);
    assert i + 1 == base + col && j + 1 == col && base + j == i;
    KeepByColumn(format, base, j, i, width, bytesPerRow);
    var done := PackedRows(format, data, base, width, bytesPerRow);
    var current := RowRetained(format, data, base, j, width);
    if KeepColumn(format, j, width) {
      RetainedKept(format, data, i, width, bytesPerRow);
      RowRetainedKept(format, data, base, j, col, width);
      AppendAssoc(done, current, [data[i]]);
    } else {
      RetainedDropped(format, data, i, width, bytesPerRow);
      RowRetainedDropped(format, data, base, j, col, width);
    }
  }

  /** At a row boundary the finished row joins the packed rows. */
  lemma RetainedRowBoundary(format: CaptureFormat, data: seq<U8>, base: nat, width: nat, bytesPerRow: nat)
    requires bytesPerRow > 0 && 4 * width <= bytesPerRow && bytesPerRow <= base <= |data|
    requires Retained(format, data, 0, base - bytesPerRow + bytesPerRow, width, bytesPerRow)
      == PackedRows(format, data, base - bytesPerRow, width, bytesPerRow)
         + RowRetained(format, data, base - bytesPerRow, bytesPerRow, width)
    ensures Retained(format, data, 0, base + 0, width, bytesPerRow)
      == PackedRows(format, data, base, width, bytesPerRow) + RowRetained(format, data, base, 0, width)
  {
    var start := base - bytesPerRow;
    assert start + bytesPerRow == base + 0;
    RowRetainedFull(format, data, start, width, bytesPerRow);
    var packed := PackedRows(format, data, base, width, bytesPerRow);
    assert packed == PackedRows(format, data, start, width, bytesPerRow) + PackedRow(format, data, start, width);
    assert packed + [] == packed;
  }

  lemma RetainedKept(format: CaptureFormat, data: seq<U8>, i: nat, width: nat, bytesPerRow: nat)
    requires bytesPerRow > 0 && i < |data| && Keep(format, i, width, bytesPerRow)
    ensures Retained(format, data, 0, i + 1, width, bytesPerRow) == Retained(format, data, 0, i, width, bytesPerRow) + [data[i]]
  {
  }

  lemma RetainedDropped(format: CaptureFormat, data: seq<U8>, i: nat, width: nat, bytesPerRow: nat)
    requires bytesPerRow > 0 && i < |data| && !Keep(format, i, width, bytesPerRow)
    ensures Retained(format, data, 0, i + 1, width, bytesPerRow) == Retained(format, data, 0, i, width, bytesPerRow)
  {
  }

  /** Without row padding, packing an `Rgba8` frame changes nothing, which
      is why `convert_rgba` may skip the pass. */
  lemma {:induction false} PackedRowsUnpadded(data: seq<U8>, base: nat, width: nat, bytesPerRow: nat)
    requires 0 < bytesPerRow == width * 4 && base <= |data| && IsRowStart(base, bytesPerRow)
    ensures PackedRows(Rgba8, data, base, width, bytesPerRow) == data[..base]
    decreases base
  {
    if base > 0 {
      var start := base - bytesPerRow;
      assert start + 4 * width == base;
      PackedRowsUnpadded(data, start, width, bytesPerRow);
      PackedRowUnpadded(data, start, width);
      SliceSplit(data, 0, start, base);
      assert data[..base] == data[0 .. base] && data[..start] == data[0 .. start];
    }
  }

  lemma {:induction false} PackedRowUnpadded(data: seq<U8>, base: nat, pixels: nat)
    requires base + 4 * pixels <= |data|
    ensures PackedRow(Rgba8, data, base, pixels) == data[base .. base + 4 * pixels]
  {
    if pixels == 0 {
      EmptySlice(data, base);
    } else {
      var p := base + 4 * (pixels - 1);
      PackedRowUnpadded(data, base, pixels - 1);
      PackedRowLast(Rgba8, data, base, pixels, p);
      SliceAddPixel(data, base, p, base + 4 * pixels);
      AppendEqual(PackedRow(Rgba8, data, base, pixels - 1), data[base .. p], PixelBytes(Rgba8, data, p));
    }
  }

  lemma EmptySlice(data: seq<U8>, base: nat)
    requires base <= |data|
    ensures PackedRow(Rgba8, data, base, 0) == data[base .. base]
  {
  }

  lemma PackedRowLast(format: CaptureFormat, data: seq<U8>, base: nat, pixels: nat, p: nat)
    requires 0 < pixels && p == base + 4 * (pixels - 1) && base + 4 * pixels <= |data|
    ensures PackedRow(format, data, base, pixels) == PackedRow(format, data, base, pixels - 1) + PixelBytes(format, data, p)
  {
  }

  lemma SliceAddPixel(data: seq<U8>, base: nat, p: nat, q: nat)
    requires base <= p && q == p + 4 <= |data|
    ensures data[base .. q] == data[base .. p] + PixelBytes(Rgba8, data, p)
  {
    SliceSplit(data, base, p, q);
    SliceIsPixel(data, p, q);
  }

  lemma SliceSplit(data: seq<U8>, a: nat, b: nat, c: nat)
    requires a <= b <= c <= |data|
    ensures data[a .. c] == data[a .. b] + data[b .. c]
  {
  }

  lemma SliceIsPixel(data: seq<U8>, p: nat, q: nat)
    requires q == p + 4 <= |data|
    ensures data[p .. q] == PixelBytes(Rgba8, data, p)
  {
    var pixel := PixelBytes(Rgba8, data, p);
    assert forall k | 0 <= k < 4 :: data[p .. q][k] == pixel[k];
  }

  /** The packed size of `pixels` pixels: 3 bytes each for `Rgb8`, 4 for
      `Rgba8`. */
  function PackedLength(format: CaptureFormat, pixels: nat): nat
  {
    if format == Rgb8 then 3 * pixels else 4 * pixels
  }

  lemma MulPred(n: nat, m: nat)
    requires n > 0
    ensures n * m == (n - 1) * m + m
  {
  }

  /** A frame of `rows` packed rows holds `rows` times the packed size of
      `width` pixels. */
  lemma {:induction false} PackedRowsLength(format: CaptureFormat, data: seq<U8>, rows: nat, width: nat, bytesPerRow: nat)
    requires 0 < bytesPerRow && 4 * width <= bytesPerRow && rows * bytesPerRow <= |data|
    ensures |PackedRows(format, data, rows * bytesPerRow, width, bytesPerRow)| == rows * PackedLength(format, width)
  {
    if rows > 0 {
      MulPred(rows, bytesPerRow);
      MulPred(rows, PackedLength(format, width));
      PackedRowsLength(format, data, rows - 1, width, bytesPerRow);
    }
  }

  /** When the rows carry no padding, `Rgba8` keeps every byte, so the
      shortcut that skips the pass gives what the pass would. */
  lemma {:induction false} RgbaUnpaddedIsIdentity(data: seq<U8>, hi: nat, width: nat)
    requires width > 0 && hi <= |data|
    ensures Retained(Rgba8, data, 0, hi, width, width * 4) == data[..hi]
  {
    if hi > 0 {
      RgbaUnpaddedIsIdentity(data, hi - 1, width);
      assert data[..hi] == data[..hi - 1] + [data[hi - 1]];
    }
  }
}
