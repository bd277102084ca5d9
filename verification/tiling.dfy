/**
 The sizes `mnist2bmp` (mnist2bmp/mnist2bmp.cpp) derives from an IDX image
 header before its copy loop, and where that loop's reads and `memcpy`s land.

 `Plan` is the code's `uint32_t` arithmetic; `WellFormed` states the exact
 relations between the sizes, which hold whenever nothing wraps (`Fits`).
 */
module Tiling {
  import opened Machine
  import opened Arith
  import BmpHeader

  /** Lines 112-115: at least one image per bitmap row. */
  function ClampImagePerRow(imagePerRow: u32): (r: u32)
    ensures r >= 1
    ensures imagePerRow >= 1 ==> r == imagePerRow
  {
    if imagePerRow < 1 then 1 else imagePerRow
  }

  /** The sizes `mnist2bmp` derives before the copy loop. */
  datatype Layout = Layout(
    imageCount: u32, rowCount: u32, columnCount: u32, imagePerRow: u32,
    imageRows: u32, bmpWidth: u32, bmpHeight: u32, bmpBytesPerRow: u32,
    mnistBufferSize: u32, bmpBufferSize: u32)

  /** The computation of lines 112-129, every step in `uint32_t`. */
  function Plan(imageCount: u32, rowCount: u32, columnCount: u32, imagePerRow: u32): (r: Layout)
    ensures r.imageCount == imageCount && r.rowCount == rowCount && r.columnCount == columnCount
    ensures r.imagePerRow == ClampImagePerRow(imagePerRow)
    ensures r.bmpBytesPerRow % 4 == 0
    ensures imageCount == 0 ==> r.imageRows == 0
  {
    var perRow := ClampImagePerRow(imagePerRow);
    var imageRows := Div(Sub(Add(imageCount, perRow), 1), perRow);
    NoImageNoRows(perRow);
    var bmpWidth := Mul(columnCount, perRow);
    var bmpHeight := Mul(rowCount, imageRows);
    var header := BmpHeader.BmpFileHeader8(bmpWidth, bmpHeight);
    var bmpBytesPerRow := BmpHeader.GetBytesPerRow(header);
    Layout(imageCount, rowCount, columnCount, perRow, imageRows, bmpWidth, bmpHeight, bmpBytesPerRow,
           Mul(columnCount, rowCount), Mul(bmpBytesPerRow, rowCount))
  }

  /** With no images the row count `(0 + perRow - 1) / perRow` is zero. */
  lemma NoImageNoRows(perRow: u32)
    requires perRow >= 1
    ensures Div(Sub(Add(0, perRow), 1), perRow) == 0
  {
    var d := perRow - 1;
    assert Sub(Add(0, perRow), 1) == d;
    var q := d / perRow;
    assert q * perRow <= d;
    if q >= 1 {
      MulMonotone(1, q, perRow);
    }
  }

  /** The exact value of `(imageCount + imagePerRow - 1) / imagePerRow`. */
  function CeilRows(imageCount: nat, perRow: nat): nat
    requires perRow >= 1
  {
    (imageCount + perRow - 1) / perRow
  }

  /** The exact value of a padded 8-bit bitmap row. */
  function PaddedRow(width: nat): nat
  {
    (width + 3) / 4 * 4
  }

  /** Header and palette of an 8-bit bitmap: 14 + 40 + 1024 bytes. */
  const HeaderBytes8: nat := BmpHeader.FileHeaderSize + BmpHeader.InfoHeaderSize + BmpHeader.PaletteSize

  /**
   No `uint32_t` intermediate of the plan wraps, and the bitmap's size fits
   its `bfSize` field. The code checks none of this; past these bounds the
   buffers it allocates are smaller than the loop's writes.
   */
  predicate Fits(imageCount: u32, rowCount: u32, columnCount: u32, imagePerRow: u32)
  {
    var perRow := ClampImagePerRow(imagePerRow);
    var imageRows := CeilRows(imageCount, perRow);
    var bpr := PaddedRow(columnCount * perRow);
    && imageCount + perRow - 1 < Modulus
    && columnCount * perRow + 3 < Modulus
    && rowCount * imageRows < Modulus
    && columnCount * rowCount < Modulus
    && bpr * rowCount < Modulus
    && bpr * (rowCount * imageRows) + HeaderBytes8 < Modulus
  }

  // ---------------------------------------------------------------------
  // The layout when nothing wraps.

  /**
   The relations between the sizes when every one of them is exact:
   `imageRows` is the ceiling of `imageCount / imagePerRow`, the bitmap is
   `imagePerRow` images wide and `imageRows` images high, and its rows are
   padded to a multiple of four bytes.
   */
  predicate WellFormed(l: Layout)
  {
    && l.imagePerRow >= 1
    && Times(l.imageRows, l.imagePerRow) >= l.imageCount
    && (l.imageRows > 0 ==> Times(l.imageRows - 1, l.imagePerRow) < l.imageCount)
    && l.bmpWidth == Times(l.imagePerRow, l.columnCount)
    && l.bmpWidth + 3 < Modulus
    && l.bmpHeight == Times(l.imageRows, l.rowCount)
    && l.bmpBytesPerRow == PaddedRow(l.bmpWidth)
    && l.mnistBufferSize == Times(l.rowCount, l.columnCount)
    && l.bmpBufferSize == Times(l.rowCount, l.bmpBytesPerRow)
    && Times(l.bmpHeight, l.bmpBytesPerRow) + HeaderBytes8 < Modulus
  }

  /** `imageRows` is exactly the quotient the code computes, rounded up. */
  lemma ImageRowsIsCeiling(l: Layout)
    requires WellFormed(l)
    ensures l.imageRows == CeilRows(l.imageCount, l.imagePerRow)
    ensures l.imageCount == 0 <==> l.imageRows == 0
  {
    TimesIsProduct(l.imageRows, l.imagePerRow);
    if l.imageRows > 0 {
      TimesIsProduct(l.imageRows - 1, l.imagePerRow);
    }
    CeilingUnique(l.imageCount, l.imagePerRow, l.imageRows);
  }

  lemma PaddedRowAgrees(width: u32)
    requires width + 3 < Modulus
    ensures BmpHeader.BytesPerRow(width, 1) == PaddedRow(width)
    ensures width <= PaddedRow(width) < width + 4
  {
    assert Mul(width, 1) == width;
    BmpHeader.PadToFour(width);
  }

  lemma PlanCeiling(imageCount: u32, perRow: u32)
    requires perRow >= 1 && imageCount + perRow - 1 < Modulus
    ensures Div(Sub(Add(imageCount, perRow), 1), perRow) == CeilRows(imageCount, perRow)
    ensures Times(CeilRows(imageCount, perRow), perRow) >= imageCount
    ensures CeilRows(imageCount, perRow) > 0 ==> Times(CeilRows(imageCount, perRow) - 1, perRow) < imageCount
  {
    var q := CeilRows(imageCount, perRow);
    CeilingDiv(imageCount, perRow);
    TimesIsProduct(q, perRow);
    if q > 0 {
      TimesIsProduct(q - 1, perRow);
    }
  }

  /** A product the code computes in `uint32_t` is exact and equals `Times`. */
  lemma ExactProduct(a: u32, b: u32)
    requires a * b < Modulus
    ensures Mul(a, b) == Times(a, b) == Times(b, a) == a * b
  {
    MulExact(a, b);
    TimesIsProduct(a, b);
    TimesIsProduct(b, a);
  }

  /** Without wrap-around the plan computes the exact sizes. */
  lemma PlanExact(imageCount: u32, rowCount: u32, columnCount: u32, imagePerRow: u32)
    requires Fits(imageCount, rowCount, columnCount, imagePerRow)
    ensures WellFormed(Plan(imageCount, rowCount, columnCount, imagePerRow))
    ensures Plan(imageCount, rowCount, columnCount, imagePerRow).imagePerRow == ClampImagePerRow(imagePerRow)
  {
    var perRow := ClampImagePerRow(imagePerRow);
    var l := Plan(imageCount, rowCount, columnCount, imagePerRow);
    PlanCeiling(imageCount, perRow);
    ExactProduct(columnCount, perRow);
    ExactProduct(rowCount, l.imageRows);
    ExactProduct(columnCount, rowCount);
    BmpHeader.GetBytesPerRowAgrees(l.bmpWidth, l.bmpHeight);
    PaddedRowAgrees(l.bmpWidth);
    ExactProduct(l.bmpBytesPerRow, rowCount);
    ExactProduct(l.bmpBytesPerRow, l.bmpHeight);
  }

  // ---------------------------------------------------------------------
  // The plan when a size wraps. The code checks for none of these.

  /**
   When only the total file size wraps, the file the band loop writes (the
   header, then `imageRows` bands of `bmpBufferSize` bytes) is `bfSize`
   bytes long modulo 2^32 and no longer exactly.
   */
  lemma FileSizeModulo(imageCount: u32, rowCount: u32, columnCount: u32, imagePerRow: u32)
    requires imageCount + ClampImagePerRow(imagePerRow) - 1 < Modulus
    requires columnCount * ClampImagePerRow(imagePerRow) + 3 < Modulus
    requires rowCount * CeilRows(imageCount, ClampImagePerRow(imagePerRow)) < Modulus
    requires PaddedRow(columnCount * ClampImagePerRow(imagePerRow)) * rowCount < Modulus
    ensures var l := Plan(imageCount, rowCount, columnCount, imagePerRow);
            (HeaderBytes8 + l.imageRows * l.bmpBufferSize) % Modulus
              == BmpHeader.BmpFileHeader8(l.bmpWidth, l.bmpHeight).bfSize
  {
    var perRow := ClampImagePerRow(imagePerRow);
    var l := Plan(imageCount, rowCount, columnCount, imagePerRow);
    PlanCeiling(imageCount, perRow);
    ExactProduct(columnCount, perRow);
    ExactProduct(rowCount, l.imageRows);
    BmpHeader.GetBytesPerRowAgrees(l.bmpWidth, l.bmpHeight);
    PaddedRowAgrees(l.bmpWidth);
    ExactProduct(l.bmpBytesPerRow, rowCount);
    var total := l.bmpBytesPerRow * l.bmpHeight;
    ProductRegroup(l.imageRows, l.bmpBytesPerRow, rowCount);
    assert l.imageRows * l.bmpBufferSize == total;
    var h := BmpHeader.BmpFileHeader8(l.bmpWidth, l.bmpHeight);
    assert h.biSizeImage == total % Modulus;
    ModShift(HeaderBytes8 + total % Modulus, total / Modulus);
  }

  lemma ProductRegroup(a: int, b: int, c: int)
    ensures a * (b * c) == b * (c * a)
  {
  }

  /**
   `imageCount + imagePerRow - 1` wraps: 0xFFFFFFF0 images at 100 per row
   give no band at all, so the bitmap is a header with no pixels and every
   image is dropped.
   */
  lemma ImageCountWrapDropsImages()
    ensures !Fits(0xFFFF_FFF0, 28, 28, 100)
    ensures Plan(0xFFFF_FFF0, 28, 28, 100).imageRows == 0
    ensures Plan(0xFFFF_FFF0, 28, 28, 100).bmpHeight == 0
  {
  }

  /**
   `rowCount * imageRows` wraps: 0x10000 images of 0x10000 rows, one per
   bitmap row, give a bitmap height of 0, so the header announces no pixel
   bytes while the loop writes 0x10000 bands of 0x40000 bytes.
   */
  lemma HeightWrapMisstatesSize()
    ensures !Fits(0x1_0000, 0x1_0000, 1, 1)
    ensures var l := Plan(0x1_0000, 0x1_0000, 1, 1);
            && l.imageRows == 0x1_0000 && l.bmpHeight == 0 && l.bmpBufferSize == 0x4_0000
            && BmpHeader.BmpFileHeader8(l.bmpWidth, l.bmpHeight).biSizeImage == 0
            && BmpHeader.BmpFileHeader8(l.bmpWidth, l.bmpHeight).bfSize == HeaderBytes8
  {
  }

  /**
   `bfSize` wraps: 6,000,000 images of 28 by 28 at 1000 per row make a
   bitmap of 4,704,000,000 pixel bytes, more than `bfSize` and
   `biSizeImage` can hold; `bfSize` ends up at 409,033,782.
   */
  lemma FileSizeWrapMisstatesSize()
    ensures !Fits(6_000_000, 28, 28, 1000)
    ensures var l := Plan(6_000_000, 28, 28, 1000);
            && l.imageRows == 6000 && l.bmpBufferSize == 784_000
            && HeaderBytes8 + l.imageRows * l.bmpBufferSize == 4_704_001_078
            && BmpHeader.BmpFileHeader8(l.bmpWidth, l.bmpHeight).bfSize == 409_033_782
  {
    FileSizeModulo(6_000_000, 28, 28, 1000);
  }

  /** Slot `j` of the `k`-th bitmap row of a band: the destination of one `memcpy`. */
  function SlotOffset(l: Layout, j: nat, k: nat): nat
  {
    Times(k, l.bmpBytesPerRow) + Times(j, l.columnCount)
  }

  /** The first `n <= imagePerRow` slots of a bitmap row fit inside it. */
  lemma SlotFitsRow(l: Layout, n: nat)
    requires WellFormed(l) && n <= l.imagePerRow
    ensures Times(n, l.columnCount) <= l.bmpBytesPerRow
  {
    TimesMonotone(n, l.imagePerRow, l.columnCount);
  }

  /** Every `memcpy` of the copy loop stays inside its bitmap row and the band buffer. */
  lemma MemcpyInBounds(l: Layout, j: nat, k: nat)
    requires WellFormed(l)
    requires j < l.imagePerRow && k < l.rowCount
    ensures Times(j, l.columnCount) + l.columnCount <= l.bmpBytesPerRow
    ensures SlotOffset(l, j, k) + l.columnCount <= l.bmpBufferSize
  {
    TimesSucc(j, l.columnCount);
    SlotFitsRow(l, j + 1);
    TimesSucc(k, l.bmpBytesPerRow);
    TimesMonotone(k + 1, l.rowCount, l.bmpBytesPerRow);
  }

  /** Each row `k` of an image lies inside `mnistBuffer`. */
  lemma RowInImage(l: Layout, k: nat)
    requires WellFormed(l) && k < l.rowCount
    ensures Times(k, l.columnCount) + l.columnCount <= l.mnistBufferSize
  {
    TimesSucc(k, l.columnCount);
    TimesMonotone(k + 1, l.rowCount, l.columnCount);
  }

  /** The bytes the band loop writes add up to `biSizeImage`, and with the header to `bfSize`. */
  lemma PixelBytesMatchHeader(l: Layout)
    requires WellFormed(l)
    ensures l.imageRows * l.bmpBufferSize == BmpHeader.BmpFileHeader8(l.bmpWidth, l.bmpHeight).biSizeImage
    ensures |BmpHeader.Serialize(BmpHeader.BmpFileHeader8(l.bmpWidth, l.bmpHeight))| + l.imageRows * l.bmpBufferSize
         == BmpHeader.BmpFileHeader8(l.bmpWidth, l.bmpHeight).bfSize
  {
    var header := BmpHeader.BmpFileHeader8(l.bmpWidth, l.bmpHeight);
    var pixelBytes := SizeImageExact(l);
    assert |BmpHeader.Serialize(header)| == HeaderBytes8;
    assert header.bfSize == HeaderBytes8 + pixelBytes;
  }

  /** `biSizeImage` is the padded row times the bitmap height, without wrap-around. */
  lemma SizeImageExact(l: Layout) returns (pixelBytes: nat)
    requires WellFormed(l)
    ensures pixelBytes == l.imageRows * l.bmpBufferSize
    ensures pixelBytes == BmpHeader.BmpFileHeader8(l.bmpWidth, l.bmpHeight).biSizeImage
    ensures pixelBytes + HeaderBytes8 < Modulus
  {
    var bpr, rows, irs := l.bmpBytesPerRow, l.rowCount, l.imageRows;
    PaddedRowAgrees(l.bmpWidth);
    TimesIsProduct(l.bmpHeight, bpr);
    TimesIsProduct(rows, bpr);
    TimesIsProduct(irs, rows);
    MulExact(bpr, l.bmpHeight);
    MulRegroup(irs, rows, bpr);
    pixelBytes := irs * l.bmpBufferSize;
  }

  /** Slot `j` of band `i` is a slot of the plan. */
  lemma SlotBelowPlan(l: Layout, i: nat, j: nat)
    requires WellFormed(l) && i < l.imageRows && j < l.imagePerRow
    ensures Times(i, l.imagePerRow) + j < Times(l.imageRows, l.imagePerRow)
  {
    TimesSucc(i, l.imagePerRow);
    TimesMonotone(i + 1, l.imageRows, l.imagePerRow);
  }

  /** Every band begins at a slot that holds an image. */
  lemma BandStart(l: Layout, i: nat)
    requires WellFormed(l) && i < l.imageRows
    ensures Times(i, l.imagePerRow) < l.imageCount
  {
    TimesMonotone(i, l.imageRows - 1, l.imagePerRow);
  }
}
