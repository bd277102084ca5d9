/**
 The `mnist2bmp` function of mnist2bmp/mnist2bmp.cpp: tiling the images of an
 IDX file into one 8-bit grey bitmap, `imagePerRow` images side by side.

 The bitmap is produced one band at a time. A band is `rowCount` bitmap rows,
 i.e. one row of images. The code clears a band buffer, reads each slot's
 image into `mnistBuffer`, copies its rows into the slot with `memcpy`, and
 writes the band out. The model keeps that loop and proves that it produces
 a reference bitmap defined directly from the images: bitmap row `k` of a
 band is row `k` of each of the band's images, left to right, then zero
 padding.

 The copy loop leaves a band once the slot index `i * imagePerRow + j`
 exceeds `imageCount`. That test lets the loop read one slot past the last
 image. `Guard` selects between the code as written and the evidently
 intended `>=`.
 */
module Mnist2Bmp {
  import opened Machine
  import opened Arith
  import opened Tiling
  import Idx
  import BmpHeader
  import Raster

  /** The copy loop's stopping test: `>` as written, or `>=` as intended. */
  datatype Guard = AsWritten | Intended

  /** The copy loop's test `i * imagePerRow + j > imageCount` (or `>=`): true when it breaks before slot `slot`. */
  predicate Breaks(guard: Guard, slot: nat, imageCount: nat): (b: bool)
    ensures slot < imageCount ==> !b
    ensures slot > imageCount ==> b
    ensures slot == imageCount ==> (b <==> guard.Intended?)
  {
    match guard
    case AsWritten => slot > imageCount
    case Intended => slot >= imageCount
  }

  /** The first slot a guard refuses. */
  function ReadLimit(guard: Guard, imageCount: nat): (r: nat)
    ensures imageCount <= r <= imageCount + 1
  {
    match guard
    case AsWritten => imageCount + 1
    case Intended => imageCount
  }

  /** Whether the loop reads image slot `slot`: the slot is below the guard's limit. */
  predicate SlotIsRead(guard: Guard, slot: nat, imageCount: nat)
  {
    slot < ReadLimit(guard, imageCount)
  }

  /** The loop breaks before a slot exactly when the slot is not read. */
  lemma BreaksUnlessRead(guard: Guard, slot: nat, imageCount: nat)
    ensures Breaks(guard, slot, imageCount) <==> !SlotIsRead(guard, slot, imageCount)
  {
  }

  // ---------------------------------------------------------------------
  // How many images the loop reads.

  function Min(a: nat, b: nat): nat
  {
    if a <= b then a else b
  }

  /** The number of `mnistFile.read` calls the copy loop makes. */
  function SlotsRead(l: Layout, guard: Guard): nat
  {
    Min(Times(l.imageRows, l.imagePerRow), ReadLimit(guard, l.imageCount))
  }

  /**
   As written, the loop reads one image more than the header announces
   whenever the last band is not full.
   */
  lemma ExtraReadAsWritten(l: Layout)
    requires WellFormed(l)
    ensures l.imageCount % l.imagePerRow != 0 ==> SlotsRead(l, AsWritten) == l.imageCount + 1
    ensures l.imageCount % l.imagePerRow == 0 ==> SlotsRead(l, AsWritten) == l.imageCount
  {
    ImageRowsIsCeiling(l);
    CeilingDiv(l.imageCount, l.imagePerRow);
    TimesIsProduct(l.imageRows, l.imagePerRow);
  }

  /** With the `>=` guard the loop reads each image exactly once. */
  lemma SlotsReadIntended(l: Layout)
    requires WellFormed(l)
    ensures SlotsRead(l, Intended) == l.imageCount
  {
  }


  // ---------------------------------------------------------------------
  // The reference bitmap.

  /**
   The pixel stream (the file after its 16 header bytes) holds every image
   the header announces. The code does not check how much a read delivered.
   */
  predicate Readable(l: Layout, src: seq<bv8>)
  {
    WellFormed(l) && Times(l.imageCount, l.mnistBufferSize) <= |src|
  }

  /** A slot that holds an image lies inside the stream. */
  lemma ImageInStream(l: Layout, src: seq<bv8>, slot: nat)
    requires Readable(l, src) && slot < l.imageCount
    ensures Times(slot, l.mnistBufferSize) + l.mnistBufferSize <= |src|
  {
    TimesSucc(slot, l.mnistBufferSize);
    TimesMonotone(slot + 1, l.imageCount, l.mnistBufferSize);
  }

  /** Image `n` of the stream. */
  function StreamImage(l: Layout, src: seq<bv8>, n: nat): (r: seq<bv8>)
    requires Readable(l, src) && n < l.imageCount
    ensures |r| == l.mnistBufferSize
  {
    ImageInStream(l, src, n);
    src[Times(n, l.mnistBufferSize) .. Times(n, l.mnistBufferSize) + l.mnistBufferSize]
  }

  /** A slot past the last image exists only when there is a last image. */
  lemma ExtraSlotFollowsImage(l: Layout, guard: Guard, slot: nat)
    requires WellFormed(l) && slot < SlotsRead(l, guard) && slot >= l.imageCount
    ensures slot == l.imageCount > 0
  {
    ImageRowsIsCeiling(l);
  }

  /**
   What `mnistBuffer` holds after the read for slot `slot`: image `slot` of
   the stream while images remain. Past them (only the as-written guard gets
   there, and only one slot far) the read delivers whatever bytes follow the
   last image, possibly none, and the rest of the buffer keeps the last
   image, which the previous read left there.
   */
  function SlotImage(l: Layout, guard: Guard, src: seq<bv8>, slot: nat): (r: seq<bv8>)
    requires Readable(l, src) && slot < SlotsRead(l, guard)
    ensures |r| == l.mnistBufferSize
  {
    var size := l.mnistBufferSize;
    if slot < l.imageCount then
      StreamImage(l, src, slot)
    else
      ExtraSlotFollowsImage(l, guard, slot);
      var start := Times(l.imageCount, size);
      var delivered := Min(size, |src| - start);
      src[start .. start + delivered] + StreamImage(l, src, l.imageCount - 1)[delivered..]
  }

  /** Row `k` of the image the loop holds for slot `slot`. */
  function ImageRow(l: Layout, guard: Guard, src: seq<bv8>, slot: nat, k: nat): (r: seq<bv8>)
    requires Readable(l, src) && slot < SlotsRead(l, guard) && k < l.rowCount
    ensures |r| == l.columnCount
  {
    RowInImage(l, k);
    SlotImage(l, guard, src, slot)[Times(k, l.columnCount) .. Times(k, l.columnCount) + l.columnCount]
  }

  /** Slot `j` of bitmap row `k` in band `i`: that slot's image row, or zeros if the loop broke before it. */
  function Cell(l: Layout, guard: Guard, src: seq<bv8>, i: nat, j: nat, k: nat): (r: seq<bv8>)
    requires Readable(l, src)
    requires i < l.imageRows && j < l.imagePerRow && k < l.rowCount
    ensures |r| == l.columnCount
  {
    var slot := Times(i, l.imagePerRow) + j;
    if SlotIsRead(guard, slot, l.imageCount) then
      SlotBelowPlan(l, i, j);
      ImageRow(l, guard, src, slot, k)
    else
      Raster.Zeros(l.columnCount)
  }

  /** The slots of bitmap row `k` in band `i`, left to right. */
  function RowCells(l: Layout, guard: Guard, src: seq<bv8>, i: nat, k: nat): (r: seq<seq<bv8>>)
    requires Readable(l, src)
    requires i < l.imageRows && k < l.rowCount
    ensures |r| == l.imagePerRow && Raster.Uniform(r, l.columnCount)
  {
    seq(l.imagePerRow, j requires 0 <= j < l.imagePerRow => Cell(l, guard, src, i, j, k))
  }

  /** Bitmap row `k` of band `i`: every slot, then the padding to a multiple of four bytes. */
  function BitmapRow(l: Layout, guard: Guard, src: seq<bv8>, i: nat, k: nat): (r: seq<bv8>)
    requires Readable(l, src)
    requires i < l.imageRows && k < l.rowCount
    ensures |r| == l.bmpBytesPerRow
  {
    Raster.FlattenLength(RowCells(l, guard, src, i, k), l.columnCount);
    Raster.Flatten(RowCells(l, guard, src, i, k)) + Raster.Zeros(l.bmpBytesPerRow - l.bmpWidth)
  }

  /** The bitmap rows of band `i`, top to bottom. */
  function BitmapRows(l: Layout, guard: Guard, src: seq<bv8>, i: nat): (r: seq<seq<bv8>>)
    requires Readable(l, src)
    requires i < l.imageRows
    ensures |r| == l.rowCount && Raster.Uniform(r, l.bmpBytesPerRow)
  {
    seq(l.rowCount, k requires 0 <= k < l.rowCount => BitmapRow(l, guard, src, i, k))
  }

  /** The first `n` bitmap rows of band `i`, laid end to end. */
  function BandRows(l: Layout, guard: Guard, src: seq<bv8>, i: nat, n: nat): (r: seq<bv8>)
    requires Readable(l, src)
    requires i < l.imageRows && n <= l.rowCount
    ensures |r| == Times(n, l.bmpBytesPerRow)
  {
    var rows := BitmapRows(l, guard, src, i)[..n];
    Raster.FlattenLength(rows, l.bmpBytesPerRow);
    Raster.Flatten(rows)
  }

  /** The first `n + 1` bitmap rows are the first `n` followed by row `n`. */
  lemma BandRowsSnoc(l: Layout, guard: Guard, src: seq<bv8>, i: nat, n: nat)
    requires Readable(l, src)
    requires i < l.imageRows && n < l.rowCount
    ensures BandRows(l, guard, src, i, n + 1) == BandRows(l, guard, src, i, n) + BitmapRow(l, guard, src, i, n)
  {
    Raster.FlattenSnoc(BitmapRows(l, guard, src, i), n);
  }

  /** Band `i`: one row of images, as the band buffer holds it. */
  function Band(l: Layout, guard: Guard, src: seq<bv8>, i: nat): (r: seq<bv8>)
    requires Readable(l, src)
    requires i < l.imageRows
    ensures |r| == l.bmpBufferSize
  {
    BandRows(l, guard, src, i, l.rowCount)
  }

  /** The bands of the bitmap, one per row of images. */
  function BandSeq(l: Layout, guard: Guard, src: seq<bv8>): (r: seq<seq<bv8>>)
    requires Readable(l, src)
    ensures |r| == l.imageRows && Raster.Uniform(r, l.bmpBufferSize)
  {
    seq(l.imageRows, i requires 0 <= i < l.imageRows => Band(l, guard, src, i))
  }

  /** The first `n` bands, laid end to end. */
  function Bands(l: Layout, guard: Guard, src: seq<bv8>, n: nat): (r: seq<bv8>)
    requires Readable(l, src)
    requires n <= l.imageRows
    ensures |r| == Times(n, l.bmpBufferSize)
  {
    var bands := BandSeq(l, guard, src)[..n];
    Raster.FlattenLength(bands, l.bmpBufferSize);
    Raster.Flatten(bands)
  }

  /** The first `n + 1` bands are the first `n` followed by band `n`. */
  lemma BandsSnoc(l: Layout, guard: Guard, src: seq<bv8>, n: nat)
    requires Readable(l, src)
    requires n < l.imageRows
    ensures Bands(l, guard, src, n + 1) == Bands(l, guard, src, n) + Band(l, guard, src, n)
  {
    Raster.FlattenSnoc(BandSeq(l, guard, src), n);
  }

  /** The pixel section of the bitmap: all bands. */
  function Bitmap(l: Layout, guard: Guard, src: seq<bv8>): seq<bv8>
    requires Readable(l, src)
  {
    Bands(l, guard, src, l.imageRows)
  }

  // ---------------------------------------------------------------------
  // The band buffer as a raster of image rows.

  /** The cells of band `i`: `CellGrid(...)[k][j]` is slot `j` of bitmap row `k`. */
  function CellGrid(l: Layout, guard: Guard, src: seq<bv8>, i: nat): seq<seq<seq<bv8>>>
    requires Readable(l, src)
    requires i < l.imageRows
  {
    seq(l.rowCount, k requires 0 <= k < l.rowCount => RowCells(l, guard, src, i, k))
  }

  /** Band `i` is a raster of `imagePerRow` cells of `columnCount` bytes per row, in rows of `bmpBytesPerRow`. */
  lemma GridShape(l: Layout, guard: Guard, src: seq<bv8>, i: nat)
    requires Readable(l, src) && i < l.imageRows
    ensures |CellGrid(l, guard, src, i)| == l.rowCount
    ensures Raster.Grid(CellGrid(l, guard, src, i), l.imagePerRow, l.columnCount)
    ensures Times(l.imagePerRow, l.columnCount) <= l.bmpBytesPerRow
  {
  }

  /** A slot the loop reads shows row `k` of the image in the buffer. */
  lemma CellIsImageRow(l: Layout, guard: Guard, src: seq<bv8>, i: nat, j: nat, k: nat)
    requires Readable(l, src)
    requires i < l.imageRows && j < l.imagePerRow && k < l.rowCount
    requires Times(i, l.imagePerRow) + j < SlotsRead(l, guard)
    ensures Times(k, l.columnCount) + l.columnCount <= l.mnistBufferSize
    ensures Cell(l, guard, src, i, j, k)
         == SlotImage(l, guard, src, Times(i, l.imagePerRow) + j)[Times(k, l.columnCount) .. Times(k, l.columnCount) + l.columnCount]
  {
    RowInImage(l, k);
  }

  /** The image read for slot `j` of band `i` is column `j` of the band's raster. */
  lemma SlotColumn(l: Layout, guard: Guard, src: seq<bv8>, i: nat, j: nat)
    requires Readable(l, src)
    requires i < l.imageRows && j < l.imagePerRow
    requires Times(i, l.imagePerRow) + j < SlotsRead(l, guard)
    ensures Raster.Rect(CellGrid(l, guard, src, i), l.imagePerRow)
    ensures Raster.ColumnOf(CellGrid(l, guard, src, i), l.imagePerRow, j,
                            SlotImage(l, guard, src, Times(i, l.imagePerRow) + j), l.columnCount)
  {
    var cells := CellGrid(l, guard, src, i);
    forall k | 0 <= k < |cells|
      ensures Times(k, l.columnCount) + l.columnCount <= l.mnistBufferSize
      ensures cells[k][j] == SlotImage(l, guard, src, Times(i, l.imagePerRow) + j)[Times(k, l.columnCount) .. Times(k, l.columnCount) + l.columnCount]
    {
      CellIsImageRow(l, guard, src, i, j, k);
    }
  }

  /** Slot `j` of band `i`, if the loop reads it, is column `j` of `cells`, row by row. */
  predicate SlotInColumn(l: Layout, guard: Guard, src: seq<bv8>, i: nat, cells: seq<seq<seq<bv8>>>, j: nat)
    requires Readable(l, src) && Raster.Rect(cells, l.imagePerRow) && j < l.imagePerRow
  {
    Times(i, l.imagePerRow) + j < SlotsRead(l, guard) ==>
      Raster.ColumnOf(cells, l.imagePerRow, j, SlotImage(l, guard, src, Times(i, l.imagePerRow) + j), l.columnCount)
  }

  /**
   What the copy loop relies on about band `i`'s raster `cells`: its shape,
   and that each slot the loop reads is one of its columns.
   */
  predicate BandGrid(l: Layout, guard: Guard, src: seq<bv8>, i: nat, cells: seq<seq<seq<bv8>>>)
    requires Readable(l, src)
  {
    && |cells| == l.rowCount
    && Raster.Grid(cells, l.imagePerRow, l.columnCount)
    && Times(l.imagePerRow, l.columnCount) <= l.bmpBytesPerRow
    && forall j :: 0 <= j < l.imagePerRow ==> SlotInColumn(l, guard, src, i, cells, j)
  }

  lemma CellGridIsBandGrid(l: Layout, guard: Guard, src: seq<bv8>, i: nat)
    requires Readable(l, src) && i < l.imageRows
    ensures BandGrid(l, guard, src, i, CellGrid(l, guard, src, i))
  {
    GridShape(l, guard, src, i);
    forall j | 0 <= j < l.imagePerRow
      ensures SlotInColumn(l, guard, src, i, CellGrid(l, guard, src, i), j)
    {
      if Times(i, l.imagePerRow) + j < SlotsRead(l, guard) {
        SlotColumn(l, guard, src, i, j);
      }
    }
  }

  /** Every row of the fully drawn raster is the reference bitmap row. */
  lemma {:induction false} RasterRowsAreBand(l: Layout, guard: Guard, src: seq<bv8>, i: nat, n: nat)
    requires Readable(l, src) && i < l.imageRows && n <= l.rowCount
    ensures Raster.Rect(CellGrid(l, guard, src, i), l.imagePerRow)
    ensures Raster.Rows(CellGrid(l, guard, src, i), l.imagePerRow, l.imagePerRow, l.bmpBytesPerRow, 0, n)
         == BandRows(l, guard, src, i, n)
    decreases n
  {
    if n > 0 {
      RasterRowsAreBand(l, guard, src, i, n - 1);
      BandRowsSnoc(l, guard, src, i, n - 1);
      var row := RowCells(l, guard, src, i, n - 1);
      assert CellGrid(l, guard, src, i)[n - 1] == row;
      assert row[..l.imagePerRow] == row;
      Raster.FlattenLength(row, l.columnCount);
    }
  }

  /** Past the first slot the loop does not read, every cell of the band is blank. */
  lemma CellsUnread(l: Layout, guard: Guard, src: seq<bv8>, i: nat, j: nat)
    requires Readable(l, src) && i < l.imageRows && j <= l.imagePerRow
    requires Times(i, l.imagePerRow) + j >= ReadLimit(guard, l.imageCount)
    ensures Raster.Rect(CellGrid(l, guard, src, i), l.imagePerRow)
    ensures forall r, c :: 0 <= r < l.rowCount && j <= c < l.imagePerRow ==>
      CellGrid(l, guard, src, i)[r][c] == Raster.Zeros(l.columnCount)
  {
  }

  /** When the copy loop leaves a band at slot `j`, the band buffer is the reference band. */
  lemma FinishBand(l: Layout, guard: Guard, src: seq<bv8>, i: nat, j: nat)
    requires Readable(l, src)
    requires i < l.imageRows && j <= l.imagePerRow
    requires j < l.imagePerRow ==> Times(i, l.imagePerRow) + j >= ReadLimit(guard, l.imageCount)
    ensures Raster.Rect(CellGrid(l, guard, src, i), l.imagePerRow)
    ensures Raster.Filled(CellGrid(l, guard, src, i), l.imagePerRow, j, l.bmpBytesPerRow) == Band(l, guard, src, i)
  {
    var cells := CellGrid(l, guard, src, i);
    GridShape(l, guard, src, i);
    if j < l.imagePerRow {
      CellsUnread(l, guard, src, i, j);
      Raster.FilledBlank(cells, l.imagePerRow, l.columnCount, j, l.bmpBytesPerRow);
    }
    RasterRowsAreBand(l, guard, src, i, l.rowCount);
  }

  // ---------------------------------------------------------------------
  // The loops.

  /**
   The stream after the loop has made `n` reads: `mnistBuffer` holds what
   the last read left in it, and while images remain the stream stands at
   the start of image `n`.
   */
  predicate AfterReads(l: Layout, guard: Guard, src: seq<bv8>, n: nat, buffer: seq<bv8>, pos: nat)
    requires Readable(l, src)
  {
    && n <= SlotsRead(l, guard)
    && |buffer| == l.mnistBufferSize
    && (n <= l.imageCount ==> pos == Times(n, l.mnistBufferSize))
    && (n > 0 ==> buffer == SlotImage(l, guard, src, n - 1))
  }

  /**
   `mnistFile.read(mnistBuffer, mnistBufferSize)` for slot `slot`: copies
   what the stream still holds, at most a buffer's worth, over the front of
   the buffer and advances the stream past it.
   */
  method ReadImage(l: Layout, guard: Guard, src: seq<bv8>, slot: nat, buffer: seq<bv8>, pos: nat)
    returns (buffer': seq<bv8>, pos': nat)
    requires Readable(l, src) && slot < SlotsRead(l, guard)
    requires AfterReads(l, guard, src, slot, buffer, pos)
    ensures AfterReads(l, guard, src, slot + 1, buffer', pos')
    ensures buffer' == SlotImage(l, guard, src, slot)
  {
    var size := l.mnistBufferSize;
    if slot < l.imageCount {
      ImageInStream(l, src, slot);
    } else {
      TimesMonotone(l.imageCount, slot, size);
    }
    var delivered := Min(size, |src| - pos);
    buffer' := src[pos .. pos + delivered] + buffer[delivered..];
    pos' := pos + delivered;
    TimesSucc(slot, size);
  }

  /**
   One pass of the slot loop that the guard lets through (lines 141-145):
   read the next image, then `memcpy` each of its rows into slot `j`.
   */
  method FillSlot(l: Layout, guard: Guard, src: seq<bv8>, i: nat, j: nat, ghost cells: seq<seq<seq<bv8>>>,
                  buffer: seq<bv8>, pos: nat, band: seq<bv8>)
    returns (buffer': seq<bv8>, pos': nat, band': seq<bv8>)
    requires Readable(l, src) && i < l.imageRows && j < l.imagePerRow
    requires !Breaks(guard, Times(i, l.imagePerRow) + j, l.imageCount)
    requires AfterReads(l, guard, src, Times(i, l.imagePerRow) + j, buffer, pos)
    requires BandGrid(l, guard, src, i, cells)
    requires band == Raster.Filled(cells, l.imagePerRow, j, l.bmpBytesPerRow)
    ensures AfterReads(l, guard, src, Times(i, l.imagePerRow) + j + 1, buffer', pos')
    ensures band' == Raster.Filled(cells, l.imagePerRow, j + 1, l.bmpBytesPerRow)
  {
    var slot := Times(i, l.imagePerRow) + j;
    BreaksUnlessRead(guard, slot, l.imageCount);
    SlotBelowPlan(l, i, j);
    buffer', pos' := ReadImage(l, guard, src, slot, buffer, pos);
    assert SlotInColumn(l, guard, src, i, cells, j);
    band' := Raster.DrawColumn(cells, l.imagePerRow, l.rowCount, l.columnCount, l.bmpBytesPerRow, j, buffer', band);
  }

  /**
   The slot loop of one band (lines 135-146): for each slot until the guard
   breaks, read the next image and copy its rows into the slot. Returns the
   slot at which the loop stopped.
   */
  method FillSlots(l: Layout, guard: Guard, src: seq<bv8>, i: nat, ghost cells: seq<seq<seq<bv8>>>,
                   buffer: seq<bv8>, pos: nat, band: seq<bv8>)
    returns (j: nat, buffer': seq<bv8>, pos': nat, band': seq<bv8>)
    requires Readable(l, src) && i < l.imageRows
    requires AfterReads(l, guard, src, Times(i, l.imagePerRow), buffer, pos)
    requires BandGrid(l, guard, src, i, cells)
    requires band == Raster.Filled(cells, l.imagePerRow, 0, l.bmpBytesPerRow)
    ensures j <= l.imagePerRow
    ensures j < l.imagePerRow ==> Breaks(guard, Times(i, l.imagePerRow) + j, l.imageCount)
    ensures AfterReads(l, guard, src, Times(i, l.imagePerRow) + j, buffer', pos')
    ensures band' == Raster.Filled(cells, l.imagePerRow, j, l.bmpBytesPerRow)
  {
    buffer', pos', band' := buffer, pos, band;
    var start := Times(i, l.imagePerRow);
    j := 0;
    while j < l.imagePerRow && !Breaks(guard, start + j, l.imageCount)
      invariant j <= l.imagePerRow
      invariant AfterReads(l, guard, src, start + j, buffer', pos')
      invariant band' == Raster.Filled(cells, l.imagePerRow, j, l.bmpBytesPerRow)
    {
      buffer', pos', band' := FillSlot(l, guard, src, i, j, cells, buffer', pos', band');
      j := j + 1;
    }
  }

  /**
   One band (lines 133-147): clear the buffer with `memset`, then run the
   slot loop. Returns the band and the number of reads made so far.
   */
  method RenderBand(l: Layout, guard: Guard, src: seq<bv8>, i: nat, buffer: seq<bv8>, pos: nat)
    returns (band: seq<bv8>, buffer': seq<bv8>, pos': nat, imagesRead: nat)
    requires Readable(l, src) && i < l.imageRows
    requires AfterReads(l, guard, src, Times(i, l.imagePerRow), buffer, pos)
    ensures imagesRead == Min(Times(i + 1, l.imagePerRow), ReadLimit(guard, l.imageCount))
    ensures AfterReads(l, guard, src, imagesRead, buffer', pos')
    ensures band == Band(l, guard, src, i)
  {
    ghost var cells := CellGrid(l, guard, src, i);
    CellGridIsBandGrid(l, guard, src, i);
    BandStart(l, i);
    band := Raster.Zeros(l.bmpBufferSize);
    Raster.FilledClear(cells, l.imagePerRow, l.bmpBytesPerRow);
    var j;
    j, buffer', pos', band := FillSlots(l, guard, src, i, cells, buffer, pos, band);
    BreaksUnlessRead(guard, Times(i, l.imagePerRow) + j, l.imageCount);
    FinishBand(l, guard, src, i, j);
    TimesSucc(i, l.imagePerRow);
    imagesRead := Times(i, l.imagePerRow) + j;
  }

  /**
   The loops of lines 131-149: every band in turn, each written out after
   it is filled. Returns the pixel bytes written and the number of reads.
   */
  method RenderPixels(l: Layout, guard: Guard, src: seq<bv8>) returns (pixels: seq<bv8>, imagesRead: nat)
    requires Readable(l, src)
    ensures imagesRead == SlotsRead(l, guard)
    ensures |pixels| == l.imageRows * l.bmpBufferSize
    ensures pixels == Bitmap(l, guard, src)
  {
    pixels, imagesRead := [], 0;
    // `new char[mnistBufferSize]`: the first read of a band always fills it.
    var buffer := Raster.Zeros(l.mnistBufferSize);
    var pos: nat := 0;
    var i: nat := 0;
    while i < l.imageRows
      invariant i <= l.imageRows
      invariant imagesRead == Min(Times(i, l.imagePerRow), ReadLimit(guard, l.imageCount))
      invariant AfterReads(l, guard, src, imagesRead, buffer, pos)
      invariant pixels == Bands(l, guard, src, i)
    {
      BandStart(l, i);
      var band;
      band, buffer, pos, imagesRead := RenderBand(l, guard, src, i, buffer, pos);
      BandsSnoc(l, guard, src, i);
      pixels := pixels + band;
      i := i + 1;
    }
    TimesIsProduct(l.imageRows, l.bmpBufferSize);
  }

  // ---------------------------------------------------------------------
  // Where each pixel lands.

  /** Byte `x` of band `i` sits at `i * bmpBufferSize + x` of the first `n` bands. */
  lemma BandsIndex(l: Layout, guard: Guard, src: seq<bv8>, n: nat, i: nat, x: nat)
    requires Readable(l, src) && i < n <= l.imageRows && x < l.bmpBufferSize
    ensures Times(i, l.bmpBufferSize) + x < |Bands(l, guard, src, n)|
    ensures Bands(l, guard, src, n)[Times(i, l.bmpBufferSize) + x] == Band(l, guard, src, i)[x]
  {
    var bands := BandSeq(l, guard, src)[..n];
    Raster.FlattenIndex(bands, l.bmpBufferSize, i, x);
    assert bands[i] == Band(l, guard, src, i);
  }

  /** Byte `y` of bitmap row `k` sits at `k * bmpBytesPerRow + y` of the first `n` rows of a band. */
  lemma BandRowsIndex(l: Layout, guard: Guard, src: seq<bv8>, i: nat, n: nat, k: nat, y: nat)
    requires Readable(l, src) && i < l.imageRows && k < n <= l.rowCount && y < l.bmpBytesPerRow
    ensures Times(k, l.bmpBytesPerRow) + y < |BandRows(l, guard, src, i, n)|
    ensures BandRows(l, guard, src, i, n)[Times(k, l.bmpBytesPerRow) + y] == BitmapRow(l, guard, src, i, k)[y]
  {
    var rows := BitmapRows(l, guard, src, i)[..n];
    Raster.FlattenIndex(rows, l.bmpBytesPerRow, k, y);
    assert rows[k] == BitmapRow(l, guard, src, i, k);
  }

  /** The offset in the pixel section of column `x` of bitmap row `k` in band `i`. */
  function PixelOffset(l: Layout, i: nat, k: nat, x: nat): nat
  {
    Times(i, l.bmpBufferSize) + Times(k, l.bmpBytesPerRow) + x
  }

  /** Byte `x` of bitmap row `k` in band `i` is byte `x` of the reference bitmap row. */
  lemma BitmapIndex(l: Layout, guard: Guard, src: seq<bv8>, i: nat, k: nat, x: nat)
    requires Readable(l, src) && i < l.imageRows && k < l.rowCount && x < l.bmpBytesPerRow
    ensures PixelOffset(l, i, k, x) < |Bitmap(l, guard, src)|
    ensures Bitmap(l, guard, src)[PixelOffset(l, i, k, x)] == BitmapRow(l, guard, src, i, k)[x]
  {
    BandRowsIndex(l, guard, src, i, l.rowCount, k, x);
    BandsIndex(l, guard, src, l.imageRows, i, Times(k, l.bmpBytesPerRow) + x);
  }

  /**
   Tiling: pixel `c` of row `k` of image `n = i * imagePerRow + j` appears in
   bitmap row `i * rowCount + k`, at column `j * columnCount + c`.
   */
  lemma PixelPlacement(l: Layout, guard: Guard, src: seq<bv8>, i: nat, j: nat, k: nat, c: nat)
    requires Readable(l, src)
    requires i < l.imageRows && j < l.imagePerRow && k < l.rowCount && c < l.columnCount
    requires Times(i, l.imagePerRow) + j < l.imageCount
    ensures Times(j, l.columnCount) + c < l.bmpWidth
    ensures Times(Times(i, l.imagePerRow) + j, l.mnistBufferSize) + Times(k, l.columnCount) + c < |src|
    ensures PixelOffset(l, i, k, Times(j, l.columnCount) + c) < |Bitmap(l, guard, src)|
    ensures Bitmap(l, guard, src)[PixelOffset(l, i, k, Times(j, l.columnCount) + c)]
         == src[Times(Times(i, l.imagePerRow) + j, l.mnistBufferSize) + Times(k, l.columnCount) + c]
  {
    SlotPixel(l, guard, src, i, j, k, c);
    CellPixel(l, guard, src, i, j, k, c);
  }

  /** Column `j * columnCount + c` of bitmap row `k` in band `i` is pixel `c` of that row's cell `j`. */
  lemma SlotPixel(l: Layout, guard: Guard, src: seq<bv8>, i: nat, j: nat, k: nat, c: nat)
    requires Readable(l, src)
    requires i < l.imageRows && j < l.imagePerRow && k < l.rowCount && c < l.columnCount
    ensures Times(j, l.columnCount) + c < l.bmpWidth
    ensures PixelOffset(l, i, k, Times(j, l.columnCount) + c) < |Bitmap(l, guard, src)|
    ensures |Cell(l, guard, src, i, j, k)| == l.columnCount
    ensures Bitmap(l, guard, src)[PixelOffset(l, i, k, Times(j, l.columnCount) + c)] == Cell(l, guard, src, i, j, k)[c]
  {
    var x := Times(j, l.columnCount) + c;
    var cells := RowCells(l, guard, src, i, k);
    MemcpyInBounds(l, j, k);
    Raster.FlattenIndex(cells, l.columnCount, j, c);
    Raster.FlattenLength(cells, l.columnCount);
    assert BitmapRow(l, guard, src, i, k)[x] == cells[j][c];
    BitmapIndex(l, guard, src, i, k, x);
  }

  /** Pixel `c` of the cell for an image slot is pixel `c` of that image's row `k` in the stream. */
  lemma CellPixel(l: Layout, guard: Guard, src: seq<bv8>, i: nat, j: nat, k: nat, c: nat)
    requires Readable(l, src)
    requires i < l.imageRows && j < l.imagePerRow && k < l.rowCount && c < l.columnCount
    requires Times(i, l.imagePerRow) + j < l.imageCount
    ensures Times(Times(i, l.imagePerRow) + j, l.mnistBufferSize) + Times(k, l.columnCount) + c < |src|
    ensures Cell(l, guard, src, i, j, k)[c]
         == src[Times(Times(i, l.imagePerRow) + j, l.mnistBufferSize) + Times(k, l.columnCount) + c]
  {
    var n := Times(i, l.imagePerRow) + j;
    RowInImage(l, k);
    ImageInStream(l, src, n);
    assert SlotIsRead(guard, n, l.imageCount);
    SlotBelowPlan(l, i, j);
    var image := StreamImage(l, src, n);
    assert SlotImage(l, guard, src, n) == image;
    assert Cell(l, guard, src, i, j, k) == image[Times(k, l.columnCount) .. Times(k, l.columnCount) + l.columnCount];
  }

  /** The bytes after the last image column of a bitmap row are zero padding. */
  lemma PaddingIsZero(l: Layout, guard: Guard, src: seq<bv8>, i: nat, k: nat, x: nat)
    requires Readable(l, src) && i < l.imageRows && k < l.rowCount
    requires l.bmpWidth <= x < l.bmpBytesPerRow
    ensures PixelOffset(l, i, k, x) < |Bitmap(l, guard, src)|
    ensures Bitmap(l, guard, src)[PixelOffset(l, i, k, x)] == 0
  {
    BitmapIndex(l, guard, src, i, k, x);
    Raster.FlattenLength(RowCells(l, guard, src, i, k), l.columnCount);
  }

  /** A slot the loop does not read stays as `memset` left it: zero. */
  lemma UnreadSlotIsZero(l: Layout, guard: Guard, src: seq<bv8>, i: nat, j: nat, k: nat, c: nat)
    requires Readable(l, src)
    requires i < l.imageRows && j < l.imagePerRow && k < l.rowCount && c < l.columnCount
    requires !SlotIsRead(guard, Times(i, l.imagePerRow) + j, l.imageCount)
    ensures Times(j, l.columnCount) + c < l.bmpWidth
    ensures PixelOffset(l, i, k, Times(j, l.columnCount) + c) < |Bitmap(l, guard, src)|
    ensures Bitmap(l, guard, src)[PixelOffset(l, i, k, Times(j, l.columnCount) + c)] == 0
  {
    var cells := RowCells(l, guard, src, i, k);
    MemcpyInBounds(l, j, k);
    Raster.FlattenIndex(cells, l.columnCount, j, c);
    Raster.FlattenLength(cells, l.columnCount);
    BitmapIndex(l, guard, src, i, k, Times(j, l.columnCount) + c);
  }

  /**
   With the `>=` guard every slot past the last image is blank: the bitmap
   shows exactly the images of the file and nothing else.
   */
  lemma IntendedBlankTail(l: Layout, src: seq<bv8>, i: nat, j: nat, k: nat, c: nat)
    requires Readable(l, src)
    requires i < l.imageRows && j < l.imagePerRow && k < l.rowCount && c < l.columnCount
    requires Times(i, l.imagePerRow) + j >= l.imageCount
    ensures PixelOffset(l, i, k, Times(j, l.columnCount) + c) < |Bitmap(l, Intended, src)|
    ensures Bitmap(l, Intended, src)[PixelOffset(l, i, k, Times(j, l.columnCount) + c)] == 0
  {
    UnreadSlotIsZero(l, Intended, src, i, j, k, c);
  }

  /**
   As written, when the last band is not full and the file ends after its
   last image, the slot after the last image is read anyway: the read
   delivers nothing and the slot shows the last image a second time.
   */
  lemma AsWrittenRepeatsLastImage(l: Layout, src: seq<bv8>, k: nat, c: nat)
    requires Readable(l, src) && |src| == Times(l.imageCount, l.mnistBufferSize)
    requires l.imageCount % l.imagePerRow != 0
    requires k < l.rowCount && c < l.columnCount
    ensures 0 < l.imageCount && 0 < l.imageRows
    ensures Times(l.imageRows - 1, l.imagePerRow) <= l.imageCount < Times(l.imageRows, l.imagePerRow)
    ensures SlotsRead(l, AsWritten) == l.imageCount + 1
    ensures SlotImage(l, AsWritten, src, l.imageCount) == StreamImage(l, src, l.imageCount - 1)
    ensures Times(l.imageCount - Times(l.imageRows - 1, l.imagePerRow), l.columnCount) + c < l.bmpWidth
    ensures PixelOffset(l, l.imageRows - 1, k, Times(l.imageCount - Times(l.imageRows - 1, l.imagePerRow), l.columnCount) + c)
         < |Bitmap(l, AsWritten, src)|
    ensures Times(l.imageCount - 1, l.mnistBufferSize) + Times(k, l.columnCount) + c < |src|
    ensures Bitmap(l, AsWritten, src)[PixelOffset(l, l.imageRows - 1, k, Times(l.imageCount - Times(l.imageRows - 1, l.imagePerRow), l.columnCount) + c)]
         == src[Times(l.imageCount - 1, l.mnistBufferSize) + Times(k, l.columnCount) + c]
  {
    ExtraReadAsWritten(l);
    ImageRowsIsCeiling(l);
    CeilingDiv(l.imageCount, l.imagePerRow);
    TimesIsProduct(l.imageRows, l.imagePerRow);
    TimesIsProduct(l.imageRows - 1, l.imagePerRow);
    var i := l.imageRows - 1;
    var j := l.imageCount - Times(i, l.imagePerRow);
    TimesSucc(i, l.imagePerRow);
    ExtraSlotPixel(l, src, i, j, k, c);
    ExtraSlotImage(l, src);
  }

  /** The pixel of slot `j` of band `i` when that slot is the one just past the last image, read as written. */
  lemma ExtraSlotPixel(l: Layout, src: seq<bv8>, i: nat, j: nat, k: nat, c: nat)
    requires Readable(l, src) && |src| == Times(l.imageCount, l.mnistBufferSize)
    requires i < l.imageRows && j < l.imagePerRow && k < l.rowCount && c < l.columnCount
    requires Times(i, l.imagePerRow) + j == l.imageCount
    ensures 0 < l.imageCount
    ensures Times(j, l.columnCount) + c < l.bmpWidth
    ensures PixelOffset(l, i, k, Times(j, l.columnCount) + c) < |Bitmap(l, AsWritten, src)|
    ensures Times(l.imageCount - 1, l.mnistBufferSize) + Times(k, l.columnCount) + c < |src|
    ensures Bitmap(l, AsWritten, src)[PixelOffset(l, i, k, Times(j, l.columnCount) + c)]
         == src[Times(l.imageCount - 1, l.mnistBufferSize) + Times(k, l.columnCount) + c]
  {
    SlotBelowPlan(l, i, j);
    ExtraSlotFollowsImage(l, AsWritten, l.imageCount);
    SlotPixel(l, AsWritten, src, i, j, k, c);
    CellOfReadSlot(l, AsWritten, src, i, j, k, c);
    ExtraSlotImage(l, src);
    var y := Times(k, l.columnCount) + c;
    StreamPixel(l, src, l.imageCount - 1, y);
  }

  /** Pixel `c` of a read slot's cell in bitmap row `k` is pixel `k * columnCount + c` of the image read. */
  lemma CellOfReadSlot(l: Layout, guard: Guard, src: seq<bv8>, i: nat, j: nat, k: nat, c: nat)
    requires Readable(l, src)
    requires i < l.imageRows && j < l.imagePerRow && k < l.rowCount && c < l.columnCount
    requires Times(i, l.imagePerRow) + j < SlotsRead(l, guard)
    ensures Times(k, l.columnCount) + c < l.mnistBufferSize
    ensures Cell(l, guard, src, i, j, k)[c] == SlotImage(l, guard, src, Times(i, l.imagePerRow) + j)[Times(k, l.columnCount) + c]
  {
    RowInImage(l, k);
  }

  /** If the stream ends with the last image, the read past it leaves the last image in the buffer. */
  lemma ExtraSlotImage(l: Layout, src: seq<bv8>)
    requires Readable(l, src) && |src| == Times(l.imageCount, l.mnistBufferSize)
    requires 0 < l.imageCount < SlotsRead(l, AsWritten)
    ensures SlotImage(l, AsWritten, src, l.imageCount) == StreamImage(l, src, l.imageCount - 1)
  {
  }

  lemma StreamPixel(l: Layout, src: seq<bv8>, n: nat, y: nat)
    requires Readable(l, src) && n < l.imageCount && y < l.mnistBufferSize
    ensures Times(n, l.mnistBufferSize) + y < |src|
    ensures StreamImage(l, src, n)[y] == src[Times(n, l.mnistBufferSize) + y]
  {
    ImageInStream(l, src, n);
  }

  // ---------------------------------------------------------------------
  // The whole conversion.

  /** What `mnist2bmp` leaves behind: no bitmap file, or the bytes written to it. */
  datatype Output = NoBitmap | Written(bytes: seq<bv8>)

  /** The layout `mnist2bmp` computes from the header of an IDX image file. */
  function FileLayout(bytes: seq<bv8>, imagePerRow: u32): (r: Layout)
    requires 16 <= |bytes|
    ensures var h := Idx.ImageHeaderOf(bytes, Idx.CheckedMagic);
            r.imageCount == h.imageCount && r.rowCount == h.rowCount && r.columnCount == h.columnCount
    ensures r.imagePerRow == ClampImagePerRow(imagePerRow)
  {
    Plan(Idx.ReadWord(bytes, 4), Idx.ReadWord(bytes, 8), Idx.ReadWord(bytes, 12), imagePerRow)
  }

  /**
   The inputs the conversion defines: the header reads do not run past the
   end of the file, no size wraps in `uint32_t`, and the file holds every
   image its header announces. The code checks none of these.
   */
  predicate Convertible(file: Idx.File, imagePerRow: u32)
  {
    file.Unopenable? ||
    (4 <= |file.bytes| &&
     (Idx.ReadWord(file.bytes, 0) == Idx.CheckedMagic ==>
        16 <= |file.bytes| &&
        Fits(Idx.ReadWord(file.bytes, 4), Idx.ReadWord(file.bytes, 8), Idx.ReadWord(file.bytes, 12), imagePerRow) &&
        Readable(FileLayout(file.bytes, imagePerRow), file.bytes[16..])))
  }

  /**
   `mnist2bmp` (lines 90-149): give up without writing anything if the file
   cannot be opened or is not an image file; otherwise write the 8-bit
   header and then the pixel bands. The file written is exactly `bfSize`
   bytes, its header is `BmpFileHeader8` for the tiled size, and its pixel
   section is the reference bitmap.
   */
  method Convert(file: Idx.File, imagePerRow: u32, guard: Guard) returns (out: Output, imagesRead: nat)
    requires Convertible(file, imagePerRow)
    ensures out.NoBitmap? <==> file.Unopenable? || Idx.BigEndianAt(file.bytes, 0) != 0x803
    ensures out.Written? ==>
      var l := FileLayout(file.bytes, imagePerRow);
      var header := BmpHeader.BmpFileHeader8(l.bmpWidth, l.bmpHeight);
      && l.imageCount == Idx.BigEndianAt(file.bytes, 4)
      && out.bytes == BmpHeader.Serialize(header) + Bitmap(l, guard, file.bytes[16..])
      && |out.bytes| == header.bfSize
      && imagesRead == SlotsRead(l, guard)
      && (guard == Intended ==> imagesRead == l.imageCount)
  {
    if file.Unopenable? {
      return NoBitmap, 0;
    }
    var magic := Idx.ReadWord(file.bytes, 0);
    if magic != Idx.CheckedMagic {
      return NoBitmap, 0;
    }
    var l := FileLayout(file.bytes, imagePerRow);
    var src := file.bytes[16..];
    var header := BmpHeader.BmpFileHeader8(l.bmpWidth, l.bmpHeight);
    var pixels;
    pixels, imagesRead := RenderPixels(l, guard, src);
    out := Written(BmpHeader.Serialize(header) + pixels);
    FileSize(l, guard, src, pixels, imagesRead);
  }

  /** The header and the bands together are `bfSize` bytes; the intended guard reads each image once. */
  lemma FileSize(l: Layout, guard: Guard, src: seq<bv8>, pixels: seq<bv8>, imagesRead: nat)
    requires Readable(l, src)
    requires pixels == Bitmap(l, guard, src) && imagesRead == SlotsRead(l, guard)
    ensures |BmpHeader.Serialize(BmpHeader.BmpFileHeader8(l.bmpWidth, l.bmpHeight)) + pixels|
         == BmpHeader.BmpFileHeader8(l.bmpWidth, l.bmpHeight).bfSize
    ensures guard == Intended ==> imagesRead == l.imageCount
  {
    PixelBytesMatchHeader(l);
    TimesIsProduct(l.imageRows, l.bmpBufferSize);
    if guard == Intended {
      SlotsReadIntended(l);
    }
  }
}
