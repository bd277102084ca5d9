/**
 The Windows bitmap headers of mnist2bmp/mnist2bmp.cpp: `BmpFileHeader24`,
 `BmpFileHeader8` and their `getBytesPerRow`.

 Both structs derive from `BITMAPFILEHEADER` and `BITMAPINFOHEADER` under
 2-byte packing, so their fields lie back to back: 14 bytes, then 40, then
 (8-bit only) a 256-entry `RGBQUAD` palette of 1024 bytes. Every `uint32_t`
 computation wraps modulo 2^32 as in C.
 */
module BmpHeader {
  import opened Machine

  /** `sizeof(BITMAPFILEHEADER)`. */
  const FileHeaderSize: nat := 14
  /** `sizeof(BITMAPINFOHEADER)`. */
  const InfoHeaderSize: nat := 40
  /** `sizeof(palette)`: 256 four-byte `RGBQUAD` entries. */
  const PaletteSize: nat := 1024
  const PaletteEntries: nat := 256

  /** The characters "BM" read as a little-endian `WORD`. */
  const BitmapSignature: u16 := 0x4D42
  /** `BI_RGB`: uncompressed pixels. */
  const BiRgb: u32 := 0

  datatype RgbQuad = RgbQuad(blue: bv8, green: bv8, red: bv8, reserved: bv8)

  /** The fields of `BITMAPFILEHEADER`, `BITMAPINFOHEADER` and, for 8-bit images, the palette. */
  datatype Header = Header(
    bfType: u16, bfSize: u32, bfReserved1: u16, bfReserved2: u16, bfOffBits: u32,
    biSize: u32, biWidth: i32, biHeight: i32, biPlanes: u16, biBitCount: u16,
    biCompression: u32, biSizeImage: u32, biXPelsPerMeter: i32, biYPelsPerMeter: i32,
    biClrUsed: u32, biClrImportant: u32,
    palette: seq<RgbQuad>)

  /** `(width * bytesPerPixel + 3) / 4 * 4` in `uint32_t`: a pixel row padded to a multiple of four bytes. */
  function BytesPerRow(width: u32, bytesPerPixel: u32): (r: u32)
    ensures r % 4 == 0
  {
    var q := Div(Add(Mul(width, bytesPerPixel), 3), 4);
    FourWraps(q);
    Mul(q, 4)
  }

  /** A multiple of four stays one when it wraps, since 2^32 is one too. */
  lemma FourWraps(q: u32)
    ensures Mul(q, 4) % 4 == 0
  {
    var k := (q * 4) / Modulus;
    assert q * 4 == k * Modulus + Mul(q, 4);
    assert Mul(q, 4) == 4 * (q - k * 0x4000_0000);
  }

  /**
   When `width * bytesPerPixel + 3` does not wrap, a row is the smallest
   multiple of four that holds `width * bytesPerPixel` bytes.
   */
  lemma RowPadding(width: u32, bytesPerPixel: u32)
    requires width * bytesPerPixel + 3 < Modulus
    ensures BytesPerRow(width, bytesPerPixel) % 4 == 0
    ensures width * bytesPerPixel <= BytesPerRow(width, bytesPerPixel) < width * bytesPerPixel + 4
  {
    MulExact(width, bytesPerPixel);
    PadToFour(width * bytesPerPixel);
  }

  /** The rounding of `BytesPerRow` once the product is known: exact while `m + 3` does not wrap. */
  lemma PadToFour(m: u32)
    requires m + 3 < Modulus
    ensures Mul(Div(Add(m, 3), 4), 4) == (m + 3) / 4 * 4
    ensures (m + 3) / 4 * 4 % 4 == 0
    ensures m <= (m + 3) / 4 * 4 < m + 4
  {
    var q := (m + 3) / 4;
    assert Add(m, 3) == m + 3;
    assert Div(m + 3, 4) == q;
    assert q * 4 <= m + 3;
    MulExact(q, 4);
  }

  /** Grey level `i` of the palette: blue, green and red all `i`. */
  function Grey(i: nat): RgbQuad
    requires i < PaletteEntries
  {
    RgbQuad(i as bv8, i as bv8, i as bv8, 0)
  }

  /** The fields both constructors set alike, for `bytesPerPixel` bytes per pixel followed by `palette`. */
  function Fill(width: u32, height: u32, bytesPerPixel: u32, palette: seq<RgbQuad>): (h: Header)
    requires bytesPerPixel == 1 || bytesPerPixel == 3
    requires |palette| * 4 < 0x1_0000
    ensures h.bfType == BitmapSignature
    ensures h.bfOffBits == FileHeaderSize + InfoHeaderSize + 4 * |palette|
    ensures h.biSizeImage == Mul(BytesPerRow(width, bytesPerPixel), height)
    ensures h.bfSize == Wrap(h.bfOffBits as int + h.biSizeImage)
    ensures h.biWidth == ToInt32(width)
    ensures h.biHeight == ToInt32(-(ToInt32(height) as int))
    ensures h.biBitCount == 8 * bytesPerPixel
    ensures h.palette == palette
  {
    var pixelBytes := Mul(BytesPerRow(width, bytesPerPixel), height);
    var offBits := FileHeaderSize + InfoHeaderSize + 4 * |palette|;
    Header(
      bfType := BitmapSignature,
      bfSize := Wrap(offBits + pixelBytes),
      bfReserved1 := 0,
      bfReserved2 := 0,
      bfOffBits := offBits,
      biSize := InfoHeaderSize,
      biWidth := ToInt32(width),
      biHeight := ToInt32(-(ToInt32(height) as int)),
      biPlanes := 1,
      biBitCount := bytesPerPixel * 8,
      biCompression := BiRgb,
      biSizeImage := pixelBytes,
      biXPelsPerMeter := 0,
      biYPelsPerMeter := 0,
      biClrUsed := 0,
      biClrImportant := 0,
      palette := palette)
  }

  /** The `BmpFileHeader24` constructor: three bytes per pixel, no palette. */
  function BmpFileHeader24(width: u32, height: u32): (h: Header)
    ensures h.bfType == BitmapSignature && h.biBitCount == 24 && h.palette == []
    ensures h.bfOffBits == FileHeaderSize + InfoHeaderSize
    ensures h.biSizeImage == Mul(BytesPerRow(width, 3), height)
    ensures h.bfSize == Wrap(h.bfOffBits as int + h.biSizeImage)
    ensures width < 0x8000_0000 ==> h.biWidth == width
    ensures height < 0x8000_0000 ==> h.biHeight == -(height as int)
  {
    Fill(width, height, 3, [])
  }

  /** The `BmpFileHeader8` constructor: one byte per pixel indexing a grey-scale palette. */
  function BmpFileHeader8(width: u32, height: u32): (h: Header)
    ensures h.bfType == BitmapSignature && h.biBitCount == 8
    ensures h.bfOffBits == FileHeaderSize + InfoHeaderSize + PaletteSize
    ensures h.biSizeImage == Mul(BytesPerRow(width, 1), height)
    ensures h.bfSize == Wrap(h.bfOffBits as int + h.biSizeImage)
    ensures width < 0x8000_0000 ==> h.biWidth == width
    ensures height < 0x8000_0000 ==> h.biHeight == -(height as int)
    ensures |h.palette| == PaletteEntries
    ensures forall i :: 0 <= i < PaletteEntries ==> h.palette[i] == RgbQuad(i as bv8, i as bv8, i as bv8, 0)
  {
    Fill(width, height, 1, seq(PaletteEntries, i requires 0 <= i < PaletteEntries => Grey(i)))
  }

  /**
   `getBytesPerRow`: recovers the bytes per pixel from `biBitCount` and the
   width from the signed `biWidth`, which C converts back to `uint32_t`.
   */
  function GetBytesPerRow(h: Header): (r: u32)
    ensures r % 4 == 0
    ensures h.biBitCount == 8 && h.biWidth >= 0 ==> r == BytesPerRow(h.biWidth, 1)
    ensures h.biBitCount == 24 && h.biWidth >= 0 ==> r == BytesPerRow(h.biWidth, 3)
  {
    BytesPerRow(Wrap(h.biWidth), h.biBitCount / 8)
  }

  /** `getBytesPerRow` returns the row size the constructor used, for every width. */
  lemma GetBytesPerRowAgrees(width: u32, height: u32)
    ensures GetBytesPerRow(BmpFileHeader8(width, height)) == BytesPerRow(width, 1)
    ensures GetBytesPerRow(BmpFileHeader24(width, height)) == BytesPerRow(width, 3)
  {
  }

  // ---------------------------------------------------------------------
  // The bytes `bmpFile.write((char*)&bmpFileHeader, sizeof(bmpFileHeader))` emits.

  function Low8(x: int): bv8
  {
    (x % 0x100) as bv8
  }

  /** A `WORD` as stored on a little-endian host. */
  function Le16(x: int): (r: seq<bv8>)
    ensures |r| == 2
  {
    [Low8(x), Low8(x / 0x100)]
  }

  /** A `DWORD` or `LONG` as stored on a little-endian host (two's complement for negative values). */
  function Le32(x: int): (r: seq<bv8>)
    ensures |r| == 4
  {
    var w := Wrap(x);
    [Low8(w), Low8(w / 0x100), Low8(w / 0x1_0000), Low8(w / 0x100_0000)]
  }

  function PaletteBytes(p: seq<RgbQuad>): (r: seq<bv8>)
    ensures |r| == 4 * |p|
  {
    if p == [] then []
    else [p[0].blue, p[0].green, p[0].red, p[0].reserved] + PaletteBytes(p[1..])
  }

  /** The packed struct, field by field. */
  function Serialize(h: Header): (r: seq<bv8>)
    ensures |r| == FileHeaderSize + InfoHeaderSize + 4 * |h.palette|
  {
    Le16(h.bfType) + Le32(h.bfSize) + Le16(h.bfReserved1) + Le16(h.bfReserved2) + Le32(h.bfOffBits)
    + Le32(h.biSize) + Le32(h.biWidth) + Le32(h.biHeight) + Le16(h.biPlanes) + Le16(h.biBitCount)
    + Le32(h.biCompression) + Le32(h.biSizeImage) + Le32(h.biXPelsPerMeter) + Le32(h.biYPelsPerMeter)
    + Le32(h.biClrUsed) + Le32(h.biClrImportant)
    + PaletteBytes(h.palette)
  }

  /**
   While the sizes do not wrap, the pixel section of an 8-bit bitmap is its
   padded rows, the pixels start right after the header and palette that are
   written first, and `bfSize` counts both.
   */
  lemma HeaderSizes8(width: u32, height: u32)
    requires width + 3 < Modulus
    requires BytesPerRow(width, 1) * height + FileHeaderSize + InfoHeaderSize + PaletteSize < Modulus
    ensures BmpFileHeader8(width, height).biSizeImage == BytesPerRow(width, 1) * height
    ensures |Serialize(BmpFileHeader8(width, height))| == BmpFileHeader8(width, height).bfOffBits == 1078
    ensures BmpFileHeader8(width, height).bfSize == 1078 + BytesPerRow(width, 1) * height
  {
    var h := BmpFileHeader8(width, height);
    var pixelBytes := BytesPerRow(width, 1) * height;
    MulExact(BytesPerRow(width, 1), height);
    assert h.biSizeImage == pixelBytes;
    assert h.bfSize == Wrap(1078 + pixelBytes);
  }

  /** The same for a 24-bit bitmap, whose pixels follow the 54 header bytes. */
  lemma HeaderSizes24(width: u32, height: u32)
    requires width * 3 + 3 < Modulus
    requires BytesPerRow(width, 3) * height + FileHeaderSize + InfoHeaderSize < Modulus
    ensures BmpFileHeader24(width, height).biSizeImage == BytesPerRow(width, 3) * height
    ensures |Serialize(BmpFileHeader24(width, height))| == BmpFileHeader24(width, height).bfOffBits == 54
    ensures BmpFileHeader24(width, height).bfSize == 54 + BytesPerRow(width, 3) * height
  {
    var h := BmpFileHeader24(width, height);
    var pixelBytes := BytesPerRow(width, 3) * height;
    MulExact(BytesPerRow(width, 3), height);
    assert h.biSizeImage == pixelBytes;
    assert h.bfSize == Wrap(54 + pixelBytes);
  }
}
