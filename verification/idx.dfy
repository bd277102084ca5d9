/**
 The IDX readers of mnist.h: `ReadImageData` and `ReadLabelData`.

 A file is either one that cannot be opened or the sequence of its bytes.
 The C++ functions take the header and the data vector by reference and
 return a `bool`; here they are pure functions from the incoming header and
 data (which a failed call leaves in place) and the file to the outgoing
 triple.
 */
module Idx {
  import opened Machine
  import Endian

  /** `mnist_image_header_flag`. */
  const ImageHeaderFlag: u32 := 0x0000_0803
  /** `mnist_label_header_flag`. */
  const LabelHeaderFlag: u32 := 0x0000_0801

  /** The magic number the code of both readers compares against. */
  const CheckedMagic: u32 := 0x0000_0803

  const ImageHeaderBytes: nat := 16
  const LabelHeaderBytes: nat := 8

  datatype ImageHeader = ImageHeader(magicNumber: u32, imageCount: u32, rowCount: u32, columnCount: u32)

  datatype LabelHeader = LabelHeader(magicNumber: u32, labelCount: u32)

  /** What opening a path with `std::ifstream` finds. */
  datatype File = Unopenable | Opened(bytes: seq<bv8>)

  /** The outcome of `ReadImageData`: its return value and both by-reference arguments afterwards. */
  datatype ImageRead = ImageRead(ok: bool, header: ImageHeader, data: seq<bv8>)

  /** The outcome of `ReadLabelData`. */
  datatype LabelRead = LabelRead(ok: bool, header: LabelHeader, data: seq<bv8>)

  /** The big-endian number stored in `bytes[off..off+4]`. */
  function BigEndianAt(bytes: seq<bv8>, off: nat): int
    requires off + 4 <= |bytes|
  {
    Endian.BigEndianValue(bytes[off], bytes[off + 1], bytes[off + 2], bytes[off + 3])
  }

  /**
   One `file.read((char*)&tmp, 4)` at offset `off` followed by `ConvertEndian(tmp)`:
   the host loads the bytes little-endian and the swap restores big-endian order.
   */
  function ReadWord(bytes: seq<bv8>, off: nat): (r: u32)
    requires off + 4 <= |bytes|
    ensures r == BigEndianAt(bytes, off)
  {
    Endian.LoadThenSwapIsBigEndian(bytes[off], bytes[off + 1], bytes[off + 2], bytes[off + 3]);
    Endian.ConvertEndian(Endian.LoadLittleEndian(bytes[off], bytes[off + 1], bytes[off + 2], bytes[off + 3])) as int
  }

  /** `imageCount*rowCount*columnCount` as the `uint32_t` the code computes. */
  function ImageDataSize(h: ImageHeader): u32
  {
    Mul(Mul(h.imageCount, h.rowCount), h.columnCount)
  }

  /** The data size is the product of the three counts reduced modulo 2^32, and the product itself when that fits. */
  lemma ImageDataSizeWraps(h: ImageHeader)
    ensures ImageDataSize(h) == (h.imageCount * h.rowCount * h.columnCount) % Modulus
    ensures h.imageCount * h.rowCount * h.columnCount < Modulus ==> ImageDataSize(h) == h.imageCount * h.rowCount * h.columnCount
  {
    Mul3Wraps(h.imageCount, h.rowCount, h.columnCount);
    var p := h.imageCount * h.rowCount * h.columnCount;
    assert 0 <= h.imageCount * h.rowCount;
    assert 0 <= p;
    if p < Modulus {
      assert p % Modulus == p;
    }
  }

  /** The header fields at offsets 4, 8 and 12, under a given magic number. */
  function ImageHeaderOf(bytes: seq<bv8>, magic: u32): ImageHeader
    requires ImageHeaderBytes <= |bytes|
  {
    ImageHeader(magic, ReadWord(bytes, 4), ReadWord(bytes, 8), ReadWord(bytes, 12))
  }

  /**
   The reads of `ReadImageData` never run past the end of the file. The code
   does not check how much a read delivered, so a shorter file is outside
   what it defines.
   */
  predicate ImageFileComplete(f: File)
  {
    f.Unopenable? ||
    (4 <= |f.bytes| &&
     (ReadWord(f.bytes, 0) == CheckedMagic ==>
        ImageHeaderBytes <= |f.bytes| &&
        ImageHeaderBytes + ImageDataSize(ImageHeaderOf(f.bytes, CheckedMagic)) <= |f.bytes|))
  }

  /** The same for `ReadLabelData`. */
  predicate LabelFileComplete(f: File, magic: u32)
  {
    f.Unopenable? ||
    (4 <= |f.bytes| &&
     (ReadWord(f.bytes, 0) == magic ==>
        LabelHeaderBytes <= |f.bytes| &&
        LabelHeaderBytes + ReadWord(f.bytes, 4) <= |f.bytes|))
  }

  /**
   `ReadImageData`: open, read and check the magic number, read the three
   counts, resize `data` to their product and fill it from the file.
   */
  function ReadImageData(header: ImageHeader, data: seq<bv8>, file: File): (r: ImageRead)
    requires ImageFileComplete(file)
    ensures r.ok <==> file.Opened? && BigEndianAt(file.bytes, 0) == 0x803
    ensures file.Unopenable? ==> r.header == header && r.data == data
    ensures file.Opened? && !r.ok ==>
      r.header == header.(magicNumber := BigEndianAt(file.bytes, 0)) && r.data == data
    ensures r.ok ==>
      && r.header.magicNumber == 0x803
      && r.header.imageCount == BigEndianAt(file.bytes, 4)
      && r.header.rowCount == BigEndianAt(file.bytes, 8)
      && r.header.columnCount == BigEndianAt(file.bytes, 12)
      && |r.data| == ImageDataSize(r.header)
      && r.data == file.bytes[16..16 + |r.data|]
  {
    if file.Unopenable? then
      ImageRead(false, header, data)
    else
      var magic := ReadWord(file.bytes, 0);
      if magic != CheckedMagic then
        ImageRead(false, header.(magicNumber := magic), data)
      else
        var h := ImageHeaderOf(file.bytes, magic);
        var size := ImageDataSize(h);
        ImageRead(true, h, file.bytes[ImageHeaderBytes..ImageHeaderBytes + size])
  }

  /**
   `ReadLabelData` as written: it compares the magic number against 0x803,
   the image constant, not against `mnist_label_header_flag`.
   */
  function ReadLabelData(header: LabelHeader, data: seq<bv8>, file: File): (r: LabelRead)
    requires LabelFileComplete(file, CheckedMagic)
    ensures r.ok <==> file.Opened? && BigEndianAt(file.bytes, 0) == 0x803
    ensures file.Unopenable? ==> r.header == header && r.data == data
    ensures file.Opened? && !r.ok ==>
      r.header == header.(magicNumber := BigEndianAt(file.bytes, 0)) && r.data == data
    ensures r.ok ==>
      && r.header.magicNumber == 0x803
      && r.header.labelCount == BigEndianAt(file.bytes, 4)
      && r.data == file.bytes[8..8 + r.header.labelCount]
  {
    ReadLabelDataWith(CheckedMagic, header, data, file)
  }

  /** `ReadLabelData` as evidently intended: it accepts `mnist_label_header_flag`. */
  function ReadLabelDataIntended(header: LabelHeader, data: seq<bv8>, file: File): (r: LabelRead)
    requires LabelFileComplete(file, LabelHeaderFlag)
    ensures r.ok <==> file.Opened? && BigEndianAt(file.bytes, 0) == 0x801
    ensures r.ok ==>
      && r.header.magicNumber == 0x801
      && r.header.labelCount == BigEndianAt(file.bytes, 4)
      && r.data == file.bytes[8..8 + r.header.labelCount]
  {
    ReadLabelDataWith(LabelHeaderFlag, header, data, file)
  }

  /** The body both label readers share; only the accepted magic number differs. */
  function ReadLabelDataWith(accepted: u32, header: LabelHeader, data: seq<bv8>, file: File): (r: LabelRead)
    requires LabelFileComplete(file, accepted)
    ensures r.ok <==> file.Opened? && BigEndianAt(file.bytes, 0) == accepted
    ensures file.Unopenable? ==> r.header == header && r.data == data
    ensures file.Opened? && !r.ok ==>
      r.header == header.(magicNumber := BigEndianAt(file.bytes, 0)) && r.data == data
    ensures r.ok ==>
      && r.header.magicNumber == accepted
      && r.header.labelCount == BigEndianAt(file.bytes, 4)
      && r.data == file.bytes[8..8 + r.header.labelCount]
  {
    if file.Unopenable? then
      LabelRead(false, header, data)
    else
      var magic := ReadWord(file.bytes, 0);
      if magic != accepted then
        LabelRead(false, header.(magicNumber := magic), data)
      else
        var count := ReadWord(file.bytes, 4);
        LabelRead(true, LabelHeader(magic, count), file.bytes[LabelHeaderBytes..LabelHeaderBytes + count])
  }

  // ---------------------------------------------------------------------
  // Writing IDX files, the inverse the readers are checked against.

  /** A 32-bit number as four bytes, most significant first. */
  function EncodeWord(x: u32): (r: seq<bv8>)
    ensures |r| == 4
  {
    var q1 := x / 0x100;
    var q2 := q1 / 0x100;
    [ToByte(q2 / 0x100), ToByte(q2 % 0x100), ToByte(q1 % 0x100), ToByte(x % 0x100)]
  }

  lemma EncodeWordInverse(x: u32)
    ensures BigEndianAt(EncodeWord(x), 0) == x
  {
    var q1 := x / 0x100;
    var q2 := q1 / 0x100;
    var q3 := q2 / 0x100;
    ByteValue(q3);
    ByteValue(q2 % 0x100);
    ByteValue(q1 % 0x100);
    ByteValue(x % 0x100);
    var e := EncodeWord(x);
    assert e[0] as int == q3 && e[1] as int == q2 % 0x100;
    assert e[2] as int == q1 % 0x100 && e[3] as int == x % 0x100;
    assert x == ((q3 * 0x100 + q2 % 0x100) * 0x100 + q1 % 0x100) * 0x100 + x % 0x100;
  }

  /**
   The byte holding a number below 256, counted up from zero. Counting
   keeps the proofs in linear integer arithmetic: the solver handles a
   direct `v as bv8` conversion poorly once it meets the divisions of
   `EncodeWord`.
   */
  function ToByte(v: nat): bv8
    requires v < 0x100
  {
    if v == 0 then 0 else ToByte(v - 1) + 1
  }

  lemma {:induction false} ByteValue(v: nat)
    requires v < 0x100
    ensures ToByte(v) as int == v
  {
    if v > 0 {
      ByteValue(v - 1);
      SuccValue(ToByte(v - 1));
    }
  }

  lemma SuccValue(b: bv8)
    requires b != 0xFF
    ensures (b + 1) as int == b as int + 1
  {
  }

  /** An IDX image file: magic, image count, row count, column count, pixels. */
  function EncodeImageFile(h: ImageHeader, pixels: seq<bv8>): (r: seq<bv8>)
    ensures |r| == ImageHeaderBytes + |pixels|
  {
    EncodeWord(h.magicNumber) + EncodeWord(h.imageCount) + EncodeWord(h.rowCount) + EncodeWord(h.columnCount) + pixels
  }

  /** An IDX label file: magic, label count, labels. */
  function EncodeLabelFile(h: LabelHeader, labels: seq<bv8>): (r: seq<bv8>)
    ensures |r| == LabelHeaderBytes + |labels|
  {
    EncodeWord(h.magicNumber) + EncodeWord(h.labelCount) + labels
  }

  lemma ImageFileFields(h: ImageHeader, pixels: seq<bv8>)
    ensures BigEndianAt(EncodeImageFile(h, pixels), 0) == h.magicNumber
    ensures BigEndianAt(EncodeImageFile(h, pixels), 4) == h.imageCount
    ensures BigEndianAt(EncodeImageFile(h, pixels), 8) == h.rowCount
    ensures BigEndianAt(EncodeImageFile(h, pixels), 12) == h.columnCount
    ensures EncodeImageFile(h, pixels)[16..] == pixels
  {
    var f := EncodeImageFile(h, pixels);
    EncodeWordInverse(h.magicNumber);
    EncodeWordInverse(h.imageCount);
    EncodeWordInverse(h.rowCount);
    EncodeWordInverse(h.columnCount);
    assert f[0..4] == EncodeWord(h.magicNumber);
    assert f[4..8] == EncodeWord(h.imageCount);
    assert f[8..12] == EncodeWord(h.rowCount);
    assert f[12..16] == EncodeWord(h.columnCount);
  }

  lemma LabelFileFields(h: LabelHeader, labels: seq<bv8>)
    ensures BigEndianAt(EncodeLabelFile(h, labels), 0) == h.magicNumber
    ensures BigEndianAt(EncodeLabelFile(h, labels), 4) == h.labelCount
    ensures EncodeLabelFile(h, labels)[8..] == labels
  {
    var f := EncodeLabelFile(h, labels);
    EncodeWordInverse(h.magicNumber);
    EncodeWordInverse(h.labelCount);
    assert f[0..4] == EncodeWord(h.magicNumber);
    assert f[4..8] == EncodeWord(h.labelCount);
  }

  /** Reading an image file is determined by its header words and the bytes after them. */
  lemma ReadImageOfFields(f: seq<bv8>, h: ImageHeader, pixels: seq<bv8>, header: ImageHeader, data: seq<bv8>)
    requires |f| == ImageHeaderBytes + |pixels| && f[16..] == pixels
    requires BigEndianAt(f, 0) == h.magicNumber == ImageHeaderFlag
    requires BigEndianAt(f, 4) == h.imageCount && BigEndianAt(f, 8) == h.rowCount
    requires BigEndianAt(f, 12) == h.columnCount
    requires |pixels| == ImageDataSize(h)
    ensures ImageFileComplete(Opened(f))
    ensures ReadImageData(header, data, Opened(f)) == ImageRead(true, h, pixels)
  {
    ImageFileOfFieldsComplete(f, h, |pixels|);
    var r := ReadImageData(header, data, Opened(f));
    assert r.ok;
    assert r.header == h;
    SameDataSize(r.header, h);
    assert |r.data| == |pixels|;
    assert r.data == f[16..16 + |pixels|];
    SliceToEnd(f, 16, |pixels|);
  }

  lemma ImageFileOfFieldsComplete(f: seq<bv8>, h: ImageHeader, n: nat)
    requires |f| == ImageHeaderBytes + n
    requires BigEndianAt(f, 0) == ImageHeaderFlag
    requires BigEndianAt(f, 4) == h.imageCount && BigEndianAt(f, 8) == h.rowCount
    requires BigEndianAt(f, 12) == h.columnCount
    requires n == ImageDataSize(h)
    ensures ImageFileComplete(Opened(f))
  {
    assert ImageHeaderOf(f, CheckedMagic) == h.(magicNumber := CheckedMagic);
    SameDataSize(ImageHeaderOf(f, CheckedMagic), h);
  }

  /** The data size depends only on the three counts. */
  lemma SameDataSize(a: ImageHeader, b: ImageHeader)
    requires a.imageCount == b.imageCount && a.rowCount == b.rowCount && a.columnCount == b.columnCount
    ensures ImageDataSize(a) == ImageDataSize(b)
  {
  }

  lemma SliceToEnd(f: seq<bv8>, start: nat, n: nat)
    requires start + n == |f|
    ensures f[start..start + n] == f[start..]
  {
  }

  /** Reading a label file under an accepted magic number is determined by its count word and the labels. */
  lemma ReadLabelOfFields(accepted: u32, f: seq<bv8>, count: u32, labels: seq<bv8>, header: LabelHeader, data: seq<bv8>)
    requires |f| == LabelHeaderBytes + |labels| && f[8..] == labels
    requires BigEndianAt(f, 0) == accepted && BigEndianAt(f, 4) == count == |labels|
    ensures LabelFileComplete(Opened(f), accepted)
    ensures ReadLabelDataWith(accepted, header, data, Opened(f)) == LabelRead(true, LabelHeader(accepted, count), labels)
  {
  }

  /**
   Reading back a written image file with the image magic number returns
   its header and its pixels, whatever the by-reference arguments held.
   */
  lemma ImageRoundTrip(h: ImageHeader, pixels: seq<bv8>, header: ImageHeader, data: seq<bv8>)
    requires h.magicNumber == ImageHeaderFlag
    requires |pixels| == ImageDataSize(h)
    ensures ImageFileComplete(Opened(EncodeImageFile(h, pixels)))
    ensures ReadImageData(header, data, Opened(EncodeImageFile(h, pixels))) == ImageRead(true, h, pixels)
  {
    ImageFileFields(h, pixels);
    ReadImageOfFields(EncodeImageFile(h, pixels), h, pixels, header, data);
  }

  /** A written image file with any other magic number is refused, and only the magic number is stored. */
  lemma ImageWrongMagicRejected(h: ImageHeader, pixels: seq<bv8>, header: ImageHeader, data: seq<bv8>)
    requires h.magicNumber != ImageHeaderFlag
    ensures ImageFileComplete(Opened(EncodeImageFile(h, pixels)))
    ensures ReadImageData(header, data, Opened(EncodeImageFile(h, pixels)))
         == ImageRead(false, header.(magicNumber := h.magicNumber), data)
  {
    ImageFileFields(h, pixels);
  }

  /**
   A standard IDX label file, whose magic number is `mnist_label_header_flag`,
   is refused by `ReadLabelData` as written: the call fails, the header
   keeps only the magic number 0x801 it read, and the labels are not loaded.
   */
  lemma StandardLabelFileRejected(count: u32, labels: seq<bv8>, header: LabelHeader, data: seq<bv8>)
    requires |labels| == count
    ensures LabelFileComplete(Opened(EncodeLabelFile(LabelHeader(LabelHeaderFlag, count), labels)), CheckedMagic)
    ensures ReadLabelData(header, data, Opened(EncodeLabelFile(LabelHeader(LabelHeaderFlag, count), labels)))
         == LabelRead(false, header.(magicNumber := LabelHeaderFlag), data)
  {
    LabelFileFields(LabelHeader(LabelHeaderFlag, count), labels);
  }

  /** A label file carrying the image magic number 0x803 is the only kind `ReadLabelData` reads back. */
  lemma LabelRoundTrip(count: u32, labels: seq<bv8>, header: LabelHeader, data: seq<bv8>)
    requires |labels| == count
    ensures LabelFileComplete(Opened(EncodeLabelFile(LabelHeader(CheckedMagic, count), labels)), CheckedMagic)
    ensures ReadLabelData(header, data, Opened(EncodeLabelFile(LabelHeader(CheckedMagic, count), labels)))
         == LabelRead(true, LabelHeader(CheckedMagic, count), labels)
  {
    LabelFileFields(LabelHeader(CheckedMagic, count), labels);
    ReadLabelOfFields(CheckedMagic, EncodeLabelFile(LabelHeader(CheckedMagic, count), labels), count, labels, header, data);
  }

  /** The intended label reader reads a standard label file back. */
  lemma LabelIntendedRoundTrip(count: u32, labels: seq<bv8>, header: LabelHeader, data: seq<bv8>)
    requires |labels| == count
    ensures LabelFileComplete(Opened(EncodeLabelFile(LabelHeader(LabelHeaderFlag, count), labels)), LabelHeaderFlag)
    ensures ReadLabelDataIntended(header, data, Opened(EncodeLabelFile(LabelHeader(LabelHeaderFlag, count), labels)))
         == LabelRead(true, LabelHeader(LabelHeaderFlag, count), labels)
  {
    LabelFileFields(LabelHeader(LabelHeaderFlag, count), labels);
    ReadLabelOfFields(LabelHeaderFlag, EncodeLabelFile(LabelHeader(LabelHeaderFlag, count), labels), count, labels, header, data);
  }

  /** Two 2x2 images with pixels 1..8 load back with their counts and pixels in order. */
  lemma SmallImageFileExample(header: ImageHeader, data: seq<bv8>)
    ensures ImageFileComplete(Opened([0, 0, 8, 3, 0, 0, 0, 2, 0, 0, 0, 2, 0, 0, 0, 2, 1, 2, 3, 4, 5, 6, 7, 8]))
    ensures ReadImageData(header, data, Opened([0, 0, 8, 3, 0, 0, 0, 2, 0, 0, 0, 2, 0, 0, 0, 2, 1, 2, 3, 4, 5, 6, 7, 8]))
         == ImageRead(true, ImageHeader(0x803, 2, 2, 2), [1, 2, 3, 4, 5, 6, 7, 8])
  {
    var f: seq<bv8> := [0, 0, 8, 3, 0, 0, 0, 2, 0, 0, 0, 2, 0, 0, 0, 2, 1, 2, 3, 4, 5, 6, 7, 8];
    ExampleWords(f);
    ReadImageOfFields(f, ImageHeader(0x803, 2, 2, 2), [1, 2, 3, 4, 5, 6, 7, 8], header, data);
  }

  lemma ExampleWords(f: seq<bv8>)
    requires f == [0, 0, 8, 3, 0, 0, 0, 2, 0, 0, 0, 2, 0, 0, 0, 2, 1, 2, 3, 4, 5, 6, 7, 8]
    ensures BigEndianAt(f, 0) == 0x803
    ensures BigEndianAt(f, 4) == 2 && BigEndianAt(f, 8) == 2 && BigEndianAt(f, 12) == 2
    ensures f[16..] == [1, 2, 3, 4, 5, 6, 7, 8]
  {
    assert f[0] == 0 && f[1] == 0 && f[2] == 8 && f[3] == 3;
    assert f[4] == 0 && f[5] == 0 && f[6] == 0 && f[7] == 2;
    assert f[8] == 0 && f[9] == 0 && f[10] == 0 && f[11] == 2;
    assert f[12] == 0 && f[13] == 0 && f[14] == 0 && f[15] == 2;
  }
}
