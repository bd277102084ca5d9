/**
 The IDX readers repeated at the top of fnn/fnn.cpp.

 They are written here the way the C++ runs them: a stream position that
 each `read` advances, header fields assigned one by one through the
 by-reference `header`, and `data.resize` followed by a `read` into the
 vector. Each is proved to compute exactly what the mnist.h reader computes.
 */
module FnnReader {
  import opened Machine
  import Endian
  import Idx

  /** fnn.cpp's copy of `ConvertEndian`: the same shifts and masks. */
  function ConvertEndian(n: bv32): (r: bv32)
    ensures r == Endian.ConvertEndian(n)
  {
    ((n << 24) & 0xFF000000) | ((n << 8) & 0x00FF0000) | ((n >> 8) & 0x0000FF00) | ((n >> 24) & 0x000000FF)
  }

  /**
   `file.read((char*)&tmp, sizeof(uint32_t))` on a little-endian host,
   followed by the `ConvertEndian(tmp)` every header assignment applies.
   */
  method ReadWord(bytes: seq<bv8>, pos: nat) returns (word: u32, next: nat)
    requires pos + 4 <= |bytes|
    ensures next == pos + 4
    ensures word == Idx.BigEndianAt(bytes, pos)
  {
    var tmp := Endian.LoadLittleEndian(bytes[pos], bytes[pos + 1], bytes[pos + 2], bytes[pos + 3]);
    Endian.LoadThenSwapIsBigEndian(bytes[pos], bytes[pos + 1], bytes[pos + 2], bytes[pos + 3]);
    word := ConvertEndian(tmp) as int;
    next := pos + 4;
  }

  /** `std::vector<char>::resize(n)`: keeps the first elements, adds zero bytes or drops the tail. */
  function Resize(v: seq<bv8>, n: nat): (r: seq<bv8>)
    ensures |r| == n
    ensures forall i :: 0 <= i < n && i < |v| ==> r[i] == v[i]
    ensures forall i :: |v| <= i < n ==> r[i] == 0
  {
    if n <= |v| then v[..n] else v + seq(n - |v|, _ => 0)
  }

  /** `file.read(v.data(), n)` with `n` bytes available at `pos`: overwrites the first `n` elements. */
  method ReadInto(v: seq<bv8>, bytes: seq<bv8>, pos: nat, n: nat) returns (r: seq<bv8>, next: nat)
    requires n <= |v| && pos + n <= |bytes|
    ensures |r| == |v| && r[..n] == bytes[pos..pos + n] && r[n..] == v[n..]
    ensures next == pos + n
  {
    r := bytes[pos..pos + n] + v[n..];
    next := pos + n;
  }

  method ReadImageData(header: Idx.ImageHeader, data: seq<bv8>, file: Idx.File)
    returns (ok: bool, header': Idx.ImageHeader, data': seq<bv8>)
    requires Idx.ImageFileComplete(file)
    ensures Idx.ImageRead(ok, header', data') == Idx.ReadImageData(header, data, file)
  {
    header', data' := header, data;
    if file.Unopenable? {
      return false, header', data';
    }
    var bytes := file.bytes;
    var word, pos := ReadWord(bytes, 0);
    header' := header'.(magicNumber := word);
    if header'.magicNumber != 0x0000_0803 {
      return false, header', data';
    }
    header', data' := ReadImageBody(header', data', bytes);
    assert Idx.ReadImageData(header, data, file) == Idx.ImageRead(true, header', data');
    return true, header', data';
  }

  /** The rest of `ReadImageData` once the magic number has matched: three header words, then the pixels. */
  method ReadImageBody(header: Idx.ImageHeader, data: seq<bv8>, bytes: seq<bv8>)
    returns (header': Idx.ImageHeader, data': seq<bv8>)
    requires header.magicNumber == Idx.CheckedMagic && Idx.ImageHeaderBytes <= |bytes|
    requires Idx.ImageHeaderBytes + Idx.ImageDataSize(Idx.ImageHeaderOf(bytes, Idx.CheckedMagic)) <= |bytes|
    ensures header' == Idx.ImageHeaderOf(bytes, Idx.CheckedMagic)
    ensures data' == bytes[16..16 + Idx.ImageDataSize(header')]
  {
    header' := header;
    var word, pos := ReadWord(bytes, 4);
    header' := header'.(imageCount := word);
    word, pos := ReadWord(bytes, pos);
    header' := header'.(rowCount := word);
    word, pos := ReadWord(bytes, pos);
    header' := header'.(columnCount := word);

    assert header' == Idx.ImageHeaderOf(bytes, Idx.CheckedMagic);
    var dataSize := Mul(Mul(header'.imageCount, header'.rowCount), header'.columnCount);
    assert dataSize == Idx.ImageDataSize(header');
    data' := Resize(data, dataSize);
    data', pos := ReadInto(data', bytes, pos, dataSize);
    assert data' == data'[..dataSize] == bytes[16..16 + dataSize];
  }

  method ReadLabelData(header: Idx.LabelHeader, data: seq<bv8>, file: Idx.File)
    returns (ok: bool, header': Idx.LabelHeader, data': seq<bv8>)
    requires Idx.LabelFileComplete(file, Idx.CheckedMagic)
    ensures Idx.LabelRead(ok, header', data') == Idx.ReadLabelData(header, data, file)
  {
    header', data' := header, data;
    if file.Unopenable? {
      return false, header', data';
    }
    var bytes := file.bytes;
    var word, pos := ReadWord(bytes, 0);
    header' := header'.(magicNumber := word);
    if header'.magicNumber != 0x0000_0803 {
      return false, header', data';
    }
    word, pos := ReadWord(bytes, pos);
    header' := header'.(labelCount := word);

    var dataSize := header'.labelCount;
    data' := Resize(data', dataSize);
    data', pos := ReadInto(data', bytes, pos, dataSize);
    assert data' == data'[..dataSize];
    assert header' == Idx.LabelHeader(Idx.CheckedMagic, Idx.ReadWord(bytes, 4));
    return true, header', data';
  }
}
