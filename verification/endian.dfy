/**
 Byte order of the IDX reader: `ConvertEndian` (mnist.h, repeated in
 fnn/fnn.cpp) and the little-endian load that `std::ifstream::read` into a
 `uint32_t` performs on the host.
 */
module Endian {

  /** Byte `k` of a 32-bit word, counted from the least significant end. */
  function ByteOf(n: bv32, k: nat): bv32
    requires k < 4
  {
    if k == 0 then n & 0xFF
    else if k == 1 then (n >> 8) & 0xFF
    else if k == 2 then (n >> 16) & 0xFF
    else (n >> 24) & 0xFF
  }

  /** Four shifts and masks that reverse the byte order of a word. */
  function ConvertEndian(n: bv32): (r: bv32)
    ensures ByteOf(r, 0) == ByteOf(n, 3) && ByteOf(r, 1) == ByteOf(n, 2)
    ensures ByteOf(r, 2) == ByteOf(n, 1) && ByteOf(r, 3) == ByteOf(n, 0)
  {
    ((n << 24) & 0xFF000000) | ((n << 8) & 0x00FF0000) | ((n >> 8) & 0x0000FF00) | ((n >> 24) & 0x000000FF)
  }

  /** Swapping twice gives the word back. */
  lemma ConvertEndianInvolution(n: bv32)
    ensures ConvertEndian(ConvertEndian(n)) == n
  {
  }

  /** Two words with the same four bytes are equal. */
  lemma WordFromBytes(a: bv32, b: bv32)
    requires ByteOf(a, 0) == ByteOf(b, 0) && ByteOf(a, 1) == ByteOf(b, 1)
    requires ByteOf(a, 2) == ByteOf(b, 2) && ByteOf(a, 3) == ByteOf(b, 3)
    ensures a == b
  {
  }

  /** The byte-wise `ensures` of `ConvertEndian` fix its result: any word with the bytes reversed is the swap. */
  lemma SwapDeterminedByBytes(n: bv32, r: bv32)
    requires ByteOf(r, 0) == ByteOf(n, 3) && ByteOf(r, 1) == ByteOf(n, 2)
    requires ByteOf(r, 2) == ByteOf(n, 1) && ByteOf(r, 3) == ByteOf(n, 0)
    ensures r == ConvertEndian(n)
  {
    WordFromBytes(r, ConvertEndian(n));
  }

  /** The word a little-endian host holds after reading the bytes b0, b1, b2, b3 from a file. */
  function LoadLittleEndian(b0: bv8, b1: bv8, b2: bv8, b3: bv8): (r: bv32)
    ensures ByteOf(r, 0) == b0 as bv32 && ByteOf(r, 1) == b1 as bv32
    ensures ByteOf(r, 2) == b2 as bv32 && ByteOf(r, 3) == b3 as bv32
  {
    (b0 as bv32) | ((b1 as bv32) << 8) | ((b2 as bv32) << 16) | ((b3 as bv32) << 24)
  }

  /** The number that four bytes denote when read most significant first. */
  function BigEndianValue(b0: bv8, b1: bv8, b2: bv8, b3: bv8): int
  {
    (b0 as int) * 0x100_0000 + (b1 as int) * 0x1_0000 + (b2 as int) * 0x100 + b3 as int
  }

  /**
   Loading four file bytes on a little-endian host and then swapping them
   yields the big-endian number those bytes denote.
   */
  lemma LoadThenSwapIsBigEndian(b0: bv8, b1: bv8, b2: bv8, b3: bv8)
    ensures ConvertEndian(LoadLittleEndian(b0, b1, b2, b3)) as int == BigEndianValue(b0, b1, b2, b3)
  {
    // One Horner step per byte: shift the word left by a byte and put the next byte in.
    var x0 := b0 as bv32;
    var x1 := (x0 << 8) | (b1 as bv32);
    var x2 := (x1 << 8) | (b2 as bv32);
    var x3 := (x2 << 8) | (b3 as bv32);
    SwapIsHorner(b0, b1, b2, b3);
    WidenValue(b0);
    ShiftInValue(x0, b1);
    ShiftInValue(x1, b2);
    ShiftInValue(x2, b3);
    var v1, v2, v3 := x1 as int, x2 as int, x3 as int;
    var n0, n1, n2, n3 := b0 as int, b1 as int, b2 as int, b3 as int;
    assert v1 == n0 * 0x100 + n1;
    assert v2 == v1 * 0x100 + n2;
    assert v3 == v2 * 0x100 + n3;
    HornerChain(v1, v2, v3, n0, n1, n2, n3);
    assert v3 == BigEndianValue(b0, b1, b2, b3);
    var swapped := ConvertEndian(LoadLittleEndian(b0, b1, b2, b3));
    assert swapped == x3;
  }

  lemma SwapIsHorner(b0: bv8, b1: bv8, b2: bv8, b3: bv8)
    ensures ConvertEndian(LoadLittleEndian(b0, b1, b2, b3))
         == (((((((b0 as bv32) << 8) | (b1 as bv32)) << 8) | (b2 as bv32)) << 8) | (b3 as bv32))
    ensures ((b0 as bv32) << 8) | (b1 as bv32) < 0x1_0000
    ensures ((((b0 as bv32) << 8) | (b1 as bv32)) << 8) | (b2 as bv32) < 0x100_0000
  {
  }

  lemma WidenValue(b: bv8)
    ensures (b as bv32) as int == b as int
  {
  }

  lemma ShiftInValue(x: bv32, b: bv8)
    requires x < 0x100_0000
    ensures ((x << 8) | (b as bv32)) as int == (x as int) * 0x100 + b as int
  {
  }

  lemma HornerChain(v1: int, v2: int, v3: int, n0: int, n1: int, n2: int, n3: int)
    requires v1 == n0 * 0x100 + n1 && v2 == v1 * 0x100 + n2 && v3 == v2 * 0x100 + n3
    ensures v3 == n0 * 0x100_0000 + n1 * 0x1_0000 + n2 * 0x100 + n3
  {
  }
}
