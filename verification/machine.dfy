/**
 C's fixed-width integers, written out over Dafny's unbounded integers.

 Every `uint32_t` expression of the modelled code wraps modulo 2^32, a
 Windows `WORD` holds 16 bits and a `LONG` is a two's-complement 32-bit
 integer. The functions here make that wrap-around explicit so that the
 other modules can say exactly when it happens and when the arithmetic is
 exact.
 */
module Machine {

  const Modulus: int := 0x1_0000_0000

  /** The values of a C `uint32_t` (also a Windows `DWORD`). */
  type u32 = x: int | 0 <= x < Modulus

  /** The values of a Windows `WORD`. */
  type u16 = x: int | 0 <= x < 0x1_0000

  /** The values of a Windows `LONG`. */
  type i32 = x: int | -0x8000_0000 <= x < 0x8000_0000

  /** Reduction modulo 2^32: what storing an integer into a `uint32_t` does. */
  function Wrap(x: int): (r: u32)
    ensures 0 <= x < Modulus ==> r == x
    ensures Modulus <= x < 2 * Modulus ==> r == x - Modulus
    ensures -Modulus <= x < 0 ==> r == x + Modulus
  {
    x % Modulus
  }

  function Add(a: u32, b: u32): u32 { Wrap(a + b) }

  function Sub(a: u32, b: u32): u32 { Wrap(a - b) }

  function Mul(a: u32, b: u32): u32 { Wrap(a * b) }

  /** Unsigned division; C truncates, which for non-negative operands is Dafny's `/`. */
  function Div(a: u32, b: u32): u32
    requires b != 0
  {
    a / b
  }

  /** Stores an integer into a `LONG`: keeps the low 32 bits and reads them as two's complement. */
  function ToInt32(x: int): (r: i32)
    ensures Wrap(r) == Wrap(x)
    ensures 0 <= x < 0x8000_0000 ==> r == x
  {
    var w := Wrap(x);
    if w < 0x8000_0000 then w else w - Modulus
  }

  /** A product of two `uint32_t` operands is exact exactly when it stays below 2^32. */
  lemma MulExact(a: u32, b: u32)
    ensures a * b < Modulus <==> Mul(a, b) == a * b
  {
  }

  /** `a * b * c` evaluated left to right in `uint32_t` is the exact product reduced modulo 2^32. */
  lemma {:induction false} Mul3Wraps(a: u32, b: u32, c: u32)
    ensures Mul(Mul(a, b), c) == (a * b * c) % Modulus
  {
    var q := (a * b) / Modulus;
    assert a * b == q * Modulus + Mul(a, b);
    assert a * b * c == (q * c) * Modulus + Mul(a, b) * c;
    ModShift(Mul(a, b) * c, q * c);
  }

  lemma ModShift(x: int, k: int)
    ensures (k * Modulus + x) % Modulus == x % Modulus
  {
  }
}
