/** Fixed-width unsigned integers of the AVR C code, as bounded naturals, with
    the wrap-around of C's unsigned arithmetic written out explicitly. */
module Words {

  const BYTE_MODULUS: int := 0x100
  const WORD_MODULUS: int := 0x1_0000_0000

  /** `uint8_t` / `unsigned char` */
  type uint8 = x: int | 0 <= x < 0x100

  /** `uint32_t` / `unsigned long` (32 bits on AVR) */
  type uint32 = x: int | 0 <= x < 0x1_0000_0000

  const MAX_UINT32: uint32 := 0xFFFF_FFFF

  /** `a + b` on two `uint32_t` operands: the sum wraps at 2^32. */
  function Add32(a: uint32, b: uint32): (r: uint32)
    ensures a + b < WORD_MODULUS ==> r == a + b
    ensures a + b >= WORD_MODULUS ==> r == a + b - WORD_MODULUS
  {
    (a + b) % WORD_MODULUS
  }

  /** `a - b` on two `uint32_t` operands: a negative difference wraps. */
  function Sub32(a: uint32, b: uint32): (r: uint32)
    ensures a >= b ==> r == a - b
    ensures a < b ==> r == a - b + WORD_MODULUS
  {
    (a - b) % WORD_MODULUS
  }

  /** `a * b` on two `uint32_t` operands: only the low 32 bits survive. */
  function Mul32(a: uint32, b: uint32): (r: uint32)
    ensures a * b < WORD_MODULUS ==> r == a * b
  {
    var product: nat := a * b;
    product % WORD_MODULUS
  }

  /** Conversion of a `uint32_t` to `uint8_t`: keeps the low byte. */
  function Low8(x: uint32): (r: uint8)
    ensures x < BYTE_MODULUS ==> r == x
    ensures x == MAX_UINT32 ==> r == 0xFF
  {
    x % BYTE_MODULUS
  }

  /** The value an AVR `char` (signed, 8 bits) holds when given byte `b`. */
  function AsChar(b: uint8): (c: int)
    ensures -128 <= c < 128
    ensures (c < 0) <==> (b >= 128)
    ensures c >= 0 ==> c == b
  {
    if b < 128 then b else b - BYTE_MODULUS
  }

  /** The product of two non-negative integers is non-negative. */
  lemma MulNonNegative(x: int, y: int)
    ensures x >= 0 && y >= 0 ==> x * y >= 0
  {
  }

  /** A quotient is pinned down by the interval the dividend lies in. */
  lemma QuotientUnique(x: int, d: int, q: int)
    requires d > 0 && d * q <= x < d * q + d
    ensures x / d == q
  {
    var q' := x / d;
    MulNonNegative(d, q' - q - 1);
    MulNonNegative(d, q - q' - 1);
  }

  /** Incrementing commutes with reduction modulo 2^32. */
  lemma ModSucc(a: nat)
    ensures (a % WORD_MODULUS + 1) % WORD_MODULUS == (a + 1) % WORD_MODULUS
  {
    var q, r := a / WORD_MODULUS, a % WORD_MODULUS;
    if r + 1 < WORD_MODULUS {
      QuotientUnique(r + 1, WORD_MODULUS, 0);
      QuotientUnique(a + 1, WORD_MODULUS, q);
    } else {
      QuotientUnique(r + 1, WORD_MODULUS, 1);
      QuotientUnique(a + 1, WORD_MODULUS, q + 1);
    }
  }

  /** Dividing a multiple of `d` by `d` gives the other factor back. */
  lemma DivOfMultiple(d: int, b: int)
    requires d > 0
    ensures d * b / d == b
  {
    QuotientUnique(d * b, d, b);
  }
}
