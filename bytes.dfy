/** Fixed-width integers and the arithmetic facts the codecs rely on.
    The source stores every value in a Uint8Array; masks and shifts of
    non-negative values are written here as division and remainder by
    powers of two. */
module Bytes {

  /** A byte, as stored in a Uint8Array. */
  type u8 = x: int | 0 <= x < 0x100

  /** A packed 16-bit value (an RGB565 colour). */
  type u16 = x: int | 0 <= x < 0x1_0000

  /** A positive multiple of a positive number is at least that number. */
  lemma MulAtLeast(k: int, b: int)
    ensures k >= 1 && b > 0 ==> k * b >= b
  {
    if k >= 1 && b > 0 {
      assert k * b == (k - 1) * b + b;
    }
  }

  /** `x >> n` for a non-negative x: n halvings, each dropping the low bit. */
  function Shr(x: nat, n: nat): nat
  {
    if n == 0 then x else Shr(x / 2, n - 1)
  }

  /** The 2-bit field j of a byte, bits 2j and 2j + 1. */
  function Crumb(b: u8, j: nat): (c: nat)
    requires j < 4
    ensures c < 4
  {
    if j == 0 then b % 4
    else if j == 1 then b / 4 % 4
    else if j == 2 then b / 16 % 4
    else b / 64
  }

  /** `(b >> 2j) & 3` is the 2-bit field j. */
  lemma CrumbShift(b: u8, j: nat)
    requires j < 4
    ensures Shr(b, 2 * j) % 4 == Crumb(b, j)
  {
    var h1 := b / 2;
    var h2 := h1 / 2;
    var h3 := h2 / 2;
    var h4 := h3 / 2;
    var h5 := h4 / 2;
    var h6 := h5 / 2;
    assert Shr(b, 2) == Shr(h1, 1) == Shr(h2, 0) == b / 4;
    assert Shr(b, 4) == Shr(h1, 3) == Shr(h2, 2) == Shr(h3, 1) == Shr(h4, 0) == b / 16;
    assert Shr(b, 6) == Shr(h1, 5) == Shr(h2, 4) == Shr(h3, 3) == Shr(h4, 2)
      == Shr(h5, 1) == Shr(h6, 0) == b / 64;
  }

  /** Multiplying both sides of an inequality by a natural number keeps it. */
  lemma MulMono(a: int, b: int, c: nat)
    requires a <= b
    ensures a * c <= b * c
    decreases c
  {
    if c > 0 {
      MulMono(a, b, c - 1);
      assert a * c == a * (c - 1) + a;
      assert b * c == b * (c - 1) + b;
    }
  }

  /** Uniqueness of Euclidean division: the quotient and remainder of a by b
      are the only pair that reassembles a with a remainder below b. */
  lemma DivModUnique(a: int, b: int, q: int, r: int)
    requires 0 < b && 0 <= r < b && a == q * b + r
    ensures a / b == q && a % b == r
  {
    var q', r' := a / b, a % b;
    assert (q - q') * b == r' - r;
    assert (q' - q) * b == r - r';
    MulAtLeast(q - q', b);
    MulAtLeast(q' - q, b);
  }

  /** Little-endian 16-bit split: low byte and high byte reassemble the value. */
  lemma SplitWord(c: u16)
    ensures c % 0x100 + c / 0x100 * 0x100 == c
    ensures 0 <= c / 0x100 < 0x100
  {
  }
}
