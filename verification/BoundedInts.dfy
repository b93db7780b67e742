/** The fixed-width integers of the wire format and of the component fields.
    Dafny integers are unbounded, so each width is a subset type and every
    wrap-around the source relies on is written out with Wrap32. */
module BoundedInts {

  const TWO_TO_THE_8: int := 0x100
  const TWO_TO_THE_16: int := 0x1_0000
  const TWO_TO_THE_32: int := 0x1_0000_0000

  type u8 = x: int | 0 <= x < TWO_TO_THE_8
  type u16 = x: int | 0 <= x < TWO_TO_THE_16
  type u32 = x: int | 0 <= x < TWO_TO_THE_32
  type i8 = x: int | -128 <= x < 128

  /** uint32_t arithmetic: the value modulo 2^32. */
  function Wrap32(x: int): (r: u32)
    ensures 0 <= x < TWO_TO_THE_32 ==> r == x
    ensures TWO_TO_THE_32 <= x < 2 * TWO_TO_THE_32 ==> r == x - TWO_TO_THE_32
  {
    x % TWO_TO_THE_32
  }

  /** The uint32_t post-increment: one more, with 2^32 - 1 wrapping to 0. */
  function Next32(n: u32): u32 {
    if n == TWO_TO_THE_32 - 1 then 0 else n + 1
  }

  /** The counter n after k post-increments. */
  function Advance32(n: u32, k: nat): u32 {
    if k == 0 then n else Next32(Advance32(n, k - 1))
  }

  /** k post-increments of a uint32_t counter add k modulo 2^32. */
  lemma {:induction false} AdvanceWraps(n: u32, k: nat)
    ensures Advance32(n, k) == Wrap32(n + k)
  {
    if k > 0 {
      AdvanceWraps(n, k - 1);
      Wrap32Add(n + k - 1, 1);
    }
  }

  /** Wrapping after each addition or once at the end gives the same value. */
  lemma Wrap32Add(x: int, y: int)
    ensures Wrap32(Wrap32(x) + y) == Wrap32(x + y)
  {
    var q := x / TWO_TO_THE_32;
    assert x == q * TWO_TO_THE_32 + Wrap32(x);
    assert Wrap32(x) + y == (x + y) - q * TWO_TO_THE_32;
    ModuloShift(x + y, q);
  }

  /** Taking whole multiples of 2^32 off a value leaves its residue as it was. */
  lemma ModuloShift(z: int, q: int)
    ensures (z - q * TWO_TO_THE_32) % TWO_TO_THE_32 == z % TWO_TO_THE_32
  {
  }

  /** uint8_t conversion of a non-negative value (static_cast<uint8_t>). */
  function Trunc8(x: nat): (r: u8)
    ensures x < TWO_TO_THE_8 ==> r == x
    ensures (x - r) % TWO_TO_THE_8 == 0
  {
    x % TWO_TO_THE_8
  }

  /** The post-increment of a uint32_t counter: one more, except that 2^32 - 1
      wraps to 0. */
  lemma Wrap32Increment(n: u32)
    ensures n < TWO_TO_THE_32 - 1 ==> Wrap32(n + 1) == n + 1 && n < Wrap32(n + 1)
    ensures n == TWO_TO_THE_32 - 1 ==> Wrap32(n + 1) == 0
  {
  }
}
