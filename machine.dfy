/** Java's fixed-width integers, as subsets of Dafny's unbounded `int`, and the
    two's-complement wrap-around that int arithmetic performs. */
module Machine {

  const INT_MIN: int := -0x8000_0000
  const INT_MAX: int := 0x7FFF_FFFF
  const LONG_MIN: int := -0x8000_0000_0000_0000
  const LONG_MAX: int := 0x7FFF_FFFF_FFFF_FFFF

  /** A Java `int`. */
  type int32 = x: int | -0x8000_0000 <= x < 0x8000_0000

  /** A Java `long`. */
  type int64 = x: int | -0x8000_0000_0000_0000 <= x < 0x8000_0000_0000_0000

  /** The `int` that 32-bit two's-complement arithmetic yields for the exact value `x`. */
  function Wrap32(x: int): (r: int32)
    ensures (x - r) % 0x1_0000_0000 == 0
    ensures INT_MIN <= x <= INT_MAX ==> r == x
  {
    var m := x % 0x1_0000_0000;
    if m < 0x8000_0000 then m else m - 0x1_0000_0000
  }

  /** The `long` that 64-bit two's-complement arithmetic yields for the exact value `x`. */
  function Wrap64(x: int): (r: int64)
    ensures (x - r) % 0x1_0000_0000_0000_0000 == 0
    ensures LONG_MIN <= x <= LONG_MAX ==> r == x
  {
    var m := x % 0x1_0000_0000_0000_0000;
    if m < 0x8000_0000_0000_0000 then m else m - 0x1_0000_0000_0000_0000
  }

  /** Two exact values that differ by a multiple of 2^32 wrap to the same `int`. */
  lemma Wrap32Congruent(x: int, y: int, k: int)
    requires x - y == 0x1_0000_0000 * k
    ensures Wrap32(x) == Wrap32(y)
  {
    var a, b := Wrap32(x), Wrap32(y);
    var ka, kb := (x - a) / 0x1_0000_0000, (y - b) / 0x1_0000_0000;
    assert x - a == 0x1_0000_0000 * ka;
    assert y - b == 0x1_0000_0000 * kb;
    assert a - b == 0x1_0000_0000 * (k - ka + kb);
  }

  /** One step `31 * h + e` of a 32-bit hash loop: wrapping `h` first changes nothing. */
  lemma HashStep(h: int, e: int)
    ensures Wrap32(31 * Wrap32(h) + e) == Wrap32(31 * h + e)
  {
    var w := Wrap32(h);
    var k := (h - w) / 0x1_0000_0000;
    assert h - w == 0x1_0000_0000 * k;
    Wrap32Congruent(31 * h + e, 31 * w + e, 31 * k);
  }

  function Max(a: int, b: int): (r: int)
    ensures r >= a && r >= b && (r == a || r == b)
  {
    if a >= b then a else b
  }

  function Min(a: int, b: int): (r: int)
    ensures r <= a && r <= b && (r == a || r == b)
  {
    if a <= b then a else b
  }
}
