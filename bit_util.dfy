/** Powers of two and shift amounts for the timer wheel. `IsPowerOfTwo`
    models `BitUtil.isPowerOfTwo`; BitUtil.java is not part of this model, so
    it is defined by what it computes. `TrailingZeros` models the JDK's
    `Long.numberOfTrailingZeros` and `Integer.numberOfTrailingZeros`, which
    the wheel calls directly, on the powers of two it passes them. */
module BitUtil {

  function Pow2(k: nat): (r: nat)
    ensures r >= 1
  {
    if k == 0 then 1 else 2 * Pow2(k - 1)
  }

  /** `BitUtil.isPowerOfTwo`: true exactly for 1, 2, 4, 8, ... */
  predicate IsPowerOfTwo(x: int)
    decreases if x > 0 then x else 0
  {
    x > 0 && (x == 1 || (x % 2 == 0 && IsPowerOfTwo(x / 2)))
  }

  /** `Long.numberOfTrailingZeros` / `Integer.numberOfTrailingZeros` of a power of two: its base-2 logarithm. */
  function TrailingZeros(x: int): (k: nat)
    requires IsPowerOfTwo(x)
    ensures Pow2(k) == x
    decreases x
  {
    if x == 1 then 0 else TrailingZeros(x / 2) + 1
  }

  lemma {:induction false} Pow2IsPowerOfTwo(k: nat)
    ensures IsPowerOfTwo(Pow2(k))
  {
    if k > 0 {
      Pow2IsPowerOfTwo(k - 1);
      assert Pow2(k) / 2 == Pow2(k - 1);
    }
  }

  lemma {:induction false} Pow2Add(a: nat, b: nat)
    ensures Pow2(a + b) == Pow2(a) * Pow2(b)
  {
    if a > 0 {
      Pow2Add(a - 1, b);
    }
  }

  lemma {:induction false} Pow2Monotone(a: nat, b: nat)
    requires a <= b
    ensures Pow2(a) <= Pow2(b)
  {
    if a < b {
      Pow2Monotone(a, b - 1);
    }
  }
}
