/** Powers of two and of sixty-four, the radices of the bit packing in the codecs. */
module Radix {
  function Pow2(n: int): nat
    decreases n
  {
    if n <= 0 then 1 else 2 * Pow2(n - 1)
  }

  function Pow64(n: nat): (p: nat)
    ensures p >= 1
  {
    if n == 0 then 1 else 64 * Pow64(n - 1)
  }

  /** Six more bits multiply the range by at most 64 (exactly 64 once the width is at least 6). */
  lemma Pow2Step(n: int)
    ensures Pow2(n) <= 64 * Pow2(n - 6)
    ensures n >= 6 ==> Pow2(n) == 64 * Pow2(n - 6)
  {
    if n >= 6 {
      calc {
        Pow2(n);
        2 * Pow2(n - 1);
        4 * Pow2(n - 2);
        8 * Pow2(n - 3);
        16 * Pow2(n - 4);
        32 * Pow2(n - 5);
        64 * Pow2(n - 6);
      }
    } else if n > 0 {
      Pow2Monotonic(n, 6);
      assert Pow2(6) == 64;
    }
  }

  lemma {:induction false} Pow2Monotonic(m: int, n: int)
    requires m <= n
    ensures Pow2(m) <= Pow2(n)
    decreases n - m
  {
    if m < n {
      Pow2Monotonic(m, n - 1);
    }
  }

  /**
   * The length of an unpadded base-64 text for n bytes: 4 symbols per full group
   * of 3 bytes, then 2 or 3 symbols for a trailing group of 1 or 2 bytes.
   */
  function Base64Length(n: nat): nat {
    4 * (n / 3) + (if n % 3 == 0 then 0 else n % 3 + 1)
  }
}
