/** Powers of two, and multiples. */
module Arithmetic {
  /** n * 2^k. */
  function Doubled(n: nat, k: nat): (m: nat)
    ensures n > 0 ==> m > 0
    decreases k
  {
    if k == 0 then n else 2 * Doubled(n, k - 1)
  }

  function Pow2(k: nat): nat {
    Doubled(1, k)
  }

  lemma SmallMultiple(n: int, d: int)
    requires -n < n * d < n
    ensures d == 0
  {
  }
}
