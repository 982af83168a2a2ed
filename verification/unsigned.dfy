/**
 Fixed-width unsigned integers of the C++ source (`uint32_t`, `uint64_t`,
 `unsigned int`), as subsets of `nat`, with their modular increment.
 */
module Unsigned {

  const U32_MOD: nat := 0x1_0000_0000
  const U64_MOD: nat := 0x1_0000_0000_0000_0000

  type u32 = x: nat | x < U32_MOD
  type u64 = x: nat | x < U64_MOD

  /** The value of a `uint64_t` counter after `k` pre-increments starting at `n`. */
  function Advance(n: u64, k: nat): (r: u64)
    ensures n + k < U64_MOD ==> r == n + k
    ensures n + k >= U64_MOD && k < U64_MOD ==> r == n + k - U64_MOD
  {
    (n + k) % U64_MOD
  }

  /** One more increment continues the same count. */
  lemma AdvanceStep(n: u64, k: nat)
    ensures Advance(Advance(n, k), 1) == Advance(n, k + 1)
  {
  }

  /** Fewer than 2^64 increments never bring the counter back to a value it had. */
  lemma AdvanceDistinct(n: u64, j: nat, k: nat)
    requires j < k < j + U64_MOD
    ensures Advance(n, j) != Advance(n, k)
  {
  }
}
