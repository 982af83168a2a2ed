/**
 The worker-count heuristic of `mine_block`: few workers at low difficulty,
 up to the hardware thread count less one (kept for the caller's thread) at
 higher difficulty. The hardware thread count is a parameter. The arithmetic
 is the source's: `unsigned int` subtraction wraps modulo 2^32.
 */
module ThreadCount {
  import opened Unsigned

  /** Threads assumed busy outside the pool (the caller's own). */
  const POTENTIALLY_USED_THREAD_COUNT: nat := 1
  /** Lower end of the dynamic term. */
  const MINIMUM_THREAD_COUNT: nat := 2
  /** Default argument of the heuristic. */
  const MAX_DIFFICULTY: nat := 6

  /** `hardware_concurrency() - 1u` in `unsigned int` arithmetic. */
  function HardwareThreadCount(hw: u32): (r: u32)
    ensures hw >= POTENTIALLY_USED_THREAD_COUNT ==> r == hw - POTENTIALLY_USED_THREAD_COUNT
    ensures hw == 0 ==> r == U32_MOD - 1
  {
    (hw + U32_MOD - POTENTIALLY_USED_THREAD_COUNT) % U32_MOD
  }

  /**
   `2u + maxDifficulty - abs(int(maxDifficulty / difficulty))`. The quotient
   is exact in `int` and non-negative because `maxDifficulty < 2^31`, so the
   `abs` is the identity; the unsigned sum and difference are written modulo
   2^32 as in the source.
   */
  function DynamicThreadCount(difficulty: u32, maxDifficulty: u32): (r: u32)
    requires difficulty > 0
    requires maxDifficulty < 0x8000_0000
    ensures r + maxDifficulty / difficulty == MINIMUM_THREAD_COUNT + maxDifficulty
    ensures MINIMUM_THREAD_COUNT <= r <= MINIMUM_THREAD_COUNT + maxDifficulty
    ensures difficulty == 1 ==> r == MINIMUM_THREAD_COUNT
    ensures difficulty > maxDifficulty ==> r == MINIMUM_THREAD_COUNT + maxDifficulty
  {
    var quotient := maxDifficulty / difficulty;
    QuotientBound(maxDifficulty, difficulty);
    QuotientSmall(maxDifficulty, difficulty);
    var sum := (MINIMUM_THREAD_COUNT + maxDifficulty) % U32_MOD;
    ModInRange(MINIMUM_THREAD_COUNT + maxDifficulty);
    assert sum == MINIMUM_THREAD_COUNT + maxDifficulty;
    var difference := sum - quotient;
    ModInRange(difference);
    assert (difference + U32_MOD) % U32_MOD == difference;
    (difference + U32_MOD) % U32_MOD
  }

  /**
   `optimal_thread_count()` with its default `max_difficulty` of 6: the
   dynamic term below difficulty 2, otherwise the larger of the hardware and
   dynamic terms. Difficulty 0 is a division by zero in the source.
   */
  function OptimalThreadCount(difficulty: u32, hw: u32): (r: u32)
    requires difficulty > 0
    ensures difficulty == 1 ==> r == 2
    ensures difficulty >= 2 ==> r >= 5
    ensures difficulty >= 2 ==> r >= HardwareThreadCount(hw)
    ensures difficulty >= 2 && hw >= 1 ==> r == Max(hw - 1, 8 - 6 / difficulty)
    ensures hw == 0 && difficulty >= 2 ==> r == U32_MOD - 1
  {
    var dynamic := DynamicThreadCount(difficulty, MAX_DIFFICULTY);
    if difficulty < 2 then dynamic else Max(HardwareThreadCount(hw), dynamic)
  }

  function Max(a: nat, b: nat): nat {
    if a < b then b else a
  }

  /** Integer division by a larger divisor never gives a larger quotient. */
  lemma QuotientAntitone(m: nat, d1: nat, d2: nat)
    requires 0 < d1 <= d2
    ensures m / d2 <= m / d1
  {
    var q := m / d2;
    assert q * d2 <= m by {
      DivisionFloor(m, d2);
    }
    MulMonotone(q, d1, d2);
    QuotientMaximal(q, d1, m);
  }

  /** The quotient is at most the dividend. */
  lemma QuotientBound(m: nat, d: nat)
    requires 0 < d
    ensures m / d <= m
  {
    QuotientAntitone(m, 1, d);
  }

  /** Dividing by one is the identity; dividing by more than the dividend gives zero. */
  lemma QuotientSmall(m: nat, d: nat)
    requires 0 < d
    ensures d == 1 ==> m / d == m
    ensures d > m ==> m / d == 0
  {
  }

  lemma DivisionFloor(m: nat, d: nat)
    requires 0 < d
    ensures (m / d) * d <= m < (m / d + 1) * d
  {
  }

  /** Any `q` with `q * d <= m` is at most `m / d`. */
  lemma QuotientMaximal(q: nat, d: nat, m: nat)
    requires 0 < d
    requires q * d <= m
    ensures q <= m / d
  {
    DivisionFloor(m, d);
    MulMonotoneConverse(q, m / d + 1, d);
  }

  lemma MulMonotone(a: nat, b: nat, c: nat)
    requires b <= c
    ensures a * b <= a * c
  {
  }

  lemma MulMonotoneConverse(a: nat, b: nat, d: nat)
    ensures b <= a ==> b * d <= a * d
  {
  }

  /** Unsigned wrap-around is the identity on values already in range. */
  lemma ModInRange(x: int)
    requires 0 <= x < U32_MOD
    ensures x % U32_MOD == x
    ensures (x + U32_MOD) % U32_MOD == x
  {
  }

  /** The dynamic term grows (weakly) with the difficulty. */
  lemma DynamicMonotone(d1: u32, d2: u32, maxDifficulty: u32)
    requires 0 < d1 <= d2
    requires maxDifficulty < 0x8000_0000
    ensures DynamicThreadCount(d1, maxDifficulty) <= DynamicThreadCount(d2, maxDifficulty)
  {
    QuotientAntitone(maxDifficulty, d1, d2);
  }

  /** The worker count never decreases as the difficulty rises. */
  lemma OptimalMonotone(d1: u32, d2: u32, hw: u32)
    requires 0 < d1 <= d2
    ensures OptimalThreadCount(d1, hw) <= OptimalThreadCount(d2, hw)
  {
  }

  /** The dynamic term at the default maximum, difficulty by difficulty. */
  lemma DynamicTable(difficulty: u32)
    requires difficulty > 0
    ensures DynamicThreadCount(difficulty, MAX_DIFFICULTY) ==
      if difficulty == 1 then 2
      else if difficulty == 2 then 5
      else if difficulty == 3 then 6
      else if difficulty <= 6 then 7
      else 8
  {
  }
}
