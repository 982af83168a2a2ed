# parallel-bchain: a verified model of the block miner and the chain

This project models, in Dafny, the sequential core of a small proof-of-work
ledger written in C++. A `block` carries an index, a creation time equal to
the index, a data payload, the hash of its predecessor, and mining state: a
64-bit nonce counter, a "solved" flag and the final hash. Mining repeatedly
increments the nonce, digests `index ++ time ++ data ++ nonce ++ prev_hash`
with SHA-256, and stops when the digest starts with `difficulty` zero
characters, storing that captured digest. The `block_chain` seeds an unmined
genesis block at difficulty 3, and `add_block` links each new block to the
last block's hash, mines it and appends it. A heuristic chooses the number of
pool workers from the difficulty and the hardware thread count.

Modules:

- `Unsigned` (`unsigned.dfy`): `uint32_t`/`uint64_t` as subsets of `nat`, and
  the wrapping nonce increment.
- `Decimal` (`decimal.dfy`): the decimal text `std::stringstream` writes for an
  unsigned number, with a parser and a round trip.
- `Acceptance` (`acceptance.dfy`): `substr(0, d) == string(d, '0')` and its
  meaning as "at least `d` leading zeros".
- `Blocks` (`block.dfy`): the `block` datatype, its constructor, one candidate
  hash, and the mining loop with a single worker.
- `ThreadCount` (`thread_count.dfy`): the worker-count arithmetic, with the
  source's unsigned wrap-around.
- `BlockChain` (`block_chain.dfy`): the chain, its constructor, `add_block`
  and the linkage invariant.

SHA-256 is the parameter `sha: string -> string`. It is an arbitrary
deterministic function, and no property of the model depends on what it
computes. The hardware thread count is the parameter `hw`.

## Model

| member | source | states |
|---|---|---|
| Unsigned.Advance | thread-pool_impl/src/block_chain.cpp:114 | the nonce after `k` pre-increments of a `uint64_t` counter: `n + k` until it passes 2^64, then wrapped |
| Unsigned.AdvanceStep | thread-pool_impl/src/block_chain.cpp:114 | one more increment after `k` increments is the same as `k + 1` increments, wrap-around included |
| Unsigned.AdvanceDistinct | thread-pool_impl/src/block_chain.h:27-28 | fewer than 2^64 increments never return the counter to a value it already had |
| Decimal.Dec | thread-pool_impl/src/block_chain.cpp:113-114 | the stream text of an integer is non-empty, all decimal digits, with no leading zero unless the number is zero |
| Decimal.ParseDecOfDec | thread-pool_impl/src/block_chain.cpp:113-114 | reading the decimal text back yields the original number |
| Decimal.DecInjective | thread-pool_impl/src/block_chain.cpp:113-114 | two different numbers never render as the same text |
| Acceptance.Prefix | thread-pool_impl/src/block_chain.cpp:69 | `substr(0, count)` is a prefix of the string, of length `count` or the whole string when it is shorter |
| Acceptance.Zeros | thread-pool_impl/src/block_chain.cpp:66 | `string(d, '0')` has length `d` and only `'0'` characters |
| Acceptance.LeadingZeros | thread-pool_impl/src/block_chain.h:12-13 | the count of leading `'0'` characters: all of them are zeros, and the next character is not |
| Acceptance.AcceptsIff | thread-pool_impl/src/block_chain.cpp:68-70 | a digest passes at difficulty `d` exactly when it has at least `d` characters and the first `d` are all `'0'`; a shorter digest never passes |
| Acceptance.AcceptsIffLeadingZeros | thread-pool_impl/src/block_chain.h:12-14 | passing at difficulty `d` is the same as having at least `d` leading zeros |
| Acceptance.AcceptsAntitone | thread-pool_impl/src/block_chain.cpp:68-70 | a digest that passes at some difficulty passes at every lower one |
| Acceptance.AcceptsZeroDifficulty | thread-pool_impl/src/block_chain.cpp:66-70 | at difficulty 0 every digest passes, the empty one included |
| Blocks.NewBlock | thread-pool_impl/src/block_chain.cpp:18-24 | a new block has the given index and data, time equal to the index, nonce 0, flag down, and empty hash and predecessor hash |
| Blocks.CalculateHash | thread-pool_impl/src/block_chain.cpp:112-116 | the nonce goes up by exactly one (wrapping at 2^64), no other field changes, and the candidate is the digest of the pre-image built with the post-increment nonce |
| Blocks.PreimageDeterminesNonce | thread-pool_impl/src/block_chain.cpp:113-114 | with the other fields fixed, the hashed text determines the nonce |
| Blocks.CandidatePreimagesDistinct | thread-pool_impl/src/block_chain.cpp:67-68 | within 2^64 candidates a single worker never digests the same text twice |
| Blocks.MineBlock | thread-pool_impl/src/block_chain.cpp:64-75 | mining leaves index, time, data and predecessor hash alone, advances the nonce once per candidate, and stores the first accepted candidate as the hash (the captured local, not a recomputation). An already-solved block is returned unchanged, so the hash is written once. At difficulty 0 exactly one candidate is computed. If the search stops unsolved, no candidate in the range passed |
| ThreadCount.HardwareThreadCount | thread-pool_impl/src/block_chain.cpp:30-34 | `hardware_concurrency() - 1u` is one less than the count, and wraps to 2^32 - 1 when the count is 0 |
| ThreadCount.DynamicThreadCount | thread-pool_impl/src/block_chain.cpp:31-35 | the dynamic term is `2 + max_difficulty - max_difficulty / difficulty`, between 2 and `2 + max_difficulty`; it is 2 at difficulty 1 and `2 + max_difficulty` above `max_difficulty`; difficulty must be positive |
| ThreadCount.OptimalThreadCount | thread-pool_impl/src/block_chain.cpp:29-43 | difficulty 1 gives 2 workers for any hardware count; difficulty 2 or more gives `max(hw - 1, 8 - 6 / difficulty)`, at least 5 and never below the hardware term, and 2^32 - 1 when `hw` is 0 |
| ThreadCount.QuotientAntitone | thread-pool_impl/src/block_chain.cpp:35 | unsigned division by a larger difficulty never gives a larger quotient |
| ThreadCount.DynamicMonotone | thread-pool_impl/src/block_chain.cpp:35 | the dynamic term never decreases as the difficulty rises |
| ThreadCount.OptimalMonotone | thread-pool_impl/src/block_chain.cpp:38-41 | the chosen worker count never decreases as the difficulty rises |
| ThreadCount.DynamicTable | thread-pool_impl/src/block_chain.cpp:29-35 | at the default maximum of 6 the dynamic term is 2, 5, 6, 7, 7, 7 for difficulties 1 to 6 and 8 beyond, so it never exceeds 8 |
| BlockChain.NewChain | thread-pool_impl/src/block_chain.cpp:118-120 | a new chain has difficulty 3 and exactly one block, the unmined genesis block with index 0, data "Genesis Block" and an empty hash |
| BlockChain.LinkedAppendIff | thread-pool_impl/src/block_chain.cpp:122-126 | pushing a block keeps every adjacent pair linked exactly when the block names the current last block's hash |
| BlockChain.AddBlock | thread-pool_impl/src/block_chain.cpp:122-126 | the new block is linked to the last block's hash and mined. If some candidate within `fuel` passes, or the block was already solved, the block is pushed, and the chain grows by one while earlier blocks and the difficulty stay unchanged. The pushed block keeps its index, time and data, and names the old last block's hash. A block that was not yet solved carries the first passing candidate, the digest of its own fields at a nonce the loop reached; an already-solved block is pushed with its hash as it was. Otherwise no candidate in the range passed and the chain is unchanged. The linkage invariant and the whole chain invariant are preserved |
| BlockChain.LastBlock | thread-pool_impl/src/block_chain.h:47 | `get_last_block` needs a non-empty chain and returns one of its blocks |
| BlockChain.LastBlockOfPush | thread-pool_impl/src/block_chain.h:47 | after a push, `get_last_block` yields the pushed block |
| BlockChain.GetHash | thread-pool_impl/src/block_chain.h:16-18 | `get_hash` is a pure read of the stored hash |

`LastBlock` requires a non-empty chain, which `Valid` guarantees from
construction onward. `_chain` and
`_difficulty` are private, and `add_block` is the only mutator
(`block_chain.h:42-53`). So every chain the class can hold is reached from
`NewChain` through `AddBlock`, which keeps `Valid`: the chain is append-only
and the difficulty never changes.

## Left out

- The thread pool (`tpool`, `add_task`, futures and `get`) is not part of this
  model. Mining is modelled with one worker, and the worker count is computed
  but not used.
- True concurrency and atomics: the nonce and the flag are plain fields. The
  source's check and set of the flag (lines 70-71) is a load followed by a
  store, not a compare-and-set. So "exactly one winner" does not hold there,
  and it is not claimed here.
- SHA-256 (`sha256.h`) is not part of this model. It is the parameter `sha`.
- Timing, the averaging of execution times and console output (lines 49-61,
  83-90, 104-109).
- The function-local statics `pool` (line 48) and `str` (line 66) are fixed at
  the first call. The model takes the difficulty as a parameter at every
  call, which matches the chain, since it always passes the same value.
- Blocks.MineBlock: the source loops until a candidate passes and may never
  return. The model stops after `fuel` candidates and reports an unsolved
  block. Its results are stated for the case where the flag is raised, and
  for the exhausted range otherwise.
- BlockChain.AddBlock: when no candidate within `fuel` passes, it returns
  the chain unchanged with `mined` false, where the source would still be
  mining. Its contract states exactly when this happens.
- Copies of a `block` share the nonce counter and the flag through
  `shared_ptr` in the source. The model gives blocks value semantics.
- `_time` is a `long` built from the `uint32_t` index. The model takes `long`
  to be 64 bits wide, so the time equals the index. With a 32-bit `long`,
  indices from 2^31 up would give a negative time.
- ThreadCount.DynamicThreadCount: requires `max_difficulty < 2^31`, so that
  the cast to `int` is exact and `std::abs` is defined. The only call uses
  the default 6.
- ThreadCount.OptimalThreadCount: difficulty 0 divides by zero in the source,
  which is undefined behaviour, so the model requires a positive difficulty.
- C++ `std::string` holds bytes, while the model's `string` is a sequence of
  `char`, one `char` per byte of the payload, the hashes and `substr`. No
  property depends on this: the digest is opaque and the decimal text is
  ASCII.
