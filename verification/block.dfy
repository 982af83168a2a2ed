/**
 A block of the ledger: immutable identity (index, creation time, payload),
 the hash of its predecessor, and the mining state (nonce counter, solved
 flag, hash). The SHA-256 digest is the parameter `sha`, an arbitrary
 deterministic function from text to text.

 Mining is modelled with a single worker: the nonce counter and the solved
 flag are plain fields. The source's loop has no bound; here it is given a
 `fuel` bound and reports whether the flag was raised within it.
 */
module Blocks {
  import opened Unsigned
  import opened Decimal
  import opened Acceptance

  datatype Block = Block(
    index: u32,
    time: nat,
    data: string,
    prevHash: string,
    nonce: u64,
    solved: bool,
    hash: string)

  /** A block as the constructor leaves it: nonce zero, flag down, hash empty. */
  predicate Unmined(b: Block) {
    b.nonce == 0 && !b.solved && b.hash == ""
  }

  /** The fields mining never touches. */
  predicate SameIdentity(a: Block, b: Block) {
    a.index == b.index && a.time == b.time && a.data == b.data && a.prevHash == b.prevHash
  }

  /**
   The constructor: the creation time is the index itself, so that runs are
   reproducible; the predecessor hash starts as the empty string.
   */
  function NewBlock(index: u32, data: string): (b: Block)
    ensures b.index == index && b.data == data
    ensures b.time == index
    ensures Unmined(b)
    ensures b.prevHash == ""
  {
    Block(index, index, data, "", 0, false, "")
  }

  /** The text hashed for a candidate: index, time, data, nonce, predecessor hash. */
  function Preimage(b: Block): string {
    Dec(b.index) + Dec(b.time) + b.data + Dec(b.nonce) + b.prevHash
  }

  /**
   One candidate: pre-increment the nonce, then digest the block's fields with
   the new nonce. Returns the updated block and the candidate digest.
   */
  function CalculateHash(b: Block, sha: string -> string): (r: (Block, string))
    ensures r.0.nonce == Advance(b.nonce, 1)
    ensures b.nonce + 1 < U64_MOD ==> r.0.nonce == b.nonce + 1
    ensures r.0 == b.(nonce := r.0.nonce)
    ensures r.1 == sha(Preimage(r.0))
  {
    var next := b.(nonce := Advance(b.nonce, 1));
    (next, sha(Preimage(next)))
  }

  /** The digest returned by the `k`-th call of `CalculateHash` starting from `b`. */
  function Candidate(b: Block, k: nat, sha: string -> string): string {
    sha(Preimage(b.(nonce := Advance(b.nonce, k))))
  }

  /**
   The pre-image determines the nonce: with the other fields fixed, two
   different nonces never give the same hashed text.
   */
  lemma PreimageDeterminesNonce(b: Block, n1: u64, n2: u64)
    requires Preimage(b.(nonce := n1)) == Preimage(b.(nonce := n2))
    ensures n1 == n2
  {
    var p := Dec(b.index) + Dec(b.time) + b.data;
    var s1 := Preimage(b.(nonce := n1));
    var s2 := Preimage(b.(nonce := n2));
    assert s1 == p + Dec(n1) + b.prevHash;
    assert s2 == p + Dec(n2) + b.prevHash;
    assert |Dec(n1)| == |Dec(n2)|;
    assert s1[|p|..|p| + |Dec(n1)|] == Dec(n1);
    assert s2[|p|..|p| + |Dec(n2)|] == Dec(n2);
    DecInjective(n1, n2);
  }

  /**
   A single worker never hashes the same text twice: fewer than 2^64
   successive candidates all have different pre-images.
   */
  lemma CandidatePreimagesDistinct(b: Block, j: nat, k: nat)
    requires j < k < j + U64_MOD
    ensures Preimage(b.(nonce := Advance(b.nonce, j))) != Preimage(b.(nonce := Advance(b.nonce, k)))
  {
    AdvanceDistinct(b.nonce, j, k);
    if Preimage(b.(nonce := Advance(b.nonce, j))) == Preimage(b.(nonce := Advance(b.nonce, k))) {
      PreimageDeterminesNonce(b, Advance(b.nonce, j), Advance(b.nonce, k));
    }
  }

  /**
   `mine_block` with one worker: while the flag is down, compute a candidate;
   if it meets the target and the flag is still down, raise the flag and
   store that captured candidate as the hash. `steps` counts the candidates
   computed; the loop stops after `fuel` of them if none was accepted.
   */
  method MineBlock(b: Block, difficulty: nat, sha: string -> string, fuel: nat)
    returns (r: Block, steps: nat)
    ensures SameIdentity(r, b)
    ensures steps <= fuel
    ensures r.nonce == Advance(b.nonce, steps)
    ensures b.solved ==> r == b && steps == 0
    ensures !b.solved && r.solved ==>
      1 <= steps && r.hash == Candidate(b, steps, sha) && Accepts(r.hash, difficulty)
    ensures !b.solved ==>
      forall j :: 1 <= j < steps ==> !Accepts(Candidate(b, j, sha), difficulty)
    ensures !r.solved ==>
      steps == fuel && r.hash == b.hash
      && forall j :: 1 <= j <= fuel ==> !Accepts(Candidate(b, j, sha), difficulty)
    ensures !b.solved && difficulty == 0 && fuel >= 1 ==> r.solved && steps == 1
  {
    r := b;
    steps := 0;
    while !r.solved && steps < fuel
      invariant steps <= fuel
      invariant SameIdentity(r, b)
      invariant r.nonce == Advance(b.nonce, steps)
      invariant b.solved ==> r == b && steps == 0
      invariant !r.solved ==> r.hash == b.hash
      invariant !b.solved && r.solved ==>
        1 <= steps && r.hash == Candidate(b, steps, sha) && Accepts(r.hash, difficulty)
      invariant !b.solved ==>
        forall j :: 1 <= j < steps ==> !Accepts(Candidate(b, j, sha), difficulty)
      invariant !r.solved ==>
        forall j :: 1 <= j <= steps ==> !Accepts(Candidate(b, j, sha), difficulty)
      decreases fuel - steps
    {
      var (next, local) := CalculateHash(r, sha);
      AdvanceStep(b.nonce, steps);
      assert next == b.(nonce := Advance(b.nonce, steps + 1)).(solved := r.solved, hash := r.hash);
      assert local == Candidate(b, steps + 1, sha);
      r := next;
      steps := steps + 1;
      if Accepts(local, difficulty) && !r.solved {
        r := r.(solved := true, hash := local);
      }
    }
    AcceptsZeroDifficulty(Candidate(b, 1, sha));
  }
}
