/**
 The ledger: a fixed difficulty and an append-only sequence of blocks, seeded
 with a genesis block that is never mined. Appending links the new block to
 the last block's hash, mines it, and pushes it.
 */
module BlockChain {
  import opened Unsigned
  import opened Acceptance
  import opened Blocks

  /** Difficulty every appended block is mined at. */
  const DIFFICULTY: u32 := 3
  const GENESIS_DATA: string := "Genesis Block"

  datatype Chain = Chain(difficulty: u32, blocks: seq<Block>)

  /** Every block names its predecessor's hash. */
  predicate Linked(blocks: seq<Block>) {
    forall i :: 0 < i < |blocks| ==> blocks[i].prevHash == blocks[i - 1].hash
  }

  /** What every chain built by `NewChain` and `AddBlock` satisfies. */
  predicate Valid(c: Chain) {
    && 1 <= |c.blocks|
    && c.blocks[0] == NewBlock(0, GENESIS_DATA)
    && c.difficulty == DIFFICULTY
    && Linked(c.blocks)
  }

  /** The constructor: difficulty 3 and one unmined genesis block. */
  function NewChain(): (c: Chain)
    ensures Valid(c)
    ensures |c.blocks| == 1
    ensures c.blocks[0].index == 0 && c.blocks[0].data == "Genesis Block"
    ensures c.blocks[0].hash == "" && !c.blocks[0].solved
    ensures c.difficulty == 3
  {
    Chain(DIFFICULTY, [NewBlock(0, GENESIS_DATA)])
  }

  /** `get_last_block`: the final element; the source never calls it on an empty chain. */
  function LastBlock(c: Chain): (r: Block)
    requires 1 <= |c.blocks|
    ensures r in c.blocks
  {
    c.blocks[|c.blocks| - 1]
  }

  /** `get_hash`: a read of the stored hash. */
  function GetHash(b: Block): (h: string)
    ensures h == b.hash
  {
    b.hash
  }

  /** After a push, `get_last_block` yields the pushed block. */
  lemma LastBlockOfPush(c: Chain, b: Block)
    ensures LastBlock(c.(blocks := c.blocks + [b])) == b
  {
  }

  /**
   Pushing a block keeps the chain linked exactly when the block names the
   current last block's hash.
   */
  lemma LinkedAppendIff(blocks: seq<Block>, b: Block)
    requires 1 <= |blocks|
    ensures Linked(blocks + [b])
        <==> Linked(blocks) && b.prevHash == blocks[|blocks| - 1].hash
  {
    var s := blocks + [b];
    assert s[|blocks|] == b;
    assert forall i :: 0 <= i < |blocks| ==> s[i] == blocks[i];
  }

  /**
   `add_block`: set the new block's predecessor hash to the last block's
   hash, mine it at the chain's difficulty, push it. `mined` is false when
   mining did not finish within `fuel` candidates; the source would still be
   searching, and the chain is left as it was.
   */
  method AddBlock(c: Chain, newBlock: Block, sha: string -> string, fuel: nat)
    returns (r: Chain, mined: bool)
    requires 1 <= |c.blocks|
    ensures !mined ==> r == c
    ensures mined ==> |r.blocks| == |c.blocks| + 1
    ensures r.blocks[..|c.blocks|] == c.blocks
    ensures r.difficulty == c.difficulty
    ensures mined ==> LastBlock(r).prevHash == GetHash(LastBlock(c))
    ensures mined ==> LastBlock(r).index == newBlock.index && LastBlock(r).data == newBlock.data
                      && LastBlock(r).time == newBlock.time
    ensures mined && !newBlock.solved ==> Accepts(LastBlock(r).hash, c.difficulty) && LastBlock(r).solved
    ensures mined && newBlock.solved ==> LastBlock(r).hash == newBlock.hash
    ensures Linked(c.blocks) ==> Linked(r.blocks)
    ensures Valid(c) ==> Valid(r)
    ensures newBlock.solved ==> mined
    ensures mined && newBlock.solved ==> LastBlock(r) == newBlock.(prevHash := LastBlock(c).hash)
    ensures !mined ==> forall j :: 1 <= j <= fuel ==>
      !Accepts(Candidate(newBlock.(prevHash := LastBlock(c).hash), j, sha), c.difficulty)
    ensures mined && !newBlock.solved ==>
      (exists k :: 1 <= k <= fuel
        && LastBlock(r).nonce == Advance(newBlock.nonce, k)
        && LastBlock(r).hash == Candidate(newBlock.(prevHash := LastBlock(c).hash), k, sha)
        && (forall j :: 1 <= j < k ==>
              !Accepts(Candidate(newBlock.(prevHash := LastBlock(c).hash), j, sha), c.difficulty)))
    ensures mined && !newBlock.solved ==> LastBlock(r).hash == sha(Preimage(LastBlock(r)))
  {
    var linked := newBlock.(prevHash := GetHash(LastBlock(c)));
    var block, steps := MineBlock(linked, c.difficulty, sha, fuel);
    if block.solved {
      r := c.(blocks := c.blocks + [block]);
      mined := true;
      LinkedAppendIff(c.blocks, block);
      assert r.blocks[0] == c.blocks[0];
      assert LastBlock(r) == block;
      if !newBlock.solved {
        assert block == linked.(nonce := Advance(linked.nonce, steps), solved := true, hash := block.hash);
      }
    } else {
      r := c;
      mined := false;
    }
  }
}
