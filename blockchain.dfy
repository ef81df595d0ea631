/** The chain: a sequence of blocks that only grows, starting with a genesis
    block, with a fixed proof-of-work difficulty, and a validity check that
    re-derives every link. */
module Chain {
  import opened Primitives
  import opened Blocks

  /** The data of the genesis block. */
  const GenesisData: Json := JString("Genesis Block")

  /** The two checks the validity loop makes on block `i` (from 1 on): its
      stored hash is its recomputed content hash, and its previous hash is
      the stored hash of block `i - 1`. */
  predicate LinkValid(f: Foreign, bs: seq<BlockView>, i: int)
    requires 1 <= i < |bs|
  {
    bs[i].hash == ContentHash(f, bs[i]) && bs[i].previousHash == bs[i - 1].hash
  }

  /** The linkage invariant: every block after genesis points at its
      predecessor's stored hash. */
  predicate Linked(bs: seq<BlockView>) {
    forall i :: 1 <= i < |bs| ==> bs[i].previousHash == bs[i - 1].hash
  }

  /** Appending a block that points at the tip keeps a chain linked. */
  lemma LinkedExtension(bs: seq<BlockView>, b: BlockView)
    requires |bs| > 0 && Linked(bs) && b.previousHash == bs[|bs| - 1].hash
    ensures Linked(bs + [b])
  {
    var ext := bs + [b];
    forall i | 1 <= i < |ext|
      ensures ext[i].previousHash == ext[i - 1].hash
    {
      if i < |bs| {
        assert ext[i] == bs[i] && ext[i - 1] == bs[i - 1];
      }
    }
  }

  /** A valid chain is linked; validity adds that each stored hash is the
      recomputed one. */
  lemma ValidIsLinked(f: Foreign, bs: seq<BlockView>)
    requires ChainValid(f, bs)
    ensures Linked(bs)
  {
    forall i | 1 <= i < |bs|
      ensures bs[i].previousHash == bs[i - 1].hash
    {
      assert LinkValid(f, bs, i);
    }
  }

  /** Every block after the genesis block passes both checks. The genesis
      block itself is never checked. */
  predicate ChainValid(f: Foreign, bs: seq<BlockView>) {
    forall i :: 1 <= i < |bs| ==> LinkValid(f, bs, i)
  }

  /** Appending a block keeps a chain valid exactly when the new block's
      stored hash is its content hash and it points at the old tip. */
  lemma ValidExtension(f: Foreign, bs: seq<BlockView>, b: BlockView)
    requires |bs| > 0
    ensures ChainValid(f, bs + [b]) <==>
            ChainValid(f, bs) && b.hash == ContentHash(f, b) && b.previousHash == bs[|bs| - 1].hash
  {
    var ext := bs + [b];
    var n := |bs|;
    if ChainValid(f, bs) && b.hash == ContentHash(f, b) && b.previousHash == bs[n - 1].hash {
      forall i | 1 <= i < |ext|
        ensures LinkValid(f, ext, i)
      {
        if i < n {
          assert LinkValid(f, bs, i);
          assert ext[i] == bs[i] && ext[i - 1] == bs[i - 1];
        } else {
          assert ext[i] == b && ext[i - 1] == bs[n - 1];
        }
      }
    }
    if ChainValid(f, ext) {
      forall i | 1 <= i < n
        ensures LinkValid(f, bs, i)
      {
        assert LinkValid(f, ext, i);
        assert ext[i] == bs[i] && ext[i - 1] == bs[i - 1];
      }
      assert LinkValid(f, ext, n);
      assert ext[n] == b && ext[n - 1] == bs[n - 1];
    }
  }

  /** The genesis block's content is never checked: replacing it by any
      block with the same stored hash leaves validity as it was. */
  lemma GenesisContentUnchecked(f: Foreign, bs: seq<BlockView>, g: BlockView)
    requires |bs| > 0 && g.hash == bs[0].hash
    ensures ChainValid(f, bs[0 := g]) <==> ChainValid(f, bs)
  {
    var t := bs[0 := g];
    assert forall i :: 1 <= i < |bs| ==> (LinkValid(f, t, i) <==> LinkValid(f, bs, i));
  }

  /** Overwriting the stored hash of any block but the tip with a value that
      differs from its successor's previous hash breaks validity. */
  lemma HashTamperDetected(f: Foreign, bs: seq<BlockView>, i: nat, h: string)
    requires i + 1 < |bs| && h != bs[i + 1].previousHash
    ensures !ChainValid(f, bs[i := bs[i].(hash := h)])
  {
    var t := bs[i := bs[i].(hash := h)];
    assert !LinkValid(f, t, i + 1);
  }

  /** Overwriting the stored hash of the tip of a valid chain of two or more
      blocks with any other value breaks validity: the tip's own hash check
      fails. With `HashTamperDetected` this covers every block after
      genesis. */
  lemma TipHashTamperDetected(f: Foreign, bs: seq<BlockView>, h: string)
    requires ChainValid(f, bs) && |bs| >= 2 && h != bs[|bs| - 1].hash
    ensures !ChainValid(f, bs[|bs| - 1 := bs[|bs| - 1].(hash := h)])
  {
    var i := |bs| - 1;
    var t := bs[i := bs[i].(hash := h)];
    assert LinkValid(f, bs, i);
    assert !LinkValid(f, t, i);
  }

  /** Under an injective digest and serialiser, changing the data of a
      non-genesis block of a valid chain without recomputing its hash breaks
      validity: that block's own hash check fails. */
  lemma DataTamperDetected(f: Foreign, bs: seq<BlockView>, i: nat, data: Json)
    requires Injective(f.sha256) && Injective(f.stringify)
    requires ChainValid(f, bs) && 1 <= i < |bs| && data != bs[i].data
    ensures !ChainValid(f, bs[i := bs[i].(data := data)])
  {
    var t := bs[i := bs[i].(data := data)];
    assert LinkValid(f, bs, i);
    DataChangeChangesHash(f, bs[i], data);
    assert !LinkValid(f, t, i);
  }

  /** The tampering of the demonstration: change the data of a block that
      has a successor and store its recomputed hash. Under an injective
      digest and serialiser the block's own check passes, but its successor
      still points at the old hash, so a valid chain becomes invalid. */
  lemma RehashTamperDetected(f: Foreign, bs: seq<BlockView>, i: nat, data: Json)
    requires Injective(f.sha256) && Injective(f.stringify)
    requires ChainValid(f, bs) && 1 <= i && i + 1 < |bs| && data != bs[i].data
    ensures !ChainValid(f, bs[i := bs[i].(data := data, hash := ContentHash(f, bs[i].(data := data)))])
  {
    assert LinkValid(f, bs, i) && LinkValid(f, bs, i + 1);
    DataChangeChangesHash(f, bs[i], data);
    HashTamperDetected(f, bs[i := bs[i].(data := data)], i, ContentHash(f, bs[i].(data := data)));
    assert bs[i := bs[i].(data := data)][i := bs[i].(data := data).(hash := ContentHash(f, bs[i].(data := data)))]
        == bs[i := bs[i].(data := data, hash := ContentHash(f, bs[i].(data := data)))];
  }

  /** Under an injective digest and decimal number text, a chain is invalid
      as soon as a block after genesis still carries the hash its constructor
      stored: no `calculateHash` result equals it. */
  lemma UnminedBlockInvalid(f: Foreign, bs: seq<BlockView>, i: nat,
                            index: int, previousHash: string, timestamp: int, data: Json)
    requires Injective(f.sha256) && DecimalNumbers(f)
    requires 1 <= i < |bs| && bs[i].hash == UnminedHash(f, index, previousHash, timestamp, data)
    ensures !ChainValid(f, bs)
  {
    UnminedHashIsStale(f, index, previousHash, timestamp, data, bs[i]);
    assert !LinkValid(f, bs, i);
  }

  class Blockchain {
    /** The digest, serialiser and number conversion every block hash is
        computed with. */
    const foreign: Foreign
    var chain: seq<Block>
    var difficulty: nat

    /** Every block of the chain is hashed with the chain's runtime, as the
        source's blocks all use its one module-level `SHA256`. */
    ghost predicate SameForeign()
      reads this, chain
    {
      forall b :: b in chain ==> b.foreign == foreign
    }

    /** The chain is never empty: it starts with genesis and only grows. */
    ghost predicate Valid()
      reads this, chain
    {
      |chain| > 0 && SameForeign()
    }

    /** The blocks of the chain, as values. */
    function Snapshot(): (s: seq<BlockView>)
      reads this, chain
      ensures |s| == |chain|
      ensures forall i :: 0 <= i < |chain| ==> s[i] == chain[i].View()
    {
      var c := chain;
      seq(|c|, i requires 0 <= i < |c| reads c => c[i].View())
    }

    /** A new chain holds only the genesis block, and mines at difficulty 4.
        `now` stands for the clock reading the genesis block is stamped
        with. */
    constructor (f: Foreign, now: int)
      ensures Valid() && foreign == f && difficulty == 4
      ensures |chain| == 1 && fresh(chain[0])
      ensures chain[0].foreign == f
      ensures chain[0].View() == BlockView(0, "0", now, GenesisData, 0,
                                           UnminedHash(f, 0, "0", now, GenesisData))
      ensures ChainValid(f, Snapshot()) && Linked(Snapshot())
    {
      var genesis := CreateGenesisBlock(f, now);
      foreign := f;
      chain := [genesis];
      difficulty := 4;
    }

    /** Block 0: index 0, data "Genesis Block", previous hash "0", stamped
        with `now`, never mined. */
    static method CreateGenesisBlock(f: Foreign, now: int) returns (genesis: Block)
      ensures fresh(genesis) && genesis.foreign == f
      ensures genesis.View() == BlockView(0, "0", now, GenesisData, 0,
                                          UnminedHash(f, 0, "0", now, GenesisData))
    {
      genesis := new Block(f, 0, now, GenesisData, "0");
    }

    /** The tip: the last block, which exists because the chain is never
        empty. */
    function GetLatestBlock(): (tip: Block)
      requires Valid()
      reads this, chain
      ensures tip in chain && tip == chain[|chain| - 1]
    {
      chain[|chain| - 1]
    }

    /** Link `newBlock` to the tip, mine it at the chain's difficulty and
        push it. The chain grows by exactly that block; the new tip points at
        the old tip's hash and meets the difficulty; no other block changes.
        When `newBlock` was not already in the chain, a valid chain stays
        valid exactly when the new block's stored hash is its content hash,
        which is guaranteed once the mining loop ran at least once (the
        nonce moved) and not otherwise. `bound` is the termination
        assumption of `MineBlock`. */
    method AddBlock(newBlock: Block, ghost bound: nat)
      requires Valid() && newBlock.foreign == foreign
      requires MiningEnds(foreign, newBlock.View().(previousHash := GetLatestBlock().hash),
                          difficulty, bound)
      modifies this, newBlock
      ensures Valid() && difficulty == old(difficulty)
      ensures chain == old(chain) + [newBlock]
      ensures newBlock.previousHash == old(GetLatestBlock().hash)
      ensures newBlock.index == old(newBlock.index) && newBlock.timestamp == old(newBlock.timestamp)
      ensures newBlock.data == old(newBlock.data)
      ensures MeetsDifficulty(newBlock.hash, difficulty)
      ensures old(newBlock.nonce) <= newBlock.nonce
      ensures newBlock.nonce == old(newBlock.nonce) <==> old(MeetsDifficulty(newBlock.hash, difficulty))
      ensures newBlock.nonce == old(newBlock.nonce) ==> newBlock.hash == old(newBlock.hash)
      ensures newBlock.nonce > old(newBlock.nonce) ==> newBlock.hash == newBlock.CalculateHash()
      ensures forall k :: old(newBlock.nonce) < k < newBlock.nonce ==>
                !MeetsDifficulty(newBlock.HashAt(k), difficulty)
      ensures forall b :: b in old(chain) && b != newBlock ==> unchanged(b)
      ensures newBlock !in old(chain) ==> Snapshot() == old(Snapshot()) + [newBlock.View()]
      ensures newBlock !in old(chain) && old(ChainValid(foreign, Snapshot())) ==>
                (ChainValid(foreign, Snapshot()) <==> newBlock.hash == newBlock.CalculateHash())
      ensures newBlock !in old(chain) && old(Linked(Snapshot())) ==> Linked(Snapshot())
    {
      ghost var before := Snapshot();
      newBlock.previousHash := GetLatestBlock().hash;
      newBlock.MineBlock(difficulty, bound);
      label Mined:
      chain := chain + [newBlock];
      assert forall k :: old(newBlock.nonce) < k < newBlock.nonce ==>
               newBlock.HashAt(k) == old@Mined(newBlock.HashAt(k));
      if newBlock !in old(chain) {
        forall i | 0 <= i < |before|
          ensures Snapshot()[i] == before[i]
        {
          assert chain[i] == old(chain)[i] && chain[i] != newBlock;
        }
        assert Snapshot() == before + [newBlock.View()];
        ValidExtension(foreign, before, newBlock.View());
        if Linked(before) {
          LinkedExtension(before, newBlock.View());
        }
      }
    }

    /** Walk the chain from block 1 and stop at the first block whose stored
        hash is not its recomputed hash or whose previous hash is not its
        predecessor's hash. The answer is exactly the validity predicate. */
    method IsChainValid() returns (valid: bool)
      requires SameForeign()
      ensures valid == ChainValid(foreign, Snapshot())
    {
      ghost var blocks := Snapshot();
      var i := 1;
      while i < |chain|
        invariant 1 <= i
        invariant forall j :: 1 <= j < i && j < |blocks| ==> LinkValid(foreign, blocks, j)
      {
        var currentBlock := chain[i];
        var previousBlock := chain[i - 1];
        assert blocks[i] == currentBlock.View() && blocks[i - 1] == previousBlock.View();
        if currentBlock.hash != currentBlock.CalculateHash() {
          assert !LinkValid(foreign, blocks, i);
          return false;
        }
        if currentBlock.previousHash != previousBlock.hash {
          assert !LinkValid(foreign, blocks, i);
          return false;
        }
        i := i + 1;
      }
      return true;
    }
  }
}
