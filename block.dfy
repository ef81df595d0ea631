/** A block of the chain: six public fields, a content hash over five of them,
    and the proof-of-work loop that searches for a nonce. */
module Blocks {
  import opened Primitives

  /** The six fields of a block at one moment, as a value. */
  datatype BlockView = BlockView(
    index: int,
    previousHash: string,
    timestamp: int,
    data: Json,
    nonce: nat,
    hash: string)

  /** The text `calculateHash` digests: index, previous hash, timestamp,
      serialised data and nonce, in that order, with no separators. The
      nonce is passed as text because the constructor digests it before it
      has a value. */
  function Preimage(f: Foreign, index: int, previousHash: string, timestamp: int,
                    data: Json, nonceText: string): string
  {
    f.numberText(index) + previousHash + f.numberText(timestamp) + f.stringify(data) + nonceText
  }

  /** The hash `calculateHash` returns for a block with these fields. The
      stored `hash` is not one of its inputs. */
  function ContentHash(f: Foreign, b: BlockView): string {
    f.sha256(Preimage(f, b.index, b.previousHash, b.timestamp, b.data, f.numberText(b.nonce)))
  }

  /** The hash the constructor stores: it is computed before `nonce` is
      assigned, so the nonce contributes the text "undefined". Under an
      injective digest and decimal number text it is not the hash
      `calculateHash` gives the new block at nonce 0. */
  function UnminedHash(f: Foreign, index: int, previousHash: string, timestamp: int,
                       data: Json): (r: string)
    ensures Injective(f.sha256) && DecimalNumbers(f) ==>
              r != ContentHash(f, BlockView(index, previousHash, timestamp, data, 0, r))
  {
    var u := Preimage(f, index, previousHash, timestamp, data, "undefined");
    assert DecimalNumbers(f) ==>
             var c := Preimage(f, index, previousHash, timestamp, data, f.numberText(0));
             f.numberText(0) == Decimal(0) && c[|c| - 1] == '0' && u[|u| - 1] == 'd';
    f.sha256(u)
  }

  /** The mining loop started on `b` stops by nonce `bound`: either the
      stored hash already meets the target, or the hash at nonce `bound`
      (a later one) does. The source's search is unbounded; this is the
      termination assumption a caller supplies. */
  ghost predicate MiningEnds(f: Foreign, b: BlockView, difficulty: nat, bound: nat) {
    MeetsDifficulty(b.hash, difficulty) ||
    (b.nonce < bound && MeetsDifficulty(ContentHash(f, b.(nonce := bound)), difficulty))
  }

  /** `calculateHash` reads the five content fields and nothing else: two
      blocks that agree on them get the same hash, whatever they store in
      `hash`. */
  lemma SameContentSameHash(f: Foreign, a: BlockView, b: BlockView)
    requires a.index == b.index && a.previousHash == b.previousHash
    requires a.timestamp == b.timestamp && a.data == b.data && a.nonce == b.nonce
    ensures ContentHash(f, a) == ContentHash(f, b)
  {
  }

  /** Under an injective digest and decimal number text, the hash the
      constructor stores is never the result of `calculateHash` for any block
      at all: the constructor's input ends in the letter 'd' of "undefined",
      while every `calculateHash` input ends in a digit of the nonce. So a
      block whose mining loop never ran keeps a hash that the validity check
      rejects. */
  lemma UnminedHashIsStale(f: Foreign, index: int, previousHash: string, timestamp: int,
                           data: Json, b: BlockView)
    requires Injective(f.sha256) && DecimalNumbers(f)
    ensures UnminedHash(f, index, previousHash, timestamp, data) != ContentHash(f, b)
  {
    var u := Preimage(f, index, previousHash, timestamp, data, "undefined");
    var n := f.numberText(b.nonce);
    assert n == Decimal(b.nonce);
    var c := Preimage(f, b.index, b.previousHash, b.timestamp, b.data, n);
    assert u[|u| - 1] == 'd';
    assert c[|c| - 1] == n[|n| - 1];
    assert u != c;
  }

  /** Under an injective digest and an injective serialiser, changing a
      block's data without touching its other fields changes its content
      hash. */
  lemma DataChangeChangesHash(f: Foreign, b: BlockView, data: Json)
    requires Injective(f.sha256) && Injective(f.stringify)
    requires data != b.data
    ensures ContentHash(f, b.(data := data)) != ContentHash(f, b)
  {
    var head := f.numberText(b.index) + b.previousHash + f.numberText(b.timestamp);
    var tail := f.numberText(b.nonce);
    if ContentHash(f, b.(data := data)) == ContentHash(f, b) {
      assert head + f.stringify(data) + tail == head + f.stringify(b.data) + tail;
      CancelAround(head, f.stringify(data), f.stringify(b.data), tail);
      assert false;
    }
  }

  class Block {
    /** The digest, serialiser and number conversion this block is hashed
        with: the one runtime the source's module-level `SHA256` comes from. */
    const foreign: Foreign
    var index: int
    var timestamp: int
    var data: Json
    var previousHash: string
    var hash: string
    var nonce: nat

    /** The fields as a value. */
    function View(): BlockView
      reads this
    {
      BlockView(index, previousHash, timestamp, data, nonce, hash)
    }

    /** A new block stores the hash of its fields with an unassigned nonce,
        and only then sets the nonce to 0. The previous hash defaults to the
        empty string. */
    constructor (f: Foreign, index: int, timestamp: int, data: Json, previousHash: string := "")
      ensures foreign == f
      ensures View() == BlockView(index, previousHash, timestamp, data, 0,
                                  UnminedHash(f, index, previousHash, timestamp, data))
    {
      this.foreign := f;
      this.index := index;
      this.timestamp := timestamp;
      this.data := data;
      this.previousHash := previousHash;
      this.hash := UnminedHash(f, index, previousHash, timestamp, data);
      this.nonce := 0;
    }

    /** The digest of the block's current content fields. The stored `hash`
        is not among them: the result is the hash the block would have at its
        current nonce whatever it stores. */
    function CalculateHash(): (h: string)
      reads this
      ensures h == ContentHash(foreign, BlockView(index, previousHash, timestamp, data, nonce, ""))
      ensures h == HashAt(nonce)
    {
      ContentHash(foreign, View())
    }

    /** The hash the block would have at nonce `n`, its content fields as
        they are now. It reads neither `nonce` nor `hash`, which mining
        changes. */
    ghost function HashAt(n: nat): string
      reads this`index, this`previousHash, this`timestamp, this`data
    {
      ContentHash(foreign, BlockView(index, previousHash, timestamp, data, n, ""))
    }

    /** Proof of work: while the hash does not start with `difficulty` zero
        characters, step the nonce and recompute the hash. On exit the hash
        meets the target, and the nonce is the first one after the starting
        nonce whose hash does. The loop runs zero times exactly when the
        stored hash already meets the target; then nothing changes, and the
        stored hash is whatever it was, even if stale. */
    method MineBlock(difficulty: nat, ghost bound: nat)
      requires MiningEnds(foreign, View(), difficulty, bound)
      modifies this
      ensures index == old(index) && timestamp == old(timestamp)
      ensures data == old(data) && previousHash == old(previousHash)
      ensures MeetsDifficulty(hash, difficulty)
      ensures old(nonce) <= nonce
      ensures nonce == old(nonce) <==> old(MeetsDifficulty(hash, difficulty))
      ensures nonce == old(nonce) ==> hash == old(hash)
      ensures nonce > old(nonce) ==> hash == CalculateHash()
      ensures forall k :: old(nonce) < k < nonce ==> !MeetsDifficulty(HashAt(k), difficulty)
    {
      while Prefix(hash, difficulty) != Zeros(difficulty)
        invariant index == old(index) && timestamp == old(timestamp)
        invariant data == old(data) && previousHash == old(previousHash)
        invariant old(nonce) <= nonce
        invariant nonce == old(nonce) ==> hash == old(hash)
        invariant nonce > old(nonce) ==> !old(MeetsDifficulty(hash, difficulty))
        invariant nonce > old(nonce) ==> hash == CalculateHash() && nonce <= bound
        invariant forall k :: old(nonce) < k < nonce ==> !MeetsDifficulty(HashAt(k), difficulty)
        decreases bound - nonce
      {
        nonce := nonce + 1;
        hash := CalculateHash();
      }
    }
  }
}
