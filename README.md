# A hash-linked proof-of-work chain, modelled in Dafny

This project models `blockchain.js`: a `Block` class whose hash is the SHA-256 digest
of its index, previous hash, timestamp, JSON-serialised data and nonce, with a
proof-of-work loop that steps the nonce until the hash starts with `difficulty`
zero characters; and a `Blockchain` class holding an array of blocks that starts
with a genesis block, grows only by `addBlock` (link to the tip, mine, push), and
is checked by `isChainValid`, which re-derives every block's hash and link from
block 1 on.

Three modules, one per concern:

- `Primitives` (`primitives.dfy`): what the hash is built from. SHA-256,
  `JSON.stringify` and the number-to-text conversion that `+` performs are runtime
  calls. They are carried as three unknown total functions in a `Foreign` value
  that every hash computation receives. `Decimal` writes out the text the runtime
  gives an integer; for a non-negative integer that text reads back as the
  integer (`NatTextRoundTrip`). The lemmas that depend on that
  text require the runtime conversion to agree with it (`DecimalNumbers`). The
  mining loop's exit test, `substring(0, d)` compared with
  `Array(d + 1).join("0")`, is written out too.
- `Blocks` (`block.dfy`): `BlockView`, the six fields as a value; `ContentHash`,
  what `calculateHash` returns; `UnminedHash`, what the constructor stores; and the
  class `Block` with its fields updated in place by `MineBlock`. Each block
  holds, as a constant, the `Foreign` runtime it is hashed with.
  `Block.CalculateHash` is `ContentHash` of the block's current fields; what it
  promises is stated by the lemmas beside it.
- `Chain` (`blockchain.dfy`): `ChainValid`, the quantified statement of what
  `isChainValid` checks, lemmas about it, and the class `Blockchain` with its
  `chain` (a sequence of `Block` references, as the source's array holds
  references) and `difficulty`. The chain keeps the invariant that all its
  blocks share the chain's runtime, as the source's blocks all use one
  module-level `SHA256`.

The constructor quirk is kept, not hidden. The source's constructor computes
`hash` before `nonce` is assigned, so the constructor's digest input ends in the
text `undefined` (`UnminedHash`). `addBlock` then overwrites `previousHash`. The
stored hash therefore matches `calculateHash()` only once the mining loop body has
run at least once. `MineBlock` states that the loop runs zero times exactly when
the stored hash already meets the target, and that the hash is then left as it
was. `UnminedHashIsStale` shows that, for an injective digest and decimal
number text, a constructor-stored hash never equals any `calculateHash` result: that input ends
in the letter `d`, while every `calculateHash` input ends in a digit.
`AddBlock` states that a valid chain stays valid exactly when the new block's
stored hash equals its content hash. `UnminedBlockInvalid` shows that a block
pushed with its constructor hash makes the chain invalid.

## Model

| member | source | states |
|---|---|---|
| `Primitives.NatText` | blockchain.js:15-19 | The text of a non-negative integer, as concatenated into the hash input, is all digits and has a leading zero only for 0. |
| `Primitives.NatTextRoundTrip` | blockchain.js:15-19 | Reading that text back as decimal digits yields the number. |
| `Primitives.Decimal` | blockchain.js:15-19 | The text of any integer is non-empty, always ends in a digit, and starts with a minus sign exactly when the integer is negative. |
| `Primitives.Zeros` | blockchain.js:25 | `Array(d + 1).join("0")` is exactly `d` characters, each `'0'`. |
| `Primitives.MeetsDifficulty` | blockchain.js:24-26 | The loop's exit test (prefix of length `d` equals `d` zeros) holds iff the hash has at least `d` characters and its first `d` are all `'0'`. |
| `Primitives.MeetsDifficultyMonotone` | blockchain.js:25 | A hash that meets difficulty `d + 1` meets difficulty `d`. |
| `Blocks.SameContentSameHash` | blockchain.js:13-21 | `calculateHash` is determined by index, previous hash, timestamp, data and nonce alone: blocks agreeing on these get the same hash, whatever they store in `hash`. |
| `Blocks.DataChangeChangesHash` | blockchain.js:13-21 | For an injective digest and serialiser, changing only the data changes the content hash. |
| `Blocks.UnminedHash` | blockchain.js:9-10 | The hash the constructor stores digests the nonce text "undefined"; for an injective digest and decimal number text it differs from the content hash of the same block at nonce 0. |
| `Blocks.Block.CalculateHash` | blockchain.js:13-21 | The block's hash is the digest of its index, previous hash, timestamp, serialised data and nonce, and does not depend on the stored `hash`; it is the hash `HashAt` gives at the current nonce. |
| `Blocks.UnminedHashIsStale` | blockchain.js:9-10 | For an injective digest and decimal number text, the hash the constructor stores (nonce text "undefined") differs from every `calculateHash` result of every block. |
| `Blocks.Block.constructor` | blockchain.js:4-11 | A new block has the given index, timestamp, data and previous hash (default `""`), nonce 0, and the hash of its fields with an unassigned nonce. |
| `Blocks.Block.MineBlock` | blockchain.js:23-31 | On exit the hash meets the difficulty. Only `nonce` and `hash` change. The nonce never decreases, and it is the first one after the start whose hash meets the target. The loop runs zero times iff the stored hash already met it, and then the hash is unchanged. Otherwise the hash equals `calculateHash()`. |
| `Chain.ValidExtension` | blockchain.js:54-68 | Appending a block keeps a chain valid iff the new block's stored hash is its content hash and its previous hash is the old tip's hash. |
| `Chain.LinkedExtension` | blockchain.js:48-51 | Appending a block whose previous hash is the tip's hash keeps a linked chain linked. |
| `Chain.ValidIsLinked` | blockchain.js:63-65 | Every valid chain is linked: each block after genesis points at its predecessor's stored hash. |
| `Chain.GenesisContentUnchecked` | blockchain.js:55 | The check starts at index 1: any genesis block with the same stored hash leaves validity unchanged. |
| `Chain.HashTamperDetected` | blockchain.js:63-65 | Replacing a non-tip block's stored hash with a value that differs from its successor's previous hash makes the chain invalid. |
| `Chain.TipHashTamperDetected` | blockchain.js:59-61 | Replacing the stored hash of the tip of a valid chain of at least two blocks with any other value makes the chain invalid. |
| `Chain.DataTamperDetected` | blockchain.js:59-61 | For an injective digest and serialiser, changing a non-genesis block's data without rehashing makes a valid chain invalid. |
| `Chain.RehashTamperDetected` | blockchain.js:86-89 | The demonstrated tampering (new data and a recomputed hash on a block that has a successor) makes a valid chain invalid, for an injective digest and serialiser. |
| `Chain.UnminedBlockInvalid` | blockchain.js:59-61 | For an injective digest and decimal number text, a chain in which some block after genesis still carries its constructor-stored hash is invalid. |
| `Chain.Blockchain.constructor` | blockchain.js:35-38 | A new chain holds exactly one fresh block, the genesis block, at difficulty 4, and is valid and linked. |
| `Chain.Blockchain.CreateGenesisBlock` | blockchain.js:40-42 | The genesis block has index 0, data "Genesis Block", previous hash "0", the given timestamp, nonce 0 and its constructor-stored hash. |
| `Chain.Blockchain.GetLatestBlock` | blockchain.js:44-46 | The tip is the last block of the chain, which exists because the chain is never empty. |
| `Chain.Blockchain.AddBlock` | blockchain.js:48-52 | The chain grows by exactly the new block. The new block points at the old tip's hash and meets the difficulty, and no other block changes. Mining ran zero times iff the block's stored hash already met the difficulty, and then the hash is unchanged; otherwise the hash is the content hash and no nonce between the old and the new one meets the difficulty. A linked chain stays linked. A valid chain stays valid iff the new block's stored hash is its content hash. |
| `Chain.Blockchain.IsChainValid` | blockchain.js:54-68 | Returns true iff every block from index 1 on stores its recomputed hash and points at its predecessor's stored hash. |

## Left out

- SHA-256, `JSON.stringify` and the number-to-text conversion of `+` (blockchain.js:1, 14-19) are runtime calls. They are parameters (`Foreign`), not implementations. Collision resistance cannot be proved of them. The lemmas that need it assume injectivity as an explicit hypothesis, which real SHA-256 only approximates.
- JavaScript numbers are modelled as unbounded integers. Fractional values, precision loss past 2^53 and exponent notation in number-to-text conversion are not modelled.
- `Date.now()` (blockchain.js:41, 76, 79) is a parameter: the genesis timestamp `now`, and each block's `timestamp` argument.
- `console.log` (blockchain.js:30, 75-89) is output and is not modelled. The top-level demonstration script (blockchain.js:71-89) is not modelled as code. Its tampering step is the scenario of `Chain.RehashTamperDetected`.
- `Blocks.Block.MineBlock`: the source's search has no bound and ends only with probability one. The model requires a ghost `bound` at which the hash meets the target, so that the loop provably ends. The loop itself and its exit state are the source's.
- `Chain.Blockchain.AddBlock`: the same ghost `bound`. When the block passed in is already in the chain (an alias), the source mutates that earlier block. The contract then still states the growth, the link, the difficulty and that every other block is unchanged, but not the snapshot of the old chain, the validity iff or that linkage is kept.
- `Chain.Blockchain.AddBlock` requires the new block to be hashed with the chain's runtime, and `Chain.Blockchain.IsChainValid` requires every block of the chain to be: the source has one runtime for all blocks, so this always holds there.
- `Chain.Blockchain.GetLatestBlock` requires the chain to be non-empty, which every chain built by the constructor and `AddBlock` is. An empty array, reachable in the source only by assigning `chain` from outside, is not modelled.
- `Chain.Blockchain.CreateGenesisBlock` is a static method: the source's instance method reads no field, and the constructor calls it before any field is set.
- Assignments to a block's or the chain's public fields from outside the two classes are not operations of the model. The demonstration's tampering is covered on values by the tamper lemmas.
- `main.js` is not part of this model. It is an HTTP layer that calls a `Transaction` class and the ledger methods `getBalanceOfAddress`, `createTransaction` and `minePendingTransactions`, none of which `blockchain.js` defines. The client files (`client/src/App.tsx`, `client/src/types.ts`) are a user interface and type declarations, and are not part of this model either.
