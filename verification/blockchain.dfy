/**
 * blockchain.c: a fixed-capacity chain of blocks, each holding its index,
 * a timestamp, a data payload, the previous block's hash and a nonce,
 * together with the SHA-256 digest of that core.
 *
 * SHA-256 (FIPS 180-4) is a parameter of the chain, an arbitrary function
 * from block cores to 32-byte digests; the byte layout of
 * `struct block_core` that the digest is taken over is not modelled.
 */
module Blockchain {
  import opened Wrappers

  /** SHA256_DIGEST_LENGTH. */
  const DIGEST_LENGTH: nat := 32
  /** The nonce is a `uint32_t`. */
  const NONCE_LIMIT: nat := 0x1_0000_0000

  type Digest = d: seq<bv8> | |d| == DIGEST_LENGTH witness Filled(0)

  function Filled(b: bv8): (d: seq<bv8>)
    ensures |d| == DIGEST_LENGTH && forall i :: 0 <= i < |d| ==> d[i] == b
  {
    seq(DIGEST_LENGTH, _ => b)
  }

  /** `struct block_core`. */
  datatype Core = Core(index: nat, timestamp: int, data: seq<bv8>, pHash: Digest, nonce: nat)

  /** `struct block`: the core and its stored hash. */
  datatype Block = Block(core: Core, hash: Digest)

  /** `memcmp(a, b, n) <= 0` on equally long byte strings: unsigned lexicographic order. */
  predicate BytesLe(a: seq<bv8>, b: seq<bv8>)
    requires |a| == |b|
  {
    a == [] || a[0] < b[0] || (a[0] == b[0] && BytesLe(a[1..], b[1..]))
  }

  /** Every byte string is at most the all-0xff string of its length. */
  lemma {:induction false} BytesLeFilled(a: seq<bv8>)
    ensures BytesLe(a, seq(|a|, _ => 0xff))
  {
    if a != [] {
      var ones := seq(|a|, _ => 0xff as bv8);
      BytesLeFilled(a[1..]);
      assert ones[1..] == seq(|a| - 1, _ => 0xff as bv8);
    }
  }

  /** The order is total: of two byte strings one is at most the other. */
  lemma {:induction false} BytesLeTotal(a: seq<bv8>, b: seq<bv8>)
    requires |a| == |b|
    ensures BytesLe(a, b) || BytesLe(b, a)
  {
    if a != [] && a[0] == b[0] {
      BytesLeTotal(a[1..], b[1..]);
    }
  }

  /** A block's hash is right: it is the digest of its core and meets the difficulty. */
  predicate Sealed(b: Block, difficulty: Digest, sha256: Core -> Digest) {
    sha256(b.core) == b.hash && BytesLe(b.hash, difficulty)
  }

  /**
   * What `bc_verify` accepts: every block is sealed and every block's hash
   * is the next block's `p_hash`.
   */
  predicate Verifies(chain: seq<Block>, difficulty: Digest, sha256: Core -> Digest) {
    && (forall i :: 0 <= i < |chain| ==> Sealed(chain[i], difficulty, sha256))
    && (forall i :: 0 <= i < |chain| - 1 ==> chain[i].hash == chain[i + 1].core.pHash)
  }

  /**
   * How `bc_add_block` lays out a chain: block i has index i, the first
   * block's previous hash is all zeros, and every later block's is its
   * predecessor's hash.
   */
  predicate Linked(chain: seq<Block>) {
    && (forall i :: 0 <= i < |chain| ==> chain[i].core.index == i)
    && (|chain| > 0 ==> chain[0].core.pHash == Filled(0))
    && (forall i :: 0 <= i < |chain| - 1 ==> chain[i + 1].core.pHash == chain[i].hash)
  }

  /** The core `bc_add_block` builds for block `count` with a given nonce. */
  function NextCore(chain: seq<Block>, timestamp: int, data: seq<bv8>, nonce: nat): Core {
    var pHash := if |chain| == 0 then Filled(0) else chain[|chain| - 1].hash;
    Core(|chain|, timestamp, data, pHash, nonce)
  }

  /**
   * Appending a block built by NextCore whose hash is sealed keeps a
   * verifying chain verifying and a linked chain linked.
   */
  lemma AppendKeeps(chain: seq<Block>, difficulty: Digest, sha256: Core -> Digest, b: Block,
                    timestamp: int, data: seq<bv8>, nonce: nat)
    requires b.core == NextCore(chain, timestamp, data, nonce) && Sealed(b, difficulty, sha256)
    ensures Verifies(chain, difficulty, sha256) ==> Verifies(chain + [b], difficulty, sha256)
    ensures Linked(chain) ==> Linked(chain + [b])
  {
    var c := chain + [b];
    assert forall i :: 0 <= i < |chain| ==> c[i] == chain[i];
  }

  class Chain {
    /** BLOCKCHAIN_SIZE. */
    const capacity: nat
    /** DATA_SIZE. */
    const dataSize: nat
    const sha256: Core -> Digest
    const blocks: array<Block>
    var count: nat
    var difficulty: Digest

    ghost predicate Valid()
      reads this
    {
      blocks.Length == capacity && count <= capacity
    }

    /** The blocks in use. */
    ghost function Blocks(): seq<Block>
      reads this, blocks
      requires Valid()
    {
      blocks[..count]
    }

    /** A `struct blockchain` before `bc_init`: storage for `capacity` blocks. */
    constructor (capacity: nat, dataSize: nat, sha256: Core -> Digest)
      ensures Valid() && count == 0 && fresh(blocks)
      ensures this.capacity == capacity && this.dataSize == dataSize && this.sha256 == sha256
    {
      this.capacity := capacity;
      this.dataSize := dataSize;
      this.sha256 := sha256;
      var blank := Block(Core(0, 0, [], Filled(0), 0), Filled(0));
      blocks := new Block[capacity](_ => blank);
      count := 0;
      difficulty := Filled(0xff);
    }
  }

  /**
   * blockchain.c:8-18: -1 for a NULL chain; otherwise the chain is emptied
   * and takes the given difficulty, or all 0xff (every hash accepted) when
   * none is given.
   */
  method Init(bc: Chain?, difficulty: Option<Digest>) returns (rc: int)
    requires bc != null ==> bc.Valid()
    modifies bc
    ensures bc == null ==> rc == -1
    ensures bc != null ==> rc == 0 && bc.Valid() && bc.count == 0
    ensures bc != null ==> bc.difficulty == if difficulty.Some? then difficulty.value else Filled(0xff)
  {
    if bc == null {
      return -1;
    }
    bc.count := 0;
    if difficulty.Some? {
      bc.difficulty := difficulty.value;
    } else {
      bc.difficulty := Filled(0xff);
    }
    return 0;
  }

  /** A nonce below 2^32 seals the next block. */
  predicate Mineable(bc: Chain, timestamp: int, data: seq<bv8>)
    reads bc, bc.blocks
    requires bc.Valid()
  {
    exists nonce :: 0 <= nonce < NONCE_LIMIT &&
      BytesLe(bc.sha256(NextCore(bc.blocks[..bc.count], timestamp, data, nonce)), bc.difficulty)
  }

  /**
   * blockchain.c:25-50, with the clock reading as the parameter
   * `timestamp`. A NULL chain, NULL data or a full chain give -1 and change
   * nothing. Otherwise the next block gets index `count`, the data, the
   * previous hash (zeros for the first block) and the first nonce, counting
   * from 0, whose digest is at most the difficulty; the block is stored with
   * that digest, the count grows by one, and the old count is returned.
   * The source's search never ends when no 32-bit nonce qualifies, so one
   * is required to exist.
   */
  method AddBlock(bc: Chain?, data: Option<seq<bv8>>, timestamp: int) returns (rc: int)
    requires bc != null ==> bc.Valid()
    requires bc != null && data.Some? && bc.count < bc.capacity ==>
      |data.value| == bc.dataSize && Mineable(bc, timestamp, data.value)
    modifies bc, if bc == null then null else bc.blocks
    ensures bc == null ==> rc == -1
    ensures bc != null ==> bc.Valid()
    ensures bc != null && (data.None? || old(bc.count) >= bc.capacity) ==>
      rc == -1 && bc.count == old(bc.count) && unchanged(bc.blocks)
    ensures bc != null && data.Some? && old(bc.count) < bc.capacity ==>
      var chain := old(bc.blocks[..bc.count]);
      var b := bc.blocks[old(bc.count)];
      && rc == old(bc.count) && bc.count == old(bc.count) + 1
      && bc.blocks[..bc.count] == chain + [b]
      && b.core == NextCore(chain, timestamp, data.value, b.core.nonce)
      && b.core.nonce < NONCE_LIMIT
      && Sealed(b, bc.difficulty, bc.sha256)
      && (forall n :: 0 <= n < b.core.nonce ==>
            !BytesLe(bc.sha256(NextCore(chain, timestamp, data.value, n)), bc.difficulty))
      && (Verifies(chain, bc.difficulty, bc.sha256) ==> Verifies(bc.blocks[..bc.count], bc.difficulty, bc.sha256))
      && (Linked(chain) ==> Linked(bc.blocks[..bc.count]))
    ensures bc != null ==> bc.difficulty == old(bc.difficulty)
  {
    if bc == null || bc.count >= bc.capacity || data.None? {
      return -1;
    }
    var chain := bc.blocks[..bc.count];
    ghost var w :| 0 <= w < NONCE_LIMIT &&
      BytesLe(bc.sha256(NextCore(chain, timestamp, data.value, w)), bc.difficulty);
    var nonce := 0;
    var core := NextCore(chain, timestamp, data.value, nonce);
    var hash := bc.sha256(core);
    while !BytesLe(hash, bc.difficulty)
      invariant nonce <= w
      invariant core == NextCore(chain, timestamp, data.value, nonce) && hash == bc.sha256(core)
      invariant forall n :: 0 <= n < nonce ==>
        !BytesLe(bc.sha256(NextCore(chain, timestamp, data.value, n)), bc.difficulty)
      decreases w - nonce
    {
      nonce := nonce + 1;
      core := NextCore(chain, timestamp, data.value, nonce);
      hash := bc.sha256(core);
    }
    var b := Block(core, hash);
    AppendKeeps(chain, bc.difficulty, bc.sha256, b, timestamp, data.value, nonce);
    rc := bc.count;
    bc.blocks[bc.count] := b;
    bc.count := bc.count + 1;
    assert bc.blocks[..bc.count] == chain + [b];
  }

  /**
   * blockchain.c:52-74: -1 for a NULL chain; otherwise the walk stops with
   * -1 at the first block whose recomputed digest differs from the stored
   * one, whose hash exceeds the difficulty, or whose hash is not the next
   * block's `p_hash`, and answers 0 when there is none.
   */
  method Verify(bc: Chain?) returns (rc: int)
    requires bc != null ==> bc.Valid()
    ensures bc == null ==> rc == -1
    ensures bc != null ==> (rc == 0 <==> Verifies(bc.blocks[..bc.count], bc.difficulty, bc.sha256))
    ensures rc == 0 || rc == -1
  {
    if bc == null {
      return -1;
    }
    var i := 0;
    while i < bc.count
      invariant i <= bc.count
      invariant forall k :: 0 <= k < i ==> Sealed(bc.blocks[k], bc.difficulty, bc.sha256)
      invariant forall k :: 0 <= k < i && k + 1 < bc.count ==> bc.blocks[k].hash == bc.blocks[k + 1].core.pHash
    {
      var hash := bc.sha256(bc.blocks[i].core);
      if hash != bc.blocks[i].hash {
        return -1;
      }
      if !BytesLe(bc.blocks[i].hash, bc.difficulty) {
        return -1;
      }
      if i + 1 < bc.count {
        if bc.blocks[i].hash != bc.blocks[i + 1].core.pHash {
          return -1;
        }
      }
      i := i + 1;
    }
    return 0;
  }

  /** With the default difficulty every nonce qualifies, so the search stops at nonce 0. */
  lemma DefaultDifficultyMines(bc: Chain, timestamp: int, data: seq<bv8>)
    requires bc.Valid() && bc.difficulty == Filled(0xff)
    ensures Mineable(bc, timestamp, data)
  {
    var d := bc.sha256(NextCore(bc.blocks[..bc.count], timestamp, data, 0));
    BytesLeFilled(d);
    assert Filled(0xff) == seq(|d|, _ => 0xff as bv8);
  }
}
