/**
 * Blocks: a batch of transactions linked to its predecessor by hash and
 * sealed by a proof-of-work nonce.
 */
module Blocks {
  import opened Transactions

  /**
   * The block digest: SHA-256, hex-encoded, of the sorted-key JSON of the
   * index, timestamp, transactions (each with its signature), previous hash
   * and nonce. Left abstract; only its arguments matter to the ledger.
   */
  type HashFn = (int, real, seq<Tx>, string, int) -> string

  /** The fields of a block, as a value. */
  datatype BlockData = BlockData(index: int, timestamp: real, transactions: seq<Tx>,
                                 previousHash: string, nonce: int, hash: string)

  /** The digest a block's content (everything but the stored hash) determines. */
  function Digest(h: HashFn, b: BlockData): string {
    h(b.index, b.timestamp, b.transactions, b.previousHash, b.nonce)
  }

  /** The mining target `'0' * difficulty`; a non-positive difficulty gives the empty string. */
  function Zeros(difficulty: int): (z: string)
    ensures |z| == if difficulty <= 0 then 0 else difficulty
    ensures forall i :: 0 <= i < |z| ==> z[i] == '0'
    decreases if difficulty <= 0 then 0 else difficulty
  {
    if difficulty <= 0 then "" else Zeros(difficulty - 1) + "0"
  }

  /** Python's `str.startswith`. */
  predicate StartsWith(s: string, prefix: string) {
    |prefix| <= |s| && s[..|prefix|] == prefix
  }

  /** A hash meets the target exactly when its first `difficulty` characters are all `'0'`. */
  lemma LeadingZeros(s: string, difficulty: int)
    ensures StartsWith(s, Zeros(difficulty)) <==>
              (difficulty <= |s| && forall i :: 0 <= i < difficulty ==> s[i] == '0')
  {
  }

  /** Every hash meets a target of difficulty zero or less. */
  lemma TrivialTarget(s: string, difficulty: int)
    requires difficulty <= 0
    ensures StartsWith(s, Zeros(difficulty))
  {
  }

  /** Some nonce from `from` on makes the content hash meet the target. */
  ghost predicate Solvable(h: HashFn, index: int, timestamp: real, txs: seq<Tx>, previousHash: string,
                           from: int, difficulty: int)
  {
    exists n :: from <= n && StartsWith(h(index, timestamp, txs, previousHash, n), Zeros(difficulty))
  }

  /**
   * What the nonce search leaves in a block started at nonce 0: the stored
   * hash is the digest of the content, it meets the target, and no smaller
   * non-negative nonce does.
   */
  ghost predicate FirstSolution(h: HashFn, d: BlockData, difficulty: int) {
    && d.hash == Digest(h, d)
    && StartsWith(d.hash, Zeros(difficulty))
    && d.nonce >= 0
    && forall n :: 0 <= n < d.nonce ==>
         !StartsWith(h(d.index, d.timestamp, d.transactions, d.previousHash, n), Zeros(difficulty))
  }

  /**
   * `Block(index, transactions, previous_hash)` followed by `mine(difficulty)`:
   * a new block holding the given content, sealed at the first nonce that
   * meets the target.
   */
  method NewMinedBlock(h: HashFn, index: int, transactions: seq<Tx>, previousHash: string,
                       timestamp: real, difficulty: int) returns (block: Block)
    requires Solvable(h, index, timestamp, transactions, previousHash, 0, difficulty)
    ensures fresh(block)
    ensures block.index == index && block.timestamp == timestamp
    ensures block.transactions == transactions && block.previousHash == previousHash
    ensures FirstSolution(h, block.Data(), difficulty)
  {
    block := new Block(h, index, transactions, previousHash, timestamp);
    ghost var target := Zeros(difficulty);
    ghost var w :| 0 <= w && StartsWith(h(index, timestamp, transactions, previousHash, w), target);
    if !StartsWith(block.hash, target) {
      assert w != 0;
      assert Solvable(h, index, timestamp, transactions, previousHash, 1, difficulty);
    }
    block.Mine(h, difficulty);
  }

  class Block {
    var index: int
    var timestamp: real
    var transactions: seq<Tx>
    var previousHash: string
    var nonce: int
    var hash: string

    /** The block's fields, as a value. */
    function Data(): BlockData
      reads this
    {
      BlockData(index, timestamp, transactions, previousHash, nonce, hash)
    }

    /** `Block.calculate_hash`: the digest of the block's current content. */
    function CalculateHash(h: HashFn): string
      reads this
    {
      Digest(h, Data())
    }

    /** A new block, not yet mined: nonce 0 and the hash of its content. */
    constructor (h: HashFn, index: int, transactions: seq<Tx>, previousHash: string, timestamp: real)
      ensures Data() == BlockData(index, timestamp, transactions, previousHash, 0,
                                  h(index, timestamp, transactions, previousHash, 0))
      ensures hash == CalculateHash(h)
    {
      this.index := index;
      this.timestamp := timestamp;
      this.transactions := transactions;
      this.previousHash := previousHash;
      this.nonce := 0;
      new;
      hash := CalculateHash(h);
    }

    /**
     * `Block.mine`: while the stored hash does not start with the target,
     * increment the nonce and recompute the hash. The search stops at the
     * first nonce above the starting one whose hash meets the target; the
     * requires clause says there is one (the source loops forever otherwise).
     */
    method Mine(h: HashFn, difficulty: int)
      requires StartsWith(hash, Zeros(difficulty)) ||
               Solvable(h, index, timestamp, transactions, previousHash, nonce + 1, difficulty)
      modifies this
      ensures index == old(index) && timestamp == old(timestamp)
      ensures transactions == old(transactions) && previousHash == old(previousHash)
      ensures StartsWith(hash, Zeros(difficulty))
      ensures nonce >= old(nonce)
      ensures old(StartsWith(hash, Zeros(difficulty))) ==> nonce == old(nonce) && hash == old(hash)
      ensures !old(StartsWith(hash, Zeros(difficulty))) ==>
                nonce > old(nonce) && hash == CalculateHash(h) &&
                forall n :: old(nonce) < n < nonce ==> !StartsWith(h(index, timestamp, transactions, previousHash, n), Zeros(difficulty))
      ensures old(hash == CalculateHash(h)) ==> hash == CalculateHash(h)
    {
      var target := Zeros(difficulty);
      ghost var start := nonce;
      ghost var met := StartsWith(hash, target);
      ghost var goal := nonce;
      if !met {
        goal :| start < goal && StartsWith(h(index, timestamp, transactions, previousHash, goal), target);
      }
      while !StartsWith(hash, target)
        invariant index == old(index) && timestamp == old(timestamp)
        invariant transactions == old(transactions) && previousHash == old(previousHash)
        invariant met ==> nonce == start && hash == old(hash)
        invariant !met ==> start <= nonce <= goal && StartsWith(h(index, timestamp, transactions, previousHash, goal), target)
        invariant nonce > start ==> hash == CalculateHash(h) == h(index, timestamp, transactions, previousHash, nonce)
        invariant nonce == start ==> hash == old(hash)
        invariant forall n :: start < n < nonce ==> !StartsWith(h(index, timestamp, transactions, previousHash, n), target)
        decreases goal - nonce
      {
        nonce := nonce + 1;
        hash := CalculateHash(h);
      }
    }
  }
}
