/**
 * The in-memory ledger: a chain of blocks anchored by a genesis block, a pool
 * of pending transactions, a mining difficulty and a mining reward. Balances
 * are derived by replaying the chain and then the pool; validation recomputes
 * every hash and link and rechecks every transaction.
 */
module Ledger {
  import opened Transactions
  import opened Blocks

  /** The error `add_transaction` raises (a `ValueError` in the source). */
  datatype Error = ValueError(message: string)

  datatype Result<+T> = Success(value: T) | Failure(error: Error)

  const MissingKeysMessage: string := "Transaction must include sender and recipient public keys"

  /** The default difficulty and mining reward of a new ledger. */
  const DefaultDifficulty: int := 3
  const DefaultMiningReward: real := 50.0

  /** The genesis block: index 0, no transactions, previous hash `"0"`, nonce 0, not mined. */
  function GenesisData(h: HashFn, now: real): BlockData {
    BlockData(0, now, [], "0", 0, h(0, now, [], "0", 0))
  }

  /** The reward a miner receives: a mint transaction without a signature. */
  function Reward(minerAddress: string, amount: real, timestamp: real): Tx {
    Tx(Mint, minerAddress, amount, timestamp, None)
  }

  /** All transactions of a sequence of blocks, block by block, in order. */
  function ChainTransactions(ds: seq<BlockData>): seq<Tx>
    decreases |ds|
  {
    if ds == [] then []
    else ChainTransactions(ds[..|ds| - 1]) + ds[|ds| - 1].transactions
  }

  /** Appending a block appends its transactions to the replayed sequence. */
  lemma ChainTransactionsSnoc(ds: seq<BlockData>, d: BlockData)
    ensures ChainTransactions(ds + [d]) == ChainTransactions(ds) + d.transactions
  {
  }

  /**
   * The three checks `is_chain_valid` makes of block `i`: its stored hash is
   * the digest of its content, it links to the stored hash of block `i - 1`,
   * and every transaction in it is valid.
   */
  predicate BlockOk(h: HashFn, c: Crypto, ds: seq<BlockData>, i: int)
    requires 1 <= i < |ds|
  {
    && ds[i].hash == Digest(h, ds[i])
    && ds[i].previousHash == ds[i - 1].hash
    && forall tx :: tx in ds[i].transactions ==> IsValid(c, tx)
  }

  /** A chain is valid when every block after the genesis block passes the three checks. */
  predicate ChainValid(h: HashFn, c: Crypto, ds: seq<BlockData>) {
    forall i :: 1 <= i < |ds| ==> BlockOk(h, c, ds, i)
  }

  /**
   * `add_transaction`'s decision on `tx` against the replayed ledger: an
   * error for a missing sender or recipient, a rejection for an invalid
   * transaction or (unless the sender is the mint) an amount above the
   * sender's balance, acceptance otherwise.
   */
  function Admit(c: Crypto, ledger: seq<Tx>, tx: Tx): Result<bool> {
    if tx.senderPub == "" || tx.recipientPub == "" then Failure(ValueError(MissingKeysMessage))
    else if !IsValid(c, tx) then Success(false)
    else if tx.senderPub != Mint && Balance(tx.senderPub, ledger) < tx.amount then Success(false)
    else Success(true)
  }

  /**
   * The outcomes of admission: the error exactly for a missing key; acceptance
   * exactly for a valid transaction whose sender is the mint or can cover the
   * amount.
   */
  lemma AdmitCases(c: Crypto, ledger: seq<Tx>, tx: Tx)
    ensures Admit(c, ledger, tx).Failure? <==> tx.senderPub == "" || tx.recipientPub == ""
    ensures Admit(c, ledger, tx) == Success(true) <==>
              && tx.senderPub != "" && tx.recipientPub != ""
              && IsValid(c, tx)
              && (tx.senderPub == Mint || tx.amount <= Balance(tx.senderPub, ledger))
  {
  }

  /**
   * An accepted transaction from an account other than the mint never takes
   * that account below zero, if it was not below zero already.
   */
  lemma AdmitNoOverdraft(c: Crypto, ledger: seq<Tx>, tx: Tx)
    requires Admit(c, ledger, tx) == Success(true)
    requires tx.senderPub != Mint
    requires Balance(tx.senderPub, ledger) >= 0.0
    ensures Balance(tx.senderPub, ledger + [tx]) >= 0.0
  {
  }

  /**
   * The amount is not checked for sign: a validly signed transfer of a
   * negative amount is accepted from a sender whose balance is not negative,
   * and it debits the recipient.
   */
  lemma NegativeAmountAccepted(c: Crypto, ledger: seq<Tx>, tx: Tx)
    requires tx.senderPub != "" && tx.recipientPub != "" && tx.senderPub != tx.recipientPub
    requires IsValid(c, tx)
    requires tx.amount < 0.0
    requires Balance(tx.senderPub, ledger) >= 0.0
    ensures Admit(c, ledger, tx) == Success(true)
    ensures Balance(tx.recipientPub, ledger + [tx]) < Balance(tx.recipientPub, ledger)
  {
  }

  /** A chain of the genesis block alone is valid, whatever that block holds. */
  lemma SingleBlockValid(h: HashFn, c: Crypto, d: BlockData)
    ensures ChainValid(h, c, [d])
  {
  }

  /**
   * Validity is about blocks 1 onward only: replacing the content of the
   * genesis block, keeping its stored hash, leaves a valid chain valid.
   */
  lemma GenesisUnchecked(h: HashFn, c: Crypto, ds: seq<BlockData>, d: BlockData)
    requires |ds| >= 1 && ChainValid(h, c, ds)
    requires d.hash == ds[0].hash
    ensures ChainValid(h, c, ds[0 := d])
  {
    var es := ds[0 := d];
    forall i | 1 <= i < |es| ensures BlockOk(h, c, es, i) {
      assert BlockOk(h, c, ds, i);
    }
  }

  /** Every prefix of a valid chain is valid. */
  lemma PrefixValid(h: HashFn, c: Crypto, ds: seq<BlockData>, k: nat)
    requires ChainValid(h, c, ds) && k <= |ds|
    ensures ChainValid(h, c, ds[..k])
  {
    forall i | 1 <= i < k ensures BlockOk(h, c, ds[..k], i) {
      assert BlockOk(h, c, ds, i);
    }
  }

  /**
   * Tampering with block `i >= 1` of a valid chain is detected: replacing it
   * with any different block breaks validity, unless it is the last block
   * re-sealed under its own digest (see `ResealTip`). A changed stored hash is
   * caught by the next block's link or, at the tip, by the hash check; a
   * changed content under the same stored hash is caught by the hash check,
   * given that the digest tells the two contents apart.
   */
  lemma TamperDetected(h: HashFn, c: Crypto, ds: seq<BlockData>, i: nat, d: BlockData)
    requires ChainValid(h, c, ds)
    requires 1 <= i < |ds| && d != ds[i]
    requires i < |ds| - 1 || d.hash == ds[i].hash || d.hash != Digest(h, d)
    requires d.hash == ds[i].hash ==> Digest(h, d) != Digest(h, ds[i])
    ensures !ChainValid(h, c, ds[i := d])
  {
    var es := ds[i := d];
    assert BlockOk(h, c, ds, i);
    if d.hash != ds[i].hash {
      if i < |ds| - 1 {
        assert BlockOk(h, c, ds, i + 1);
        assert !BlockOk(h, c, es, i + 1);
      } else {
        assert !BlockOk(h, c, es, i);
      }
    } else {
      assert !BlockOk(h, c, es, i);
    }
  }

  /**
   * The exception: the tip of a valid chain of two or more blocks may be
   * replaced by any block that passes the three checks itself (its stored
   * hash its own digest, linked to the block before, valid transactions),
   * and only by such a block.
   */
  lemma ResealTip(h: HashFn, c: Crypto, ds: seq<BlockData>, d: BlockData)
    requires |ds| >= 2 && ChainValid(h, c, ds)
    ensures ChainValid(h, c, ds[|ds| - 1 := d]) <==>
              && d.hash == Digest(h, d)
              && d.previousHash == ds[|ds| - 2].hash
              && forall tx :: tx in d.transactions ==> IsValid(c, tx)
  {
    var es := ds[|ds| - 1 := d];
    assert es == ds[..|ds| - 1] + [d];
    if d.hash == Digest(h, d) && d.previousHash == ds[|ds| - 2].hash
       && forall tx :: tx in d.transactions ==> IsValid(c, tx) {
      PrefixValid(h, c, ds, |ds| - 1);
      ExtendValid(h, c, ds[..|ds| - 1], d);
    } else {
      assert !BlockOk(h, c, es, |ds| - 1);
    }
  }

  /**
   * Sealing a block of valid transactions that is linked to the tip and whose
   * stored hash is its digest keeps a valid chain valid.
   */
  lemma ExtendValid(h: HashFn, c: Crypto, ds: seq<BlockData>, d: BlockData)
    requires |ds| >= 1 && ChainValid(h, c, ds)
    requires d.hash == Digest(h, d) && d.previousHash == ds[|ds| - 1].hash
    requires forall tx :: tx in d.transactions ==> IsValid(c, tx)
    ensures ChainValid(h, c, ds + [d])
  {
    var es := ds + [d];
    forall i | 1 <= i < |es| ensures BlockOk(h, c, es, i) {
      if i < |ds| {
        assert BlockOk(h, c, ds, i);
      }
    }
  }

  /**
   * Mining the pool stores the pool's transactions in the chain, so the
   * replayed ledger changes only by the reward: the miner gains the reward
   * and every other address keeps its balance.
   */
  lemma MiningCreditsOnlyMiner(ledger: seq<Tx>, minerAddress: string, amount: real, timestamp: real,
                               address: string)
    ensures address != Mint ==>
              Balance(address, ledger + [Reward(minerAddress, amount, timestamp)]) ==
              Balance(address, ledger) + (if address == minerAddress then amount else 0.0)
    ensures minerAddress != Mint ==>
              Balance(Mint, ledger + [Reward(minerAddress, amount, timestamp)]) == Balance(Mint, ledger) - amount
  {
  }

  /** Replaying block `i` after blocks `0 .. i - 1` adds its transactions' balance. */
  lemma BalanceNextBlock(address: string, ds: seq<BlockData>, i: nat)
    requires i < |ds|
    ensures Balance(address, ChainTransactions(ds[..i + 1])) ==
              Balance(address, ChainTransactions(ds[..i])) + Balance(address, ds[i].transactions)
  {
    assert ds[..i + 1] == ds[..i] + [ds[i]];
    ChainTransactionsSnoc(ds[..i], ds[i]);
    BalanceAppend(address, ChainTransactions(ds[..i]), ds[i].transactions);
  }

  /**
   * One pass of the replay loop of `get_balance_of_address`: subtract the
   * amount of every transaction `address` sends, add that of every one it
   * receives.
   */
  method Replay(address: string, start: real, txs: seq<Tx>) returns (balance: real)
    ensures balance == start + Balance(address, txs)
  {
    balance := start;
    for j := 0 to |txs|
      invariant balance == start + Balance(address, txs[..j])
    {
      var tx := txs[j];
      if tx.senderPub == address {
        balance := balance - tx.amount;
      }
      if tx.recipientPub == address {
        balance := balance + tx.amount;
      }
      assert txs[..j + 1] == txs[..j] + [tx];
      BalanceSnoc(address, txs[..j], tx);
    }
    assert txs[..|txs|] == txs;
  }

  class Blockchain {
    const H: HashFn
    const C: Crypto
    const difficulty: int
    const miningReward: real
    var chain: seq<Block>
    var pending: seq<Tx>

    /** The object invariant: there is a tip, and every pending transaction is valid. */
    ghost predicate Valid()
      reads this
    {
      |chain| >= 1 && forall tx :: tx in pending ==> IsValid(C, tx)
    }

    /** The chain's blocks, as values. */
    ghost function ChainData(): (ds: seq<BlockData>)
      reads this, chain
    {
      seq(|chain|, k requires 0 <= k < |chain| reads this, chain => chain[k].Data())
    }

    /** Every transaction the balance replays: the chain's, then the pool's. */
    ghost function Replayed(): seq<Tx>
      reads this, chain
    {
      ChainTransactions(ChainData()) + pending
    }

    /** `Blockchain.__init__`: an empty pool and a chain holding only the genesis block. */
    constructor (h: HashFn, c: Crypto, now: real,
                 difficulty: int := DefaultDifficulty, miningReward: real := DefaultMiningReward)
      ensures H == h && C == c && this.difficulty == difficulty && this.miningReward == miningReward
      ensures Valid()
      ensures pending == []
      ensures |chain| == 1 && fresh(chain[0])
      ensures ChainData() == [GenesisData(h, now)]
      ensures ChainValid(H, C, ChainData())
    {
      H := h;
      C := c;
      this.difficulty := difficulty;
      this.miningReward := miningReward;
      chain := [];
      pending := [];
      new;
      CreateGenesisBlock(now);
      SingleBlockValid(H, C, ChainData()[0]);
    }

    /** `create_genesis_block`: appends a genesis block, whatever the chain holds. */
    method CreateGenesisBlock(now: real)
      modifies this
      ensures old(Valid()) ==> Valid()
      ensures pending == old(pending)
      ensures |chain| == old(|chain|) + 1 && chain[..old(|chain|)] == old(chain)
      ensures fresh(chain[old(|chain|)])
      ensures ChainData() == old(ChainData()) + [GenesisData(H, now)]
    {
      var genesis := new Block(H, 0, [], "0", now);
      genesis.hash := genesis.CalculateHash(H);
      chain := chain + [genesis];
      assert ChainData()[..|chain| - 1] == old(ChainData());
    }

    /** `get_latest_block`: the tip of the chain. */
    function LatestBlock(): Block
      reads this
      requires |chain| > 0
    {
      chain[|chain| - 1]
    }

    /**
     * `add_transaction`: raise on a missing key; reject an invalid
     * transaction, or an overspend by anyone but the mint, with nothing
     * changed; otherwise queue the transaction at the end of the pool.
     */
    method AddTransaction(tx: Tx) returns (r: Result<bool>)
      modifies this
      ensures old(Valid()) ==> Valid()
      ensures r == Admit(C, old(Replayed()), tx)
      ensures chain == old(chain) && ChainData() == old(ChainData())
      ensures pending == if r == Success(true) then old(pending) + [tx] else old(pending)
    {
      if tx.senderPub == "" || tx.recipientPub == "" {
        return Failure(ValueError(MissingKeysMessage));
      }
      if !IsValid(C, tx) {
        return Success(false);
      }
      var senderBalance := GetBalanceOfAddress(tx.senderPub);
      if tx.senderPub != Mint && senderBalance < tx.amount {
        return Success(false);
      }
      pending := pending + [tx];
      return Success(true);
    }

    /**
     * `mine_pending_transactions`: queue the reward, seal the whole pool into
     * a block linked to the tip, mine it, append it and empty the pool. It
     * always produces a block, even from an empty pool. The requires clause
     * on the nonce says the search terminates.
     */
    method MinePendingTransactions(minerAddress: string, rewardTime: real, blockTime: real)
      requires |chain| > 0
      requires Solvable(H, |chain|, blockTime, pending + [Reward(minerAddress, miningReward, rewardTime)],
                        chain[|chain| - 1].hash, 0, difficulty)
      modifies this
      ensures Valid()
      ensures pending == []
      ensures |chain| == old(|chain|) + 1 && chain[..old(|chain|)] == old(chain)
      ensures fresh(chain[old(|chain|)]) && LatestBlock() == chain[old(|chain|)]
      ensures ChainData()[..old(|chain|)] == old(ChainData())
      ensures var b := ChainData()[old(|chain|)];
              && b.index == old(|chain|)
              && b.timestamp == blockTime
              && b.transactions == old(pending) + [Reward(minerAddress, miningReward, rewardTime)]
              && b.previousHash == old(LatestBlock().hash)
              && FirstSolution(H, b, difficulty)
      ensures Replayed() == old(Replayed()) + [Reward(minerAddress, miningReward, rewardTime)]
      ensures old(Valid() && ChainValid(H, C, ChainData())) ==> ChainValid(H, C, ChainData())
    {
      ghost var ds0 := ChainData();
      ghost var pool0 := pending;
      ghost var tipHash := chain[|chain| - 1].hash;
      var reward := Reward(minerAddress, miningReward, rewardTime);
      pending := pending + [reward];
      var block := NewMinedBlock(H, |chain|, pending, LatestBlock().hash, blockTime, difficulty);
      assert forall k :: 0 <= k < |ds0| ==> chain[k].Data() == ds0[k];
      ghost var d := block.Data();
      assert d.previousHash == tipHash;
      chain, pending := chain + [block], [];
      assert ChainData() == ds0 + [d];
      ChainTransactionsSnoc(ds0, d);
      calc {
        Replayed();
        ChainTransactions(ds0 + [d]) + [];
        ChainTransactions(ds0) + (pool0 + [reward]);
        { assert ChainTransactions(ds0) + (pool0 + [reward]) == (ChainTransactions(ds0) + pool0) + [reward]; }
        (ChainTransactions(ds0) + pool0) + [reward];
      }
      if old(Valid()) && ChainValid(H, C, ds0) {
        ExtendValid(H, C, ds0, d);
      }
    }

    /** `get_balance_of_address`: replays the chain, then the pool. */
    method GetBalanceOfAddress(address: string) returns (balance: real)
      ensures balance == Balance(address, Replayed())
    {
      ghost var ds := ChainData();
      balance := 0.0;
      for i := 0 to |chain|
        invariant balance == Balance(address, ChainTransactions(ds[..i]))
      {
        assert chain[i].transactions == ds[i].transactions;
        balance := Replay(address, balance, chain[i].transactions);
        BalanceNextBlock(address, ds, i);
      }
      assert ds[..|chain|] == ds;
      BalanceAppend(address, ChainTransactions(ds), pending);
      balance := Replay(address, balance, pending);
    }

    /**
     * `is_chain_valid`: checks blocks 1 onward in order and stops at the
     * first failed check.
     */
    method IsChainValid() returns (ok: bool)
      ensures ok == ChainValid(H, C, ChainData())
    {
      var i := 1;
      while i < |chain|
        invariant 1 <= i
        invariant forall k :: 1 <= k < i && k < |chain| ==> BlockOk(H, C, ChainData(), k)
      {
        var current := chain[i];
        var previous := chain[i - 1];
        if current.hash != current.CalculateHash(H) {
          assert !BlockOk(H, C, ChainData(), i);
          return false;
        }
        if current.previousHash != previous.hash {
          assert !BlockOk(H, C, ChainData(), i);
          return false;
        }
        for j := 0 to |current.transactions|
          invariant forall m :: 0 <= m < j ==> IsValid(C, current.transactions[m])
        {
          if !IsValid(C, current.transactions[j]) {
            assert !BlockOk(H, C, ChainData(), i);
            return false;
          }
        }
        assert BlockOk(H, C, ChainData(), i);
        i := i + 1;
      }
      return true;
    }
  }
}
