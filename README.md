# Educational blockchain ledger, modelled in Dafny

This project models the in-memory ledger of `blockchain_money_transaction.py` and
proves properties of the model. There are three parts:

- **Transactions** (`transaction.dfy`, module `Transactions`). A transaction moves an
  amount from a sender key to a recipient key. It has a creation timestamp and an
  optional signature. `IsValid` is `Transaction.is_valid`. The sender `"SYSTEM"`
  (the mint) is always valid. Any other sender needs a present, non-empty signature,
  a public key and signature that decode, and a signature that verifies over the
  `to_dict` content. `Balance` replays a sequence of transactions for one address:
  amounts received minus amounts sent.
- **Blocks** (`block.dfy`, module `Blocks`). `Block` is a class whose fields are the
  block's index, timestamp, transactions, previous hash, nonce and stored hash.
  `CalculateHash` applies the block digest to the content. `Mine` is the nonce
  search: while the stored hash does not start with `'0' * difficulty`, it
  increments the nonce and recomputes the hash.
- **The ledger** (`blockchain.dfy`, module `Ledger`). `Blockchain` is a class holding
  the chain (a sequence of `Block` objects) and the pending pool (a sequence of
  transactions), both updated in place. It also holds the difficulty, the mining
  reward, the block digest `H` and the signature primitives `C`.
  - `AddTransaction` validates a transaction, checks the sender's balance and queues it.
  - `MinePendingTransactions` adds the reward, seals and mines a block, appends it and empties the pool.
  - `GetBalanceOfAddress` replays the chain and then the pool.
  - `IsChainValid` recomputes every hash after the genesis block and checks every link and transaction.

The cryptography is abstract, and the behaviour built on it is exact:

- The block digest (SHA-256 over the sorted-key JSON of index, timestamp,
  transactions with signatures, previous hash and nonce) is a function value
  `H: HashFn`, fixed when the ledger is built.
- Signature checking is a `Crypto` record of three function values:
  - key decoding (`unhexlify` plus `VerifyingKey.from_string`);
  - signature hex decoding;
  - `verify`.

  Decoding failures are `None` and a bad signature is `false`. The source's
  catch-all `except` then becomes "invalid" by construction.
- Timestamps (`time.time()`) are parameters of the operations that read the clock.

Behaviour of the code worth knowing, which the model reproduces:

- The code does not check that an amount is non-negative. `NegativeAmountAccepted`
  shows what follows from that.
- `mine_pending_transactions` has no empty-pool guard. It always seals a block,
  holding at least the reward.
- `is_chain_valid` returns only a boolean. The first failing index is only printed.
- `is_chain_valid` never checks proof of work. A block whose stored hash is its
  digest passes whether or not that hash meets the difficulty target, as
  `ExtendValid` and `ResealTip` show: neither asks for the target.
- `add_transaction` returns `False` both for an invalid signature and for
  insufficient funds. The two are not distinguished.
- `add_transaction` accepts a submitted transaction whose sender is `'SYSTEM'`
  with no signature and no balance check (lines 87-88 and 150), so any caller
  can mint. `AdmitCases` with `MintNeedsNoSignature` shows this.
- `get_latest_block` (`Ledger.Blockchain.LatestBlock`) only reads the tip; what
  it means for the ledger is stated by `MinePendingTransactions`, whose new
  block links to the old latest block's hash and becomes the latest block.

## Model

| member | source | states |
|---|---|---|
| `Transactions.ToDictDeterminesContent` | blockchain_money_transaction.py:70-76 | the signed content fixes sender, recipient, amount and timestamp, and leaves out the signature |
| `Transactions.IsValidCases` | blockchain_money_transaction.py:85-97 | a mint sender is always valid; a missing or empty signature is invalid; otherwise valid iff the key and the signature both decode and the signature verifies over `to_dict`, so any decoding failure gives false |
| `Transactions.MintNeedsNoSignature` | blockchain_money_transaction.py:86-88 | a mint transaction is valid with no signature or any signature |
| `Transactions.BalanceSnoc` | blockchain_money_transaction.py:178-182 | replaying one more transaction subtracts its amount if the address sent it and adds it if the address received it |
| `Transactions.BalanceAppend` | blockchain_money_transaction.py:169-183 | the replayed balance is additive over concatenation of transaction sequences |
| `Transactions.SelfTransferNeutral` | blockchain_money_transaction.py:173-176 | a transaction whose sender is its recipient leaves every balance unchanged |
| `Transactions.BystanderUnchanged` | blockchain_money_transaction.py:173-176 | a transfer between two other parties leaves the address's balance unchanged |
| `Transactions.TransferConserves` | blockchain_money_transaction.py:173-176 | a transfer between distinct parties takes exactly the amount from the sender and gives it to the recipient |
| `Transactions.TotalDeltaDistinct` | blockchain_money_transaction.py:173-176 | summed over distinct addresses, one transaction adds its amount once if its recipient is among them and takes it once if its sender is |
| `Transactions.TotalBalanceSnoc` | blockchain_money_transaction.py:178-182 | replaying one more transaction changes the summed balance of a list of addresses by that transaction's summed delta |
| `Transactions.TotalBalanceEmpty` | blockchain_money_transaction.py:170 | before any transaction is replayed, every balance is zero |
| `Transactions.Conservation` | blockchain_money_transaction.py:169-183 | over distinct addresses that include every sender and recipient (the mint among them) the balances sum to zero, so the other accounts together hold exactly what the mint paid out |
| `Blocks.Zeros` | blockchain_money_transaction.py:120 | the target `'0' * difficulty` has length `difficulty` (0 when difficulty is not positive) and consists of `'0'` characters |
| `Blocks.LeadingZeros` | blockchain_money_transaction.py:120-121 | a hash starts with the target exactly when its first `difficulty` characters are `'0'` |
| `Blocks.TrivialTarget` | blockchain_money_transaction.py:120-121 | with difficulty 0 or less every hash meets the target |
| `Blocks.Block.constructor` | blockchain_money_transaction.py:101-107 | a new block holds the given index, timestamp, transactions and previous hash, has nonce 0, and its hash is the digest of that content |
| `Blocks.Block.Mine` | blockchain_money_transaction.py:119-123 | content other than nonce and hash is unchanged; the nonce never decreases; on exit the hash starts with the target; if the stored hash already met it nothing changes (so difficulty 0 leaves the nonce alone); otherwise the nonce is the first one above the starting nonce whose digest meets the target and the hash is that digest |
| `Blocks.NewMinedBlock` | blockchain_money_transaction.py:161-163 | a fresh block holding the given index, timestamp, transactions and previous hash, whose stored hash is its digest, meets the target, and uses the first non-negative nonce that does |
| `Ledger.AdmitCases` | blockchain_money_transaction.py:142-154 | admission raises exactly for an empty sender or recipient, and accepts exactly a valid transaction whose sender is the mint or has a balance of at least the amount |
| `Ledger.AdmitNoOverdraft` | blockchain_money_transaction.py:149-153 | an accepted non-mint transaction never takes a non-negative sender balance below zero |
| `Ledger.NegativeAmountAccepted` | blockchain_money_transaction.py:149-153 | a validly signed transfer of a negative amount between distinct parties is accepted from a sender with a non-negative balance, and it lowers the recipient's balance |
| `Ledger.ChainTransactionsSnoc` | blockchain_money_transaction.py:171-172 | replaying one more block replays its transactions after those of the earlier blocks |
| `Ledger.SingleBlockValid` | blockchain_money_transaction.py:186 | a chain of one block is valid, whatever the block holds |
| `Ledger.GenesisUnchecked` | blockchain_money_transaction.py:185-201 | validation never looks at the genesis block's content: replacing it, keeping its stored hash, keeps a valid chain valid |
| `Ledger.PrefixValid` | blockchain_money_transaction.py:185-201 | every prefix of a valid chain is valid |
| `Ledger.TamperDetected` | blockchain_money_transaction.py:185-201 | replacing block `i >= 1` of a valid chain by a different block makes it invalid, unless it is the tip re-sealed under its own digest; a changed stored hash is caught by the next block's link or, at the tip, by the hash check; changed content under the same stored hash is caught if the digest tells the two contents apart |
| `Ledger.ResealTip` | blockchain_money_transaction.py:185-201 | the tip of a valid chain of two or more blocks can be replaced, keeping the chain valid, exactly by a block that stores its own digest, links to the block before and holds only valid transactions |
| `Ledger.ExtendValid` | blockchain_money_transaction.py:185-201 | appending a block of valid transactions that links to the tip and stores its own digest keeps a valid chain valid |
| `Ledger.MiningCreditsOnlyMiner` | blockchain_money_transaction.py:158-159 | adding the reward to the replayed ledger raises the miner's balance by the reward, lowers the mint's by the same, and leaves every other address alone |
| `Ledger.BalanceNextBlock` | blockchain_money_transaction.py:171-176 | replaying one more block adds the balance of its transactions to that of the earlier blocks |
| `Ledger.Replay` | blockchain_money_transaction.py:172-176 | one replay loop adds the address's `Balance` over the transactions to the running total |
| `Ledger.Blockchain.constructor` | blockchain_money_transaction.py:127-137 | the difficulty and mining reward default to 3 and 50.0; after construction the pool is empty and the chain is exactly the genesis block (index 0, timestamp now, no transactions, previous hash `"0"`, nonce 0, hash its digest); the chain is valid and every pending transaction is valid |
| `Ledger.Blockchain.CreateGenesisBlock` | blockchain_money_transaction.py:134-137 | appends the genesis block (index 0, no transactions, previous hash `"0"`, nonce 0, hash its digest) to the chain, whatever it held, and leaves the pool and earlier blocks alone |
| `Ledger.Blockchain.AddTransaction` | blockchain_money_transaction.py:142-154 | the outcome is `Admit` on the ledger replayed before the call; an accepted transaction is appended at the end of the pool; any other outcome changes nothing; the chain never changes; if every pending transaction was valid, every one still is |
| `Ledger.Blockchain.MinePendingTransactions` | blockchain_money_transaction.py:156-167 | exactly one block is appended and earlier blocks are unchanged; its index is the old chain length, its previous hash the hash of the old latest block, its transactions the old pool followed by the reward to the miner; it becomes the latest block; its hash is its digest, meets the target, and its nonce is the first that does; the pool ends empty; the replayed ledger gains only the reward; a valid chain whose pending transactions are all valid stays valid |
| `Ledger.Blockchain.GetBalanceOfAddress` | blockchain_money_transaction.py:169-183 | returns `Balance` of the address over the chain's transactions in block order followed by the pool |
| `Ledger.Blockchain.IsChainValid` | blockchain_money_transaction.py:185-201 | returns true iff every block at index 1 onward stores the digest of its content, links to the previous block's stored hash, and holds only valid transactions |

## Left out

- The `Wallet` class and `Transaction.sign_transaction`: key generation and signing happen in the `ecdsa` library and are not part of this model. Only the verifying side is modelled, through the abstract `Crypto` functions.
- SHA-256 and the `json.dumps(..., sort_keys=True)` serialisation: the digest is the abstract function `H`. `Ledger.TamperDetected` requires only that the digest distinguishes the tampered block's content from the original's, not that it is collision-free (no function from this content, which holds reals, into strings can be).
- Clock reads: `time.time()` for transaction and block timestamps is a parameter.
- Floating point: amounts, balances and timestamps are `real`. Float rounding, and the order of the additions that it would make matter, are not modelled.
- `Blocks.Block.Mine`: requires that some nonce meets the target, because the source's loop has no bound. Under that requires the model proves that the search ends; only searches that end are modelled.
- `Ledger.Blockchain.MinePendingTransactions`: requires, for the same reason, that the block it seals has a nonce meeting the target.
- `Ledger.Blockchain.MinePendingTransactions` and `Ledger.Blockchain.LatestBlock`: require a non-empty chain. On an empty chain the source first appends the reward to the pool and then raises `IndexError` in `get_latest_block` (line 140); that error path is not modelled. The constructor always makes the chain non-empty.
- The default arguments `previous_hash=''` of `Block.__init__` (line 101) and `signature=None` of `Transaction.__init__` (line 63): callers of the model pass these values explicitly. Every call in the source passes a previous hash.
- Aliasing of transaction objects: the source keeps references to `Transaction` objects, so a caller could change one after submission. Here transactions are values.
- The difficulty and the mining reward are constants of the ledger, defaulting to 3 and 50.0 as in the source. The source never reassigns them.
- Diagnostic `print` calls and the `__main__` demonstration.
- Python's dynamic typing: fields hold the types their names suggest. A non-numeric amount, for one, is not modelled.
