/**
 * Transactions of the educational ledger: the value moved from a sender key
 * to a recipient key, the content its signature covers, the validity check,
 * and the balance an address derives from a sequence of transactions.
 */
module Transactions {

  datatype Option<+T> = None | Some(value: T)

  type Bytes = seq<bv8>

  /** The reserved sender of mining rewards; it needs no signature. */
  const Mint: string := "SYSTEM"

  /** The four fields that `to_dict` exposes; this is what gets signed. */
  datatype Payload = Payload(senderPub: string, recipientPub: string, amount: real, timestamp: real)

  /**
   * A transaction. The signature is absent (`None`) until the sender signs;
   * the timestamp is the creation time, supplied by the caller.
   */
  datatype Tx = Tx(senderPub: string, recipientPub: string, amount: real, timestamp: real,
                   signature: Option<string>)
  {
    /** The signed content: every field except the signature. */
    function ToDict(): Payload {
      Payload(senderPub, recipientPub, amount, timestamp)
    }
  }

  /**
   * The elliptic-curve primitives the validity check relies on, left abstract.
   * `parseKey` stands for hex-decoding a public key and loading it as a
   * verifying key, `unhexlify` for hex-decoding a signature, and `verify` for
   * checking a signature over the canonical serialisation of a payload.
   * Every failure is a value (`None` or `false`), never an exception.
   */
  datatype Crypto = Crypto(parseKey: string -> Option<Bytes>,
                           unhexlify: string -> Option<Bytes>,
                           verify: (Bytes, Payload, Bytes) -> bool)

  /** A signature that counts as present: not missing and not empty. */
  predicate HasSignature(tx: Tx) {
    tx.signature.Some? && tx.signature.value != ""
  }

  /** Whether the sender's key and the signature decode and the signature verifies. */
  predicate SignatureVerifies(c: Crypto, tx: Tx)
    requires HasSignature(tx)
  {
    match (c.parseKey(tx.senderPub), c.unhexlify(tx.signature.value))
    case (Some(key), Some(sig)) => c.verify(key, tx.ToDict(), sig)
    case _ => false
  }

  /** `Transaction.is_valid`: mint transactions always pass; others need a verifying signature. */
  function IsValid(c: Crypto, tx: Tx): bool {
    if tx.senderPub == Mint then true
    else if !HasSignature(tx) then false
    else SignatureVerifies(c, tx)
  }

  /** The signed content determines the four fields, and ignores the signature. */
  lemma ToDictDeterminesContent(t: Tx, u: Tx)
    ensures t.ToDict() == u.ToDict() <==> t.(signature := u.signature) == u
  {
  }

  /**
   * The three cases of the validity check: the mint always passes; a missing
   * or empty signature fails; otherwise the result is exactly whether the key
   * and the signature decode and the signature verifies, so a decoding
   * failure yields false.
   */
  lemma IsValidCases(c: Crypto, tx: Tx)
    ensures tx.senderPub == Mint ==> IsValid(c, tx)
    ensures tx.senderPub != Mint && (tx.signature.None? || tx.signature == Some("")) ==> !IsValid(c, tx)
    ensures tx.senderPub != Mint && HasSignature(tx) ==>
              (IsValid(c, tx) <==>
                 c.parseKey(tx.senderPub).Some? && c.unhexlify(tx.signature.value).Some? &&
                 c.verify(c.parseKey(tx.senderPub).value, tx.ToDict(), c.unhexlify(tx.signature.value).value))
  {
  }

  /** A mint transaction is valid whatever its signature, including none. */
  lemma MintNeedsNoSignature(c: Crypto, tx: Tx, sig: string)
    requires tx.senderPub == Mint
    ensures IsValid(c, tx.(signature := None)) && IsValid(c, tx.(signature := Some(sig)))
  {
  }

  /** The change one transaction makes to the balance of `address`. */
  function Delta(address: string, tx: Tx): real {
    (if tx.recipientPub == address then tx.amount else 0.0)
    - (if tx.senderPub == address then tx.amount else 0.0)
  }

  /**
   * The balance of `address` after replaying `txs` in order from zero:
   * received amounts minus sent amounts.
   */
  function Balance(address: string, txs: seq<Tx>): real
    decreases |txs|
  {
    if txs == [] then 0.0
    else Balance(address, txs[..|txs| - 1]) + Delta(address, txs[|txs| - 1])
  }

  /** Replaying one more transaction adds its delta. */
  lemma BalanceSnoc(address: string, txs: seq<Tx>, tx: Tx)
    ensures Balance(address, txs + [tx]) == Balance(address, txs) + Delta(address, tx)
  {
  }

  /** The balance is additive over concatenation of transaction sequences. */
  lemma {:induction false} BalanceAppend(address: string, xs: seq<Tx>, ys: seq<Tx>)
    ensures Balance(address, xs + ys) == Balance(address, xs) + Balance(address, ys)
    decreases |ys|
  {
    if ys == [] {
      assert xs + ys == xs;
    } else {
      var init, last := ys[..|ys| - 1], ys[|ys| - 1];
      assert ys == init + [last];
      assert xs + ys == (xs + init) + [last];
      BalanceAppend(address, xs, init);
      BalanceSnoc(address, xs + init, last);
      BalanceSnoc(address, init, last);
    }
  }

  /** A transaction whose sender is its recipient changes no balance. */
  lemma SelfTransferNeutral(address: string, txs: seq<Tx>, tx: Tx)
    requires tx.senderPub == tx.recipientPub
    ensures Balance(address, txs + [tx]) == Balance(address, txs)
  {
  }

  /** A transfer between two other parties leaves the balance of `address` alone. */
  lemma BystanderUnchanged(address: string, txs: seq<Tx>, tx: Tx)
    requires tx.senderPub != address && tx.recipientPub != address
    ensures Balance(address, txs + [tx]) == Balance(address, txs)
  {
  }

  /**
   * A transfer between two distinct parties moves exactly its amount: the
   * sender loses what the recipient gains, so value is conserved.
   */
  lemma TransferConserves(txs: seq<Tx>, tx: Tx)
    requires tx.senderPub != tx.recipientPub
    ensures Balance(tx.senderPub, txs + [tx]) == Balance(tx.senderPub, txs) - tx.amount
    ensures Balance(tx.recipientPub, txs + [tx]) == Balance(tx.recipientPub, txs) + tx.amount
  {
  }

  /** No address occurs twice. */
  predicate Distinct(addresses: seq<string>) {
    forall i, j :: 0 <= i < j < |addresses| ==> addresses[i] != addresses[j]
  }

  /** The sum of the balances of `addresses` over `txs`. */
  function TotalBalance(addresses: seq<string>, txs: seq<Tx>): real
    decreases |addresses|
  {
    if addresses == [] then 0.0
    else Balance(addresses[0], txs) + TotalBalance(addresses[1..], txs)
  }

  /** The sum of the changes one transaction makes to the balances of `addresses`. */
  function TotalDelta(addresses: seq<string>, tx: Tx): real
    decreases |addresses|
  {
    if addresses == [] then 0.0
    else Delta(addresses[0], tx) + TotalDelta(addresses[1..], tx)
  }

  /** Over distinct addresses, a transaction adds its amount once for the recipient and takes it once for the sender. */
  lemma {:induction false} TotalDeltaDistinct(addresses: seq<string>, tx: Tx)
    requires Distinct(addresses)
    ensures TotalDelta(addresses, tx) ==
              (if tx.recipientPub in addresses then tx.amount else 0.0)
              - (if tx.senderPub in addresses then tx.amount else 0.0)
    decreases |addresses|
  {
    if addresses != [] {
      var rest := addresses[1..];
      assert Distinct(rest);
      assert addresses[0] !in rest;
      assert addresses == [addresses[0]] + rest;
      TotalDeltaDistinct(rest, tx);
    }
  }

  /** Replaying one more transaction adds its total delta to the total balance. */
  lemma {:induction false} TotalBalanceSnoc(addresses: seq<string>, txs: seq<Tx>, tx: Tx)
    ensures TotalBalance(addresses, txs + [tx]) == TotalBalance(addresses, txs) + TotalDelta(addresses, tx)
    decreases |addresses|
  {
    if addresses != [] {
      BalanceSnoc(addresses[0], txs, tx);
      TotalBalanceSnoc(addresses[1..], txs, tx);
    }
  }

  /** Every balance of the empty replay is zero. */
  lemma {:induction false} TotalBalanceEmpty(addresses: seq<string>)
    ensures TotalBalance(addresses, []) == 0.0
    decreases |addresses|
  {
    if addresses != [] {
      TotalBalanceEmpty(addresses[1..]);
    }
  }

  /**
   * Value is conserved: over distinct addresses that include every sender
   * and every recipient (the mint among them), the balances sum to zero. So
   * the accounts other than the mint hold, together, exactly what the mint
   * has paid out.
   */
  lemma {:induction false} Conservation(addresses: seq<string>, txs: seq<Tx>)
    requires Distinct(addresses)
    requires forall tx :: tx in txs ==> tx.senderPub in addresses && tx.recipientPub in addresses
    ensures TotalBalance(addresses, txs) == 0.0
    decreases |txs|
  {
    if txs == [] {
      TotalBalanceEmpty(addresses);
    } else {
      var init, last := txs[..|txs| - 1], txs[|txs| - 1];
      assert txs == init + [last];
      Conservation(addresses, init);
      TotalBalanceSnoc(addresses, init, last);
      TotalDeltaDistinct(addresses, last);
    }
  }
}
