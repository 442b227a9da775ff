/** service/transaction.go: the transaction record, its hash, the validity
    guard chain, the miner's reward and creation from request fields. */
module Transactions {
  import opened GoStd
  import opened HexCodec
  import opened Util

  datatype Transaction = Transaction(
    hash: string,
    signature: string,
    from: string,
    to: string,
    value: int,
    data: string,
    timestamp: int)

  /** `common.Address{}.Hex()`: the sender of reward transactions. */
  const ZeroAddress: string := "0x0000000000000000000000000000000000000000"

  /** `util.MinersReward`: its declaration is not part of this model, so its
      value is left open. */
  const MinersReward: int

  /** What `TxHash` hashes: the five content fields run together, integers in
      decimal, with no separator. */
  function TxPreimage(tx: Transaction): string
  {
    tx.from + tx.to + FormatInt(tx.value) + tx.data + FormatInt(tx.timestamp)
  }

  /** `TxHash`: the Keccak-256 of the preimage, as "0x"-prefixed hex. */
  function TxHash(tx: Transaction): (h: string)
    ensures |h| == 66
    ensures HexutilDecode(h) == Ok(CryptoHash(Utf8(TxPreimage(tx))))
  {
    DigestHexDecodes(CryptoHash(Utf8(TxPreimage(tx))));
    DigestHex(CryptoHash(Utf8(TxPreimage(tx))))
  }

  /** The hash sees only From, To, Value, Data and Timestamp. */
  lemma TxHashIgnoresSignatureAndHash(tx: Transaction, signature: string, hash: string)
    ensures TxHash(tx.(signature := signature, hash := hash)) == TxHash(tx)
  {
  }

  /** Running the fields together without a separator is not injective: two
      transactions that split the same text differently between From and To
      get the same hash. */
  lemma TxHashCollision(value: int, data: string, timestamp: int)
    ensures TxHash(Transaction("", "", "ab", "c", value, data, timestamp))
         == TxHash(Transaction("", "", "a", "bc", value, data, timestamp))
  {
    assert "ab" + "c" == "a" + "bc";
  }

  /** `ValidTransaction`: a reward passes outright; any other transaction must
      pass every field guard, carry a hash that `hexutil.Decode` accepts, and
      carry a signature over those hash bytes that verifies against `pubKey`. */
  function ValidTransaction(tx: Transaction, pubKey: string): (ok: bool)
    ensures tx.from == ZeroAddress ==> ok
    ensures (tx.from != ZeroAddress &&
             (tx.from == "" || tx.to == "" || tx.value <= 0 || tx.data == "" || tx.timestamp <= 0)) ==> !ok
    ensures tx.from != ZeroAddress && HexutilDecode(tx.hash).Err? ==> !ok
    ensures ok && tx.from != ZeroAddress ==>
      HexutilDecode(tx.hash).Ok? && VerifySignature(pubKey, HexutilDecode(tx.hash).value, tx.signature)
    ensures (tx.from != "" && tx.to != "" && tx.value > 0 && tx.data != "" && tx.timestamp > 0 &&
             HexutilDecode(tx.hash).Ok? && VerifySignature(pubKey, HexutilDecode(tx.hash).value, tx.signature)) ==> ok
  {
    if tx.from == ZeroAddress then true
    else if tx.from == "" then false
    else if tx.to == "" then false
    else if tx.value <= 0 then false
    else if tx.data == "" then false
    else if tx.timestamp <= 0 then false
    else match HexutilDecode(tx.hash)
      case Err(_) => false
      case Ok(hashBytes) => VerifySignature(pubKey, hashBytes, tx.signature)
  }

  /** `ValidTransaction` as written: the same guards, then `util.VerifySignature`
      as written, so a signature decoding to fewer than 32 bytes crashes the
      node instead of being refused. */
  function ValidTransactionAsWritten(tx: Transaction, pubKey: string): (v: Verdict)
    ensures tx.from == ZeroAddress ==> v == Answer(true)
    ensures (tx.from != ZeroAddress &&
             (tx.from == "" || tx.to == "" || tx.value <= 0 || tx.data == "" || tx.timestamp <= 0)) ==> v == Answer(false)
    ensures tx.from != ZeroAddress && HexutilDecode(tx.hash).Err? ==> v == Answer(false)
    ensures v.Panic? ==> HexutilDecode(tx.signature).Ok? && |HexutilDecode(tx.signature).value| < 32
    ensures (tx.from != ZeroAddress && tx.from != "" && tx.to != "" && tx.value > 0 && tx.data != "" &&
             tx.timestamp > 0 && HexutilDecode(tx.hash).Ok?) ==>
      v == VerifySignatureAsWritten(pubKey, HexutilDecode(tx.hash).value, tx.signature)
  {
    if tx.from == ZeroAddress then Answer(true)
    else if tx.from == "" then Answer(false)
    else if tx.to == "" then Answer(false)
    else if tx.value <= 0 then Answer(false)
    else if tx.data == "" then Answer(false)
    else if tx.timestamp <= 0 then Answer(false)
    else match HexutilDecode(tx.hash)
      case Err(_) => Answer(false)
      case Ok(hashBytes) => VerifySignatureAsWritten(pubKey, hashBytes, tx.signature)
  }

  /** The corrected check against the code as written: the same answer unless
      the signature decodes to fewer than 64 bytes, every transaction the
      corrected check accepts is accepted as written, and a crash as written is
      a refusal when corrected. */
  lemma ValidTransactionAgrees(tx: Transaction, pubKey: string)
    ensures HexutilDecode(tx.signature).Err? || |HexutilDecode(tx.signature).value| >= 64 ==>
      ValidTransactionAsWritten(tx, pubKey) == Answer(ValidTransaction(tx, pubKey))
    ensures ValidTransaction(tx, pubKey) ==> ValidTransactionAsWritten(tx, pubKey) == Answer(true)
    ensures ValidTransactionAsWritten(tx, pubKey).Panic? ==> !ValidTransaction(tx, pubKey)
  {
    if tx.from != ZeroAddress && HexutilDecode(tx.hash).Ok? {
      VerifySignatureAgrees(pubKey, HexutilDecode(tx.hash).value, tx.signature);
    }
  }

  /** `RewardTransaction`: pays `MinersReward` from the zero address to the miner. */
  function RewardTransaction(miner: string): (tx: Transaction)
    ensures tx.from == ZeroAddress && tx.to == miner && tx.value == MinersReward
    ensures tx.data == "" && tx.timestamp == 0 && tx.signature == ""
    ensures tx.hash == TxHash(tx)
    ensures forall pubKey :: ValidTransaction(tx, pubKey)
  {
    var tx := Transaction("", "", ZeroAddress, miner, MinersReward, "", 0);
    tx.(hash := TxHash(tx))
  }

  /** The transaction `CreateTransaction` builds before validating it. */
  function Assemble(from: string, to: string, value: int, data: string, timestamp: int, signature: string): Transaction
  {
    var tx := Transaction("", signature, from, to, value, data, timestamp);
    tx.(hash := TxHash(tx))
  }

  /** `CreateTransaction`: the fields as given, the hash computed, and an error
      exactly when the result would not be valid. */
  function CreateTransaction(from: string, to: string, value: int, data: string, timestamp: int,
                             signature: string, pubKey: string): (r: Result<Transaction>)
    ensures r.Ok? <==> ValidTransaction(Assemble(from, to, value, data, timestamp, signature), pubKey)
    ensures r.Ok? ==> (r.value.from == from && r.value.to == to && r.value.value == value &&
                       r.value.data == data && r.value.timestamp == timestamp && r.value.signature == signature)
    ensures r.Ok? ==> r.value.hash == TxHash(r.value)
  {
    var tx := Assemble(from, to, value, data, timestamp, signature);
    if !ValidTransaction(tx, pubKey) then Err("invalid transaction") else Ok(tx)
  }

  /** What a creation request comes to in Go: the returned pair, or a panic in
      the request handler. */
  datatype Creation = Returned(result: Result<Transaction>) | HandlerPanic

  /** `CreateTransaction` as written: it validates with the signature check as
      written, and so crashes where that check does. */
  function CreateTransactionAsWritten(from: string, to: string, value: int, data: string, timestamp: int,
                                      signature: string, pubKey: string): (c: Creation)
    ensures c.HandlerPanic? ==> HexutilDecode(signature).Ok? && |HexutilDecode(signature).value| < 32
    ensures c.HandlerPanic? <==> ValidTransactionAsWritten(Assemble(from, to, value, data, timestamp, signature), pubKey).Panic?
    ensures ValidTransactionAsWritten(Assemble(from, to, value, data, timestamp, signature), pubKey) == Answer(false) ==>
      c == Returned(Err("invalid transaction"))
    ensures c == Returned(Ok(Assemble(from, to, value, data, timestamp, signature))) <==>
      ValidTransactionAsWritten(Assemble(from, to, value, data, timestamp, signature), pubKey) == Answer(true)
    ensures c.Returned? && c.result.Err? ==> c.result.msg == "invalid transaction"
  {
    var tx := Assemble(from, to, value, data, timestamp, signature);
    match ValidTransactionAsWritten(tx, pubKey)
    case Panic => HandlerPanic
    case Answer(ok) => if !ok then Returned(Err("invalid transaction")) else Returned(Ok(tx))
  }

  /** The corrected creation against the code as written: the same outcome
      unless the signature decodes to fewer than 64 bytes, every request the
      corrected one accepts is accepted as written, and a crash as written is
      the "invalid transaction" error when corrected. */
  lemma CreateTransactionAgrees(from: string, to: string, value: int, data: string, timestamp: int,
                                signature: string, pubKey: string)
    ensures HexutilDecode(signature).Err? || |HexutilDecode(signature).value| >= 64 ==>
      CreateTransactionAsWritten(from, to, value, data, timestamp, signature, pubKey)
        == Returned(CreateTransaction(from, to, value, data, timestamp, signature, pubKey))
    ensures CreateTransaction(from, to, value, data, timestamp, signature, pubKey).Ok? ==>
      CreateTransactionAsWritten(from, to, value, data, timestamp, signature, pubKey)
        == Returned(CreateTransaction(from, to, value, data, timestamp, signature, pubKey))
    ensures CreateTransactionAsWritten(from, to, value, data, timestamp, signature, pubKey).HandlerPanic? ==>
      CreateTransaction(from, to, value, data, timestamp, signature, pubKey) == Err("invalid transaction")
  {
    ValidTransactionAgrees(Assemble(from, to, value, data, timestamp, signature), pubKey);
  }

  /** A well-formed request whose signature is "0x" crashes the handler as
      written, where the corrected creation refuses it. */
  lemma CreateTransactionCrashes()
    ensures CreateTransactionAsWritten("a", "b", 1, "d", 1, "0x", "") == HandlerPanic
    ensures CreateTransaction("a", "b", 1, "d", 1, "0x", "") == Err("invalid transaction")
  {
    var tx := Assemble("a", "b", 1, "d", 1, "0x");
    assert tx.from != ZeroAddress;
    assert HexutilDecode(tx.hash).Ok?;
    ShortSignatureCrashes(HexutilDecode(tx.hash).value);
  }

  /** A request from an ordinary sender is accepted exactly when its fields pass
      the guards and the signature verifies over the Keccak-256 of its preimage:
      the computed hash itself never stands in the way. */
  lemma CreateTransactionAccepts(from: string, to: string, value: int, data: string, timestamp: int,
                                 signature: string, pubKey: string)
    requires from != ZeroAddress
    ensures CreateTransaction(from, to, value, data, timestamp, signature, pubKey).Ok? <==>
      && from != "" && to != "" && value > 0 && data != "" && timestamp > 0
      && VerifySignature(pubKey, CryptoHash(Utf8(TxPreimage(Transaction("", signature, from, to, value, data, timestamp)))), signature)
  {
    var tx0 := Transaction("", signature, from, to, value, data, timestamp);
    var tx := Assemble(from, to, value, data, timestamp, signature);
    assert TxPreimage(tx) == TxPreimage(tx0);
    assert HexutilDecode(tx.hash) == Ok(CryptoHash(Utf8(TxPreimage(tx0))));
  }
}
