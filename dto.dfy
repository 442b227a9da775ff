/** controller/dto: the checks the request bodies pass before a handler acts
    on them. Each answers with `Pass` or the error it returns. */
module Dto {
  import opened GoStd
  import opened HexCodec
  import opened Util
  import opened TxPool

  /** `HashData.Validate`: the algorithm must be one of the three names,
      spelled exactly. */
  function ValidateHashData(algorithm: string): (r: Outcome)
    ensures r.Pass? <==> algorithm in {"SHA256", "SHA512", "Keccak256"}
    ensures r.Fail? ==> r.msg == "algorithm must be one of SHA256, SHA512, Keccak256"
  {
    if algorithm != "SHA256" && algorithm != "SHA512" && algorithm != "Keccak256" then
      Fail("algorithm must be one of SHA256, SHA512, Keccak256")
    else Pass
  }

  /** An accepted algorithm is one `Hash` computes: it never answers nil. */
  lemma HashDataAcceptedHashes(data: seq<byte>, algorithm: string)
    requires ValidateHashData(algorithm).Pass?
    ensures Hash(data, algorithm).Some?
  {
  }

  /** Only the exact spelling passes: lower case does not. */
  lemma HashDataCaseSensitive()
    ensures ValidateHashData("sha256").Fail?
    ensures ValidateHashData("keccak256").Fail?
  {
    assert "sha256"[0] != "SHA256"[0] && "sha256"[0] != "SHA512"[0] && "sha256"[0] != "Keccak256"[0];
    assert "keccak256"[0] != "SHA256"[0] && "keccak256"[0] != "SHA512"[0] && "keccak256"[0] != "Keccak256"[0];
  }

  /** `SetDifficultyData.Validate`: the difficulty must be positive. */
  function ValidateSetDifficulty(difficulty: int): (r: Outcome)
    ensures r.Pass? <==> difficulty > 0
    ensures r.Fail? ==> r.msg == "difficulty must be greater than 0"
  {
    if difficulty <= 0 then Fail("difficulty must be greater than 0") else Pass
  }

  /** `CreateTransactionRequest.Validate`: a positive value, checked first,
      then distinct sender and receiver. */
  function ValidateCreateTransaction(from: string, to: string, value: int): (r: Outcome)
    ensures r.Pass? <==> value > 0 && from != to
    ensures value <= 0 ==> r == Fail("value must be greater than 0")
    ensures value > 0 && from == to ==> r == Fail("from and to must be different")
  {
    if value <= 0 then Fail("value must be greater than 0")
    else if from == to then Fail("from and to must be different")
    else Pass
  }

  /** `ConfigTransactionPoolData.Validate`: one of the two source types. */
  function ValidateConfigTransactionPool(sourceType: string): (r: Outcome)
    ensures r.Pass? <==> sourceType == Mempool || sourceType == Redis
    ensures r.Fail? ==> r.msg == "type must be Mempool or Redis"
  {
    if sourceType != "Mempool" && sourceType != "Redis" then Fail("type must be Mempool or Redis") else Pass
  }

  /** The validator passes exactly the values that change the pool's source
      type: whatever it refuses, `ConfigTransactionPool` would ignore. */
  lemma ConfigValidatorMatchesPool(current: string, requested: string)
    ensures ValidateConfigTransactionPool(requested).Pass? ==> NextSourceType(current, requested) == requested
    ensures ValidateConfigTransactionPool(requested).Fail? ==> NextSourceType(current, requested) == current
  {
  }

  /** `ImportAccountData.Validate`: one leading "0x" goes, then the key must
      decode as hex, then it must be 64 digits long. */
  function ValidateImportAccount(privateKey: string): (r: Outcome)
    ensures r.Pass? <==> IsHex(TrimHexPrefix(privateKey)) && |TrimHexPrefix(privateKey)| == 64
    ensures !IsHex(TrimHexPrefix(privateKey)) ==> r == Fail("invalid private key: not a valid hex string")
    ensures IsHex(TrimHexPrefix(privateKey)) && |TrimHexPrefix(privateKey)| != 64 ==>
      r == Fail("invalid private key: must be 64 characters long")
  {
    var key := TrimHexPrefix(privateKey);
    if HexDecode(key).Err? then Fail("invalid private key: not a valid hex string")
    else if |key| != 64 then Fail("invalid private key: must be 64 characters long")
    else Pass
  }

  /** Only one prefix goes: a key written with "0x" twice is not hex. */
  lemma ImportAccountDoublePrefix(key: string)
    ensures ValidateImportAccount("0x0x" + key) == Fail("invalid private key: not a valid hex string")
  {
    var s := "0x0x" + key;
    assert HasPrefix(s, "0x");
    assert TrimHexPrefix(s)[1] == 'x';
  }

  /** With or without the prefix, the same 64 digits pass. */
  lemma ImportAccountPrefixOptional(key: string)
    requires IsHex(key) && |key| == 64
    ensures ValidateImportAccount(key).Pass? && ValidateImportAccount("0x" + key).Pass?
  {
    assert key[1] != 'x';
    assert ("0x" + key)[2..] == key;
  }
}
