# A proof-of-work node's consensus and bookkeeping engine, in Dafny

This project models the core of a small proof-of-work blockchain node written in Go:

- the block record and the genesis block;
- the ±1 difficulty rule and the nonce search that mines a block;
- the chain service, covering:
  - lookup and append;
  - the validity check on a received chain;
  - the reward rule on a chain's transactions;
  - the guard in front of chain replacement;
  - an address's sent history;
- transactions: their hash, the validity guard chain, the miner's reward and creation;
- the pending-transaction pool, where the first transaction stored under a hash stays;
- the wallet balance, a debit and credit fold over the whole chain;
- the hash-algorithm dispatch, signature decoding and hex-to-binary conversion of the utilities;
- the request validators of the HTTP layer.

Modules, one per source file or concern:

| module | file | models |
|---|---|---|
| `GoStd` | go_std.dfy | Go primitives the code relies on: `byte`, `(T, error)` results, `strings.HasPrefix`, `strings.Repeat`, `strconv.FormatInt`, `string(rune(n))`, UTF-8 for `[]byte(s)`, `int64` wrap-around |
| `HexCodec` | hex_codec.dfy | `encoding/hex` and go-ethereum's `hexutil`, with their round trips |
| `Util` | util_hash.dfy | util/hash.go |
| `Transactions` | transaction.dfy | service/transaction.go |
| `TxPool` | transaction_pool.dfy | service/transaction_pool.go |
| `Blocks` | block.dfy | service/block.go |
| `Blockchain` | blockchain.dfy | service/blockchain.go |
| `Wallet` | wallet.dfy | service/wallet.go |
| `Dto` | dto.dfy | controller/dto/block_dto.go, transaction_dto.go, wallet_dto.go |

Several things are uninterpreted, as module constants: five of function type and the integer `MinersReward`:

- Keccak-256 (`CryptoHash`);
- SHA-256 and SHA-512;
- ECDSA verification;
- `json.Marshal` of a transaction list;
- the value of `util.MinersReward`.

Everything built on top of them is defined concretely. This includes:

- the digest's "0x" hex form;
- `strconv.FormatInt`;
- the UTF-8 bytes of the hash preimages.

The clock is an input. `MineBlock` takes the sequence of readings `time.Now().Unix()` would return, one per round of its search. The search ends when a round accepts, when a round would panic, or when the readings run out.

State lives in classes, as it does in the Go services:

- `TransactionPoolService` holds its map and source type.
- `BlockchainService` holds its chain as a sequence.
- `BlockService` and `WalletService` hold references to the services they call.

The loops of the source are methods with loop invariants. Each method is proved equal to a pure function:

| method | proved equal to |
|---|---|
| `MineBlock` | `Mine` |
| `SearchNonce` | `Search` |
| `HexToBin` | `HexToBinary` |
| `IsValidChain` | `ValidChain` |
| `IsValidTransactionData` | `RewardCheckFrom` |
| `GetTransactionHistory` | `History` |
| `CalculateBalance` | `Int64(Balance)` |

The lemmas state what the source promises about those functions.

## Model

| member | source | states |
|---|---|---|
| Util.Hash | util/hash.go:22-37 | nil exactly for algorithm names other than SHA256, SHA512 and Keccak256; otherwise 32 bytes (64 for SHA512); Keccak256 gives the bytes of `CryptoHash` |
| Util.VerifySignatureAsWritten | util/hash.go:57-70 | false when "04" + public key is not hex or the signature fails `hexutil.Decode`; with an in-place `hex.DecodeString`, a panic exactly when both decode and the signature has fewer than 32 bytes; with at least 64 bytes, the ECDSA verdict on the first 64 |
| Util.ShortSignatureCrashes | util/hash.go:57-70 | as written, a signature "0x" decodes to no bytes and the `[:64]` slice panics instead of answering |
| Util.VerifySignature | util/hash.go:57-70 | false when "04" + public key is not hex, false when the signature fails `hexutil.Decode`, and true only with at least 64 signature bytes |
| Util.VerifySignatureAgrees | util/hash.go:63-70 | the corrected check and the code as written give the same answer unless the signature decodes to fewer than 64 bytes; whatever the corrected check accepts is accepted as written; on a short signature the corrected check says false |
| Util.PaddedSignatureChecked | util/hash.go:63-70 | as written with an in-place `hex.DecodeString`, a signature of 32 zero bytes is checked as those bytes followed by 32 bytes 0x30, the rest of its own hex text, where the corrected check says false |
| Util.DigestHexDecodes | util/hash.go:39-41 | the "0x" hex form of a digest decodes back to the digest |
| Util.HexToBinary | util/hash.go:73-91 | an error exactly when the input, with at most one leading "0x" removed, is not even-length hex; on success 4 binary digits per hex digit, each '0' or '1' |
| Util.HexToBin | util/hash.go:73-91 | the loop that appends one `%08b` group per decoded byte returns `HexToBinary` of its input |
| Util.BinaryOfGroup | util/hash.go:86-90 | the i-th 8-character group of the output is byte i written as 8 binary digits |
| Util.BinaryOfDecodes | util/hash.go:86-90 | the i-th 8-character group reads back as byte i |
| Util.DigestBinary | util/hash.go:73-91 | the hex form of any 32-byte digest converts without error, to 256 binary digits |
| Transactions.TxHash | service/transaction.go:36-38 | 66 characters, and `hexutil.Decode` of it is the Keccak-256 digest of From, To, Value, Data and Timestamp run together |
| Transactions.TxHashIgnoresSignatureAndHash | service/transaction.go:36-38 | changing Signature or Hash does not change the hash |
| Transactions.TxHashCollision | service/transaction.go:36-38 | fields run together without a separator collide: From "ab", To "c" hashes like From "a", To "bc" |
| Transactions.ValidTransaction | service/transaction.go:40-80 | corrected: a zero-address sender is always valid; otherwise an empty From, To or Data, a non-positive Value or Timestamp, or an undecodable hash makes it invalid, and it is valid exactly when every guard passes and the corrected signature check passes over the decoded hash |
| Transactions.ValidTransactionAsWritten | service/transaction.go:40-80 | as written: the zero-address sender and every failing guard give an answer; once every guard passes and the hash decodes, the verdict is the as-written signature check over the hash bytes; a panic only where the signature decodes to fewer than 32 bytes |
| Transactions.ValidTransactionAgrees | service/transaction.go:71-77 | the same answer as written and corrected unless the signature decodes to fewer than 64 bytes; whatever the corrected check accepts is accepted as written; a crash as written is a refusal when corrected |
| Transactions.RewardTransaction | service/transaction.go:82-94 | from the zero address to the miner, `MinersReward`, empty data, timestamp 0, hash equal to its own `TxHash`, and valid for every public key |
| Transactions.CreateTransaction | service/transaction.go:96-116 | corrected: an error exactly when the assembled transaction is invalid; on success every field is the input and the hash is `TxHash` |
| Transactions.CreateTransactionAsWritten | service/transaction.go:96-116 | as written: the assembled transaction is returned exactly when the as-written check accepts it, a refusal by that check is the "invalid transaction" error, and a handler panic happens exactly when that check panics |
| Transactions.CreateTransactionAgrees | service/transaction.go:96-116 | the same outcome as written and corrected unless the signature decodes to fewer than 64 bytes; every request the corrected creation accepts is accepted as written; a panic as written is the "invalid transaction" error when corrected |
| Transactions.CreateTransactionCrashes | service/transaction.go:71-77 | a well-formed request with signature "0x" panics as written and is refused when corrected |
| Transactions.CreateTransactionAccepts | service/transaction.go:96-116 | corrected: for an ordinary sender, accepted exactly when the field guards pass and the signature verifies over the Keccak-256 digest of the preimage |
| TxPool.Insert | service/transaction_pool.go:56-64 | the keys grow by the transaction's hash only, every existing entry keeps its value, and a new hash maps to the transaction |
| TxPool.InsertGrows | service/transaction_pool.go:56-64 | an absent hash grows the map by exactly one entry |
| TxPool.FirstWriterWins | service/transaction_pool.go:56-64 | a later transaction with a hash already present leaves the map unchanged |
| TxPool.InsertIdempotent | service/transaction_pool.go:56-64 | inserting the same transaction twice is inserting it once |
| TxPool.NextSourceType | service/transaction_pool.go:42-50 | `Mempool` and `Redis` are taken; any other value leaves the source type unchanged |
| TxPool.TransactionPoolService.constructor | service/transaction_pool.go:31-36 | an empty map, and a source type that is neither `Mempool` nor `Redis` |
| TxPool.TransactionPoolService.GetConfigTransactionPool | service/transaction_pool.go:38-40 | returns the source type |
| TxPool.TransactionPoolService.ConfigTransactionPool | service/transaction_pool.go:42-50 | the source type becomes `NextSourceType`, and the map is untouched |
| TxPool.TransactionPoolService.Clear | service/transaction_pool.go:52-54 | the map becomes empty, and the source type is unchanged |
| TxPool.TransactionPoolService.SetTransaction | service/transaction_pool.go:56-72 | the map becomes `Insert(old map, tx)`, and the source type is unchanged |
| TxPool.TransactionPoolService.GetTransactionPool | service/transaction_pool.go:74-86 | the local map, whatever the source type |
| TxPool.TransactionPoolService.GetTransactions | service/transaction_pool.go:88-94 | one transaction per map entry: position i holds the entry of the i-th hash of a visiting order that lists every hash of the map exactly once, so the result is the map's values with multiplicity |
| Blocks.Genesis | service/block.go:45-56 | number 1, hash, parent hash and miner "0x", nonce 0, difficulty `InitDifficulty` = 10, timestamp 0, no transactions, binary unset |
| Blocks.AdjustDifficulty | service/block.go:58-69 | 1 when the parent's difficulty is below 1; else one less when the block comes more than `MineRate` after its parent, one more otherwise |
| Blocks.AdjustDifficultyStep | service/block.go:58-69 | from a non-negative parent difficulty the result is non-negative and at most one away from the parent's |
| Blocks.BlockHash | service/block.go:90 | the block hash is 66 characters of "0x" hex |
| Blocks.BlockHashBinary | service/block.go:90-92 | `HexToBin` of a block hash never fails and gives the 256 binary digits of the digest |
| Blocks.Candidate | service/block.go:113-123 | the round's block: the next number, the parent's hash, the nonce, timestamp, miner and transactions given, the rule's difficulty at that timestamp, 256 binary digits |
| Blocks.CandidateBinary | service/block.go:90-92 | the candidate's binary form is `HexToBin` of its hash |
| Blocks.LeadingZerosRepeat | service/block.go:94 | `binary[:difficulty] == strings.Repeat("0", difficulty)` holds exactly when the first `difficulty` digits are all '0' |
| Blocks.SearchStep | service/block.go:85-99 | the round that accepts or panics ends the search; a rejecting round hands on to the next |
| Blocks.SearchMined | service/block.go:85-99 | a mined outcome comes from a round that accepted it, and every round before that rejected |
| Blocks.SearchNoCrash | service/block.go:85-99 | when no round can panic, the search does not |
| Blocks.TryNonceAccepted | service/block.go:85-99 | an accepted round's block carries its nonce and timestamp, follows its parent and meets the proof-of-work condition |
| Blocks.TryNonceNoCrash | service/block.go:88-94 | below parent difficulty 256 a round cannot slice past the 256 binary digits |
| Blocks.SearchNeverRefuses | service/block.go:85-99 | the nonce search ends in a mined block, a crash or an exhausted clock, never in the empty-list refusal |
| Blocks.MineRefuses | service/block.go:72-74 | mining refuses exactly the empty transaction list |
| Blocks.MineNoCrash | service/block.go:85-99 | below parent difficulty 256 mining never panics |
| Blocks.MineMined | service/block.go:71-132 | a mined block is parent number + 1 with the parent's hash, the miner and transactions given, the rule's difficulty at its own timestamp, a hash of its own fields, `Binary == HexToBin(Hash)` with the first `Difficulty` digits '0', an odd nonce 2j+1 with the timestamp of clock reading j, and every earlier round rejected |
| Blocks.MineRound | service/block.go:86-96 | one pass of the loop body computes exactly `TryNonce` for its nonce and clock reading |
| Blocks.SearchNonce | service/block.go:85-99 | the loop, with the nonce raised before each round and after each rejected one, returns `Search` over the rounds |
| Blocks.BlockService.constructor | service/block.go:37-43 | keeps the pool service it is given |
| Blocks.BlockService.MineBlock | service/block.go:71-132 | returns `Mine` of its inputs and the clock; the pool is empty after a block is mined, untouched otherwise, and its source type never changes |
| Blockchain.Abs | service/blockchain.go:90 | the integer absolute value is the number or its negation |
| Blockchain.ValidChainLinks | service/blockchain.go:66-96 | a chain that passes does not start at the genesis block, and from the second block on each block names its parent's hash, carries the hash of its own fields, and moves the difficulty by at most one |
| Blockchain.GenesisChainRejected | service/blockchain.go:66-69 | as written, any chain starting at the genesis block is rejected, while the intended rule accepts it when its blocks are linked |
| Blockchain.AllLinkedPrefix | service/blockchain.go:71-95 | every prefix of a linked chain is linked |
| Blockchain.AllLinkedAppend | service/blockchain.go:71-95 | appending a block linked to the last one keeps the chain linked |
| Blockchain.FollowsLinked | service/blockchain.go:71-95 | a block built on a parent of non-negative difficulty the way mining builds it (`Follows`) passes the per-pair checks against that parent |
| Blockchain.MinedBlockExtendsChain | service/blockchain.go:66-96 | appending such a block to a valid chain gives a valid chain, under the rule as written and under the intended rule; with `Blocks.MineMined` this covers every mined block |
| Blockchain.MinedOnGenesis | service/blockchain.go:66-69 | the first block mined on the genesis block makes a chain the intended rule accepts and the rule as written rejects |
| Blockchain.RewardCheck | service/blockchain.go:101-116 | the only failures are "Miner rewards exceed limit" and "Miner reward amount is invalid" |
| Blockchain.RewardCheckAfterOne | service/blockchain.go:101-109 | once one reward has been counted, the rest of the block passes exactly when it holds no reward |
| Blockchain.RewardCheckSound | service/blockchain.go:99-117 | one block passes exactly when it has at most one zero-address transaction and each carries `MinersReward` |
| Blockchain.RewardCheckFromSound | service/blockchain.go:98-121 | the chain passes exactly when every block from the given index on keeps the reward rule |
| Blockchain.RewardBlockOk | service/blockchain.go:98-121 | ordinary transactions followed by one `RewardTransaction` keep the reward rule |
| Blockchain.SentByMembers | service/blockchain.go:143-149 | the filtered list holds exactly the block's transactions from the address |
| Blockchain.HistoryMembers | service/blockchain.go:141-152 | the history holds exactly the chain's transactions sent from the address |
| Blockchain.HistoryAppend | service/blockchain.go:141-152 | a block added to the chain adds its sent transactions to the end of the history |
| Blockchain.BlockchainService.constructor | service/blockchain.go:37-46 | an empty chain becomes the genesis block alone; any other chain is kept |
| Blockchain.BlockchainService.GetBlocks | service/blockchain.go:48-50 | returns the chain |
| Blockchain.BlockchainService.GetBlock | service/blockchain.go:52-60 | the first block with the number, or "block not found" exactly when there is none |
| Blockchain.BlockchainService.AddBlock | service/blockchain.go:62-64 | the chain becomes the old chain with the block appended |
| Blockchain.BlockchainService.IsValidChain | service/blockchain.go:66-96 | the answer is `ValidChain`: not starting at the genesis block, and every neighbouring pair linked |
| Blockchain.BlockchainService.IsValidTransactionData | service/blockchain.go:98-121 | returns `RewardCheckFrom(c, 1)`, and passes exactly when every block from index 1 keeps the reward rule (block 0 is never inspected) |
| Blockchain.BlockchainService.ReplaceChain | service/blockchain.go:123-135 | "not longer" when the candidate is not strictly longer, else "invalid" when it fails the check, else no error; the chain is never modified |
| Blockchain.BlockchainService.BlockLength | service/blockchain.go:137-139 | the chain's length |
| Blockchain.BlockchainService.GetTransactionHistory | service/blockchain.go:141-152 | returns `History`: exactly the chain's transactions from the address, in chain order |
| Wallet.BalanceAppend | service/wallet.go:41-52 | a block added to the chain adds what its transactions do to the balance |
| Wallet.BalanceConcat | service/wallet.go:41-52 | the balance over two chains run together is the sum of their balances |
| Wallet.BalanceNoTransactions | service/wallet.go:37-55 | a chain without transactions gives balance 0 for every address |
| Wallet.TxsDeltaNeutral | service/wallet.go:43-49 | self-transfers and transactions neither from nor to the address do not move its balance |
| Wallet.NeutralBlock | service/wallet.go:41-52 | a block of such transactions leaves the balance unchanged |
| Wallet.OneBlock | service/wallet.go:41-52 | with no transactions before or after it, one block alone makes the balance |
| Wallet.RewardOnly | service/wallet.go:43-49 | when the chain's only transaction is a reward to a miner, the miner holds `MinersReward` and the zero address holds its negation |
| Wallet.WalletService.constructor | service/wallet.go:18-22 | keeps the blockchain service it is given |
| Wallet.WalletService.ApplyTransaction | service/wallet.go:43-49 | the debit and then the credit, each wrapped to `int64`, give the wrapped running total plus the transaction's effect |
| Wallet.WalletService.CalculateBalance | service/wallet.go:37-55 | the `int64` wrap of the unbounded debit and credit sum over the service's chain |
| Dto.ValidateHashData | controller/dto/block_dto.go:40-46 | passes exactly "SHA256", "SHA512" and "Keccak256", and fails with the algorithm message otherwise |
| Dto.HashDataAcceptedHashes | controller/dto/block_dto.go:40-46 | an accepted algorithm makes `Hash` non-nil |
| Dto.HashDataCaseSensitive | controller/dto/block_dto.go:42 | "sha256" and "keccak256" are rejected |
| Dto.ValidateSetDifficulty | controller/dto/block_dto.go:48-54 | passes exactly the positive difficulties |
| Dto.ValidateCreateTransaction | controller/dto/transaction_dto.go:34-44 | passes exactly when Value > 0 and From ≠ To; a non-positive value gives the value error even when From = To |
| Dto.ValidateConfigTransactionPool | controller/dto/transaction_dto.go:46-53 | passes exactly "Mempool" and "Redis" |
| Dto.ConfigValidatorMatchesPool | controller/dto/transaction_dto.go:46-53 | what the validator passes is exactly what `ConfigTransactionPool` acts on; anything it refuses the pool would ignore |
| Dto.ValidateImportAccount | controller/dto/wallet_dto.go:17-38 | passes exactly when the key, with at most one "0x" removed, is 64 hex digits; non-hex or odd length gives the hex error, and the length error comes only after the hex check passes |
| Dto.ImportAccountDoublePrefix | controller/dto/wallet_dto.go:20-28 | only one prefix is removed: "0x0x…" gives the hex error |
| Dto.ImportAccountPrefixOptional | controller/dto/wallet_dto.go:20-33 | the same 64 hex digits pass with or without "0x" |

## Left out

- Redis and publish/subscribe are left out. This covers the chain snapshot written and published after mining (service/block.go:103-129), the pool mirror in `SetTransaction` (service/transaction_pool.go:65-71), the Redis read in `GetTransactionPool` (service/transaction_pool.go:75-84), and the error `MineBlock` returns when the stored snapshot does not unmarshal. The returned map and the local pool state are modelled.
- Cryptography is left out: Keccak-256, SHA-256, SHA-512 and ECDSA verification are uninterpreted functions. `Sign`, `GenerateKeyPair` and `walletService.SignTransaction` (key derivation and signing) are not modelled.
- `json.Marshal` of the transactions is left out. So is the exact content of `util.MinersReward`, because its declaration is not part of this model.
- `SyncNode` has an empty body and is not modelled. The goroutines and process bootstrap are left out as well.
- Blocks.BlockService.MineBlock: the loop in Go runs until a nonce is found. The model takes a finite sequence of clock readings and returns `Exhausted` when they run out, so termination beyond those readings is not modelled.
- `log.Fatalln` ends the process in Go. Here it is a `Fail` outcome carrying the same message (`IsValidTransactionData`, `ReplaceChain`).
- Blockchain.BlockchainService.IsValidChain: requires a non-empty chain. Go indexes `Blocks[0]` and panics on an empty one.
- Blockchain.ValidChain: the genesis comparison is sequence equality. `reflect.DeepEqual` also tells a nil transaction slice from an empty one, and that distinction is not modelled.
- Blockchain.Linked: `math.Abs(float64(…))` is integer absolute value. `int64` overflow of the difference is not modelled.
- Util.VerifySignatureAsWritten: for signatures of 25 to 63 decoded bytes, what Go does depends on how the standard library's `hex.DecodeString` allocates. The `encoding/hex` documentation does not fix this, and the Go toolchain version is not part of this model. The model assumes a decode in place, into the `[]byte` buffer of the hex text, which is then returned. Under that reading, 32 to 63 bytes are checked padded with the rest of the hex text, as modelled. Signatures of 25 to 31 bytes are modelled as a panic, although the allocator may round their buffer's capacity up to 64, and then Go checks them padded with hex text and zero bytes instead. If `hex.DecodeString` returns a buffer of exactly the decoded length, every signature under 64 bytes panics, and the padded branch and the 32-byte bound in the ensures do not apply. `Util.VerifySignatureAgrees` speaks only of decode failures and of 64 bytes or more, so it holds under both readings. The panic on the empty signature "0x" holds under both readings too.
- Transactions.ValidTransaction, Transactions.CreateTransaction: these use the corrected signature check. The code as written is `Transactions.ValidTransactionAsWritten` and `Transactions.CreateTransactionAsWritten`. With a signature of fewer than 32 bytes, the code as written panics in the request handler instead of returning "invalid transaction". With 32 to 63 bytes, it checks a padded signature instead.
- Integer widths: block numbers, nonces, difficulties, timestamps and transaction values are unbounded integers, and their `int64` overflow is not modelled. The wallet balance is the exception: it wraps to `int64` exactly as Go's accumulator does. `string(rune(nonce))` truncates to 32 bits as Go does.
- The HTTP handlers, and the service methods they call that the services do not define, are not part of this model.

## Findings

| source | as written | input that shows it | evidently intended | confidence | as-written member | corrected member |
|---|---|---|---|---|---|---|
| util/hash.go:68 | `signatureBytes[:64]` is taken without checking the decoded length, so the empty signature panics instead of being rejected | signature "0x" with any public key that decodes | a signature shorter than 64 bytes is rejected with `false`, like every other decoding failure | not executed | Util.ShortSignatureCrashes | Util.VerifySignatureAgrees |
| util/hash.go:68 | when `hex.DecodeString` decodes in place into the buffer of the hex text, a signature of 32 to 63 bytes is not rejected: `[:64]` reads on into the hex text left in that buffer, and the signature is checked padded with it. When it returns a buffer of the decoded length, the signature panics instead, as in the row above. | signature "0x" followed by 64 '0' digits | rejected with `false` | not executed; depends on the standard library's `hex.DecodeString` | Util.PaddedSignatureChecked | Util.VerifySignatureAgrees |
| service/transaction.go:71-77 | the transaction check passes the request's signature to the crashing `util.VerifySignature` | `CreateTransaction("a", "b", 1, "d", 1, "0x", "")` | the request is refused with "invalid transaction" | not executed | Transactions.CreateTransactionCrashes | Transactions.CreateTransactionAccepts |
| service/blockchain.go:67-69 | returns false when the first block DOES equal a fresh genesis block | the node's own chain, the genesis block followed by a block mined on it | returns false when the first block is NOT the genesis block | not executed | Blockchain.MinedOnGenesis | Blockchain.MinedBlockExtendsChain |

Transaction validation and creation exist in both forms: `ValidTransactionAsWritten` and `CreateTransactionAsWritten` use the signature check as written, and `ValidTransaction` and `CreateTransaction` use the corrected one. `ValidTransactionAgrees` and `CreateTransactionAgrees` relate the two.

The chain service keeps the genesis check as written (`Blockchain.ValidChain`, used by `IsValidChain` and `ReplaceChain`). The corrected rule is `Blockchain.ValidChainIntended`. `MinedBlockExtendsChain` proves that mining preserves it, and `MinedOnGenesis` proves that it accepts the node's own chain, which the rule as written rejects.
