/** service/block.go: the block record, the genesis block, the ±1 difficulty
    rule and the proof-of-work nonce search. The clock is an input: `clock[k]`
    is what `time.Now().Unix()` reads on the search's k-th round. */
module Blocks {
  import opened GoStd
  import opened HexCodec
  import opened Util
  import opened Transactions
  import opened TxPool

  datatype Block = Block(
    blockNumber: int,
    hash: string,
    binary: string,
    parentHash: string,
    nonce: int,
    difficulty: int,
    timestamp: int,
    miner: string,
    transactions: seq<Transaction>)

  /** `initDifficulty` and `mineRate` as `NewBlockService` sets them. */
  const InitDifficulty: int := 10
  const MineRate: int := 10000

  /** `json.Marshal(transactions)` as a string (uninterpreted). */
  const MarshalTransactions: seq<Transaction> -> string

  /** `Genesis`: block 1, with "0x" for hash, parent and miner, the initial
      difficulty, and nothing else set. */
  function Genesis(): (b: Block)
    ensures b.blockNumber == 1 && b.hash == "0x" && b.parentHash == "0x" && b.binary == ""
    ensures b.nonce == 0 && b.difficulty == InitDifficulty && b.difficulty == 10 && b.timestamp == 0
    ensures b.miner == "0x" && b.transactions == []
  {
    Block(1, "0x", "", "0x", 0, InitDifficulty, 0, "0x", [])
  }

  /** `adjustDifficulty`: 1 below difficulty 1; otherwise one less when the
      block came more than `MineRate` after its parent, one more when not. */
  function AdjustDifficulty(original: Block, timestamp: int): (d: int)
    ensures original.difficulty < 1 ==> d == 1
    ensures original.difficulty >= 1 && timestamp - original.timestamp > MineRate ==> d == original.difficulty - 1
    ensures original.difficulty >= 1 && timestamp - original.timestamp <= MineRate ==> d == original.difficulty + 1
  {
    var difficulty := original.difficulty;
    if difficulty < 1 then 1
    else if timestamp - original.timestamp > MineRate then difficulty - 1
    else difficulty + 1
  }

  /** From a non-negative parent difficulty the rule never goes negative and
      moves by at most one: what the chain check demands of neighbours. */
  lemma AdjustDifficultyStep(original: Block, timestamp: int)
    requires original.difficulty >= 0
    ensures 0 <= AdjustDifficulty(original, timestamp) <= original.difficulty + 1
    ensures -1 <= original.difficulty - AdjustDifficulty(original, timestamp) <= 1
  {
  }

  /** The digest behind a block hash: Keccak-256 over number, parent hash,
      `string(rune(nonce))`, difficulty, timestamp, miner and the marshalled
      transactions, run together. */
  function BlockDigest(blockNumber: int, parentHash: string, nonce: int, difficulty: int, timestamp: int,
                       miner: string, transactions: seq<Transaction>): Digest
  {
    CryptoHash(Utf8(FormatInt(blockNumber) + parentHash + RuneString(nonce) + FormatInt(difficulty)
                    + FormatInt(timestamp) + miner + MarshalTransactions(transactions)))
  }

  /** `calculateHash`: the digest as "0x"-prefixed hex. */
  function BlockHash(blockNumber: int, parentHash: string, nonce: int, difficulty: int, timestamp: int,
                     miner: string, transactions: seq<Transaction>): (h: string)
    ensures |h| == 66 && h[..2] == "0x"
  {
    DigestHex(BlockDigest(blockNumber, parentHash, nonce, difficulty, timestamp, miner, transactions))
  }

  /** A block hash always converts to binary: 256 digits, byte by byte. */
  lemma BlockHashBinary(blockNumber: int, parentHash: string, nonce: int, difficulty: int, timestamp: int,
                        miner: string, transactions: seq<Transaction>)
    ensures var d := BlockDigest(blockNumber, parentHash, nonce, difficulty, timestamp, miner, transactions);
      HexToBinary(BlockHash(blockNumber, parentHash, nonce, difficulty, timestamp, miner, transactions)) == Ok(BinaryOf(d))
      && |BinaryOf(d)| == 256
  {
    DigestBinary(BlockDigest(blockNumber, parentHash, nonce, difficulty, timestamp, miner, transactions));
  }

  /** The hash recomputed from a block's own fields. */
  function HashOfFields(b: Block): string
  {
    BlockHash(b.blockNumber, b.parentHash, b.nonce, b.difficulty, b.timestamp, b.miner, b.transactions)
  }

  /** The block one round of the search builds from a nonce and a clock
      reading: the difficulty follows the clock, the hash covers the round's
      fields, and the binary form is what `HexToBin` makes of the hash (it
      always converts, so Go's ignored error never fires). */
  function Candidate(lastBlock: Block, transactions: seq<Transaction>, miner: string, nonce: int, timestamp: int): (b: Block)
    ensures b.blockNumber == lastBlock.blockNumber + 1 && b.parentHash == lastBlock.hash
    ensures b.nonce == nonce && b.timestamp == timestamp && b.miner == miner && b.transactions == transactions
    ensures b.difficulty == AdjustDifficulty(lastBlock, timestamp)
    ensures |b.binary| == 256
  {
    var number := lastBlock.blockNumber + 1;
    var difficulty := AdjustDifficulty(lastBlock, timestamp);
    var digest := BlockDigest(number, lastBlock.hash, nonce, difficulty, timestamp, miner, transactions);
    Block(number, DigestHex(digest), BinaryOf(digest), lastBlock.hash, nonce, difficulty, timestamp, miner, transactions)
  }

  /** The candidate's binary form is `HexToBin` of its hash. */
  lemma CandidateBinary(lastBlock: Block, transactions: seq<Transaction>, miner: string, nonce: int, timestamp: int)
    ensures var b := Candidate(lastBlock, transactions, miner, nonce, timestamp);
      HexToBinary(b.hash) == Ok(b.binary)
  {
    var b := Candidate(lastBlock, transactions, miner, nonce, timestamp);
    BlockHashBinary(b.blockNumber, b.parentHash, b.nonce, b.difficulty, b.timestamp, b.miner, b.transactions);
  }

  /** The first `n` characters of `s` are all '0'. */
  predicate LeadingZeros(s: string, n: nat)
    requires n <= |s|
  {
    forall i :: 0 <= i < n ==> s[i] == '0'
  }

  /** Go's test `binary[:difficulty] == strings.Repeat("0", difficulty)` is
      `LeadingZeros`. */
  lemma LeadingZerosRepeat(s: string, n: nat)
    requires n <= |s|
    ensures s[..n] == Repeat('0', n) <==> LeadingZeros(s, n)
  {
    if LeadingZeros(s, n) {
      assert s[..n] == Repeat('0', n);
    }
  }

  /** How one round of the search ends. */
  datatype Attempt = Accept(block: Block) | Reject | Crash

  /** One round: the candidate is taken when the first `difficulty` binary
      digits of its hash are '0'; slicing past the end is a Go panic. */
  function TryNonce(lastBlock: Block, transactions: seq<Transaction>, miner: string, nonce: int, timestamp: int): Attempt
  {
    var c := Candidate(lastBlock, transactions, miner, nonce, timestamp);
    if !(0 <= c.difficulty <= |c.binary|) then Crash
    else if LeadingZeros(c.binary, c.difficulty) then Accept(c)
    else Reject
  }

  /** What `MineBlock` returns. `Exhausted` is the model's own: the clock
      readings it was given ran out before a nonce was found. */
  datatype MineOutcome = Mined(block: Block) | NoTransactions | Exhausted | Crashed

  /** One round as a function of the nonce and the clock reading. */
  function Round(lastBlock: Block, transactions: seq<Transaction>, miner: string): (int, int) -> Attempt
  {
    (nonce, timestamp) => TryNonce(lastBlock, transactions, miner, nonce, timestamp)
  }

  /** The search from round k on, whatever a round does: round k tries nonce
      2k+1 at reading clock[k], and the first round that does not reject
      decides. */
  function Search(round: (int, int) -> Attempt, clock: seq<int>, k: nat): MineOutcome
    decreases |clock| - k
  {
    if k >= |clock| then Exhausted
    else match round(2 * k + 1, clock[k])
      case Accept(b) => Mined(b)
      case Crash => Crashed
      case Reject => Search(round, clock, k + 1)
  }

  /** `MineBlock` as a value: refuse an empty transaction list, else search. */
  function Mine(lastBlock: Block, transactions: seq<Transaction>, miner: string, clock: seq<int>): MineOutcome
  {
    if |transactions| == 0 then NoTransactions else Search(Round(lastBlock, transactions, miner), clock, 0)
  }

  /** One step of the search: the round at k decides, or hands on to k+1. */
  lemma SearchStep(round: (int, int) -> Attempt, clock: seq<int>, k: nat, a: Attempt)
    requires k < |clock| && round(2 * k + 1, clock[k]) == a
    ensures a.Accept? ==> Search(round, clock, k) == Mined(a.block)
    ensures a.Crash? ==> Search(round, clock, k) == Crashed
    ensures a.Reject? ==> Search(round, clock, k) == Search(round, clock, k + 1)
  {
  }

  /** A search that mines stopped at a round j that accepted its block, and
      every round before it from k on rejected. */
  lemma {:induction false} SearchMined(round: (int, int) -> Attempt, clock: seq<int>, k: nat)
    requires Search(round, clock, k).Mined?
    ensures exists j :: (k <= j < |clock| && round(2 * j + 1, clock[j]) == Accept(Search(round, clock, k).block)
      && forall i :: k <= i < j ==> round(2 * i + 1, clock[i]).Reject?)
    decreases |clock| - k
  {
    var b := Search(round, clock, k).block;
    if round(2 * k + 1, clock[k]).Accept? {
      assert round(2 * k + 1, clock[k]) == Accept(b);
    } else {
      SearchMined(round, clock, k + 1);
      var j :| k + 1 <= j < |clock| && round(2 * j + 1, clock[j]) == Accept(b)
        && forall i :: k + 1 <= i < j ==> round(2 * i + 1, clock[i]).Reject?;
      assert forall i :: k <= i < j ==> round(2 * i + 1, clock[i]).Reject?;
    }
  }

  /** A search none of whose rounds can crash does not crash. */
  lemma {:induction false} SearchNoCrash(round: (int, int) -> Attempt, clock: seq<int>, k: nat)
    requires forall j :: 0 <= j < |clock| ==> !round(2 * j + 1, clock[j]).Crash?
    ensures !Search(round, clock, k).Crashed?
    decreases |clock| - k
  {
    if k < |clock| {
      var a := round(2 * k + 1, clock[k]);
      assert !a.Crash?;
      SearchNoCrash(round, clock, k + 1);
    }
  }

  /** The proof-of-work condition on a block: its binary form is `HexToBin` of
      its hash, and the first `difficulty` binary digits are all '0'. */
  predicate ProofOfWork(b: Block)
  {
    && HexToBinary(b.hash) == Ok(b.binary)
    && 0 <= b.difficulty <= |b.binary|
    && (forall i :: 0 <= i < b.difficulty ==> b.binary[i] == '0')
  }

  /** `b` was built on `lastBlock` from these transactions and this miner: it
      comes next, links to the parent's hash, takes the rule's difficulty at its
      own timestamp, and its hash is recomputable from its fields. */
  predicate Follows(lastBlock: Block, transactions: seq<Transaction>, miner: string, b: Block)
  {
    && b.blockNumber == lastBlock.blockNumber + 1
    && b.parentHash == lastBlock.hash
    && b.miner == miner && b.transactions == transactions
    && b.difficulty == AdjustDifficulty(lastBlock, b.timestamp)
    && b.hash == HashOfFields(b)
  }

  /** A round that accepts yields a block with the nonce and reading it was
      given, built on the parent, with a 256-digit binary form that meets the
      proof-of-work condition. */
  lemma TryNonceAccepted(lastBlock: Block, transactions: seq<Transaction>, miner: string, nonce: int, timestamp: int)
    requires TryNonce(lastBlock, transactions, miner, nonce, timestamp).Accept?
    ensures var b := TryNonce(lastBlock, transactions, miner, nonce, timestamp).block;
      && b.nonce == nonce && b.timestamp == timestamp && |b.binary| == 256
      && Follows(lastBlock, transactions, miner, b) && ProofOfWork(b)
  {
    var c := Candidate(lastBlock, transactions, miner, nonce, timestamp);
    assert TryNonce(lastBlock, transactions, miner, nonce, timestamp) == Accept(c);
    assert c.hash == HashOfFields(c);
    CandidateBinary(lastBlock, transactions, miner, nonce, timestamp);
  }

  /** Below difficulty 256 a round cannot crash: the rule moves the difficulty
      by at most one and the binary form has 256 digits. */
  lemma TryNonceNoCrash(lastBlock: Block, transactions: seq<Transaction>, miner: string, nonce: int, timestamp: int)
    requires lastBlock.difficulty < 256
    ensures !TryNonce(lastBlock, transactions, miner, nonce, timestamp).Crash?
  {
  }

  lemma OddNonce(k: nat)
    ensures (2 * k + 1) % 2 == 1 && (2 * k + 1) / 2 == k
  {
  }

  /** The search itself never refuses: it mines, crashes or runs out of clock. */
  lemma {:induction false} SearchNeverRefuses(round: (int, int) -> Attempt, clock: seq<int>, k: nat)
    ensures !Search(round, clock, k).NoTransactions?
    decreases |clock| - k
  {
    if k < |clock| && round(2 * k + 1, clock[k]).Reject? {
      SearchNeverRefuses(round, clock, k + 1);
    }
  }

  /** `MineBlock` refuses exactly the empty transaction list. */
  lemma MineRefuses(lastBlock: Block, transactions: seq<Transaction>, miner: string, clock: seq<int>)
    ensures Mine(lastBlock, transactions, miner, clock).NoTransactions? <==> |transactions| == 0
  {
    if |transactions| > 0 {
      SearchNeverRefuses(Round(lastBlock, transactions, miner), clock, 0);
    }
  }

  /** Below difficulty 256 the search cannot crash. */
  lemma MineNoCrash(lastBlock: Block, transactions: seq<Transaction>, miner: string, clock: seq<int>)
    requires lastBlock.difficulty < 256
    ensures !Mine(lastBlock, transactions, miner, clock).Crashed?
  {
    if |transactions| > 0 {
      var round := Round(lastBlock, transactions, miner);
      forall j | 0 <= j < |clock|
        ensures !round(2 * j + 1, clock[j]).Crash?
      {
        TryNonceNoCrash(lastBlock, transactions, miner, 2 * j + 1, clock[j]);
      }
      SearchNoCrash(round, clock, 0);
    }
  }

  /** A mined block follows its parent, meets the proof-of-work condition,
      carries the odd nonce 2j+1 and the timestamp of reading j, and every
      earlier round rejected its candidate. */
  lemma MineMined(lastBlock: Block, transactions: seq<Transaction>, miner: string, clock: seq<int>)
    requires Mine(lastBlock, transactions, miner, clock).Mined?
    ensures var b := Mine(lastBlock, transactions, miner, clock).block;
      && Follows(lastBlock, transactions, miner, b) && ProofOfWork(b)
      && b.nonce % 2 == 1 && 0 <= b.nonce / 2 < |clock| && b.timestamp == clock[b.nonce / 2]
      && forall i :: 0 <= i < b.nonce / 2 ==> TryNonce(lastBlock, transactions, miner, 2 * i + 1, clock[i]).Reject?
  {
    var round := Round(lastBlock, transactions, miner);
    var b := Search(round, clock, 0).block;
    SearchMined(round, clock, 0);
    var j :| 0 <= j < |clock| && round(2 * j + 1, clock[j]) == Accept(b)
      && forall i :: 0 <= i < j ==> round(2 * i + 1, clock[i]).Reject?;
    TryNonceAccepted(lastBlock, transactions, miner, 2 * j + 1, clock[j]);
    OddNonce(j);
  }

  /** One round of `MineBlock`'s loop: the difficulty at this reading, the
      hash over the round's fields, its binary form and the leading-zero test. */
  method MineRound(lastBlock: Block, transactions: seq<Transaction>, miner: string, nonce: int, timestamp: int)
    returns (a: Attempt)
    ensures a == TryNonce(lastBlock, transactions, miner, nonce, timestamp)
  {
    var blockNumber := lastBlock.blockNumber + 1;
    var difficulty := AdjustDifficulty(lastBlock, timestamp);
    var blockHash := BlockHash(blockNumber, lastBlock.hash, nonce, difficulty, timestamp, miner, transactions);
    var converted := HexToBin(blockHash);
    BlockHashBinary(blockNumber, lastBlock.hash, nonce, difficulty, timestamp, miner, transactions);
    var binary := if converted.Ok? then converted.value else "";
    var b := Block(blockNumber, blockHash, binary, lastBlock.hash, nonce, difficulty, timestamp, miner, transactions);
    assert b == Candidate(lastBlock, transactions, miner, nonce, timestamp);
    if !(0 <= difficulty <= |binary|) {
      return Crash;
    }
    LeadingZerosRepeat(binary, difficulty);
    if binary[..difficulty] == Repeat('0', difficulty) {
      return Accept(b);
    }
    return Reject;
  }

  /** The nonce search of `MineBlock`: round after round, the nonce goes up
      by one before the round and by one after a rejected round, until a round
      accepts, crashes, or the clock readings run out. */
  method SearchNonce(lastBlock: Block, transactions: seq<Transaction>, miner: string, clock: seq<int>,
                     ghost round: (int, int) -> Attempt)
    returns (r: MineOutcome)
    requires forall nonce, timestamp {:trigger TryNonce(lastBlock, transactions, miner, nonce, timestamp)} ::
      round(nonce, timestamp) == TryNonce(lastBlock, transactions, miner, nonce, timestamp)
    ensures r == Search(round, clock, 0)
  {
    var nonce := 0;
    var k := 0;
    while true
      invariant 0 <= k <= |clock|
      invariant nonce == 2 * k
      invariant Search(round, clock, k) == Search(round, clock, 0)
      decreases |clock| - k
    {
      if k == |clock| {
        return Exhausted;
      }
      nonce := nonce + 1;
      var a := MineRound(lastBlock, transactions, miner, nonce, clock[k]);
      assert nonce == 2 * k + 1;
      SearchStep(round, clock, k, a);
      match a {
        case Crash =>
          return Crashed;
        case Accept(b) =>
          return Mined(b);
        case Reject =>
      }
      nonce := nonce + 1;
      k := k + 1;
    }
  }

  /** `blockService`: the pool it clears after a successful search. */
  class BlockService {
    const transactionPoolSvc: TransactionPoolService

    constructor (transactionPoolSvc: TransactionPoolService)
      ensures this.transactionPoolSvc == transactionPoolSvc
    {
      this.transactionPoolSvc := transactionPoolSvc;
    }

    /** `MineBlock`: refuse an empty list, search, and clear the pool once a
        block is found. Failing outcomes leave the pool alone. */
    method MineBlock(lastBlock: Block, transactions: seq<Transaction>, miner: string, clock: seq<int>)
      returns (r: MineOutcome)
      modifies transactionPoolSvc
      ensures r == Mine(lastBlock, transactions, miner, clock)
      ensures r.Mined? ==> transactionPoolSvc.transactionMap == map[]
      ensures !r.Mined? ==> transactionPoolSvc.transactionMap == old(transactionPoolSvc.transactionMap)
      ensures transactionPoolSvc.sourceType == old(transactionPoolSvc.sourceType)
    {
      if |transactions| == 0 {
        return NoTransactions;
      }
      r := SearchNonce(lastBlock, transactions, miner, clock, Round(lastBlock, transactions, miner));
      if r.Mined? {
        transactionPoolSvc.Clear();
      }
    }
  }
}
