/** service/blockchain.go: the node's chain of blocks, lookup and append, the
    validity check on a received chain, the reward rule on its transactions,
    the guard in front of chain replacement, and an address's sent history. */
module Blockchain {
  import opened GoStd
  import opened Transactions
  import opened Blocks

  /** `math.Abs` on the difference of two difficulties, in integers. */
  function Abs(n: int): (r: nat)
    ensures r == n || r == -n
  {
    if n < 0 then -n else n
  }

  /** The checks `IsValidChain` makes on a block and the one before it: the
      parent link, the hash recomputed with the parent's hash, and a difficulty
      step of at most one. */
  predicate Linked(prev: Block, b: Block)
  {
    && b.parentHash == prev.hash
    && b.hash == BlockHash(b.blockNumber, prev.hash, b.nonce, b.difficulty, b.timestamp, b.miner, b.transactions)
    && Abs(prev.difficulty - b.difficulty) <= 1
  }

  /** Every neighbouring pair of `c` is linked. */
  predicate AllLinked(c: seq<Block>)
  {
    forall i :: 1 <= i < |c| ==> Linked(c[i - 1], c[i])
  }

  /** `IsValidChain` as written: the first block must NOT be the genesis block,
      and every neighbouring pair must be linked. */
  predicate ValidChain(c: seq<Block>)
    requires |c| > 0
  {
    c[0] != Genesis() && AllLinked(c)
  }

  /** `IsValidChain` as evidently intended: the chain starts at the genesis
      block, and every neighbouring pair is linked. */
  predicate ValidChainIntended(c: seq<Block>)
    requires |c| > 0
  {
    c[0] == Genesis() && AllLinked(c)
  }

  /** As written, the check turns down every chain that starts where this
      node's own chain starts. */
  lemma GenesisChainRejected(c: seq<Block>)
    requires |c| > 0 && c[0] == Genesis()
    ensures !ValidChain(c)
    ensures AllLinked(c) ==> ValidChainIntended(c)
  {
  }

  /** What a chain that passes the check as written satisfies: it does not
      start at the genesis block, and from the second block on each block
      names its parent's hash, carries the hash of its own fields, and moves
      the difficulty by at most one. */
  lemma ValidChainLinks(c: seq<Block>)
    requires |c| > 0 && ValidChain(c)
    ensures c[0] != Genesis()
    ensures forall i :: 1 <= i < |c| ==>
      && c[i].parentHash == c[i - 1].hash && c[i].hash == HashOfFields(c[i])
      && -1 <= c[i - 1].difficulty - c[i].difficulty <= 1
  {
    forall i | 1 <= i < |c|
      ensures c[i].hash == HashOfFields(c[i])
    {
      assert Linked(c[i - 1], c[i]);
    }
  }

  /** Every prefix of a linked chain is linked. */
  lemma AllLinkedPrefix(c: seq<Block>, k: nat)
    requires AllLinked(c) && k <= |c|
    ensures AllLinked(c[..k])
  {
    forall i | 1 <= i < k
      ensures Linked(c[..k][i - 1], c[..k][i])
    {
      assert c[..k][i - 1] == c[i - 1] && c[..k][i] == c[i];
    }
  }

  /** Appending a block linked to the last one keeps a chain linked. */
  lemma AllLinkedAppend(c: seq<Block>, b: Block)
    requires |c| > 0 && AllLinked(c) && Linked(c[|c| - 1], b)
    ensures AllLinked(c + [b])
  {
    var c' := c + [b];
    forall i | 1 <= i < |c'|
      ensures Linked(c'[i - 1], c'[i])
    {
      if i < |c| {
        assert c'[i - 1] == c[i - 1] && c'[i] == c[i];
      }
    }
  }

  /** A block built on its parent the way mining builds it passes the checks
      against that parent, when the parent's difficulty is not negative. */
  lemma FollowsLinked(last: Block, transactions: seq<Transaction>, miner: string, b: Block)
    requires last.difficulty >= 0 && Follows(last, transactions, miner, b)
    ensures Linked(last, b)
  {
    AdjustDifficultyStep(last, b.timestamp);
  }

  /** Appending a block built on the last block keeps a valid chain valid,
      under either reading of the genesis rule. */
  lemma MinedBlockExtendsChain(c: seq<Block>, transactions: seq<Transaction>, miner: string, b: Block)
    requires |c| > 0 && c[|c| - 1].difficulty >= 0
    requires Follows(c[|c| - 1], transactions, miner, b)
    ensures ValidChain(c) ==> ValidChain(c + [b])
    ensures ValidChainIntended(c) ==> ValidChainIntended(c + [b])
  {
    if AllLinked(c) {
      FollowsLinked(c[|c| - 1], transactions, miner, b);
      AllLinkedAppend(c, b);
    }
  }

  /** The first block mined on the genesis block makes a chain that the
      intended rule accepts and the rule as written rejects. */
  lemma MinedOnGenesis(transactions: seq<Transaction>, miner: string, clock: seq<int>)
    requires Mine(Genesis(), transactions, miner, clock).Mined?
    ensures ValidChainIntended([Genesis(), Mine(Genesis(), transactions, miner, clock).block])
    ensures !ValidChain([Genesis(), Mine(Genesis(), transactions, miner, clock).block])
  {
    var b := Mine(Genesis(), transactions, miner, clock).block;
    MineMined(Genesis(), transactions, miner, clock);
    MinedBlockExtendsChain([Genesis()], transactions, miner, b);
    assert [Genesis()] + [Mine(Genesis(), transactions, miner, clock).block]
        == [Genesis(), Mine(Genesis(), transactions, miner, clock).block];
  }

  /** The reward check on one block's transactions from here on, `count`
      rewards seen so far: a second reward is refused first, then a reward of
      the wrong amount. */
  function RewardCheck(txs: seq<Transaction>, count: nat): (r: Outcome)
    ensures r.Fail? ==> r.msg == "Miner rewards exceed limit" || r.msg == "Miner reward amount is invalid"
    decreases |txs|
  {
    if txs == [] then Pass
    else if txs[0].from == ZeroAddress then
      if count + 1 > 1 then Fail("Miner rewards exceed limit")
      else if txs[0].value != MinersReward then Fail("Miner reward amount is invalid")
      else RewardCheck(txs[1..], count + 1)
    else RewardCheck(txs[1..], count)
  }

  /** `IsValidTransactionData` as a value: the reward check on every block from
      index `i` on. */
  function RewardCheckFrom(c: seq<Block>, i: nat): Outcome
    decreases |c| - i
  {
    if i >= |c| then Pass
    else match RewardCheck(c[i].transactions, 0)
      case Fail(msg) => Fail(msg)
      case Pass => RewardCheckFrom(c, i + 1)
  }

  predicate IsReward(tx: Transaction)
  {
    tx.from == ZeroAddress
  }

  /** The reward rule on one block: at most one reward transaction, and every
      reward pays `MinersReward`. */
  predicate RewardsOk(txs: seq<Transaction>)
  {
    && (forall i, j :: 0 <= i < j < |txs| && IsReward(txs[i]) ==> !IsReward(txs[j]))
    && (forall i :: 0 <= i < |txs| && IsReward(txs[i]) ==> txs[i].value == MinersReward)
  }

  /** After one reward, any further reward is refused. */
  lemma {:induction false} RewardCheckAfterOne(txs: seq<Transaction>)
    ensures RewardCheck(txs, 1).Pass? <==> forall i :: 0 <= i < |txs| ==> !IsReward(txs[i])
    decreases |txs|
  {
    if txs != [] {
      RewardCheckAfterOne(txs[1..]);
      assert forall i :: 1 <= i < |txs| ==> txs[i] == txs[1..][i - 1];
    }
  }

  /** The per-block check passes exactly when the block keeps the reward rule. */
  lemma {:induction false} RewardCheckSound(txs: seq<Transaction>)
    ensures RewardCheck(txs, 0).Pass? <==> RewardsOk(txs)
    decreases |txs|
  {
    if txs != [] {
      var rest := txs[1..];
      assert forall i :: 1 <= i < |txs| ==> txs[i] == rest[i - 1];
      if IsReward(txs[0]) {
        RewardCheckAfterOne(rest);
      } else {
        RewardCheckSound(rest);
        if RewardsOk(rest) {
          forall i, j | 0 <= i < j < |txs| && IsReward(txs[i])
            ensures !IsReward(txs[j])
          {
            assert txs[i] == rest[i - 1] && txs[j] == rest[j - 1];
          }
        }
      }
    }
  }

  /** The whole check passes exactly when every block from `i` on keeps the
      reward rule. */
  lemma {:induction false} RewardCheckFromSound(c: seq<Block>, i: nat)
    ensures RewardCheckFrom(c, i).Pass? <==> forall k :: i <= k < |c| ==> RewardsOk(c[k].transactions)
    decreases |c| - i
  {
    if i < |c| {
      RewardCheckSound(c[i].transactions);
      RewardCheckFromSound(c, i + 1);
    }
  }

  /** A block paying one reward to its miner after ordinary transactions keeps
      the reward rule. */
  lemma RewardBlockOk(txs: seq<Transaction>, miner: string)
    requires forall i :: 0 <= i < |txs| ==> !IsReward(txs[i])
    ensures RewardsOk(txs + [RewardTransaction(miner)])
  {
    var all := txs + [RewardTransaction(miner)];
    assert forall i :: 0 <= i < |txs| ==> all[i] == txs[i];
  }

  /** The transactions sent from `address`, in order. */
  function SentBy(txs: seq<Transaction>, address: string): seq<Transaction>
  {
    if txs == [] then []
    else SentBy(txs[..|txs| - 1], address) + (if txs[|txs| - 1].from == address then [txs[|txs| - 1]] else [])
  }

  /** `GetTransactionHistory` as a value: the transactions sent from `address`,
      block by block in chain order. */
  function History(c: seq<Block>, address: string): seq<Transaction>
  {
    if c == [] then [] else History(c[..|c| - 1], address) + SentBy(c[|c| - 1].transactions, address)
  }

  lemma {:induction false} SentByMembers(txs: seq<Transaction>, address: string)
    ensures forall t :: t in SentBy(txs, address) <==> t in txs && t.from == address
  {
    if txs != [] {
      SentByMembers(txs[..|txs| - 1], address);
      assert txs == txs[..|txs| - 1] + [txs[|txs| - 1]];
    }
  }

  /** The history holds exactly the transactions of the chain sent from the
      address. */
  lemma {:induction false} HistoryMembers(c: seq<Block>, address: string)
    ensures forall t :: t in History(c, address) <==>
      t.from == address && exists i :: 0 <= i < |c| && t in c[i].transactions
  {
    if c != [] {
      var n := |c| - 1;
      HistoryMembers(c[..n], address);
      SentByMembers(c[n].transactions, address);
      forall t: Transaction | t.from == address && exists i :: 0 <= i < |c| && t in c[i].transactions
        ensures t in History(c, address)
      {
        var i :| 0 <= i < |c| && t in c[i].transactions;
        if i < n {
          assert c[..n][i] == c[i];
        }
      }
    }
  }

  /** The history of a longer chain extends the history of the shorter one. */
  lemma HistoryAppend(c: seq<Block>, b: Block, address: string)
    ensures History(c + [b], address) == History(c, address) + SentBy(b.transactions, address)
  {
    assert (c + [b])[..|c|] == c;
  }

  /** `blockchainService`: the chain it holds, and the block service it asks
      for the genesis block. */
  class BlockchainService {
    var chain: seq<Block>
    const blockService: BlockService

    /** `NewBlockchainService`: an empty chain starts with the genesis block;
        any other chain is kept as given. */
    constructor (blockService: BlockService, chain: seq<Block>)
      ensures |chain| == 0 ==> this.chain == [Genesis()]
      ensures |chain| > 0 ==> this.chain == chain
      ensures |this.chain| > 0
      ensures this.blockService == blockService
    {
      this.blockService := blockService;
      if |chain| == 0 {
        this.chain := chain + [Genesis()];
      } else {
        this.chain := chain;
      }
    }

    method GetBlocks() returns (c: seq<Block>)
      ensures c == chain
    {
      c := chain;
    }

    /** `GetBlock`: the first block with the number, or "block not found". */
    method GetBlock(blockNumber: int) returns (r: Result<Block>)
      ensures r.Ok? <==> exists i :: 0 <= i < |chain| && chain[i].blockNumber == blockNumber
      ensures r.Ok? ==> exists i :: (0 <= i < |chain| && chain[i] == r.value && chain[i].blockNumber == blockNumber
        && forall j :: 0 <= j < i ==> chain[j].blockNumber != blockNumber)
      ensures r.Err? ==> r.msg == "block not found"
    {
      var i := 0;
      while i < |chain|
        invariant 0 <= i <= |chain|
        invariant forall j :: 0 <= j < i ==> chain[j].blockNumber != blockNumber
      {
        if chain[i].blockNumber == blockNumber {
          return Ok(chain[i]);
        }
        i := i + 1;
      }
      return Err("block not found");
    }

    /** `AddBlock`: the block goes on the end; nothing before it changes. */
    method AddBlock(block: Block)
      modifies this
      ensures chain == old(chain) + [block]
    {
      chain := chain + [block];
    }

    /** `IsValidChain`: refuses a chain starting at the genesis block, then
        checks each block against the one before it. */
    method IsValidChain(c: seq<Block>) returns (ok: bool)
      requires |c| > 0
      ensures ok == ValidChain(c)
    {
      if c[0] == Genesis() {
        return false;
      }
      var i := 1;
      while i < |c|
        invariant 1 <= i <= |c|
        invariant forall j :: 1 <= j < i ==> Linked(c[j - 1], c[j])
      {
        var lastHash := c[i - 1].hash;
        var lastDifficulty := c[i - 1].difficulty;
        if lastHash != c[i].parentHash {
          return false;
        }
        var validHash := BlockHash(c[i].blockNumber, lastHash, c[i].nonce, c[i].difficulty, c[i].timestamp,
                                   c[i].miner, c[i].transactions);
        if validHash != c[i].hash {
          return false;
        }
        if Abs(lastDifficulty - c[i].difficulty) > 1 {
          return false;
        }
        i := i + 1;
      }
      return true;
    }

    /** `IsValidTransactionData`: from the second block on, counts the reward
        transactions of each block; a second reward, or a reward of the wrong
        amount, is fatal. */
    method IsValidTransactionData(c: seq<Block>) returns (r: Outcome)
      ensures r == RewardCheckFrom(c, 1)
      ensures r.Pass? <==> forall k :: 1 <= k < |c| ==> RewardsOk(c[k].transactions)
    {
      RewardCheckFromSound(c, 1);
      var i := 1;
      while i < |c|
        invariant 1 <= i
        invariant RewardCheckFrom(c, i) == RewardCheckFrom(c, 1)
        decreases |c| - i
      {
        var txs := c[i].transactions;
        var rewardTransactionCount := 0;
        var j := 0;
        while j < |txs|
          invariant 0 <= j <= |txs|
          invariant 0 <= rewardTransactionCount <= 1
          invariant RewardCheck(txs[j..], rewardTransactionCount) == RewardCheck(txs, 0)
        {
          assert txs[j..][1..] == txs[j + 1..];
          if txs[j].from == ZeroAddress {
            rewardTransactionCount := rewardTransactionCount + 1;
            if rewardTransactionCount > 1 {
              return Fail("Miner rewards exceed limit");
            }
            if txs[j].value != MinersReward {
              return Fail("Miner reward amount is invalid");
            }
          }
          j := j + 1;
        }
        i := i + 1;
      }
      return Pass;
    }

    /** `ReplaceChain`: refuses a chain that is not longer, then one that is
        not valid; it installs nothing either way. */
    method ReplaceChain(c: seq<Block>, validTransactions: seq<Transaction>, onSuccess: bool) returns (r: Outcome)
      ensures |c| <= |chain| ==> r == Fail("Received chain is not longer than the current chain")
      ensures |c| > |chain| && !ValidChain(c) ==> r == Fail("Received chain is invalid")
      ensures r.Pass? <==> |c| > |chain| && ValidChain(c)
    {
      if |c| <= |chain| {
        return Fail("Received chain is not longer than the current chain");
      }
      var valid := IsValidChain(c);
      if !valid {
        return Fail("Received chain is invalid");
      }
      return Pass;
    }

    method BlockLength() returns (n: nat)
      ensures n == |chain|
    {
      n := |chain|;
    }

    /** `GetTransactionHistory`: every transaction sent from the address, block
        by block. */
    method GetTransactionHistory(address: string) returns (txs: seq<Transaction>)
      ensures txs == History(chain, address)
      ensures forall t :: t in txs <==> t.from == address && exists i :: 0 <= i < |chain| && t in chain[i].transactions
    {
      txs := [];
      var i := 0;
      while i < |chain|
        invariant 0 <= i <= |chain|
        invariant txs == History(chain[..i], address)
      {
        var block := chain[i];
        var j := 0;
        while j < |block.transactions|
          invariant 0 <= j <= |block.transactions|
          invariant txs == History(chain[..i], address) + SentBy(block.transactions[..j], address)
        {
          assert block.transactions[..j + 1][..j] == block.transactions[..j];
          if block.transactions[j].from == address {
            txs := txs + [block.transactions[j]];
          }
          j := j + 1;
        }
        assert block.transactions[..j] == block.transactions;
        HistoryAppend(chain[..i], block, address);
        assert chain[..i + 1] == chain[..i] + [block];
        i := i + 1;
      }
      assert chain[..i] == chain;
      HistoryMembers(chain, address);
    }
  }
}
