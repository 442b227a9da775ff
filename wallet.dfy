/** service/wallet.go: an address's balance, summed over every transaction of
    every block: what it sent is taken off, what it received is added. */
module Wallet {
  import opened GoStd
  import opened Transactions
  import opened Blocks
  import opened Blockchain

  /** What one transaction does to the balance of `address`: the debit when it
      is the sender, then the credit when it is the receiver. */
  function TxDelta(tx: Transaction, address: string): int
  {
    (if tx.from == address then -tx.value else 0) + (if tx.to == address then tx.value else 0)
  }

  /** What one block's transactions do to the balance, in order. */
  function TxsDelta(txs: seq<Transaction>, address: string): int
  {
    if txs == [] then 0 else TxsDelta(txs[..|txs| - 1], address) + TxDelta(txs[|txs| - 1], address)
  }

  /** The balance of `address` over the whole chain, without wrap-around. */
  function Balance(c: seq<Block>, address: string): int
  {
    if c == [] then 0 else Balance(c[..|c| - 1], address) + TxsDelta(c[|c| - 1].transactions, address)
  }

  /** Adding a block adds what its transactions do. */
  lemma BalanceAppend(c: seq<Block>, b: Block, address: string)
    ensures Balance(c + [b], address) == Balance(c, address) + TxsDelta(b.transactions, address)
  {
    assert (c + [b])[..|c|] == c;
  }

  /** The balance over two chains run together is the sum of their balances. */
  lemma {:induction false} BalanceConcat(c: seq<Block>, d: seq<Block>, address: string)
    ensures Balance(c + d, address) == Balance(c, address) + Balance(d, address)
    decreases |d|
  {
    if d != [] {
      var n := |d| - 1;
      BalanceConcat(c, d[..n], address);
      assert c + d == (c + d[..n]) + [d[n]];
      assert d == d[..n] + [d[n]];
      BalanceAppend(c + d[..n], d[n], address);
      BalanceAppend(d[..n], d[n], address);
    } else {
      assert c + d == c;
    }
  }

  /** A chain without transactions leaves every balance at 0. */
  lemma {:induction false} BalanceNoTransactions(c: seq<Block>, address: string)
    requires forall i :: 0 <= i < |c| ==> c[i].transactions == []
    ensures Balance(c, address) == 0
  {
    if c != [] {
      BalanceNoTransactions(c[..|c| - 1], address);
    }
  }

  /** Transactions that send to oneself, or that neither come from nor go to
      the address, do not move its balance. */
  lemma {:induction false} TxsDeltaNeutral(txs: seq<Transaction>, address: string)
    requires forall i :: 0 <= i < |txs| ==>
      (txs[i].from == address && txs[i].to == address) || (txs[i].from != address && txs[i].to != address)
    ensures TxsDelta(txs, address) == 0
  {
    if txs != [] {
      TxsDeltaNeutral(txs[..|txs| - 1], address);
    }
  }

  /** A block of self-transfers and unrelated transactions leaves the balance
      as it was. */
  lemma NeutralBlock(c: seq<Block>, b: Block, address: string)
    requires forall i :: 0 <= i < |b.transactions| ==>
      (b.transactions[i].from == address && b.transactions[i].to == address)
      || (b.transactions[i].from != address && b.transactions[i].to != address)
    ensures Balance(c + [b], address) == Balance(c, address)
  {
    BalanceAppend(c, b, address);
    TxsDeltaNeutral(b.transactions, address);
  }

  /** With no transactions around it, one block alone makes the balance. */
  lemma OneBlock(before: seq<Block>, b: Block, after: seq<Block>, address: string)
    requires forall i :: 0 <= i < |before| ==> before[i].transactions == []
    requires forall i :: 0 <= i < |after| ==> after[i].transactions == []
    ensures Balance(before + [b] + after, address) == TxsDelta(b.transactions, address)
  {
    BalanceNoTransactions(before, address);
    BalanceNoTransactions(after, address);
    BalanceAppend(before, b, address);
    BalanceConcat(before + [b], after, address);
  }

  /** When the only transaction on the chain is the reward to a miner, the
      miner holds `MinersReward` and the zero address owes it. */
  lemma RewardOnly(before: seq<Block>, b: Block, after: seq<Block>, miner: string)
    requires miner != ZeroAddress
    requires forall i :: 0 <= i < |before| ==> before[i].transactions == []
    requires forall i :: 0 <= i < |after| ==> after[i].transactions == []
    requires b.transactions == [RewardTransaction(miner)]
    ensures Balance(before + [b] + after, miner) == MinersReward
    ensures Balance(before + [b] + after, ZeroAddress) == -MinersReward
  {
    var txs := [RewardTransaction(miner)];
    assert txs[..0] == [];
    OneBlock(before, b, after, miner);
    OneBlock(before, b, after, ZeroAddress);
  }

  /** `walletService`: reads the chain of the blockchain service. */
  class WalletService {
    const blockChainSvc: BlockchainService

    constructor (blockChainSvc: BlockchainService)
      ensures this.blockChainSvc == blockChainSvc
    {
      this.blockChainSvc := blockChainSvc;
    }

    /** One pass of the inner loop: the debit, then the credit, each wrapped. */
    static method ApplyTransaction(balance: int, tx: Transaction, address: string, ghost total: int)
      returns (balance': int)
      requires balance == Int64(total)
      ensures balance' == Int64(total + TxDelta(tx, address))
    {
      balance' := balance;
      ghost var sum := total;
      if tx.from == address {
        Int64Add(sum, -tx.value);
        balance' := Int64(balance' - tx.value);
        sum := sum - tx.value;
      }
      if tx.to == address {
        Int64Add(sum, tx.value);
        balance' := Int64(balance' + tx.value);
        sum := sum + tx.value;
      }
      assert sum == total + TxDelta(tx, address);
    }

    /** `CalculateBalance`: every transaction of every block, in order, in
        `int64` arithmetic. */
    method CalculateBalance(address: string) returns (balance: int)
      ensures balance == Int64(Balance(blockChainSvc.chain, address))
    {
      balance := 0;
      ghost var total := 0;
      var chain := blockChainSvc.GetBlocks();
      var i := 0;
      while i < |chain|
        invariant 0 <= i <= |chain|
        invariant total == Balance(chain[..i], address)
        invariant balance == Int64(total)
      {
        var txs := chain[i].transactions;
        var j := 0;
        while j < |txs|
          invariant 0 <= j <= |txs|
          invariant total == Balance(chain[..i], address) + TxsDelta(txs[..j], address)
          invariant balance == Int64(total)
        {
          assert txs[..j + 1][..j] == txs[..j];
          balance := ApplyTransaction(balance, txs[j], address, total);
          total := total + TxDelta(txs[j], address);
          j := j + 1;
        }
        assert txs[..j] == txs;
        BalanceAppend(chain[..i], chain[i], address);
        assert chain[..i + 1] == chain[..i] + [chain[i]];
        i := i + 1;
      }
      assert chain[..i] == chain;
    }
  }
}
