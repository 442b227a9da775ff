/** service/transaction_pool.go: pending transactions keyed by hash, where the
    first transaction stored under a hash stays, and the configured backing. */
module TxPool {
  import opened Transactions

  /** The two `TxPoolConfigSource` values. */
  const Mempool: string := "Mempool"
  const Redis: string := "Redis"

  /** The map after `SetTransaction(tx)`: `tx` goes in under its hash unless
      that hash is already taken. */
  function Insert(m: map<string, Transaction>, tx: Transaction): (m': map<string, Transaction>)
    ensures m'.Keys == m.Keys + {tx.hash}
    ensures forall h :: h in m ==> m'[h] == m[h]
    ensures tx.hash !in m ==> m'[tx.hash] == tx
  {
    if tx.hash in m then m else m[tx.hash := tx]
  }

  /** A new hash adds exactly one entry. */
  lemma InsertGrows(m: map<string, Transaction>, tx: Transaction)
    requires tx.hash !in m
    ensures |Insert(m, tx)| == |m| + 1
  {
    assert Insert(m, tx).Keys == m.Keys + {tx.hash};
  }

  /** A hash already present leaves the map as it was: the first writer wins. */
  lemma FirstWriterWins(m: map<string, Transaction>, first: Transaction, later: Transaction)
    requires later.hash == first.hash
    ensures Insert(Insert(m, first), later) == Insert(m, first)
  {
  }

  /** Inserting the same transaction twice is inserting it once. */
  lemma InsertIdempotent(m: map<string, Transaction>, tx: Transaction)
    ensures Insert(Insert(m, tx), tx) == Insert(m, tx)
  {
    FirstWriterWins(m, tx, tx);
  }

  /** The source type after `ConfigTransactionPool(requested)`: only `Mempool`
      and `Redis` are taken, anything else leaves it as it was. */
  function NextSourceType(current: string, requested: string): (r: string)
    ensures requested == Mempool || requested == Redis ==> r == requested
    ensures requested != Mempool && requested != Redis ==> r == current
  {
    var afterMempool := if requested == Mempool then Mempool else current;
    if requested == Redis then Redis else afterMempool
  }

  class TransactionPoolService {
    var sourceType: string
    var transactionMap: map<string, Transaction>

    /** `NewTransactionPoolService`: an empty map and no source type set. */
    constructor ()
      ensures transactionMap == map[]
      ensures sourceType == "" && sourceType != Mempool && sourceType != Redis
    {
      transactionMap := map[];
      sourceType := "";
    }

    method GetConfigTransactionPool() returns (s: string)
      ensures s == sourceType
    {
      s := sourceType;
    }

    method ConfigTransactionPool(requested: string)
      modifies this
      ensures sourceType == NextSourceType(old(sourceType), requested)
      ensures transactionMap == old(transactionMap)
    {
      if requested == Mempool {
        sourceType := Mempool;
      }
      if requested == Redis {
        sourceType := Redis;
      }
    }

    method Clear()
      modifies this
      ensures transactionMap == map[]
      ensures sourceType == old(sourceType)
    {
      transactionMap := map[];
    }

    method SetTransaction(tx: Transaction)
      modifies this
      ensures transactionMap == Insert(old(transactionMap), tx)
      ensures sourceType == old(sourceType)
    {
      var isExist := tx.hash in transactionMap;
      if !isExist {
        transactionMap := transactionMap[tx.hash := tx];
      }
    }

    /** The local map, whatever the source type. */
    method GetTransactionPool() returns (m: map<string, Transaction>)
      ensures m == transactionMap
    {
      m := transactionMap;
    }

    /** The pooled transactions, one per entry, in an unspecified order:
        `keys` is the order the entries were visited in, each hash once. */
    method GetTransactions() returns (txs: seq<Transaction>, ghost keys: seq<string>)
      ensures |txs| == |transactionMap|
      ensures forall t :: t in txs <==> t in transactionMap.Values
      ensures |keys| == |txs| && forall h :: h in keys <==> h in transactionMap
      ensures forall i, j :: 0 <= i < j < |keys| ==> keys[i] != keys[j]
      ensures forall i :: 0 <= i < |keys| ==> keys[i] in transactionMap && txs[i] == transactionMap[keys[i]]
    {
      var pool := GetTransactionPool();
      txs := [];
      keys := [];
      var remaining := pool.Keys;
      while remaining != {}
        invariant remaining <= pool.Keys
        invariant |txs| + |remaining| == |pool| && |keys| == |txs|
        invariant forall t :: t in txs ==> t in pool.Values
        invariant forall h :: h in pool && h !in remaining ==> pool[h] in txs
        invariant forall h :: h in keys <==> h in pool && h !in remaining
        invariant forall i, j :: 0 <= i < j < |keys| ==> keys[i] != keys[j]
        invariant forall i :: 0 <= i < |keys| ==> keys[i] in pool && txs[i] == pool[keys[i]]
        decreases |remaining|
      {
        var h :| h in remaining;
        txs := txs + [pool[h]];
        keys := keys + [h];
        remaining := remaining - {h};
      }
    }
  }
}
