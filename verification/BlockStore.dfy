/** The block store: headers and transactions under separate keys, the block
    count, and the total work as decimal text. */
module BlockStores {
  import opened Words
  import opened Records
  import opened Limbs
  import opened Decimal
  import opened Bigints

  datatype Option<T> = None | Some(value: T)

  type HeaderTable = map<uint32, Header>
  type TransactionTable = map<(uint32, uint32), Transaction>

  /** Everything that reading block b back needs is in the tables.  Entries left by
      an earlier block of the same id do not matter. */
  predicate Stored(headers: HeaderTable, transactions: TransactionTable, b: Block) {
    && |b.transactions| < 0x1_0000_0000
    && b.id in headers && headers[b.id] == b.Serialize()
    && forall i: uint32 | i < |b.transactions| ::
         (b.id, i) in transactions && transactions[(b.id, i)] == b.transactions[i]
  }

  ghost predicate AllStored(headers: HeaderTable, transactions: TransactionTable, s: seq<Block>) {
    forall i {:trigger Stored(headers, transactions, s[i])} :: 0 <= i < |s| ==> Stored(headers, transactions, s[i])
  }

  class BlockStore {
    var headers: HeaderTable
    var transactions: TransactionTable
    var blockCount: Option<nat>
    var totalWork: Option<string>

    constructor ()
      ensures blockCount == None
    {
      headers, transactions, blockCount, totalWork := map[], map[], None, None;
    }

    method Clear()
      modifies this
      ensures blockCount == None && headers == map[] && transactions == map[]
    {
      headers, transactions, blockCount, totalWork := map[], map[], None, None;
    }

    method SetBlockCount(count: nat)
      modifies this`blockCount
      ensures blockCount == Some(count)
    {
      blockCount := Some(count);
    }

    method SetTotalWork(work: Bigint)
      requires work.positive
      modifies this`totalWork
      ensures totalWork == Some(Text(if work.number == [] then [0] else Trim(work.number)))
    {
      var text := work.ToString();
      totalWork := Some(text);
    }

    /** Reads the total; without one it is an exception. */
    method GetTotalWork() returns (work: Option<Bigint>)
      requires totalWork.Some? ==> AllDigits(totalWork.value)
      ensures work.Some? <==> totalWork.Some?
      ensures work.Some? ==> fresh(work.value) && work.value.number == Parsed(totalWork.value)
      ensures work.Some? ==> work.value.positive && work.value.skip == 0
    {
      if totalWork.None? {
        return None;
      }
      var parsed := new Bigint.Parse(totalWork.value);
      work := Some(parsed);
    }

    /** A block with any other id is still there afterwards. */
    method SetBlock(b: Block)
      requires |b.transactions| < 0x1_0000_0000
      modifies this`headers, this`transactions
      ensures Stored(headers, transactions, b)
      ensures headers == old(headers)[b.id := b.Serialize()]
      ensures forall k | k in old(transactions) && k.0 != b.id ::
                k in transactions && transactions[k] == old(transactions)[k]
    {
      headers := headers[b.id := b.Serialize()];
      for i := 0 to |b.transactions|
        invariant headers == old(headers)[b.id := b.Serialize()]
        invariant forall k: uint32 | k < i :: (b.id, k) in transactions && transactions[(b.id, k)] == b.transactions[k]
        invariant forall k | k in old(transactions) && k.0 != b.id ::
                    k in transactions && transactions[k] == old(transactions)[k]
      {
        transactions := transactions[(b.id, i) := b.transactions[i]];
      }
    }

    /** Reads a block back field by field; a missing entry is an exception. */
    method GetBlock(blockId: uint32) returns (r: Option<Block>)
      ensures forall b: Block | b.id == blockId && Stored(headers, transactions, b) :: r == Some(b)
      ensures r.Some? ==> blockId in headers
      ensures r.Some? && headers[blockId].id == blockId ==>
              r.value.id == blockId && Stored(headers, transactions, r.value)
    {
      if blockId !in headers {
        return None;
      }
      var h := headers[blockId];
      var txs: seq<Transaction> := [];
      for i := 0 to h.numTransactions
        invariant |txs| == i
        invariant forall k: uint32 | k < i :: (h.id, k) in transactions && transactions[(h.id, k)] == txs[k]
      {
        if (h.id, i) !in transactions {
          return None;
        }
        txs := txs + [transactions[(h.id, i)]];
      }
      r := Some(Block(h.id, h.timestamp, h.difficulty, txs, h.merkleRoot, h.lastBlockHash, h.nonce));
      forall b: Block | b.id == blockId && Stored(headers, transactions, b)
        ensures r == Some(b)
      {
        assert forall k: uint32 | k < |txs| :: (h.id, k) in transactions && txs[k] == b.transactions[k];
        assert txs == b.transactions;
      }
    }
  }

  lemma StillStored(headers: HeaderTable, transactions: TransactionTable,
                    headers': HeaderTable, transactions': TransactionTable, id: uint32, b: Block)
    requires Stored(headers, transactions, b) && b.id != id
    requires b.id in headers' && headers'[b.id] == headers[b.id]
    requires forall k | k in transactions && k.0 != id :: k in transactions' && transactions'[k] == transactions[k]
    ensures Stored(headers', transactions', b)
  {
  }
}
