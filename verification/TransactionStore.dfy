/** The index from a transaction's content hash to the block that holds it. */
module TransactionStores {
  import opened Words
  import opened Records

  class TransactionStore {
    var index: map<Hash, uint32>

    constructor ()
      ensures index == map[]
    {
      index := map[];
    }

    method Clear()
      modifies this
      ensures index == map[]
    {
      index := map[];
    }

    method HasTransaction(c: Crypto, t: Transaction) returns (found: bool)
      ensures found <==> ContentHash(c, t) in index
    {
      found := ContentHash(c, t) in index;
    }

    method BlockForTransaction(c: Crypto, t: Transaction) returns (ok: bool, id: uint32)
      ensures ok <==> ContentHash(c, t) in index
      ensures ok ==> id == index[ContentHash(c, t)]
    {
      var h := ContentHash(c, t);
      if h in index {
        ok, id := true, index[h];
      } else {
        ok, id := false, 0;
      }
    }

    method InsertTransaction(c: Crypto, t: Transaction, blockId: uint32)
      modifies this
      ensures index == old(index)[ContentHash(c, t) := blockId]
    {
      index := index[ContentHash(c, t) := blockId];
    }

    method RemoveTransaction(c: Crypto, t: Transaction)
      modifies this
      ensures index == old(index) - {ContentHash(c, t)}
    {
      index := index - {ContentHash(c, t)};
    }
  }
}
