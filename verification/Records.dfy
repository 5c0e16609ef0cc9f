/** Transactions and blocks, and the hashes that identify them. */
module Records {
  import opened Words

  /** The cryptographic primitives, as arbitrary functions: nothing in this
      project assumes anything about what they return. */
  datatype Crypto = Crypto(
    sha256: seq<byte> -> Hash,
    proofHash: (Hash, Hash) -> Hash,              // hash of a block hash and a nonce
    addressOf: Key -> Address,
    signatureOk: (Hash, Signature, Key) -> bool)

  /** A fee transaction has no sender: the program never reads that field when
      the fee flag is set, and leaves it unset when it rebuilds the record. */
  datatype Transaction =
    | Fee(to: Address, amount: uint64, fee: uint64, timestamp: uint64,
          signature: Signature, signingKey: Key)
    | Transfer(from: Address, to: Address, amount: uint64, fee: uint64, timestamp: uint64,
               signature: Signature, signingKey: Key)

  /** What a transaction says, without its signature: the index key. */
  function ContentHash(c: Crypto, t: Transaction): Hash {
    c.sha256(t.to
             + (if t.Fee? then [] else t.from)
             + LittleEndian(t.fee, 8)
             + LittleEndian(t.amount, 8)
             + LittleEndian(t.timestamp, 8))
  }

  /** The leaf hash of a transaction: its contents and its signature. */
  function TransactionHash(c: Crypto, t: Transaction): Hash {
    c.sha256(ContentHash(c, t) + (if t.Fee? then [] else t.signature))
  }

  predicate SignatureValid(c: Crypto, t: Transaction) {
    t.Fee? || c.signatureOk(ContentHash(c, t), t.signature, t.signingKey)
  }

  /** The sender is the wallet of the key that signed. */
  predicate SenderMatches(c: Crypto, t: Transaction) {
    t.Transfer? ==> c.addressOf(t.signingKey) == t.from
  }

  datatype Header = Header(id: uint32, timestamp: uint64, difficulty: uint32, numTransactions: uint32,
                           lastBlockHash: Hash, merkleRoot: Hash, nonce: Hash)

  datatype Block = Block(id: uint32, timestamp: uint64, difficulty: uint32,
                         transactions: seq<Transaction>,
                         merkleRoot: Hash, lastBlockHash: Hash, nonce: Hash)
  {
    /** The accessor returns the low byte of the stored 32-bit field. */
    function Difficulty(): (d: nat)
      ensures d < 256
    {
      difficulty % 256
    }

    function GetHash(c: Crypto): Hash {
      c.sha256(merkleRoot + lastBlockHash + LittleEndian(difficulty, 4) + LittleEndian(timestamp, 8))
    }

    function Serialize(): Header
      requires |transactions| < 0x1_0000_0000
    {
      Header(id, timestamp, difficulty, |transactions|, lastBlockHash, merkleRoot, nonce)
    }
  }

  /** The block with these transactions under the header. */
  function BlockOf(h: Header, txs: seq<Transaction>): Block {
    Block(h.id, h.timestamp, h.difficulty, txs, h.merkleRoot, h.lastBlockHash, h.nonce)
  }
}
