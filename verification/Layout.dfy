/** The byte layouts, place by place: what is hashed, and what is sent. */
module Layouts {
  import opened Words
  import opened Records
  import opened WireFormat

  // ----- byte order -----

  /** Words are written and read least significant byte first, and the numbers that hashes
      spell most significant byte first. */
  lemma ByteOrder(s: seq<byte>)
    requires |s| == 4
    ensures var x: nat, y: nat, z: nat, w: nat := s[0], s[1], s[2], s[3];
            && FromLittleEndian(s) == x + 0x100 * y + 0x1_0000 * z + 0x100_0000 * w
            && FromBigEndian(s) == 0x100_0000 * x + 0x1_0000 * y + 0x100 * z + w
  {
    var x: nat, y: nat, z: nat, w: nat := s[0], s[1], s[2], s[3];
    OneByte(s);
    OneByte(s[1..]);
    OneByte(s[2..]);
    OneByte(s[3..]);
    OneByte(s[..3]);
    OneByte(s[..2]);
    OneByte(s[..1]);
    hide FromLittleEndian, FromBigEndian;
    assert s[1..][1..] == s[2..] && s[2..][1..] == s[3..] && s[3..][1..] == [];
    assert s[..3][..2] == s[..2] && s[..2][..1] == s[..1] && s[..1][..0] == [];
  }

  lemma OneByte(s: seq<byte>)
    requires s != []
    ensures var first: nat, last: nat := s[0], s[|s| - 1];
            && FromLittleEndian(s) == first + 0x100 * FromLittleEndian(s[1..])
            && FromBigEndian(s) == 0x100 * FromBigEndian(s[..|s| - 1]) + last
    ensures FromLittleEndian([]) == 0 && FromBigEndian([]) == 0
  {
  }

  lemma Spelled(x: uint32, y: uint64)
    ensures FromLittleEndian(LittleEndian(x, 4)) == x && FromLittleEndian(LittleEndian(y, 8)) == y
  {
    hide LittleEndian, FromLittleEndian, Span;
    LittleEndianInverse(x, 4);
    LittleEndianInverse(y, 8);
    Words4And8();
  }

  lemma Cut(a: seq<byte>, rest: seq<byte>, s: seq<byte>)
    requires s == a + rest
    ensures s[..|a|] == a && s[|a|..] == rest
  {
  }

  lemma CutBack(s: seq<byte>, i: nat, j: nat)
    requires i <= j <= |s|
    ensures s[i..][..j - i] == s[i..j] && s[i..][j - i..] == s[j..]
  {
  }

  lemma Slice(a: seq<byte>, rest: seq<byte>, i: nat, j: nat)
    requires |a| <= i <= j <= |a| + |rest|
    ensures (a + rest)[i..j] == rest[i - |a|..j - |a|]
  {
  }

  // ----- what is hashed -----

  /** The bytes of a transaction's contents: payee, payer of a transfer, fee, amount, time. */
  predicate IsContent(s: seq<byte>, t: Transaction) {
    var o := if t.Fee? then 25 else 50;
    && |s| == o + 24 && s[..25] == t.to && (t.Transfer? ==> s[25..50] == t.from)
    && FromLittleEndian(s[o..o + 8]) == t.fee
    && FromLittleEndian(s[o + 8..o + 16]) == t.amount
    && FromLittleEndian(s[o + 16..]) == t.timestamp
  }

  lemma ContentHashed(c: Crypto, t: Transaction)
    ensures exists s: seq<byte> :: IsContent(s, t) && ContentHash(c, t) == c.sha256(s)
  {
    hide LittleEndian, FromLittleEndian;
    var parties: seq<byte> := t.to + (if t.Fee? then [] else t.from);
    var fee, amount, time := LittleEndian(t.fee, 8), LittleEndian(t.amount, 8), LittleEndian(t.timestamp, 8);
    var s := parties + fee + amount + time;
    Spelled(0, t.fee);
    Spelled(0, t.amount);
    Spelled(0, t.timestamp);
    var o := |parties|;
    assert s[o..o + 8] == fee && s[o + 8..o + 16] == amount && s[o + 16..] == time;
    assert s[..o] == parties && parties[..25] == t.to;
    assert IsContent(s, t);
  }

  /** The leaf hash covers the content hash and, of a transfer, the signature. */
  lemma TransactionHashed(c: Crypto, t: Transaction)
    ensures exists s: seq<byte> ::
              && |s| >= 32 && s[..32] == ContentHash(c, t) && s[32..] == (if t.Fee? then [] else t.signature)
              && TransactionHash(c, t) == c.sha256(s)
  {
    hide ContentHash;
    var s: seq<byte> := ContentHash(c, t) + (if t.Fee? then [] else t.signature);
    assert s[..32] == ContentHash(c, t) && s[32..] == (if t.Fee? then [] else t.signature);
  }

  /** A block's hash covers its root, its link, its whole difficulty word and its time. */
  predicate IsBlockContent(s: seq<byte>, b: Block) {
    && |s| == 76 && s[..32] == b.merkleRoot && s[32..64] == b.lastBlockHash
    && FromLittleEndian(s[64..68]) == b.difficulty && FromLittleEndian(s[68..]) == b.timestamp
  }

  lemma BlockHashed(c: Crypto, b: Block)
    ensures exists s: seq<byte> :: IsBlockContent(s, b) && b.GetHash(c) == c.sha256(s)
  {
    hide LittleEndian, FromLittleEndian;
    var difficulty, time := LittleEndian(b.difficulty, 4), LittleEndian(b.timestamp, 8);
    var s: seq<byte> := b.merkleRoot + b.lastBlockHash + difficulty + time;
    Spelled(b.difficulty, b.timestamp);
    assert s[..32] == b.merkleRoot && s[32..64] == b.lastBlockHash && s[64..68] == difficulty && s[68..] == time;
    assert IsBlockContent(s, b);
  }

  // ----- what is sent -----

  /** The places of a transaction's fields in its record. */
  lemma TransactionRecord(t: Transaction)
    ensures var s := EncodeTransaction(t);
            && |s| == 149 && s[..64] == t.signature && s[64..96] == t.signingKey
            && FromLittleEndian(s[96..104]) == t.timestamp && s[104..129] == t.to
            && FromLittleEndian(s[129..137]) == t.amount && FromLittleEndian(s[137..145]) == t.fee
            && FromLittleEndian(s[145..]) == if t.Fee? then 1 else 0
  {
    hide LittleEndian, FromLittleEndian;
    Spelled(Flag(t), t.timestamp);
    Spelled(0, t.amount);
    Spelled(0, t.fee);
    var fee, flag := LittleEndian(t.fee, 8), LittleEndian(Flag(t), 4);
    var e5 := LittleEndian(t.amount, 8) + (fee + flag);
    var e4: seq<byte> := t.to + e5;
    var e3 := LittleEndian(t.timestamp, 8) + e4;
    var e2: seq<byte> := t.signingKey + e3;
    var s := EncodeTransaction(t);
    assert s == t.signature + e2;
    Cut(t.signature, e2, s);
    Cut(t.signingKey, e3, s[64..]);
    Cut(LittleEndian(t.timestamp, 8), e4, s[96..]);
    Cut(t.to, e5, s[104..]);
    Cut(LittleEndian(t.amount, 8), fee + flag, s[129..]);
    Cut(fee, flag, s[137..]);
    hide EncodeTransaction;
    CutBack(s, 64, 96);
    CutBack(s, 96, 104);
    CutBack(s, 104, 129);
    CutBack(s, 129, 137);
    CutBack(s, 137, 145);
  }

  /** The places of a block's fields in its header, and of its records behind it. */
  lemma BlockRecord(b: Block, k: nat)
    requires |b.transactions| < 0x1_0000_0000
    ensures var s := EncodeBlock(b);
            && |s| == 116 + 149 * |b.transactions|
            && FromLittleEndian(s[..4]) == b.id && FromLittleEndian(s[4..12]) == b.timestamp
            && FromLittleEndian(s[12..16]) == b.difficulty && FromLittleEndian(s[16..20]) == |b.transactions|
            && s[20..52] == b.lastBlockHash && s[52..84] == b.merkleRoot && s[84..116] == b.nonce
            && (k < |b.transactions| ==>
                  s[116 + 149 * k..116 + 149 * (k + 1)] == EncodeTransaction(b.transactions[k]))
  {
    hide EncodeTransaction, EncodeTransactions;
    var h, records := EncodeHeader(b.Serialize()), EncodeTransactions(b.transactions);
    HeaderRecord(b.Serialize());
    hide EncodeHeader, FromLittleEndian;
    var s := h + records;
    assert s[..4] == h[..4] && s[4..12] == h[4..12] && s[12..16] == h[12..16] && s[16..20] == h[16..20];
    assert s[20..52] == h[20..52] && s[52..84] == h[52..84] && s[84..116] == h[84..];
    if k < |b.transactions| {
      RecordAt(b.transactions, k);
      Slice(h, records, 116 + 149 * k, 116 + 149 * (k + 1));
    }
  }

  lemma HeaderRecord(h: Header)
    ensures var s := EncodeHeader(h);
            && FromLittleEndian(s[..4]) == h.id && FromLittleEndian(s[4..12]) == h.timestamp
            && FromLittleEndian(s[12..16]) == h.difficulty && FromLittleEndian(s[16..20]) == h.numTransactions
            && s[20..52] == h.lastBlockHash && s[52..84] == h.merkleRoot && s[84..] == h.nonce
  {
    hide LittleEndian, FromLittleEndian;
    Spelled(h.id, h.timestamp);
    Spelled(h.difficulty, 0);
    Spelled(h.numTransactions, 0);
    var e4: seq<byte> := h.lastBlockHash + (h.merkleRoot + h.nonce);
    var e3 := LittleEndian(h.numTransactions, 4) + e4;
    var e2 := LittleEndian(h.difficulty, 4) + e3;
    var e1 := LittleEndian(h.timestamp, 8) + e2;
    var s := EncodeHeader(h);
    assert s == LittleEndian(h.id, 4) + e1;
    assert s[4..] == e1 && s[12..] == e2 && s[16..] == e3 && s[20..] == e4;
    assert s[4..12] == LittleEndian(h.timestamp, 8) && s[12..16] == LittleEndian(h.difficulty, 4);
    assert s[16..20] == LittleEndian(h.numTransactions, 4) && s[52..] == h.merkleRoot + h.nonce;
  }

  lemma {:induction false} RecordAt(txs: seq<Transaction>, k: nat)
    requires k < |txs|
    ensures EncodeTransactions(txs)[149 * k..149 * (k + 1)] == EncodeTransaction(txs[k])
  {
    hide EncodeTransaction;
    var front, s := EncodeTransactions(txs[..|txs| - 1]), EncodeTransactions(txs);
    if k == |txs| - 1 {
      assert s[149 * k..] == EncodeTransaction(txs[k]);
    } else {
      RecordAt(txs[..|txs| - 1], k);
      assert s[149 * k..149 * (k + 1)] == front[149 * k..149 * (k + 1)];
    }
  }

  /** A stream is the blocks in their order. */
  lemma {:induction false} StreamOrder(blocks: seq<Block>, later: seq<Block>)
    requires forall b <- blocks + later :: |b.transactions| < 0x1_0000_0000
    ensures Stream(blocks + later) == Stream(blocks) + Stream(later)
    ensures |blocks| == 1 ==> Stream(blocks) == EncodeBlock(blocks[0])
  {
    hide EncodeBlock;
    if blocks == [] {
      assert blocks + later == later;
    } else {
      assert (blocks + later)[1..] == blocks[1..] + later;
      StreamOrder(blocks[1..], later);
    }
  }
}
