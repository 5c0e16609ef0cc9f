/** The binary records that nodes exchange: 116-byte headers, 149-byte transactions,
    and streams of blocks. */
module WireFormat {
  import opened Words
  import opened Records
  import opened BlockStores

  const HEADER_SIZE := 116
  const TRANSACTION_SIZE := 149

  // ----- words -----

  lemma {:induction false} LittleEndianBound(s: seq<byte>)
    ensures FromLittleEndian(s) < Span(|s|)
  {
    if s == [] {
    } else {
      LittleEndianBound(s[1..]);
    }
  }

  lemma {:induction false} LittleEndianBack(s: seq<byte>)
    ensures LittleEndian(FromLittleEndian(s), |s|) == s
  {
    if s == [] {
    } else {
      LittleEndianBack(s[1..]);
      var rest := FromLittleEndian(s[1..]);
      DivModUnique(s[0] + 256 * rest, 256, rest, s[0]);
    }
  }

  /** Four or eight bytes as a word. */
  function Word32(s: seq<byte>): uint32
    requires |s| == 4
  {
    LittleEndianBound(s);
    Words4And8();
    FromLittleEndian(s)
  }

  function Word64(s: seq<byte>): uint64
    requires |s| == 8
  {
    LittleEndianBound(s);
    Words4And8();
    FromLittleEndian(s)
  }

  lemma WordsBack(x: uint32, y: uint64)
    ensures Word32(LittleEndian(x, 4)) == x && Word64(LittleEndian(y, 8)) == y
  {
    hide Span, LittleEndian, FromLittleEndian;
    LittleEndianInverse(x, 4);
    LittleEndianInverse(y, 8);
    Words4And8();
  }

  // ----- records -----

  function Flag(t: Transaction): uint32 { if t.Fee? then 1 else 0 }

  function EncodeTransaction(t: Transaction): (s: seq<byte>)
    ensures |s| == TRANSACTION_SIZE
  {
    t.signature + (t.signingKey + (LittleEndian(t.timestamp, 8) + (t.to + (LittleEndian(t.amount, 8)
    + (LittleEndian(t.fee, 8) + LittleEndian(Flag(t), 4))))))
  }

  /** The sender is not in the record: it is derived from the signing key. */
  function DecodeTransaction(c: Crypto, s: seq<byte>): Transaction
    requires |s| == TRANSACTION_SIZE
  {
    var signature, s1 := s[..64], s[64..];
    var key, s2 := s1[..32], s1[32..];
    var timestamp, s3 := Word64(s2[..8]), s2[8..];
    var to, s4 := s3[..25], s3[25..];
    var amount, s5 := Word64(s4[..8]), s4[8..];
    var fee, flag := Word64(s5[..8]), Word32(s5[8..]);
    if flag > 0 then Fee(to, amount, fee, timestamp, signature, key)
    else Transfer(c.addressOf(key), to, amount, fee, timestamp, signature, key)
  }

  function EncodeHeader(h: Header): (s: seq<byte>)
    ensures |s| == HEADER_SIZE
  {
    LittleEndian(h.id, 4) + (LittleEndian(h.timestamp, 8) + (LittleEndian(h.difficulty, 4)
    + (LittleEndian(h.numTransactions, 4) + (h.lastBlockHash + (h.merkleRoot + h.nonce)))))
  }

  function DecodeHeader(s: seq<byte>): Header
    requires |s| == HEADER_SIZE
  {
    var id, s1 := Word32(s[..4]), s[4..];
    var timestamp, s2 := Word64(s1[..8]), s1[8..];
    var difficulty, s3 := Word32(s2[..4]), s2[4..];
    var numTransactions, s4 := Word32(s3[..4]), s3[4..];
    var lastBlockHash, s5 := s4[..32], s4[32..];
    Header(id, timestamp, difficulty, numTransactions, lastBlockHash, s5[..32], s5[32..])
  }

  lemma Split(a: seq<byte>, b: seq<byte>)
    ensures (a + b)[..|a|] == a && (a + b)[|a|..] == b
  {
  }

  /** A transaction survives the trip exactly if its sender is the one its key gives. */
  lemma TransactionRoundTrip(c: Crypto, t: Transaction)
    ensures DecodeTransaction(c, EncodeTransaction(t)) == t <==> SenderMatches(c, t)
  {
    hide Word32, Word64, LittleEndian;
    var e6 := LittleEndian(t.fee, 8) + LittleEndian(Flag(t), 4);
    var e5 := LittleEndian(t.amount, 8) + e6;
    var e4 := t.to + e5;
    var e3 := LittleEndian(t.timestamp, 8) + e4;
    Split(t.signature, t.signingKey + e3);
    Split(t.signingKey, e3);
    Split(LittleEndian(t.timestamp, 8), e4);
    Split(t.to, e5);
    Split(LittleEndian(t.amount, 8), e6);
    Split(LittleEndian(t.fee, 8), LittleEndian(Flag(t), 4));
    WordsBack(Flag(t), t.timestamp);
    WordsBack(0, t.amount);
    WordsBack(0, t.fee);
  }

  /** What a record decodes to encodes to the same fields, with the flag made zero or one. */
  lemma DecodedFields(c: Crypto, a: seq<byte>, b: seq<byte>, time: seq<byte>, to: seq<byte>,
                      amount: seq<byte>, fee: seq<byte>, flag: seq<byte>)
    requires |a| == 64 && |b| == 32 && |time| == |amount| == |fee| == 8 && |to| == 25 && |flag| == 4
    ensures var t := DecodeTransaction(c, a + (b + (time + (to + (amount + (fee + flag))))));
            && Flag(t) == (if Word32(flag) > 0 then 1 else 0)
            && EncodeTransaction(t) == a + (b + (time + (to + (amount + (fee + LittleEndian(Flag(t), 4))))))
  {
    hide LittleEndian, Word32, Word64;
    var e6 := fee + flag;
    var e5 := amount + e6;
    var e4 := to + e5;
    var e3 := time + e4;
    Split(a, b + e3);
    Split(b, e3);
    Split(time, e4);
    Split(to, e5);
    Split(amount, e6);
    Split(fee, flag);
    Words64Back(time);
    Words64Back(amount);
    Words64Back(fee);
  }

  /** A record is the encoding of what it decodes to exactly if its flag is zero or one. */
  lemma TransactionBack(c: Crypto, s: seq<byte>)
    requires |s| == TRANSACTION_SIZE
    ensures EncodeTransaction(DecodeTransaction(c, s)) == s <==> Word32(s[145..]) <= 1
  {
    hide LittleEndian, Word32, EncodeTransaction, DecodeTransaction, Flag;
    var a, b, time, to := s[..64], s[64..96], s[96..104], s[104..129];
    var amount, fee, flag := s[129..137], s[137..145], s[145..];
    assert s == a + (b + (time + (to + (amount + (fee + flag)))));
    DecodedFields(c, a, b, time, to, amount, fee, flag);
    var f := if Word32(flag) > 0 then 1 else 0;
    SameFront(a, b, time, to, amount, fee, flag, LittleEndian(f, 4));
    Words32Back(flag);
    WordsBack(f, 0);
  }

  lemma SameFront(a: seq<byte>, b: seq<byte>, c: seq<byte>, d: seq<byte>, e: seq<byte>, f: seq<byte>,
                  x: seq<byte>, y: seq<byte>)
    ensures a + (b + (c + (d + (e + (f + x))))) == a + (b + (c + (d + (e + (f + y))))) <==> x == y
  {
    SameBehind(f, x, y);
    SameBehind(e, f + x, f + y);
    SameBehind(d, e + (f + x), e + (f + y));
    SameBehind(c, d + (e + (f + x)), d + (e + (f + y)));
    SameBehind(b, c + (d + (e + (f + x))), c + (d + (e + (f + y))));
    SameBehind(a, b + (c + (d + (e + (f + x)))), b + (c + (d + (e + (f + y)))));
  }

  lemma SameBehind(a: seq<byte>, x: seq<byte>, y: seq<byte>)
    ensures a + x == a + y <==> x == y
  {
    Split(a, x);
    Split(a, y);
  }

  lemma Words64Back(s: seq<byte>)
    requires |s| == 8
    ensures LittleEndian(Word64(s), 8) == s
  {
    LittleEndianBack(s);
  }

  lemma Words32Back(s: seq<byte>)
    requires |s| == 4
    ensures LittleEndian(Word32(s), 4) == s
  {
    LittleEndianBack(s);
  }

  lemma HeaderRoundTrip(h: Header)
    ensures DecodeHeader(EncodeHeader(h)) == h
  {
    hide Word32, Word64, LittleEndian;
    var e5 := h.lastBlockHash + (h.merkleRoot + h.nonce);
    var e4 := LittleEndian(h.numTransactions, 4) + e5;
    var e3 := LittleEndian(h.difficulty, 4) + e4;
    var e2 := LittleEndian(h.timestamp, 8) + e3;
    Split(LittleEndian(h.id, 4), e2);
    Split(LittleEndian(h.timestamp, 8), e3);
    Split(LittleEndian(h.difficulty, 4), e4);
    Split(LittleEndian(h.numTransactions, 4), e5);
    Split(h.lastBlockHash, h.merkleRoot + h.nonce);
    Split(h.merkleRoot, h.nonce);
    WordsBack(h.id, h.timestamp);
    WordsBack(h.difficulty, 0);
    WordsBack(h.numTransactions, 0);
  }

  // ----- reading and writing through a cursor -----

  /** A place in a buffer, which every read and write moves on.  The ghost bounds are
      those of the record being read or written. */
  class Cursor {
    const data: array<byte>
    ghost const start: nat
    ghost const end: nat
    var at: nat

    constructor (data: array<byte>, start: nat, ghost end: nat)
      requires start <= end <= data.Length
      ensures Valid() && this.data == data && this.start == at == start && this.end == end
    {
      this.data, this.start, this.at, this.end := data, start, start, end;
    }

    ghost predicate Valid()
      reads this
    {
      start <= at <= end <= data.Length
    }

    ghost function Done(): seq<byte>
      requires Valid()
      reads this, data
    {
      data[start..at]
    }

    ghost function Rest(): seq<byte>
      requires Valid()
      reads this, data
    {
      data[at..end]
    }

    /** What is not part of the record. */
    ghost function Outside(): seq<byte>
      requires Valid()
      reads this, data
    {
      data[..start] + data[end..]
    }

    method ReadBytes(n: nat) returns (s: seq<byte>)
      requires Valid() && at + n <= end
      modifies this
      ensures Valid() && at == old(at) + n
      ensures s == old(Rest())[..n] && Rest() == old(Rest())[n..]
    {
      s := data[at..at + n];
      at := at + n;
    }

    method ReadUint32() returns (x: uint32)
      requires Valid() && at + 4 <= end
      modifies this
      ensures Valid() && at == old(at) + 4
      ensures x == Word32(old(Rest())[..4]) && Rest() == old(Rest())[4..]
    {
      var s := ReadBytes(4);
      x := Word32(s);
    }

    method ReadUint64() returns (x: uint64)
      requires Valid() && at + 8 <= end
      modifies this
      ensures Valid() && at == old(at) + 8
      ensures x == Word64(old(Rest())[..8]) && Rest() == old(Rest())[8..]
    {
      var s := ReadBytes(8);
      x := Word64(s);
    }

    method WriteBytes(s: seq<byte>)
      requires Valid() && at + |s| <= end
      modifies this, data
      ensures Valid() && at == old(at) + |s| && Done() == old(Done()) + s
      ensures Outside() == old(Outside())
    {
      for i := 0 to |s|
        invariant at == old(at)
        invariant forall k :: 0 <= k < data.Length ==>
          data[k] == if at <= k < at + i then s[k - at] else old(data[k])
      {
        data[at + i] := s[i];
      }
      at := at + |s|;
    }

    method WriteUint32(x: uint32)
      requires Valid() && at + 4 <= end
      modifies this, data
      ensures Valid() && at == old(at) + 4 && Done() == old(Done()) + LittleEndian(x, 4)
      ensures Outside() == old(Outside())
    {
      WriteBytes(LittleEndian(x, 4));
    }

    method WriteUint64(x: uint64)
      requires Valid() && at + 8 <= end
      modifies this, data
      ensures Valid() && at == old(at) + 8 && Done() == old(Done()) + LittleEndian(x, 8)
      ensures Outside() == old(Outside())
    {
      WriteBytes(LittleEndian(x, 8));
    }
  }

  method TransactionFromBuffer(c: Crypto, buffer: array<byte>, start: nat) returns (t: Transaction)
    requires start + TRANSACTION_SIZE <= buffer.Length
    ensures t == DecodeTransaction(c, buffer[start..start + TRANSACTION_SIZE])
  {
    hide Word32, Word64;
    var cursor := new Cursor(buffer, start, start + TRANSACTION_SIZE);
    assert cursor.Rest() == buffer[start..start + TRANSACTION_SIZE];
    hide Cursor.Rest, Cursor.Valid;
    var signature := cursor.ReadBytes(64);
    var key := cursor.ReadBytes(32);
    var timestamp := cursor.ReadUint64();
    var to := cursor.ReadBytes(25);
    var amount := cursor.ReadUint64();
    var fee := cursor.ReadUint64();
    ghost var last := cursor.Rest();
    var flag := cursor.ReadUint32();
    assert |last| == 4 && last[..4] == last;
    t := if flag > 0 then Fee(to, amount, fee, timestamp, signature, key)
         else Transfer(c.addressOf(key), to, amount, fee, timestamp, signature, key);
  }

  method HeaderFromBuffer(buffer: array<byte>, start: nat) returns (h: Header)
    requires start + HEADER_SIZE <= buffer.Length
    ensures h == DecodeHeader(buffer[start..start + HEADER_SIZE])
  {
    hide Word32, Word64;
    var cursor := new Cursor(buffer, start, start + HEADER_SIZE);
    assert cursor.Rest() == buffer[start..start + HEADER_SIZE];
    hide Cursor.Rest, Cursor.Valid;
    var id := cursor.ReadUint32();
    var timestamp := cursor.ReadUint64();
    var difficulty := cursor.ReadUint32();
    var numTransactions := cursor.ReadUint32();
    var lastBlockHash := cursor.ReadBytes(32);
    var merkleRoot := cursor.ReadBytes(32);
    ghost var last := cursor.Rest();
    var nonce := cursor.ReadBytes(32);
    assert |last| == 32 && last[..32] == last;
    h := Header(id, timestamp, difficulty, numTransactions, lastBlockHash, merkleRoot, nonce);
  }

  /** Writes one record and nothing else. */
  method TransactionToBuffer(t: Transaction, buffer: array<byte>, start: nat)
    requires start + TRANSACTION_SIZE <= buffer.Length
    modifies buffer
    ensures buffer[..start] == old(buffer[..start])
    ensures buffer[start..start + TRANSACTION_SIZE] == EncodeTransaction(t)
    ensures buffer[start + TRANSACTION_SIZE..] == old(buffer[start + TRANSACTION_SIZE..])
  {
    hide LittleEndian, Flag;
    var cursor := new Cursor(buffer, start, start + TRANSACTION_SIZE);
    ghost var before, behind := buffer[..start], buffer[cursor.end..];
    assert cursor.Done() == [] && cursor.Outside() == before + behind;
    hide Cursor.Done, Cursor.Outside, Cursor.Valid;
    cursor.WriteBytes(t.signature);
    cursor.WriteBytes(t.signingKey);
    cursor.WriteUint64(t.timestamp);
    cursor.WriteBytes(t.to);
    cursor.WriteUint64(t.amount);
    cursor.WriteUint64(t.fee);
    cursor.WriteUint32(Flag(t));
    LeftToRight(t.signature, t.signingKey, LittleEndian(t.timestamp, 8), t.to, LittleEndian(t.amount, 8),
                LittleEndian(t.fee, 8), LittleEndian(Flag(t), 4));
    WholeRecord(cursor, before, behind);
  }

  lemma LeftToRight(a: seq<byte>, b: seq<byte>, c: seq<byte>, d: seq<byte>, e: seq<byte>, f: seq<byte>, g: seq<byte>)
    ensures [] + a + b + c + d + e + f + g == a + (b + (c + (d + (e + (f + g)))))
  {
    assert [] + a == a;
    assert e + (f + g) == e + f + g;
    assert d + (e + f + g) == d + e + f + g;
    assert c + (d + e + f + g) == c + d + e + f + g;
    assert b + (c + d + e + f + g) == b + c + d + e + f + g;
  }

  lemma WholeRecord(cursor: Cursor, before: seq<byte>, behind: seq<byte>)
    requires cursor.Valid() && cursor.at == cursor.end
    requires cursor.Outside() == before + behind && |before| == cursor.start
    ensures cursor.data[cursor.start..cursor.end] == cursor.Done()
    ensures cursor.data[..cursor.start] == before && cursor.data[cursor.end..] == behind
  {
    Split(before, behind);
    Split(cursor.data[..cursor.start], cursor.data[cursor.end..]);
  }

  method HeaderToBuffer(h: Header, buffer: array<byte>, start: nat)
    requires start + HEADER_SIZE <= buffer.Length
    modifies buffer
    ensures buffer[..start] == old(buffer[..start])
    ensures buffer[start..start + HEADER_SIZE] == EncodeHeader(h)
    ensures buffer[start + HEADER_SIZE..] == old(buffer[start + HEADER_SIZE..])
  {
    hide LittleEndian;
    var cursor := new Cursor(buffer, start, start + HEADER_SIZE);
    ghost var before, behind := buffer[..start], buffer[cursor.end..];
    assert cursor.Done() == [] && cursor.Outside() == before + behind;
    hide Cursor.Done, Cursor.Outside, Cursor.Valid;
    cursor.WriteUint32(h.id);
    cursor.WriteUint64(h.timestamp);
    cursor.WriteUint32(h.difficulty);
    cursor.WriteUint32(h.numTransactions);
    cursor.WriteBytes(h.lastBlockHash);
    cursor.WriteBytes(h.merkleRoot);
    cursor.WriteBytes(h.nonce);
    LeftToRight(LittleEndian(h.id, 4), LittleEndian(h.timestamp, 8), LittleEndian(h.difficulty, 4),
                LittleEndian(h.numTransactions, 4), h.lastBlockHash, h.merkleRoot, h.nonce);
    WholeRecord(cursor, before, behind);
  }

  // ----- blocks and streams of blocks -----

  function EncodeTransactions(txs: seq<Transaction>): (s: seq<byte>)
    ensures |s| == TRANSACTION_SIZE * |txs|
  {
    if txs == [] then [] else EncodeTransactions(txs[..|txs| - 1]) + EncodeTransaction(txs[|txs| - 1])
  }

  function DecodeTransactions(c: Crypto, s: seq<byte>, n: nat): (txs: seq<Transaction>)
    requires |s| == TRANSACTION_SIZE * n
    ensures |txs| == n
  {
    if n == 0 then []
    else DecodeTransactions(c, s[..TRANSACTION_SIZE * (n - 1)], n - 1)
         + [DecodeTransaction(c, s[TRANSACTION_SIZE * (n - 1)..])]
  }

  function EncodeBlock(b: Block): seq<byte>
    requires |b.transactions| < 0x1_0000_0000
  {
    EncodeHeader(b.Serialize()) + EncodeTransactions(b.transactions)
  }

  /** The blocks of a stream, one or more; a stream that ends inside a block makes the
      program read past its end, which has no meaning here. */
  function Parse(c: Crypto, s: seq<byte>): Option<seq<Block>>
    decreases |s|
  {
    if |s| < HEADER_SIZE then None
    else
      var h := DecodeHeader(s[..HEADER_SIZE]);
      var size := HEADER_SIZE + TRANSACTION_SIZE * h.numTransactions;
      if |s| < size then None
      else
        var b := BlockOf(h, DecodeTransactions(c, s[HEADER_SIZE..size], h.numTransactions));
        if |s| == size then Some([b])
        else
          var rest := Parse(c, s[size..]);
          if rest.None? then None else Some([b] + rest.value)
  }

  predicate Sendable(c: Crypto, b: Block) {
    |b.transactions| < 0x1_0000_0000 && forall t <- b.transactions :: SenderMatches(c, t)
  }

  /** The raw data of the blocks, one after another. */
  function Stream(blocks: seq<Block>): seq<byte>
    requires forall b <- blocks :: |b.transactions| < 0x1_0000_0000
  {
    if blocks == [] then [] else EncodeBlock(blocks[0]) + Stream(blocks[1..])
  }

  lemma {:induction false} TransactionsRoundTrip(c: Crypto, txs: seq<Transaction>)
    ensures DecodeTransactions(c, EncodeTransactions(txs), |txs|) == txs <==> forall t <- txs :: SenderMatches(c, t)
  {
    hide EncodeTransaction, DecodeTransaction, SenderMatches;
    if txs == [] {
    } else {
      var front, t := txs[..|txs| - 1], txs[|txs| - 1];
      TransactionsRoundTrip(c, front);
      TransactionRoundTrip(c, t);
      Split(EncodeTransactions(front), EncodeTransaction(t));
      assert txs == front + [t];
      assert forall x :: x in txs <==> x in front || x == t;
    }
  }

  lemma BlockRoundTrip(c: Crypto, b: Block)
    requires |b.transactions| < 0x1_0000_0000
    ensures var s := EncodeBlock(b);
            && DecodeHeader(s[..HEADER_SIZE]) == b.Serialize()
            && (BlockOf(b.Serialize(), DecodeTransactions(c, s[HEADER_SIZE..], |b.transactions|)) == b
                <==> Sendable(c, b))
  {
    hide EncodeHeader, DecodeHeader, EncodeTransactions, DecodeTransactions;
    Split(EncodeHeader(b.Serialize()), EncodeTransactions(b.transactions));
    HeaderRoundTrip(b.Serialize());
    TransactionsRoundTrip(c, b.transactions);
  }

  /** Any nonempty list of blocks comes back from its stream as it was sent, exactly
      if every sender is the one its key gives. */
  lemma {:induction false} StreamRoundTrip(c: Crypto, blocks: seq<Block>)
    requires blocks != [] && forall b <- blocks :: |b.transactions| < 0x1_0000_0000
    ensures Parse(c, Stream(blocks)).Some? && |Parse(c, Stream(blocks)).value| == |blocks|
    ensures Parse(c, Stream(blocks)) == Some(blocks) <==> forall b <- blocks :: Sendable(c, b)
  {
    hide EncodeHeader, DecodeHeader, EncodeTransactions, DecodeTransactions, Sendable;
    var b, later := blocks[0], blocks[1..];
    var e := EncodeBlock(b);
    BlockRoundTrip(c, b);
    Split(e, Stream(later));
    assert Stream(blocks)[..HEADER_SIZE] == e[..HEADER_SIZE];
    assert Stream(blocks)[HEADER_SIZE..|e|] == e[HEADER_SIZE..];
    assert blocks == [b] + later;
    assert forall x :: x in blocks <==> x == b || x in later;
    if later == [] {
      assert blocks == [b] && Stream(blocks) == e;
      var d := BlockOf(b.Serialize(), DecodeTransactions(c, e[HEADER_SIZE..], |b.transactions|));
      assert Parse(c, e) == Some([d]) && ([d] == [b] <==> [d][0] == b);
    } else {
      StreamRoundTrip(c, later);
      assert |Stream(later)| > 0 by {
        assert |EncodeBlock(later[0])| >= HEADER_SIZE;
      }
    }
  }

  /** The raw data of a stored block, in a buffer of exactly its size. */
  method GetRawData(store: BlockStore, blockId: uint32) returns (r: Option<seq<byte>>)
    ensures forall b: Block | b.id == blockId && Stored(store.headers, store.transactions, b) ::
            r == Some(EncodeBlock(b))
    ensures r.Some? ==> blockId in store.headers
  {
    if blockId !in store.headers {
      return None;
    }
    var h := store.headers[blockId];
    var numBytes := HEADER_SIZE + TRANSACTION_SIZE * h.numTransactions;
    var buffer := new byte[numBytes];
    HeaderToBuffer(h, buffer, 0);
    var at := HEADER_SIZE;
    ghost var txs: seq<Transaction> := [];
    assert buffer[..at] == EncodeHeader(h) + [];
    for i := 0 to h.numTransactions
      invariant at == HEADER_SIZE + TRANSACTION_SIZE * i && |txs| == i
      invariant buffer[..at] == EncodeHeader(h) + EncodeTransactions(txs)
      invariant forall k: uint32 | k < i ::
              (blockId, k) in store.transactions && txs[k] == store.transactions[(blockId, k)]
    {
      if (blockId, i) !in store.transactions {
        return None;
      }
      var t := store.transactions[(blockId, i)];
      TransactionToBuffer(t, buffer, at);
      OneMoreRecord(buffer[..], at, h, txs, t);
      txs := txs + [t];
      at := at + TRANSACTION_SIZE;
    }
    r := Some(buffer[..]);
    forall b: Block | b.id == blockId && Stored(store.headers, store.transactions, b)
      ensures r == Some(EncodeBlock(b))
    {
      assert forall k: uint32 | k < |txs| :: (b.id, k) in store.transactions && txs[k] == b.transactions[k];
      assert txs == b.transactions && buffer[..at] == buffer[..];
    }
  }

  lemma OneMoreRecord(buffer: seq<byte>, at: nat, h: Header, txs: seq<Transaction>, t: Transaction)
    requires at + TRANSACTION_SIZE <= |buffer|
    requires buffer[..at] == EncodeHeader(h) + EncodeTransactions(txs)
    requires buffer[at..at + TRANSACTION_SIZE] == EncodeTransaction(t)
    ensures buffer[..at + TRANSACTION_SIZE] == EncodeHeader(h) + EncodeTransactions(txs + [t])
  {
    hide EncodeHeader, EncodeTransaction;
    assert (txs + [t])[..|txs|] == txs;
    assert buffer[..at + TRANSACTION_SIZE] == buffer[..at] + buffer[at..at + TRANSACTION_SIZE];
  }

  /** Reads transactions one after another. */
  method ReadTransactions(c: Crypto, bytes: array<byte>, start: nat, n: nat) returns (txs: seq<Transaction>)
    requires start + TRANSACTION_SIZE * n <= bytes.Length
    ensures txs == DecodeTransactions(c, bytes[start..start + TRANSACTION_SIZE * n], n)
  {
    hide DecodeTransaction;
    txs := [];
    var at := start;
    for i := 0 to n
      invariant at == start + TRANSACTION_SIZE * i
      invariant txs == DecodeTransactions(c, bytes[start..at], i)
    {
      var t := TransactionFromBuffer(c, bytes, at);
      ghost var s := bytes[start..at + TRANSACTION_SIZE];
      assert s[..TRANSACTION_SIZE * i] == bytes[start..at];
      assert s[TRANSACTION_SIZE * i..] == bytes[at..at + TRANSACTION_SIZE];
      txs := txs + [t];
      at := at + TRANSACTION_SIZE;
    }
  }

  /** The blocks read so far are those before `at`. */
  ghost predicate ReadUpTo(c: Crypto, s: seq<byte>, read: seq<Block>, at: nat) {
    at <= |s| && Parse(c, s) == if Parse(c, s[at..]).None? then None else Some(read + Parse(c, s[at..]).value)
  }

  lemma ReadFromStart(c: Crypto, s: seq<byte>)
    ensures ReadUpTo(c, s, [], 0)
  {
    assert s[0..] == s;
    assert Parse(c, s).Some? ==> [] + Parse(c, s).value == Parse(c, s).value;
  }

  lemma ReadOneBlock(c: Crypto, s: seq<byte>, read: seq<Block>, at: nat, h: Header, end: nat, txs: seq<Transaction>)
    requires ReadUpTo(c, s, read, at) && end == at + HEADER_SIZE + TRANSACTION_SIZE * h.numTransactions <= |s|
    requires h == DecodeHeader(s[at..at + HEADER_SIZE])
    requires txs == DecodeTransactions(c, s[at + HEADER_SIZE..end], h.numTransactions)
    ensures if end == |s| then Parse(c, s) == Some(read + [BlockOf(h, txs)])
            else ReadUpTo(c, s, read + [BlockOf(h, txs)], end)
  {
    hide DecodeHeader, DecodeTransactions;
    var rest := s[at..];
    assert rest[..HEADER_SIZE] == s[at..at + HEADER_SIZE];
    assert rest[HEADER_SIZE..end - at] == s[at + HEADER_SIZE..end];
    assert rest[end - at..] == s[end..];
    var b := BlockOf(h, txs);
    if end < |s| && Parse(c, s[end..]).Some? {
      assert read + ([b] + Parse(c, s[end..]).value) == read + [b] + Parse(c, s[end..]).value;
    }
  }

  lemma ReadsPastEnd(c: Crypto, s: seq<byte>, read: seq<Block>, at: nat, h: Header)
    requires ReadUpTo(c, s, read, at) && at + HEADER_SIZE <= |s| && h == DecodeHeader(s[at..at + HEADER_SIZE])
    requires at + HEADER_SIZE + TRANSACTION_SIZE * h.numTransactions > |s|
    ensures Parse(c, s) == None
  {
    hide DecodeHeader, DecodeTransactions;
    assert s[at..][..HEADER_SIZE] == s[at..at + HEADER_SIZE];
  }

  /** Reads blocks until the stream is used up, or gives up where the program would
      read past its end. */
  method ReadRawBlocks(c: Crypto, bytes: array<byte>) returns (blocks: Option<seq<Block>>)
    ensures blocks == Parse(c, bytes[..])
  {
    hide DecodeHeader, DecodeTransactions, Parse;
    var read: seq<Block> := [];
    var at := 0;
    ReadFromStart(c, bytes[..]);
    while true
      invariant at <= bytes.Length && ReadUpTo(c, bytes[..], read, at)
      decreases bytes.Length - at
    {
      if bytes.Length < at + HEADER_SIZE {
        ParseShort(c, bytes[at..]);
        return None;
      }
      var h := HeaderFromBuffer(bytes, at);
      assert bytes[..][at..at + HEADER_SIZE] == bytes[at..at + HEADER_SIZE];
      var size := HEADER_SIZE + TRANSACTION_SIZE * h.numTransactions;
      if bytes.Length < at + size {
        ReadsPastEnd(c, bytes[..], read, at, h);
        return None;
      }
      var txs := ReadTransactions(c, bytes, at + HEADER_SIZE, h.numTransactions);
      assert bytes[..][at + HEADER_SIZE..at + size] == bytes[at + HEADER_SIZE..at + size];
      ReadOneBlock(c, bytes[..], read, at, h, at + size, txs);
      read := read + [BlockOf(h, txs)];
      at := at + size;
      if at >= bytes.Length {
        return Some(read);
      }
    }
  }

  lemma ParseShort(c: Crypto, s: seq<byte>)
    requires |s| < HEADER_SIZE
    ensures Parse(c, s) == None
  {
  }
}
