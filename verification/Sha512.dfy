/** Streaming SHA-512: buffering, padding and length, around an uninterpreted
    compression function. */
module Sha512 {
  import opened Words
  import opened HashBlocks

  type State = seq<uint64>

  const H0: State :=
    [0x6a09e667f3bcc908, 0xbb67ae8584caa73b, 0x3c6ef372fe94f82b, 0xa54ff53a5f1d36f1,
     0x510e527fade682d1, 0x9b05688c2b3e6c1f, 0x1f83d9abfb41bd6b, 0x5be0cd19137e2179]

  /** Unsigned 64-bit arithmetic wraps around. */
  function Wrap64(x: nat): uint64 { x % TWO_64 }

  /** The padded message with its length in bits cut to 64 bits. */
  function Padded(m: seq<byte>): seq<byte> {
    PaddedFront(m) + BigEndian(Wrap64(8 * |m|), 8)
  }

  /** The message, the one bit, and the zeros up to the last eight bytes. */
  function PaddedFront(m: seq<byte>): seq<byte> {
    m + [0x80] + Zeros(ZeroCount(|m| % 128, 128, 16) + 8)
  }

  /** The padding of FIPS 180-4, section 5.1.2: the length takes 128 bits. */
  function FipsPadded(m: seq<byte>): seq<byte> {
    m + [0x80] + Zeros(ZeroCount(|m| % 128, 128, 16)) + BigEndian(8 * |m|, 16)
  }

  class Context {
    const compress: (State, seq<byte>) -> State
    const buf: array<byte>
    var curlen: nat
    var length: uint64
    var state: State
    ghost var fed: seq<byte>   // everything that has been hashed so far

    ghost predicate Valid()
      reads this, buf
    {
      Folded() && length == Wrap64(8 * (|fed| - curlen))
    }

    /** All of the message but what is buffered has been folded into the state. */
    ghost predicate Folded()
      reads this, buf
    {
      && buf.Length == 128 && curlen < 128 && curlen <= |fed|
      && (|fed| - curlen) % 128 == 0
      && buf[..curlen] == fed[|fed| - curlen..]
      && state == Fold(compress, H0, fed[..|fed| - curlen], 128)
    }

    constructor (compress: (State, seq<byte>) -> State)
      ensures Valid() && fed == [] && this.compress == compress && fresh(buf)
    {
      this.compress := compress;
      buf := new byte[128];
      state, curlen, length, fed := H0, 0, 0, [];
    }

    /** Hashes a whole block straight from the message. */
    method TakeBlock(b: seq<byte>)
      requires Valid() && curlen == 0 && |b| == 128
      modifies this
      ensures Valid() && curlen == 0 && fed == old(fed) + b
    {
      hide Wrap64, Fold;
      assert fed[..|fed|] == fed && (fed + b)[..|fed + b|] == fed + b;
      FoldSnoc(compress, H0, fed, b, 128);
      NextLength(|fed|);
      state := compress(state, b);
      length := Wrap64(length + 8 * 128);
      fed := fed + b;
    }

    method CopyPart(b: seq<byte>)
      requires curlen + |b| <= buf.Length
      modifies buf
      ensures buf[..curlen] == old(buf[..curlen]) && buf[curlen..curlen + |b|] == b
    {
      for i := 0 to |b|
        invariant buf[..curlen] == old(buf[..curlen])
        invariant forall k :: 0 <= k < i ==> buf[curlen + k] == b[k]
      {
        buf[i + curlen] := b[i];
      }
    }

    /** Buffers what fits, and hashes the buffer once it is full. */
    method TakePart(b: seq<byte>)
      requires Valid() && curlen + |b| <= 128
      modifies this, buf
      ensures Valid() && fed == old(fed) + b
    {
      hide Wrap64, Fold;
      ghost var done := fed[..|fed| - curlen];
      CopyPart(b);
      assert buf[..curlen + |b|] == buf[..curlen] + b;
      assert fed + b == done + buf[..curlen + |b|];
      fed := fed + b;
      curlen := curlen + |b|;
      assert fed[..|done|] == done;
      if curlen == 128 {
        FoldBuffer(done);
      }
    }

    /** Hashes the full buffer. */
    method FoldBuffer(ghost done: seq<byte>)
      requires buf.Length == 128 && fed == done + buf[..128] && |done| % 128 == 0
      requires state == Fold(compress, H0, done, 128) && length == Wrap64(8 * |done|)
      modifies this`state, this`length, this`curlen
      ensures Valid()
    {
      hide Wrap64, Fold;
      assert buf[..] == buf[..128] && fed[..|fed|] == fed;
      FoldSnoc(compress, H0, done, buf[..], 128);
      NextLength(|done|);
      state := compress(state, buf[..]);
      length := Wrap64(length + 8 * 128);
      curlen := 0;
    }

    lemma HasRoom()
      requires Valid()
      ensures curlen < buf.Length == 128
    {
    }

    /** Hashes more of the message. */
    method Update(message: seq<byte>) returns (err: int)
      requires Valid()
      modifies this, buf
      ensures err == 0 && Valid() && fed == old(fed) + message
    {
      hide Valid, Folded;
      HasRoom();
      if curlen > buf.Length {
        return 1;
      }
      var at := 0;
      assert old(fed) + message[..0] == old(fed);
      while at < |message|
        invariant 0 <= at <= |message| && Valid() && fed == old(fed) + message[..at]
        decreases |message| - at
      {
        var n;
        HasRoom();
        if curlen == 0 && |message| - at >= 128 {
          n := 128;
          TakeBlock(message[at..at + n]);
        } else {
          n := if |message| - at < 128 - curlen then |message| - at else 128 - curlen;
          TakePart(message[at..at + n]);
        }
        assert message[..at] + message[at..at + n] == message[..at + n];
        at := at + n;
      }
      assert message[..|message|] == message;
      err := 0;
    }

    /** Writes n zeros behind what is buffered. */
    method PadZeros(n: nat)
      requires curlen + n <= buf.Length
      modifies this`curlen, buf
      ensures curlen == old(curlen) + n
      ensures buf[..curlen] == old(buf[..curlen]) + Zeros(n)
    {
      ghost var was := buf[..curlen];
      var end := curlen + n;
      while curlen < end
        invariant old(curlen) <= curlen <= end <= buf.Length
        invariant buf[..curlen] == was + Zeros(curlen - old(curlen))
      {
        buf[curlen] := 0;
        curlen := curlen + 1;
        assert buf[..curlen] == buf[..curlen - 1] + [0];
      }
    }

    /** Appends the one bit and the zeros in front of the length, folding the buffer
        first if they do not fit in it.  What has been folded is returned. */
    method PadTail() returns (ghost done: seq<byte>)
      requires Folded()
      modifies this`curlen, this`state, buf
      ensures state == Fold(compress, H0, done, 128)
      ensures done + buf[..120] == PaddedFront(fed)
    {
      hide Wrap64, Fold, Zeros;
      done := fed[..|fed| - curlen];
      ghost var rem := curlen;
      PaddedPieces(fed, rem);
      assert fed == done + buf[..curlen];
      buf[curlen] := 0x80;
      curlen := curlen + 1;
      assert done + buf[..curlen] == fed + [0x80];
      if curlen > 112 {
        PadZeros(128 - curlen);
        assert buf[..128] == buf[..];
        FoldSnoc(compress, H0, done, buf[..], 128);
        state := compress(state, buf[..]);
        done := done + buf[..];
        curlen := 0;
        assert done == fed + [0x80] + Zeros(127 - rem);
      }
      PadZeros(120 - curlen);
    }

    /** Pads, folds the last one or two blocks, and writes the state out. */
    method Final() returns (err: int, out: seq<byte>)
      requires Valid()
      modifies this`curlen, this`length, this`state, buf
      ensures err == 0 && out == Digest(Fold(compress, H0, Padded(fed), 128), 8)
    {
      hide Wrap64, Fold, BigEndian, PaddedFront, Digest;
      out := [];
      if curlen >= buf.Length {
        return 1, out;
      }
      LastLength(|fed| - curlen, curlen);
      length := Wrap64(length + curlen * 8);
      ghost var done := PadTail();
      Store64(length);
      assert done + buf[..] == done + buf[..120] + buf[120..];
      FoldSnoc(compress, H0, done, buf[..], 128);
      state := compress(state, buf[..]);
      err := 0;
      out := WriteWords(state, 8);
    }

    method Store64(x: uint64)
      requires buf.Length == 128
      modifies buf
      ensures buf[..120] == old(buf[..120]) && buf[120..] == BigEndian(x, 8)
    {
      var s := BigEndian(x, 8);
      for i := 0 to 8
        invariant buf[..120] == old(buf[..120]) && forall k :: 0 <= k < i ==> buf[120 + k] == s[k]
      {
        buf[120 + i] := s[i];
      }
    }
  }

  lemma LastLength(n: nat, rest: nat)
    ensures Wrap64(Wrap64(8 * n) + rest * 8) == Wrap64(8 * (n + rest))
  {
    ModAdds(8 * n, rest * 8, TWO_64);
  }

  lemma NextLength(n: nat)
    requires n % 128 == 0
    ensures Wrap64(Wrap64(8 * n) + 8 * 128) == Wrap64(8 * (n + 128)) && (n + 128) % 128 == 0
  {
    LastLength(n, 128);
  }

  lemma PaddedPieces(fed: seq<byte>, rem: nat)
    requires rem < 128 && rem <= |fed| && (|fed| - rem) % 128 == 0
    ensures PaddedFront(fed) == fed + [0x80]
      + (if rem + 1 > 112 then Zeros(127 - rem) + Zeros(120) else Zeros(119 - rem))
  {
    hide Zeros;
    RestOfMultiple(|fed| - rem, rem, 128);
    if rem + 1 > 112 {
      assert Zeros(127 - rem) + Zeros(120) == Zeros(247 - rem);
    }
  }

  /** The hash is that of FIPS 180-4 exactly for messages below 2^61 bytes: only the
      low 64 bits of the length are written. */
  lemma PaddedIsFips(m: seq<byte>)
    requires |m| < 0x2000_0000_0000_0000_0000_0000_0000_0000   // the standard's own limit
    ensures Padded(m) == FipsPadded(m) <==> |m| < 0x2000_0000_0000_0000
  {
    hide ZeroCount, BigEndian, Zeros, Wrap64, Span, FromBigEndian;
    var k, x := ZeroCount(|m| % 128, 128, 16), Wrap64(8 * |m|);
    Words4And8();
    Span16();
    WrapsFrom(8 * |m|);
    BigEndianWidens(x, 8, 8);
    ZerosJoin(k, 8);
    assert Padded(m) == m + [0x80] + Zeros(k) + BigEndian(x, 16);
    assert Padded(m)[|m| + 1 + k..] == BigEndian(x, 16);
    assert FipsPadded(m)[|m| + 1 + k..] == BigEndian(8 * |m|, 16);
    BigEndianInverse(x, 16);
    BigEndianInverse(8 * |m|, 16);
  }

  lemma WrapsFrom(x: nat)
    ensures Wrap64(x) == x <==> x < TWO_64
  {
  }

  lemma Span16()
    ensures Span(16) == 0x1_0000_0000_0000_0000_0000_0000_0000_0000
  {
    Words4And8();
    assert Span(9) == 256 * Span(8);
    assert Span(10) == 0x1_0000 * Span(8);
    assert Span(12) == 0x1_0000 * Span(10);
    assert Span(14) == 0x1_0000 * Span(12);
  }

  /** The whole message at once. */
  method Hash(compress: (State, seq<byte>) -> State, message: seq<byte>) returns (ret: int, out: seq<byte>)
    requires |message| < TWO_64
    ensures ret == 0 && out == Digest(Fold(compress, H0, Padded(message), 128), 8)
    ensures |message| < 0x2000_0000_0000_0000 ==> out == Digest(Fold(compress, H0, FipsPadded(message), 128), 8)
  {
    hide Fold, Padded, FipsPadded, Digest;
    out := [];
    var ctx := new Context(compress);
    ret := ctx.Update(message);
    if ret != 0 {
      return;
    }
    assert ctx.fed == message;
    ret, out := ctx.Final();
    PaddedIsFips(message);
  }

  /** However the message is split, its hash is the same. */
  method HashPieces(compress: (State, seq<byte>) -> State, pieces: seq<seq<byte>>) returns (ret: int, out: seq<byte>)
    ensures ret == 0 && out == Digest(Fold(compress, H0, Padded(Joined(pieces)), 128), 8)
    ensures |Joined(pieces)| < 0x2000_0000_0000_0000 ==>
              out == Digest(Fold(compress, H0, FipsPadded(Joined(pieces)), 128), 8)
  {
    hide Fold, Padded, FipsPadded, Digest;
    var ctx := new Context(compress);
    for i := 0 to |pieces|
      invariant ctx.Valid() && ctx.compress == compress && fresh(ctx) && fresh(ctx.buf)
      invariant ctx.fed == Joined(pieces[..i])
    {
      assert pieces[..i + 1][..i] == pieces[..i];
      ret := ctx.Update(pieces[i]);
    }
    assert pieces[..|pieces|] == pieces;
    ret, out := ctx.Final();
    if |Joined(pieces)| < 0x2000_0000_0000_0000 {
      PaddedIsFips(Joined(pieces));
    }
  }

  /** The initial words, as in section 5.3.5 of FIPS 180-4: the first 64 bits of the
      fractional parts of the square roots of the first eight primes. */
  lemma InitialWords(i: nat)
    requires i < 8
    ensures |H0| == 8
    ensures var p, k := [2, 3, 5, 7, 11, 13, 17, 19][i], [1, 1, 2, 2, 3, 3, 4, 4][i];
            && k * k < p < (k + 1) * (k + 1)
            && Square(k * 0x1_0000_0000_0000_0000 + H0[i])
               <= p * 0x1_0000_0000_0000_0000_0000_0000_0000_0000
               < Square(k * 0x1_0000_0000_0000_0000 + H0[i] + 1)
  {
    if i < 4 {
      assert i == 0 || i == 1 || i == 2 || i == 3;
    } else {
      assert i == 4 || i == 5 || i == 6 || i == 7;
    }
  }

  function Square(x: nat): nat { x * x }

  /** Below 2^125 bytes the standard's padding is what section 5.1.2 asks for, and the
      program's always is but for the length, which is cut to 64 bits. */
  lemma PadsAsAsked(m: seq<byte>)
    ensures |m| < 0x2000_0000_0000_0000_0000_0000_0000_0000 ==> PadsOut(FipsPadded(m), m, 128, 16, 8 * |m|)
    ensures PadsOut(Padded(m), m, 128, 16, 8 * |m| % 0x1_0000_0000_0000_0000)
  {
    hide BigEndian, Zeros, ZeroCount, PadsOut;
    Words4And8();
    Span16();
    var k, x := ZeroCount(|m| % 128, 128, 16), Wrap64(8 * |m|);
    if |m| < 0x2000_0000_0000_0000_0000_0000_0000_0000 {
      PaddingPadsOut(m, 128, 16, 8 * |m|);
    }
    PaddingPadsOut(m, 128, 16, x);
    BigEndianWidens(x, 8, 8);
    ZerosJoin(k, 8);
    assert Padded(m) == m + [0x80] + Zeros(k) + BigEndian(x, 16);
  }
}
