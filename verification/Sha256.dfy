/** Streaming SHA-256: buffering, padding and length, around an uninterpreted
    compression function. */
module Sha256 {
  import opened Words
  import opened HashBlocks

  const BLOCK := 64
  const TWO_32: int := 0x1_0000_0000

  /** Unsigned 32-bit arithmetic wraps around. */
  function Wrap32(x: nat): (r: uint32)
    ensures x < TWO_32 ==> r == x
    ensures TWO_32 <= x < 2 * TWO_32 ==> r == x - TWO_32
  {
    x % TWO_32
  }

  type State = seq<uint32>

  const H0: State :=
    [0x6a09e667, 0xbb67ae85, 0x3c6ef372, 0xa54ff53a, 0x510e527f, 0x9b05688c, 0x1f83d9ab, 0x5be0cd19]

  /** The padded message with its length in bits cut to 32 bits. */
  function Padded(m: seq<byte>): seq<byte> {
    m + [0x80] + Zeros(ZeroCount(|m| % 64, 64, 8) + 4) + BigEndian(Wrap32(8 * |m|), 4)
  }

  /** The padding of FIPS 180-4, section 5.1.1: the length takes 64 bits. */
  function FipsPadded(m: seq<byte>): seq<byte> {
    m + [0x80] + Zeros(ZeroCount(|m| % 64, 64, 8)) + BigEndian(8 * |m|, 8)
  }

  /** What is hashed once p follows what was hashed before. */
  function Followed(before: seq<byte>, p: seq<byte>): seq<byte>
    requires |p| < TWO_32
  {
    if Fits(before, p) then before + p else before[..|before| + |p| - TWO_32]
  }

  /** Together with what is buffered, the length of p does not wrap around. */
  predicate Fits(before: seq<byte>, p: seq<byte>) { |before| % 64 + |p| < TWO_32 }

  class Context {
    const compress: (State, seq<byte>) -> State
    const block: array<byte>
    var len: uint32
    var totLen: uint32
    var h: State
    ghost var fed: seq<byte>   // everything that has been hashed so far

    ghost predicate Valid()
      reads this, block
    {
      && block.Length == 2 * BLOCK && len < BLOCK && len <= |fed|
      && (|fed| - len) % 64 == 0
      && totLen == Wrap32(|fed| - len)
      && block[..len] == fed[|fed| - len..]
      && h == Fold(compress, H0, fed[..|fed| - len], 64)
    }

    constructor (compress: (State, seq<byte>) -> State)
      ensures Valid() && fed == [] && this.compress == compress && fresh(block)
    {
      this.compress := compress;
      block := new byte[128];
      h, len, totLen, fed := H0, 0, 0, [];
    }

    /** Folds the first n blocks of the message into the state. */
    method Transform(message: seq<byte>, n: nat, ghost before: seq<byte>)
      requires 64 * n <= |message| && h == Fold(compress, H0, before, 64)
      modifies this`h
      ensures h == Fold(compress, H0, before + message[..64 * n], 64)
    {
      assert before + message[..0] == before;
      for i := 0 to n
        invariant h == Fold(compress, H0, before + message[..64 * i], 64)
      {
        FoldSnoc(compress, H0, before + message[..64 * i], message[64 * i..64 * i + 64], 64);
        assert before + message[..64 * i] + message[64 * i..64 * i + 64] == before + message[..64 * (i + 1)];
        h := compress(h, message[64 * i..64 * i + 64]);
      }
    }

    method CopyIn(at: nat, s: seq<byte>)
      requires at + |s| <= block.Length
      modifies block
      ensures block[..at] == old(block[..at]) && block[at..at + |s|] == s
      ensures block[at + |s|..] == old(block[at + |s|..])
    {
      for i := 0 to |s|
        invariant forall k :: 0 <= k < block.Length ==>
          block[k] == if at <= k < at + i then s[k - at] else old(block[k])
      {
        block[at + i] := s[i];
      }
    }

    /** Hashes more of the message.  A chunk so long that its length wraps with what
        is buffered is not hashed: it takes bytes off the buffer instead. */
    method Update(message: seq<byte>)
      requires Valid() && |message| < TWO_32
      modifies this, block
      ensures Valid() && fed == Followed(old(fed), message)
    {
      hide Fold, Wrap32;
      RestOfMultiple(|fed| - len, len, 64);
      var tmpLen := BLOCK - len;
      var remLen := Least(|message|, tmpLen);
      CopyIn(len, message[..remLen]);
      if Wrap32(len + |message|) < BLOCK {
        Hold(message, remLen);
        return;
      }
      assert block[..64] == block[..len] + block[len..len + remLen];
      FoldBlocks(message, remLen);
    }

    /** Leaves the message buffered. */
    method Hold(message: seq<byte>, filled: nat)
      requires block.Length == 128 && len < 64 && len <= |fed| && (|fed| - len) % 64 == 0
      requires totLen == Wrap32(|fed| - len) && h == Fold(compress, H0, fed[..|fed| - len], 64)
      requires |message| < TWO_32 && Wrap32(len + |message|) < 64 && filled == Least(|message|, 64 - len)
      requires block[..len] == fed[|fed| - len..] && block[len..len + filled] == message[..filled]
      modifies this`len, this`fed
      ensures Valid()
      ensures fed == if old(len) + |message| < TWO_32 then old(fed) + message
                     else old(fed)[..|old(fed)| + |message| - TWO_32]
    {
      hide Fold, Wrap32;
      ghost var was := fed;
      fed := if len + |message| < TWO_32 then fed + message else fed[..|fed| + |message| - TWO_32];
      Buffered(was, fed, block[..], len, message, filled);
      len := Wrap32(len + |message|);
    }

    /** Folds the full buffer and every whole block behind it, and buffers the rest. */
    method FoldBlocks(message: seq<byte>, filled: nat)
      requires block.Length == 128 && len < 64 && len <= |fed| && (|fed| - len) % 64 == 0
      requires totLen == Wrap32(|fed| - len) && h == Fold(compress, H0, fed[..|fed| - len], 64)
      requires |message| < TWO_32 && len + |message| >= 64 && filled == 64 - len
      requires block[..64] == fed[|fed| - len..] + message[..filled]
      modifies this, block
      ensures Valid() && fed == old(fed) + message
    {
      hide Fold, Wrap32;
      ghost var done, first := fed[..|fed| - len], block[..64];
      var newLen := |message| - filled;
      var blockNb := newLen / BLOCK;
      var shifted := message[filled..];
      Transform(block[..], 1, done);
      Transform(shifted, blockNb, done + first);
      var remLen := newLen % BLOCK;
      CopyIn(0, shifted[64 * blockNb..]);
      Rejoined(fed, len, message, first, shifted, blockNb);
      WrappedSum(|fed| - len, blockNb + 1);
      fed := fed + message;
      len := remLen;
      totLen := Wrap32(totLen + (blockNb + 1) * 64);
    }

    method Pad(pmLen: nat, lenB: uint32)
      requires block.Length == 128 && len + 9 <= pmLen <= 128
      modifies block
      ensures block[..len] == old(block[..len]) && block[len] == 0x80
      ensures block[len + 1..pmLen - 4] == Zeros(pmLen - len - 5)
      ensures block[pmLen - 4..pmLen] == BigEndian(lenB, 4)
    {
      hide Zeros, BigEndian;
      CopyIn(len, Zeros(pmLen - len));
      ghost var zeroed := block[..];
      block[len] := 0x80;
      assert block[..] == zeroed[len := 0x80];
      ghost var marked := block[..];
      CopyIn(pmLen - 4, BigEndian(lenB, 4));
      ZerosSlice(pmLen - len, 1, pmLen - len - 4);
      assert zeroed[len..pmLen][1..pmLen - len - 4] == marked[len + 1..pmLen - 4];
      assert block[..pmLen - 4][len + 1..] == block[len + 1..pmLen - 4];
      assert block[..pmLen - 4][..len] == block[..len] && marked[..len] == zeroed[..len];
    }

    /** Pads, folds the last one or two blocks, and writes the state out. */
    method Final() returns (digest: seq<byte>)
      requires Valid()
      modifies this`h, block
      ensures digest == Digest(Fold(compress, H0, Padded(fed), 64), 4)
    {
      hide Fold, Wrap32, Digest, Zeros, BigEndian, Padded;
      var blockNb := 1 + (if BLOCK - 9 < len % BLOCK then 1 else 0);
      var lenB := Wrap32(8 * Wrap32(totLen + len));
      var pmLen := 64 * blockNb;
      Pad(pmLen, lenB);
      BitLength(|fed| - len, len);
      PaddedBlocks(fed, len, block[..], pmLen);
      Transform(block[..], blockNb, fed[..|fed| - len]);
      digest := WriteWords(h, 4);
    }
  }

  lemma BitLength(done: nat, len: nat)
    ensures Wrap32(8 * Wrap32(Wrap32(done) + len)) == Wrap32(8 * (done + len))
  {
    WrapOff(done);
    WrapOff(Wrap32(done) + len);
    var j, k := done / TWO_32, (Wrap32(done) + len) / TWO_32;
    DivModUnique(8 * (done + len), TWO_32, 8 * (j + k) + 8 * Wrap32(Wrap32(done) + len) / TWO_32,
                 Wrap32(8 * Wrap32(Wrap32(done) + len)));
  }

  lemma WrapOff(x: nat)
    ensures x == (x / TWO_32) * TWO_32 + Wrap32(x)
  {
  }

  /** The buffer that Final folds completes the padded message. */
  lemma PaddedBlocks(fed: seq<byte>, len: nat, block: seq<byte>, pmLen: nat)
    requires len < 64 && len <= |fed| && (|fed| - len) % 64 == 0
    requires |block| == 128 && pmLen == if len > 55 then 128 else 64
    requires block[..len] == fed[|fed| - len..] && block[len] == 0x80
    requires block[len + 1..pmLen - 4] == Zeros(pmLen - len - 5)
    requires block[pmLen - 4..pmLen] == BigEndian(Wrap32(8 * |fed|), 4)
    ensures fed[..|fed| - len] + block[..pmLen] == Padded(fed)
  {
    hide Zeros, BigEndian, Wrap32;
    RestOfMultiple(|fed| - len, len, 64);
    var zeros, end := Zeros(pmLen - len - 5), BigEndian(Wrap32(8 * |fed|), 4);
    assert block[..len + 1] == block[..len] + [0x80];
    assert block[..pmLen - 4] == block[..len + 1] + zeros;
    assert block[..pmLen] == block[..pmLen - 4] + end;
    assert fed == fed[..|fed| - len] + block[..len];
    assert fed[..|fed| - len] + block[..pmLen] == fed + [0x80] + zeros + end;
  }

  lemma ZerosSlice(n: nat, i: nat, j: nat)
    requires i <= j <= n
    ensures Zeros(n)[i..j] == Zeros(j - i)
  {
  }

  lemma WrappedSum(a: nat, n: nat)
    requires a % 64 == 0
    ensures Wrap32(Wrap32(a) + n * 64) == Wrap32(a + n * 64)
    ensures (a + n * 64) % 64 == 0
  {
    ModAdds(a, n * 64, TWO_32);
    DivModUnique(a + n * 64, 64, a / 64 + n, 0);
  }

  /** The buffer after a chunk that does not fill it, or that wraps. */
  lemma Buffered(was: seq<byte>, fed: seq<byte>, block: seq<byte>, len: nat, m: seq<byte>, rem: nat)
    requires len < 64 && len <= |was| && rem <= |m| && len + rem <= |block|
    requires block[..len] == was[|was| - len..] && block[len..len + rem] == m[..rem]
    requires if len + |m| < TWO_32 then fed == was + m && rem == |m|
             else len + |m| - TWO_32 <= len && fed == was[..|was| + |m| - TWO_32]
    ensures var n := Wrap32(len + |m|);
            && n <= |fed| && |fed| - n == |was| - len
            && fed[..|fed| - n] == was[..|was| - len]
            && n <= |block| && block[..n] == fed[|fed| - n..]
  {
    if len + |m| < TWO_32 {
      assert block[..len + rem] == block[..len] + block[len..len + rem];
    } else {
      var n := len + |m| - TWO_32;
      assert block[..n] == block[..len][..n];
    }
  }

  /** What has been folded after a chunk that fills the buffer, and what is left. */
  lemma Rejoined(fed: seq<byte>, len: nat, m: seq<byte>, first: seq<byte>, rest: seq<byte>, n: nat)
    requires len < 64 && len <= |fed| && len + |m| >= 64
    requires first == fed[|fed| - len..] + m[..64 - len] && rest == m[64 - len..]
    requires 64 * n <= |rest|
    ensures var all := fed + m; var left := |rest| - 64 * n;
            && fed[..|fed| - len] + first + rest[..64 * n] == all[..|all| - left]
            && rest[64 * n..] == all[|all| - left..]
  {
    assert m == m[..64 - len] + rest;
    assert fed == fed[..|fed| - len] + fed[|fed| - len..];
    assert rest == rest[..64 * n] + rest[64 * n..];
    assert fed + m == (fed[..|fed| - len] + first + rest[..64 * n]) + rest[64 * n..];
  }

  /** The hash is that of FIPS 180-4 exactly for messages below 2^29 bytes: only the
      low 32 bits of the length are written. */
  lemma PaddedIsFips(m: seq<byte>)
    requires |m| < 0x2000_0000_0000_0000   // the standard's own limit
    ensures Padded(m) == FipsPadded(m) <==> |m| < 0x2000_0000
  {
    hide ZeroCount, BigEndian, Zeros, Span, FromBigEndian;
    var k, x := ZeroCount(|m| % 64, 64, 8), Wrap32(8 * |m|);
    Words4And8();
    BigEndianWidens(x, 4, 4);
    ZerosJoin(k, 4);
    assert Padded(m) == m + [0x80] + Zeros(k) + BigEndian(x, 8);
    assert Padded(m)[|m| + 1 + k..] == BigEndian(x, 8);
    assert FipsPadded(m)[|m| + 1 + k..] == BigEndian(8 * |m|, 8);
    BigEndianInverse(x, 8);
    BigEndianInverse(8 * |m|, 8);
  }

  /** The whole message at once. */
  method Hash(compress: (State, seq<byte>) -> State, message: seq<byte>) returns (digest: seq<byte>)
    requires |message| < TWO_32
    ensures digest == Digest(Fold(compress, H0, Padded(message), 64), 4)
    ensures |message| < 0x2000_0000 ==> digest == Digest(Fold(compress, H0, FipsPadded(message), 64), 4)
  {
    hide Fold, Padded, FipsPadded, Digest;
    var ctx := new Context(compress);
    ctx.Update(message);
    assert ctx.fed == message;
    digest := ctx.Final();
    PaddedIsFips(message);
  }

  function Taken(pieces: seq<seq<byte>>): seq<byte>
    requires forall p <- pieces :: |p| < TWO_32
  {
    if pieces == [] then [] else Followed(Taken(pieces[..|pieces| - 1]), pieces[|pieces| - 1])
  }

  predicate AllFit(pieces: seq<seq<byte>>) {
    pieces != [] ==>
      AllFit(pieces[..|pieces| - 1]) && Fits(Joined(pieces[..|pieces| - 1]), pieces[|pieces| - 1])
  }

  /** All of the message is hashed exactly if every piece fits. */
  lemma {:induction false} TakenIsJoined(pieces: seq<seq<byte>>)
    requires forall p <- pieces :: |p| < TWO_32
    ensures |Taken(pieces)| <= |Joined(pieces)|
    ensures Taken(pieces) == Joined(pieces) <==> AllFit(pieces)
  {
    if pieces == [] {
    } else {
      hide Followed, Fits;
      var front, p := pieces[..|pieces| - 1], pieces[|pieces| - 1];
      TakenIsJoined(front);
      FollowedAll(Taken(front), Joined(front), p);
    }
  }

  lemma {:induction false} ShortFits(pieces: seq<seq<byte>>)
    requires |Joined(pieces)| < TWO_32
    ensures AllFit(pieces)
  {
    if pieces == [] {
    } else {
      ShortFits(pieces[..|pieces| - 1]);
    }
  }

  lemma FollowedAll(taken: seq<byte>, joined: seq<byte>, p: seq<byte>)
    requires |p| < TWO_32 && |taken| <= |joined|
    ensures |Followed(taken, p)| <= |joined| + |p|
    ensures Followed(taken, p) == joined + p <==> taken == joined && Fits(joined, p)
  {
    if Followed(taken, p) == joined + p {
      assert |Followed(taken, p)| == |joined| + |p|;
      assert Fits(taken, p) && |taken| == |joined|;
      assert (taken + p)[..|taken|] == (joined + p)[..|taken|];
    }
  }

  /** However the message is split, its hash is the same, as long as every piece fits. */
  method HashPieces(compress: (State, seq<byte>) -> State, pieces: seq<seq<byte>>) returns (digest: seq<byte>)
    requires forall p <- pieces :: |p| < TWO_32
    ensures digest == Digest(Fold(compress, H0, Padded(Taken(pieces)), 64), 4)
    ensures AllFit(pieces) ==> digest == Digest(Fold(compress, H0, Padded(Joined(pieces)), 64), 4)
    ensures |Joined(pieces)| < 0x2000_0000 ==>
              digest == Digest(Fold(compress, H0, FipsPadded(Joined(pieces)), 64), 4)
  {
    hide Fold, Padded, FipsPadded, Digest, Wrap32, Followed, AllFit;
    var ctx := new Context(compress);
    for i := 0 to |pieces|
      invariant ctx.Valid() && ctx.compress == compress && fresh(ctx) && fresh(ctx.block)
      invariant ctx.fed == Taken(pieces[..i])
    {
      assert pieces[..i + 1][..i] == pieces[..i];
      ctx.Update(pieces[i]);
    }
    assert pieces[..|pieces|] == pieces;
    TakenIsJoined(pieces);
    digest := ctx.Final();
    if |Joined(pieces)| < 0x2000_0000 {
      ShortFits(pieces);
      PaddedIsFips(Joined(pieces));
    }
  }

  /** The initial words, as in section 5.3.3 of FIPS 180-4: the first 32 bits of the
      fractional parts of the square roots of the first eight primes. */
  lemma InitialWords(i: nat)
    requires i < 8
    ensures |H0| == 8
    ensures var p, k := [2, 3, 5, 7, 11, 13, 17, 19][i], [1, 1, 2, 2, 3, 3, 4, 4][i];
            && k * k < p < (k + 1) * (k + 1)
            && Square(k * 0x1_0000_0000 + H0[i]) <= p * 0x1_0000_0000_0000_0000
               < Square(k * 0x1_0000_0000 + H0[i] + 1)
  {
    if i < 4 {
      assert i == 0 || i == 1 || i == 2 || i == 3;
    } else {
      assert i == 4 || i == 5 || i == 6 || i == 7;
    }
  }

  function Square(x: nat): nat { x * x }

  /** Below 2^61 bytes the standard's padding is what section 5.1.1 asks for, and the
      program's always is but for the length, which is cut to 32 bits. */
  lemma PadsAsAsked(m: seq<byte>)
    ensures |m| < 0x2000_0000_0000_0000 ==> PadsOut(FipsPadded(m), m, 64, 8, 8 * |m|)
    ensures PadsOut(Padded(m), m, 64, 8, 8 * |m| % 0x1_0000_0000)
  {
    hide BigEndian, Zeros, ZeroCount, PadsOut;
    Words4And8();
    var k, x := ZeroCount(|m| % 64, 64, 8), Wrap32(8 * |m|);
    if |m| < 0x2000_0000_0000_0000 {
      PaddingPadsOut(m, 64, 8, 8 * |m|);
    }
    PaddingPadsOut(m, 64, 8, x);
    BigEndianWidens(x, 4, 4);
    ZerosJoin(k, 4);
    assert Padded(m) == m + [0x80] + Zeros(k) + BigEndian(x, 8);
  }
}
