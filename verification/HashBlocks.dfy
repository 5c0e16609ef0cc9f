/** What the SHA-2 functions share: padding as in section 5.1 of FIPS 180-4, and the
    fold of a compression function over blocks, section 6. */
module HashBlocks {
  import opened Words

  function Zeros(n: nat): (s: seq<byte>)
    ensures |s| == n && forall i :: 0 <= i < n ==> s[i] == 0
  {
    if n == 0 then [] else Zeros(n - 1) + [0]
  }

  lemma ZerosJoin(m: nat, n: nat)
    ensures Zeros(m + n) == Zeros(m) + Zeros(n)
  {
    hide Zeros;
    assert |Zeros(m + n)| == |Zeros(m) + Zeros(n)|;
  }

  /** The n low-order bytes of x, most significant first. */
  function BigEndian(x: nat, n: nat): (s: seq<byte>)
    ensures |s| == n
  {
    if n == 0 then [] else BigEndian(x / 256, n - 1) + [x % 256]
  }

  lemma {:induction false} BigEndianInverse(x: nat, n: nat)
    ensures FromBigEndian(BigEndian(x, n)) == x % Span(n)
  {
    if n == 0 {
    } else {
      BigEndianInverse(x / 256, n - 1);
      assert BigEndian(x, n)[..n - 1] == BigEndian(x / 256, n - 1);
      ModDigit(x, Span(n - 1));
    }
  }

  /** Small numbers have zeros in front. */
  lemma {:induction false} BigEndianWidens(x: nat, n: nat, m: nat)
    requires x < Span(n)
    ensures BigEndian(x, m + n) == Zeros(m) + BigEndian(x, n)
    decreases n
  {
    if n == 0 {
      BigEndianOfZero(m);
    } else {
      BigEndianWidens(x / 256, n - 1, m);
    }
  }

  lemma {:induction false} BigEndianOfZero(m: nat)
    ensures BigEndian(0, m) == Zeros(m)
  {
    if m == 0 {
    } else {
      BigEndianOfZero(m - 1);
    }
  }

  /** How many zeros follow the one bit, when `rem` bytes of the message are in its
      last block and `tail` bytes are kept for the length. */
  function ZeroCount(rem: nat, size: nat, tail: nat): (k: nat)
    requires rem < size && tail < size
    ensures rem + 1 + k + tail == size || rem + 1 + k + tail == 2 * size
    ensures k < size   // so no smaller count fills the block
  {
    if rem + 1 + tail <= size then size - rem - 1 - tail else 2 * size - rem - 1 - tail
  }

  /** The blocks of s, from first to last, each folded into the state. */
  function Fold<S>(f: (S, seq<byte>) -> S, h: S, s: seq<byte>, size: nat): S
    requires size > 0
    decreases |s|
  {
    if |s| < size then h else f(Fold(f, h, s[..|s| - size], size), s[|s| - size..])
  }

  lemma FoldSnoc<S>(f: (S, seq<byte>) -> S, h: S, s: seq<byte>, b: seq<byte>, size: nat)
    requires size > 0 && |b| == size
    ensures Fold(f, h, s + b, size) == f(Fold(f, h, s, size), b)
  {
    assert (s + b)[..|s|] == s && (s + b)[|s|..] == b;
  }

  /** The words of a state, most significant byte first, each n bytes. */
  function Digest(h: seq<nat>, n: nat): (s: seq<byte>)
    ensures |s| == |h| * n
  {
    if h == [] then [] else Digest(h[..|h| - 1], n) + BigEndian(h[|h| - 1], n)
  }

  method WriteWords(h: seq<nat>, n: nat) returns (s: seq<byte>)
    ensures s == Digest(h, n)
  {
    s := [];
    for i := 0 to |h|
      invariant s == Digest(h[..i], n)
    {
      assert h[..i + 1][..i] == h[..i];
      s := s + BigEndian(h[i], n);
    }
    assert h[..|h|] == h;
  }

  function Joined(pieces: seq<seq<byte>>): seq<byte> {
    if pieces == [] then [] else Joined(pieces[..|pieces| - 1]) + pieces[|pieces| - 1]
  }

  // ----- what these are, in the words of the standard -----

  /** p is m, a one bit, no more zero bits than it takes, and the number `bits` in the last
      `tail` bytes, up to a whole number of blocks. */
  predicate PadsOut(p: seq<byte>, m: seq<byte>, size: nat, tail: nat, bits: nat)
    requires size > 0
  {
    && |p| % size == 0 && |m| + 1 + tail <= |p| < |m| + 1 + tail + size
    && p[..|m|] == m && p[|m|] == 0x80
    && (forall i :: |m| < i < |p| - tail ==> p[i] == 0)
    && FromBigEndian(p[|p| - tail..]) == bits
  }

  lemma PaddingPadsOut(m: seq<byte>, size: nat, tail: nat, bits: nat)
    requires tail < size && bits < Span(tail)
    ensures PadsOut(m + [0x80] + Zeros(ZeroCount(|m| % size, size, tail)) + BigEndian(bits, tail), m, size, tail, bits)
  {
    hide Span, FromBigEndian, BigEndian;
    var k := ZeroCount(|m| % size, size, tail);
    var front, end := m + [0x80] + Zeros(k), BigEndian(bits, tail);
    var p := front + end;
    assert p[|p| - tail..] == end;
    BigEndianInverse(bits, tail);
    SmallMod(bits, Span(tail));
    WholeBlocks(|m|, 1 + k + tail, size);
    assert forall i :: |m| < i < |p| - tail ==> p[i] == front[i] == Zeros(k)[i - |m| - 1];
  }

  lemma SmallMod(x: nat, m: nat)
    requires x < m
    ensures x % m == x
  {
    DivModUnique(x, m, 0, x);
  }

  lemma WholeBlocks(n: nat, rest: nat, size: nat)
    requires size > 0 && (n % size + rest == size || n % size + rest == 2 * size)
    ensures (n + rest) % size == 0
  {
    var q := n / size;
    if n % size + rest == size {
      assert n + rest == (q + 1) * size + 0;
      DivModUnique(n + rest, size, q + 1, 0);
    } else {
      assert n + rest == (q + 2) * size + 0;
      DivModUnique(n + rest, size, q + 2, 0);
    }
  }

  lemma {:induction false} FoldFirst<S>(f: (S, seq<byte>) -> S, h: S, b: seq<byte>, s: seq<byte>, size: nat)
    requires size > 0 && |b| == size && |s| % size == 0
    ensures Fold(f, h, [], size) == h
    ensures Fold(f, h, b + s, size) == Fold(f, f(h, b), s, size)
    decreases |s|
  {
    if s == [] {
      assert b + s == b && b[|b| - size..] == b && b[..|b| - size] == [];
    } else {
      AtLeastOne(|s|, size);
      var front, last := s[..|s| - size], s[|s| - size..];
      FoldFirst(f, h, b, front, size);
      assert (b + s)[..|b + s| - size] == b + front && (b + s)[|b + s| - size..] == last;
    }
  }

  lemma AtLeastOne(n: nat, size: nat)
    requires size > 0 && n > 0 && n % size == 0
    ensures n >= size && (n - size) % size == 0
  {
    var q := n / size;
    assert n == q * size;
    MultipleBound(q, size);
    DivModUnique(n - size, size, q - 1, 0);
  }

  /** The digest spells the words of the state one after the other. */
  lemma {:induction false} DigestSpells(h: seq<nat>, n: nat, i: nat)
    requires i < |h| && h[i] < Span(n)
    ensures 0 <= n * i <= n * i + n <= |Digest(h, n)|
    ensures FromBigEndian(Digest(h, n)[n * i..n * i + n]) == h[i]
  {
    hide Span, FromBigEndian, BigEndian;
    var front, last := h[..|h| - 1], BigEndian(h[|h| - 1], n);
    assert n * |h| == n * |front| + n;
    if i == |h| - 1 {
      assert Digest(h, n)[n * i..n * i + n] == last;
      BigEndianInverse(h[i], n);
      SmallMod(h[i], Span(n));
    } else {
      DigestSpells(front, n, i);
      assert n * i + n <= n * |front|;
      assert Digest(h, n)[n * i..n * i + n] == Digest(front, n)[n * i..n * i + n];
    }
  }
}
