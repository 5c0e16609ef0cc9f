/** The proof-of-work test, in the three forms in which the program and its pool
    perform it, against the numeric meaning of a difficulty. */
module LeadingZeros {
  import opened Words
  import opened Power

  /** Leading zero bits of a nonzero byte: how often it can double below 256. */
  function ByteZeros(x: nat): nat
    requires 0 < x
    decreases 128 - x
  {
    if x < 128 then 1 + ByteZeros(2 * x) else 0
  }

  /** Leading zero bits of a byte string. */
  function Zeros(s: seq<byte>): nat {
    if s == [] then 0
    else if s[0] == 0 then 8 + Zeros(s[1..])
    else ByteZeros(s[0])
  }

  lemma {:induction false} ByteZerosRange(x: nat)
    requires 0 < x < 256
    ensures ByteZeros(x) <= 7
    ensures Pow(2, 7 - ByteZeros(x)) <= x < Pow(2, 8 - ByteZeros(x))
    decreases 128 - x
  {
    PowersOfTwo();
    if x >= 128 {
    } else {
      ByteZerosRange(2 * x);
    }
  }

  /** A byte has z leading zeros exactly when it is below 2^(8 - z). */
  lemma ByteZerosMeans(x: nat, z: nat)
    requires 0 < x < 256 && z <= 8
    ensures ByteZeros(x) >= z <==> x < Pow(2, 8 - z)
  {
    ByteZerosRange(x);
    if ByteZeros(x) >= z {
      PowMonotone(2, 8 - ByteZeros(x), 8 - z);
    } else {
      PowMonotone(2, 8 - z, 7 - ByteZeros(x));
    }
  }

  lemma {:induction false} SpanIsPower(n: nat)
    ensures Span(n) == Pow(2, 8 * n)
  {
    if n == 0 {
    } else {
      SpanIsPower(n - 1);
      PowersOfTwo();
      PowAdd(2, 8, 8 * (n - 1));
    }
  }

  lemma BelowMultiple(x: int, p: int, u: int, q: int)
    requires 0 <= u < p
    ensures x * p + u < q * p <==> x < q
  {
    MultipleBound(q - x, p);
    assert q * p == x * p + (q - x) * p;
  }

  /** A string has d leading zero bits exactly when the number it spells is below
      2^(bits - d). */
  lemma {:induction false} ZerosIsMagnitude(s: seq<byte>, d: nat)
    requires d <= 8 * |s|
    ensures Zeros(s) >= d <==> FromBigEndian(s) < Pow(2, 8 * |s| - d)
  {
    if s == [] {
    } else {
      var x, t, n := s[0], s[1..], |s| - 1;
      assert s == [x] + t;
      BigEndianHead(x, t);
      BigEndianBound(t);
      SpanIsPower(n);
      if d <= 8 {
        PowAdd(2, 8 - d, 8 * n);
        BelowMultiple(x, Span(n), FromBigEndian(t), Pow(2, 8 - d));
        if x == 0 {
          PowPositive(2, 8 - d);
        } else {
          ByteZerosMeans(x, d);
        }
      } else if x == 0 {
        ZerosIsMagnitude(t, d - 8);
      } else {
        ByteZerosRange(x);
        PowMonotone(2, 8 * |s| - d, 8 * n);
        BelowMultiple(x, Span(n), FromBigEndian(t), 1);
      }
    }
  }

  lemma {:induction false} ZerosAfter(s: seq<byte>, n: nat)
    requires n <= |s| && forall i :: 0 <= i < n ==> s[i] == 0
    ensures Zeros(s) == 8 * n + Zeros(s[n..])
  {
    if n == 0 {
      assert s[0..] == s;
    } else {
      ZerosAfter(s[1..], n - 1);
      assert s[1..][n - 1..] == s[n..];
    }
  }

  /** A nonzero byte within the first n ends the run of zeros there. */
  lemma {:induction false} ZerosStop(s: seq<byte>, n: nat)
    requires n < |s| && s[n] != 0
    ensures Zeros(s) < 8 * n + 8
  {
    if s[0] != 0 {
      ByteZerosRange(s[0]);
    } else {
      ZerosStop(s[1..], n - 1);
    }
  }

  /** The chain's test: whole zero bytes, then the top bits of the next one. */
  method CheckLeadingZeroBits(hash: Hash, challengeSize: nat) returns (ok: bool)
    requires challengeSize < 256
    ensures ok <==> Zeros(hash) >= challengeSize
    ensures ok <==> FromBigEndian(hash) < Pow(2, 256 - challengeSize)
  {
    ZerosIsMagnitude(hash, challengeSize);
    var bytes := challengeSize / 8;
    for i := 0 to bytes
      invariant forall k :: 0 <= k < i ==> hash[k] == 0
    {
      if hash[i] != 0 {
        ZerosStop(hash, i);
        return false;
      }
    }
    ZerosAfter(hash, bytes);
    var remainingBits := challengeSize - 8 * bytes;
    if remainingBits > 0 {
      assert hash[bytes..][0] == hash[bytes];
      ok := ShiftRight(hash[bytes], 8 - remainingBits) == 0;
      if hash[bytes] != 0 {
        ByteZerosMeans(hash[bytes], remainingBits);
      }
      ShiftedAway(hash[bytes], 8 - remainingBits);
      PowPositive(2, 8 - remainingBits);
    } else {
      ok := true;
    }
  }

  function ShiftRight(x: nat, n: nat): nat {
    if n == 0 then x else ShiftRight(x / 2, n - 1)
  }

  lemma {:induction false} ShiftedAway(x: nat, n: nat)
    ensures ShiftRight(x, n) == 0 <==> x < Pow(2, n)
  {
    if n == 0 {
    } else {
      ShiftedAway(x / 2, n - 1);
    }
  }

  /** The miner's count. */
  method CountZeros(hash: Hash) returns (n: nat)
    ensures n == Zeros(hash)
  {
    var i := 0;
    while hash[i] == 0
      invariant 0 <= i < 32 && forall k :: 0 <= k < i ==> hash[k] == 0
      decreases 32 - i
    {
      i := i + 1;
      if i == 32 {
        ZerosAfter(hash, 32);
        return 256;
      }
    }
    ZerosAfter(hash, i);
    var v := hash[i];
    ByteZerosTable(v);
    i := i * 8;
    if v > 127 { return i; }
    if v > 63 { return i + 1; }
    if v > 31 { return i + 2; }
    if v > 15 { return i + 3; }
    if v > 7 { return i + 4; }
    if v > 3 { return i + 5; }
    if v > 1 { return i + 6; }
    return i + 7;
  }

  lemma ByteZerosTable(v: nat)
    requires 0 < v < 256
    ensures v > 127 <==> ByteZeros(v) == 0
    ensures 63 < v <= 127 <==> ByteZeros(v) == 1
    ensures 31 < v <= 63 <==> ByteZeros(v) == 2
    ensures 15 < v <= 31 <==> ByteZeros(v) == 3
    ensures 7 < v <= 15 <==> ByteZeros(v) == 4
    ensures 3 < v <= 7 <==> ByteZeros(v) == 5
    ensures 1 < v <= 3 <==> ByteZeros(v) == 6
  {
    PowersOfTwo();
    ByteZerosRange(v);
  }

  datatype Count = NoClauseMatches | Counted(zeros: nat)

  /** The pool's count, by pattern matching on the binary: no clause covers the
      empty binary that is left of a string of zero bytes. */
  function PoolZeros(a: seq<byte>, b: nat): Count {
    if a == [] then NoClauseMatches
    else if a[0] == 0 then PoolZeros(a[1..], b + 8)
    else Counted(PoolZerosByte(a[0], b))
  }

  function PoolZerosByte(x: nat, z: nat): nat
    requires 0 < x
    decreases 128 - x
  {
    if x < 128 then PoolZerosByte(2 * x, z + 1) else z
  }

  lemma {:induction false} PoolZerosByteCounts(x: nat, z: nat)
    requires 0 < x
    ensures PoolZerosByte(x, z) == z + ByteZeros(x)
    decreases 128 - x
  {
    if x >= 128 {
    } else {
      PoolZerosByteCounts(2 * x, z + 1);
    }
  }

  /** The pool agrees with the chain on every string that is not all zeros, and
      fails on those that are. */
  lemma {:induction false} PoolZerosAgrees(a: seq<byte>, b: nat)
    ensures PoolZeros(a, b) == if forall x <- a :: x == 0 then NoClauseMatches else Counted(b + Zeros(a))
  {
    if a == [] {
    } else {
      assert forall x :: x in a <==> x == a[0] || x in a[1..];
      if a[0] == 0 {
        PoolZerosAgrees(a[1..], b + 8);
      } else {
        assert a[0] in a;
        PoolZerosByteCounts(a[0], b);
      }
    }
  }

  datatype Share = Rejected | Fails | Judged(accepted: bool, difficulty: byte, zeros: nat)

  /** A share claims the difficulty in its first byte. */
  function ValidateShare(sha256: seq<byte> -> Hash, problem: seq<byte>, share: seq<byte>): Share {
    if |share| == 32 then
      match PoolZeros(sha256(problem + share), 0)
      case NoClauseMatches => Fails
      case Counted(z) => Judged(z >= share[0], share[0], z)
    else Rejected
  }

  /** A share of the wrong length is rejected; any other is accepted exactly when its hash,
      read as a number, is nonzero and meets the difficulty that the share itself names.
      On a hash of zero the program fails. */
  lemma ShareMeetsItsClaim(sha256: seq<byte> -> Hash, problem: seq<byte>, share: seq<byte>)
    ensures var v, h := ValidateShare(sha256, problem, share), sha256(problem + share);
            && (v == Rejected <==> |share| != 32)
            && (v == Fails <==> |share| == 32 && forall x <- h :: x == 0)
            && (v.Judged? && v.accepted <==>
                  |share| == 32 && !(forall x <- h :: x == 0)
                  && var d: nat := share[0]; FromBigEndian(h) < Pow(2, 256 - d))
  {
    var h := sha256(problem + share);
    PoolZerosAgrees(h, 0);
    if |share| == 32 {
      ZerosIsMagnitude(h, share[0]);
    }
  }
}
