/** Scalars as signed digits: the sliding window and the radix-16 recoding. */
module Recoding {
  import opened Words
  import opened Power

  type int8 = x: int | -0x80 <= x < 0x80

  /** The digits from i on, weighted by powers of the base. */
  function Horner(base: int, s: seq<int>, i: nat): int
    requires i <= |s|
    decreases |s| - i
  {
    if i == |s| then 0 else s[i] + base * Horner(base, s, i + 1)
  }

  /** The digits before i, weighted by powers of the base. */
  function Low(base: int, s: seq<int>, i: nat): int
    requires i <= |s|
  {
    if i == 0 then 0 else Low(base, s, i - 1) + s[i - 1] * Pow(base, i - 1)
  }

  lemma {:induction false} HornerSplit(base: int, s: seq<int>, i: nat)
    requires i <= |s|
    ensures Horner(base, s, 0) == Low(base, s, i) + Pow(base, i) * Horner(base, s, i)
  {
    if i == 0 {
    } else {
      HornerSplit(base, s, i - 1);
      Factor(Pow(base, i - 1), s[i - 1], base, Horner(base, s, i));
    }
  }

  lemma Factor(p: int, x: int, base: int, h: int)
    ensures p * (x + base * h) == x * p + (base * p) * h
  {
  }

  lemma {:induction false} SameLow(base: int, s: seq<int>, t: seq<int>, i: nat)
    requires i <= |s| && i <= |t| && s[..i] == t[..i]
    ensures Low(base, s, i) == Low(base, t, i)
  {
    if i == 0 {
    } else {
      assert s[..i - 1] == s[..i][..i - 1] == t[..i - 1];
      assert s[i - 1] == s[..i][i - 1] == t[i - 1];
      SameLow(base, s, t, i - 1);
    }
  }

  lemma {:induction false} SameHorner(base: int, s: seq<int>, t: seq<int>, i: nat)
    requires i <= |s| == |t| && s[i..] == t[i..]
    ensures Horner(base, s, i) == Horner(base, t, i)
    decreases |s| - i
  {
    if i == |s| {
    } else {
      assert s[i] == s[i..][0] == t[i];
      assert s[i + 1..] == s[i..][1..] == t[i + 1..];
      SameHorner(base, s, t, i + 1);
    }
  }

  /** Writing digit k moves the value by its weight. */
  lemma {:induction false} HornerUpdate(base: int, s: seq<int>, i: nat, k: nat, v: int)
    requires i <= k < |s|
    ensures Horner(base, s[k := v], i) == Horner(base, s, i) + (v - s[k]) * Pow(base, k - i)
    decreases k - i
  {
    var t := s[k := v];
    if i == k {
      SameHorner(base, s, t, i + 1);
    } else {
      HornerUpdate(base, s, i + 1, k, v);
      FactorUpdate(base, Horner(base, s, i + 1), v - s[k], Pow(base, k - i - 1));
    }
  }

  lemma FactorUpdate(base: int, h: int, d: int, p: int)
    ensures base * (h + d * p) == base * h + d * (base * p)
  {
  }

  // ----- bits of the scalar -----

  /** x shifted right by t bits, and bit t of x. */
  function Shr(x: nat, t: nat): nat {
    if t == 0 then x else Shr(x, t - 1) / 2
  }

  function Bit(x: nat, t: nat): (r: int)
    ensures 0 <= r <= 1
  {
    Shr(x, t) % 2
  }

  lemma ShrStep(x: nat, t: nat)
    ensures Shr(x, t) == Bit(x, t) + 2 * Shr(x, t + 1)
  {
  }

  lemma {:induction false} ShrSmall(x: nat, t: nat)
    requires x < Pow(2, t)
    ensures Shr(x, t) == 0
  {
    if t == 0 {
    } else {
      ShrHalf(x, t - 1);
      ShrSmall(x / 2, t - 1);
    }
  }

  lemma {:induction false} ShrHalf(x: nat, t: nat)
    ensures Shr(x, t + 1) == Shr(x / 2, t)
  {
    if t == 0 {
    } else {
      ShrHalf(x, t - 1);
    }
  }

  lemma ByteBits(x: byte)
    ensures x == Bit(x, 0) + 2 * (Bit(x, 1) + 2 * (Bit(x, 2) + 2 * (Bit(x, 3) + 2 * (Bit(x, 4)
                 + 2 * (Bit(x, 5) + 2 * (Bit(x, 6) + 2 * Bit(x, 7)))))))
  {
    hide Bit, Shr;
    PowersOfTwo();
    ShrSmall(x, 8);
    ShrStep(x, 0);
    ShrStep(x, 1);
    ShrStep(x, 2);
    ShrStep(x, 3);
    ShrStep(x, 4);
    ShrStep(x, 5);
    ShrStep(x, 6);
    ShrStep(x, 7);
    ShrZero(x);
  }

  lemma ShrZero(x: nat)
    ensures Shr(x, 0) == x
  {
  }

  /** The bits of a, spread out, spell the same number. */
  lemma {:induction false} BitsSpell(a: seq<byte>, s: seq<int>, m: nat)
    requires m <= |a| && |s| == 8 * |a|
    requires forall i :: 0 <= i < |s| ==> s[i] == Bit(a[i / 8], i % 8)
    ensures Horner(2, s, 8 * m) == FromLittleEndian(a[m..])
    decreases |a| - m
  {
    hide Bit, Horner;
    if m == |a| {
      HornerEnd(2, s);
    } else {
      BitsSpell(a, s, m + 1);
      assert a[m..][1..] == a[m + 1..];
      ByteBits(a[m]);
      EightDigits(s, 8 * m);
      BitsOfByte(a, s, m);
    }
  }

  lemma BitsOfByte(a: seq<byte>, s: seq<int>, m: nat)
    requires m < |a| && |s| == 8 * |a|
    requires forall i :: 0 <= i < |s| ==> s[i] == Bit(a[i / 8], i % 8)
    ensures s[8 * m] == Bit(a[m], 0) && s[8 * m + 1] == Bit(a[m], 1) && s[8 * m + 2] == Bit(a[m], 2)
    ensures s[8 * m + 3] == Bit(a[m], 3) && s[8 * m + 4] == Bit(a[m], 4) && s[8 * m + 5] == Bit(a[m], 5)
    ensures s[8 * m + 6] == Bit(a[m], 6) && s[8 * m + 7] == Bit(a[m], 7)
  {
    hide Bit;
  }

  lemma HornerEnd(base: int, s: seq<int>)
    ensures Horner(base, s, |s|) == 0
  {
  }

  lemma EightDigits(s: seq<int>, i: nat)
    requires i + 8 <= |s|
    ensures Horner(2, s, i) == s[i] + 2 * (s[i + 1] + 2 * (s[i + 2] + 2 * (s[i + 3] + 2 * (s[i + 4]
                               + 2 * (s[i + 5] + 2 * (s[i + 6] + 2 * s[i + 7])))))) + 256 * Horner(2, s, i + 8)
  {
    assert Horner(2, s, i + 6) == s[i + 6] + 2 * (s[i + 7] + 2 * Horner(2, s, i + 8));
    assert Horner(2, s, i + 4) == s[i + 4] + 2 * (s[i + 5] + 2 * Horner(2, s, i + 6));
    assert Horner(2, s, i + 2) == s[i + 2] + 2 * (s[i + 3] + 2 * Horner(2, s, i + 4));
  }

  // ----- the sliding window -----

  predicate Digit(d: int) { d == 0 || (d % 2 != 0 && -15 <= d <= 15) }

  predicate Digits(s: seq<int>) { forall i :: 0 <= i < |s| ==> Digit(s[i]) }

  predicate Bits(s: seq<int>, i: nat) { forall j :: i <= j < |s| ==> 0 <= s[j] <= 1 }

  /** Behind a nonzero digit come four zeros. */
  predicate Sparse(s: seq<int>, n: nat) {
    forall j, k :: 0 <= j < n && j < k < j + 5 && k < |s| && s[j] != 0 ==> s[k] == 0
  }

  lemma OnesBelowTop(s: seq<int>, i: nat)
    requires i <= |s| && forall j :: i <= j < |s| ==> s[j] == 1
    ensures Horner(2, s, i) == Pow(2, |s| - i) - 1
    decreases |s| - i
  {
    if i == |s| {
    } else {
      OnesBelowTop(s, i + 1);
    }
  }

  /** Adds one to the bits from `start` on.  If every one of them is set, the carry
      runs off the end and they are all cleared. */
  method CarryOne(r: array<int8>, start: nat) returns (ghost ranOff: bool)
    requires start < r.Length && Bits(r[..], start)
    modifies r
    ensures r[..start] == old(r[..start]) && Bits(r[..], start)
    ensures Horner(2, r[..], start)
            == old(Horner(2, r[..], start)) + 1 - (if ranOff then Pow(2, r.Length - start) else 0)
    ensures ranOff ==> old(Horner(2, r[..], start)) == Pow(2, r.Length - start) - 1
    ensures old(r[start]) == 1 ==> r[start] == 0
  {
    ghost var s := r[..];
    var k := start;
    while k < r.Length
      invariant start <= k <= r.Length
      invariant r[..start] == s[..start] && r[k..] == s[k..] && Bits(r[..], start)
      invariant forall j :: start <= j < k ==> s[j] == 1 && r[j] == 0
      invariant Horner(2, r[..], start) == Horner(2, s, start) + 1 - Pow(2, k - start)
    {
      ghost var t := r[..];
      if r[k] == 0 {
        r[k] := 1;
        HornerUpdate(2, t, start, k, 1);
        assert r[..] == t[k := 1];
        return false;
      }
      r[k] := 0;
      HornerUpdate(2, t, start, k, 0);
      assert r[..] == t[k := 0];
      k := k + 1;
    }
    OnesBelowTop(s, start);
    return true;
  }

  lemma {:induction false} OverZeros(s: seq<int>, i: nat, b: nat)
    requires i < i + b <= |s| && forall k :: i < k < i + b ==> s[k] == 0
    ensures Horner(2, s, i) == s[i] + Pow(2, b) * Horner(2, s, i + b)
    decreases b
  {
    if b <= 1 {
    } else {
      OverZeros(s, i, b - 1);
      DoubleScale(Pow(2, b - 1), Horner(2, s, i + b));
    }
  }

  lemma DoubleScale(p: int, h: int)
    ensures p * (2 * h) == (2 * p) * h
  {
  }

  /** How far digit i reaches: it is wide, and the next b - 1 digits are clear. */
  ghost predicate Reaches(s: seq<int>, i: nat, b: nat) {
    && i < |s| && s[i] % 2 != 0 && -15 <= s[i] <= 15 && Bits(s, i + 1)
    && forall k :: i < k < i + b && k < |s| ==> s[k] == 0
  }

  /** Moves the set bit b places above digit i into the digit. */
  method Absorb(r: array<int8>, i: nat, b: nat)
    requires 1 <= b && i + b < r.Length && Reaches(r[..], i, b) && r[i + b] == 1
    requires r[i] + Pow(2, b) <= 15
    modifies r
    ensures Reaches(r[..], i, b + 1) && r[..i] == old(r[..i])
    ensures Horner(2, r[..], i) == old(Horner(2, r[..], i))
  {
    ghost var s := r[..];
    PowPositive(2, b);
    r[i] := r[i] + r[i + b] * Pow(2, b);
    r[i + b] := 0;
    HornerUpdate(2, s, i, i, r[i]);
    HornerUpdate(2, s[i := r[i]], i, i + b, 0);
    assert r[..] == s[i := r[i]][i + b := 0];
  }

  /** Takes the set bit b places above off digit i, which sets it again one place up. */
  method Borrow(r: array<int8>, i: nat, b: nat) returns (ghost ranOff: bool)
    requires 1 <= b && i + b < r.Length && Reaches(r[..], i, b) && r[i + b] == 1
    requires r[i] + Pow(2, b) > 15 && r[i] - Pow(2, b) >= -15
    modifies r
    ensures Reaches(r[..], i, b + 1) && r[..i] == old(r[..i])
    ensures Horner(2, r[..], i) == old(Horner(2, r[..], i)) - (if ranOff then Pow(2, r.Length - i) else 0)
    ensures ranOff ==> old(Horner(2, r[..], i)) > Pow(2, r.Length - i - 1)
  {
    hide Horner, Pow;
    ghost var s := r[..];
    OverZeros(s, i, b);
    EvenPower(b);
    r[i] := r[i] - r[i + b] * Pow(2, b);
    ghost var t := r[..];
    assert t[i + b..] == s[i + b..];
    SameHorner(2, s, t, i + b);
    ranOff := CarryOne(r, i + b);
    ReachesOver(s, t[i], i, b, r[..]);
    OverZeros(r[..], i, b);
    BorrowAdds(i, b, r.Length, s[i], Horner(2, s, i + b), ranOff);
  }

  lemma EvenPower(b: nat)
    requires b >= 1
    ensures Pow(2, b) % 2 == 0 && Pow(2, b) > 0
  {
    PowPositive(2, b);
  }

  lemma ReachesOver(s: seq<int>, d: int, i: nat, b: nat, u: seq<int>)
    requires 1 <= b && i + b < |s| == |u| && Reaches(s, i, b) && d % 2 != 0 && -15 <= d <= 15
    requires u[..i + b] == s[i := d][..i + b] && Bits(u, i + b) && u[i + b] == 0
    ensures Reaches(u, i, b + 1) && u[..i] == s[..i] && u[i] == d
    ensures forall k :: i < k < i + b ==> u[k] == 0
  {
    forall k | 0 <= k < i + b
      ensures u[k] == if k == i then d else s[k]
    {
      assert u[k] == u[..i + b][k];
    }
  }

  lemma BorrowAdds(i: nat, b: nat, n: nat, d: int, h: int, ranOff: bool)
    requires 1 <= b && i + b < n && d >= 1
    ensures var p := Pow(2, b);
            (d - p) + p * (h + 1 - (if ranOff then Pow(2, n - i - b) else 0))
            == d + p * h - (if ranOff then Pow(2, n - i) else 0)
    ensures h == Pow(2, n - i - b) - 1 ==> d + Pow(2, b) * h > Pow(2, n - i - 1)
  {
    var p, q := Pow(2, b), Pow(2, n - i - b);
    PowAdd(2, b, n - i - b);
    PowAdd(2, b, n - i - b - 1);
    PowMonotone(2, b, n - i - 1);
    Spread(p, h, if ranOff then q else 0);
    Spread(p, q - 2, 0);
  }

  lemma Spread(p: int, h: int, q: int)
    ensures p * (h + 1 - q) == p * h + p - p * q
  {
  }

  /** Widens digit i by the bits up to six places above it. */
  method Widen(r: array<int8>, i: nat) returns (ghost lost: nat)
    requires i < r.Length && Bits(r[..], i) && r[i] != 0
    modifies r
    ensures Reaches(r[..], i, 5) && r[..i] == old(r[..i])
    ensures Horner(2, r[..], i) == old(Horner(2, r[..], i)) - lost * Pow(2, r.Length - i)
    ensures old(Horner(2, r[..], i)) <= Pow(2, r.Length - i - 1) ==> lost == 0
  {
    hide Horner, Pow;
    ghost var h, top := Horner(2, r[..], i), Pow(2, r.Length - i);
    lost := 0;
    var b := 1;
    while b <= 6 && i + b < r.Length
      invariant 1 <= b <= 7 && Reaches(r[..], i, b) && r[..i] == old(r[..i])
      invariant Horner(2, r[..], i) == h - lost * top
      invariant h <= Pow(2, r.Length - i - 1) ==> lost == 0
    {
      if r[i + b] != 0 {
        if r[i] + r[i + b] * Pow(2, b) <= 15 {
          Absorb(r, i, b);
        } else if r[i] - r[i + b] * Pow(2, b) >= -15 {
          ghost var ranOff := Borrow(r, i, b);
          if ranOff {
            OneMore(lost, top);
            lost := lost + 1;
          }
        } else {
          PowersOfTwo();
          break;
        }
      }
      b := b + 1;
    }
  }

  lemma OneMore(n: int, p: int)
    ensures (n + 1) * p == n * p + p
  {
  }

  /** The finished digits before i, the last of them reaching up to `reach`. */
  ghost predicate Slid(s: seq<int>, i: nat, reach: nat) {
    && i <= |s| && Bits(s, i)
    && (forall j :: 0 <= j < i ==> Digit(s[j]) && (s[j] != 0 ==> j + 5 <= reach))
    && Sparse(s, i) && (forall k :: i <= k < reach && k < |s| ==> s[k] == 0)
    && -Pow(2, reach) < 2 * Low(2, s, i) < Pow(2, reach)
  }

  lemma SlidPastZero(s: seq<int>, i: nat, reach: nat)
    requires Slid(s, i, reach) && i < |s| && s[i] == 0
    ensures Slid(s, i + 1, reach)
  {
  }

  lemma SlidPastDigit(s: seq<int>, u: seq<int>, i: nat, reach: nat)
    requires Slid(s, i, reach) && i < |s| == |u| && s[i] != 0 && u[..i] == s[..i] && Reaches(u, i, 5)
    ensures Slid(u, i + 1, i + 5)
  {
    SameLow(2, s, u, i);
    PowMonotone(2, reach, i);
    DigitBound(Low(2, u, i), u[i], i);
    forall j | 0 <= j < i
      ensures u[j] == s[j]
    {
      assert u[j] == u[..i][j];
    }
    SparseExtends(s, u, i, reach);
  }

  lemma DigitBound(low: int, d: int, i: nat)
    requires -Pow(2, i) < 2 * low < Pow(2, i) && -15 <= d <= 15
    ensures -Pow(2, i + 5) < 2 * (low + d * Pow(2, i)) < Pow(2, i + 5)
  {
    var p := Pow(2, i);
    assert Pow(2, i + 2) == 4 * p;
    assert Pow(2, i + 4) == 4 * Pow(2, i + 2);
    assert -15 * p <= d * p <= 15 * p;
  }

  lemma SparseExtends(s: seq<int>, u: seq<int>, i: nat, reach: nat)
    requires i < |s| == |u| && reach <= i && Sparse(s, i)
    requires forall j :: 0 <= j < i ==> u[j] == s[j] && (s[j] != 0 ==> j + 5 <= reach)
    requires forall k :: i < k < i + 5 && k < |u| ==> u[k] == 0
    ensures Sparse(u, i + 1)
  {
  }

  /** While the number is below half the range of the digits, what is left of it at a
      nonzero digit is too small for a carry to run off. */
  lemma RestIsSmall(s: seq<int>, i: nat, reach: nat)
    requires Slid(s, i, reach) && i < |s| && s[i] != 0
    requires Horner(2, s, 0) < Pow(2, |s| - 1)
    ensures Horner(2, s, i) <= Pow(2, |s| - i - 1)
  {
    hide Horner, Low, Sparse, Digit;
    HornerSplit(2, s, i);
    PowMonotone(2, reach, i);
    PowAdd(2, i, |s| - i - 1);
    RestBound(Pow(2, i), Horner(2, s, i), Pow(2, |s| - i - 1), Low(2, s, i));
  }

  lemma RestBound(p: int, h: int, t: int, low: int)
    requires p > 0 && low + p * h < p * t && -p < 2 * low
    ensures h <= t
  {
    assert p * h - p * t == (h - t) * p;
    MultipleBound(h - t, p);
  }

  /** Recodes a into digits that are zero or odd, of magnitude at most 15, no two
      within five places.  The digits still spell a, unless a carry runs off the top,
      which takes a number of at least 2^255. */
  method Slide(r: array<int8>, a: seq<byte>) returns (ghost lost: nat)
    requires r.Length == 256 && |a| == 32
    modifies r
    ensures Digits(r[..])
    ensures forall i :: 0 <= i < 256 ==> r[i] == 0 || (r[i] % 2 != 0 && -15 <= r[i] <= 15)
    ensures Sparse(r[..], 256)
    ensures forall j, k :: 0 <= j < k < 256 && k < j + 5 && r[j] != 0 ==> r[k] == 0
    ensures Horner(2, r[..], 0) == FromLittleEndian(a) - lost * Pow(2, 256)
    ensures FromLittleEndian(a) < Pow(2, 255) ==> lost == 0
  {
    hide Pow, Horner, Bit;
    for i := 0 to 256
      invariant forall j :: 0 <= j < i ==> r[j] == Bit(a[j / 8], j % 8)
    {
      r[i] := Bit(a[i / 8], i % 8);
    }
    BitsSpell(a, r[..], 0);
    assert a[0..] == a;
    ghost var n, top, reach := FromLittleEndian(a), Pow(2, 256), 0;
    lost := 0;
    SlidFromStart(r[..]);
    for i := 0 to 256
      invariant Slid(r[..], i, reach)
      invariant Horner(2, r[..], 0) == n - lost * top
      invariant n < Pow(2, 255) ==> lost == 0
    {
      ghost var s := r[..];
      if r[i] != 0 {
        ghost var more := Widen(r, i);
        WidenKeeps(s, r[..], i, more);
        if n < Pow(2, 255) {
          RestIsSmall(s, i, reach);
        }
        SlidPastDigit(s, r[..], i, reach);
        LostMore(lost, more, top);
        lost := lost + more;
        reach := i + 5;
      } else {
        SlidPastZero(s, i, reach);
      }
    }
  }

  lemma SlidFromStart(s: seq<int>)
    requires Bits(s, 0)
    ensures Slid(s, 0, 0)
  {
    PowersOfTwo();
  }

  lemma LostMore(m: int, n: int, p: int)
    ensures (m + n) * p == m * p + n * p
  {
  }

  lemma WidenKeeps(s: seq<int>, u: seq<int>, i: nat, more: nat)
    requires i < |s| == |u| && s[..i] == u[..i]
    requires Horner(2, u, i) == Horner(2, s, i) - more * Pow(2, |s| - i)
    ensures Horner(2, u, 0) == Horner(2, s, 0) - more * Pow(2, |s|)
  {
    HornerSplit(2, s, i);
    HornerSplit(2, u, i);
    SameLow(2, s, u, i);
    PowAdd(2, i, |s| - i);
    TimesLost(Pow(2, i), Horner(2, s, i), more, Pow(2, |s| - i));
  }

  lemma TimesLost(p: int, h: int, more: int, q: int)
    ensures p * (h - more * q) == p * h - more * (p * q)
  {
  }

  // ----- radix 16 -----

  /** The two half-bytes of each byte spell the same number. */
  lemma {:induction false} NibblesSpell(a: seq<byte>, e: seq<int>, m: nat)
    requires m <= |a| && |e| == 2 * |a|
    requires forall i :: 0 <= i < |a| ==> e[2 * i] == a[i] % 16 && e[2 * i + 1] == a[i] / 16
    ensures Horner(16, e, 2 * m) == FromLittleEndian(a[m..])
    decreases |a| - m
  {
    if m == |a| {
    } else {
      NibblesSpell(a, e, m + 1);
      assert a[m..][1..] == a[m + 1..];
      assert Horner(16, e, 2 * m) == e[2 * m] + 16 * (e[2 * m + 1] + 16 * Horner(16, e, 2 * m + 2));
    }
  }

  /** Recodes a into 64 digits of magnitude at most 8, of which the last reaches 16 if
      the top byte is over 127. */
  method Radix16(e: array<int8>, a: seq<byte>)
    requires e.Length == 64 && |a| == 32
    modifies e
    ensures forall i :: 0 <= i < 63 ==> -8 <= e[i] < 8
    ensures 0 <= e[63] <= a[31] / 16 + 1
    ensures Horner(16, e[..], 0) == FromLittleEndian(a)
  {
    hide Horner, Pow, FromLittleEndian;
    for i := 0 to 32
      invariant forall j :: 0 <= j < i ==> e[2 * j] == a[j] % 16 && e[2 * j + 1] == a[j] / 16
    {
      e[2 * i] := a[i] % 16;
      e[2 * i + 1] := a[i] / 16;
    }
    NibblesSpell(a, e[..], 0);
    assert a[0..] == a;
    assert forall k :: 0 <= k < 64 ==> 0 <= e[k] <= 15 by {
      HalfBytes(a, e[..]);
    }
    var carry: int8 := 0;
    assert e[63] == a[31] / 16;
    for i := 0 to 63
      invariant 0 <= carry <= 1
      invariant forall k :: i <= k < 64 ==> 0 <= e[k] <= 15
      invariant forall k :: 0 <= k < i ==> -8 <= e[k] < 8
      invariant e[63] == a[31] / 16
      invariant Horner(16, e[..], 0) + carry * Pow(16, i) == FromLittleEndian(a)
    {
      ghost var s := e[..];
      var x := e[i] + carry;
      var up := (x + 8) / 16;
      e[i] := x - up * 16;
      HornerUpdate(16, s, 0, i, e[i]);
      assert e[..] == s[i := e[i]];
      CarryMoves(carry, up, Pow(16, i), i);
      carry := up;
    }
    ghost var s := e[..];
    e[63] := e[63] + carry;
    HornerUpdate(16, s, 0, 63, e[63]);
    assert e[..] == s[63 := e[63]];
  }

  lemma HalfBytes(a: seq<byte>, e: seq<int>)
    requires |e| == 2 * |a|
    requires forall i :: 0 <= i < |a| ==> e[2 * i] == a[i] % 16 && e[2 * i + 1] == a[i] / 16
    ensures forall k :: 0 <= k < |e| ==> 0 <= e[k] <= 15
  {
    forall k | 0 <= k < |e|
      ensures 0 <= e[k] <= 15
    {
      var j := k / 2;
      assert 0 <= j < |a| && (k == 2 * j || k == 2 * j + 1);
      assert e[2 * j] == a[j] % 16 && e[2 * j + 1] == a[j] / 16;
    }
  }

  lemma CarryMoves(carry: int, up: int, p: int, i: nat)
    requires p == Pow(16, i)
    ensures (carry - up * 16) * p + up * Pow(16, i + 1) == carry * p
  {
  }
}
