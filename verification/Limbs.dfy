/** Numbers written in base 10^9, least significant limb first: what a limb
    vector is worth, and what the carry and borrow loops make of it. */
module Limbs {
  import opened Power

  const BASE: int := 1_000_000_000

  type Limb = x: int | 0 <= x < BASE

  function Val(s: seq<Limb>): nat {
    if s == [] then 0 else s[0] + BASE * Val(s[1..])
  }

  /** The one representation of a number: no limb above the leading one. */
  predicate Canonical(s: seq<Limb>) {
    s != [] && (|s| > 1 ==> s[|s| - 1] != 0)
  }

  function Place(n: nat): int { Pow(BASE, n) }

  lemma {:induction false} ValSplit(a: seq<Limb>, b: seq<Limb>)
    ensures Val(a + b) == Val(a) + Place(|a|) * Val(b)
  {
    if a == [] {
      assert a + b == b;
    } else {
      ValSplit(a[1..], b);
      assert (a + b)[1..] == a[1..] + b;
      assert BASE * (Place(|a| - 1) * Val(b)) == (BASE * Place(|a| - 1)) * Val(b);
    }
  }

  lemma {:induction false} ValBound(s: seq<Limb>)
    ensures Val(s) < Place(|s|)
  {
    if s == [] {
    } else {
      ValBound(s[1..]);
    }
  }

  /** The leading limb is nonzero exactly when the value needs its place. */
  lemma {:induction false} LeadingLimb(s: seq<Limb>)
    requires s != []
    ensures s[|s| - 1] != 0 <==> Val(s) >= Place(|s| - 1)
  {
    if |s| == 1 {
      assert s[1..] == [];
    } else {
      LeadingLimb(s[1..]);
    }
  }

  lemma {:induction false} CanonicalUnique(a: seq<Limb>, b: seq<Limb>)
    requires Canonical(a) && Canonical(b) && Val(a) == Val(b)
    ensures a == b
  {
    if |a| == |b| {
      SameLengthUnique(a, b);
    } else if |a| < |b| {
      ShorterIsLess(a, b);
    } else {
      ShorterIsLess(b, a);
    }
  }

  lemma {:induction false} SameLengthUnique(a: seq<Limb>, b: seq<Limb>)
    requires |a| == |b| && Val(a) == Val(b)
    ensures a == b
  {
    if a == [] {
    } else {
      SameLengthUnique(a[1..], b[1..]);
      assert a == [a[0]] + a[1..] && b == [b[0]] + b[1..];
    }
  }

  lemma ShorterIsLess(a: seq<Limb>, b: seq<Limb>)
    requires Canonical(a) && Canonical(b) && |a| < |b|
    ensures Val(a) < Val(b)
  {
    ValBound(a);
    LeadingLimb(b);
    PowMonotone(BASE, |a|, |b| - 1);
  }

  /** With equal limbs above place i, the limb at i decides. */
  lemma {:induction false} HigherLimbDecides(a: seq<Limb>, b: seq<Limb>, i: nat)
    requires |a| == |b| && i < |a| && a[i] < b[i] && a[i + 1..] == b[i + 1..]
    ensures Val(a) < Val(b)
  {
    if i == 0 {
    } else {
      assert a[1..][i..] == a[i + 1..] && b[1..][i..] == b[i + 1..];
      HigherLimbDecides(a[1..], b[1..], i - 1);
    }
  }

  /** The limbs of a machine integer, lowest first; none for zero. */
  function LimbsOf(v: nat): seq<Limb> {
    if v == 0 then [] else [v % BASE] + LimbsOf(v / BASE)
  }

  lemma {:induction false} LimbsOfValue(v: nat)
    ensures Val(LimbsOf(v)) == v
    ensures v > 0 ==> Canonical(LimbsOf(v))
  {
    if v == 0 {
    } else {
      LimbsOfValue(v / BASE);
      assert LimbsOf(v)[1..] == LimbsOf(v / BASE);
    }
  }

  // ----- addition -----

  function Sum(a: seq<Limb>, b: seq<Limb>, carry: int): seq<Limb>
    requires 0 <= carry <= 1
    decreases |a| + |b|
  {
    if a == [] && b == [] then (if carry != 0 then [1] else [])
    else
      var s := carry + (if a != [] then a[0] else 0) + (if b != [] then b[0] else 0);
      [s % BASE] + Sum(if a != [] then a[1..] else [], if b != [] then b[1..] else [], s / BASE)
  }

  lemma {:induction false} SumIsAddition(a: seq<Limb>, b: seq<Limb>, carry: int)
    requires 0 <= carry <= 1
    ensures Val(Sum(a, b, carry)) == Val(a) + Val(b) + carry
    ensures |Sum(a, b, carry)| >= |a| && |Sum(a, b, carry)| >= |b|
    decreases |a| + |b|
  {
    if a == [] && b == [] {
      assert Val([1]) == 1;
    } else {
      var s := carry + (if a != [] then a[0] else 0) + (if b != [] then b[0] else 0);
      var a', b' := if a != [] then a[1..] else [], if b != [] then b[1..] else [];
      SumIsAddition(a', b', s / BASE);
      assert Sum(a, b, carry)[1..] == Sum(a', b', s / BASE);
    }
  }

  lemma {:induction false} SumLength(a: seq<Limb>, b: seq<Limb>, carry: int)
    requires 0 <= carry <= 1
    ensures var r, n := Sum(a, b, carry), if |a| >= |b| then |a| else |b|;
            |r| == n || (|r| == n + 1 && r[n] == 1)
    decreases |a| + |b|
  {
    if a == [] && b == [] {
    } else {
      var s := carry + (if a != [] then a[0] else 0) + (if b != [] then b[0] else 0);
      SumLength(if a != [] then a[1..] else [], if b != [] then b[1..] else [], s / BASE);
    }
  }

  lemma SumCanonical(a: seq<Limb>, b: seq<Limb>)
    requires Canonical(a) && Canonical(b)
    ensures Canonical(Sum(a, b, 0)) && Val(Sum(a, b, 0)) == Val(a) + Val(b)
  {
    var r := Sum(a, b, 0);
    SumIsAddition(a, b, 0);
    SumLength(a, b, 0);
    LeadingLimb(a);
    LeadingLimb(b);
    LeadingLimb(r);
  }

  // ----- subtraction -----

  function Difference(a: seq<Limb>, b: seq<Limb>, borrow: int): seq<Limb>
    requires |b| <= |a| && -1 <= borrow <= 0
  {
    if a == [] then []
    else
      var d := borrow + a[0] - (if b != [] then b[0] else 0);
      [if d < 0 then d + BASE else d] + Difference(a[1..], if b != [] then b[1..] else [], if d < 0 then -1 else 0)
  }

  function Borrowed(a: seq<Limb>, b: seq<Limb>, borrow: int): (r: int)
    requires |b| <= |a| && -1 <= borrow <= 0
    ensures -1 <= r <= 0
  {
    if a == [] then borrow
    else
      var d := borrow + a[0] - (if b != [] then b[0] else 0);
      Borrowed(a[1..], if b != [] then b[1..] else [], if d < 0 then -1 else 0)
  }

  lemma {:induction false} DifferenceIsSubtraction(a: seq<Limb>, b: seq<Limb>, borrow: int)
    requires |b| <= |a| && -1 <= borrow <= 0
    ensures |Difference(a, b, borrow)| == |a|
    ensures Val(Difference(a, b, borrow)) == Val(a) - Val(b) + borrow
                                             + (if Borrowed(a, b, borrow) == -1 then Place(|a|) else 0)
  {
    if a == [] {
    } else {
      var d := borrow + a[0] - (if b != [] then b[0] else 0);
      var b', c := if b != [] then b[1..] else [], if d < 0 then -1 else 0;
      DifferenceIsSubtraction(a[1..], b', c);
      assert Difference(a, b, borrow)[1..] == Difference(a[1..], b', c);
    }
  }

  /** The subtraction borrows past its top limb exactly when it goes below zero. */
  lemma BorrowedIffLess(a: seq<Limb>, b: seq<Limb>)
    requires |b| <= |a|
    ensures Borrowed(a, b, 0) == -1 <==> Val(a) < Val(b)
    ensures Val(Difference(a, b, 0)) == Val(a) - Val(b) + (if Val(a) < Val(b) then Place(|a|) else 0)
  {
    DifferenceIsSubtraction(a, b, 0);
    ValBound(Difference(a, b, 0));
    ValBound(a);
  }

  function Trim(s: seq<Limb>): (r: seq<Limb>)
    ensures |r| <= |s| && (s != [] ==> r != [])
  {
    if |s| > 1 && s[|s| - 1] == 0 then Trim(s[..|s| - 1]) else s
  }

  lemma {:induction false} TrimKeepsValue(s: seq<Limb>)
    ensures Val(Trim(s)) == Val(s)
    ensures s != [] ==> Canonical(Trim(s))
  {
    if |s| <= 1 || s[|s| - 1] != 0 {
    } else {
      var r := s[..|s| - 1];
      TrimKeepsValue(r);
      assert s == r + [0];
      ValSplit(r, [0]);
      assert Val([0]) == 0;
    }
  }

  /** Adding and then subtracting restores the very limbs. */
  lemma AddThenSubtract(a: seq<Limb>, b: seq<Limb>)
    requires Canonical(a) && Canonical(b)
    ensures |b| <= |Sum(a, b, 0)|
    ensures Trim(Difference(Sum(a, b, 0), b, 0)) == a
  {
    var s := Sum(a, b, 0);
    SumCanonical(a, b);
    SumIsAddition(a, b, 0);
    DifferenceIsSubtraction(s, b, 0);
    BorrowedIffLess(s, b);
    TrimKeepsValue(Difference(s, b, 0));
    CanonicalUnique(Trim(Difference(s, b, 0)), a);
  }

  lemma ZeroLimb()
    ensures Val([0]) == 0 && Canonical([0])
  {
    assert [0][1..] == [];
  }
}
