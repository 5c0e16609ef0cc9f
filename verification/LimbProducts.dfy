/** Multiplication of limb vectors: by one limb, and limb by limb through shifted
    accumulation. */
module LimbProducts {
  import opened Power
  import opened Limbs

  function Term(x: int, y: int): int { x * y }

  lemma Distribute(p: int, x: int, y: int)
    ensures p * (x + y) == p * x + p * y
  {
  }

  // ----- by one limb -----

  function Times(s: seq<Limb>, b: Limb, carry: int): seq<Limb>
    requires 0 <= carry < BASE
  {
    if s == [] then (if carry != 0 then [carry] else [])
    else
      TimesCarry(s[0], b, carry);
      [(carry + s[0] * b) % BASE] + Times(s[1..], b, (carry + s[0] * b) / BASE)
  }

  /** The 64-bit running sum never exceeds BASE * BASE, and the carry fits a limb. */
  lemma TimesCarry(x: Limb, b: Limb, carry: int)
    requires 0 <= carry < BASE
    ensures 0 <= carry + x * b < BASE * BASE
    ensures 0 <= (carry + x * b) / BASE < BASE
  {
    TermBound(x, BASE - 1, b);
  }

  lemma TermBound(x: int, top: int, b: int)
    requires 0 <= x <= top && 0 <= b
    ensures 0 <= x * b <= top * b
  {
    assert (top - x) * b >= 0;
  }

  lemma DigitTimes(x: int, v: int, b: int)
    ensures (x + BASE * v) * b == x * b + BASE * (v * b)
  {
  }

  lemma TimesStep(s: seq<Limb>, b: Limb, carry: int, t: int)
    requires 0 <= carry < BASE && s != [] && t == carry + s[0] * b
    ensures 0 <= t / BASE < BASE
    ensures Times(s, b, carry) == [t % BASE] + Times(s[1..], b, t / BASE)
    ensures Val(Times(s, b, carry)) == t % BASE + BASE * Val(Times(s[1..], b, t / BASE))
  {
    TimesCarry(s[0], b, carry);
    assert Times(s, b, carry)[1..] == Times(s[1..], b, t / BASE);
  }

  lemma {:induction false} TimesIsProduct(s: seq<Limb>, b: Limb, carry: int)
    requires 0 <= carry < BASE
    ensures Val(Times(s, b, carry)) == Val(s) * b + carry
    ensures |s| <= |Times(s, b, carry)| <= |s| + 1
    ensures |Times(s, b, carry)| > |s| ==> Times(s, b, carry)[|s|] != 0
  {
    if s == [] {
      assert Val([carry]) == carry;
    } else {
      TimesCarry(s[0], b, carry);
      var t, v := carry + s[0] * b, Val(s[1..]);
      TimesIsProduct(s[1..], b, t / BASE);
      TimesStep(s, b, carry, t);
      DigitTimes(s[0], v, b);
    }
  }

  // ----- adding a machine integer at an offset -----

  function Accumulate(t: seq<Limb>, v: nat, first: bool): seq<Limb>
    decreases |t|, v, first
  {
    if v == 0 && !first then t
    else if t == [] then [v % BASE] + Accumulate([], v / BASE, false)
    else
      var x := t[0] + v % BASE;
      [x % BASE] + Accumulate(t[1..], v / BASE + x / BASE, false)
  }

  lemma {:induction false} AccumulateIsAddition(t: seq<Limb>, v: nat, first: bool)
    ensures Val(Accumulate(t, v, first)) == Val(t) + v
    ensures |Accumulate(t, v, first)| >= |t|
    ensures first ==> Accumulate(t, v, first) != []
    decreases |t|, v, first
  {
    var r := Accumulate(t, v, first);
    if v == 0 && !first {
    } else {
      if t == [] {
        AccumulateIsAddition([], v / BASE, false);
        assert r[1..] == Accumulate([], v / BASE, false);
      } else {
        var x := t[0] + v % BASE;
        AccumulateIsAddition(t[1..], v / BASE + x / BASE, false);
        assert r[1..] == Accumulate(t[1..], v / BASE + x / BASE, false);
      }
    }
  }

  /** A vector that grows ends in a nonzero limb, whatever run of carries led there. */
  lemma {:induction false} AccumulateGrowth(t: seq<Limb>, v: nat, first: bool)
    ensures var r := Accumulate(t, v, first);
            |r| >= |t| && (|r| > |t| && (|r| > 1 || v != 0) ==> r[|r| - 1] != 0)
    decreases |t|, v, first
  {
    if v == 0 && !first {
    } else {
      if t == [] {
        AccumulateGrowth([], v / BASE, false);
      } else {
        var x := t[0] + v % BASE;
        AccumulateGrowth(t[1..], v / BASE + x / BASE, false);
      }
    }
  }

  function AccumulateAt(s: seq<Limb>, k: nat, v: nat): seq<Limb>
    requires k <= |s|
  {
    s[..k] + Accumulate(s[k..], v, true)
  }

  lemma ShiftedSum(low: int, p: int, x: int, y: int, v: int)
    requires y == x + v
    ensures low + p * y == low + p * x + p * v
  {
  }

  lemma AccumulateAtAddsShifted(s: seq<Limb>, k: nat, v: nat)
    requires k <= |s|
    ensures Val(AccumulateAt(s, k, v)) == Val(s) + Place(k) * v
  {
    var t := Accumulate(s[k..], v, true);
    AccumulateIsAddition(s[k..], v, true);
    ValSplit(s[..k], t);
    ValSplit(s[..k], s[k..]);
    assert s == s[..k] + s[k..] && |s[..k]| == k;
    ShiftedSum(Val(s[..k]), Place(k), Val(s[k..]), Val(t), v);
  }

  /** No leading zero, except among the first n limbs. */
  predicate TopNonzeroAbove(s: seq<Limb>, n: nat) {
    |s| <= n || s[|s| - 1] != 0
  }

  lemma AccumulateAtTop(s: seq<Limb>, k: nat, v: nat, n: nat)
    requires k <= |s| && k < n && TopNonzeroAbove(s, n)
    ensures |AccumulateAt(s, k, v)| >= |s| && |AccumulateAt(s, k, v)| > k
    ensures TopNonzeroAbove(AccumulateAt(s, k, v), n)
  {
    var r := AccumulateAt(s, k, v);
    AccumulateGrowth(s[k..], v, true);
    AccumulateIsAddition(s[k..], v, true);
    if |r| > n && |r| == |s| {
      AccumulateAtAddsShifted(s, k, v);
      PowPositive(BASE, k);
      LeadingLimb(s);
      LeadingLimb(r);
      assert Place(k) * v >= 0;
    }
  }

  // ----- the schoolbook product -----

  /** What has been accumulated after i full rows and j terms of the next. */
  function Partial(a: seq<Limb>, b: seq<Limb>, i: nat, j: nat): int
    requires i <= |a| && j <= |b| && (i == |a| ==> j == 0)
  {
    Val(a[..i]) * Val(b) + (if j == 0 then 0 else Place(i) * (a[i] * Val(b[..j])))
  }

  lemma ValSnoc(s: seq<Limb>, i: nat)
    requires i < |s|
    ensures Val(s[..i + 1]) == Val(s[..i]) + Place(i) * s[i]
  {
    assert s[..i + 1] == s[..i] + [s[i]];
    ValSplit(s[..i], [s[i]]);
    assert Val([s[i]]) == s[i];
  }

  lemma PartialStep(a: seq<Limb>, b: seq<Limb>, i: nat, j: nat)
    requires i < |a| && j < |b|
    ensures Partial(a, b, i, j + 1) == Partial(a, b, i, j) + Place(i + j) * Term(a[i], b[j])
  {
    ValSnoc(b, j);
    PowAdd(BASE, i, j);
    var p, q, x, y, v := Place(i), Place(j), a[i], b[j], Val(b[..j]);
    ShiftedTerm(p, q, x, y, v);
    assert j == 0 ==> v == 0;
  }

  lemma ShiftedTerm(p: int, q: int, x: int, y: int, v: int)
    ensures p * (x * (v + q * y)) == p * (x * v) + (p * q) * (x * y)
    ensures v == 0 ==> p * (x * v) == 0
  {
    assert x * (v + q * y) == x * v + q * (x * y);
  }

  lemma PartialRow(a: seq<Limb>, b: seq<Limb>, i: nat)
    requires i < |a| && b != []
    ensures Partial(a, b, i, |b|) == Partial(a, b, i + 1, 0)
  {
    ValSnoc(a, i);
    assert b[..|b|] == b;
    var p, x, v, w := Place(i), a[i], Val(a[..i]), Val(b);
    assert (v + p * x) * w == v * w + p * (x * w);
  }

  /** A product of positive canonical vectors that has no leading zero above
      their combined length is canonical. */
  lemma ProductCanonical(a: seq<Limb>, b: seq<Limb>, c: seq<Limb>)
    requires Canonical(a) && Canonical(b) && Val(a) > 0 && Val(b) > 0
    requires Val(c) == Val(a) * Val(b)
    requires TopNonzeroAbove(c, |a| + |b| - 1)
    ensures Canonical(c)
  {
    hide Val, Pow;
    ProductAtLeast(a, b);
    EmptyIsZero(c);
    if |c| <= |a| + |b| - 1 {
      LeadingLimb(c);
      PowMonotone(BASE, |c| - 1, |a| + |b| - 2);
    }
  }

  lemma EmptyIsZero(c: seq<Limb>)
    ensures c == [] ==> Val(c) == 0
  {
  }

  lemma ProductAtLeast(a: seq<Limb>, b: seq<Limb>)
    requires Canonical(a) && Canonical(b) && Val(a) > 0 && Val(b) > 0
    ensures Val(a) * Val(b) >= Place(|a| + |b| - 2) > 0
  {
    LeadingLimb(a);
    LeadingLimb(b);
    PowAdd(BASE, |a| - 1, |b| - 1);
    var p, q := Place(|a| - 1), Place(|b| - 1);
    PowPositive(BASE, |a| - 1);
    PowPositive(BASE, |b| - 1);
    assert Val(a) >= p && Val(b) >= q;
    ProductMonotone(p, q, Val(a), Val(b));
  }

  lemma ProductMonotone(p: int, q: int, x: int, y: int)
    requires 0 < p <= x && 0 < q <= y
    ensures 0 < p * q <= x * y
  {
    assert (x - p) * y >= 0 && p * (y - q) >= 0;
    assert x * y == p * q + p * (y - q) + (x - p) * y;
    assert p * q > 0;
  }
}
