/** Elements of the field of integers modulo 2^255 - 19 in ten limbs, as in
    section 5.1 of RFC 8032, and the schoolbook product of two of them. */
module FieldSpec {
  import opened Words

  type int32 = x: int | -0x8000_0000 <= x < 0x8000_0000
  type int64 = x: int | -0x8000_0000_0000_0000 <= x < 0x8000_0000_0000_0000

  /** 2^255 - 19. */
  const PRIME: int := 0x7FFF_FFFF_FFFF_FFFF_FFFF_FFFF_FFFF_FFFF_FFFF_FFFF_FFFF_FFFF_FFFF_FFFF_FFFF_FFED

  /** The integer that ten limbs stand for, one by one: limb i weighs 2^ceil(25.5 i). */
  function Weigh(h0: int, h1: int, h2: int, h3: int, h4: int,
      h5: int, h6: int, h7: int, h8: int, h9: int): int {
    h0 + 0x400_0000 * (h1 + 0x200_0000 * (h2 + 0x400_0000 * (h3 + 0x200_0000 * (h4
    + 0x400_0000 * (h5 + 0x200_0000 * (h6 + 0x400_0000 * (h7 + 0x200_0000 * (h8 + 0x400_0000 * h9))))))))
  }

  function Value(f: seq<int>): int
    requires |f| == 10
  {
    Weigh(f[0], f[1], f[2], f[3], f[4], f[5], f[6], f[7], f[8], f[9])
  }

  function Weight(i: nat): (r: int)
    ensures r > 0
  {
    if i == 0 then 1 else if i % 2 == 1 then 0x400_0000 * Weight(i - 1) else 0x200_0000 * Weight(i - 1)
  }

  /** Even limbs within the first bound, odd ones within the second. */
  predicate Between(h0: int, h1: int, h2: int, h3: int, h4: int,
      h5: int, h6: int, h7: int, h8: int, h9: int, even: int, odd: int) {
    && -even <= h0 <= even && -odd <= h1 <= odd && -even <= h2 <= even && -odd <= h3 <= odd
    && -even <= h4 <= even && -odd <= h5 <= odd && -even <= h6 <= even && -odd <= h7 <= odd
    && -even <= h8 <= even && -odd <= h9 <= odd
  }

  predicate Within(f: seq<int>, even: nat, odd: nat)
    requires |f| == 10
  {
    Between(f[0], f[1], f[2], f[3], f[4], f[5], f[6], f[7], f[8], f[9], even, odd)
  }

  /** 1.65 * 2^26 and 1.65 * 2^25, rounded down: the bounds for factors. */
  predicate Factor(f: seq<int>)
  {
    |f| == 10 && Within(f, 110_729_625, 55_364_812)
  }

  /** 1.01 * 2^25 and 1.01 * 2^24, rounded down: the bounds for results. */
  predicate Reduced(f: seq<int>)
  {
    |f| == 10 && Within(f, 33_889_976, 16_944_988)
  }

  // ----- congruence -----

  predicate Same(a: int, b: int) { a % PRIME == b % PRIME }

  lemma SameBy(a: int, b: int, k: int)
    requires a == b + PRIME * k
    ensures Same(a, b)
  {
    var q, r := b / PRIME, b % PRIME;
    assert a == (q + k) * PRIME + r;
    DivModUnique(a, PRIME, q + k, r);
  }

  lemma SameWitness(a: int, b: int) returns (k: int)
    requires Same(a, b)
    ensures a == b + PRIME * k
  {
    k := a / PRIME - b / PRIME;
  }

  lemma SameAdd(a: int, a': int, b: int, b': int)
    requires Same(a, a') && Same(b, b')
    ensures Same(a + b, a' + b')
  {
    hide Same;
    var j := SameWitness(a, a');
    var k := SameWitness(b, b');
    SameBy(a + b, a' + b', j + k);
  }

  lemma SameScale(x: int, a: int, b: int)
    requires Same(a, b)
    ensures Same(x * a, x * b)
  {
    hide Same;
    var k := SameWitness(a, b);
    assert x * (PRIME * k) == PRIME * (x * k);
    SameBy(x * a, x * b, x * k);
  }

  lemma SameProduct(a: int, a': int, b: int, b': int)
    requires Same(a, a') && Same(b, b')
    ensures Same(a * b, a' * b')
  {
    SameScale(a, b, b');
    SameScale(b', a, a');
  }

  // ----- the schoolbook product -----

  /** g times weight i: what passes 2^255 comes back times 19, and two odd weights
      make one twice as heavy. */
  function Turned(g: seq<int>, i: nat): (r: seq<int>)
    requires |g| == 10
    ensures |r| == 10
    decreases i
  {
    if i == 0 then g
    else if i == 1 then [38 * g[9], g[0], 2 * g[1], g[2], 2 * g[3], g[4], 2 * g[5], g[6], 2 * g[7], g[8]]
    else var t := Turned(g, i - 2); [19 * t[8], 19 * t[9], t[0], t[1], t[2], t[3], t[4], t[5], t[6], t[7]]
  }

  lemma {:induction false} TurnedWeighs(g: seq<int>, i: nat)
    requires |g| == 10
    ensures Same(Value(Turned(g, i)), Weight(i) * Value(g))
  {
    hide Same, Value;
    if i == 0 {
      SameBy(Value(g), Weight(0) * Value(g), 0);
    } else if i == 1 {
      assert Weight(1) == 0x400_0000;
      TurnOnce(g, Turned(g, 1));
    } else {
      var t, w, v := Turned(g, i - 2), Weight(i - 2), Value(g);
      TurnedWeighs(g, i - 2);
      TurnTwice(t, Turned(g, i));
      SameScale(0x8_0000_0000_0000, Value(t), w * v);
      assert Weight(i) == 0x8_0000_0000_0000 * w;
      Regroup(0x8_0000_0000_0000, w, v);
      SameTrans(Value(Turned(g, i)), 0x8_0000_0000_0000 * Value(t), Weight(i) * v);
    }
  }

  lemma Regroup(c: int, w: int, v: int)
    ensures c * (w * v) == (c * w) * v
  {
  }

  lemma SameTrans(a: int, b: int, c: int)
    requires Same(a, b) && Same(b, c)
    ensures Same(a, c)
  {
  }

  lemma TurnOnce(g: seq<int>, t: seq<int>)
    requires |g| == 10
    requires t == [38 * g[9], g[0], 2 * g[1], g[2], 2 * g[3], g[4], 2 * g[5], g[6], 2 * g[7], g[8]]
    ensures Same(Value(t), 0x400_0000 * Value(g))
  {
    SameBy(Value(t), 0x400_0000 * Value(g), -2 * g[9]);
  }

  lemma TurnTwice(g: seq<int>, t: seq<int>)
    requires |g| == 10
    requires t == [19 * g[8], 19 * g[9], g[0], g[1], g[2], g[3], g[4], g[5], g[6], g[7]]
    ensures Same(Value(t), 0x8_0000_0000_0000 * Value(g))
  {
    SameBy(Value(t), 0x8_0000_0000_0000 * Value(g), -(g[8] + 0x400_0000 * g[9]));
  }

  /** A product of two limbs, and a limb times a small constant. */
  function Mul(x: int, y: int): int { x * y }

  function Scaled(c: int, x: int): int { c * x }

  lemma MulScaled()
    ensures forall c, x, y {:trigger Mul(Scaled(c, x), y)} :: Mul(Scaled(c, x), y) == c * Mul(x, y)
    ensures forall c, x, y {:trigger Mul(x, Scaled(c, y))} :: Mul(x, Scaled(c, y)) == c * Mul(x, y)
  {
    forall c, x, y
      ensures Mul(Scaled(c, x), y) == c * Mul(x, y) == Mul(x, Scaled(c, y))
    {
      assert (c * x) * y == c * (x * y) == x * (c * y);
    }
  }

  lemma MulCommutes(f: seq<int>)
    ensures forall i, j {:trigger Mul(f[i], f[j])} | 0 <= i < |f| && 0 <= j < |f| :: Mul(f[i], f[j]) == Mul(f[j], f[i])
  {
  }

  /** What row i of the schoolbook product adds to limb k. */
  function Entry(f: seq<int>, g: seq<int>, i: nat, k: nat): int
    requires |f| == |g| == 10 && i < 10 && k < 10
  {
    var p := if k >= i then Mul(f[i], g[k - i]) else 19 * Mul(f[i], g[10 + k - i]);
    if Doubled(i, k) then 2 * p else p
  }

  predicate Doubled(i: nat, k: nat) { i % 2 == 1 && k % 2 == 0 }

  lemma DoubledShift(i: nat, k: nat)
    ensures Doubled(i, k) == Doubled(i + 2, k + 2) && Doubled(i + 2, k) == Doubled(i, k + 8)
  {
  }

  lemma TurnedOnce(g: seq<int>)
    requires |g| == 10
    ensures var t := Turned(g, 1);
            && t[0] == 38 * g[9] && t[1] == g[0] && t[2] == 2 * g[1] && t[3] == g[2] && t[4] == 2 * g[3]
            && t[5] == g[4] && t[6] == 2 * g[5] && t[7] == g[6] && t[8] == 2 * g[7] && t[9] == g[8]
  {
  }

  lemma TurnedOnceAt(g: seq<int>, k: nat)
    requires |g| == 10 && k < 10
    ensures Turned(g, 1)[k] == if k == 0 then 38 * g[9] else if k % 2 == 0 then 2 * g[k - 1] else g[k - 1]
  {
    hide Turned;
    TurnedOnce(g);
    if k < 5 {
      assert k == 0 || k == 1 || k == 2 || k == 3 || k == 4;
    } else {
      assert k == 5 || k == 6 || k == 7 || k == 8 || k == 9;
    }
  }

  lemma TurnedStep(g: seq<int>, i: nat, k: nat)
    requires |g| == 10 && 2 <= i && k < 10
    ensures Turned(g, i)[k] == if k >= 2 then Turned(g, i - 2)[k - 2] else 19 * Turned(g, i - 2)[k + 8]
  {
  }

  /** Entry k of g times weight i. */
  function TurnedLimb(g: seq<int>, i: nat, k: nat): int
    requires |g| == 10 && i < 10 && k < 10
  {
    var limb := if k >= i then g[k - i] else 19 * g[10 + k - i];
    if Doubled(i, k) then 2 * limb else limb
  }

  lemma TurnedFirst(g: seq<int>, i: nat, k: nat)
    requires |g| == 10 && i < 2 && k < 10
    ensures Turned(g, i)[k] == TurnedLimb(g, i, k)
  {
    if i == 1 {
      hide Turned;
      TurnedOnceAt(g, k);
    }
  }

  lemma LimbShift(g: seq<int>, i: nat, k: nat)
    requires |g| == 10 && 2 <= i < 10 && k < 10
    ensures TurnedLimb(g, i, k)
            == if k >= 2 then TurnedLimb(g, i - 2, k - 2) else 19 * TurnedLimb(g, i - 2, k + 8)
  {
    hide Doubled;
    if k >= 2 {
      DoubledShift(i - 2, k - 2);
    } else {
      DoubledShift(i - 2, k);
    }
  }

  lemma {:induction false} TurnedAt(g: seq<int>, i: nat, k: nat)
    requires |g| == 10 && i < 10 && k < 10
    ensures Turned(g, i)[k] == TurnedLimb(g, i, k)
    decreases i
  {
    if i < 2 {
      TurnedFirst(g, i, k);
    } else {
      hide TurnedLimb, Turned;
      TurnedStep(g, i, k);
      LimbShift(g, i, k);
      TurnedAt(g, i - 2, if k >= 2 then k - 2 else k + 8);
    }
  }

  lemma EntryTurned(f: seq<int>, g: seq<int>, i: nat, k: nat)
    requires |f| == |g| == 10 && i < 10 && k < 10
    ensures Entry(f, g, i, k) == f[i] * Turned(g, i)[k]
  {
    hide Turned;
    TurnedAt(g, i, k);
  }

  /** Limb k of the sum of the first n rows. */
  function Column(f: seq<int>, g: seq<int>, k: nat, n: nat): int
    requires |f| == |g| == 10 && k < 10 && n <= 10
    decreases n
  {
    if n == 0 then 0 else Column(f, g, k, n - 1) + Entry(f, g, n - 1, k)
  }

  lemma ColumnEntries(f: seq<int>, g: seq<int>)
    requires |f| == |g| == 10
    ensures forall k {:trigger Column(f, g, k, 10)} | 0 <= k < 10 ::
      Column(f, g, k, 10)
      == Entry(f, g, 0, k) + Entry(f, g, 1, k) + Entry(f, g, 2, k) + Entry(f, g, 3, k) + Entry(f, g, 4, k)
         + Entry(f, g, 5, k) + Entry(f, g, 6, k) + Entry(f, g, 7, k) + Entry(f, g, 8, k) + Entry(f, g, 9, k)
  {
  }

  function Columns(f: seq<int>, g: seq<int>, n: nat): (r: seq<int>)
    requires |f| == |g| == 10 && n <= 10
    ensures |r| == 10
  {
    [Column(f, g, 0, n), Column(f, g, 1, n), Column(f, g, 2, n), Column(f, g, 3, n), Column(f, g, 4, n),
     Column(f, g, 5, n), Column(f, g, 6, n), Column(f, g, 7, n), Column(f, g, 8, n), Column(f, g, 9, n)]
  }

  /** The value of the first n limbs. */
  function Low(f: seq<int>, n: nat): int
    requires |f| == 10 && n <= 10
    decreases n
  {
    if n == 0 then 0 else Low(f, n - 1) + Weight(n - 1) * f[n - 1]
  }

  lemma LowIsValue(f: seq<int>)
    requires |f| == 10
    ensures Low(f, 10) == Value(f)
  {
  }

  lemma AddRow(a: seq<int>, x: int, t: seq<int>, s: seq<int>)
    requires |a| == |t| == |s| == 10
    requires forall k :: 0 <= k < 10 ==> s[k] == a[k] + x * t[k]
    ensures Value(s) == Value(a) + x * Value(t)
  {
    RowTimes(x, t[0], t[1], t[2], t[3], t[4], t[5], t[6], t[7], t[8], t[9]);
  }

  lemma RowTimes(x: int, t0: int, t1: int, t2: int, t3: int, t4: int, t5: int, t6: int, t7: int, t8: int, t9: int)
    ensures Value([x * t0, x * t1, x * t2, x * t3, x * t4, x * t5, x * t6, x * t7, x * t8, x * t9])
            == x * Value([t0, t1, t2, t3, t4, t5, t6, t7, t8, t9])
  {
  }

  lemma {:induction false} RowsMultiply(f: seq<int>, g: seq<int>, n: nat)
    requires |f| == |g| == 10 && n <= 10
    ensures Same(Value(Columns(f, g, n)), Low(f, n) * Value(g))
  {
    hide Same, Value, Turned, Entry, Mul;
    if n == 0 {
      NoRows(Columns(f, g, 0));
      SameBy(0, 0, 0);
    } else {
      var t, x := Turned(g, n - 1), f[n - 1];
      RowsMultiply(f, g, n - 1);
      ColumnsStep(f, g, n);
      LowStep(f, n);
      TurnedWeighs(g, n - 1);
      AddRow(Columns(f, g, n - 1), x, t, Columns(f, g, n));
      RowAdds(Value(Columns(f, g, n - 1)), Low(f, n - 1), x, Value(t), Weight(n - 1), Value(g));
    }
  }

  lemma RowAdds(columns: int, low: int, x: int, row: int, weight: int, v: int)
    requires Same(columns, low * v) && Same(row, weight * v)
    ensures Same(columns + x * row, (low + weight * x) * v)
  {
    hide Same;
    SameScale(x, row, weight * v);
    SameAdd(columns, low * v, x * row, x * (weight * v));
    Distribute(low, x, weight, v);
  }

  lemma ColumnsStep(f: seq<int>, g: seq<int>, n: nat)
    requires |f| == |g| == 10 && 1 <= n <= 10
    ensures forall k :: 0 <= k < 10 ==>
              Columns(f, g, n)[k] == Columns(f, g, n - 1)[k] + f[n - 1] * Turned(g, n - 1)[k]
  {
    hide Turned, Entry;
    forall k | 0 <= k < 10
      ensures Columns(f, g, n)[k] == Columns(f, g, n - 1)[k] + f[n - 1] * Turned(g, n - 1)[k]
    {
      EntryTurned(f, g, n - 1, k);
    }
  }

  lemma LowStep(f: seq<int>, n: nat)
    requires |f| == 10 && 1 <= n <= 10
    ensures Low(f, n) == Low(f, n - 1) + Weight(n - 1) * f[n - 1]
  {
  }

  lemma NoRows(s: seq<int>)
    requires |s| == 10 && forall k :: 0 <= k < 10 ==> s[k] == 0
    ensures Value(s) == 0
  {
  }

  lemma Distribute(a: int, x: int, w: int, v: int)
    ensures a * v + x * (w * v) == (a + w * x) * v
  {
  }

  /** The schoolbook columns are the product modulo the prime. */
  lemma ColumnsMultiply(f: seq<int>, g: seq<int>)
    requires |f| == |g| == 10
    ensures Same(Value(Columns(f, g, 10)), Value(f) * Value(g))
  {
    RowsMultiply(f, g, 10);
    LowIsValue(f);
  }
}
