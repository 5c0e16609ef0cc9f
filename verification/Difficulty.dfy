/** The difficulty retarget: how many bits to add or drop so that the elapsed
    time, halved or doubled once per bit, comes closest to the expected time. */
module Difficulties {
  import opened Words

  const MIN_DIFFICULTY := 16
  const TOP_DIFFICULTY := 254

  /** Division as the program performs it: towards zero. */
  function TruncDiv(a: int, b: int): int
    requires b > 0
  {
    if a >= 0 then a / b else -(-a / b)
  }

  /** A time halved (when blocks came too slowly) or doubled j times. */
  function Scaled(slow: bool, elapsed: int, j: nat): int {
    if j == 0 then elapsed
    else if slow then TruncDiv(Scaled(slow, elapsed, j - 1), 2)
    else 2 * Scaled(slow, elapsed, j - 1)
  }

  function Distance(elapsed: int, expected: int, j: nat): nat {
    Abs(Scaled(elapsed > expected, elapsed, j) - expected)
  }

  /** How many bits the difficulty may still move in its direction. */
  function Room(current: int, elapsed: int, expected: int): nat {
    if elapsed > expected then
      if current > MIN_DIFFICULTY then current - MIN_DIFFICULTY else 0
    else
      if current < TOP_DIFFICULTY then TOP_DIFFICULTY - current else 0
  }

  /** j is, among all allowed bit counts, the largest that gets closest. */
  ghost predicate Closest(elapsed: int, expected: int, j: nat, room: nat) {
    && j <= room
    && (forall i: nat | i <= j :: Distance(elapsed, expected, j) <= Distance(elapsed, expected, i))
    && (forall i: nat | j < i <= room :: Distance(elapsed, expected, j) < Distance(elapsed, expected, i))
  }

  function Moved(current: int, elapsed: int, expected: int, j: nat): int {
    if elapsed > expected then current - j else current + j
  }

  /** Once a step has moved away from the target, every further step does. */
  predicate Leaving(slow: bool, x: int, expected: int) {
    if slow then 0 <= x <= expected || expected <= x <= 0
    else (x >= 0 && x >= expected) || (x <= 0 && x <= expected)
  }

  lemma {:induction false} FartherForEver(elapsed: int, expected: int, j: nat, i: nat)
    requires Distance(elapsed, expected, j + 1) > Distance(elapsed, expected, j)
    requires j < i
    ensures Distance(elapsed, expected, j) < Distance(elapsed, expected, i)
    ensures Leaving(elapsed > expected, Scaled(elapsed > expected, elapsed, i), expected)
  {
    if i == j + 1 {
    } else {
      FartherForEver(elapsed, expected, j, i - 1);
    }
  }

  /** So the last step before the first one away is the closest of all. */
  lemma FirstRiseIsClosest(elapsed: int, expected: int, j: nat, room: nat)
    requires j <= room
    requires j < room ==> Distance(elapsed, expected, j + 1) > Distance(elapsed, expected, j)
    requires forall i: nat | i <= j :: Distance(elapsed, expected, j) <= Distance(elapsed, expected, i)
    ensures Closest(elapsed, expected, j, room)
  {
    forall i: nat | j < i <= room
      ensures Distance(elapsed, expected, j) < Distance(elapsed, expected, i)
    {
      FartherForEver(elapsed, expected, j, i);
    }
  }

  /** The closest bit count is unique, so it names one difficulty. */
  lemma ClosestUnique(elapsed: int, expected: int, j: nat, j': nat, room: nat)
    requires Closest(elapsed, expected, j, room) && Closest(elapsed, expected, j', room)
    ensures j == j'
  {
    var d, d' := Distance(elapsed, expected, j), Distance(elapsed, expected, j');
  }

  lemma HalfOfHalf(a: nat, k: int, k': int)
    requires k > 0 && k' == 2 * k
    ensures a / k' == a / k / 2
  {
    var q, r := a / k, a % k;
    var s, b := q / 2, q % 2;
    assert a == q * k + r;
    TwiceAndOne(q, k, s, b);
    DivModUnique(a, k', s, b * k + r);
  }

  lemma TwiceAndOne(q: int, k: int, s: int, b: int)
    requires q == 2 * s + b && 0 <= b <= 1
    ensures q * k == s * (2 * k) + b * k
    ensures b * k == 0 || b * k == k
  {
  }

  lemma TruncHalf(a: int, k: int, k': int, q: int)
    requires k > 0 && k' == 2 * k && q == TruncDiv(a, k)
    ensures TruncDiv(a, k') == TruncDiv(q, 2)
  {
    if a >= 0 {
      HalfOfHalf(a, k, k');
    } else {
      HalfOfHalf(-a, k, k');
    }
  }

  /** The branch that lowers the difficulty. */
  method Lower(current: int, elapsed: int, expected: int) returns (difficulty: int, fits: bool, ghost j: nat)
    requires elapsed > expected && InInt32(elapsed) && InInt32(expected)
    ensures Closest(elapsed, expected, j, Room(current, elapsed, expected))
    ensures difficulty == Moved(current, elapsed, expected, j)
    ensures expected == 9000 ==> fits
  {
    difficulty, fits := current, true;
    j := 0;
    var k, lastK := 2, 1;
    ghost var room := Room(current, elapsed, expected);
    while difficulty > 16
      invariant k == 2 * lastK && lastK > 0 && TruncDiv(elapsed, lastK) == Scaled(true, elapsed, j)
      invariant j <= room && difficulty == current - j
      invariant forall i: nat | i <= j :: Distance(elapsed, expected, j) <= Distance(elapsed, expected, i)
      invariant expected == 9000 ==> fits && TruncDiv(elapsed, lastK) >= 4500
    {
      TruncHalf(elapsed, lastK, k, Scaled(true, elapsed, j));
      var next, last := TruncDiv(elapsed, k) - expected, TruncDiv(elapsed, lastK) - expected;
      if expected == 9000 {
        LowerFits(elapsed, lastK, Scaled(true, elapsed, j));
      }
      fits := fits && InInt32(k) && InInt32(next) && InInt32(last) && InInt32(Abs(next)) && InInt32(Abs(last));
      if Abs(next) > Abs(last) {
        break;
      }
      difficulty := difficulty - 1;
      lastK := k;
      fits := fits && InInt32(2 * k);
      k := 2 * k;
      j := j + 1;
    }
    FirstRiseIsClosest(elapsed, expected, j, room);
  }

  lemma LowerFits(elapsed: int, lastK: int, q: int)
    requires lastK > 0 && InInt32(elapsed) && q == TruncDiv(elapsed, lastK) && q >= 4500
    ensures InInt32(4 * lastK)
    ensures 0 <= q < 0x8000_0000
  {
    assert q == elapsed / lastK;
    MultipleFits(elapsed, lastK, q);
  }

  lemma MultipleFits(a: int, k: int, q: int)
    requires k > 0 && q == a / k && q >= 4500
    ensures 4500 * k <= a && q <= a
  {
    assert q * k <= a;
    assert (q - 4500) * k >= 0;
    assert q * (k - 1) >= 0;
  }

  ghost function Doubled(j: nat): int { if j == 0 then 1 else 2 * Doubled(j - 1) }

  lemma {:induction false} DoubledGrows(i: nat, j: nat)
    requires i <= j
    ensures 0 < Doubled(i) <= Doubled(j)
    decreases i, j
  {
    if j == 0 {
    } else if i == 0 {
      DoubledGrows(0, j - 1);
    } else {
      DoubledGrows(i - 1, j - 1);
    }
  }

  lemma DoubledTo30()
    ensures Doubled(28) == 0x1000_0000 && Doubled(29) == 0x2000_0000 && Doubled(30) == 0x4000_0000
  {
    assert Doubled(4) == 0x10;
    assert Doubled(8) == 0x100;
    assert Doubled(12) == 0x1000;
    assert Doubled(16) == 0x1_0000;
    assert Doubled(20) == 0x10_0000;
    assert Doubled(24) == 0x100_0000;
  }

  lemma DoubledFits(j: nat)
    ensures 0 < Doubled(j)
    ensures InInt32(2 * Doubled(j)) <==> j < 30
    ensures InInt32(4 * Doubled(j)) <==> j < 29
  {
    DoubledTo30();
    if j <= 28 {
      DoubledGrows(j, 28);
    } else if j >= 30 {
      DoubledGrows(30, j);
    }
    DoubledGrows(0, j);
  }

  lemma {:induction false} ScaledIsProduct(elapsed: int, j: nat)
    ensures elapsed * Doubled(j) == Scaled(false, elapsed, j)
  {
    if j == 0 {
    } else {
      ScaledIsProduct(elapsed, j - 1);
      assert elapsed * (2 * Doubled(j - 1)) == 2 * (elapsed * Doubled(j - 1));
    }
  }

  predicate FitsDoubling(x: int, expected: int) {
    && InInt32(2 * x) && InInt32(x) && InInt32(2 * x - expected) && InInt32(x - expected)
    && InInt32(Abs(2 * x - expected)) && InInt32(Abs(x - expected))
  }

  /** One comparison of the raising loop: is one more bit farther off? */
  method OvershootsMore(elapsed: int, expected: int, k: int, lastK: int, ghost j: nat) returns (more: bool, fits: bool)
    requires lastK == Doubled(j) && k == 2 * lastK
    ensures more <==> Abs(2 * Scaled(false, elapsed, j) - expected) > Abs(Scaled(false, elapsed, j) - expected)
    ensures fits <==> FitsDoubling(Scaled(false, elapsed, j), expected)
  {
    ScaledIsProduct(elapsed, j);
    ScaledIsProduct(elapsed, j + 1);
    var up, down := elapsed * k, elapsed * lastK;
    more := Abs(up - expected) > Abs(down - expected);
    fits := InInt32(up) && InInt32(down) && InInt32(up - expected) && InInt32(down - expected)
            && InInt32(Abs(up - expected)) && InInt32(Abs(down - expected));
  }

  lemma {:induction false} ScaledSign(elapsed: int, j: nat)
    ensures elapsed == 0 ==> Scaled(false, elapsed, j) == 0
    ensures elapsed > 0 ==> Scaled(false, elapsed, j) >= Doubled(j)
  {
    if j == 0 {
    } else {
      ScaledSign(elapsed, j - 1);
    }
  }

  /** What one round of the raising loop does to the range check. */
  lemma RoundFits(elapsed: int, j: nat, x: int)
    requires x == Scaled(false, elapsed, j)
    ensures elapsed > 0 && x < 18000 ==>
              FitsDoubling(x, 9000) && InInt32(4 * Doubled(j)) && (Abs(2 * x - 9000) <= Abs(x - 9000) ==> 2 * x < 18000)
    ensures elapsed < 0 && j == 0 ==>
              (FitsDoubling(x, 9000) <==> elapsed >= -1073737323) && Abs(2 * x - 9000) > Abs(x - 9000)
    ensures elapsed == 0 ==> FitsDoubling(x, 9000) && Abs(2 * x - 9000) == Abs(x - 9000)
    ensures 0 < Doubled(j) && (InInt32(2 * Doubled(j)) <==> j < 30) && (InInt32(4 * Doubled(j)) <==> j < 29)
  {
    ScaledSign(elapsed, j);
    DoubledFits(j);
  }

  lemma RaiseStart(elapsed: int)
    ensures Doubled(0) == 1 && Scaled(false, elapsed, 0) == elapsed
  {
  }

  lemma RaiseDistances(elapsed: int, expected: int, j: nat)
    requires elapsed <= expected
    ensures Distance(elapsed, expected, j) == Abs(Scaled(false, elapsed, j) - expected)
    ensures Distance(elapsed, expected, j + 1) == Abs(2 * Scaled(false, elapsed, j) - expected)
    ensures Scaled(false, elapsed, j + 1) == 2 * Scaled(false, elapsed, j)
    ensures Doubled(j + 1) == 2 * Doubled(j)
  {
  }

  /** The branch that raises the difficulty. */
  method Raise(current: int, elapsed: int, expected: int) returns (difficulty: int, fits: bool, ghost j: nat)
    requires elapsed <= expected && InInt32(elapsed) && InInt32(expected)
    ensures Closest(elapsed, expected, j, Room(current, elapsed, expected))
    ensures difficulty == Moved(current, elapsed, expected, j)
    ensures expected == 9000 && MIN_DIFFICULTY <= current <= TOP_DIFFICULTY ==> (fits <==> RaiseFits(current, elapsed))
  {
    hide Distance, Scaled, Doubled, FitsDoubling, Closest, Abs;
    difficulty, fits := current, true;
    j := 0;
    var k, lastK := 2, 1;
    ghost var room := Room(current, elapsed, expected);
    RaiseStart(elapsed);
    while difficulty < 254
      invariant lastK == Doubled(j) && k == 2 * lastK
      invariant j <= room && difficulty == current + j
      invariant forall i: nat | i <= j :: Distance(elapsed, expected, j) <= Distance(elapsed, expected, i)
      invariant expected == 9000 && elapsed > 0 ==> fits && Scaled(false, elapsed, j) < 18000
      invariant expected == 9000 && elapsed < 0 ==> fits && j == 0
      invariant expected == 9000 && elapsed == 0 ==> (fits <==> j < 30)
    {
      RoundFits(elapsed, j, Scaled(false, elapsed, j));
      RaiseDistances(elapsed, expected, j);
      var more, ok := OvershootsMore(elapsed, expected, k, lastK, j);
      fits := fits && InInt32(k) && ok;
      if more {
        break;
      }
      difficulty := difficulty + 1;
      lastK := k;
      fits := fits && InInt32(2 * k);
      k := 2 * k;
      j := j + 1;
    }
    FirstRiseIsClosest(elapsed, expected, j, room);
  }

  /** Exactly when every intermediate value is a 32-bit integer, for the one
      expected time in use: an elapsed time of zero keeps doubling the divisor,
      and a very negative one leaves the range at once. */
  predicate RaiseFits(current: int, elapsed: int) {
    current == TOP_DIFFICULTY || elapsed > 0 || (elapsed == 0 && current > 224) || -1073737323 <= elapsed < 0
  }

  /** The new difficulty moves by the closest bit count; `fits` reports whether
      no intermediate value of the computation left the 32-bit range. */
  method ComputeDifficulty(current: int, elapsed: int, expected: int)
    returns (difficulty: int, fits: bool, ghost j: nat)
    requires InInt32(elapsed) && InInt32(expected)
    ensures Closest(elapsed, expected, j, Room(current, elapsed, expected))
    ensures difficulty == Moved(current, elapsed, expected, j)
    ensures MIN_DIFFICULTY <= current <= TOP_DIFFICULTY ==> MIN_DIFFICULTY <= difficulty <= TOP_DIFFICULTY
    ensures MIN_DIFFICULTY <= current <= TOP_DIFFICULTY && expected == 9000 ==> (fits <==> RaiseFits(current, elapsed))
  {
    if elapsed > expected {
      difficulty, fits, j := Lower(current, elapsed, expected);
    } else {
      difficulty, fits, j := Raise(current, elapsed, expected);
    }
  }
}
