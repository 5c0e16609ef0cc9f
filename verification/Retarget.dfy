/** The retarget in closed form, for the times that the program asks about: a hundred
    blocks are expected to take 9000 seconds. */
module Retargets {
  import opened Power
  import opened Records
  import opened Difficulties
  import opened ChainSpec

  lemma {:induction false} FastScaled(elapsed: int, j: nat)
    ensures Scaled(false, elapsed, j) == elapsed * Pow(2, j)
  {
    if j == 0 {
    } else {
      FastScaled(elapsed, j - 1);
      assert elapsed * (2 * Pow(2, j - 1)) == 2 * (elapsed * Pow(2, j - 1));
    }
  }

  lemma {:induction false} SlowScaled(elapsed: nat, j: nat)
    ensures Pow(2, j) > 0 && Scaled(true, elapsed, j) == elapsed / Pow(2, j)
  {
    PowPositive(2, j);
    if j == 0 {
    } else {
      SlowScaled(elapsed, j - 1);
      HalfOfHalf(elapsed, Pow(2, j - 1), Pow(2, j));
    }
  }

  /** One more doubling is farther off from 6000 seconds on: a tie at 6000 still moves. */
  lemma FastStep(elapsed: int, j: nat)
    requires 0 < elapsed <= 9000
    ensures Distance(elapsed, 9000, j + 1) > Distance(elapsed, 9000, j) <==> elapsed * Pow(2, j) > 6000
  {
    FastScaled(elapsed, j);
    PowPositive(2, j);
    assert elapsed * Pow(2, j) > 0;
    var x := Scaled(false, elapsed, j);
  }

  /** One more halving is farther off below 12000 seconds. */
  lemma SlowStep(elapsed: int, j: nat)
    requires elapsed > 9000
    ensures Pow(2, j) > 0
    ensures elapsed / Pow(2, j) > 0 ==>
              (Distance(elapsed, 9000, j + 1) > Distance(elapsed, 9000, j) <==> elapsed / Pow(2, j) < 12000)
  {
    SlowScaled(elapsed, j);
    var x := Scaled(true, elapsed, j);
  }

  lemma {:induction false} FastSteps(elapsed: int, j: nat, room: nat)
    requires 0 < elapsed <= 9000 && j <= room && (j > 0 ==> elapsed * Pow(2, j) <= 12000)
    ensures var k := Steps(elapsed, 9000, j, room);
            && j <= k <= room && (k > 0 ==> elapsed * Pow(2, k) <= 12000) && (k < room ==> elapsed * Pow(2, k) > 6000)
    decreases room - j
  {
    hide Distance;
    FastStep(elapsed, j);
    if j == room || elapsed * Pow(2, j) > 6000 {
    } else {
      assert elapsed * Pow(2, j + 1) == 2 * (elapsed * Pow(2, j)) by {
        assert elapsed * (2 * Pow(2, j)) == 2 * (elapsed * Pow(2, j));
      }
      FastSteps(elapsed, j + 1, room);
    }
  }

  lemma StillLate(elapsed: int, j: nat)
    requires elapsed > 9000 && (j > 0 ==> Pow(2, j - 1) > 0 && elapsed / Pow(2, j - 1) >= 12000)
    ensures Pow(2, j) > 0 && elapsed / Pow(2, j) >= 6000
  {
    if j == 0 {
    } else {
      HalfOfHalf(elapsed, Pow(2, j - 1), Pow(2, j));
    }
  }

  lemma {:induction false} SlowSteps(elapsed: int, j: nat, room: nat)
    requires elapsed > 9000 && j <= room && (j > 0 ==> Pow(2, j - 1) > 0 && elapsed / Pow(2, j - 1) >= 12000)
    ensures var k := Steps(elapsed, 9000, j, room);
            && j <= k <= room && Pow(2, k) > 0
            && (k > 0 ==> Pow(2, k - 1) > 0 && elapsed / Pow(2, k - 1) >= 12000)
            && (k < room ==> elapsed / Pow(2, k) < 12000)
    decreases room - j
  {
    hide Distance, Pow;
    SlowStep(elapsed, j);
    StillLate(elapsed, j);
    if j == room || elapsed / Pow(2, j) < 12000 {
    } else {
      SlowSteps(elapsed, j + 1, room);
    }
  }

  /** A hundred blocks in time or early: as many bits more as it takes to bring the time,
      doubled once per bit, above 6000 seconds, and no more than to 12000; up to 254. */
  lemma RetargetFast(current: int, elapsed: int)
    requires 16 <= current <= 254 && 0 < elapsed <= 9000
    ensures var r := Retarget(current, elapsed);
            && current <= r <= 254
            && (r > current ==> elapsed * Pow(2, r - current) <= 12000)
            && (r < 254 ==> elapsed * Pow(2, r - current) > 6000)
  {
    FastSteps(elapsed, 0, 254 - current);
  }

  /** Late: as many bits less as it takes to bring the time, halved once per bit, below
      12000 seconds, and no more; down to 16. */
  lemma RetargetSlow(current: int, elapsed: int)
    requires 16 <= current <= 254 && elapsed > 9000
    ensures var r := Retarget(current, elapsed);
            && 16 <= r <= current
            && (r < current ==> Pow(2, current - r - 1) > 0 && elapsed / Pow(2, current - r - 1) >= 12000)
            && (r > 16 ==> Pow(2, current - r) > 0 && elapsed / Pow(2, current - r) < 12000)
  {
    hide Pow;
    SlowSteps(elapsed, 0, current - 16);
  }

  /** No time at all counts as infinitely early, and a negative one as none to act on. */
  lemma RetargetOdd(current: int, elapsed: int)
    requires 16 <= current <= 254 && elapsed <= 0
    ensures Retarget(current, elapsed) == if elapsed == 0 then 254 else current
  {
    if elapsed == 0 {
      StandingStill(0, 254 - current);
    } else {
      assert Scaled(false, elapsed, 1) == 2 * elapsed;
    }
  }

  lemma {:induction false} StandingStill(j: nat, room: nat)
    requires j <= room
    ensures Steps(0, 9000, j, room) == room
    decreases room - j
  {
    FastScaled(0, j);
    FastScaled(0, j + 1);
    if j == room {
    } else {
      StandingStill(j + 1, room);
    }
  }

  // ----- the time that is asked about -----

  lemma {:induction false} EvenlySpaced(s: seq<Block>, n: nat, x: nat)
    requires n < |s| && forall i :: |s| - n <= i < |s| ==> s[i].timestamp == s[i - 1].timestamp + x
    ensures s[|s| - 1].timestamp == s[|s| - 1 - n].timestamp + n * x
  {
    if n == 0 {
    } else {
      EvenlySpaced(s, n - 1, x);
      assert s[|s| - n].timestamp == s[|s| - n - 1].timestamp + x;
      assert n * x == (n - 1) * x + x;
    }
  }

  /** If each of the last hundred blocks comes x seconds after the one before, the time
      that has elapsed is that of a hundred blocks. */
  lemma ElapsedIs(s: seq<Block>, x: nat)
    requires |s| > 100 && 100 * x < 0x8000_0000
    requires forall i :: |s| - 100 <= i < |s| ==> s[i].timestamp == s[i - 1].timestamp + x
    ensures Elapsed(s) == 100 * x
  {
    EvenlySpaced(s, 100, x);
  }

  /** The difficulty can move after 300, 400, 500 and so on blocks; then it is that for the
      time of the last hundred. */
  lemma NextIs(d: int, s: seq<Block>, x: nat)
    requires |s| > 100 && 100 * x < 0x8000_0000
    requires forall i :: |s| - 100 <= i < |s| ==> s[i].timestamp == s[i - 1].timestamp + x
    ensures NextDifficulty(d, s) == if |s| >= 300 && |s| % 100 == 0 then Retarget(d, 100 * x) else d
  {
    hide Retarget;
    ElapsedIs(s, x);
  }

  // ----- the other sums over a chain -----

  /** The total work of blocks of one difficulty. */
  lemma {:induction false} WorkIs(s: seq<Block>, d: nat)
    requires forall b <- s :: b.difficulty % 256 == d
    ensures Work(s) == |s| * Pow(2, d)
  {
    if s == [] {
    } else {
      WorkIs(Init(s), d);
      assert Last(s) in s;
      assert |s| * Pow(2, d) == (|s| - 1) * Pow(2, d) + Pow(2, d);
    }
  }

  lemma {:induction false} WorkAdds(s: seq<Block>, t: seq<Block>)
    ensures Work(s + t) == Work(s) + Work(t)
  {
    if t == [] {
      assert s + t == s;
    } else {
      WorkAdds(s, Init(t));
      assert Init(s + t) == s + Init(t) && Last(s + t) == Last(t);
    }
  }

  /** The reward after n blocks: 50 coins, then 25, then 12.5, then none. */
  lemma RewardIs(n: nat)
    ensures MiningFee(n) == if n < 867070 then 50_0000 else if n < 1867070 then 25_0000
                            else if n < 3867070 then 12_5000 else 0
  {
  }
}
