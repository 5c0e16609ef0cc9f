/** Integer powers, shared by the base-10^9 numbers, the chain's work and the
    field arithmetic. */
module Power {

  function Pow(b: int, n: nat): int {
    if n == 0 then 1 else b * Pow(b, n - 1)
  }

  lemma {:induction false} PowAdd(b: int, m: nat, n: nat)
    ensures Pow(b, m + n) == Pow(b, m) * Pow(b, n)
  {
    if m == 0 {
    } else {
      PowAdd(b, m - 1, n);
      assert b * (Pow(b, m - 1) * Pow(b, n)) == (b * Pow(b, m - 1)) * Pow(b, n);
    }
  }

  lemma {:induction false} PowPositive(b: int, n: nat)
    requires b > 0
    ensures Pow(b, n) > 0
  {
    if n == 0 {
    } else {
      PowPositive(b, n - 1);
      assert b * Pow(b, n - 1) > 0;
    }
  }

  lemma {:induction false} PowMonotone(b: int, m: nat, n: nat)
    requires b > 0 && m <= n
    ensures 0 < Pow(b, m) <= Pow(b, n)
    decreases n
  {
    PowPositive(b, m);
    if m == n {
    } else {
      PowMonotone(b, m, n - 1);
      var p := Pow(b, n - 1);
      assert (b - 1) * p >= 0;
      assert b * p == (b - 1) * p + p;
    }
  }

  lemma PowersOfTwo()
    ensures Pow(2, 0) == 1 && Pow(2, 1) == 2 && Pow(2, 2) == 4 && Pow(2, 3) == 8 && Pow(2, 4) == 16
    ensures Pow(2, 5) == 32 && Pow(2, 6) == 64 && Pow(2, 7) == 128 && Pow(2, 8) == 256
  {
    assert Pow(2, 2) == 4;
    assert Pow(2, 4) == 16;
    assert Pow(2, 6) == 64;
  }
}
