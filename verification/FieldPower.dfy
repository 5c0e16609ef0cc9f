/** Inversion and the exponent used for square roots, by chains of squarings and
    products. */
module FieldPower {
  import opened Power
  import opened FieldSpec
  import opened FieldElement

  /** Is h congruent to z to the n? */
  ghost predicate IsPower(h: int, z: int, n: nat) {
    Same(h, Pow(z, n))
  }

  lemma PowerProduct(h: int, a: int, b: int, z: int, m: nat, n: nat)
    requires IsPower(a, z, m) && IsPower(b, z, n) && Same(h, a * b)
    ensures IsPower(h, z, m + n)
  {
    hide Same, Pow;
    PowAdd(z, m, n);
    SameProduct(a, Pow(z, m), b, Pow(z, n));
    SameTrans(h, a * b, Pow(z, m + n));
  }

  /** A limb array that is a bounded power of z. */
  ghost predicate Holds(h: array<int32>, z: int, n: nat)
    reads h
    requires h.Length == 10
  {
    Factor(h[..]) && IsPower(Value(h[..]), z, n)
  }

  method MulPowers(h: array<int32>, f: array<int32>, g: array<int32>, ghost z: int, ghost m: nat, ghost n: nat)
    requires h.Length == f.Length == g.Length == 10
    requires Holds(f, z, m) && Holds(g, z, n)
    modifies h
    ensures Reduced(h[..]) && Holds(h, z, m + n)
  {
    hide IsPower, Same, Value, Factor, Reduced;
    ghost var a, b := Value(f[..]), Value(g[..]);
    FeMul(h, f, g);
    ReducedIsFactor(h[..]);
    PowerProduct(Value(h[..]), a, b, z, m, n);
  }

  /** m with n binary zeros behind it, and n binary ones. */
  ghost function Shifted(m: nat, n: nat): nat {
    if n == 0 then m else 2 * Shifted(m, n - 1)
  }

  ghost function Ones(n: nat): nat {
    if n == 0 then 0 else 2 * Ones(n - 1) + 1
  }

  lemma {:induction false} MoreOnes(m: nat, n: nat)
    ensures Shifted(Ones(m), n) + Ones(n) == Ones(m + n)
  {
    if n == 0 {
    } else {
      MoreOnes(m, n - 1);
    }
  }

  lemma {:induction false} OnesBelowPower(n: nat)
    ensures Ones(n) + 1 == Pow(2, n)
  {
    if n == 0 {
    } else {
      OnesBelowPower(n - 1);
    }
  }

  /** Squares f n times into h, as each squaring loop of the chains does. */
  method SquareTimes(h: array<int32>, f: array<int32>, n: nat, ghost z: int, ghost m: nat)
    requires h.Length == f.Length == 10 && n >= 1
    requires Holds(f, z, m)
    modifies h
    ensures Holds(h, z, Shifted(m, n))
  {
    SquareOnce(h, f, z, m);
    for i := 1 to n
      invariant Holds(h, z, Shifted(m, i))
    {
      SquareOnce(h, h, z, Shifted(m, i));
    }
  }

  method SquareOnce(h: array<int32>, f: array<int32>, ghost z: int, ghost m: nat)
    requires h.Length == f.Length == 10
    requires Holds(f, z, m)
    modifies h
    ensures Holds(h, z, 2 * m)
  {
    hide IsPower, Same, Value, Factor, Reduced;
    ghost var a := Value(f[..]);
    FeSq(h, f);
    ReducedIsFactor(h[..]);
    PowerProduct(Value(h[..]), a, a, z, m, m);
  }

  /** Brings t from z^(2^m - 1) to z^(2^(m+n) - 1), given z^(2^n - 1) in s: out of n
      squarings and one product, through the scratch array u. */
  method AppendOnes(h: array<int32>, u: array<int32>, t: array<int32>, s: array<int32>, m: nat, n: nat, ghost z: int)
    requires h.Length == u.Length == t.Length == s.Length == 10 && u != s && n >= 1
    requires Holds(t, z, Ones(m)) && Holds(s, z, Ones(n))
    modifies h, u
    ensures Holds(h, z, Ones(m + n))
    ensures u != t && h != t ==> t[..] == old(t[..])
    ensures u != s && h != s ==> s[..] == old(s[..])
  {
    hide Holds;
    SquareTimes(u, t, n, z, Ones(m));
    MulPowers(h, u, s, z, Shifted(Ones(m), n), Ones(n));
    MoreOnes(m, n);
  }

  /** From z^(2^5 - 1) in t to z^(2^250 - 1), through the scratch arrays u and w. */
  method LongChain(t: array<int32>, u: array<int32>, w: array<int32>, ghost z: int)
    requires t.Length == u.Length == w.Length == 10 && t != u && t != w && u != w
    requires Holds(t, z, Ones(5))
    modifies t, u, w
    ensures Holds(t, z, Ones(250))
  {
    hide Holds, Ones;
    AppendOnes(t, u, t, t, 5, 5, z);
    AppendOnes(u, u, t, t, 10, 10, z);
    AppendOnes(u, w, u, u, 20, 20, z);
    AppendOnes(t, u, u, t, 40, 10, z);
    AppendOnes(u, u, t, t, 50, 50, z);
    AppendOnes(u, w, u, u, 100, 100, z);
    AppendOnes(t, u, u, t, 200, 50, z);
  }

  /** z^11 in t0 and z^9 in t1. */
  method ShortChain(t0: array<int32>, t1: array<int32>, z: array<int32>)
    requires t0.Length == t1.Length == z.Length == 10 && t0 != t1 && t0 != z && t1 != z
    requires Factor(z[..])
    modifies t0, t1
    ensures Holds(t0, Value(z[..]), 11) && Holds(t1, Value(z[..]), 9)
  {
    hide Holds, Value, Factor, Shifted;
    ghost var v := Value(z[..]);
    HoldsItself(z);
    SmallExponents();
    SquareTimes(t0, z, 1, v, 1);
    SquareTimes(t1, t0, 2, v, 2);
    MulPowers(t1, z, t1, v, 1, 8);
    MulPowers(t0, t0, t1, v, 2, 9);
  }

  /** out = z^(2^255 - 21), even when out is z. */
  method FeInvert(out: array<int32>, z: array<int32>)
    requires out.Length == z.Length == 10
    requires Factor(z[..])
    modifies out
    ensures Reduced(out[..])
    ensures IsPower(Value(out[..]), old(Value(z[..])), InvertExponent())
  {
    hide Holds, Ones, Shifted, InvertExponent, Value, Factor, Reduced, IsPower;
    ghost var v := Value(z[..]);
    var t0, t1, t2, t3 := new int32[10], new int32[10], new int32[10], new int32[10];
    SmallExponents();
    ShortChain(t0, t1, z);
    SquareTimes(t2, t0, 1, v, 11);
    MulPowers(t1, t1, t2, v, 9, 22);
    LongChain(t1, t2, t3, v);
    SquareTimes(t1, t1, 5, v, Ones(250));
    MulPowers(out, t1, t0, v, Shifted(Ones(250), 5), 11);
    InvertExponentReached();
    HoldsPower(out, v, InvertExponent());
  }

  /** out = z^(2^252 - 3), even when out is z. */
  method FePow22523(out: array<int32>, z: array<int32>)
    requires out.Length == z.Length == 10
    requires Factor(z[..])
    modifies out
    ensures Reduced(out[..])
    ensures IsPower(Value(out[..]), old(Value(z[..])), RootExponent())
  {
    hide Holds, Ones, Shifted, RootExponent, Value, Factor, Reduced, IsPower;
    ghost var v := Value(z[..]);
    var t0, t1, t2 := new int32[10], new int32[10], new int32[10];
    SmallExponents();
    ShortChain(t0, t1, z);
    SquareTimes(t0, t0, 1, v, 11);
    MulPowers(t0, t1, t0, v, 9, 22);
    LongChain(t0, t1, t2, v);
    SquareTimes(t0, t0, 2, v, Ones(250));
    HoldsItself(z);
    MulPowers(out, t0, z, v, Shifted(Ones(250), 2), 1);
    RootExponentReached();
    HoldsPower(out, v, RootExponent());
  }

  lemma HoldsPower(h: array<int32>, z: int, n: nat)
    requires h.Length == 10 && Holds(h, z, n)
    ensures IsPower(Value(h[..]), z, n)
  {
  }

  lemma HoldsItself(z: array<int32>)
    requires z.Length == 10 && Factor(z[..])
    ensures Holds(z, Value(z[..]), 1)
  {
    assert Pow(Value(z[..]), 1) == Value(z[..]) * Pow(Value(z[..]), 0);
  }

  lemma SmallExponents()
    ensures Shifted(1, 1) == 2 && Shifted(2, 2) == 8
    ensures Shifted(11, 1) == 22 && Ones(5) == 31
  {
    assert Shifted(2, 1) == 4 && Shifted(11, 0) == 11;
    assert Ones(1) == 1 && Ones(2) == 3 && Ones(3) == 7;
  }

  ghost function InvertExponent(): nat {
    OnesBelowPower(255);
    MoreOnes(250, 5);
    SmallExponents();
    Pow(2, 255) - 21
  }

  ghost function RootExponent(): nat {
    OnesBelowPower(252);
    MoreOnes(250, 2);
    Pow(2, 252) - 3
  }

  lemma InvertExponentReached()
    ensures Shifted(Ones(250), 5) + 11 == InvertExponent()
  {
    OnesBelowPower(255);
    MoreOnes(250, 5);
    SmallExponents();
  }

  lemma RootExponentReached()
    ensures Shifted(Ones(250), 2) + 1 == RootExponent()
  {
    OnesBelowPower(252);
    MoreOnes(250, 2);
    assert Ones(1) == 1 && Ones(2) == 3;
  }

  /** The prime is 2^255 - 19, and the exponents are p - 2 and (p - 5) / 8. */
  lemma PrimeAndExponents()
    ensures PRIME == Pow(2, 255) - 19
    ensures InvertExponent() == PRIME - 2 && 8 * RootExponent() == PRIME - 5
  {
    PowersOfTwo();
    PowAdd(2, 8, 8);
    PowAdd(2, 16, 16);
    PowAdd(2, 32, 32);
    PowAdd(2, 64, 64);
    PowAdd(2, 128, 64);
    PowAdd(2, 192, 32);
    PowAdd(2, 224, 16);
    PowAdd(2, 240, 8);
    PowAdd(2, 248, 4);
    PowAdd(2, 252, 3);
  }

  /** What FeInvert leaves is the inverse of z exactly if Fermat's theorem holds for z. */
  lemma InvertInverts(z: int, r: int)
    requires IsPower(r, z, InvertExponent())
    ensures Same(r * z, 1) <==> Same(Pow(z, InvertExponent() + 1), 1)   // z^(p-1) is 1
  {
    hide Same, InvertExponent;
    var n := InvertExponent();
    assert Pow(z, n + 1) == z * Pow(z, n);
    SameScale(z, r, Pow(z, n));
    SameBack(r * z, Pow(z, n + 1));
    if Same(r * z, 1) {
      SameTrans(Pow(z, n + 1), r * z, 1);
    }
    if Same(Pow(z, n + 1), 1) {
      SameTrans(r * z, Pow(z, n + 1), 1);
    }
  }

  lemma SameBack(x: int, y: int)
    requires Same(x, y)
    ensures Same(y, x)
  {
  }
}
