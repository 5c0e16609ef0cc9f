/** Multiplication and squaring of field elements in 32-bit limbs. */
module FieldElement {
  import opened FieldSpec

  /** A product of two scaled limbs, and a sum of up to ten of them. */
  const TERM: int := 465_919_894_400_343_750

  type Term = x: int | -TERM <= x <= TERM
  type ColumnSum = x: int | -10 * TERM <= x <= 10 * TERM

  /** The 64-bit product of two limbs, of which the first may have been doubled and
      the second multiplied by 19. */
  function Wide(x: int32, y: int32): (r: Term)
    requires -221_459_250 <= x <= 221_459_250 && -2_103_862_875 <= y <= 2_103_862_875
    ensures r == Mul(x, y)
  {
    WideFits(x, y);
    x * y
  }

  function Scale(c: int32, x: int32): (r: int32)
    requires -0x8000_0000 <= c * x < 0x8000_0000
    ensures r == Scaled(c, x)
  {
    c * x
  }

  lemma WideFits(x: int, y: int)
    requires -221_459_250 <= x <= 221_459_250 && -2_103_862_875 <= y <= 2_103_862_875
    ensures -TERM <= x * y <= TERM
  {
    Magnitude(x, y, 221_459_250, 2_103_862_875);
  }

  lemma Magnitude(x: int, y: int, a: int, b: int)
    requires -a <= x <= a && -b <= y <= b
    ensures -(a * b) <= x * y <= a * b
  {
    assert (a - x) * (b - y) >= 0 && (a + x) * (b + y) >= 0;
    assert (a - x) * (b + y) >= 0 && (a + x) * (b - y) >= 0;
  }

  /** The sum from left to right; no partial sum leaves 64 bits. */
  function Total(a0: Term, a1: Term, a2: Term, a3: Term, a4: Term,
                 a5: Term := 0, a6: Term := 0, a7: Term := 0, a8: Term := 0, a9: Term := 0): ColumnSum
  {
    var s1: int64 := a0 + a1;
    var s2: int64 := s1 + a2;
    var s3: int64 := s2 + a3;
    var s4: int64 := s3 + a4;
    var s5: int64 := s4 + a5;
    var s6: int64 := s5 + a6;
    var s7: int64 := s6 + a7;
    var s8: int64 := s7 + a8;
    s8 + a9
  }

  const CARRY: int := 0x40_0000_0000

  type Even = x: int | -0x200_0000 <= x <= 0x200_0000
  type Odd = x: int | -0x100_0000 <= x <= 0x100_0000

  /** The nearest multiple of 2^26 or 2^25, as an arithmetic shift finds it. */
  function Carry26(x: int64): (c: int64)
    requires -11 * TERM <= x <= 11 * TERM
    ensures -0x200_0000 <= x - c * 0x400_0000 < 0x200_0000 && -CARRY <= c <= CARRY
  {
    (x + 0x200_0000) / 0x400_0000
  }

  function Carry25(x: int64): (c: int64)
    requires -11 * TERM <= x <= 11 * TERM
    ensures -0x100_0000 <= x - c * 0x200_0000 < 0x100_0000 && -CARRY <= c <= CARRY
  {
    (x + 0x100_0000) / 0x200_0000
  }

  /** The first eight of twelve carries, two chains side by side. */
  method CarryUp(a0: ColumnSum, a1: ColumnSum, a2: ColumnSum, a3: ColumnSum, a4: ColumnSum,
                 a5: ColumnSum, a6: ColumnSum, a7: ColumnSum, a8: ColumnSum, a9: ColumnSum)
    returns (h0: Even, h1: Odd, h2: Even, h3: Odd, h4: int64, h5: Odd, h6: Even, h7: Odd, h8: int64)
    ensures -CARRY - 0x200_0000 <= h4 <= CARRY + 0x200_0000 && -10 * TERM - CARRY <= h8 <= 10 * TERM + CARRY
    ensures Value([h0, h1, h2, h3, h4, h5, h6, h7, h8, a9]) == Value([a0, a1, a2, a3, a4, a5, a6, a7, a8, a9])
  {
    hide Carry26, Carry25;
    var carry0 := Carry26(a0);
    var b1: int64 := a1 + carry0;
    h0 := a0 - carry0 * 0x400_0000;
    var carry4 := Carry26(a4);
    var b5: int64 := a5 + carry4;
    var b4: Even := a4 - carry4 * 0x400_0000;
    var carry1 := Carry25(b1);
    var b2: int64 := a2 + carry1;
    h1 := b1 - carry1 * 0x200_0000;
    var carry5 := Carry25(b5);
    var b6: int64 := a6 + carry5;
    h5 := b5 - carry5 * 0x200_0000;
    var carry2 := Carry26(b2);
    var b3: int64 := a3 + carry2;
    h2 := b2 - carry2 * 0x400_0000;
    var carry6 := Carry26(b6);
    var b7: int64 := a7 + carry6;
    h6 := b6 - carry6 * 0x400_0000;
    var carry3 := Carry25(b3);
    h4 := b4 + carry3;
    h3 := b3 - carry3 * 0x200_0000;
    var carry7 := Carry25(b7);
    h8 := a8 + carry7;
    h7 := b7 - carry7 * 0x200_0000;
  }

  /** The last four carries: the top one comes back to the bottom times 19. */
  method CarryRound(h: array<int32>, a0: Even, a1: Odd, h2: Even, h3: Odd, a4: int64,
                    a5: Odd, h6: Even, h7: Odd, a8: int64, a9: ColumnSum)
    requires h.Length == 10
    requires -CARRY - 0x200_0000 <= a4 <= CARRY + 0x200_0000 && -10 * TERM - CARRY <= a8 <= 10 * TERM + CARRY
    modifies h
    ensures Reduced(h[..])
    ensures Same(Value(h[..]), Value([a0, a1, h2, h3, a4, a5, h6, h7, a8, a9]))
  {
    hide Carry26, Carry25, Value, Same;
    var carry4 := Carry26(a4);
    assert -0x2000 <= carry4 <= 0x2000;
    var h5 := a5 + carry4;
    var h4: Even := a4 - carry4 * 0x400_0000;
    var carry8 := Carry26(a8);
    var b9: int64 := a9 + carry8;
    var h8: Even := a8 - carry8 * 0x400_0000;
    var carry9 := Carry25(b9);
    var b0: int64 := a0 + carry9 * 19;
    var h9: Odd := b9 - carry9 * 0x200_0000;
    var carry0 := Carry26(b0);
    assert -0x2_0000 <= carry0 <= 0x2_0000;
    var h1 := a1 + carry0;
    var h0: Even := b0 - carry0 * 0x400_0000;
    h[0], h[1], h[2], h[3], h[4] := h0, h1, h2, h3, h4;
    h[5], h[6], h[7], h[8], h[9] := h5, h6, h7, h8, h9;
    RoundKeepsValue([a0, a1, h2, h3, a4, a5, h6, h7, a8, a9], h[..], carry4, carry8, carry9, carry0);
  }

  lemma RoundKeepsValue(a: seq<int>, h: seq<int>, c4: int, c8: int, c9: int, c0: int)
    requires |a| == |h| == 10 && h[2] == a[2] && h[3] == a[3] && h[6] == a[6] && h[7] == a[7]
    requires h[0] == a[0] + 19 * c9 - c0 * 0x400_0000 && h[1] == a[1] + c0
    requires h[4] == a[4] - c4 * 0x400_0000 && h[5] == a[5] + c4
    requires h[8] == a[8] - c8 * 0x400_0000 && h[9] == a[9] + c8 - c9 * 0x200_0000
    ensures Same(Value(h), Value(a))
  {
    SameBy(Value(h), Value(a), -c9);
  }

  method MulColumns(f: seq<int32>, g: seq<int32>)
    returns (h0: ColumnSum, h1: ColumnSum, h2: ColumnSum, h3: ColumnSum, h4: ColumnSum,
             h5: ColumnSum, h6: ColumnSum, h7: ColumnSum, h8: ColumnSum, h9: ColumnSum)
    requires Factor(f) && Factor(g)
    ensures h0 == Column(f, g, 0, 10)
    ensures h1 == Column(f, g, 1, 10)
    ensures h2 == Column(f, g, 2, 10)
    ensures h3 == Column(f, g, 3, 10)
    ensures h4 == Column(f, g, 4, 10)
    ensures h5 == Column(f, g, 5, 10)
    ensures h6 == Column(f, g, 6, 10)
    ensures h7 == Column(f, g, 7, 10)
    ensures h8 == Column(f, g, 8, 10)
    ensures h9 == Column(f, g, 9, 10)
  {
    hide Wide, Mul, Scaled, Column;
    MulScaled();
    ColumnEntries(f, g);
    var f0, f1, f2, f3, f4 := f[0], f[1], f[2], f[3], f[4];
    var f5, f6, f7, f8, f9 := f[5], f[6], f[7], f[8], f[9];
    var g0, g1, g2, g3, g4 := g[0], g[1], g[2], g[3], g[4];
    var g5, g6, g7, g8, g9 := g[5], g[6], g[7], g[8], g[9];
    var g1_19: int32, g2_19: int32, g3_19: int32 := Scale(19, g1), Scale(19, g2), Scale(19, g3);
    var g4_19: int32, g5_19: int32, g6_19: int32 := Scale(19, g4), Scale(19, g5), Scale(19, g6);
    var g7_19: int32, g8_19: int32, g9_19: int32 := Scale(19, g7), Scale(19, g8), Scale(19, g9);
    var f1_2: int32, f3_2: int32, f5_2: int32 := Scale(2, f1), Scale(2, f3), Scale(2, f5);
    var f7_2: int32, f9_2: int32 := Scale(2, f7), Scale(2, f9);
    var f0g0, f0g1, f0g2, f0g3, f0g4 := Wide(f0, g0), Wide(f0, g1), Wide(f0, g2), Wide(f0, g3), Wide(f0, g4);
    var f0g5, f0g6, f0g7, f0g8, f0g9 := Wide(f0, g5), Wide(f0, g6), Wide(f0, g7), Wide(f0, g8), Wide(f0, g9);
    var f1g0, f1g1_2, f1g2, f1g3_2, f1g4 := Wide(f1, g0), Wide(f1_2, g1), Wide(f1, g2), Wide(f1_2, g3), Wide(f1, g4);
    var f1g5_2, f1g6, f1g7_2, f1g8, f1g9_38 :=
      Wide(f1_2, g5), Wide(f1, g6), Wide(f1_2, g7), Wide(f1, g8), Wide(f1_2, g9_19);
    var f2g0, f2g1, f2g2, f2g3, f2g4 := Wide(f2, g0), Wide(f2, g1), Wide(f2, g2), Wide(f2, g3), Wide(f2, g4);
    var f2g5, f2g6, f2g7, f2g8_19, f2g9_19 :=
      Wide(f2, g5), Wide(f2, g6), Wide(f2, g7), Wide(f2, g8_19), Wide(f2, g9_19);
    var f3g0, f3g1_2, f3g2, f3g3_2, f3g4 := Wide(f3, g0), Wide(f3_2, g1), Wide(f3, g2), Wide(f3_2, g3), Wide(f3, g4);
    var f3g5_2, f3g6, f3g7_38, f3g8_19, f3g9_38 :=
      Wide(f3_2, g5), Wide(f3, g6), Wide(f3_2, g7_19), Wide(f3, g8_19), Wide(f3_2, g9_19);
    var f4g0, f4g1, f4g2, f4g3, f4g4 := Wide(f4, g0), Wide(f4, g1), Wide(f4, g2), Wide(f4, g3), Wide(f4, g4);
    var f4g5, f4g6_19, f4g7_19, f4g8_19, f4g9_19 :=
      Wide(f4, g5), Wide(f4, g6_19), Wide(f4, g7_19), Wide(f4, g8_19), Wide(f4, g9_19);
    var f5g0, f5g1_2, f5g2, f5g3_2, f5g4 := Wide(f5, g0), Wide(f5_2, g1), Wide(f5, g2), Wide(f5_2, g3), Wide(f5, g4);
    var f5g5_38, f5g6_19, f5g7_38, f5g8_19, f5g9_38 :=
      Wide(f5_2, g5_19), Wide(f5, g6_19), Wide(f5_2, g7_19), Wide(f5, g8_19), Wide(f5_2, g9_19);
    var f6g0, f6g1, f6g2, f6g3, f6g4_19 := Wide(f6, g0), Wide(f6, g1), Wide(f6, g2), Wide(f6, g3), Wide(f6, g4_19);
    var f6g5_19, f6g6_19, f6g7_19, f6g8_19, f6g9_19 :=
      Wide(f6, g5_19), Wide(f6, g6_19), Wide(f6, g7_19), Wide(f6, g8_19), Wide(f6, g9_19);
    var f7g0, f7g1_2, f7g2, f7g3_38, f7g4_19 :=
      Wide(f7, g0), Wide(f7_2, g1), Wide(f7, g2), Wide(f7_2, g3_19), Wide(f7, g4_19);
    var f7g5_38, f7g6_19, f7g7_38, f7g8_19, f7g9_38 :=
      Wide(f7_2, g5_19), Wide(f7, g6_19), Wide(f7_2, g7_19), Wide(f7, g8_19), Wide(f7_2, g9_19);
    var f8g0, f8g1, f8g2_19, f8g3_19, f8g4_19 :=
      Wide(f8, g0), Wide(f8, g1), Wide(f8, g2_19), Wide(f8, g3_19), Wide(f8, g4_19);
    var f8g5_19, f8g6_19, f8g7_19, f8g8_19, f8g9_19 :=
      Wide(f8, g5_19), Wide(f8, g6_19), Wide(f8, g7_19), Wide(f8, g8_19), Wide(f8, g9_19);
    var f9g0, f9g1_38, f9g2_19, f9g3_38, f9g4_19 :=
      Wide(f9, g0), Wide(f9_2, g1_19), Wide(f9, g2_19), Wide(f9_2, g3_19), Wide(f9, g4_19);
    var f9g5_38, f9g6_19, f9g7_38, f9g8_19, f9g9_38 :=
      Wide(f9_2, g5_19), Wide(f9, g6_19), Wide(f9_2, g7_19), Wide(f9, g8_19), Wide(f9_2, g9_19);
    h0 := Total(f0g0, f1g9_38, f2g8_19, f3g7_38, f4g6_19, f5g5_38, f6g4_19, f7g3_38, f8g2_19, f9g1_38);
    h1 := Total(f0g1, f1g0, f2g9_19, f3g8_19, f4g7_19, f5g6_19, f6g5_19, f7g4_19, f8g3_19, f9g2_19);
    h2 := Total(f0g2, f1g1_2, f2g0, f3g9_38, f4g8_19, f5g7_38, f6g6_19, f7g5_38, f8g4_19, f9g3_38);
    h3 := Total(f0g3, f1g2, f2g1, f3g0, f4g9_19, f5g8_19, f6g7_19, f7g6_19, f8g5_19, f9g4_19);
    h4 := Total(f0g4, f1g3_2, f2g2, f3g1_2, f4g0, f5g9_38, f6g8_19, f7g7_38, f8g6_19, f9g5_38);
    h5 := Total(f0g5, f1g4, f2g3, f3g2, f4g1, f5g0, f6g9_19, f7g8_19, f8g7_19, f9g6_19);
    h6 := Total(f0g6, f1g5_2, f2g4, f3g3_2, f4g2, f5g1_2, f6g0, f7g9_38, f8g8_19, f9g7_38);
    h7 := Total(f0g7, f1g6, f2g5, f3g4, f4g3, f5g2, f6g1, f7g0, f8g9_19, f9g8_19);
    h8 := Total(f0g8, f1g7_2, f2g6, f3g5_2, f4g4, f5g3_2, f6g2, f7g1_2, f8g0, f9g9_38);
    h9 := Total(f0g9, f1g8, f2g7, f3g6, f4g5, f5g4, f6g3, f7g2, f8g1, f9g0);
  }

  method SqColumns(f: seq<int32>)
    returns (h0: ColumnSum, h1: ColumnSum, h2: ColumnSum, h3: ColumnSum, h4: ColumnSum,
             h5: ColumnSum, h6: ColumnSum, h7: ColumnSum, h8: ColumnSum, h9: ColumnSum)
    requires Factor(f)
    ensures h0 == Column(f, f, 0, 10)
    ensures h1 == Column(f, f, 1, 10)
    ensures h2 == Column(f, f, 2, 10)
    ensures h3 == Column(f, f, 3, 10)
    ensures h4 == Column(f, f, 4, 10)
    ensures h5 == Column(f, f, 5, 10)
    ensures h6 == Column(f, f, 6, 10)
    ensures h7 == Column(f, f, 7, 10)
    ensures h8 == Column(f, f, 8, 10)
    ensures h9 == Column(f, f, 9, 10)
  {
    hide Wide, Mul, Scaled, Column;
    MulScaled();
    MulCommutes(f);
    ColumnEntries(f, f);
    var f0, f1, f2, f3, f4 := f[0], f[1], f[2], f[3], f[4];
    var f5, f6, f7, f8, f9 := f[5], f[6], f[7], f[8], f[9];
    var f0_2: int32, f1_2: int32, f2_2: int32 := Scale(2, f0), Scale(2, f1), Scale(2, f2);
    var f3_2: int32, f4_2: int32, f5_2: int32 := Scale(2, f3), Scale(2, f4), Scale(2, f5);
    var f6_2: int32, f7_2: int32, f5_38: int32 := Scale(2, f6), Scale(2, f7), Scale(38, f5);
    var f6_19: int32, f7_38: int32, f8_19: int32 := Scale(19, f6), Scale(38, f7), Scale(19, f8);
    var f9_38: int32 := Scale(38, f9);
    var f0f0, f0f1_2, f0f2_2, f0f3_2, f0f4_2 :=
      Wide(f0, f0), Wide(f0_2, f1), Wide(f0_2, f2), Wide(f0_2, f3), Wide(f0_2, f4);
    var f0f5_2, f0f6_2, f0f7_2, f0f8_2, f0f9_2 :=
      Wide(f0_2, f5), Wide(f0_2, f6), Wide(f0_2, f7), Wide(f0_2, f8), Wide(f0_2, f9);
    var f1f1_2, f1f2_2, f1f3_4, f1f4_2, f1f5_4 :=
      Wide(f1_2, f1), Wide(f1_2, f2), Wide(f1_2, f3_2), Wide(f1_2, f4), Wide(f1_2, f5_2);
    var f1f6_2, f1f7_4, f1f8_2, f1f9_76 := Wide(f1_2, f6), Wide(f1_2, f7_2), Wide(f1_2, f8), Wide(f1_2, f9_38);
    var f2f2, f2f3_2, f2f4_2, f2f5_2, f2f6_2 :=
      Wide(f2, f2), Wide(f2_2, f3), Wide(f2_2, f4), Wide(f2_2, f5), Wide(f2_2, f6);
    var f2f7_2, f2f8_38, f2f9_38 := Wide(f2_2, f7), Wide(f2_2, f8_19), Wide(f2, f9_38);
    var f3f3_2, f3f4_2, f3f5_4, f3f6_2, f3f7_76 :=
      Wide(f3_2, f3), Wide(f3_2, f4), Wide(f3_2, f5_2), Wide(f3_2, f6), Wide(f3_2, f7_38);
    var f3f8_38, f3f9_76 := Wide(f3_2, f8_19), Wide(f3_2, f9_38);
    var f4f4, f4f5_2, f4f6_38, f4f7_38, f4f8_38 :=
      Wide(f4, f4), Wide(f4_2, f5), Wide(f4_2, f6_19), Wide(f4, f7_38), Wide(f4_2, f8_19);
    var f4f9_38 := Wide(f4, f9_38);
    var f5f5_38, f5f6_38, f5f7_76, f5f8_38, f5f9_76 :=
      Wide(f5, f5_38), Wide(f5_2, f6_19), Wide(f5_2, f7_38), Wide(f5_2, f8_19), Wide(f5_2, f9_38);
    var f6f6_19, f6f7_38, f6f8_38, f6f9_38 := Wide(f6, f6_19), Wide(f6, f7_38), Wide(f6_2, f8_19), Wide(f6, f9_38);
    var f7f7_38, f7f8_38, f7f9_76 := Wide(f7, f7_38), Wide(f7_2, f8_19), Wide(f7_2, f9_38);
    var f8f8_19, f8f9_38 := Wide(f8, f8_19), Wide(f8, f9_38);
    var f9f9_38 := Wide(f9, f9_38);
    h0 := Total(f0f0, f1f9_76, f2f8_38, f3f7_76, f4f6_38, f5f5_38);
    h1 := Total(f0f1_2, f2f9_38, f3f8_38, f4f7_38, f5f6_38);
    h2 := Total(f0f2_2, f1f1_2, f3f9_76, f4f8_38, f5f7_76, f6f6_19);
    h3 := Total(f0f3_2, f1f2_2, f4f9_38, f5f8_38, f6f7_38);
    h4 := Total(f0f4_2, f1f3_4, f2f2, f5f9_76, f6f8_38, f7f7_38);
    h5 := Total(f0f5_2, f1f4_2, f2f3_2, f6f9_38, f7f8_38);
    h6 := Total(f0f6_2, f1f5_4, f2f4_2, f3f3_2, f7f9_76, f8f8_19);
    h7 := Total(f0f7_2, f1f6_2, f2f5_2, f3f4_2, f8f9_38);
    h8 := Total(f0f8_2, f1f7_4, f2f6_2, f3f5_4, f4f4, f9f9_38);
    h9 := Total(f0f9_2, f1f8_2, f2f7_2, f3f6_2, f4f5_2);
  }

  /** h = f * g modulo the prime, even when h is f or g. */
  method FeMul(h: array<int32>, f: array<int32>, g: array<int32>)
    requires h.Length == f.Length == g.Length == 10
    requires Factor(f[..]) && Factor(g[..])
    modifies h
    ensures Reduced(h[..])
    ensures Same(Value(h[..]), old(Value(f[..])) * old(Value(g[..])))
  {
    hide Factor, Reduced, Value, Same, Column;
    ghost var fs, gs := f[..], g[..];
    var h0, h1, h2, h3, h4, h5, h6, h7, h8, h9 := MulColumns(f[..], g[..]);
    h0, h1, h2, h3, h4, h5, h6, h7, h8 := CarryUp(h0, h1, h2, h3, h4, h5, h6, h7, h8, h9);
    CarryRound(h, h0, h1, h2, h3, h4, h5, h6, h7, h8, h9);
    ColumnsMultiply(fs, gs);
    SameTrans(Value(h[..]), Value(Columns(fs, gs, 10)), Value(fs) * Value(gs));
  }

  /** h = f * f modulo the prime, even when h is f. */
  method FeSq(h: array<int32>, f: array<int32>)
    requires h.Length == f.Length == 10
    requires Factor(f[..])
    modifies h
    ensures Reduced(h[..])
    ensures Same(Value(h[..]), old(Value(f[..])) * old(Value(f[..])))
  {
    hide Factor, Reduced, Value, Same, Column;
    ghost var fs := f[..];
    var h0, h1, h2, h3, h4, h5, h6, h7, h8, h9 := SqColumns(f[..]);
    h0, h1, h2, h3, h4, h5, h6, h7, h8 := CarryUp(h0, h1, h2, h3, h4, h5, h6, h7, h8, h9);
    CarryRound(h, h0, h1, h2, h3, h4, h5, h6, h7, h8, h9);
    ColumnsMultiply(fs, fs);
    SameTrans(Value(h[..]), Value(Columns(fs, fs, 10)), Value(fs) * Value(fs));
  }

  lemma ReducedIsFactor(f: seq<int>)
    requires Reduced(f)
    ensures Factor(f)
  {
  }
}
