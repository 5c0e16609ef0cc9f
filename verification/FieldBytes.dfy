/** Field elements as 32 bytes: the one canonical encoding, section 5.1.2 of RFC 8032,
    and reading it back. */
module FieldBytes {
  import opened Words
  import opened FieldSpec

  type Even = x: int | 0 <= x < 0x400_0000
  type Odd = x: int | 0 <= x < 0x200_0000

  /** 1.1 * 2^26 and 1.1 * 2^25, rounded down: the bounds for encoding. */
  predicate Bounded(h0: int, h1: int, h2: int, h3: int, h4: int,
      h5: int, h6: int, h7: int, h8: int, h9: int) {
    Between(h0, h1, h2, h3, h4, h5, h6, h7, h8, h9, 73_819_750, 36_909_875)
  }

  predicate Encodable(h: seq<int>) {
    |h| == 10 && Bounded(h[0], h[1], h[2], h[3], h[4], h[5], h[6], h[7], h[8], h[9])
  }

  /** Arithmetic shifts right by 26 and 25 bits. */
  function Down26(x: int32): (c: int32)
    ensures 0 <= x - 0x400_0000 * c < 0x400_0000 && -64 <= c <= 64
  {
    x / 0x400_0000
  }

  function Down25(x: int32): (c: int32)
    ensures 0 <= x - 0x200_0000 * c < 0x200_0000 && -64 <= c <= 64
  {
    x / 0x200_0000
  }

  /** Passing floors up the limbs divides by 2^255. */
  lemma FloorChain(h0: int, h1: int, h2: int, h3: int, h4: int, h5: int, h6: int, h7: int, h8: int, h9: int, first: int,
                   c0: int, c1: int, c2: int, c3: int, c4: int, c5: int, c6: int, c7: int, c8: int, c9: int,
                   r0: int, r1: int, r2: int, r3: int, r4: int, r5: int, r6: int, r7: int, r8: int, r9: int)
    requires r0 == h0 + first - 0x400_0000 * c0
    requires r1 == h1 + c0 - 0x200_0000 * c1
    requires r2 == h2 + c1 - 0x400_0000 * c2
    requires r3 == h3 + c2 - 0x200_0000 * c3
    requires r4 == h4 + c3 - 0x400_0000 * c4
    requires r5 == h5 + c4 - 0x200_0000 * c5
    requires r6 == h6 + c5 - 0x400_0000 * c6
    requires r7 == h7 + c6 - 0x200_0000 * c7
    requires r8 == h8 + c7 - 0x400_0000 * c8
    requires r9 == h9 + c8 - 0x200_0000 * c9
    requires 0 <= r0 < 0x400_0000 && 0 <= r1 < 0x200_0000
    requires 0 <= r2 < 0x400_0000 && 0 <= r3 < 0x200_0000
    requires 0 <= r4 < 0x400_0000 && 0 <= r5 < 0x200_0000
    requires 0 <= r6 < 0x400_0000 && 0 <= r7 < 0x200_0000
    requires 0 <= r8 < 0x400_0000 && 0 <= r9 < 0x200_0000
    ensures Weigh(h0, h1, h2, h3, h4, h5, h6, h7, h8, h9) + first
            == Weigh(r0, r1, r2, r3, r4, r5, r6, r7, r8, r9)
               + 0x8000_0000_0000_0000_0000_0000_0000_0000_0000_0000_0000_0000_0000_0000_0000_0000 * c9
    ensures 0 <= Weigh(r0, r1, r2, r3, r4, r5, r6, r7, r8, r9)
            < 0x8000_0000_0000_0000_0000_0000_0000_0000_0000_0000_0000_0000_0000_0000_0000_0000
  {
  }

  /** The rounded top limb decides the quotient by the prime: nudged by q0, the value
      lies in the right multiple of 2^255. */
  lemma QuotientFound(h: int, h9: int, low: int, quot: int, r: int, q0: int, q: int, rem: int)
    requires h == low + 0x40_0000_0000_0000_0000_0000_0000_0000_0000_0000_0000_0000_0000_0000_0000 * h9
    requires -36_909_875 <= h9 <= 36_909_875
    requires -0x80_0000_0000_0000_0000_0000_0000_0000_0000_0000_0000_0000_0000_0000_0000 < low
             < 0x80_0000_0000_0000_0000_0000_0000_0000_0000_0000_0000_0000_0000_0000_0000
    requires h == 0x7FFF_FFFF_FFFF_FFFF_FFFF_FFFF_FFFF_FFFF_FFFF_FFFF_FFFF_FFFF_FFFF_FFFF_FFFF_FFED * quot + r
    requires 0 <= r < 0x7FFF_FFFF_FFFF_FFFF_FFFF_FFFF_FFFF_FFFF_FFFF_FFFF_FFFF_FFFF_FFFF_FFFF_FFFF_FFED
    requires 0 <= 19 * h9 + 0x100_0000 - 0x200_0000 * q0 < 0x200_0000
    requires h + q0 == 0x8000_0000_0000_0000_0000_0000_0000_0000_0000_0000_0000_0000_0000_0000_0000_0000 * q + rem
    requires 0 <= rem < 0x8000_0000_0000_0000_0000_0000_0000_0000_0000_0000_0000_0000_0000_0000_0000_0000
    ensures q == quot && -2 <= q <= 1
  {
  }

  lemma LowLimbs(h0: int, h1: int, h2: int, h3: int, h4: int,
      h5: int, h6: int, h7: int, h8: int, h9: int)
    requires Bounded(h0, h1, h2, h3, h4, h5, h6, h7, h8, h9)
    ensures var low := Weigh(h0, h1, h2, h3, h4, h5, h6, h7, h8, h9)
            - 0x40_0000_0000_0000_0000_0000_0000_0000_0000_0000_0000_0000_0000_0000_0000 * h9;
            -0x80_0000_0000_0000_0000_0000_0000_0000_0000_0000_0000_0000_0000_0000_0000 < low
            < 0x80_0000_0000_0000_0000_0000_0000_0000_0000_0000_0000_0000_0000_0000_0000
  {
  }

  lemma ByPrime(h: int)
    ensures h == 0x7FFF_FFFF_FFFF_FFFF_FFFF_FFFF_FFFF_FFFF_FFFF_FFFF_FFFF_FFFF_FFFF_FFFF_FFFF_FFED * (h / PRIME)
            + h % PRIME
    ensures 0 <= h % PRIME < 0x7FFF_FFFF_FFFF_FFFF_FFFF_FFFF_FFFF_FFFF_FFFF_FFFF_FFFF_FFFF_FFFF_FFFF_FFFF_FFED
  {
  }

  /** One pass of shifts up the limbs, starting with a small addend. */
  method PassUp(h0: int32, h1: int32, h2: int32, h3: int32, h4: int32,
                h5: int32, h6: int32, h7: int32, h8: int32, h9: int32, first: int32)
    returns (r0: Even, r1: Odd, r2: Even, r3: Odd, r4: Even, r5: Odd, r6: Even, r7: Odd, r8: Even, r9: Odd,
             c0: int, c1: int, c2: int, c3: int, c4: int, c5: int, c6: int, c7: int, c8: int, c9: int32)
    requires Bounded(h0, h1, h2, h3, h4, h5, h6, h7, h8, h9) && -64 <= first <= 64
    ensures r0 == h0 + first - 0x400_0000 * c0
    ensures r1 == h1 + c0 - 0x200_0000 * c1
    ensures r2 == h2 + c1 - 0x400_0000 * c2
    ensures r3 == h3 + c2 - 0x200_0000 * c3
    ensures r4 == h4 + c3 - 0x400_0000 * c4
    ensures r5 == h5 + c4 - 0x200_0000 * c5
    ensures r6 == h6 + c5 - 0x400_0000 * c6
    ensures r7 == h7 + c6 - 0x200_0000 * c7
    ensures r8 == h8 + c7 - 0x400_0000 * c8
    ensures r9 == h9 + c8 - 0x200_0000 * c9
  {
    hide Down26, Down25;
    var x0: int32 := h0 + first;
    var carry0 := Down26(x0);
    var x1: int32 := h1 + carry0;
    r0 := x0 - carry0 * 0x400_0000;
    var carry1 := Down25(x1);
    var x2: int32 := h2 + carry1;
    r1 := x1 - carry1 * 0x200_0000;
    var carry2 := Down26(x2);
    var x3: int32 := h3 + carry2;
    r2 := x2 - carry2 * 0x400_0000;
    var carry3 := Down25(x3);
    var x4: int32 := h4 + carry3;
    r3 := x3 - carry3 * 0x200_0000;
    var carry4 := Down26(x4);
    var x5: int32 := h5 + carry4;
    r4 := x4 - carry4 * 0x400_0000;
    var carry5 := Down25(x5);
    var x6: int32 := h6 + carry5;
    r5 := x5 - carry5 * 0x200_0000;
    var carry6 := Down26(x6);
    var x7: int32 := h7 + carry6;
    r6 := x6 - carry6 * 0x400_0000;
    var carry7 := Down25(x7);
    var x8: int32 := h8 + carry7;
    r7 := x7 - carry7 * 0x200_0000;
    var carry8 := Down26(x8);
    var x9: int32 := h9 + carry8;
    r8 := x8 - carry8 * 0x400_0000;
    var carry9 := Down25(x9);
    r9 := x9 - carry9 * 0x200_0000;
    c0, c1, c2, c3, c4 := carry0, carry1, carry2, carry3, carry4;
    c5, c6, c7, c8, c9 := carry5, carry6, carry7, carry8, carry9;
  }

  /** The quotient of the value by the prime, from one pass up the limbs. */
  method Quotient(h0: int32, h1: int32, h2: int32, h3: int32, h4: int32,
                h5: int32, h6: int32, h7: int32, h8: int32, h9: int32)
    returns (q: int32)
    requires Bounded(h0, h1, h2, h3, h4, h5, h6, h7, h8, h9)
    ensures q == Weigh(h0, h1, h2, h3, h4, h5, h6, h7, h8, h9) / PRIME && -2 <= q <= 1
  {
    hide Weigh, Down25;
    var q0 := Down25(19 * h9 + 0x100_0000);
    var r0, r1, r2, r3, r4, r5, r6, r7, r8, r9;
    var c0, c1, c2, c3, c4, c5, c6, c7, c8;
    r0, r1, r2, r3, r4, r5, r6, r7, r8, r9, c0, c1, c2, c3, c4, c5, c6, c7, c8, q :=
      PassUp(h0, h1, h2, h3, h4, h5, h6, h7, h8, h9, q0);
    ghost var h, r := Weigh(h0, h1, h2, h3, h4, h5, h6, h7, h8, h9), Weigh(r0, r1, r2, r3, r4, r5, r6, r7, r8, r9);
    FloorChain(h0, h1, h2, h3, h4, h5, h6, h7, h8, h9, q0, c0, c1, c2, c3, c4, c5, c6, c7, c8, q,
               r0, r1, r2, r3, r4, r5, r6, r7, r8, r9);
    LowLimbs(h0, h1, h2, h3, h4, h5, h6, h7, h8, h9);
    ByPrime(h);
    QuotientFound(h, h9, h - 0x40_0000_0000_0000_0000_0000_0000_0000_0000_0000_0000_0000_0000_0000_0000 * h9,
                  h / PRIME, h % PRIME, q0, q, r);
  }

  /** The digits of the value modulo the prime, of 26 and 25 bits by turns. */
  method Digits(h0: int32, h1: int32, h2: int32, h3: int32, h4: int32,
                h5: int32, h6: int32, h7: int32, h8: int32, h9: int32)
    returns (r0: Even, r1: Odd, r2: Even, r3: Odd, r4: Even, r5: Odd, r6: Even, r7: Odd, r8: Even, r9: Odd)
    requires Bounded(h0, h1, h2, h3, h4, h5, h6, h7, h8, h9)
    ensures Weigh(r0, r1, r2, r3, r4, r5, r6, r7, r8, r9) == Weigh(h0, h1, h2, h3, h4, h5, h6, h7, h8, h9) % PRIME
  {
    hide Weigh;
    var q := Quotient(h0, h1, h2, h3, h4, h5, h6, h7, h8, h9);
    var c0, c1, c2, c3, c4, c5, c6, c7, c8;
    var top;
    r0, r1, r2, r3, r4, r5, r6, r7, r8, r9, c0, c1, c2, c3, c4, c5, c6, c7, c8, top :=
      PassUp(h0, h1, h2, h3, h4, h5, h6, h7, h8, h9, 19 * q);
    ghost var h, r := Weigh(h0, h1, h2, h3, h4, h5, h6, h7, h8, h9), Weigh(r0, r1, r2, r3, r4, r5, r6, r7, r8, r9);
    FloorChain(h0, h1, h2, h3, h4, h5, h6, h7, h8, h9, 19 * q, c0, c1, c2, c3, c4, c5, c6, c7, c8, top,
               r0, r1, r2, r3, r4, r5, r6, r7, r8, r9);
    ByPrime(h);
    DropMultiple(h, q, h % PRIME, r, top);
  }

  /** What is left below 2^255 after adding 19 q is the value less q times the prime. */
  lemma DropMultiple(h: int, q: int, rem: int, r: int, carry: int)
    requires h == 0x7FFF_FFFF_FFFF_FFFF_FFFF_FFFF_FFFF_FFFF_FFFF_FFFF_FFFF_FFFF_FFFF_FFFF_FFFF_FFED * q + rem
    requires 0 <= rem < 0x7FFF_FFFF_FFFF_FFFF_FFFF_FFFF_FFFF_FFFF_FFFF_FFFF_FFFF_FFFF_FFFF_FFFF_FFFF_FFED
    requires 0 <= r < 0x8000_0000_0000_0000_0000_0000_0000_0000_0000_0000_0000_0000_0000_0000_0000_0000
    requires h + 19 * q == r + 0x8000_0000_0000_0000_0000_0000_0000_0000_0000_0000_0000_0000_0000_0000_0000_0000 * carry
    ensures r == rem
  {
  }

  // ----- packing -----

  /** x without its lowest bits, and those bits: d is a power of two. */
  function Down(x: int, d: int): int
    requires d > 0
  {
    x / d
  }

  function Bits(x: int, d: int): (r: int)
    requires d > 0
    ensures 0 <= r < d
  {
    x % d
  }

  lemma Cut0(h: int)
    requires 0 <= h < 0x400_0000
    ensures h == Bits(h, 256)
            + 256 * (Bits(Down(h, 0x100), 256) + 256 * (Bits(Down(h, 0x1_0000), 256) + 256 * Down(h, 0x100_0000)))
    ensures 0 <= Down(h, 0x100_0000) < 4 && (h < 0x200_0000 ==> Down(h, 0x100_0000) < 2)
  {
    assert h / 0x1_0000 == h / 0x100 / 0x100 && h / 0x100_0000 == h / 0x1_0000 / 0x100;
  }

  lemma Cut2(h: int)
    requires 0 <= h < 0x400_0000
    ensures h == Bits(h, 4)
            + 4 * (Bits(Down(h, 0x4), 256) + 256 * (Bits(Down(h, 0x400), 256) + 256 * Down(h, 0x4_0000)))
    ensures 0 <= Down(h, 0x4_0000) < 256 && (h < 0x200_0000 ==> Down(h, 0x4_0000) < 128)
  {
  }

  lemma Join2(t: int, h: int)
    requires 0 <= t < 64 && 0 <= h
    ensures Bits(t + 64 * h, 256) == t + 64 * Bits(h, 4)
  {
    DivModUnique(t + 64 * h, 256, h / 4, t + 64 * (h % 4));
  }

  lemma Cut3(h: int)
    requires 0 <= h < 0x400_0000
    ensures h == Bits(h, 8)
            + 8 * (Bits(Down(h, 0x8), 256) + 256 * (Bits(Down(h, 0x800), 256) + 256 * Down(h, 0x8_0000)))
    ensures 0 <= Down(h, 0x8_0000) < 128 && (h < 0x200_0000 ==> Down(h, 0x8_0000) < 64)
  {
  }

  lemma Join3(t: int, h: int)
    requires 0 <= t < 32 && 0 <= h
    ensures Bits(t + 32 * h, 256) == t + 32 * Bits(h, 8)
  {
    DivModUnique(t + 32 * h, 256, h / 8, t + 32 * (h % 8));
  }

  lemma Cut4(h: int)
    requires 0 <= h < 0x400_0000
    ensures h == Bits(h, 16)
            + 16 * (Bits(Down(h, 0x10), 256) + 256 * (Bits(Down(h, 0x1000), 256) + 256 * Down(h, 0x10_0000)))
    ensures 0 <= Down(h, 0x10_0000) < 64 && (h < 0x200_0000 ==> Down(h, 0x10_0000) < 32)
  {
  }

  lemma Join4(t: int, h: int)
    requires 0 <= t < 16 && 0 <= h
    ensures Bits(t + 16 * h, 256) == t + 16 * Bits(h, 16)
  {
    DivModUnique(t + 16 * h, 256, h / 16, t + 16 * (h % 16));
  }

  lemma Cut5(h: int)
    requires 0 <= h < 0x400_0000
    ensures h == Bits(h, 32)
            + 32 * (Bits(Down(h, 0x20), 256) + 256 * (Bits(Down(h, 0x2000), 256) + 256 * Down(h, 0x20_0000)))
    ensures 0 <= Down(h, 0x20_0000) < 32 && (h < 0x200_0000 ==> Down(h, 0x20_0000) < 16)
  {
  }

  lemma Join5(t: int, h: int)
    requires 0 <= t < 8 && 0 <= h
    ensures Bits(t + 8 * h, 256) == t + 8 * Bits(h, 32)
  {
    DivModUnique(t + 8 * h, 256, h / 32, t + 8 * (h % 32));
  }

  lemma Cut6(h: int)
    requires 0 <= h < 0x400_0000
    ensures h == Bits(h, 64)
            + 64 * (Bits(Down(h, 0x40), 256) + 256 * (Bits(Down(h, 0x4000), 256) + 256 * Down(h, 0x40_0000)))
    ensures 0 <= Down(h, 0x40_0000) < 16 && (h < 0x200_0000 ==> Down(h, 0x40_0000) < 8)
  {
  }

  lemma Join6(t: int, h: int)
    requires 0 <= t < 4 && 0 <= h
    ensures Bits(t + 4 * h, 256) == t + 4 * Bits(h, 64)
  {
    DivModUnique(t + 4 * h, 256, h / 64, t + 4 * (h % 64));
  }

  lemma Cut7(h: int)
    requires 0 <= h < 0x400_0000
    ensures h == Bits(h, 128)
            + 128 * (Bits(Down(h, 0x80), 256) + 256 * (Bits(Down(h, 0x8000), 256) + 256 * Down(h, 0x80_0000)))
    ensures 0 <= Down(h, 0x80_0000) < 8 && (h < 0x200_0000 ==> Down(h, 0x80_0000) < 4)
  {
  }

  lemma Join7(t: int, h: int)
    requires 0 <= t < 2 && 0 <= h
    ensures Bits(t + 2 * h, 256) == t + 2 * Bits(h, 128)
  {
    DivModUnique(t + 2 * h, 256, h / 128, t + 2 * (h % 128));
  }

  lemma AllBits(x: int)
    requires 0 <= x < 256
    ensures Bits(x, 256) == x
  {
  }

  /** The number that sixteen bytes spell, least significant first. */
  function Spelled16(b: seq<int>): int
    requires |b| == 16
  {
    b[0] + 256 * (b[1] + 256 * (b[2] + 256 * (b[3] + 256 * (b[4] + 256 * (b[5] + 256 * (b[6] + 256 * (b[7]
    + 256 * (b[8] + 256 * (b[9] + 256 * (b[10] + 256 * (b[11] + 256 * (b[12] + 256 * (b[13] + 256 * (b[14]
    + 256 * b[15]))))))))))))))
  }

  lemma LowHalfAdds(h0: int, h1: int, h2: int, h3: int, h4: int, b: seq<int>,
                  t0: int, t1: int, t2: int, t3: int, l1: int, l2: int, l3: int, l4: int)
    requires |b| == 16
    requires h0 == b[0] + 256 * (b[1] + 256 * (b[2] + 256 * t0))
    requires b[3] == t0 + 4 * l1
    requires h1 == l1 + 64 * (b[4] + 256 * (b[5] + 256 * t1))
    requires b[6] == t1 + 8 * l2
    requires h2 == l2 + 32 * (b[7] + 256 * (b[8] + 256 * t2))
    requires b[9] == t2 + 32 * l3
    requires h3 == l3 + 8 * (b[10] + 256 * (b[11] + 256 * t3))
    requires b[12] == t3 + 64 * l4
    requires h4 == l4 + 4 * (b[13] + 256 * (b[14] + 256 * b[15]))
    ensures Spelled16(b) == h0 + 0x400_0000 * (h1 + 0x200_0000 * (h2 + 0x400_0000 * (h3 + 0x200_0000 * (h4))))
  {
  }

  lemma LowHalf(h0: int, h1: int, h2: int, h3: int, h4: int, b: seq<int>)
    requires |b| == 16
    requires 0 <= h0 < 0x400_0000 && 0 <= h1 < 0x200_0000 && 0 <= h2 < 0x400_0000
    requires 0 <= h3 < 0x200_0000 && 0 <= h4 < 0x400_0000
    requires b[0] == Bits(h0, 256)
    requires b[1] == Bits(Down(h0, 0x100), 256)
    requires b[2] == Bits(Down(h0, 0x1_0000), 256)
    requires b[3] == Bits(Down(h0, 0x100_0000) + 4 * h1, 256)
    requires b[4] == Bits(Down(h1, 0x40), 256)
    requires b[5] == Bits(Down(h1, 0x4000), 256)
    requires b[6] == Bits(Down(h1, 0x40_0000) + 8 * h2, 256)
    requires b[7] == Bits(Down(h2, 0x20), 256)
    requires b[8] == Bits(Down(h2, 0x2000), 256)
    requires b[9] == Bits(Down(h2, 0x20_0000) + 32 * h3, 256)
    requires b[10] == Bits(Down(h3, 0x8), 256)
    requires b[11] == Bits(Down(h3, 0x800), 256)
    requires b[12] == Bits(Down(h3, 0x8_0000) + 64 * h4, 256)
    requires b[13] == Bits(Down(h4, 0x4), 256)
    requires b[14] == Bits(Down(h4, 0x400), 256)
    requires b[15] == Bits(Down(h4, 0x4_0000), 256)
    ensures Spelled16(b) == h0 + 0x400_0000 * (h1 + 0x200_0000 * (h2 + 0x400_0000 * (h3 + 0x200_0000 * (h4))))
  {
    hide Spelled16, Down, Bits;
    Cut0(h0);
    Join6(Down(h0, 0x100_0000), h1);
    Cut6(h1);
    Join5(Down(h1, 0x40_0000), h2);
    Cut5(h2);
    Join3(Down(h2, 0x20_0000), h3);
    Cut3(h3);
    Join2(Down(h3, 0x8_0000), h4);
    Cut2(h4);
    AllBits(Down(h4, 0x4_0000));
    LowHalfAdds(h0, h1, h2, h3, h4, b, Down(h0, 0x100_0000), Down(h1, 0x40_0000), Down(h2, 0x20_0000),
                Down(h3, 0x8_0000), Bits(h1, 64), Bits(h2, 32), Bits(h3, 8), Bits(h4, 4));
  }

  lemma HighHalfAdds(h5: int, h6: int, h7: int, h8: int, h9: int, b: seq<int>,
                  t0: int, t1: int, t2: int, t3: int, l1: int, l2: int, l3: int, l4: int)
    requires |b| == 16
    requires h5 == b[0] + 256 * (b[1] + 256 * (b[2] + 256 * t0))
    requires b[3] == t0 + 2 * l1
    requires h6 == l1 + 128 * (b[4] + 256 * (b[5] + 256 * t1))
    requires b[6] == t1 + 8 * l2
    requires h7 == l2 + 32 * (b[7] + 256 * (b[8] + 256 * t2))
    requires b[9] == t2 + 16 * l3
    requires h8 == l3 + 16 * (b[10] + 256 * (b[11] + 256 * t3))
    requires b[12] == t3 + 64 * l4
    requires h9 == l4 + 4 * (b[13] + 256 * (b[14] + 256 * b[15]))
    ensures Spelled16(b) == h5 + 0x200_0000 * (h6 + 0x400_0000 * (h7 + 0x200_0000 * (h8 + 0x400_0000 * (h9))))
  {
  }

  lemma HighHalf(h5: int, h6: int, h7: int, h8: int, h9: int, b: seq<int>)
    requires |b| == 16
    requires 0 <= h5 < 0x200_0000 && 0 <= h6 < 0x400_0000 && 0 <= h7 < 0x200_0000
    requires 0 <= h8 < 0x400_0000 && 0 <= h9 < 0x200_0000
    requires b[0] == Bits(h5, 256)
    requires b[1] == Bits(Down(h5, 0x100), 256)
    requires b[2] == Bits(Down(h5, 0x1_0000), 256)
    requires b[3] == Bits(Down(h5, 0x100_0000) + 2 * h6, 256)
    requires b[4] == Bits(Down(h6, 0x80), 256)
    requires b[5] == Bits(Down(h6, 0x8000), 256)
    requires b[6] == Bits(Down(h6, 0x80_0000) + 8 * h7, 256)
    requires b[7] == Bits(Down(h7, 0x20), 256)
    requires b[8] == Bits(Down(h7, 0x2000), 256)
    requires b[9] == Bits(Down(h7, 0x20_0000) + 16 * h8, 256)
    requires b[10] == Bits(Down(h8, 0x10), 256)
    requires b[11] == Bits(Down(h8, 0x1000), 256)
    requires b[12] == Bits(Down(h8, 0x10_0000) + 64 * h9, 256)
    requires b[13] == Bits(Down(h9, 0x4), 256)
    requires b[14] == Bits(Down(h9, 0x400), 256)
    requires b[15] == Bits(Down(h9, 0x4_0000), 256)
    ensures Spelled16(b) == h5 + 0x200_0000 * (h6 + 0x400_0000 * (h7 + 0x200_0000 * (h8 + 0x400_0000 * (h9))))
  {
    hide Spelled16, Down, Bits;
    Cut0(h5);
    Join7(Down(h5, 0x100_0000), h6);
    Cut7(h6);
    Join5(Down(h6, 0x80_0000), h7);
    Cut5(h7);
    Join4(Down(h7, 0x20_0000), h8);
    Cut4(h8);
    Join2(Down(h8, 0x10_0000), h9);
    Cut2(h9);
    AllBits(Down(h9, 0x4_0000));
    HighHalfAdds(h5, h6, h7, h8, h9, b, Down(h5, 0x100_0000), Down(h6, 0x80_0000), Down(h7, 0x20_0000),
                 Down(h8, 0x10_0000), Bits(h6, 128), Bits(h7, 32), Bits(h8, 16), Bits(h9, 4));
  }

  lemma FourBytes(s: seq<byte>)
    requires |s| >= 4
    ensures FromLittleEndian(s) == s[0] + 256 * (s[1] + 256 * (s[2] + 256 * (s[3] + 256 * FromLittleEndian(s[4..]))))
  {
    assert s[1..][1..] == s[2..] && s[2..][1..] == s[3..] && s[3..][1..] == s[4..];
    assert FromLittleEndian(s) == s[0] + 256 * FromLittleEndian(s[1..]);
    assert FromLittleEndian(s[2..]) == s[2] + 256 * FromLittleEndian(s[3..]);
  }

  lemma SixteenBytes(s: seq<byte>)
    requires |s| >= 16
    ensures FromLittleEndian(s)
            == Spelled16(s[..16]) + 0x1_0000_0000_0000_0000_0000_0000_0000_0000 * FromLittleEndian(s[16..])
  {
    hide FromLittleEndian;
    FourBytes(s);
    FourBytes(s[4..]);
    FourBytes(s[8..]);
    FourBytes(s[12..]);
    assert s[4..][4..] == s[8..] && s[8..][4..] == s[12..] && s[12..][4..] == s[16..];
  }

  lemma AllBytes(s: seq<byte>)
    requires |s| == 32
    ensures FromLittleEndian(s) == Spelled16(s[..16]) + 0x1_0000_0000_0000_0000_0000_0000_0000_0000 * Spelled16(s[16..])
  {
    hide Spelled16;
    SixteenBytes(s);
    SixteenBytes(s[16..]);
    assert s[16..][..16] == s[16..];
  }

  /** The two halves of the bytes of digits in range make up their value. */
  lemma HalvesWeigh(h0: int, h1: int, h2: int, h3: int, h4: int, h5: int, h6: int, h7: int, h8: int, h9: int,
                    low: int, high: int)
    requires low == h0 + 0x400_0000 * (h1 + 0x200_0000 * (h2 + 0x400_0000 * (h3 + 0x200_0000 * (h4))))
    requires high == h5 + 0x200_0000 * (h6 + 0x400_0000 * (h7 + 0x200_0000 * (h8 + 0x400_0000 * (h9))))
    ensures Weigh(h0, h1, h2, h3, h4, h5, h6, h7, h8, h9) == low + 0x1_0000_0000_0000_0000_0000_0000_0000_0000 * high
  {
  }

  /** The bytes of digits in range.  Disjoint groups of bits are put together by adding. */
  method LowBytes(s: array<byte>, h0: Even, h1: Odd, h2: Even, h3: Odd, h4: Even)
    requires s.Length == 32
    modifies s
    ensures Spelled16(s[..16]) == h0 + 0x400_0000 * (h1 + 0x200_0000 * (h2 + 0x400_0000 * (h3 + 0x200_0000 * (h4))))
  {
    hide Spelled16, Down, Bits;
    s[0] := Bits(h0, 256);
    s[1] := Bits(Down(h0, 0x100), 256);
    s[2] := Bits(Down(h0, 0x1_0000), 256);
    s[3] := Bits(Down(h0, 0x100_0000) + 4 * h1, 256);
    s[4] := Bits(Down(h1, 0x40), 256);
    s[5] := Bits(Down(h1, 0x4000), 256);
    s[6] := Bits(Down(h1, 0x40_0000) + 8 * h2, 256);
    s[7] := Bits(Down(h2, 0x20), 256);
    s[8] := Bits(Down(h2, 0x2000), 256);
    s[9] := Bits(Down(h2, 0x20_0000) + 32 * h3, 256);
    s[10] := Bits(Down(h3, 0x8), 256);
    s[11] := Bits(Down(h3, 0x800), 256);
    s[12] := Bits(Down(h3, 0x8_0000) + 64 * h4, 256);
    s[13] := Bits(Down(h4, 0x4), 256);
    s[14] := Bits(Down(h4, 0x400), 256);
    s[15] := Bits(Down(h4, 0x4_0000), 256);
    LowHalf(h0, h1, h2, h3, h4, s[..16]);
  }

  method HighBytes(s: array<byte>, h5: Odd, h6: Even, h7: Odd, h8: Even, h9: Odd)
    requires s.Length == 32
    modifies s
    ensures s[..16] == old(s[..16])
    ensures Spelled16(s[16..]) == h5 + 0x200_0000 * (h6 + 0x400_0000 * (h7 + 0x200_0000 * (h8 + 0x400_0000 * (h9))))
  {
    hide Spelled16, Down, Bits;
    s[16] := Bits(h5, 256);
    s[17] := Bits(Down(h5, 0x100), 256);
    s[18] := Bits(Down(h5, 0x1_0000), 256);
    s[19] := Bits(Down(h5, 0x100_0000) + 2 * h6, 256);
    s[20] := Bits(Down(h6, 0x80), 256);
    s[21] := Bits(Down(h6, 0x8000), 256);
    s[22] := Bits(Down(h6, 0x80_0000) + 8 * h7, 256);
    s[23] := Bits(Down(h7, 0x20), 256);
    s[24] := Bits(Down(h7, 0x2000), 256);
    s[25] := Bits(Down(h7, 0x20_0000) + 16 * h8, 256);
    s[26] := Bits(Down(h8, 0x10), 256);
    s[27] := Bits(Down(h8, 0x1000), 256);
    s[28] := Bits(Down(h8, 0x10_0000) + 64 * h9, 256);
    s[29] := Bits(Down(h9, 0x4), 256);
    s[30] := Bits(Down(h9, 0x400), 256);
    s[31] := Bits(Down(h9, 0x4_0000), 256);
    HighHalf(h5, h6, h7, h8, h9, s[16..]);
  }

  /** The canonical encoding: the 32 bytes spell the value modulo the prime. */
  method FeToBytes(s: array<byte>, h: array<int32>)
    requires s.Length == 32 && h.Length == 10 && Encodable(h[..])
    modifies s
    ensures FromLittleEndian(s[..]) == Value(h[..]) % PRIME
  {
    hide Spelled16, Weigh, FromLittleEndian;
    ArrayWeighs(h[..]);
    var r0, r1, r2, r3, r4, r5, r6, r7, r8, r9 := Digits(h[0], h[1], h[2], h[3], h[4], h[5], h[6], h[7], h[8], h[9]);
    LowBytes(s, r0, r1, r2, r3, r4);
    ghost var low := Spelled16(s[..16]);
    HighBytes(s, r5, r6, r7, r8, r9);
    HalvesWeigh(r0, r1, r2, r3, r4, r5, r6, r7, r8, r9, low, Spelled16(s[16..]));
    AllBytes(s[..]);
    assert s[..][..16] == s[..16] && s[..][16..] == s[16..];
  }

  lemma ArrayWeighs(h: seq<int>)
    requires Encodable(h)
    ensures Bounded(h[0], h[1], h[2], h[3], h[4], h[5], h[6], h[7], h[8], h[9])
    ensures Value(h) == Weigh(h[0], h[1], h[2], h[3], h[4], h[5], h[6], h[7], h[8], h[9])
  {
  }

  lemma {:induction false} LittleEndianUnique(s: seq<byte>, u: seq<byte>)
    requires |s| == |u| && FromLittleEndian(s) == FromLittleEndian(u)
    ensures s == u
  {
    if s == [] {
    } else {
      LittleEndianUnique(s[1..], u[1..]);
      assert s == [s[0]] + s[1..] && u == [u[0]] + u[1..];
    }
  }

  /** Two elements are equal in the field exactly if their encodings are. */
  lemma EncodingsDecide(h: seq<int>, g: seq<int>, s: seq<byte>, u: seq<byte>)
    requires |h| == |g| == 10 && |s| == |u| == 32
    requires FromLittleEndian(s) == Value(h) % PRIME && FromLittleEndian(u) == Value(g) % PRIME
    ensures s == u <==> Same(Value(h), Value(g))
  {
    if Same(Value(h), Value(g)) {
      LittleEndianUnique(s, u);
    }
  }

  /** The lowest bit of the canonical encoding, which tells an element from its negative. */
  method FeIsNegative(f: array<int32>) returns (r: int)
    requires f.Length == 10 && Encodable(f[..])
    ensures r == (Value(f[..]) % PRIME) % 2
  {
    hide Value, FromLittleEndian;
    var s := new byte[32];
    FeToBytes(s, f);
    FourBytes(s[..]);
    r := s[0] % 2;
  }

  method FeIsNonzero(f: array<int32>) returns (r: bool)
    requires f.Length == 10 && Encodable(f[..])
    ensures r <==> Value(f[..]) % PRIME != 0
  {
    hide Value;
    var s := new byte[32];
    FeToBytes(s, f);
    r := s[0] != 0;
    for i := 1 to 32
      invariant r <==> exists k :: 0 <= k < i && s[k] != 0
    {
      r := r || s[i] != 0;
    }
    ZeroBytes(s[..]);
  }

  lemma {:induction false} ZeroBytes(s: seq<byte>)
    ensures FromLittleEndian(s) == 0 <==> forall k :: 0 <= k < |s| ==> s[k] == 0
  {
    if s == [] {
    } else {
      ZeroBytes(s[1..]);
      assert forall k :: 1 <= k < |s| ==> s[k] == s[1..][k - 1];
    }
  }

  // ----- reading back -----

  function Load3(s: seq<byte>, i: nat): (x: nat)
    requires i + 3 <= |s|
    ensures x < 0x100_0000
  {
    var a: int, b: int, c: int := s[i], s[i + 1], s[i + 2];
    a + 256 * b + 0x1_0000 * c
  }

  function Load4(s: seq<byte>, i: nat): (x: nat)
    requires i + 4 <= |s|
    ensures x < 0x1_0000_0000
  {
    var a: int, b: int, c: int, d: int := s[i], s[i + 1], s[i + 2], s[i + 3];
    a + 256 * b + 0x1_0000 * c + 0x100_0000 * d
  }

  /** Shifts right by 26 and 25 bits that round to the nearest. */
  function Near26(x: int64): (c: int64)
    requires -0x1_0000_0000_0000 <= x <= 0x1_0000_0000_0000
    ensures -0x200_0000 <= x - c * 0x400_0000 < 0x200_0000
  {
    (x + 0x200_0000) / 0x400_0000
  }

  function Near25(x: int64): (c: int64)
    requires -0x1_0000_0000_0000 <= x <= 0x1_0000_0000_0000
    ensures -0x100_0000 <= x - c * 0x200_0000 < 0x100_0000
  {
    (x + 0x100_0000) / 0x200_0000
  }

  /** One round of carries, the top one coming back times 19. */
  method CarryOnce(h: array<int32>, x0: int64, x1: int64, x2: int64, x3: int64, x4: int64,
                   x5: int64, x6: int64, x7: int64, x8: int64, x9: int64)
    requires h.Length == 10
    requires 0 <= x0 < 0x1_0000_0000 && 0 <= x1 < 0x4000_0000 && 0 <= x2 < 0x2000_0000 && 0 <= x3 < 0x800_0000
    requires 0 <= x4 < 0x400_0000 && 0 <= x5 < 0x1_0000_0000 && 0 <= x6 < 0x8000_0000 && 0 <= x7 < 0x2000_0000
    requires 0 <= x8 < 0x1000_0000 && 0 <= x9 < 0x200_0000
    modifies h
    ensures Reduced(h[..])
    ensures Same(Value(h[..]), Weigh(x0, x1, x2, x3, x4, x5, x6, x7, x8, x9))
  {
    hide Near26, Near25, Weigh, Same, Value;
    var carry9 := Near25(x9);
    var y0: int64 := x0 + carry9 * 19;
    var carry1 := Near25(x1);
    var y2: int64 := x2 + carry1;
    var carry3 := Near25(x3);
    var y4: int64 := x4 + carry3;
    var carry5 := Near25(x5);
    var y6: int64 := x6 + carry5;
    var carry7 := Near25(x7);
    var y8: int64 := x8 + carry7;
    var carry0 := Near26(y0);
    var carry2 := Near26(y2);
    var carry4 := Near26(y4);
    var carry6 := Near26(y6);
    var carry8 := Near26(y8);
    h[0], h[1] := y0 - carry0 * 0x400_0000, x1 - carry1 * 0x200_0000 + carry0;
    h[2], h[3] := y2 - carry2 * 0x400_0000, x3 - carry3 * 0x200_0000 + carry2;
    h[4], h[5] := y4 - carry4 * 0x400_0000, x5 - carry5 * 0x200_0000 + carry4;
    h[6], h[7] := y6 - carry6 * 0x400_0000, x7 - carry7 * 0x200_0000 + carry6;
    h[8], h[9] := y8 - carry8 * 0x400_0000, x9 - carry9 * 0x200_0000 + carry8;
    OnceKeepsValue(h[..], x0, x1, x2, x3, x4, x5, x6, x7, x8, x9,
                   carry0, carry1, carry2, carry3, carry4, carry5, carry6, carry7, carry8, carry9);
  }

  lemma OnceKeepsValue(h: seq<int>, x0: int, x1: int, x2: int, x3: int, x4: int,
                       x5: int, x6: int, x7: int, x8: int, x9: int,
                       c0: int, c1: int, c2: int, c3: int, c4: int, c5: int, c6: int, c7: int, c8: int, c9: int)
    requires |h| == 10
    requires h[0] == x0 + 19 * c9 - c0 * 0x400_0000 && h[1] == x1 - c1 * 0x200_0000 + c0
    requires h[2] == x2 + c1 - c2 * 0x400_0000 && h[3] == x3 - c3 * 0x200_0000 + c2
    requires h[4] == x4 + c3 - c4 * 0x400_0000 && h[5] == x5 - c5 * 0x200_0000 + c4
    requires h[6] == x6 + c5 - c6 * 0x400_0000 && h[7] == x7 - c7 * 0x200_0000 + c6
    requires h[8] == x8 + c7 - c8 * 0x400_0000 && h[9] == x9 - c9 * 0x200_0000 + c8
    ensures Same(Value(h), Weigh(x0, x1, x2, x3, x4, x5, x6, x7, x8, x9))
  {
    SameBy(Value(h), Weigh(x0, x1, x2, x3, x4, x5, x6, x7, x8, x9), -c9);
  }

  /** Reads 32 bytes, ignoring the top bit. */
  method FeFromBytes(h: array<int32>, s: seq<byte>)
    requires h.Length == 10 && |s| == 32
    modifies h
    ensures Reduced(h[..])
    ensures Same(Value(h[..]), FromLittleEndian(s)
                               % 0x8000_0000_0000_0000_0000_0000_0000_0000_0000_0000_0000_0000_0000_0000_0000_0000)
  {
    hide Load3, Load4, Weigh, Same, Value, Reduced, FromLittleEndian;
    var top := Load3(s, 29) % 0x80_0000;
    LoadsWeigh(s);
    CarryOnce(h, Load4(s, 0), Load3(s, 4) * 0x40, Load3(s, 7) * 0x20, Load3(s, 10) * 0x8, Load3(s, 13) * 0x4,
              Load4(s, 16), Load3(s, 20) * 0x80, Load3(s, 23) * 0x20, Load3(s, 26) * 0x10, top * 0x4);
  }

  lemma LoadsWeigh(s: seq<byte>)
    requires |s| == 32
    ensures Weigh(Load4(s, 0), Load3(s, 4) * 0x40, Load3(s, 7) * 0x20, Load3(s, 10) * 0x8, Load3(s, 13) * 0x4,
                  Load4(s, 16), Load3(s, 20) * 0x80, Load3(s, 23) * 0x20, Load3(s, 26) * 0x10,
                  (Load3(s, 29) % 0x80_0000) * 0x4)
            == FromLittleEndian(s) % 0x8000_0000_0000_0000_0000_0000_0000_0000_0000_0000_0000_0000_0000_0000_0000_0000
  {
    hide Spelled16, FromLittleEndian, Weigh, Load3, Load4;
    AllBytes(s);
    LowLoads(s);
    HighLoads(s);
    var top, bit := Load3(s, 29) % 0x80_0000, Load3(s, 29) / 0x80_0000;
    LoadsAdd(Load4(s, 0), Load3(s, 4), Load3(s, 7), Load3(s, 10), Load3(s, 13),
             Load4(s, 16), Load3(s, 20), Load3(s, 23), Load3(s, 26), top, bit, FromLittleEndian(s));
    var t := 0x8000_0000_0000_0000_0000_0000_0000_0000_0000_0000_0000_0000_0000_0000_0000_0000;
    DivModUnique(FromLittleEndian(s), t, bit, FromLittleEndian(s) - bit * t);
  }

  lemma LowLoads(s: seq<byte>)
    requires |s| == 32
    ensures Spelled16(s[..16]) == Load4(s, 0) + 0x1_0000_0000 * Load3(s, 4) + 0x100_0000_0000_0000 * Load3(s, 7)
                                  + 0x1_0000_0000_0000_0000_0000 * Load3(s, 10)
                                  + 0x100_0000_0000_0000_0000_0000_0000 * Load3(s, 13)
  {
  }

  lemma HighLoads(s: seq<byte>)
    requires |s| == 32
    ensures Spelled16(s[16..]) == Load4(s, 16) + 0x1_0000_0000 * Load3(s, 20) + 0x100_0000_0000_0000 * Load3(s, 23)
                                  + 0x1_0000_0000_0000_0000_0000 * Load3(s, 26)
                                  + 0x100_0000_0000_0000_0000_0000_0000 * Load3(s, 29)
  {
  }

  /** The loads, shifted to their limbs, with the top bit split off. */
  lemma LoadsAdd(a0: int, a1: int, a2: int, a3: int, a4: int, a5: int, a6: int, a7: int, a8: int,
                 top: int, bit: int, n: int)
    requires 0 <= a0 < 0x1_0000_0000 && 0 <= a5 < 0x1_0000_0000 && 0 <= top < 0x80_0000
    requires 0 <= a1 < 0x100_0000 && 0 <= a2 < 0x100_0000 && 0 <= a3 < 0x100_0000 && 0 <= a4 < 0x100_0000
    requires 0 <= a6 < 0x100_0000 && 0 <= a7 < 0x100_0000 && 0 <= a8 < 0x100_0000
    requires n == a0 + 0x1_0000_0000 * a1 + 0x100_0000_0000_0000 * a2 + 0x1_0000_0000_0000_0000_0000 * a3
                  + 0x100_0000_0000_0000_0000_0000_0000 * a4
                  + 0x1_0000_0000_0000_0000_0000_0000_0000_0000
                    * (a5 + 0x1_0000_0000 * a6 + 0x100_0000_0000_0000 * a7 + 0x1_0000_0000_0000_0000_0000 * a8
                       + 0x100_0000_0000_0000_0000_0000_0000 * (top + 0x80_0000 * bit))
    ensures Weigh(a0, a1 * 0x40, a2 * 0x20, a3 * 0x8, a4 * 0x4, a5, a6 * 0x80, a7 * 0x20, a8 * 0x10, top * 0x4)
            == n - bit * 0x8000_0000_0000_0000_0000_0000_0000_0000_0000_0000_0000_0000_0000_0000_0000_0000
    ensures 0 <= n - bit * 0x8000_0000_0000_0000_0000_0000_0000_0000_0000_0000_0000_0000_0000_0000_0000_0000
            < 0x8000_0000_0000_0000_0000_0000_0000_0000_0000_0000_0000_0000_0000_0000_0000_0000
  {
  }

  /** An encoding below the prime comes back as it was. */
  lemma CanonicalBack(s: seq<byte>, h: seq<int>, u: seq<byte>)
    requires |s| == |u| == 32 && |h| == 10 && FromLittleEndian(s) < PRIME
    requires Same(Value(h), FromLittleEndian(s)) && FromLittleEndian(u) == Value(h) % PRIME
    ensures u == s
  {
    LittleEndianUnique(u, s);
  }
}
