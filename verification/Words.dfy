/** Fixed-width machine words, the byte strings built from them, and how the
    program turns words into bytes (host order is little-endian). */
module Words {

  type byte = x: int | 0 <= x < 0x100
  type uint32 = x: int | 0 <= x < 0x1_0000_0000
  type uint64 = x: int | 0 <= x < TWO_64

  const TWO_64: int := 0x1_0000_0000_0000_0000

  type Hash = s: seq<byte> | |s| == 32 witness seq(32, _ => 0)
  type Address = s: seq<byte> | |s| == 25 witness seq(25, _ => 0)
  type Key = s: seq<byte> | |s| == 32 witness seq(32, _ => 0)
  type Signature = s: seq<byte> | |s| == 64 witness seq(64, _ => 0)

  const NULL_HASH: Hash :=
    [0, 0, 0, 0, 0, 0, 0, 0, 0, 0, 0, 0, 0, 0, 0, 0,
     0, 0, 0, 0, 0, 0, 0, 0, 0, 0, 0, 0, 0, 0, 0, 0]
  const NULL_ADDRESS: Address :=
    [0, 0, 0, 0, 0, 0, 0, 0, 0, 0, 0, 0, 0, 0, 0, 0, 0, 0, 0, 0, 0, 0, 0, 0, 0]

  /** The unsigned 64-bit sum and difference, which wrap around. */
  function Add64(a: uint64, b: uint64): uint64 { (a + b) % TWO_64 }

  function Sub64(a: uint64, b: uint64): uint64 { (a - b) % TWO_64 }

  predicate InInt32(x: int) { -0x8000_0000 <= x < 0x8000_0000 }

  /** Conversion of an unsigned 64-bit value to a signed 32-bit one. */
  function ToInt32(x: uint64): (r: int)
    ensures -0x8000_0000 <= r < 0x8000_0000
    ensures exists k: int :: r == x - k * 0x1_0000_0000
  {
    var low := x % 0x1_0000_0000;
    var k := x / 0x1_0000_0000;
    assert low == x - k * 0x1_0000_0000;
    assert low - 0x1_0000_0000 == x - (k + 1) * 0x1_0000_0000;
    if low < 0x8000_0000 then low else low - 0x1_0000_0000
  }

  function Abs(x: int): nat { if x < 0 then -x else x }

  function Least(x: int, y: int): int { if x <= y then x else y }

  /** The n low-order bytes of x, least significant first. */
  function LittleEndian(x: nat, n: nat): (s: seq<byte>)
    ensures |s| == n
  {
    if n == 0 then [] else [x % 256] + LittleEndian(x / 256, n - 1)
  }

  function FromLittleEndian(s: seq<byte>): nat {
    if s == [] then 0 else s[0] + 256 * FromLittleEndian(s[1..])
  }

  /** The number that a byte string spells, most significant byte first. */
  function FromBigEndian(s: seq<byte>): nat {
    if s == [] then 0 else 256 * FromBigEndian(s[..|s| - 1]) + s[|s| - 1]
  }

  /** 256 to the n: how many values n bytes can hold. */
  function Span(n: nat): (r: nat)
    ensures r > 0
  {
    if n == 0 then 1 else 256 * Span(n - 1)
  }

  lemma {:induction false} LittleEndianInverse(x: nat, n: nat)
    ensures FromLittleEndian(LittleEndian(x, n)) == x % Span(n)
  {
    if n == 0 {
    } else {
      var s := LittleEndian(x, n);
      LittleEndianInverse(x / 256, n - 1);
      assert s[1..] == LittleEndian(x / 256, n - 1);
      ModDigit(x, Span(n - 1));
    }
  }

  lemma {:induction false} BigEndianHead(x: byte, s: seq<byte>)
    ensures FromBigEndian([x] + s) == x * Span(|s|) + FromBigEndian(s)
  {
    if s == [] {
      assert ([x] + s)[..0] == [];
    } else {
      var s' := s[..|s| - 1];
      BigEndianHead(x, s');
      assert ([x] + s)[..|s|] == [x] + s';
      assert 256 * (x * Span(|s'|)) == x * (256 * Span(|s'|));
    }
  }

  lemma {:induction false} BigEndianBound(s: seq<byte>)
    ensures FromBigEndian(s) < Span(|s|)
  {
    if s == [] {
    } else {
      BigEndianBound(s[..|s| - 1]);
    }
  }

  lemma ModDigit(x: nat, m: nat)
    requires m > 0
    ensures x % (256 * m) == x % 256 + 256 * (x / 256 % m)
  {
    var q, d := x / 256, x % 256;
    var t, r := q / m, q % m;
    assert x == 256 * (t * m + r) + d;
    assert 256 * (t * m) == t * (256 * m);
    assert 0 <= 256 * r + d < 256 * m;
    DivModUnique(x, 256 * m, t, 256 * r + d);
  }

  lemma DivModUnique(x: int, m: int, q: int, r: int)
    requires m > 0 && x == q * m + r && 0 <= r < m
    ensures x / m == q && x % m == r
  {
    var q', r' := x / m, x % m;
    assert (q - q') * m == r' - r;
    MultipleBound(q - q', m);
  }

  /** Adding to a remainder is adding to the number. */
  lemma ModAdds(a: nat, b: nat, m: nat)
    requires m > 0
    ensures (a % m + b) % m == (a + b) % m
  {
    var q, k, s := a / m, (a % m + b) / m, (a % m + b) % m;
    assert (q + k) * m + s == q * m + (k * m + s);
    DivModUnique(a + b, m, q + k, s);
  }

  /** What is added to a multiple is the remainder. */
  lemma RestOfMultiple(a: nat, b: nat, m: nat)
    requires m > 0 && a % m == 0 && b < m
    ensures (a + b) % m == b
  {
    DivModUnique(a + b, m, a / m, b);
  }

  lemma MultipleBound(k: int, m: int)
    requires m > 0
    ensures k >= 1 ==> k * m >= m
    ensures k <= -1 ==> k * m <= -m
  {
    if k >= 1 {
      assert (k - 1) * m >= 0;
    } else if k <= -1 {
      assert (k + 1) * m <= 0;
    }
  }

  lemma Words4And8()
    ensures Span(4) == 0x1_0000_0000
    ensures Span(8) == TWO_64
  {
    assert Span(1) == 256;
    assert Span(2) == 0x1_0000;
    assert Span(3) == 0x100_0000;
    assert Span(4) == 0x1_0000_0000;
    assert Span(5) == 0x100_0000_0000;
    assert Span(6) == 0x1_0000_0000_0000;
    assert Span(7) == 0x100_0000_0000_0000;
  }
}
