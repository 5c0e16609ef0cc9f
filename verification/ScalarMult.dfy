/** Scalar multiplication of curve points from recoded scalars.  A point is taken
    apart into multiples of the two points that the computation starts from, which
    holds in any commutative group. */
module ScalarMult {
  import opened Words
  import opened Power
  import opened Recoding

  /** x * A + y * B. */
  datatype Point = Point(x: int, y: int) {
    function Add(p: Point): Point { Point(x + p.x, y + p.y) }

    function Sub(p: Point): Point { Point(x - p.x, y - p.y) }

    function Double(): Point { Add(this) }
  }

  const NEUTRAL := Point(0, 0)
  const A := Point(1, 0)
  const B := Point(0, 1)

  function Times(n: int, p: Point): Point { Point(n * p.x, n * p.y) }

  /** The first eight odd multiples of p. */
  predicate OddMultiples(t: seq<Point>, p: Point) {
    |t| == 8 && forall j :: 0 <= j < 8 ==> t[j] == Times(2 * j + 1, p)
  }

  method OddTable(p: Point) returns (t: seq<Point>)
    ensures OddMultiples(t, p)
  {
    var p2 := p.Double();
    t := [p];
    for j := 1 to 8
      invariant |t| == j && forall k :: 0 <= k < j ==> t[k] == Times(2 * k + 1, p)
    {
      t := t + [p2.Add(t[j - 1])];
      NextOdd(j, p);
    }
  }

  lemma NextOdd(j: int, p: Point)
    ensures Times(2, p).Add(Times(2 * j - 1, p)) == Times(2 * j + 1, p)
  {
  }

  /** q + d * p for a window digit d, by one table lookup. */
  method AddDigit(q: Point, d: int8, t: seq<Point>, ghost p: Point) returns (r: Point)
    requires Digit(d) && OddMultiples(t, p)
    ensures r == q.Add(Times(d, p))
  {
    r := q;
    if d > 0 {
      r := q.Add(t[d / 2]);
      assert 2 * (d / 2) + 1 == d;
    } else if d < 0 {
      var m: int := d;
      r := q.Sub(t[-m / 2]);
      assert 2 * (-m / 2) + 1 == -m;
      NegatedTimes(d, p);
    }
  }

  lemma NegatedTimes(d: int, p: Point)
    ensures Times(-d, p) == Point(-Times(d, p).x, -Times(d, p).y)
  {
  }

  /** a * A + b * B, by doubling and adding down from the highest digit of either.
      A carry lost from a scalar of 2^255 or more is lost from the result. */
  method DoubleScalarMult(a: seq<byte>, b: seq<byte>) returns (r: Point)
    requires |a| == |b| == 32
    ensures FromLittleEndian(a) < Pow(2, 255) ==> r.x == FromLittleEndian(a)
    ensures FromLittleEndian(b) < Pow(2, 255) ==> r.y == FromLittleEndian(b)
  {
    hide FromLittleEndian, Pow, Horner, Digits, Sparse;
    var aslide, bslide := new int8[256], new int8[256];
    ghost var aLost := Slide(aslide, a);
    ghost var bLost := Slide(bslide, b);
    r := Descend(aslide, bslide);
  }

  method Descend(aslide: array<int8>, bslide: array<int8>) returns (r: Point)
    requires aslide.Length == bslide.Length == 256 && Digits(aslide[..]) && Digits(bslide[..])
    ensures r == Point(Horner(2, aslide[..], 0), Horner(2, bslide[..], 0))
  {
    hide Horner, Digit;
    var tableA := OddTable(A);
    var tableB := OddTable(B);
    r := NEUTRAL;
    var i := 256;
    HornerEnd(2, aslide[..]);
    HornerEnd(2, bslide[..]);
    while i > 0 && aslide[i - 1] == 0 && bslide[i - 1] == 0
      invariant 0 <= i <= 256 && Horner(2, aslide[..], i) == 0 == Horner(2, bslide[..], i)
    {
      i := i - 1;
      HornerStep(2, aslide[..], i);
      HornerStep(2, bslide[..], i);
    }
    while i > 0
      invariant 0 <= i <= 256 && r == Point(Horner(2, aslide[..], i), Horner(2, bslide[..], i))
    {
      i := i - 1;
      HornerStep(2, aslide[..], i);
      HornerStep(2, bslide[..], i);
      assert Digit(aslide[..][i]) && Digit(bslide[..][i]);
      r := r.Double();
      r := AddDigit(r, aslide[i], tableA, A);
      r := AddDigit(r, bslide[i], tableB, B);
    }
  }

  lemma HornerStep(base: int, s: seq<int>, i: nat)
    requires i < |s|
    ensures Horner(base, s, i) == s[i] + base * Horner(base, s, i + 1)
  {
  }

  /** d * 256^pos * B, from a table of eight multiples for each pos. */
  function Select(pos: nat, d: int8): Point
    requires pos < 32 && -8 <= d <= 8
  {
    Times(d * Pow(256, pos), B)
  }

  /** The digits of one parity from i on, weighted by powers of 256. */
  function Alternate(e: seq<int>, i: nat): int
    decreases |e| - i
  {
    if i >= |e| then 0 else e[i] + 256 * Alternate(e, i + 2)
  }

  lemma {:induction false} AlternateSplit(e: seq<int>, i: nat)
    requires i <= |e|
    ensures Horner(16, e, i) == Alternate(e, i) + 16 * Alternate(e, i + 1)
    decreases |e| - i
  {
    if i == |e| {
    } else {
      AlternateSplit(e, i + 1);
    }
  }

  /** a * B from 64 radix-16 digits: the odd ones first, four doublings, then the
      even ones. */
  method ScalarMultBase(a: seq<byte>) returns (h: Point)
    requires |a| == 32 && a[31] <= 127
    ensures h == Times(FromLittleEndian(a), B)
  {
    hide FromLittleEndian, Pow, Horner, Alternate;
    var e := new int8[64];
    Radix16(e, a);
    AlternateSplit(e[..], 0);
    h := NEUTRAL;
    h := AddParity(e, h, 1);
    h := h.Double().Double().Double().Double();
    h := AddParity(e, h, 0);
  }

  method AddParity(e: array<int8>, h0: Point, parity: nat) returns (h: Point)
    requires e.Length == 64 && parity <= 1 && forall i :: 0 <= i < 64 ==> -8 <= e[i] <= 8
    ensures h == h0.Add(Times(Alternate(e[..], parity), B))
  {
    hide Pow;
    h := h0;
    var i := parity;
    PowZero();
    while i < 64
      invariant parity <= i <= 64 + parity && i % 2 == parity % 2
      invariant h.x == h0.x
      invariant h.y + Pow(256, i / 2) * Alternate(e[..], i) == h0.y + Alternate(e[..], parity)
      decreases 64 - i
    {
      h := h.Add(Select(i / 2, e[i]));
      NextDigit(e[..], i);
      i := i + 2;
    }
  }

  lemma PowZero()
    ensures Pow(256, 0) == 1
  {
  }

  lemma NextDigit(e: seq<int>, i: nat)
    requires i < |e|
    ensures e[i] * Pow(256, i / 2) + Pow(256, (i + 2) / 2) * Alternate(e, i + 2) == Pow(256, i / 2) * Alternate(e, i)
  {
    assert (i + 2) / 2 == i / 2 + 1;
    Factor(Pow(256, i / 2), e[i], 256, Alternate(e, i + 2));
  }
}
