/** The arbitrary-precision integer that holds the chain's total work.  Its
    operations rewrite the limb vector in place.  Only nonnegative numbers are
    modelled. */
module Bigints {
  import opened Words
  import opened Power
  import opened Limbs
  import opened LimbProducts
  import opened Decimal

  predicate InInt64(x: int) { -0x8000_0000_0000_0000 <= x < 0x8000_0000_0000_0000 }

  function Tail(s: seq<Limb>, i: nat): seq<Limb> {
    if i <= |s| then s[i..] else []
  }

  /** One round of the addition loop: limb i becomes the digit of s. */
  lemma AddRound(n: seq<Limb>, b: seq<Limb>, i: nat, sum: int, s: int, next: seq<Limb>)
    requires i <= |n| && 0 <= sum <= 1 && (i < |n| || i < |b|)
    requires s == sum + (if i < |n| then n[i] else 0) + (if i < |b| then b[i] else 0)
    requires next == (if i < |n| then n else n + [0])[i := s % BASE]
    ensures 0 <= s / BASE <= 1 && InInt32(s)
    ensures i + 1 <= |next| && next[i + 1..] == Tail(n, i + 1)
    ensures next[..i + 1] + Sum(next[i + 1..], Tail(b, i + 1), s / BASE)
            == n[..i] + Sum(n[i..], Tail(b, i), sum)
  {
    SumUnfold(n[i..], Tail(b, i), sum, s);
    assert n[i..] != [] ==> n[i..][1..] == Tail(n, i + 1);
    assert Tail(b, i) != [] ==> Tail(b, i)[1..] == Tail(b, i + 1);
    assert next[..i + 1] == n[..i] + [s % BASE];
    Regroup(n[..i], s % BASE, Sum(next[i + 1..], Tail(b, i + 1), s / BASE));
  }

  lemma SumUnfold(a: seq<Limb>, b: seq<Limb>, carry: int, s: int)
    requires 0 <= carry <= 1 && (a != [] || b != [])
    requires s == carry + (if a != [] then a[0] else 0) + (if b != [] then b[0] else 0)
    ensures 0 <= s / BASE <= 1
    ensures Sum(a, b, carry)
            == [s % BASE] + Sum(if a != [] then a[1..] else [], if b != [] then b[1..] else [], s / BASE)
  {
  }

  lemma Regroup(done: seq<Limb>, d: Limb, rest: seq<Limb>)
    ensures (done + [d]) + rest == done + ([d] + rest)
  {
  }

  lemma SubRound(n: seq<Limb>, b: seq<Limb>, i: nat, borrow: int, dif: int, next: seq<Limb>)
    requires i < |n| && |b| <= |n| && -1 <= borrow <= 0
    requires dif == borrow + n[i] - (if i < |b| then b[i] else 0)
    requires next == n[i := if dif < 0 then dif + BASE else dif]
    ensures InInt32(dif)
    ensures next[..i + 1] + Difference(next[i + 1..], Tail(b, i + 1), if dif < 0 then -1 else 0)
            == n[..i] + Difference(n[i..], Tail(b, i), borrow)
    ensures Borrowed(next[i + 1..], Tail(b, i + 1), if dif < 0 then -1 else 0) == Borrowed(n[i..], Tail(b, i), borrow)
  {
    var d: Limb, c := if dif < 0 then dif + BASE else dif, if dif < 0 then -1 else 0;
    assert n[i..][1..] == n[i + 1..] == next[i + 1..];
    assert Tail(b, i) != [] ==> Tail(b, i)[1..] == Tail(b, i + 1);
    assert Difference(n[i..], Tail(b, i), borrow) == [d] + Difference(next[i + 1..], Tail(b, i + 1), c);
    assert next[..i + 1] == n[..i] + [d];
    Regroup(n[..i], d, Difference(next[i + 1..], Tail(b, i + 1), c));
  }

  lemma DifferenceOfNothing(borrow: int)
    requires -1 <= borrow <= 0
    ensures Difference([], [], borrow) == [] && Borrowed([], [], borrow) == borrow
  {
  }

  lemma TimesRound(n: seq<Limb>, b: Limb, i: nat, carry: int, sum: int, next: seq<Limb>)
    requires i < |n| && 0 <= carry < BASE && sum == carry + n[i] * b
    requires next == n[i := sum % BASE]
    ensures 0 <= sum / BASE < BASE && InInt64(sum)
    ensures next[..i + 1] + Times(next[i + 1..], b, sum / BASE) == n[..i] + Times(n[i..], b, carry)
  {
    TimesCarry(n[i], b, carry);
    assert n[i..][1..] == next[i + 1..];
    TimesStep(n[i..], b, carry, sum);
    assert next[..i + 1] == n[..i] + [sum % BASE];
    Regroup(n[..i], sum % BASE, Times(next[i + 1..], b, sum / BASE));
  }

  lemma AccumulateRound(n: seq<Limb>, i: nat, v: nat, first: bool, v': nat, next: seq<Limb>)
    requires i < |n| && (v != 0 || first)
    requires v' == v / BASE + (n[i] + v % BASE) / BASE
    requires next == n[i := (n[i] + v % BASE) % BASE]
    ensures next[..i + 1] + Accumulate(next[i + 1..], v', false) == n[..i] + Accumulate(n[i..], v, first)
    ensures n[i] == 0 && v > 0 ==> v' < v
  {
    var d := (n[i] + v % BASE) % BASE;
    assert n[i..][1..] == next[i + 1..];
    assert Accumulate(n[i..], v, first) == [d] + Accumulate(next[i + 1..], v', false);
    assert next[..i + 1] == n[..i] + [d];
    Regroup(n[..i], d, Accumulate(next[i + 1..], v', false));
  }

  lemma AccumulateStops(t: seq<Limb>)
    ensures Accumulate(t, 0, false) == t
  {
  }

  lemma PadWithZero(n: seq<Limb>, v: nat, first: bool)
    requires v != 0 || first
    ensures (n + [0])[..|n|] + Accumulate((n + [0])[|n|..], v, false) == n[..|n|] + Accumulate(n[|n|..], v, first)
  {
    assert (n + [0])[|n|..] == [0] && n[|n|..] == [];
    assert [0][1..] == [];
    assert Accumulate([0], v, false) == Accumulate([], v, first);
  }

  lemma SingleLimbProduct(n: seq<Limb>, x: Limb)
    ensures Val(Times(n, x, 0)) == Val(n) * Val([x])
    ensures Canonical(n) && Val(n) > 0 && x > 0 ==> Canonical(Times(n, x, 0))
    ensures Val([x]) == x
  {
    assert [x][1..] == [];
    TimesIsProduct(n, x, 0);
    if Canonical(n) && Val(n) > 0 && x > 0 {
      SingleLimbCanonical(n, x, Times(n, x, 0), Val(n));
    }
  }

  lemma SingleLimbCanonical(n: seq<Limb>, x: Limb, r: seq<Limb>, v: nat)
    requires Canonical(n) && v == Val(n) && x > 0 && Val(r) == v * x
    requires |n| <= |r| <= |n| + 1 && (|r| > |n| ==> r[|n|] != 0)
    ensures Canonical(r)
  {
    hide Val;
    if |r| == |n| {
      LeadingLimb(n);
      LeadingLimb(r);
      TimesAtLeast(v, x);
    }
  }

  lemma TimesAtLeast(v: nat, x: nat)
    requires x > 0
    ensures v * x >= v
  {
    assert v * (x - 1) >= 0;
  }

  lemma TermFits(x: Limb, y: Limb)
    ensures 0 <= Term(x, y) && InInt64(Term(x, y))
  {
    TermBound(x, BASE - 1, y);
  }

  lemma PartialRowEnd(a: seq<Limb>, b: seq<Limb>, i: nat)
    requires i < |a|
    ensures Partial(a, b, i, |b|) == Partial(a, b, i + 1, 0)
  {
    if b == [] {
      assert Val(a[..i]) * Val(b) == 0 && Val(a[..i + 1]) * Val(b) == 0;
    } else {
      PartialRow(a, b, i);
    }
  }

  lemma PartialAll(a: seq<Limb>, b: seq<Limb>)
    ensures Partial(a, b, |a|, 0) == Val(a) * Val(b)
  {
    assert a[..|a|] == a;
  }

  class Bigint {
    var number: seq<Limb>
    var positive: bool
    var skip: nat

    /** A machine integer, digit by digit: zero becomes the empty vector. */
    constructor (value: nat)
      requires InInt64(value)
      ensures number == LimbsOf(value) && positive && skip == 0
    {
      number, positive, skip := [], true, 0;
      new;
      var v: nat := value;
      while v > 0
        invariant number + LimbsOf(v) == LimbsOf(value)
        invariant positive && skip == 0
      {
        Regroup(number, v % BASE, LimbsOf(v / BASE));
        number := number + [v % BASE];
        v := v / BASE;
      }
    }

    constructor Copy(b: Bigint)
      ensures number == b.number && positive == b.positive && skip == b.skip
    {
      number, positive, skip := b.number, b.positive, b.skip;
    }

    /** Assigning a machine integer: here zero becomes one zero limb. */
    method Assign(value: nat)
      requires InInt64(value)
      modifies this
      ensures number == if value == 0 then [0] else LimbsOf(value)
      ensures positive == old(positive) && skip == old(skip)
    {
      number := [value % BASE];
      var t: nat := value / BASE;
      while t != 0
        invariant number + LimbsOf(t) == if value == 0 then [0] else LimbsOf(value)
        invariant positive == old(positive) && skip == old(skip)
      {
        number := number + [t % BASE];
        t := t / BASE;
      }
    }

    /** One limb of text: at most nine digits ending at `size`. */
    static method ParseChunk(text: string, size: nat) returns (num: Limb, length: nat)
      requires AllDigits(text) && 0 < size <= |text|
      ensures length == if size >= 9 then 9 else size
      ensures num == Spelled(text[size - length..size])
    {
      var value, prefix := 0, 1;
      length := 0;
      var i := size - 1;
      while i >= 0 && i >= size - 9
        invariant -1 <= i < size && i >= size - 10 && length == size - 1 - i
        invariant prefix == Pow(10, length) && value == Spelled(text[i + 1..size])
      {
        SpelledPrepend(text[i], text[i + 1..size]);
        assert text[i..size] == [text[i]] + text[i + 1..size];
        value := value + DigitValue(text[i]) * prefix;
        prefix := prefix * 10;
        length := length + 1;
        i := i - 1;
      }
      ChunkFits(text[size - length..size]);
      num := value;
    }

    /** Reads nine digits at a time from the end. */
    constructor Parse(text: string)
      requires AllDigits(text)
      ensures number == Parsed(text) && positive && skip == 0
    {
      number, positive, skip := [], true, 0;
      new;
      hide Parsed, Spelled;
      var size := |text|;
      assert text[..size] == text;
      ParsedNothing();
      while size > 0
        invariant 0 <= size <= |text|
        invariant number + Parsed(text[..size]) == Parsed(text)
        invariant positive && skip == 0
      {
        var num, length := ParseChunk(text, size);
        OneChunk(text, size, length);
        Regroup(number, num, Parsed(text[..size - length]));
        number := number + [num];
        size := size - length;
      }
    }

    method AddAssign(b: Bigint)
      requires positive && b.positive
      modifies this
      ensures number == Sum(old(number), old(b.number), 0)
      ensures positive && skip == old(skip)
    {
      var addend := b.number;
      var i, sum := 0, 0;
      while i < |number| || i < |addend|
        invariant 0 <= i <= |number| && 0 <= sum <= 1
        invariant number[..i] + Sum(number[i..], Tail(addend, i), sum) == Sum(old(number), addend, 0)
        invariant positive && skip == old(skip)
        decreases (if |number| >= |addend| then |number| else |addend|) - i
      {
        ghost var n, carry := number, sum;
        if i < |number| {
          sum := sum + number[i];
        } else {
          number := number + [0];
        }
        if i < |addend| {
          sum := sum + addend[i];
        }
        number := number[i := sum % BASE];
        AddRound(n, addend, i, carry, sum, number);
        i := i + 1;
        sum := sum / BASE;
      }
      if sum != 0 {
        number := number + [1];
      }
    }

    /** Limb by limb with a borrow, then without the leading zeros. */
    method SubAssign(b: Bigint)
      requires positive && b.positive && |b.number| <= |number|
      modifies this
      ensures number == Trim(Difference(old(number), old(b.number), 0))
      ensures positive <==> Val(old(number)) >= Val(old(b.number))
      ensures skip == old(skip)
    {
      BorrowedIffLess(number, b.number);
      var dif := SubtractLimbs(b.number);
      if dif < 0 {
        positive := false;
      }
      DropLeadingZeros();
    }

    method SubtractLimbs(b: seq<Limb>) returns (dif: int)
      requires |b| <= |number|
      modifies this
      ensures number == Difference(old(number), b, 0) && dif == Borrowed(old(number), b, 0)
      ensures positive == old(positive) && skip == old(skip)
    {
      hide Difference, Borrowed;
      ghost var total, last := Difference(number, b, 0), Borrowed(number, b, 0);
      var i := 0;
      dif := 0;
      while i < |number|
        invariant 0 <= i <= |number| == |old(number)| && -1 <= dif <= 0
        invariant number[..i] + Difference(number[i..], Tail(b, i), dif) == total
        invariant Borrowed(number[i..], Tail(b, i), dif) == last
        invariant positive == old(positive) && skip == old(skip)
      {
        ghost var n, borrow := number, dif;
        dif := dif + number[i];
        if i < |b| {
          dif := dif - b[i];
        }
        ghost var next: seq<Limb> := n[i := if dif < 0 then dif + BASE else dif];
        SubRound(n, b, i, borrow, dif, next);
        if dif < 0 {
          number := number[i := dif + BASE];
          dif := -1;
        } else {
          number := number[i := dif % BASE];
          dif := dif / BASE;
        }
        i := i + 1;
        assert number == next;
      }
      DifferenceOfNothing(dif);
      assert number[..i] == number && number[i..] == [] && Tail(b, i) == [];
    }

    method DropLeadingZeros()
      modifies this
      ensures number == Trim(old(number)) && positive == old(positive) && skip == old(skip)
    {
      while |number| > 1
        invariant Trim(number) == Trim(old(number))
        invariant positive == old(positive) && skip == old(skip)
        decreases |number|
      {
        if number[|number| - 1] == 0 {
          number := number[..|number| - 1];
        } else {
          break;
        }
      }
    }

    /** Multiplies by a single limb, in place. */
    method MulAssignInt(b: Limb)
      modifies this
      ensures number == Times(old(number), b, 0)
      ensures positive == old(positive) && skip == old(skip)
    {
      var i, sum := 0, 0;
      while i < |number|
        invariant 0 <= i <= |number| && 0 <= sum < BASE
        invariant number[..i] + Times(number[i..], b, sum) == Times(old(number), b, 0)
        invariant positive == old(positive) && skip == old(skip)
      {
        ghost var n, carry := number, sum;
        sum := sum + Term(number[i], b);
        TimesCarry(n[i], b, carry);
        number := number[i := sum % BASE];
        TimesRound(n, b, i, carry, sum, number);
        sum := sum / BASE;
        i := i + 1;
      }
      if sum != 0 {
        number := number + [sum];
      }
    }

    /** Adds a machine integer `skip` limbs up.  On a vector shorter than `skip` the
        source keeps an iterator that its own insertion invalidates, so the offset
        must lie within the vector. */
    method AccumulateAssign(value: nat)
      requires skip <= |number| && InInt64(value)
      modifies this
      ensures number == AccumulateAt(old(number), old(skip), value)
      ensures positive == old(positive) && skip == old(skip)
    {
      hide Accumulate;
      var i, v: nat, first := skip, value, true;
      ghost var total := AccumulateAt(number, skip, value);
      while v != 0 || first
        invariant i <= |number|
        invariant number[..i] + Accumulate(number[i..], v, first) == total
        invariant if i < |old(number)| || first then |number| == |old(number)|
                  else i <= |number| <= i + 1 && (i < |number| ==> number[i] == 0)
        invariant positive == old(positive) && skip == old(skip)
        decreases if i < |old(number)| then |old(number)| - i else 0, v, i == |number|
      {
        if i < |number| {
          ghost var n, v0 := number, v;
          var x := number[i] + v % BASE;
          assert InInt32(x);
          v := v / BASE + x / BASE;
          number := number[i := x % BASE];
          AccumulateRound(n, i, v0, first, v, number);
          i := i + 1;
        } else {
          PadWithZero(number, v, first);
          number := number + [0];
        }
        first := false;
      }
      AccumulateStops(number[i..]);
    }

    /** The schoolbook product.  A single-limb factor takes a shorter way, which
        rewrites this number before copying it. */
    method Mul(b: Bigint) returns (c: Bigint)
      modifies this
      ensures fresh(c) && c.positive == (|old(b.number)| != 1 || old(positive))
      ensures c.skip == (if |old(b.number)| == 1 then old(skip) else 0)
      ensures Val(c.number) == Val(old(number)) * Val(old(b.number))
      ensures Canonical(old(number)) && Canonical(old(b.number)) && Val(old(number)) > 0 && Val(old(b.number)) > 0 ==>
                Canonical(c.number)
      ensures number == if |old(b.number)| == 1 then Times(old(number), old(b.number)[0], 0) else old(number)
    {
      if |b.number| == 1 {
        ghost var n, x := number, b.number[0];
        MulAssignInt(b.number[0]);
        c := new Bigint.Copy(this);
        SingleLimbProduct(n, x);
        return;
      }
      c := new Bigint(0);
      var n, m := number, b.number;
      for i := 0 to |n|
        invariant fresh(c) && c.positive && number == n
        invariant Val(c.number) == Partial(n, m, i, 0)
        invariant i > 0 && m != [] ==> |c.number| >= i - 1 + |m| && TopNonzeroAbove(c.number, i - 1 + |m|)
        invariant i == 0 || m == [] ==> c.number == []
      {
        c.AddRow(n, m, i);
        PartialRowEnd(n, m, i);
      }
      c.skip := 0;
      PartialAll(n, m);
      if Canonical(n) && Canonical(m) && Val(n) > 0 && Val(m) > 0 {
        ProductCanonical(n, m, c.number);
      }
    }

    /** The inner loop of the product: limb n[i] times every limb of m. */
    method AddRow(n: seq<Limb>, m: seq<Limb>, i: nat)
      requires i < |n| && Val(number) == Partial(n, m, i, 0)
      requires i > 0 && m != [] ==> |number| >= i - 1 + |m| && TopNonzeroAbove(number, i - 1 + |m|)
      requires i == 0 || m == [] ==> number == []
      modifies this
      ensures Val(number) == Partial(n, m, i, |m|) && positive == old(positive)
      ensures m != [] ==> |number| >= i + |m| && TopNonzeroAbove(number, i + |m|)
      ensures m == [] ==> number == []
    {
      hide Val, Partial, Term;
      for j := 0 to |m|
        invariant positive == old(positive)
        invariant Val(number) == Partial(n, m, i, j)
        invariant m != [] ==> |number| >= i + j && TopNonzeroAbove(number, i + |m|)
        invariant m == [] ==> number == []
      {
        skip := i + j;
        TermFits(n[i], m[j]);
        AccumulateAtAddsShifted(number, i + j, Term(n[i], m[j]));
        AccumulateAtTop(number, i + j, Term(n[i], m[j]), i + |m|);
        PartialStep(n, m, i, j);
        AccumulateAssign(Term(n[i], m[j]));
      }
    }

    /** A positive canonical number with no pending shift. */
    ghost predicate Positive()
      reads this
    {
      positive && skip == 0 && Canonical(number) && Val(number) > 0
    }

    /** The power, through a table of the powers met so far.  (The source also
        tests for `power == closestPower`, which only a power of zero would meet,
        and then recurses for ever.) */
    method PowMemo(power: int, memo: Memo) returns (r: Bigint)
      requires 1 <= power <= 0x4000_0000
      requires Positive() && memo.Holds(Val(number))
      modifies memo
      ensures fresh(r) && r.Positive() && Val(r.number) == Pow(Val(number), power)
      ensures memo.Holds(Val(number))
      decreases power
    {
      if power == 1 {
        r := new Bigint.Copy(this);
        PowOne(Val(number));
        return;
      }
      if power in memo.table {
        r := new Bigint(0);
        r.number := memo.table[power];
        PowPositive(Val(number), power);
        return;
      }
      var closestPower := ClosestPower(power);
      var x := PowMemo(closestPower, memo);
      var y := PowMemo(power - closestPower, memo);
      PowAdd(Val(number), closestPower, power - closestPower);
      PowPositive(Val(number), power);
      var product := x.Mul(y);
      memo.table := memo.table[power := product.number];
      r := new Bigint.Copy(product);
    }

    method PowAssign(power: int)
      requires 1 <= power <= 0x4000_0000 && Positive()
      modifies this
      ensures Positive() && Val(number) == Pow(old(Val(number)), power)
    {
      var lookup := new Memo();
      var r := PowMemo(power, lookup);
      number := r.number;
    }

    /** -1, 0 or 1: lengths first, then limbs from the top. */
    method Compare(a: Bigint) returns (r: int)
      requires positive && a.positive
      ensures (number == [] || Canonical(number)) && (a.number == [] || Canonical(a.number)) ==>
                (r == Order(Val(number), Val(a.number)) <==> !ZeroTwoWays(number, a.number))
      ensures ZeroTwoWays(number, a.number) ==> r == if number == [] then -1 else 1
      ensures -1 <= r <= 1
    {
      if |number| < |a.number| {
        ShorterOrZero(number, a.number);
        return -1;
      }
      if |number| > |a.number| {
        ShorterOrZero(a.number, number);
        return 1;
      }
      var i := |number|;
      while i > 0
        invariant 0 <= i <= |number| == |a.number|
        invariant number[i..] == a.number[i..]
      {
        if number[i - 1] < a.number[i - 1] {
          HigherLimbDecides(number, a.number, i - 1);
          return -1;
        }
        if number[i - 1] > a.number[i - 1] {
          HigherLimbDecides(a.number, number, i - 1);
          return 1;
        }
        assert number[i - 1..] == [number[i - 1]] + number[i..];
        assert a.number[i - 1..] == [a.number[i - 1]] + a.number[i..];
        i := i - 1;
      }
      assert number[0..] == number && a.number[0..] == a.number;
      return 0;
    }

    method SegmentLength(segment: Limb) returns (length: nat)
      ensures length == |Digits(segment)|
    {
      var s: nat := segment;
      length := 0;
      while s > 0
        invariant length + |Digits(s)| == |Digits(segment)|
      {
        s := s / 10;
        length := length + 1;
      }
    }

    /** What the stream operator writes: leading zero limbs are passed over, the
        first limb left is printed plainly and the others in nine digits. */
    method ToString() returns (text: string)
      requires positive
      ensures text == Text(if number == [] then [0] else Trim(number))
    {
      var i := |number| - 1;
      while i >= 0 && number[i] == 0
        invariant -1 <= i < |number|
        invariant forall k :: i < k < |number| ==> number[k] == 0
        decreases i
      {
        i := i - 1;
      }
      TrimToFirst(number, i);
      if i == -1 {
        return "0";
      }
      ghost var top := number[..i + 1];
      text := Plain(number[i]);
      assert |top| == i + 1 && top[i] == number[i];
      assert top[i..] == [top[i]];
      while i > 0
        invariant 0 <= i < |top|
        invariant text == Text(top[i..])
      {
        i := i - 1;
        assert top[i..][1..] == top[i + 1..];
        text := PrintPadded(text, number[i]);
      }
      assert top[0..] == top;
    }

    method PrintPadded(text: string, limb: Limb) returns (r: string)
      ensures r == text + Padded(limb)
    {
      r := text;
      var len := SegmentLength(limb);
      NineDigits();
      DigitsLength(limb, 9);
      for k := 0 to 9 - len
        invariant r == text + Zeros(k)
      {
        r := r + "0";
      }
      if limb != 0 {
        r := r + Plain(limb);
      }
    }
  }

  /** The table of powers that one call of `pow` passes down. */
  class Memo {
    var table: map<int, seq<Limb>>

    constructor ()
      ensures table == map[]
    {
      table := map[];
    }

    ghost predicate Holds(v: nat)
      reads this
    {
      forall k <- table :: k >= 2 && Canonical(table[k]) && Val(table[k]) == Pow(v, k)
    }
  }

  /** The largest power of two below `power`. */
  method ClosestPower(power: int) returns (closest: int)
    requires 2 <= power <= 0x4000_0000
    ensures 1 <= closest < power <= 2 * closest
  {
    closest := 1;
    var half := 0;
    while closest < power
      invariant (closest == 1 && half == 0) || (closest == 2 * half && 1 <= half < power)
      invariant 1 <= closest < 2 * power
      decreases 2 * power - closest
    {
      half := closest;
      closest := 2 * closest;
    }
    closest := closest / 2;
  }

  /** The total work after one more block of the given difficulty. */
  method AddWork(previousWork: Bigint, challengeSize: int) returns (work: Bigint)
    requires 1 <= challengeSize <= 0x4000_0000
    requires previousWork.positive && previousWork.skip == 0 && Canonical(previousWork.number)
    ensures fresh(work) && work.positive && work.skip == 0 && Canonical(work.number)
    ensures Val(work.number) == Val(previousWork.number) + Pow(2, challengeSize)
  {
    var two := new Bigint(2);
    LimbsOfValue(2);
    two.PowAssign(challengeSize);
    work := new Bigint.Copy(previousWork);
    SumCanonical(work.number, two.number);
    work.AddAssign(two);
  }

  function Order(x: int, y: int): int {
    if x < y then -1 else if x > y then 1 else 0
  }

  /** The one pair that the comparison gets wrong: an empty vector and a single
      zero limb both stand for zero. */
  predicate ZeroTwoWays(a: seq<Limb>, b: seq<Limb>) {
    (a == [] && b == [0]) || (a == [0] && b == [])
  }

  lemma ShorterOrZero(a: seq<Limb>, b: seq<Limb>)
    requires |a| < |b|
    ensures (a == [] || Canonical(a)) && Canonical(b) ==> (Val(a) < Val(b) || (a == [] && b == [0]))
    ensures Val([0]) == 0
  {
    assert [0][1..] == [];
    if a == [] && Canonical(b) {
      LeadingLimb(b);
      PowPositive(BASE, |b| - 1);
      if |b| == 1 && b[0] == 0 {
        assert b == [0];
      }
    } else if Canonical(a) && Canonical(b) {
      ShorterIsLess(a, b);
    }
  }

  lemma PowOne(v: int)
    ensures Pow(v, 1) == v
  {
    assert Pow(v, 0) == 1;
  }

  lemma {:induction false} TrimToFirst(s: seq<Limb>, i: int)
    requires -1 <= i < |s| && (i >= 0 ==> s[i] != 0)
    requires forall k :: i < k < |s| ==> s[k] == 0
    ensures i >= 0 ==> Trim(s) == s[..i + 1]
    ensures i == -1 && s != [] ==> Trim(s) == [0]
  {
    if |s| <= 1 || s[|s| - 1] != 0 {
    } else {
      TrimToFirst(s[..|s| - 1], i);
      assert i >= 0 ==> s[..|s| - 1][..i + 1] == s[..i + 1];
    }
  }
}
