/** Decimal text: digits, zero-padded limbs, and the text of a limb vector. */
module Decimal {
  import opened Power
  import opened Limbs

  predicate IsDigit(c: char) { '0' <= c <= '9' }

  predicate AllDigits(s: string) { forall c <- s :: IsDigit(c) }

  function DigitValue(c: char): (d: nat)
    requires IsDigit(c)
    ensures d < 10
  {
    (c as int) - ('0' as int)
  }

  function DigitChar(d: nat): (c: char)
    requires d < 10
    ensures IsDigit(c) && DigitValue(c) == d
  {
    (d + ('0' as int)) as char
  }

  /** The number that a digit string spells. */
  function Spelled(s: string): nat
    requires AllDigits(s)
  {
    if s == "" then 0 else 10 * Spelled(s[..|s| - 1]) + DigitValue(s[|s| - 1])
  }

  /** The digits of x without leading zeros; none at all for zero. */
  function Digits(x: nat): (s: string)
    ensures AllDigits(s) && Spelled(s) == x && (s == "" <==> x == 0)
  {
    if x == 0 then ""
    else
      var s := Digits(x / 10) + [DigitChar(x % 10)];
      assert s[..|s| - 1] == Digits(x / 10);
      s
  }

  /** What the stream prints for one limb. */
  function Plain(x: nat): (s: string)
    ensures AllDigits(s) && Spelled(s) == x && s != ""
  {
    if x == 0 then "0" else Digits(x)
  }

  function Zeros(n: nat): (s: string)
    ensures |s| == n && AllDigits(s)
  {
    if n == 0 then "" else Zeros(n - 1) + "0"
  }

  lemma {:induction false} DigitsLength(x: nat, n: nat)
    requires x < Pow(10, n)
    ensures |Digits(x)| <= n
  {
    if x == 0 {
    } else {
      assert n > 0;
      DigitsLength(x / 10, n - 1);
    }
  }

  lemma NineDigits()
    ensures Pow(10, 9) == BASE
  {
    assert Pow(10, 3) == 1000;
    assert Pow(10, 6) == 1000_000;
  }

  /** A limb in exactly nine digits. */
  function Padded(x: Limb): (s: string)
    ensures |s| == 9 && AllDigits(s)
  {
    NineDigits();
    DigitsLength(x, 9);
    Zeros(9 - |Digits(x)|) + Digits(x)
  }

  lemma {:induction false} SpelledAppend(a: string, b: string)
    requires AllDigits(a) && AllDigits(b)
    ensures AllDigits(a + b)
    ensures Spelled(a + b) == Spelled(a) * Pow(10, |b|) + Spelled(b)
  {
    if b == "" {
      assert a + b == a;
    } else {
      var b' := b[..|b| - 1];
      SpelledAppend(a, b');
      assert (a + b)[..|a + b| - 1] == a + b';
      assert 10 * (Spelled(a) * Pow(10, |b'|)) == Spelled(a) * (10 * Pow(10, |b'|));
    }
  }

  lemma SpelledOne(c: char)
    requires IsDigit(c)
    ensures Spelled([c]) == DigitValue(c)
  {
    assert [c][..0] == "";
  }

  lemma SpelledPrepend(c: char, s: string)
    requires IsDigit(c) && AllDigits(s)
    ensures Spelled([c] + s) == Spelled(s) + DigitValue(c) * Pow(10, |s|)
  {
    SpelledAppend([c], s);
    SpelledOne(c);
  }

  lemma AppendNine(a: string, b: string)
    requires AllDigits(a) && AllDigits(b) && |b| == 9
    ensures AllDigits(a + b)
    ensures Spelled(a + b) == BASE * Spelled(a) + Spelled(b)
  {
    SpelledAppend(a, b);
    NineDigits();
  }

  lemma {:induction false} ZerosSpellZero(n: nat)
    ensures Spelled(Zeros(n)) == 0
  {
    if n == 0 {
    } else {
      ZerosSpellZero(n - 1);
      assert Zeros(n)[..n - 1] == Zeros(n - 1);
    }
  }

  lemma PaddedSpells(x: Limb)
    ensures Spelled(Padded(x)) == x
  {
    NineDigits();
    DigitsLength(x, 9);
    var n := 9 - |Digits(x)|;
    ZerosSpellZero(n);
    SpelledAppend(Zeros(n), Digits(x));
    assert 0 * Pow(10, |Digits(x)|) == 0;
  }

  lemma {:induction false} SpelledBound(s: string)
    requires AllDigits(s)
    ensures Spelled(s) < Pow(10, |s|)
  {
    if s == "" {
    } else {
      SpelledBound(s[..|s| - 1]);
    }
  }

  /** The text of a canonical vector: the top limb plainly, the others padded. */
  function Text(s: seq<Limb>): (t: string)
    requires s != []
    ensures AllDigits(t) && t != ""
  {
    if |s| == 1 then Plain(s[0]) else Text(s[1..]) + Padded(s[0])
  }

  /** Cutting a digit string into limbs, nine digits at a time from the end. */
  function Parsed(t: string): seq<Limb>
    requires AllDigits(t)
  {
    if t == "" then []
    else
      var n := if |t| >= 9 then 9 else |t|;
      var tail := t[|t| - n..];
      ChunkFits(tail);
      [Spelled(tail)] + Parsed(t[..|t| - n])
  }

  lemma ChunkFits(s: string)
    requires AllDigits(s) && |s| <= 9
    ensures Spelled(s) < BASE
  {
    NineDigits();
    SpelledBound(s);
    PowMonotone(10, |s|, 9);
  }

  lemma {:induction false} ParsedIsValue(t: string)
    requires AllDigits(t)
    ensures Val(Parsed(t)) == Spelled(t)
  {
    if t == "" {
    } else {
      var n := if |t| >= 9 then 9 else |t|;
      var head, tail := t[..|t| - n], t[|t| - n..];
      assert t == head + tail;
      ChunkFits(tail);
      ParsedIsValue(head);
      SpelledAppend(head, tail);
      assert Parsed(t)[1..] == Parsed(head);
      if n < 9 {
        assert head == "" && 0 * Pow(10, n) == 0;
      } else {
        NineDigits();
      }
    }
  }

  lemma ParsedNothing()
    ensures Parsed("") == []
  {
  }

  lemma ParsedStep(t: string, n: nat)
    requires AllDigits(t) && t != "" && n == (if |t| >= 9 then 9 else |t|)
    ensures Spelled(t[|t| - n..]) < BASE
    ensures Parsed(t) == [Spelled(t[|t| - n..])] + Parsed(t[..|t| - n])
  {
    hide Spelled;
    var chunk := t[|t| - n..];
    assert AllDigits(chunk) && AllDigits(t[..|t| - n]);
    ChunkFits(chunk);
  }

  /** One chunk off the end of the first `size` characters. */
  lemma OneChunk(text: string, size: nat, n: nat)
    requires AllDigits(text) && 0 < size <= |text| && n == (if size >= 9 then 9 else size)
    ensures Spelled(text[size - n..size]) < BASE
    ensures Parsed(text[..size]) == [Spelled(text[size - n..size])] + Parsed(text[..size - n])
  {
    var t := text[..size];
    ParsedStep(t, n);
    assert t[|t| - n..] == text[size - n..size] && t[..|t| - n] == text[..size - n];
  }

  /** Printing says what the number is ... */
  lemma {:induction false} TextSpellsValue(s: seq<Limb>)
    requires s != []
    ensures Spelled(Text(s)) == Val(s)
  {
    if |s| == 1 {
      assert s[1..] == [];
    } else {
      TextSpellsValue(s[1..]);
      AppendNine(Text(s[1..]), Padded(s[0]));
      PaddedSpells(s[0]);
    }
  }

  /** ... and parsing what was printed gives back the same limbs. */
  lemma {:induction false} ParsedText(s: seq<Limb>)
    requires Canonical(s)
    ensures Parsed(Text(s)) == s
  {
    var t := Text(s);
    if |s| == 1 {
      NineDigits();
      DigitsLength(s[0], 9);
      assert t[|t| - |t|..] == t && t[..0] == "";
    } else {
      var head := Text(s[1..]);
      ParsedText(s[1..]);
      assert t == head + Padded(s[0]) && |t| >= 9;
      assert t[|t| - 9..] == Padded(s[0]) && t[..|t| - 9] == head;
      PaddedSpells(s[0]);
    }
  }
}
