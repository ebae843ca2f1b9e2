// Number texts as duk_minimal_printf.c writes and reads them.
module Numerals {
  import opened Octets

  const SPACE: Byte := 32
  const MINUS: Byte := 45
  const ZERO: Byte := 48
  const LOWER_A: Byte := 97

  const U64: nat := 0x1_0000_0000_0000_0000

  // duk__format_digits
  function DigitChar(d: nat): Byte
    requires d < 16
  {
    if d < 10 then ZERO + d else LOWER_A + d - 10
  }

  predicate IsDigit(c: Byte) {
    ZERO <= c <= ZERO + 9 || LOWER_A <= c <= LOWER_A + 5
  }

  function DigitValue(c: Byte): (d: nat)
    requires IsDigit(c)
    ensures d < 16 && DigitChar(d) == c
  {
    if c <= ZERO + 9 then c - ZERO else c - LOWER_A + 10
  }

  // The radices the formatter is called with.
  type Radix = r: nat | r == 10 || r == 16 witness 10

  function Quotient(v: nat, radix: Radix): (q: nat)
    ensures q < v || v == 0
  {
    if radix == 10 then v / 10 else v / 16
  }

  function Remainder(v: nat, radix: Radix): (r: nat)
    ensures r < radix
  {
    if radix == 10 then v % 10 else v % 16
  }

  // v with its digits moved one place to the left.
  function Shift(v: nat, radix: Radix): nat {
    if radix == 10 then v * 10 else v * 16
  }

  lemma QuotientRemainder(v: nat, radix: Radix)
    ensures Quotient(v, radix) == v / radix && Remainder(v, radix) == v % radix
    ensures v == Shift(Quotient(v, radix), radix) + Remainder(v, radix)
  {
  }

  function Repeat(c: Byte, n: int): (s: seq<Byte>)
    ensures |s| == if n > 0 then n else 0
  {
    if n <= 0 then [] else [c] + Repeat(c, n - 1)
  }

  // Digits of v, most significant first; 0 has one digit.
  function Digits(v: nat, radix: Radix): (s: seq<Byte>)
    ensures |s| > 0
  {
    if v < radix then [DigitChar(v)] else Digits(Quotient(v, radix), radix) + [DigitChar(Remainder(v, radix))]
  }

  predicate AllDigits(s: seq<Byte>, radix: Radix) {
    forall k :: 0 <= k < |s| ==> IsDigit(s[k]) && DigitValue(s[k]) < radix
  }

  // The number a digit string stands for.
  function Value(s: seq<Byte>, radix: Radix): nat
    requires AllDigits(s, radix)
  {
    if s == [] then 0 else Shift(Value(s[..|s| - 1], radix), radix) + DigitValue(s[|s| - 1])
  }

  lemma ValuePush(s: seq<Byte>, d: nat, radix: Radix)
    requires AllDigits(s, radix) && d < radix
    ensures AllDigits(s + [DigitChar(d)], radix)
    ensures Value(s + [DigitChar(d)], radix) == Shift(Value(s, radix), radix) + d
  {
    assert (s + [DigitChar(d)])[..|s|] == s;
  }

  lemma {:induction false} DigitsValue(v: nat, radix: Radix)
    ensures AllDigits(Digits(v, radix), radix) && Value(Digits(v, radix), radix) == v
    decreases v
  {
    if v < radix {
      ValuePush([], v, radix);
      assert [] + [DigitChar(v)] == [DigitChar(v)];
    } else {
      var q, d := Quotient(v, radix), Remainder(v, radix);
      DigitsValue(q, radix);
      ValuePush(Digits(q, radix), d, radix);
      QuotientRemainder(v, radix);
      assert Digits(v, radix) == Digits(q, radix) + [DigitChar(d)];
    }
  }

  // Numbers below Limit(n) have at most n digits.
  function Limit(radix: Radix, n: nat): (r: nat)
    ensures r > 0
  {
    if n == 0 then 1 else Shift(Limit(radix, n - 1), radix)
  }

  lemma {:induction false} DigitsLength(v: nat, radix: Radix, n: nat)
    requires n > 0 && v < Limit(radix, n)
    ensures |Digits(v, radix)| <= n
  {
    if v >= radix {
      assert n > 1 by { assert Limit(radix, 1) == Shift(Limit(radix, 0), radix); }
      DigitsLength(Quotient(v, radix), radix, n - 1);
    }
  }

  // A 64-bit value has at most 20 digits, and in radix 16 at most 16.
  lemma DigitsFit(v: nat, radix: Radix)
    requires v < U64
    ensures |Digits(v, radix)| <= if radix == 16 then 16 else 20
  {
    if radix == 16 {
      assert Limit(16, 8) == 0x1_0000_0000;
      assert Limit(16, 16) == U64;
      DigitsLength(v, 16, 16);
    } else {
      assert Limit(10, 10) == 10000000000;
      assert Limit(10, 20) > U64;
      DigitsLength(v, 10, 20);
    }
  }

  // ------------------------------------------- fixed-length hexadecimal

  // v in exactly n digits, zero padded.
  function Padded(v: nat, n: nat): seq<Byte> {
    Repeat(ZERO, n - |Digits(v, 16)|) + Digits(v, 16)
  }

  lemma {:induction false} LeadingZeros(n: int, s: seq<Byte>, radix: Radix)
    requires AllDigits(s, radix)
    ensures AllDigits(Repeat(ZERO, n) + s, radix) && Value(Repeat(ZERO, n) + s, radix) == Value(s, radix)
    decreases n, |s|
  {
    if n <= 0 {
      assert Repeat(ZERO, n) + s == s;
    } else {
      LeadingZeros(n - 1, s, radix);
      var t := Repeat(ZERO, n - 1) + s;
      assert Repeat(ZERO, n) + s == [ZERO] + t;
      OneLeadingZero(t, radix);
    }
  }

  lemma {:induction false} OneLeadingZero(s: seq<Byte>, radix: Radix)
    requires AllDigits(s, radix)
    ensures AllDigits([ZERO] + s, radix) && Value([ZERO] + s, radix) == Value(s, radix)
    decreases |s|
  {
    var t := [ZERO] + s;
    if s == [] {
      ValuePush([], 0, radix);
      assert [] + [DigitChar(0)] == t;
    } else {
      OneLeadingZero(s[..|s| - 1], radix);
      assert t[..|t| - 1] == [ZERO] + s[..|s| - 1];
    }
  }

  // Printing in n digits and reading back gives the value.
  lemma PaddedValue(v: nat, n: nat)
    ensures AllDigits(Padded(v, n), 16) && Value(Padded(v, n), 16) == v
    ensures |Digits(v, 16)| <= n ==> |Padded(v, n)| == n
  {
    DigitsValue(v, 16);
    LeadingZeros(n - |Digits(v, 16)|, Digits(v, 16), 16);
  }

  lemma {:induction false} ValueBelow(s: seq<Byte>, radix: Radix)
    requires AllDigits(s, radix)
    ensures Value(s, radix) < Limit(radix, |s|)
    decreases |s|
  {
    if s != [] { ValueBelow(s[..|s| - 1], radix); }
  }

  // Two digit strings of one length with one value are equal.
  lemma {:induction false} ValueInjective(s: seq<Byte>, t: seq<Byte>, radix: Radix)
    requires AllDigits(s, radix) && AllDigits(t, radix)
    requires |s| == |t| && Value(s, radix) == Value(t, radix)
    ensures s == t
    decreases |s|
  {
    if s != [] {
      var n := |s| - 1;
      assert Value(s[..n], radix) == Value(t[..n], radix) && DigitValue(s[n]) == DigitValue(t[n]);
      ValueInjective(s[..n], t[..n], radix);
      assert s == s[..n] + [s[n]] && t == t[..n] + [t[n]];
    }
  }

  // Reading n hexadecimal digits and printing the value in n digits gives them back.
  lemma PaddedOfValue(s: seq<Byte>)
    requires |s| > 0 && AllDigits(s, 16)
    ensures Padded(Value(s, 16), |s|) == s
  {
    var v := Value(s, 16);
    ValueBelow(s, 16);
    DigitsLength(v, 16, |s|);
    PaddedValue(v, |s|);
    ValueInjective(Padded(v, |s|), s, 16);
  }
}
