// duk_minimal_printf.c: bounded writes into a buffer, and one formatted number.
module MinimalPrintf {
  import opened Octets
  import opened Numerals

  const PERCENT: Byte := 37
  const LOWER_C: Byte := 99
  const LOWER_D: Byte := 100
  const LOWER_L: Byte := 108
  const LOWER_P: Byte := 112
  const LOWER_S: Byte := 115
  const LOWER_U: Byte := 117
  const LOWER_X: Byte := 120

  // sizeof(void *) * 2
  const POINTER_DIGITS: nat := 16

  // Size of the scratch buffer of duk__format_long.
  const SCRATCH: nat := 24

  // ------------------------------------------------------ one number

  // Zeros go between the sign and the digits, spaces before the sign.
  function NumberText(fixed: nat, pad: Byte, radix: Radix, neg: bool, v: nat): seq<Byte> {
    var digits := Digits(v, radix);
    var sign := if neg then [MINUS] else [];
    var fill := fixed - |sign| - |digits|;
    if pad == ZERO then sign + Repeat(ZERO, fill) + digits else Repeat(pad, fill) + sign + digits
  }

  // Digits in the order the formatter produces them.
  function DigitsReversed(v: nat, radix: Radix): (s: seq<Byte>)
    ensures |s| > 0
  {
    [DigitChar(Remainder(v, radix))] + if Quotient(v, radix) == 0 then [] else DigitsReversed(Quotient(v, radix), radix)
  }

  function Reverse(s: seq<Byte>): (r: seq<Byte>)
    ensures |r| == |s|
  {
    if s == [] then [] else Reverse(s[1..]) + [s[0]]
  }

  lemma {:induction false} ReverseConcat(a: seq<Byte>, b: seq<Byte>)
    ensures Reverse(a + b) == Reverse(b) + Reverse(a)
  {
    if a == [] {
      assert a + b == b;
    } else {
      assert (a + b)[1..] == a[1..] + b;
      ReverseConcat(a[1..], b);
    }
  }

  lemma {:induction false} ReverseRepeat(c: Byte, n: int)
    ensures Reverse(Repeat(c, n)) == Repeat(c, n)
    decreases n
  {
    if n > 0 {
      ReverseRepeat(c, n - 1);
      RepeatCommutes(c, n - 1);
      assert Repeat(c, n)[1..] == Repeat(c, n - 1);
    }
  }

  lemma {:induction false} RepeatCommutes(c: Byte, n: int)
    ensures Repeat(c, n) + [c] == [c] + Repeat(c, n)
    decreases n
  {
    if n > 0 { RepeatCommutes(c, n - 1); }
  }

  lemma {:induction false} ReverseOfReversed(v: nat, radix: Radix)
    ensures Reverse(DigitsReversed(v, radix)) == Digits(v, radix)
  {
    if Quotient(v, radix) != 0 {
      ReverseOfReversed(Quotient(v, radix), radix);
      assert DigitsReversed(v, radix)[1..] == DigitsReversed(Quotient(v, radix), radix);
    } else {
      assert v < radix;
      assert DigitsReversed(v, radix)[1..] == [];
    }
  }

  // ------------------------------------------------------ bounded writes

  // 't' written from offset off on, as far as it stays below 'size'.
  function Blit(str: seq<Byte>, size: nat, off: nat, t: seq<Byte>): (r: seq<Byte>)
    ensures |r| == |str|
    decreases |t|
  {
    if t == [] then str
    else Blit(if off < size && off < |str| then str[off := t[0]] else str, size, off + 1, t[1..])
  }

  lemma {:induction false} BlitAt(str: seq<Byte>, size: nat, off: nat, t: seq<Byte>)
    ensures forall k :: 0 <= k < |str| ==>
      Blit(str, size, off, t)[k] == if off <= k < off + |t| && k < size then t[k - off] else str[k]
    decreases |t|
  {
    if t != [] {
      BlitAt(if off < size && off < |str| then str[off := t[0]] else str, size, off + 1, t[1..]);
    }
  }

  lemma {:induction false} BlitConcat(str: seq<Byte>, size: nat, off: nat, s: seq<Byte>, t: seq<Byte>)
    ensures Blit(Blit(str, size, off, s), size, off + |s|, t) == Blit(str, size, off, s + t)
    decreases |s|
  {
    if s == [] {
      assert s + t == t;
    } else {
      assert (s + t)[1..] == s[1..] + t;
      BlitConcat(if off < size && off < |str| then str[off := s[0]] else str, size, off + 1, s[1..], t);
    }
  }

  // The buffer has room for what is written up to 'end', as far as it stays
  // below 'size'. The size may exceed the buffer: sprintf sets no bound.
  predicate Room(len: nat, size: nat, end: nat) {
    size <= len || end <= len
  }

  // DUK__WRITE_CHAR: the offset advances whether or not there is room.
  method WriteChar(str: array<Byte>, size: nat, off: nat, c: Byte) returns (end: nat)
    requires Room(str.Length, size, off + 1)
    modifies str
    ensures end == off + 1 && str[..] == Blit(old(str[..]), size, off, [c])
  {
    if off < size { str[off] := c; }
    end := off + 1;
  }

  // duk__format_long
  method FormatLong(str: array<Byte>, size: nat, off: nat, fixed: nat, pad: Byte, radix: Radix, neg: bool, v: nat)
    returns (end: nat)
    requires v < U64 && fixed <= 16 && (pad == SPACE || pad == ZERO)
    requires Room(str.Length, size, off + |NumberText(fixed, pad, radix, neg, v)|)
    modifies str
    ensures end == off + |NumberText(fixed, pad, radix, neg, v)|
    ensures str[..] == Blit(old(str[..]), size, off, NumberText(fixed, pad, radix, neg, v))
  {
    var buf := new Byte[SCRATCH](_ => pad);
    ghost var digits := DigitsReversed(v, radix);
    ReversedFits(v, radix);
    var p := DigitsBackwards(buf, pad, radix, v, digits);
    p := SignAndPad(buf, p, fixed, pad, neg, digits);
    NumberBackwards(fixed, pad, radix, neg, v, Repeat(pad, p - (if neg then 1 else 0) - |digits|));
    end := EmitReversed(str, size, off, buf, p, NumberText(fixed, pad, radix, neg, v));
  }

  lemma ReversedFits(v: nat, radix: Radix)
    requires v < U64
    ensures |DigitsReversed(v, radix)| == |Digits(v, radix)| <= 20
  {
    ReverseOfReversed(v, radix);
    DigitsFit(v, radix);
  }

  // The first p bytes are 'done', the others still 'pad'.
  ghost predicate Scratch(buf: seq<Byte>, done: seq<Byte>, pad: Byte) {
    && |done| <= |buf| == SCRATCH
    && (forall k :: 0 <= k < |done| ==> buf[k] == done[k])
    && (forall k :: |done| <= k < SCRATCH ==> buf[k] == pad)
  }

  // One step of the digit loop.
  lemma DigitStep(done: seq<Byte>, v: nat, radix: Radix, all: seq<Byte>)
    requires all == done + DigitsReversed(v, radix)
    ensures |done| < |all| && DigitChar(Remainder(v, radix)) == all[|done|] && all[..|done| + 1] == done + [all[|done|]]
    ensures Quotient(v, radix) == 0 ==> |all| == |done| + 1
    ensures Quotient(v, radix) != 0 ==> all == all[..|done| + 1] + DigitsReversed(Quotient(v, radix), radix)
  {
    assert all[..|done| + 1] == done + [all[|done|]];
  }

  method DigitsBackwards(buf: array<Byte>, pad: Byte, radix: Radix, v0: nat, ghost all: seq<Byte>) returns (p: nat)
    requires Scratch(buf[..], [], pad) && all == DigitsReversed(v0, radix) && |all| <= 20
    modifies buf
    ensures p == |all| && Scratch(buf[..], all, pad)
  {
    var v := v0;
    p := 0;
    assert all == all[..0] + DigitsReversed(v, radix);
    while true
      invariant p < |all| && Scratch(buf[..], all[..p], pad)
      invariant all == all[..p] + DigitsReversed(v, radix)
      decreases v
    {
      DigitStep(all[..p], v, radix, all);
      buf[p] := DigitChar(Remainder(v, radix));
      p := p + 1;
      v := Quotient(v, radix);
      if v == 0 { break; }
    }
    assert all[..p] == all;
  }

  // Length of the text: at least the fixed length.
  function TextLength(fixed: nat, digits: nat, neg: bool): nat {
    var n := digits + if neg then 1 else 0;
    if n < fixed then fixed else n
  }

  // Place the sign and the padding, still backwards.
  method SignAndPad(buf: array<Byte>, n: nat, fixed: nat, pad: Byte, neg: bool, ghost digits: seq<Byte>)
    returns (p: nat)
    requires n == |digits| <= 20 && fixed <= 16 && Scratch(buf[..], digits, pad)
    modifies buf
    ensures p == TextLength(fixed, n, neg) <= buf.Length == SCRATCH
    ensures
      var sign := if neg then [MINUS] else [];
      var fill := Repeat(pad, p - |sign| - n);
      buf[..p] == if pad == ZERO then digits + fill + sign else digits + sign + fill
  {
    p := n;
    if p < fixed && pad == ZERO { p := fixed - 1; }
    ghost var at := p;
    if neg {
      buf[p] := MINUS;
      p := p + 1;
    }
    if p < fixed { p := fixed; }
    ghost var sign := if neg then [MINUS] else [];
    ghost var fill := Repeat(pad, p - |sign| - n);
    RepeatAt(pad, p - |sign| - n);
    if pad == ZERO && neg {
      assert buf[..p] == digits + fill + sign;
    } else if pad == ZERO {
      assert digits + fill + sign == digits + fill;
      assert buf[..p] == digits + fill;
    } else {
      assert buf[..p] == digits + sign + fill;
    }
  }

  lemma {:induction false} RepeatAt(c: Byte, n: int)
    ensures forall k :: 0 <= k < n ==> Repeat(c, n)[k] == c
    decreases n
  {
    if n > 0 { RepeatAt(c, n - 1); }
  }

  // Read backwards, the scratch buffer holds the number text.
  lemma NumberBackwards(fixed: nat, pad: Byte, radix: Radix, neg: bool, v: nat, fill: seq<Byte>)
    requires fill
      == Repeat(pad, TextLength(fixed, |Digits(v, radix)|, neg) - (if neg then 1 else 0) - |Digits(v, radix)|)
    ensures
      var digits, sign := DigitsReversed(v, radix), if neg then [MINUS] else [];
      Reverse(if pad == ZERO then digits + fill + sign else digits + sign + fill)
        == NumberText(fixed, pad, radix, neg, v)
  {
    var digits, sign := DigitsReversed(v, radix), if neg then [MINUS] else [];
    ReverseOfReversed(v, radix);
    ReverseRepeat(pad, |fill|);
    assert fill == Repeat(pad, fixed - |sign| - |Digits(v, radix)|);
    assert Reverse(sign) == sign;
    if pad == ZERO {
      ReverseParts(digits, fill, sign);
    } else {
      ReverseParts(digits, sign, fill);
    }
  }

  lemma ReverseParts(a: seq<Byte>, b: seq<Byte>, c: seq<Byte>)
    ensures Reverse(a + b + c) == Reverse(c) + Reverse(b) + Reverse(a)
  {
    ReverseConcat(a + b, c);
    ReverseConcat(a, b);
  }

  lemma {:induction false} ReverseAt(s: seq<Byte>, k: nat)
    requires k < |s|
    ensures Reverse(s)[k] == s[|s| - 1 - k]
  {
    if k < |s| - 1 { ReverseAt(s[1..], k); }
  }

  method EmitReversed(str: array<Byte>, size: nat, off: nat, buf: array<Byte>, n: nat, ghost text: seq<Byte>)
    returns (end: nat)
    requires n <= buf.Length && buf != str && text == Reverse(buf[..n])
    requires Room(str.Length, size, off + |text|)
    modifies str
    ensures end == off + |text| && str[..] == Blit(old(str[..]), size, off, text)
  {
    ghost var orig := str[..];
    end := off;
    var p: nat := n;
    while p > 0
      invariant p <= n && end == off + (n - p)
      invariant str[..] == Blit(orig, size, off, text[..n - p])
      invariant buf[..] == old(buf[..])
    {
      p := p - 1;
      ReverseAt(buf[..n], n - 1 - p);
      BlitConcat(orig, size, off, text[..n - 1 - p], [buf[p]]);
      assert text[..n - p] == text[..n - 1 - p] + [buf[p]];
      end := WriteChar(str, size, end, buf[p]);
    }
    assert text[..n] == text;
  }
}
