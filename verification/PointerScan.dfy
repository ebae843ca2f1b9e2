// Reading back what the formatter writes: the pointer scanner of
// duk_minimal_printf.c, and the meaning of number texts.
module PointerScan {
  import opened Octets
  import opened Numerals
  import opened MinimalPrintf
  import opened Vsnprintf

  datatype Scan = Scanned(v: nat) | NoPointer

  // "0x" and exactly 16 lowercase hexadecimal digits; anything may follow.
  function ScanPointer(s: seq<Byte>): Scan {
    if |s| >= 2 + POINTER_DIGITS && s[0] == ZERO && s[1] == LOWER_X && AllDigits(s[2..2 + POINTER_DIGITS], 16)
    then Scanned(Value(s[2..2 + POINTER_DIGITS], 16))
    else NoPointer
  }

  // duk__parse_pointer, on a string with its NUL; val is 64 bits wide.
  method ParsePointer(s: seq<Byte>) returns (r: Scan)
    requires 0 !in s
    ensures r == ScanPointer(s)
  {
    var str := s + [0];
    if str[0] != ZERO || str[1] != LOWER_X { return NoPointer; }
    var val := 0;
    for count := 0 to POINTER_DIGITS
      invariant 2 + count <= |s| && AllDigits(s[2..2 + count], 16)
      invariant val == Value(s[2..2 + count], 16)
    {
      var ch := str[2 + count];
      NoOverflow(s[2..2 + count]);
      if !IsDigit(ch) {
        NotAllDigits(s, count);
        return NoPointer;
      }
      OneMoreDigit(s[2..2 + count], ch, s[2..2 + count + 1]);
      val := val * 16 % U64;
      val := val + DigitValue(ch);
    }
    r := Scanned(val);
  }

  lemma OneMoreDigit(digits: seq<Byte>, ch: Byte, more: seq<Byte>)
    requires AllDigits(digits, 16) && IsDigit(ch) && more == digits + [ch]
    ensures AllDigits(more, 16) && Value(more, 16) == Value(digits, 16) * 16 + DigitValue(ch)
  {
    ValuePush(digits, DigitValue(ch), 16);
  }

  lemma NotAllDigits(s: seq<Byte>, count: nat)
    requires count < POINTER_DIGITS && 2 + count <= |s| && (2 + count < |s| ==> !IsDigit(s[2 + count]))
    ensures ScanPointer(s) == NoPointer
  {
    assert |s| >= 2 + POINTER_DIGITS ==> s[2..2 + POINTER_DIGITS][count] == s[2 + count];
  }

  // duk_minimal_sscanf: whatever the format says, a pointer is read.
  method Sscanf(s: seq<Byte>, format: seq<Byte>) returns (r: Scan)
    requires 0 !in s && 0 !in format
    ensures r == ScanPointer(s)
  {
    r := ParsePointer(s);
  }

  lemma NoOverflow(s: seq<Byte>)
    requires AllDigits(s, 16) && |s| < 16
    ensures Value(s, 16) * 16 < U64
  {
    ValueBelow(s, 16);
    LimitMonotone(|s|, 15);
    assert Limit(16, 7) == 0x1000_0000;
    assert Limit(16, 15) == 0x1000_0000_0000_0000;
  }

  lemma {:induction false} LimitMonotone(m: nat, n: nat)
    requires m <= n
    ensures Limit(16, m) <= Limit(16, n)
  {
    if m < n { LimitMonotone(m, n - 1); }
  }

  lemma PointerTextIs(v: nat)
    requires v < U64
    ensures PointerText(v) == [ZERO, LOWER_X] + Padded(v, POINTER_DIGITS)
    ensures |PointerText(v)| == 2 + POINTER_DIGITS
  {
    DigitsFit(v, 16);
    PaddedValue(v, POINTER_DIGITS);
    assert [] + Repeat(ZERO, POINTER_DIGITS - |Digits(v, 16)|) == Repeat(ZERO, POINTER_DIGITS - |Digits(v, 16)|);
  }

  lemma PrintedIsScanned(s: seq<Byte>, v: nat)
    requires v < U64 && PointerText(v) <= s
    ensures ScanPointer(s) == Scanned(v)
  {
    PointerTextIs(v);
    PaddedValue(v, POINTER_DIGITS);
    assert s[2..2 + POINTER_DIGITS] == Padded(v, POINTER_DIGITS);
  }

  lemma ScannedIsPrinted(s: seq<Byte>, digits: seq<Byte>)
    requires |s| >= 2 + POINTER_DIGITS && s[0] == ZERO && s[1] == LOWER_X
    requires digits == s[2..2 + POINTER_DIGITS] && AllDigits(digits, 16)
    ensures Value(digits, 16) < U64 && PointerText(Value(digits, 16)) <= s
  {
    ValueBelow(digits, 16);
    Limit64();
    PaddedOfValue(digits);
    PointerTextIs(Value(digits, 16));
    assert s[..2 + POINTER_DIGITS] == [ZERO, LOWER_X] + digits;
  }

  lemma Limit64()
    ensures Limit(16, POINTER_DIGITS) == U64
  {
    assert Limit(16, 8) == 0x1_0000_0000;
  }

  // The scanner accepts exactly the texts that begin with a printed pointer, and
  // returns that pointer.
  lemma ScanIsInverseOfPrint(s: seq<Byte>, v: nat)
    ensures ScanPointer(s) == Scanned(v) <==> v < U64 && PointerText(v) <= s
  {
    if ScanPointer(s) == Scanned(v) { ScannedIsPrinted(s, s[2..2 + POINTER_DIGITS]); }
    if v < U64 && PointerText(v) <= s { PrintedIsScanned(s, v); }
  }

  lemma {:induction false} CutAtNul(s: seq<Byte>, n: nat)
    requires n < |s| && s[n] == 0 && 0 !in s[..n]
    ensures Cut(s) == s[..n]
  {
    if n > 0 {
      assert s[0] == s[..n][0];
      assert s[..n][1..] == s[1..][..n - 1];
      CutAtNul(s[1..], n - 1);
    }
  }

  // Printing any pointer with '%p' into a large enough buffer, and scanning the
  // buffer as a C string, returns the pointer.
  lemma PrintThenScan(str: seq<Byte>, size: nat, v: nat)
    requires v < U64 && 2 + POINTER_DIGITS < size <= |str|
    ensures ArgsOk([PERCENT, LOWER_P], [Pointer(v)])
    ensures ScanPointer(Cut(Terminated(str, size, Render([PERCENT, LOWER_P], [Pointer(v)])))) == Scanned(v)
  {
    var text := PointerText(v);
    RenderPointer(v);
    PointerTextIs(v);
    PaddedValue(v, POINTER_DIGITS);
    assert 0 !in text;
    var b := Terminated(str, size, text);
    assert b[..|text|] == text;
    CutAtNul(b, |text|);
    ScanIsInverseOfPrint(text, v);
  }

  lemma RenderPointer(v: nat)
    requires v < U64
    ensures ArgsOk([PERCENT, LOWER_P], [Pointer(v)])
    ensures Render([PERCENT, LOWER_P], [Pointer(v)]) == PointerText(v)
  {
    var f, g := [PERCENT, LOWER_P], [LOWER_P];
    assert f[1..] == g;
    FlagRunAt(g, 0);
    assert g[FlagRun(g) + 1..] == [];
    assert PointerText(v) + [] == PointerText(v);
  }

  // ------------------------------------------------ number texts read back

  datatype Number = Number(neg: bool, v: nat) | NotANumber

  // Skip spaces, take a sign, and read digits to the end.
  function ReadNumber(s: seq<Byte>, radix: Radix): Number {
    if s != [] && s[0] == SPACE then ReadNumber(s[1..], radix)
    else
      var neg := s != [] && s[0] == MINUS;
      var digits := if neg then s[1..] else s;
      if digits != [] && AllDigits(digits, radix) then Number(neg, Value(digits, radix)) else NotANumber
  }

  lemma {:induction false} SkipSpaces(n: int, s: seq<Byte>, radix: Radix)
    ensures ReadNumber(Repeat(SPACE, n) + s, radix) == ReadNumber(s, radix)
    decreases n
  {
    if n <= 0 {
      assert Repeat(SPACE, n) + s == s;
    } else {
      assert (Repeat(SPACE, n) + s)[1..] == Repeat(SPACE, n - 1) + s;
      SkipSpaces(n - 1, s, radix);
    }
  }

  function Sign(neg: bool): seq<Byte> {
    if neg then [MINUS] else []
  }

  lemma ReadSigned(neg: bool, digits: seq<Byte>, radix: Radix, s: seq<Byte>)
    requires digits != [] && AllDigits(digits, radix) && s == Sign(neg) + digits
    ensures ReadNumber(s, radix) == Number(neg, Value(digits, radix))
  {
    assert IsDigit(digits[0]);
    if neg { assert s[1..] == digits; } else { assert s == digits; }
  }

  lemma ReadZeroPadded(fill: int, neg: bool, digits: seq<Byte>, radix: Radix, s: seq<Byte>)
    requires digits != [] && AllDigits(digits, radix) && s == Sign(neg) + (Repeat(ZERO, fill) + digits)
    ensures ReadNumber(s, radix) == Number(neg, Value(digits, radix))
  {
    LeadingZeros(fill, digits, radix);
    ReadSigned(neg, Repeat(ZERO, fill) + digits, radix, s);
  }

  lemma ReadSpacePadded(fill: int, neg: bool, digits: seq<Byte>, radix: Radix, s: seq<Byte>)
    requires digits != [] && AllDigits(digits, radix) && s == Repeat(SPACE, fill) + (Sign(neg) + digits)
    ensures ReadNumber(s, radix) == Number(neg, Value(digits, radix))
  {
    ReadSigned(neg, digits, radix, Sign(neg) + digits);
    SkipSpaces(fill, Sign(neg) + digits, radix);
  }

  // Whatever the padding, a number text reads back as the number ...
  lemma NumberTextReadsBack(fixed: nat, pad: Byte, radix: Radix, neg: bool, v: nat, s: seq<Byte>)
    requires (pad == SPACE || pad == ZERO) && s == NumberText(fixed, pad, radix, neg, v)
    ensures ReadNumber(s, radix) == Number(neg, v)
  {
    var digits := Digits(v, radix);
    var fill := fixed - |Sign(neg)| - |digits|;
    DigitsValue(v, radix);
    if pad == ZERO {
      assert s == Sign(neg) + (Repeat(ZERO, fill) + digits);
      ReadZeroPadded(fill, neg, digits, radix, s);
    } else {
      assert s == Repeat(SPACE, fill) + (Sign(neg) + digits);
      ReadSpacePadded(fill, neg, digits, radix, s);
    }
  }

  // ... and is as long as the fixed length, or as it must be.
  lemma NumberTextLength(fixed: nat, pad: Byte, radix: Radix, neg: bool, v: nat)
    ensures |NumberText(fixed, pad, radix, neg, v)| == TextLength(fixed, |Digits(v, radix)|, neg)
  {
  }

  // Digit texts have no superfluous leading zero.
  lemma {:induction false} NoLeadingZero(v: nat, radix: Radix)
    ensures Digits(v, radix)[0] == ZERO <==> v == 0
    decreases v
  {
    if v >= radix { NoLeadingZero(Quotient(v, radix), radix); }
  }

  // ------------------------------------------------ what a rendering means

  // Every numeric conversion reads back as its argument, in its own radix.
  lemma ConversionReadsBack(isLong: bool, pad: Byte, fixed: nat, c: Byte, arg: Arg)
    requires Known(c) && ArgOk(isLong, c, arg) && (pad == SPACE || pad == ZERO)
    ensures var s := Conversion(isLong, pad, fixed, c, arg);
      && (c == LOWER_D ==> ReadNumber(s, 10) == Number(arg.i < 0, if arg.i < 0 then -arg.i else arg.i))
      && (c == LOWER_U ==> ReadNumber(s, 10) == Number(false, arg.u))
      && (c == LOWER_X ==> ReadNumber(s, 16) == Number(false, arg.u))
      && (c == LOWER_P ==> ScanPointer(s) == Scanned(arg.p))
  {
    var s := Conversion(isLong, pad, fixed, c, arg);
    if c == LOWER_D {
      NumberTextReadsBack(fixed, pad, 10, arg.i < 0, if arg.i < 0 then -arg.i else arg.i, s);
    } else if c == LOWER_U {
      NumberTextReadsBack(fixed, pad, 10, false, arg.u, s);
    } else if c == LOWER_X {
      NumberTextReadsBack(fixed, pad, 16, false, arg.u, s);
    } else if c == LOWER_P {
      PrintedIsScanned(s, arg.p);
    }
  }

  // Text without conversions is rendered as it is, in front of any format.
  lemma {:induction false} PlainTextRenders(t: seq<Byte>, f: seq<Byte>, args: seq<Arg>)
    requires PERCENT !in t && ArgsOk(f, args)
    ensures ArgsOk(t + f, args) && Render(t + f, args) == t + Render(f, args)
    decreases |t|
  {
    if t == [] {
      assert t + f == f;
    } else {
      assert (t + f)[1..] == t[1..] + f;
      PlainTextRenders(t[1..], f, args);
    }
  }

  // A conversion with any flags renders to its text, then the rest follows.
  lemma ConversionRenders(flags: seq<Byte>, c: Byte, f: seq<Byte>, arg: Arg, args: seq<Arg>)
    requires (forall k :: 0 <= k < |flags| ==> IsFlag(flags[k])) && Known(c)
    requires ArgOk(LOWER_L in flags, c, arg) && ArgsOk(f, args)
    ensures var g := [PERCENT] + flags + [c] + f;
      && ArgsOk(g, [arg] + args)
      && Render(g, [arg] + args)
         == Conversion(LOWER_L in flags, PadOf(flags), FixedLength(flags), c, arg) + Render(f, args)
  {
    var g := [PERCENT] + flags + [c] + f;
    var h := g[1..];
    assert h == flags + [c] + f;
    FlagRunAt(h, |flags|);
    assert FlagsOf(h) == flags && h[|flags| + 1..] == f;
    assert ([arg] + args)[1..] == args;
  }

  // Read as a C string, a terminated buffer holds the longest prefix of the text
  // that leaves room for the NUL.
  lemma TruncationIsPrefix(str: seq<Byte>, size: nat, text: seq<Byte>)
    requires 0 < size <= |str| && 0 !in text
    ensures Cut(Terminated(str, size, text)) == if |text| < size then text else text[..size - 1]
  {
    var n := if |text| < size - 1 then |text| else size - 1;
    var b := Terminated(str, size, text);
    assert b[..n] == text[..n];
    CutAtNul(b, n);
    assert |text| < size ==> text[..n] == text;
  }
}
