// What a format says, character by character: flags, lengths, padding, texts,
// and where a rendering ends.
module FormatLaws {
  import opened Widths
  import opened Octets
  import opened Numerals
  import opened MinimalPrintf
  import opened Vsnprintf
  import opened PointerScan

  // The characters '0' to '9' and 'l'.
  predicate FlagChars(flags: seq<Byte>) {
    forall k :: 0 <= k < |flags| ==> 48 <= flags[k] <= 57 || flags[k] == 108
  }

  // The last of the digits '1' to '9' among the flags is n; there is none if n
  // is 0.
  ghost predicate LengthFlag(flags: seq<Byte>, n: nat) {
    if n == 0 then forall k :: 0 <= k < |flags| ==> !(49 <= flags[k] <= 57)
    else n <= 9 && exists j :: LastLengthAt(flags, n, j)
  }

  ghost predicate LastLengthAt(flags: seq<Byte>, n: nat, j: nat) {
    j < |flags| && flags[j] == 48 + n && forall k :: j < k < |flags| ==> !(49 <= flags[k] <= 57)
  }

  lemma {:induction false} FixedLengthIs(flags: seq<Byte>, n: nat)
    requires LengthFlag(flags, n)
    ensures FixedLength(flags) == n
  {
    if flags != [] {
      var m := |flags| - 1;
      var before := flags[..m];
      if !(49 <= flags[m] <= 57) {
        if n > 0 {
          var j :| LastLengthAt(flags, n, j);
          assert LastLengthAt(before, n, j);
        }
        FixedLengthIs(before, n);
      } else if n > 0 {
        var j :| LastLengthAt(flags, n, j);
        assert j == m;
      }
    }
  }

  // ------------------------------------------------------------- one number

  function MinusSign(neg: bool): seq<Byte> {
    if neg then [45] else []
  }

  // As long as the length asks, or as sign and digits need: with zeros between
  // them, or with spaces in front.
  function NumberOf(zeros: bool, length: nat, neg: bool, digits: seq<Byte>): seq<Byte> {
    var fill := length - |MinusSign(neg)| - |digits|;
    if zeros then MinusSign(neg) + (Repeat(48, fill) + digits) else Repeat(32, fill) + (MinusSign(neg) + digits)
  }

  lemma NumberTextIs(zeros: bool, length: nat, radix: Radix, neg: bool, v: nat)
    ensures NumberText(length, if zeros then 48 else 32, radix, neg, v)
      == NumberOf(zeros, length, neg, Digits(v, radix))
  {
    var digits, sign := Digits(v, radix), MinusSign(neg);
    var fill := length - |sign| - |digits|;
    assert sign + Repeat(48, fill) + digits == sign + (Repeat(48, fill) + digits);
    assert Repeat(32, fill) + sign + digits == Repeat(32, fill) + (sign + digits);
  }

  function WithSign(neg: bool, v: nat): int {
    var i: int := v;
    if neg then -i else i
  }

  // 'd': decimal, an int or with 'l' a long, and padded as the flags say.
  lemma SignedRenders(flags: seq<Byte>, n: nat, neg: bool, v: nat, f: seq<Byte>, args: seq<Arg>)
    requires FlagChars(flags) && LengthFlag(flags, n) && ArgsOk(f, args) && (neg ==> v > 0)
    requires v < 0x8000_0000 || (neg && v == 0x8000_0000) || (108 in flags && v < 0x8000_0000_0000_0000)
    ensures var g, arg := [37] + flags + [100] + f, Signed(WithSign(neg, v));
      && ArgsOk(g, [arg] + args)
      && Render(g, [arg] + args) == NumberOf(48 in flags, n, neg, Digits(v, 10)) + Render(f, args)
  {
    var arg := Signed(WithSign(neg, v));
    FixedLengthIs(flags, n);
    SignedConverts(108 in flags, 48 in flags, n, neg, v, arg);
    ConversionRenders(flags, 100, f, arg, args);
  }

  lemma SignedConverts(isLong: bool, zeros: bool, n: nat, neg: bool, v: nat, arg: Arg)
    requires arg == Signed(WithSign(neg, v)) && (neg ==> v > 0)
    requires v < 0x8000_0000 || (neg && v == 0x8000_0000) || (isLong && v < 0x8000_0000_0000_0000)
    ensures ArgOk(isLong, 100, arg)
    ensures Conversion(isLong, if zeros then 48 else 32, n, 100, arg) == NumberOf(zeros, n, neg, Digits(v, 10))
  {
    NumberTextIs(zeros, n, 10, neg, v);
  }

  // 'u' and 'x': decimal and hexadecimal.
  lemma UnsignedRenders(flags: seq<Byte>, n: nat, hex: bool, u: nat, f: seq<Byte>, args: seq<Arg>)
    requires FlagChars(flags) && LengthFlag(flags, n) && ArgsOk(f, args)
    requires u < if 108 in flags then 0x1_0000_0000_0000_0000 else 0x1_0000_0000
    ensures var g := [37] + flags + [if hex then 120 else 117] + f;
      && ArgsOk(g, [Unsigned(u)] + args)
      && Render(g, [Unsigned(u)] + args)
        == NumberOf(48 in flags, n, false, Digits(u, if hex then 16 else 10)) + Render(f, args)
  {
    var c: Byte := if hex then 120 else 117;
    FixedLengthIs(flags, n);
    ConversionRenders(flags, c, f, Unsigned(u), args);
    NumberTextIs(48 in flags, n, if hex then 16 else 10, false, u);
  }

  // 'p': whatever the flags, 0x and 16 digits that stand for the pointer.
  lemma PointerRenders(flags: seq<Byte>, v: nat, f: seq<Byte>, args: seq<Arg>) returns (t: seq<Byte>)
    requires FlagChars(flags) && v < 0x1_0000_0000_0000_0000 && ArgsOk(f, args)
    ensures |t| == 18 && t[0] == 48 && t[1] == 120 && AllDigits(t[2..], 16) && Value(t[2..], 16) == v
    ensures var g := [37] + flags + [112] + f;
      ArgsOk(g, [Pointer(v)] + args) && Render(g, [Pointer(v)] + args) == t + Render(f, args)
  {
    t := PointerText(v);
    PointerTextIs(v);
    PaddedValue(v, POINTER_DIGITS);
    assert t[2..] == Padded(v, POINTER_DIGITS);
    ConversionRenders(flags, 112, f, Pointer(v), args);
  }

  // The digits are these characters.
  lemma DigitChars(d: nat)
    requires d < 16
    ensures DigitChar(d) ==
      [48, 49, 50, 51, 52, 53, 54, 55, 56, 57, 97, 98, 99, 100, 101, 102][d]
  {
  }

  // --------------------------------------------------- texts and characters

  // 's': the text itself, whatever the flags.
  lemma TextRenders(flags: seq<Byte>, s: seq<Byte>, f: seq<Byte>, args: seq<Arg>)
    requires FlagChars(flags) && 0 !in s && ArgsOk(f, args)
    ensures var g := [37] + flags + [115] + f;
      ArgsOk(g, [Text(s)] + args) && Render(g, [Text(s)] + args) == s + Render(f, args)
  {
    ConversionRenders(flags, 115, f, Text(s), args);
  }

  // A null text renders to nothing.
  lemma NullTextRenders(flags: seq<Byte>, f: seq<Byte>, args: seq<Arg>)
    requires FlagChars(flags) && ArgsOk(f, args)
    ensures var g := [37] + flags + [115] + f;
      ArgsOk(g, [NullText] + args) && Render(g, [NullText] + args) == Render(f, args)
  {
    ConversionRenders(flags, 115, f, NullText, args);
  }

  // 'c': one byte, the argument as a char.
  lemma CharRenders(flags: seq<Byte>, i: int, f: seq<Byte>, args: seq<Arg>)
    requires FlagChars(flags) && -0x8000_0000 <= i < 0x8000_0000 && ArgsOk(f, args)
    ensures var g := [37] + flags + [99] + f;
      ArgsOk(g, [Signed(i)] + args) && Render(g, [Signed(i)] + args) == [i % 256] + Render(f, args)
  {
    ConversionRenders(flags, 99, f, Signed(i), args);
  }

  // A whole format that is one text.
  lemma TextAlone(s: seq<Byte>)
    requires 0 !in s
    ensures ArgsOk([37, 115], [Text(s)]) && Render([37, 115], [Text(s)]) == s
  {
    TextRenders([], s, [], []);
    assert [37] + [] + [115] + [] == [37, 115] && [Text(s)] + [] == [Text(s)] && s + [] == s;
  }

  // ------------------------------------------------- where a rendering ends

  // The end of the format, a conversion cut off by it, and a letter that is no
  // conversion.
  lemma RenderingEnds(flags: seq<Byte>, c: Byte, f: seq<Byte>, args: seq<Arg>)
    requires FlagChars(flags) && !(48 <= c <= 57) && c != 108
    requires c != 99 && c != 100 && c != 112 && c != 115 && c != 117 && c != 120
    ensures ArgsOk([], args) && Render([], args) == []
    ensures ArgsOk([37] + flags, args) && Render([37] + flags, args) == []
    ensures ArgsOk([37] + flags + [c] + f, args) && Render([37] + flags + [c] + f, args) == []
  {
    var g, h := [37] + flags, [37] + flags + [c] + f;
    assert g[1..] == flags && h[1..] == flags + [c] + f;
    FlagRunAt(flags, |flags|);
    FlagRunAt(flags + [c] + f, |flags|);
  }

  // ------------------------------------------------------------ the buffer

  // Byte by byte: as much of the text as the size leaves room for, a NUL, and
  // the bytes that were there.
  lemma TerminatedAt(str: seq<Byte>, size: nat, text: seq<Byte>, k: nat)
    requires size <= |str| && k < |str|
    ensures var n := if |text| < size then |text| else size - 1;
      Terminated(str, size, text)[k] ==
        if size == 0 || k > n then str[k] else if k < n then text[k] else 0
  {
  }
}
