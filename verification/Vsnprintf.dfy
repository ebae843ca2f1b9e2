// duk_minimal_vsnprintf: interpret a format, and truncate what it renders to.
module Vsnprintf {
  import opened Widths
  import opened Octets
  import opened Numerals
  import opened MinimalPrintf

  // What va_arg yields for a conversion.
  datatype Arg = Signed(i: int) | Unsigned(u: nat) | Text(s: seq<Byte>) | NullText | Pointer(p: nat)

  const INT_LIMIT: int := 0x8000_0000
  const LONG_LIMIT: int := 0x8000_0000_0000_0000

  // ------------------------------------------------------ specification

  predicate IsFlag(c: Byte) {
    c == LOWER_L || ZERO <= c <= ZERO + 9
  }

  // Length of the flags at the start of f.
  function FlagRun(f: seq<Byte>): (n: nat)
    ensures n <= |f|
  {
    if f == [] || !IsFlag(f[0]) then 0 else 1 + FlagRun(f[1..])
  }

  // The last nonzero digit among the flags, or 0.
  function FixedLength(flags: seq<Byte>): (n: nat)
    ensures n <= 9
  {
    if flags == [] then 0
    else
      var c := flags[|flags| - 1];
      if ZERO < c <= ZERO + 9 then c - ZERO else FixedLength(flags[..|flags| - 1])
  }

  function PadOf(flags: seq<Byte>): Byte {
    if ZERO in flags then ZERO else SPACE
  }

  predicate Known(c: Byte) {
    c == LOWER_D || c == LOWER_U || c == LOWER_X || c == LOWER_C || c == LOWER_S || c == LOWER_P
  }

  // The argument has the type and range the conversion reads.
  predicate ArgOk(isLong: bool, c: Byte, arg: Arg)
    requires Known(c)
  {
    if c == LOWER_D then
      arg.Signed? && if isLong then -LONG_LIMIT < arg.i < LONG_LIMIT else -INT_LIMIT <= arg.i < INT_LIMIT
    else if c == LOWER_U || c == LOWER_X then
      arg.Unsigned? && arg.u < if isLong then U64 else UINT_LIMIT
    else if c == LOWER_C then
      arg.Signed? && -INT_LIMIT <= arg.i < INT_LIMIT
    else if c == LOWER_S then
      arg.NullText? || (arg.Text? && 0 !in arg.s)
    else
      arg.Pointer? && arg.p < U64
  }

  // '%p': always 0x and 16 digits.
  function PointerText(p: nat): seq<Byte> {
    [ZERO, LOWER_X] + NumberText(POINTER_DIGITS, ZERO, 16, false, p)
  }

  function Conversion(isLong: bool, pad: Byte, fixed: nat, c: Byte, arg: Arg): seq<Byte>
    requires Known(c) && ArgOk(isLong, c, arg)
  {
    if c == LOWER_D then NumberText(fixed, pad, 10, arg.i < 0, if arg.i < 0 then -arg.i else arg.i)
    else if c == LOWER_U then NumberText(fixed, pad, 10, false, arg.u)
    else if c == LOWER_X then NumberText(fixed, pad, 16, false, arg.u)
    else if c == LOWER_C then [arg.i % 256]
    else if c == LOWER_S then (if arg.NullText? then [] else arg.s)
    else PointerText(arg.p)
  }

  // The conversion that follows a '%': its flags, then its letter if any.
  function FlagsOf(f: seq<Byte>): seq<Byte> {
    f[..FlagRun(f)]
  }

  // The format continues after '%' with a conversion this printf knows.
  predicate Converts(f: seq<Byte>) {
    FlagRun(f) < |f| && Known(f[FlagRun(f)])
  }

  // The caller passes the arguments its format asks for.
  predicate ArgsOk(f: seq<Byte>, args: seq<Arg>)
    decreases |f|
  {
    if f == [] then true
    else if f[0] != PERCENT then ArgsOk(f[1..], args)
    else
      var g := f[1..];
      Converts(g) ==>
        && args != []
        && ArgOk(LOWER_L in FlagsOf(g), g[FlagRun(g)], args[0])
        && ArgsOk(g[FlagRun(g) + 1..], args[1..])
  }

  // The whole text, without any bound. An unknown conversion ends it.
  function Render(f: seq<Byte>, args: seq<Arg>): seq<Byte>
    requires ArgsOk(f, args)
    decreases |f|
  {
    if f == [] then []
    else if f[0] != PERCENT then [f[0]] + Render(f[1..], args)
    else
      var g := f[1..];
      if !Converts(g) then []
      else
        var flags := FlagsOf(g);
        Conversion(LOWER_L in flags, PadOf(flags), FixedLength(flags), g[FlagRun(g)], args[0])
        + Render(g[FlagRun(g) + 1..], args[1..])
  }

  // What a buffer of 'size' bytes holds afterwards: as much of the text as
  // leaves room for the NUL, the NUL, and the old bytes behind it.
  function Terminated(str: seq<Byte>, size: nat, text: seq<Byte>): (r: seq<Byte>)
    requires size <= |str|
    ensures |r| == |str|
  {
    if size == 0 then str
    else
      var n := if |text| < size - 1 then |text| else size - 1;
      text[..n] + [0] + str[n + 1..]
  }

  // (int) off
  function ToInt(n: nat): int {
    (n + INT_LIMIT) % UINT_LIMIT - INT_LIMIT
  }

  // An int holds the count up to its limit.
  lemma ToIntExact(n: nat)
    ensures ToInt(n) == n <==> n < INT_LIMIT
  {
  }

  // ------------------------------------------------------ implementation

  lemma {:induction false} FlagRunAt(f: seq<Byte>, n: nat)
    requires n <= |f| && forall k :: 0 <= k < n ==> IsFlag(f[k])
    requires n < |f| ==> !IsFlag(f[n])
    ensures FlagRun(f) == n
  {
    if n > 0 { FlagRunAt(f[1..], n - 1); }
  }

  // Scan the flags; p ends behind the conversion letter, or behind the NUL.
  method ScanFlags(f: seq<Byte>, p0: nat) returns (p: nat, isLong: bool, pad: Byte, fixed: nat, c: Byte)
    requires 0 !in f && p0 <= |f|
    ensures var n := FlagRun(f[p0..]); var flags := FlagsOf(f[p0..]);
      && p == p0 + n + 1
      && c == (f + [0])[p0 + n]
      && isLong == (LOWER_L in flags) && pad == PadOf(flags) && fixed == FixedLength(flags)
  {
    var format := f + [0];
    isLong, pad, fixed := false, SPACE, 0;
    p := p0;
    while true
      invariant p0 <= p <= |f| && FlagsRead(f[p0..p], isLong, pad, fixed)
      decreases |f| - p
    {
      c := format[p];
      p := p + 1;
      if IsFlag(c) { FlagsReadStep(f[p0..p - 1], isLong, pad, fixed, c, f[p0..p]); }
      if c == LOWER_L {
        isLong := true;
      } else if c == ZERO {
        pad := ZERO;
      } else if ZERO < c <= ZERO + 9 {
        fixed := c - ZERO;
      } else {
        break;
      }
    }
    assert f[p0..][..p - 1 - p0] == f[p0..p - 1];
    FlagRunAt(f[p0..], p - 1 - p0);
  }

  // What the scanner knows after reading these flags.
  ghost predicate FlagsRead(flags: seq<Byte>, isLong: bool, pad: Byte, fixed: nat) {
    && (forall k :: 0 <= k < |flags| ==> IsFlag(flags[k]))
    && isLong == (LOWER_L in flags) && pad == PadOf(flags) && fixed == FixedLength(flags)
  }

  lemma FlagsReadStep(flags: seq<Byte>, isLong: bool, pad: Byte, fixed: nat, c: Byte, more: seq<Byte>)
    requires FlagsRead(flags, isLong, pad, fixed) && IsFlag(c) && |more| == |flags| + 1
    requires more[..|flags|] == flags && more[|flags|] == c
    ensures FlagsRead(more, isLong || c == LOWER_L, if c == ZERO then ZERO else pad,
                    if ZERO < c <= ZERO + 9 then c - ZERO else fixed)
  {
    assert more == flags + [c];
  }

  method WriteText(str: array<Byte>, size: nat, off: nat, s: seq<Byte>) returns (end: nat)
    requires 0 !in s && Room(str.Length, size, off + |s|)
    modifies str
    ensures end == off + |s| && str[..] == Blit(old(str[..]), size, off, s)
  {
    var v := s + [0];
    var k := 0;
    end := off;
    while true
      invariant 0 <= k <= |s| && end == off + k
      invariant str[..] == Blit(old(str[..]), size, off, s[..k])
      decreases |s| - k
    {
      var c := v[k];
      k := k + 1;
      if c == 0 { break; }
      BlitConcat(old(str[..]), size, off, s[..k - 1], [c]);
      assert s[..k] == s[..k - 1] + [c];
      end := WriteChar(str, size, end, c);
    }
    assert s[..|s|] == s;
  }

  // One conversion letter.
  method FormatArg(str: array<Byte>, size: nat, off: nat, isLong: bool, pad: Byte, fixed: nat, c: Byte, arg: Arg)
    returns (end: nat)
    requires fixed <= 9 && (pad == SPACE || pad == ZERO) && Known(c) && ArgOk(isLong, c, arg)
    requires Room(str.Length, size, off + |Conversion(isLong, pad, fixed, c, arg)|)
    modifies str
    ensures end == off + |Conversion(isLong, pad, fixed, c, arg)|
    ensures str[..] == Blit(old(str[..]), size, off, Conversion(isLong, pad, fixed, c, arg))
  {
    if c == LOWER_D {
      var v, negSign := arg.i, false;
      if v < 0 {
        negSign := true;
        v := -v;
      }
      end := FormatLong(str, size, off, fixed, pad, 10, negSign, v);
    } else if c == LOWER_U {
      end := FormatLong(str, size, off, fixed, pad, 10, false, arg.u);
    } else if c == LOWER_X {
      end := FormatLong(str, size, off, fixed, pad, 16, false, arg.u);
    } else if c == LOWER_C {
      end := WriteChar(str, size, off, arg.i % 256);
    } else if c == LOWER_S {
      if arg.Text? {
        end := WriteText(str, size, off, arg.s);
      } else {
        end := off;
      }
    } else {
      end := FormatPointer(str, size, off, arg.p);
    }
  }

  method FormatPointer(str: array<Byte>, size: nat, off: nat, p: nat) returns (end: nat)
    requires p < U64 && Room(str.Length, size, off + |PointerText(p)|)
    modifies str
    ensures end == off + |PointerText(p)| && str[..] == Blit(old(str[..]), size, off, PointerText(p))
  {
    ghost var digits := NumberText(POINTER_DIGITS, ZERO, 16, false, p);
    BlitConcat(old(str[..]), size, off, [ZERO], [LOWER_X]);
    BlitConcat(old(str[..]), size, off, [ZERO] + [LOWER_X], digits);
    assert [ZERO] + [LOWER_X] == [ZERO, LOWER_X];
    end := WriteChar(str, size, off, ZERO);
    end := WriteChar(str, size, end, LOWER_X);
    end := FormatLong(str, size, end, POINTER_DIGITS, ZERO, 16, false, p);
  }

  // What is still to come, from p and argument 'next' on, completes 'text'.
  ghost predicate Pending(f: seq<Byte>, p: nat, args: seq<Arg>, next: nat, done: seq<Byte>, text: seq<Byte>) {
    && p <= |f| && next <= |args|
    && ArgsOk(f[p..], args[next..])
    && text == done + Render(f[p..], args[next..])
  }

  lemma PendingEnd(f: seq<Byte>, args: seq<Arg>, next: nat, done: seq<Byte>, text: seq<Byte>)
    requires Pending(f, |f|, args, next, done, text)
    ensures text == done
  {
  }

  lemma PendingPlain(f: seq<Byte>, p: nat, args: seq<Arg>, next: nat, done: seq<Byte>, text: seq<Byte>)
    requires Pending(f, p, args, next, done, text) && p < |f| && f[p] != PERCENT
    ensures Pending(f, p + 1, args, next, done + [f[p]], text)
  {
    assert f[p..][1..] == f[p + 1..];
  }

  lemma PendingConversion(f: seq<Byte>, p: nat, args: seq<Arg>, next: nat, done: seq<Byte>, text: seq<Byte>, n: nat,
      flags: seq<Byte>)
    requires Pending(f, p, args, next, done, text) && p < |f| && f[p] == PERCENT
    requires n == FlagRun(f[p + 1..]) && flags == FlagsOf(f[p + 1..])
    ensures (p + 1 + n == |f| || !Known(f[p + 1 + n])) ==> text == done
    ensures p + 1 + n < |f| && Known(f[p + 1 + n]) ==>
      && next < |args| && ArgOk(LOWER_L in flags, f[p + 1 + n], args[next])
      && Pending(f, p + n + 2, args, next + 1,
                 done + Conversion(LOWER_L in flags, PadOf(flags), FixedLength(flags), f[p + 1 + n], args[next]), text)
  {
    var g := f[p + 1..];
    assert f[p..][1..] == g;
    if n < |g| && Known(g[n]) {
      assert g[n + 1..] == f[p + n + 2..];
      RenderConversion(f[p..], args[next..], g);
      assert args[next..][1..] == args[next + 1..];
    }
  }

  // One conversion, then the rest of the format with the rest of the arguments.
  lemma RenderConversion(f: seq<Byte>, args: seq<Arg>, g: seq<Byte>)
    requires f != [] && f[0] == PERCENT && g == f[1..] && Converts(g) && ArgsOk(f, args)
    ensures var n, flags := FlagRun(g), FlagsOf(g);
      && args != [] && ArgOk(LOWER_L in flags, g[n], args[0]) && ArgsOk(g[n + 1..], args[1..])
      && Render(f, args) ==
        Conversion(LOWER_L in flags, PadOf(flags), FixedLength(flags), g[n], args[0]) + Render(g[n + 1..], args[1..])
  {
  }

  // The same, of what the flag scan found.
  lemma PendingScanned(f: seq<Byte>, p: nat, args: seq<Arg>, next: nat, done: seq<Byte>, text: seq<Byte>,
                       end: nat, isLong: bool, pad: Byte, fixed: nat, c: Byte)
    requires Pending(f, p, args, next, done, text) && p < |f| && f[p] == PERCENT
    requires var n := FlagRun(f[p + 1..]); var flags := FlagsOf(f[p + 1..]);
      && end == p + 1 + n + 1 && c == (f + [0])[p + 1 + n]
      && isLong == (LOWER_L in flags) && pad == PadOf(flags) && fixed == FixedLength(flags)
    ensures !Known(c) ==> text == done
    ensures Known(c) ==>
      end <= |f| && next < |args| && ArgOk(isLong, c, args[next]) &&
      Pending(f, end, args, next + 1, done + Conversion(isLong, pad, fixed, c, args[next]), text)
  {
    PendingConversion(f, p, args, next, done, text, FlagRun(f[p + 1..]), FlagsOf(f[p + 1..]));
  }

  // The conversion behind the '%' at p0.
  method FormatConversion(str: array<Byte>, size: nat, f: seq<Byte>, p0: nat, args: seq<Arg>, next: nat, off0: nat,
                          ghost orig: seq<Byte>, ghost done0: seq<Byte>, ghost text: seq<Byte>)
    returns (p: nat, off: nat, stop: bool, ghost done: seq<Byte>)
    requires Room(str.Length, size, |text|) && 0 !in f && p0 < |f| && f[p0] == PERCENT
    requires Pending(f, p0, args, next, done0, text)
    requires off0 == |done0| && str[..] == Blit(orig, size, 0, done0)
    modifies str
    ensures stop ==> text == done
    ensures !stop ==> p0 < p && Pending(f, p, args, next + 1, done, text)
    ensures off == |done| && str[..] == Blit(orig, size, 0, done)
  {
    var isLong, pad, fixed, c;
    p, isLong, pad, fixed, c := ScanFlags(f, p0 + 1);
    PendingScanned(f, p0, args, next, done0, text, p, isLong, pad, fixed, c);
    if !Known(c) { return p, off0, true, done0; }
    ghost var t := Conversion(isLong, pad, fixed, c, args[next]);
    BlitConcat(orig, size, 0, done0, t);
    off := FormatArg(str, size, off0, isLong, pad, fixed, c, args[next]);
    stop, done := false, done0 + t;
  }

  method FormatAll(str: array<Byte>, size: nat, f: seq<Byte>, args: seq<Arg>, ghost text: seq<Byte>) returns (off: nat)
    requires Room(str.Length, size, |text|) && 0 !in f && Pending(f, 0, args, 0, [], text)
    modifies str
    ensures off == |text| && str[..] == Blit(old(str[..]), size, 0, text)
  {
    var format := f + [0];
    ghost var orig, done: seq<Byte> := str[..], [];
    var p: nat, next: nat := 0, 0;
    off := 0;
    while true
      invariant Pending(f, p, args, next, done, text)
      invariant off == |done| && str[..] == Blit(orig, size, 0, done)
      decreases |f| - p
    {
      var c := format[p];
      if c == 0 {
        PendingEnd(f, args, next, done, text);
        break;
      }
      if c != PERCENT {
        PendingPlain(f, p, args, next, done, text);
        BlitConcat(orig, size, 0, done, [c]);
        off := WriteChar(str, size, off, c);
        done := done + [c];
        p := p + 1;
      } else {
        var stop;
        p, off, stop, done := FormatConversion(str, size, f, p, args, next, off, orig, done, text);
        if stop { break; }
        next := next + 1;
      }
    }
  }

  lemma PendingStart(f: seq<Byte>, args: seq<Arg>)
    requires ArgsOk(f, args)
    ensures Pending(f, 0, args, 0, [], Render(f, args))
  {
    assert f[0..] == f && args[0..] == args;
  }

  // The text as far as it fits, with a NUL put over or behind it.
  lemma TerminatedBlit(str: seq<Byte>, size: nat, text: seq<Byte>, n: nat)
    requires 0 < size <= |str| && n == if |text| < size then |text| else size - 1
    ensures Blit(str, size, 0, text)[n := 0] == Terminated(str, size, text)
  {
    BlitAt(str, size, 0, text);
  }

  // duk_minimal_vsnprintf: the return value counts the whole text, the buffer
  // holds as much of it as fits with a NUL, and nothing beyond is touched. Either
  // the size is within the buffer, or the whole text and its NUL are.
  method Vsnprintf(str: array<Byte>, size: nat, f: seq<Byte>, args: seq<Arg>) returns (ret: int)
    requires 0 !in f && ArgsOk(f, args) && Room(str.Length, size, |Render(f, args)| + 1)
    modifies str
    ensures ret == ToInt(|Render(f, args)|) && (ret == |Render(f, args)| <==> |Render(f, args)| < INT_LIMIT)
    ensures str[..] == Terminated(old(str[..]), Min(size, str.Length), Render(f, args))
  {
    PendingStart(f, args);
    var off := FormatAll(str, size, f, args, Render(f, args));
    ret := ToInt(off);
    ToIntExact(off);
    Terminate(str, size, off, Render(f, args), old(str[..]));
  }

  method Terminate(str: array<Byte>, size: nat, off: nat, ghost text: seq<Byte>, ghost orig: seq<Byte>)
    requires Room(str.Length, size, |text| + 1) && off == |text| && str[..] == Blit(orig, size, 0, text)
    modifies str
    ensures str[..] == Terminated(orig, Min(size, str.Length), text)
  {
    BlitAt(orig, size, 0, text);
    BlitAt(orig, Min(size, str.Length), 0, text);
    assert str[..] == Blit(orig, Min(size, str.Length), 0, text);
    if off < size {
      TerminatedBlit(orig, Min(size, str.Length), text, off);
      str[off] := 0;
    } else if size > 0 {
      TerminatedBlit(orig, size, text, size - 1);
      str[size - 1] := 0;
    }
  }

  // DUK_SIZE_MAX
  const SIZE_MAX: nat := U64 - 1

  // duk_minimal_sprintf: the whole text and its NUL, if the buffer can take them.
  method Sprintf(str: array<Byte>, f: seq<Byte>, args: seq<Arg>) returns (ret: int)
    requires 0 !in f && ArgsOk(f, args) && |Render(f, args)| < str.Length <= SIZE_MAX
    modifies str
    ensures ret == ToInt(|Render(f, args)|) && (ret == |Render(f, args)| <==> |Render(f, args)| < INT_LIMIT)
    ensures str[..] == Render(f, args) + [0] + old(str[|Render(f, args)| + 1..])
  {
    ret := Vsnprintf(str, SIZE_MAX, f, args);
  }
}
