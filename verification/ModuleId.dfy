// Module identifiers (CommonJS Modules/1.1, section "Module Identifiers") as
// resolved by duk_module_duktape.c.
module ModuleId {
  import opened Octets

  const DOT: Byte := 46
  const SLASH: Byte := 47

  // DUK_COMMONJS_MODULE_ID_LIMIT: resolution input with its NUL must fit.
  const ID_LIMIT: nat := 256

  type Term = seq<Byte>

  datatype Option<+T> = None | Some(value: T)

  // The resolved id and its last component, or a type error.
  datatype Resolution = Resolved(id: seq<Byte>, last: seq<Byte>) | CannotResolve

  // ---------------------------------------------------------- specification

  // The terms of a text with one more byte in front.
  function PushByte(c: Byte, ts: seq<Term>): (r: seq<Term>)
    requires |ts| > 0
    ensures |r| > 0
  {
    if c == SLASH then [[]] + ts else [[c] + ts[0]] + ts[1..]
  }

  // Split on slashes; "a//b" has an empty term in the middle.
  function Terms(s: seq<Byte>): (ts: seq<Term>)
    ensures |ts| > 0
  {
    if s == [] then [[]] else PushByte(s[0], Terms(s[1..]))
  }

  function Join(ts: seq<Term>): seq<Byte> {
    if ts == [] then [] else if |ts| == 1 then ts[0] else ts[0] + [SLASH] + Join(ts[1..])
  }

  predicate DotLeading(t: Term) {
    t != [] && t[0] == DOT
  }

  // Resolve terms against a directory stack. Only inner terms may be empty, '.'
  // or '..'; the last one must be a plain name.
  function Walk(stack: seq<Term>, terms: seq<Term>): (r: Option<seq<Term>>)
    requires |terms| > 0
    ensures r.Some? ==> r.value != []
    decreases |terms|
  {
    var t, rest := terms[0], terms[1..];
    if rest == [] then
      if t == [] || DotLeading(t) then None else Some(stack + [t])
    else if t == [] || t == [DOT] then Walk(stack, rest)
    else if t == [DOT, DOT] then
      if stack == [] then None else Walk(stack[..|stack| - 1], rest)
    else if DotLeading(t) then None
    else Walk(stack + [t], rest)
  }

  function Finished(w: Option<seq<Term>>): Resolution
    requires w.Some? ==> w.value != []
  {
    match w
    case None => CannotResolve
    case Some(ts) => Resolved(Join(ts), ts[|ts| - 1])
  }

  // Not empty and not starting with a slash.
  predicate Startable(s: seq<Byte>) {
    s != [] && s[0] != SLASH
  }

  function Normalise(s: seq<Byte>): Resolution {
    if !Startable(s) then CannotResolve else Finished(Walk([], Terms(s)))
  }

  // A relative id is taken against the directory of the requiring module.
  function ResolutionInput(req: seq<Byte>, base: Option<seq<Byte>>): seq<Byte> {
    if base.Some? && DotLeading(Cut(req))
    then Cut(base.value) + [SLASH, DOT, DOT, SLASH] + Cut(req)
    else Cut(req)
  }

  function Resolve(req: seq<Byte>, base: Option<seq<Byte>>): Resolution {
    var s := ResolutionInput(req, base);
    if |s| >= ID_LIMIT then CannotResolve else Normalise(s)
  }

  // ------------------------------------------------------- splitting lemmas

  lemma {:induction false} TermsOfPlain(s: seq<Byte>)
    requires SLASH !in s
    ensures Terms(s) == [s]
  {
    if s != [] {
      TermsOfPlain(s[1..]);
      assert s == [s[0]] + s[1..];
    }
  }

  lemma {:induction false} TermsAtSlash(s: seq<Byte>, k: nat)
    requires k < |s| && s[k] == SLASH && SLASH !in s[..k]
    ensures Terms(s) == [s[..k]] + Terms(s[k + 1..])
  {
    if k > 0 {
      assert s[..k] == [s[0]] + s[1..][..k - 1];
      TermsAtSlash(s[1..], k - 1);
      assert s[1..][k..] == s[k + 1..];
    }
  }

  // Output text of a directory stack: every term with its slash.
  function Prefix(stack: seq<Term>): seq<Byte> {
    if stack == [] then [] else Prefix(stack[..|stack| - 1]) + stack[|stack| - 1] + [SLASH]
  }

  ghost predicate PlainTerms(stack: seq<Term>) {
    forall k :: 0 <= k < |stack| ==> stack[k] != [] && !DotLeading(stack[k]) && SLASH !in stack[k]
  }

  lemma PrefixPush(stack: seq<Term>, t: Term)
    ensures Prefix(stack + [t]) == Prefix(stack) + t + [SLASH]
  {
    assert (stack + [t])[..|stack|] == stack;
  }

  lemma {:induction false} PrefixCons(stack: seq<Term>)
    requires stack != []
    ensures Prefix(stack) == stack[0] + [SLASH] + Prefix(stack[1..])
  {
    var n := |stack| - 1;
    if n > 0 {
      PrefixCons(stack[..n]);
      assert stack[1..][..n - 1] == stack[..n][1..];
    }
  }

  // The output of the copying loop is the joined path.
  lemma {:induction false} JoinIsPrefix(stack: seq<Term>, t: Term)
    ensures Join(stack + [t]) == Prefix(stack) + t
  {
    if stack != [] {
      JoinIsPrefix(stack[1..], t);
      PrefixCons(stack);
      assert (stack + [t])[1..] == stack[1..] + [t];
    }
  }

  lemma PrefixEndsInSlash(stack: seq<Term>)
    ensures stack == [] <==> Prefix(stack) == []
    ensures stack != [] ==> Prefix(stack)[|Prefix(stack)| - 1] == SLASH
  {
  }

  // ------------------------------------------- the in-place implementation

  // Step to the next term: what is left of the input after eating '/'.
  lemma WalkEatsSlash(stack: seq<Term>, s: seq<Byte>)
    requires s != [] && s[0] == SLASH
    ensures Walk(stack, Terms(s)) == Walk(stack, Terms(s[1..]))
  {
    assert Terms(s)[1..] == Terms(s[1..]);
  }

  lemma WalkTerm(stack: seq<Term>, s: seq<Byte>, k: nat)
    requires k < |s| && s[k] == SLASH && SLASH !in s[..k]
    ensures Terms(s)[0] == s[..k] && Terms(s)[1..] == Terms(s[k + 1..]) && |Terms(s)| > 1
  {
    TermsAtSlash(s, k);
  }

  // A term that starts with a period is '.' or '..' with a slash behind it, or
  // resolution fails.
  lemma DotTermFails(stack: seq<Term>, s: seq<Byte>)
    requires DotLeading(s)
    requires !(|s| > 1 && s[1] == SLASH)
    requires !(|s| > 2 && s[1] == DOT && s[2] == SLASH)
    ensures Walk(stack, Terms(s)) == None
  {
    if SLASH in s {
      var k := FirstSlash(s);
      WalkTerm(stack, s, k);
      assert s[..k][0] == DOT;
    } else {
      TermsOfPlain(s);
    }
  }

  lemma {:induction false} FirstSlash(s: seq<Byte>) returns (k: nat)
    requires SLASH in s
    ensures k < |s| && s[k] == SLASH && SLASH !in s[..k]
  {
    if s[0] == SLASH {
      k := 0;
    } else {
      k := FirstSlash(s[1..]);
      k := k + 1;
      assert s[..k] == [s[0]] + s[1..][..k - 1];
    }
  }

  // What a read of the input finds: its bytes, then NUL.
  function At(s: seq<Byte>, k: nat): Byte {
    if k < |s| then s[k] else 0
  }

  ghost predicate Unread(buf: seq<Byte>, s: seq<Byte>, p: nat) {
    |s| < |buf| && forall k :: p <= k <= |s| ==> buf[k] == At(s, k)
  }

  ghost predicate Written(buf: seq<Byte>, q: nat, out: seq<Byte>) {
    q == |out| <= |buf| && forall k :: 0 <= k < q ==> buf[k] == out[k]
  }

  // buf holds the output of 'stack' up to q and the unread input from p on.
  ghost predicate InPlace(buf: seq<Byte>, s: seq<Byte>, p: nat, q: nat, stack: seq<Term>) {
    q <= p <= |s| && Unread(buf, s, p) && Written(buf, q, Prefix(stack)) && PlainTerms(stack)
  }

  // 'ts' are the terms of the unread input.
  ghost predicate Rest(s: seq<Byte>, p: nat, ts: seq<Term>) {
    p <= |s| && |ts| > 0 && ts == Terms(s[p..])
  }

  // Resolving the unread input from this stack gives the answer.
  ghost predicate OnTrack(s: seq<Byte>, p: nat, stack: seq<Term>, answer: Resolution) {
    forall ts :: Rest(s, p, ts) ==>
      answer == if p == 0 && !Startable(s) then CannotResolve else Finished(Walk(stack, ts))
  }

  lemma StartOnTrack(s: seq<Byte>)
    ensures OnTrack(s, 0, [], Normalise(s))
  {
    assert s[0..] == s;
  }

  lemma NothingLeft(s: seq<Byte>, p: nat, stack: seq<Term>, answer: Resolution)
    requires OnTrack(s, p, stack, answer)
    requires p == |s| || (p == 0 && s[0] == SLASH)
    ensures answer == CannotResolve
  {
    assert Rest(s, p, Terms(s[p..]));
  }

  // The term in s[p..e], with the slash at e, takes 'stack' to 'next'.
  lemma StepTerm(s: seq<Byte>, p: nat, e: nat, stack: seq<Term>, next: seq<Term>, answer: Resolution)
    requires p < e < |s| && s[e] == SLASH && SLASH !in s[p..e] && s[p] != SLASH
    requires OnTrack(s, p, stack, answer)
    requires
      || (s[p..e] == [DOT] && next == stack)
      || (s[p..e] == [DOT, DOT] && stack != [] && next == stack[..|stack| - 1])
      || (s[p] != DOT && next == stack + [s[p..e]])
    ensures OnTrack(s, e + 1, next, answer)
  {
    assert Rest(s, p, Terms(s[p..]));
    assert s[p..][..e - p] == s[p..e];
    WalkTerm(stack, s[p..], e - p);
    assert s[p..][e - p + 1..] == s[e + 1..];
  }

  // The last term, when it is a plain name, is appended to the stack.
  lemma LastTerm(s: seq<Byte>, p: nat, stack: seq<Term>, answer: Resolution)
    requires p < |s| && SLASH !in s[p..] && s[p] != DOT
    requires OnTrack(s, p, stack, answer)
    ensures answer == Resolved(Prefix(stack) + s[p..], s[p..])
  {
    assert Rest(s, p, Terms(s[p..]));
    TermsOfPlain(s[p..]);
    JoinIsPrefix(stack, s[p..]);
  }

  lemma BacktrackPastRoot(s: seq<Byte>, p: nat, answer: Resolution)
    requires p + 2 < |s| && s[p] == s[p + 1] == DOT && s[p + 2] == SLASH
    requires OnTrack(s, p, [], answer)
    ensures answer == CannotResolve
  {
    assert Rest(s, p, Terms(s[p..]));
    assert s[p..][..2] == [DOT, DOT];
    WalkTerm([], s[p..], 2);
  }

  lemma BadDotTerm(s: seq<Byte>, p: nat, stack: seq<Term>, answer: Resolution)
    requires p < |s| && s[p] == DOT && OnTrack(s, p, stack, answer)
    requires At(s, p + 1) != SLASH && !(At(s, p + 1) == DOT && At(s, p + 2) == SLASH)
    ensures answer == CannotResolve
  {
    assert Rest(s, p, Terms(s[p..]));
    DotTermFails(stack, s[p..]);
  }

  lemma EatSlash(s: seq<Byte>, p: nat, stack: seq<Term>, answer: Resolution)
    requires 0 < p < |s| && s[p] == SLASH && OnTrack(s, p, stack, answer)
    ensures OnTrack(s, p + 1, stack, answer)
  {
    assert Rest(s, p, Terms(s[p..]));
    WalkEatsSlash(stack, s[p..]);
    assert s[p..][1..] == s[p + 1..];
  }

  // duk__resolve_module_id, working in place in one buffer: the output grows
  // from the front over input that has been read.
  method ResolveModuleId(req: seq<Byte>, base: Option<seq<Byte>>) returns (r: Resolution)
    ensures r == Resolve(req, base)
    ensures r.Resolved? ==> |r.id| <= |ResolutionInput(req, base)|
  {
    var buf := new Byte[ID_LIMIT];
    var s := ResolutionInput(req, base);
    if |s| >= ID_LIMIT { return CannotResolve; }
    for k := 0 to |s|
      invariant forall x :: 0 <= x < k ==> buf[x] == s[x]
    {
      buf[k] := s[k];
    }
    buf[|s|] := 0;
    StartOnTrack(s);
    r := ResolveInPlace(buf, s, Normalise(s));
  }

  method ResolveInPlace(buf: array<Byte>, s: seq<Byte>, ghost answer: Resolution) returns (r: Resolution)
    requires 0 !in s && Unread(buf[..], s, 0) && OnTrack(s, 0, [], answer)
    modifies buf
    ensures r == answer
    ensures r.Resolved? ==> |r.id| <= |s|
  {
    var p: nat, q: nat, qLast: nat := 0, 0, 0;
    ghost var stack: seq<Term> := [];
    while true
      invariant InPlace(buf[..], s, p, q, stack) && OnTrack(s, p, stack, answer)
      invariant p > 0 && p < |s| ==> s[p] != SLASH
      decreases |s| - p
    {
      qLast := q;
      var c := buf[p];
      if c == 0 {
        NothingLeft(s, p, stack, answer);
        return CannotResolve;
      } else if c == DOT {
        var failed;
        p, q, failed, stack := DotTerm(buf, s, p, q, stack, answer);
        if failed { return CannotResolve; }
      } else if c == SLASH {
        NothingLeft(s, p, stack, answer);
        return CannotResolve;
      } else {
        var done;
        p, q, done, stack := NameTerm(buf, s, p, q, stack, answer);
        if done { return Resolved(buf[..q], buf[qLast..q]); }
      }
      p := EatSlashes(buf, s, p, q, stack, answer);
    }
  }

  // A plain name: the last one completes the answer, others go on the stack.
  method NameTerm(buf: array<Byte>, s: seq<Byte>, p0: nat, q0: nat, ghost stack: seq<Term>, ghost answer: Resolution)
    returns (p: nat, q: nat, done: bool, ghost next: seq<Term>)
    requires 0 !in s && InPlace(buf[..], s, p0, q0, stack) && OnTrack(s, p0, stack, answer)
    requires p0 < |s| && s[p0] != SLASH && s[p0] != DOT
    modifies buf
    ensures done ==> q0 <= q <= |s| && q <= buf.Length && answer == Resolved(buf[..q], buf[q0..q])
    ensures !done ==> p0 < p && InPlace(buf[..], s, p, q, next) && OnTrack(s, p, next, answer)
  {
    p, q, done := CopyTerm(buf, s, p0, q0, Prefix(stack));
    if done {
      next := stack;
      LastTerm(s, p0, stack, answer);
      WrittenSlices(buf[..], q, Prefix(stack), s[p0..]);
    } else {
      var t := s[p0..p - 1];
      next := stack + [t];
      StepTerm(s, p0, p - 1, stack, next, answer);
      PrefixPush(stack, t);
      assert t[0] == s[p0];
    }
  }

  lemma WrittenSlices(buf: seq<Byte>, q: nat, a: seq<Byte>, b: seq<Byte>)
    requires Written(buf, q, a + b)
    ensures buf[..q] == a + b && |a| <= q && buf[|a|..q] == b
  {
  }

  // A term that starts with a period: '.' is dropped, '..' undoes one term.
  method DotTerm(buf: array<Byte>, s: seq<Byte>, p0: nat, q0: nat, ghost stack: seq<Term>, ghost answer: Resolution)
    returns (p: nat, q: nat, failed: bool, ghost next: seq<Term>)
    requires 0 !in s && InPlace(buf[..], s, p0, q0, stack) && p0 < |s| && s[p0] == DOT
    requires OnTrack(s, p0, stack, answer)
    ensures failed ==> answer == CannotResolve
    ensures !failed ==> p0 < p && InPlace(buf[..], s, p, q, next) && OnTrack(s, p, next, answer)
  {
    p, q, failed, next := p0 + 1, q0, false, stack;
    var c := buf[p];
    p := p + 1;
    if c == SLASH {
      StepTerm(s, p0, p0 + 1, stack, stack, answer);
    } else if c == DOT && buf[p] == SLASH {
      p := p + 1;
      if q == 0 {
        PrefixEndsInSlash(stack);
        BacktrackPastRoot(s, p0, answer);
        failed := true;
      } else {
        q := Backtrack(buf, q, stack);
        next := stack[..|stack| - 1];
        assert s[p0..p0 + 2] == [DOT, DOT];
        StepTerm(s, p0, p0 + 2, stack, next, answer);
      }
    } else {
      BadDotTerm(s, p0, stack, answer);
      failed := true;
    }
  }

  // Move q back over the last output term, to the slash before it or the start.
  method Backtrack(buf: array<Byte>, q0: nat, ghost stack: seq<Term>) returns (q: nat)
    requires 0 < q0 && Written(buf[..], q0, Prefix(stack)) && PlainTerms(stack)
    ensures stack != [] && q < q0 && Written(buf[..], q, Prefix(stack[..|stack| - 1]))
  {
    q := q0 - 1;
    ghost var n := |stack| - 1;
    PrefixEndsInSlash(stack[..n]);
    ghost var dir := Prefix(stack[..n]);
    while true
      invariant |dir| <= q <= |dir| + |stack[n]|
      decreases q
    {
      if q == 0 { break; }
      assert buf[q - 1] == Prefix(stack)[q - 1] == if q > |dir| then stack[n][q - 1 - |dir|] else dir[q - 1];
      if buf[q - 1] == SLASH { break; }
      q := q - 1;
    }
  }

  // Copy a name up to the next slash or the end of the input.
  method CopyTerm(buf: array<Byte>, s: seq<Byte>, p0: nat, q0: nat, ghost out: seq<Byte>)
    returns (p: nat, q: nat, done: bool)
    requires 0 !in s && q0 <= p0 < |s| && s[p0] != SLASH
    requires Unread(buf[..], s, p0) && Written(buf[..], q0, out)
    modifies buf
    ensures done ==> q <= |s| && SLASH !in s[p0..] && Written(buf[..], q, out + s[p0..])
    ensures !done ==>
      && p0 + 1 < p <= |s| && q <= p && s[p - 1] == SLASH && SLASH !in s[p0..p - 1]
      && Unread(buf[..], s, p) && Written(buf[..], q, out + s[p0..p - 1] + [SLASH])
  {
    var c := buf[p0];
    p, q := p0 + 1, q0;
    while true
      invariant p0 < p <= |s| && c == s[p - 1] && q == q0 + (p - 1 - p0)
      invariant forall k :: p0 <= k < p ==> s[k] != SLASH
      invariant forall k :: 0 <= k < q ==> buf[k] == if k < q0 then out[k] else s[p0 + k - q0]
      invariant Unread(buf[..], s, p)
      decreases |s| - p
    {
      assert q < p;
      buf[q] := c;
      q := q + 1;
      c := buf[p];
      p := p + 1;
      if c == 0 {
        return p, q, true;
      } else if c == SLASH {
        buf[q] := SLASH;
        q := q + 1;
        return p, q, false;
      }
    }
  }

  method EatSlashes(buf: array<Byte>, s: seq<Byte>, p0: nat, q: nat, ghost stack: seq<Term>, ghost answer: Resolution)
    returns (p: nat)
    requires 0 !in s && 0 < p0 && InPlace(buf[..], s, p0, q, stack) && OnTrack(s, p0, stack, answer)
    ensures p0 <= p && InPlace(buf[..], s, p, q, stack) && OnTrack(s, p, stack, answer)
    ensures p < |s| ==> s[p] != SLASH
  {
    p := p0;
    while true
      invariant p0 <= p && InPlace(buf[..], s, p, q, stack) && OnTrack(s, p, stack, answer)
      decreases |s| - p
    {
      if buf[p] != SLASH { break; }
      EatSlash(s, p, stack, answer);
      p := p + 1;
    }
  }
}
