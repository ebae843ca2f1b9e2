// What resolution means: which inputs resolve, that the result is a normal
// form, and how relative ids compose with the requiring module.
module ModuleIdLaws {
  import opened Octets
  import opened ModuleId

  // --------------------------------------------- which inputs resolve

  predicate PlainName(t: Term) {
    t != [] && !DotLeading(t)
  }

  predicate InnerTermOk(t: Term) {
    !DotLeading(t) || t == [DOT] || t == [DOT, DOT]
  }

  // How far a term descends into the module tree.
  function Descent(t: Term): int {
    if t == [DOT, DOT] then -1 else if PlainName(t) then 1 else 0
  }

  function Depth(ts: seq<Term>): int {
    if ts == [] then 0 else Descent(ts[0]) + Depth(ts[1..])
  }

  // The path never climbs past the root it starts 'room' levels below.
  ghost predicate StaysBelowRoot(ts: seq<Term>, room: int) {
    forall k :: 0 <= k < |ts| ==> room + Depth(ts[..k]) >= 0
  }

  lemma BelowRootStep(ts: seq<Term>, room: nat)
    requires |ts| > 1
    ensures StaysBelowRoot(ts, room) <==> room + Descent(ts[0]) >= 0 && StaysBelowRoot(ts[1..], room + Descent(ts[0]))
  {
    forall k | 0 < k < |ts| ensures Depth(ts[..k]) == Descent(ts[0]) + Depth(ts[1..][..k - 1]) {
      assert ts[..k][1..] == ts[1..][..k - 1];
    }
    if StaysBelowRoot(ts, room) {
      assert room + Depth(ts[..1]) >= 0;
      forall k | 0 <= k < |ts[1..]| ensures room + Descent(ts[0]) + Depth(ts[1..][..k]) >= 0 {
        assert room + Depth(ts[..k + 1]) >= 0;
      }
    }
    if room + Descent(ts[0]) >= 0 && StaysBelowRoot(ts[1..], room + Descent(ts[0])) {
      forall k | 0 <= k < |ts| ensures room + Depth(ts[..k]) >= 0 {
        if k > 0 { assert room + Descent(ts[0]) + Depth(ts[1..][..k - 1]) >= 0; }
      }
    }
  }

  ghost predicate TermsResolve(ts: seq<Term>, room: int) {
    && |ts| > 0
    && PlainName(ts[|ts| - 1])
    && (forall k :: 0 <= k < |ts| - 1 ==> InnerTermOk(ts[k]))
    && StaysBelowRoot(ts, room)
  }

  lemma {:induction false} WalkSucceedsExactly(stack: seq<Term>, ts: seq<Term>)
    requires |ts| > 0
    ensures Walk(stack, ts).Some? <==> TermsResolve(ts, |stack|)
    ensures Walk(stack, ts).Some? ==> |Walk(stack, ts).value| == |stack| + Depth(ts)
    decreases |ts|
  {
    if |ts| > 1 {
      var t, rest := ts[0], ts[1..];
      BelowRootStep(ts, |stack|);
      assert forall k :: 1 <= k < |ts| ==> ts[k] == rest[k - 1];
      if t == [] || t == [DOT] {
        WalkSucceedsExactly(stack, rest);
      } else if t == [DOT, DOT] {
        if stack != [] { WalkSucceedsExactly(stack[..|stack| - 1], rest); }
      } else if !DotLeading(t) {
        WalkSucceedsExactly(stack + [t], rest);
      }
    }
  }

  // An id resolves exactly when its input is short enough, does not start with
  // a slash, ends in a plain name, has no other term starting with a period
  // than '.' and '..', and never climbs past the root.
  lemma ResolvesExactly(req: seq<Byte>, base: Option<seq<Byte>>)
    ensures var s := ResolutionInput(req, base);
      Resolve(req, base).Resolved? <==> |s| < ID_LIMIT && Startable(s) && TermsResolve(Terms(s), 0)
  {
    WalkSucceedsExactly([], Terms(ResolutionInput(req, base)));
  }

  // ------------------------------------------------------- normal forms

  // A resolved id: plain names joined by single slashes.
  ghost predicate Names(ts: seq<Term>) {
    ts != [] && PlainTerms(ts)
  }

  ghost predicate Canonical(id: seq<Byte>) {
    0 !in id && exists ts :: Names(ts) && id == Join(ts)
  }

  lemma {:induction false} WalkNames(stack: seq<Term>, ts: seq<Term>)
    requires Names(ts)
    ensures Walk(stack, ts) == Some(stack + ts)
    decreases |ts|
  {
    assert ts[0] != [] && !DotLeading(ts[0]);
    if |ts| == 1 {
      assert ts == [ts[0]];
    } else {
      WalkNames(stack + [ts[0]], ts[1..]);
      assert stack + [ts[0]] + ts[1..] == stack + ts;
    }
  }

  lemma PushByteConcat(c: Byte, a: seq<Term>, b: seq<Term>)
    requires a != []
    ensures PushByte(c, a + b) == PushByte(c, a) + b
  {
    assert (a + b)[1..] == a[1..] + b;
  }

  // Splitting at any slash splits the terms.
  lemma {:induction false} TermsConcat(u: seq<Byte>, s: seq<Byte>, t: seq<Byte>)
    requires u == s + [SLASH] + t
    ensures Terms(u) == Terms(s) + Terms(t)
    decreases |s|
  {
    if s == [] {
      assert u[1..] == t;
    } else {
      TermsConcat(u[1..], s[1..], t);
      PushByteConcat(s[0], Terms(s[1..]), Terms(t));
    }
  }

  // A slash-free piece in front becomes the first term.
  lemma TermsAfter(u: seq<Byte>, d: Term, s: seq<Byte>)
    requires u == d + [SLASH] + s && SLASH !in d
    ensures Terms(u) == [d] + Terms(s)
  {
    TermsConcat(u, d, s);
    TermsOfPlain(d);
  }

  lemma {:induction false} TermsOfJoin(ts: seq<Term>)
    requires Names(ts)
    ensures Terms(Join(ts)) == ts
    decreases |ts|
  {
    if |ts| == 1 {
      TermsOfPlain(ts[0]);
    } else {
      TermsOfJoin(ts[1..]);
      TermsAfter(Join(ts), ts[0], Join(ts[1..]));
    }
  }

  lemma {:induction false} TermsSlashFree(s: seq<Byte>)
    ensures forall k :: 0 <= k < |Terms(s)| ==> SLASH !in Terms(s)[k]
  {
    if s != [] { TermsSlashFree(s[1..]); }
  }

  lemma {:induction false} WalkYieldsNames(stack: seq<Term>, ts: seq<Term>)
    requires |ts| > 0 && PlainTerms(stack)
    requires forall k :: 0 <= k < |ts| ==> SLASH !in ts[k]
    ensures Walk(stack, ts).Some? ==> Names(Walk(stack, ts).value)
    decreases |ts|
  {
    if |ts| > 1 {
      var t, rest := ts[0], ts[1..];
      if t == [] || t == [DOT] {
        WalkYieldsNames(stack, rest);
      } else if t == [DOT, DOT] {
        if stack != [] { WalkYieldsNames(stack[..|stack| - 1], rest); }
      } else if !DotLeading(t) {
        WalkYieldsNames(stack + [t], rest);
      }
    }
  }

  lemma {:induction false} JoinStartsPlain(ts: seq<Term>)
    requires Names(ts)
    ensures Join(ts) != [] && Join(ts)[0] == ts[0][0] && Startable(Join(ts)) && !DotLeading(Join(ts))
  {
    assert ts[0] != [] && !DotLeading(ts[0]) && ts[0][0] in ts[0];
  }

  lemma JoinNormalises(ts: seq<Term>)
    requires Names(ts)
    ensures Normalise(Join(ts)) == Resolved(Join(ts), ts[|ts| - 1])
  {
    JoinStartsPlain(ts);
    TermsOfJoin(ts);
    WalkNames([], ts);
    assert [] + ts == ts;
  }

  lemma {:induction false} CutOfClean(s: seq<Byte>)
    requires 0 !in s
    ensures Cut(s) == s
  {
    if s != [] {
      CutOfClean(s[1..]);
      assert s == [s[0]] + s[1..];
    }
  }

  ghost predicate NulFree(ts: seq<Term>) {
    forall k :: 0 <= k < |ts| ==> 0 !in ts[k]
  }

  lemma {:induction false} TermsNulFree(s: seq<Byte>)
    requires 0 !in s
    ensures NulFree(Terms(s)) && |Prefix(Terms(s))| == |s| + 1
  {
    PrefixCons(Terms(s));
    if s != [] {
      TermsNulFree(s[1..]);
      PrefixCons(Terms(s[1..]));
      var rest := Terms(s[1..]);
      assert Terms(s)[1..] == if s[0] == SLASH then rest else rest[1..];
      assert 0 !in rest[0];
    }
  }

  // Walking never makes the path longer, nor adds bytes of its own.
  lemma {:induction false} WalkShrinks(stack: seq<Term>, ts: seq<Term>)
    requires |ts| > 0 && NulFree(stack) && NulFree(ts)
    ensures Walk(stack, ts).Some? ==>
      NulFree(Walk(stack, ts).value) && |Prefix(Walk(stack, ts).value)| <= |Prefix(stack)| + |Prefix(ts)|
    decreases |ts|
  {
    var t, rest := ts[0], ts[1..];
    PrefixCons(ts);
    PrefixPush(stack, t);
    if rest != [] {
      if t == [] || t == [DOT] {
        WalkShrinks(stack, rest);
      } else if t == [DOT, DOT] {
        if stack != [] { WalkShrinks(stack[..|stack| - 1], rest); }
      } else if !DotLeading(t) {
        WalkShrinks(stack + [t], rest);
      }
    }
  }

  lemma {:induction false} JoinNulFree(ts: seq<Term>)
    requires NulFree(ts) && ts != []
    ensures 0 !in Join(ts) && |Join(ts)| + 1 == |Prefix(ts)|
    decreases |ts|
  {
    PrefixCons(ts);
    if |ts| > 1 {
      JoinNulFree(ts[1..]);
    }
  }

  // The output is never longer than the input, and is a normal form.
  lemma ResolutionIsCanonical(req: seq<Byte>, base: Option<seq<Byte>>)
    ensures var r := Resolve(req, base);
      r.Resolved? ==> Canonical(r.id) && |r.id| <= |ResolutionInput(req, base)| < ID_LIMIT
  {
    var s := ResolutionInput(req, base);
    if Resolve(req, base).Resolved? {
      TermsSlashFree(s);
      WalkYieldsNames([], Terms(s));
      TermsNulFree(s);
      WalkShrinks([], Terms(s));
      JoinNulFree(Walk([], Terms(s)).value);
    }
  }

  // A normal form resolves to itself, from any base, and nothing else does.
  lemma FixpointsAreCanonical(id: seq<Byte>, base: Option<seq<Byte>>)
    ensures base == None || Canonical(id) ==>
      (Canonical(id) && |id| < ID_LIMIT <==> Resolve(id, base).Resolved? && Resolve(id, base).id == id)
  {
    ResolutionIsCanonical(id, base);
    if Canonical(id) {
      var ts :| Names(ts) && id == Join(ts);
      CutOfClean(id);
      JoinNormalises(ts);
      JoinStartsPlain(ts);
    }
  }

  // The second output is the text after the final slash of the first.
  lemma LastComponent(req: seq<Byte>, base: Option<seq<Byte>>)
    ensures var r := Resolve(req, base);
      r.Resolved? ==>
        && SLASH !in r.last && r.last != []
        && |r.last| <= |r.id| && r.id[|r.id| - |r.last|..] == r.last
        && (r.last == r.id || r.id[|r.id| - |r.last| - 1] == SLASH)
  {
    var s := ResolutionInput(req, base);
    var r := Resolve(req, base);
    if r.Resolved? {
      TermsSlashFree(s);
      WalkYieldsNames([], Terms(s));
      var ts := Walk([], Terms(s)).value;
      var n := |ts| - 1;
      JoinIsPrefix(ts[..n], ts[n]);
      assert ts[..n] + [ts[n]] == ts;
      PrefixEndsInSlash(ts[..n]);
    }
  }

  // ------------------------------------------------------- relative ids

  lemma {:induction false} WalkThrough(stack: seq<Term>, bs: seq<Term>, ts: seq<Term>)
    requires Names(bs) && |ts| > 0
    ensures Walk(stack, bs + ts) == Walk(stack + bs, ts)
    decreases |bs|
  {
    assert (bs + ts)[1..] == bs[1..] + ts;
    if |bs| == 1 {
      assert stack + bs == stack + [bs[0]];
    } else {
      WalkThrough(stack + [bs[0]], bs[1..], ts);
      assert stack + [bs[0]] + bs[1..] == stack + bs;
    }
  }

  // A relative id is resolved in the directory of the requiring module: its
  // last component is replaced.
  lemma RelativeToDirectory(req: seq<Byte>, bs: seq<Term>)
    requires Names(bs) && 0 !in Join(bs) && DotLeading(Cut(req))
    requires |Join(bs)| + 4 + |Cut(req)| < ID_LIMIT
    ensures Resolve(req, Some(Join(bs))) == Finished(Walk(bs[..|bs| - 1], Terms(Cut(req))))
  {
    var id, r := Join(bs), Cut(req);
    CutOfClean(id);
    var up := [DOT, DOT] + [SLASH] + r;
    var s := id + [SLASH] + up;
    assert id + [SLASH, DOT, DOT, SLASH] + r == s;
    TermsConcat(s, id, up);
    TermsAfter(up, [DOT, DOT], r);
    TermsOfJoin(bs);
    JoinStartsPlain(bs);
    assert s[0] == id[0];
    WalkThrough([], bs, Terms(up));
    assert [] + bs == bs;
    WalkUp([DOT, DOT], bs, Terms(r));
  }

  // The term '..'.
  predicate IsUp(t: Term) {
    |t| == 2 && t[0] == DOT && t[1] == DOT
  }

  lemma WalkUp(up: Term, stack: seq<Term>, ts: seq<Term>)
    requires |ts| > 0 && IsUp(up)
    ensures Walk(stack, [up] + ts) == if stack == [] then None else Walk(stack[..|stack| - 1], ts)
  {
    assert ([up] + ts)[1..] == ts;
    assert up == [DOT, DOT];
  }

  lemma WalkHere(stack: seq<Term>, ts: seq<Term>)
    requires |ts| > 0
    ensures Walk(stack, [[DOT]] + ts) == Walk(stack, ts)
  {
    assert ([[DOT]] + ts)[1..] == ts;
  }

  // An id made of a dot term, a slash and a normal form walks from the
  // directory of its base.
  lemma DotIdResolves(req: seq<Byte>, d: Term, bs: seq<Term>, xs: seq<Term>)
    requires DotLeading(d) && SLASH !in d && 0 !in d
    requires Names(bs) && Names(xs) && 0 !in Join(bs) && 0 !in Join(xs)
    requires req == d + [SLASH] + Join(xs) && |Join(bs)| + 4 + |req| < ID_LIMIT
    ensures Resolve(req, Some(Join(bs))) == Finished(Walk(bs[..|bs| - 1], [d] + xs))
  {
    CutOfClean(req);
    TermsAfter(req, d, Join(xs));
    TermsOfJoin(xs);
    RelativeToDirectory(req, bs);
  }

  // './x' replaces exactly the last component of the base with x.
  lemma SiblingReplacesLast(req: seq<Byte>, bs: seq<Term>, xs: seq<Term>)
    requires Names(bs) && Names(xs) && 0 !in Join(bs) && 0 !in Join(xs)
    requires req == [DOT] + [SLASH] + Join(xs) && |Join(bs)| + 4 + |req| < ID_LIMIT
    ensures Resolve(req, Some(Join(bs))) == Finished(Some(bs[..|bs| - 1] + xs))
  {
    DotIdResolves(req, [DOT], bs, xs);
    WalkHere(bs[..|bs| - 1], xs);
    WalkNames(bs[..|bs| - 1], xs);
  }

  lemma WalkAbove(up: Term, bs: seq<Term>, xs: seq<Term>)
    requires Names(xs) && IsUp(up) && bs != []
    ensures Walk(bs[..|bs| - 1], [up] + xs) == if |bs| == 1 then None else Some(bs[..|bs| - 2] + xs)
  {
    var dir := bs[..|bs| - 1];
    WalkUp(up, dir, xs);
    if |bs| > 1 {
      assert dir[..|dir| - 1] == bs[..|bs| - 2];
      WalkNames(bs[..|bs| - 2], xs);
    }
  }

  // '../x' climbs one directory further, and fails for a base without one.
  lemma ParentClimbs(req: seq<Byte>, up: Term, bs: seq<Term>, xs: seq<Term>)
    requires Names(bs) && Names(xs) && 0 !in Join(bs) && 0 !in Join(xs) && IsUp(up)
    requires req == up + [SLASH] + Join(xs) && |Join(bs)| + 4 + |req| < ID_LIMIT
    ensures Resolve(req, Some(Join(bs))) == Finished(if |bs| == 1 then None else Some(bs[..|bs| - 2] + xs))
  {
    DotIdResolves(req, up, bs, xs);
    WalkAbove(up, bs, xs);
  }
}
