// What a module identifier means, said of its text: terms between slashes, the
// level each of them leads to, and the names that are not climbed out of again.
module ModuleIdMeaning {
  import opened Octets
  import opened ModuleId
  import opened ModuleIdLaws

  // ------------------------------------------------------------------ terms

  predicate IsName(t: Term) {
    t != [] && t[0] != 46
  }

  // '.' and the empty term between two slashes stay where they are.
  predicate Stays(t: Term) {
    t == [] || (|t| == 1 && t[0] == 46)
  }

  predicate Climbs(t: Term) {
    |t| == 2 && t[0] == 46 && t[1] == 46
  }

  function LevelChange(t: Term): int {
    if IsName(t) then 1 else if Climbs(t) then -1 else 0
  }

  // The level that terms lead to.
  function Level(ts: seq<Term>): int {
    if ts == [] then 0 else LevelChange(ts[0]) + Level(ts[1..])
  }

  // No part of the way lies below level -room.
  ghost predicate NeverBelow(ts: seq<Term>, room: int) {
    forall k :: 0 <= k <= |ts| ==> room + Level(ts[..k]) >= 0
  }

  ghost predicate Resolvable(ts: seq<Term>) {
    && ts != [] && IsName(ts[|ts| - 1])
    && (forall k :: 0 <= k < |ts| ==> IsName(ts[k]) || Stays(ts[k]) || Climbs(ts[k]))
    && NeverBelow(ts, 0)
  }

  // The names that no later term climbs out of.
  ghost function Survivors(ts: seq<Term>): seq<Term> {
    if ts == [] then []
    else (if IsName(ts[0]) && NeverBelow(ts[1..], 0) then [ts[0]] else []) + Survivors(ts[1..])
  }

  // The terms with slashes between them.
  function Glue(ts: seq<Term>): seq<Byte> {
    if ts == [] then [] else if |ts| == 1 then ts[0] else ts[0] + [47] + Glue(ts[1..])
  }

  ghost predicate SplitsInto(s: seq<Byte>, ts: seq<Term>) {
    ts != [] && (forall k :: 0 <= k < |ts| ==> 47 !in ts[k]) && Glue(ts) == s
  }

  // Text s resolves to r: it has fewer than 256 bytes, no leading slash, and
  // terms that resolve; then the result is its surviving names, and its last.
  ghost predicate Means(s: seq<Byte>, r: Resolution) {
    exists ts :: SplitsInto(s, ts) && TermsMean(|s|, ts, r)
  }

  ghost predicate TermsMean(len: nat, ts: seq<Term>, r: Resolution)
    requires ts != []
  {
    if len < 256 && ts[0] != [] && Resolvable(ts) then r == Resolved(Glue(Survivors(ts)), ts[|ts| - 1])
    else r == CannotResolve
  }

  // ------------------------------------------------------- splitting a text

  lemma {:induction false} SplitOnce(s: seq<Byte>, ts: seq<Term>, us: seq<Term>)
    requires SplitsInto(s, ts) && SplitsInto(s, us)
    ensures ts == us
    decreases |ts|
  {
    FirstPart(ts);
    FirstPart(us);
    var n, m := |ts[0]|, |us[0]|;
    NoSlashBefore(s, ts[0]);
    NoSlashBefore(s, us[0]);
    assert n == m && ts[0] == s[..n] == us[0];
    if |ts| == 1 {
      assert ts == [ts[0]] && us == [us[0]];
    } else {
      assert Glue(ts[1..]) == s[n + 1..] == Glue(us[1..]);
      SplitOnce(s[n + 1..], ts[1..], us[1..]);
      assert ts == [ts[0]] + ts[1..] && us == [us[0]] + us[1..];
    }
  }

  lemma NoSlashBefore(s: seq<Byte>, t: Term)
    requires |t| <= |s| && s[..|t|] == t && 47 !in t
    ensures forall k :: 0 <= k < |t| ==> s[k] != 47
  {
    assert forall k :: 0 <= k < |t| ==> s[k] == t[k];
  }

  lemma FirstPart(ts: seq<Term>)
    requires ts != []
    ensures var s, n := Glue(ts), |ts[0]|;
      && n <= |s| && s[..n] == ts[0]
      && (|ts| == 1 <==> n == |s|)
      && (|ts| > 1 ==> s[n] == 47 && s[n + 1..] == Glue(ts[1..]))
  {
    if |ts| > 1 {
      assert Glue(ts) == ts[0] + ([47] + Glue(ts[1..]));
    }
  }

  lemma {:induction false} GluePush(c: Byte, ts: seq<Term>)
    requires ts != []
    ensures Glue(PushByte(c, ts)) == [c] + Glue(ts)
  {
    if c == SLASH {
      assert ([[]] + ts)[1..] == ts;
    } else if |ts| > 1 {
      assert ([[c] + ts[0]] + ts[1..])[1..] == ts[1..];
      assert [c] + ts[0] + [47] + Glue(ts[1..]) == [c] + (ts[0] + [47] + Glue(ts[1..]));
    }
  }

  lemma {:induction false} TermsSplit(s: seq<Byte>)
    ensures SplitsInto(s, Terms(s))
    ensures Terms(s)[0] == [] <==> s == [] || s[0] == 47
  {
    if s != [] {
      TermsSplit(s[1..]);
      GluePush(s[0], Terms(s[1..]));
      assert s == [s[0]] + s[1..];
    }
  }

  lemma {:induction false} JoinIsGlue(ts: seq<Term>)
    ensures Join(ts) == Glue(ts)
  {
    if |ts| > 1 { JoinIsGlue(ts[1..]); }
  }

  // ------------------------------------------------------------ the walk

  // How far below their start the terms lead.
  function Drop(ts: seq<Term>): nat {
    if ts == [] then 0
    else
      var d := Drop(ts[1..]) - LevelChange(ts[0]);
      if d < 0 then 0 else d
  }

  lemma {:induction false} DropExactly(ts: seq<Term>, room: int)
    ensures Drop(ts) <= room <==> NeverBelow(ts, room)
  {
    if ts != [] {
      var rest, next := ts[1..], room + LevelChange(ts[0]);
      DropExactly(rest, next);
      forall k | 0 < k <= |ts| ensures Level(ts[..k]) == LevelChange(ts[0]) + Level(rest[..k - 1]) {
        assert ts[..k][1..] == rest[..k - 1];
      }
      if NeverBelow(ts, room) {
        assert room + Level(ts[..0]) >= 0;
        forall k | 0 <= k <= |rest| ensures next + Level(rest[..k]) >= 0 {
          assert room + Level(ts[..k + 1]) >= 0;
        }
      }
      if Drop(ts) <= room {
        forall k | 0 <= k <= |ts| ensures room + Level(ts[..k]) >= 0 {
          if k > 0 { assert next + Level(rest[..k - 1]) >= 0; }
        }
      }
    } else if room >= 0 {
      assert NeverBelow(ts, room);
    } else {
      assert room + Level(ts[..0]) < 0;
    }
  }

  ghost predicate LastIsName(ts: seq<Term>) {
    && ts != [] && IsName(ts[|ts| - 1])
    && (forall k :: 0 <= k < |ts| ==> IsName(ts[k]) || Stays(ts[k]) || Climbs(ts[k]))
  }

  lemma LastIsNameStep(ts: seq<Term>)
    requires |ts| > 1
    ensures LastIsName(ts) <==> (IsName(ts[0]) || Stays(ts[0]) || Climbs(ts[0])) && LastIsName(ts[1..])
  {
    assert forall k :: 1 <= k < |ts| ==> ts[k] == ts[1..][k - 1];
    if LastIsName(ts) {
      assert forall k :: 0 <= k < |ts[1..]| ==> ts[1..][k] == ts[k + 1];
    }
  }

  // A name pushed on the stack survives if nothing climbs out of it.
  lemma NameOnStack(stack: seq<Term>, t: Term, drop: nat, names: seq<Term>)
    ensures drop == 0 ==> (stack + [t])[..|stack| + 1] + names == stack[..|stack|] + ([t] + names)
    ensures 0 < drop <= |stack| + 1 ==> (stack + [t])[..|stack| + 1 - drop] == stack[..|stack| + 1 - drop]
  {
  }

  // Below the top of the stack.
  lemma StackBelow(stack: seq<Term>, drop: nat)
    requires stack != []
    ensures drop < |stack| ==> stack[..|stack| - 1][..|stack| - 1 - drop] == stack[..|stack| - (drop + 1)]
  {
  }

  lemma SurvivorsStep(ts: seq<Term>)
    requires |ts| > 1
    ensures var t, rest := ts[0], ts[1..];
      && (LastIsName(ts) <==> (IsName(t) || Stays(t) || Climbs(t)) && LastIsName(rest))
      && (Stays(t) ==> Survivors(ts) == Survivors(rest) && Drop(ts) == Drop(rest))
      && (Climbs(t) ==> Survivors(ts) == Survivors(rest) && Drop(ts) == Drop(rest) + 1)
      && (IsName(t) && Drop(rest) == 0 ==> Survivors(ts) == [t] + Survivors(rest) && Drop(ts) == 0)
      && (IsName(t) && Drop(rest) > 0 ==> Survivors(ts) == Survivors(rest) && Drop(ts) == Drop(rest) - 1)
  {
    LastIsNameStep(ts);
    DropExactly(ts[1..], 0);
  }

  lemma WalkStep(stack: seq<Term>, ts: seq<Term>)
    requires |ts| > 1
    ensures var t, rest := ts[0], ts[1..];
      && (Stays(t) ==> Walk(stack, ts) == Walk(stack, rest))
      && (Climbs(t) ==> Walk(stack, ts) == if stack == [] then None else Walk(stack[..|stack| - 1], rest))
      && (IsName(t) ==> Walk(stack, ts) == Walk(stack + [t], rest))
      && (!IsName(t) && !Stays(t) && !Climbs(t) ==> Walk(stack, ts) == None)
  {
    var t := ts[0];
    if Stays(t) { assert t == [] || t == [DOT]; }
    if Climbs(t) { assert t == [DOT, DOT]; }
  }

  // What a walk from this stack keeps.
  ghost function Kept(stack: seq<Term>, ts: seq<Term>): Option<seq<Term>> {
    if LastIsName(ts) && Drop(ts) <= |stack| then Some(stack[..|stack| - Drop(ts)] + Survivors(ts)) else None
  }

  lemma KeptThroughName(stack: seq<Term>, ts: seq<Term>)
    requires |ts| > 1 && IsName(ts[0])
    ensures Kept(stack, ts) == Kept(stack + [ts[0]], ts[1..])
  {
    SurvivorsStep(ts);
    NameOnStack(stack, ts[0], Drop(ts[1..]), Survivors(ts[1..]));
  }

  lemma KeptThroughClimb(stack: seq<Term>, ts: seq<Term>)
    requires |ts| > 1 && Climbs(ts[0])
    ensures Kept(stack, ts) == if stack == [] then None else Kept(stack[..|stack| - 1], ts[1..])
  {
    SurvivorsStep(ts);
    if stack != [] { StackBelow(stack, Drop(ts[1..])); }
  }

  // The walk succeeds when the terms resolve, and keeps the survivors, on top of
  // what they do not climb out of.
  lemma {:induction false} WalkKeepsSurvivors(stack: seq<Term>, ts: seq<Term>)
    requires ts != []
    ensures Walk(stack, ts) == Kept(stack, ts)
    decreases |ts|
  {
    if |ts| == 1 {
      WalkLast(stack, ts);
    } else {
      WalkStep(stack, ts);
      if Climbs(ts[0]) {
        KeptThroughClimb(stack, ts);
        if stack != [] { WalkKeepsSurvivors(stack[..|stack| - 1], ts[1..]); }
      } else if IsName(ts[0]) {
        KeptThroughName(stack, ts);
        WalkKeepsSurvivors(stack + [ts[0]], ts[1..]);
      } else {
        SurvivorsStep(ts);
        if Stays(ts[0]) { WalkKeepsSurvivors(stack, ts[1..]); }
      }
    }
  }

  lemma WalkLast(stack: seq<Term>, ts: seq<Term>)
    requires |ts| == 1
    ensures Walk(stack, ts) == Kept(stack, ts)
  {
    OneTerm(ts);
    if IsName(ts[0]) {
      assert stack[..|stack| - 0] == stack;
      assert Walk(stack, ts) == Some(stack + [ts[0]]);
    } else {
      assert Walk(stack, ts) == None;
    }
  }

  lemma OneTerm(ts: seq<Term>)
    requires |ts| == 1
    ensures LastIsName(ts) <==> IsName(ts[0])
    ensures IsName(ts[0]) ==> Drop(ts) == 0 && Survivors(ts) == [ts[0]]
  {
    DropExactly([], 0);
    assert ts[1..] == [] && Survivors(ts[1..]) == [] && Drop(ts[1..]) == 0;
  }

  // Every text has one resolution, which says what it means.
  lemma NormaliseMeans(s: seq<Byte>)
    ensures Means(s, if |s| >= ID_LIMIT then CannotResolve else Normalise(s))
  {
    var ts := Terms(s);
    TermsSplit(s);
    WalkMeans(|s|, ts, if |s| >= ID_LIMIT then CannotResolve else Normalise(s));
  }

  lemma WalkMeans(len: nat, ts: seq<Term>, r: Resolution)
    requires ts != []
    requires r == if len >= ID_LIMIT || ts[0] == [] then CannotResolve else Finished(Walk([], ts))
    ensures TermsMean(len, ts, r)
  {
    WalkKeepsSurvivors([], ts);
    KeptFromRoot(ts);
    JoinIsGlue(Survivors(ts));
  }

  lemma KeptFromRoot(ts: seq<Term>)
    requires ts != []
    ensures Kept([], ts) == if Resolvable(ts) then Some(Survivors(ts)) else None
    ensures Resolvable(ts) ==> Survivors(ts) != [] && Survivors(ts)[|Survivors(ts)| - 1] == ts[|ts| - 1]
  {
    DropExactly(ts, 0);
    var root: seq<Term>, names := [], Survivors(ts);
    assert root[..0] + names == names;
    assert Resolvable(ts) <==> LastIsName(ts) && NeverBelow(ts, 0);
    if LastIsName(ts) { LastSurvives(ts); }
  }

  lemma {:induction false} LastSurvives(ts: seq<Term>)
    requires LastIsName(ts)
    ensures Survivors(ts) != [] && Survivors(ts)[|Survivors(ts)| - 1] == ts[|ts| - 1]
  {
    if |ts| == 1 {
      DropExactly(ts[1..], 0);
    } else {
      LastIsNameStep(ts);
      LastSurvives(ts[1..]);
    }
  }

  // Without a base, and for an id that does not start with a period, the text is
  // the id up to its first NUL.
  lemma PlainIdMeans(req: seq<Byte>, base: Option<seq<Byte>>)
    requires base == None || Cut(req) == [] || Cut(req)[0] != 46
    ensures Means(Cut(req), Resolve(req, base))
  {
    NormaliseMeans(Cut(req));
  }

  // Otherwise it is the id taken against the directory of its base.
  lemma RelativeIdMeans(req: seq<Byte>, base: seq<Byte>)
    requires Cut(req) != [] && Cut(req)[0] == 46
    ensures Means(Cut(base) + [47, 46, 46, 47] + Cut(req), Resolve(req, Some(base)))
  {
    NormaliseMeans(Cut(base) + [47, 46, 46, 47] + Cut(req));
  }

  // One text means one thing.
  lemma MeansOnce(s: seq<Byte>, r: Resolution, q: Resolution)
    requires Means(s, r) && Means(s, q)
    ensures r == q
  {
    var ts :| SplitsInto(s, ts) && TermsMean(|s|, ts, r);
    var us :| SplitsInto(s, us) && TermsMean(|s|, us, q);
    SplitOnce(s, ts, us);
    TermsMeanOnce(|s|, ts, r, q);
  }

  lemma TermsMeanOnce(len: nat, ts: seq<Term>, r: Resolution, q: Resolution)
    requires ts != [] && TermsMean(len, ts, r) && TermsMean(len, ts, q)
    ensures r == q
  {
  }

  // The base plays no part for an id without a leading period.
  lemma PlainIdIgnoresBase(req: seq<Byte>, base: seq<Byte>)
    requires Cut(req) == [] || Cut(req)[0] != 46
    ensures Resolve(req, Some(base)) == Resolve(req, None)
  {
    PlainIdMeans(req, Some(base));
    PlainIdMeans(req, None);
    MeansOnce(Cut(req), Resolve(req, Some(base)), Resolve(req, None));
  }

  // Nor does anything behind a NUL.
  lemma NulEndsId(req: seq<Byte>, more: seq<Byte>, base: Option<seq<Byte>>)
    ensures Resolve(req + [0] + more, base) == Resolve(req, base)
  {
    CutBeforeNul(req, more);
  }

  lemma {:induction false} CutBeforeNul(s: seq<Byte>, more: seq<Byte>)
    ensures Cut(s + [0] + more) == Cut(s)
  {
    if s != [] && s[0] != 0 {
      assert (s + [0] + more)[1..] == s[1..] + [0] + more;
      CutBeforeNul(s[1..], more);
    }
  }

  // './x' from global code, where there is no base, is x.
  lemma HereWithoutBase(req: seq<Byte>, xs: seq<Term>)
    requires Names(xs) && 0 !in Join(xs) && |Join(xs)| + 2 < 256
    requires req == [46, 47] + Join(xs)
    ensures Resolve(req, None) == Resolved(Join(xs), xs[|xs| - 1])
  {
    CutOfClean(req);
    assert req == [DOT] + [SLASH] + Join(xs);
    TermsAfter(req, [DOT], Join(xs));
    TermsOfJoin(xs);
    WalkHere([], xs);
    WalkNames([], xs);
    assert [] + xs == xs;
  }
}
