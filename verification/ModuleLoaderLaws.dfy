// Every run of nested and circular requires: one load at a time per id, early
// registration, and exact cleanup after failures.
module ModuleLoaderLaws {
  import opened Octets
  import opened ModuleId
  import opened ModuleLoader

  // ----------------------------------------------------------- histories

  datatype Status = Absent | Loading | Loaded

  function StatusAfter(before: Status, e: Event, id: Id): Status {
    if e.id != id || e.Hit? then before
    else if e.Begin? then Loading else if e.Done? then Loaded else Absent
  }

  // What the history says about id.
  function StatusOf(log: seq<Event>, id: Id): Status {
    if log == [] then Absent else StatusAfter(StatusOf(log[..|log| - 1], id), log[|log| - 1], id)
  }

  // Loads under way, the innermost last.
  function Open(log: seq<Event>): seq<Id> {
    if log == [] then []
    else
      var e, open := log[|log| - 1], Open(log[..|log| - 1]);
      if e.Begin? then open + [e.id]
      else if e.Hit? || open == [] then open
      else open[..|open| - 1]
  }

  // A load begins only for an id that is not registered, a load that ends is
  // the innermost one, and a hit finds a registered id.
  predicate LegalEvent(log: seq<Event>, e: Event) {
    match e
    case Begin(id) => StatusOf(log, id) == Absent
    case Hit(id) => StatusOf(log, id) != Absent
    case _ =>
      var open := Open(log);
      open != [] && open[|open| - 1] == e.id && StatusOf(log, e.id) == Loading
  }

  ghost predicate Legal(log: seq<Event>) {
    forall k :: 0 <= k < |log| ==> LegalEvent(log[..k], log[k])
  }

  // The cache holds exactly the ids that are loading or loaded.
  ghost predicate Cached(s: State, id: Id) {
    id in s.loaded <==> StatusOf(s.log, id) != Absent
  }

  ghost predicate Tracked(s: State) {
    Legal(s.log) && WellFormed(s) && forall id :: Cached(s, id)
  }

  // What was registered keeps its status; what is new has completed.
  ghost predicate Settled(s: State, s': State, id: Id) {
    && (id in s.loaded ==> StatusOf(s'.log, id) == StatusOf(s.log, id))
    && (id !in s.loaded && id in s'.loaded ==> StatusOf(s'.log, id) == Loaded)
  }

  ghost predicate Progress(s: State, s': State) {
    Tracked(s') && Extends(s, s') && Open(s'.log) == Open(s.log) && forall id :: Settled(s, s', id)
  }

  lemma NoteStep(log: seq<Event>, e: Event)
    ensures (log + [e])[..|log|] == log
    ensures Legal(log) && LegalEvent(log, e) ==> Legal(log + [e])
    ensures forall id :: StatusOf(log + [e], id) == StatusAfter(StatusOf(log, id), e, id)
  {
    var l := log + [e];
    assert l[..|log|] == log;
    if Legal(log) && LegalEvent(log, e) {
      forall k | 0 <= k < |l| ensures LegalEvent(l[..k], l[k]) {
        assert k < |log| ==> l[..k] == log[..k];
      }
    }
  }

  lemma ProgressTrans(s: State, t: State, u: State)
    requires Tracked(s) && Progress(s, t) && Progress(t, u)
    ensures Progress(s, u)
  {
    forall id ensures Settled(s, u, id) {
      assert Settled(s, t, id) && Settled(t, u, id);
    }
    forall id | id in s.loaded ensures id in u.loaded && u.loaded[id] == s.loaded[id] {
      assert id in t.loaded;
    }
  }

  lemma SelfProgress(s: State)
    requires Tracked(s)
    ensures Progress(s, s)
  {
    forall id ensures Settled(s, s, id) {
      assert Cached(s, id);
    }
  }

  lemma RegisterTracked(s: State, id: Id)
    requires Tracked(s) && id !in s.loaded
    ensures Tracked(Register(s, id)) && Open(Register(s, id).log) == Open(s.log) + [id]
  {
    var s1 := Register(s, id);
    assert Cached(s, id);
    NoteStep(s.log, Begin(id));
    forall k ensures Cached(s1, k) {
      assert Cached(s, k);
    }
  }

  // What happened inside a load leaves all other ids settled.
  lemma SettledInside(s: State, id: Id, s2: State, k: Id)
    requires Tracked(s) && id !in s.loaded && Progress(Register(s, id), s2) && k != id
    ensures k in s.loaded ==> StatusOf(s2.log, k) == StatusOf(s.log, k)
    ensures k !in s.loaded && k in s2.loaded ==> StatusOf(s2.log, k) == Loaded
  {
    NoteStep(s.log, Begin(id));
    assert Settled(Register(s, id), s2, k);
  }

  // The load of id that began after s is the innermost one, and still open.
  lemma StillLoading(s: State, id: Id, s2: State)
    requires Tracked(s) && id !in s.loaded && Progress(Register(s, id), s2)
    ensures Open(s2.log) == Open(s.log) + [id] && StatusOf(s2.log, id) == Loading
  {
    RegisterTracked(s, id);
    NoteStep(s.log, Begin(id));
    assert Settled(Register(s, id), s2, id) && id in Register(s, id).loaded;
  }

  // It may end now.
  lemma EndIsLegal(s: State, id: Id, s2: State, e: Event)
    requires Tracked(s) && id !in s.loaded && Progress(Register(s, id), s2)
    requires e == Done(id) || e == Failed(id)
    ensures Legal(s2.log + [e]) && Open(s2.log + [e]) == Open(s.log)
    ensures forall k :: StatusOf(s2.log + [e], k) == StatusAfter(StatusOf(s2.log, k), e, k)
    ensures forall k :: k != id && k in s.loaded ==> StatusOf(s2.log, k) == StatusOf(s.log, k)
    ensures forall k :: k != id && k !in s.loaded && k in s2.loaded ==> StatusOf(s2.log, k) == Loaded
  {
    StillLoading(s, id, s2);
    NoteStep(s2.log, e);
    forall k | k != id
      ensures k in s.loaded ==> StatusOf(s2.log, k) == StatusOf(s.log, k)
      ensures k !in s.loaded && k in s2.loaded ==> StatusOf(s2.log, k) == Loaded
    {
      SettledInside(s, id, s2, k);
    }
  }

  lemma DoneProgress(s: State, id: Id, s2: State)
    requires Tracked(s) && id !in s.loaded && Progress(Register(s, id), s2)
    ensures Progress(s, Note(s2, Done(id))) && id in s2.loaded
  {
    var r := Note(s2, Done(id));
    EndIsLegal(s, id, s2, Done(id));
    LoadExtends(s, id, s2, Done(id));
    assert id in Register(s, id).loaded;
    forall k ensures Cached(r, k) && Settled(s, r, k) {
      assert Cached(s2, k);
    }
  }

  lemma FailedProgress(s: State, id: Id, s2: State)
    requires Tracked(s) && id !in s.loaded && Progress(Register(s, id), s2)
    ensures Progress(s, Note(s2.(loaded := s2.loaded - {id}), Failed(id)))
  {
    var r := Note(s2.(loaded := s2.loaded - {id}), Failed(id));
    EndIsLegal(s, id, s2, Failed(id));
    LoadExtends(s, id, s2, Failed(id));
    forall k ensures Cached(r, k) && Settled(s, r, k) {
      assert Cached(s2, k);
    }
  }

  // ------------------------------------------------ every run makes progress

  lemma RequireProgress(world: World, depth: nat, busy: set<Id>, s: State, base: Option<Id>, req: seq<Byte>)
    requires Ready(world, busy, s) && Tracked(s)
    ensures Progress(s, RequireS(world, depth, busy, s, base, req).0)
    decreases depth, |world.defs.Keys - busy|, 0, 5
  {
    AskProgress(world, depth, busy, s, base, req);
    var (s1, error) := AskS(world, depth, busy, s, base, req);
    if error.None? {
      ResolvedProgress(world, depth, busy, s1, base, req);
      ProgressTrans(s, s1, ResolvedS(world, depth, busy, s1, base, req).0);
    }
  }

  lemma ResolvedProgress(world: World, depth: nat, busy: set<Id>, s: State, base: Option<Id>, req: seq<Byte>)
    requires Ready(world, busy, s) && Tracked(s)
    ensures Progress(s, ResolvedS(world, depth, busy, s, base, req).0)
    decreases depth, |world.defs.Keys - busy|, 0, 3
  {
    SelfProgress(s);
    match world.resolve(req, base)
    case CannotResolve =>
    case Resolved(id, _) => RequireIdProgress(world, depth, busy, s, id);
  }

  lemma AskProgress(world: World, depth: nat, busy: set<Id>, s: State, base: Option<Id>, req: seq<Byte>)
    requires Ready(world, busy, s) && Tracked(s)
    ensures Progress(s, AskS(world, depth, busy, s, base, req).0)
    decreases depth, |world.defs.Keys - busy|, 0, 4
  {
    SelfProgress(s);
    var steps := world.asks(req, base);
    if steps != [] && depth > 0 { StepsProgress(world, depth - 1, busy, s, steps); }
  }

  lemma {:induction false} StepsProgress(world: World, depth: nat, busy: set<Id>, s: State, steps: seq<Step>)
    requires Ready(world, busy, s) && Tracked(s)
    ensures Progress(s, StepsS(world, depth, busy, s, steps).0)
    decreases depth, |world.defs.Keys - busy|, 4, |steps|, 0
  {
    SelfProgress(s);
    if steps != [] {
      match steps[0]
      case Throw(_) =>
      case SetExports(_) => StepsProgress(world, depth, busy, s, steps[1..]);
      case Require(req) => ThenStepsProgress(world, depth, busy, s, req, steps[1..]);
      case TryRequire(req) => ThenStepsProgress(world, depth, busy, s, req, steps[1..]);
    }
  }

  lemma ThenStepsProgress(world: World, depth: nat, busy: set<Id>, s: State, req: seq<Byte>, steps: seq<Step>)
    requires Ready(world, busy, s) && Tracked(s)
    ensures var s1 := RequireS(world, depth, busy, s, None, req).0;
      Progress(s, s1) && Progress(s, StepsS(world, depth, busy, s1, steps).0)
    decreases depth, |world.defs.Keys - busy|, 4, |steps|, 1
  {
    RequireProgress(world, depth, busy, s, None, req);
    var s1 := RequireS(world, depth, busy, s, None, req).0;
    StepsProgress(world, depth, busy, s1, steps);
    ProgressTrans(s, s1, StepsS(world, depth, busy, s1, steps).0);
  }

  lemma RequireIdProgress(world: World, depth: nat, busy: set<Id>, s: State, id: Id)
    requires Ready(world, busy, s) && Tracked(s)
    ensures Progress(s, RequireIdS(world, depth, busy, s, id).0)
    decreases depth, |world.defs.Keys - busy|, 0, 2
  {
    var key := Key(world, id);
    if key in s.loaded { HitProgress(s, key); } else { LoadProgress(world, depth, busy, s, id); }
  }

  lemma HitProgress(s: State, id: Id)
    requires Tracked(s) && id in s.loaded
    ensures Progress(s, Note(s, Hit(id)))
  {
    assert Cached(s, id);
    NoteStep(s.log, Hit(id));
    var r := Note(s, Hit(id));
    forall k ensures Cached(r, k) && Settled(s, r, k) {
      assert Cached(s, k);
    }
  }

  // A load that throws leaves exactly its own key unregistered; one that
  // returns leaves it registered.
  lemma {:induction false} LoadProgress(world: World, depth: nat, busy: set<Id>, s: State, id: Id)
    requires Ready(world, busy, s) && Tracked(s) && Key(world, id) !in s.loaded
    ensures var (s', r) := LoadS(world, depth, busy, s, id);
      Progress(s, s') && (Key(world, id) in s'.loaded <==> r.Returned?)
    decreases depth, |world.defs.Keys - busy|, 0, 1
  {
    RunModuleProgress(world, depth, busy, s, id);
    var key, r2 := Key(world, id), RunModuleS(world, depth, busy, s, id);
    if r2.1.Threw? { FailedProgress(s, key, r2.0); } else { DoneProgress(s, key, r2.0); }
  }

  lemma {:induction false} RunModuleProgress(world: World, depth: nat, busy: set<Id>, s: State, id: Id)
    requires Ready(world, busy, s) && Tracked(s) && Key(world, id) !in s.loaded
    ensures Progress(Register(s, Key(world, id)), RunModuleS(world, depth, busy, s, id).0)
    decreases depth, |world.defs.Keys - busy|, 0, 0
  {
    var key := Key(world, id);
    RegisterTracked(s, key);
    var m, s1 := |s.modules|, Register(s, key);
    if id in world.defs {
      OneMoreBusy(world, busy, id);
      RunProgress(world, depth, busy + {id}, s1, m, key, world.defs[id].search);
      var r2 := RunS(world, depth, busy + {id}, s1, m, key, world.defs[id].search);
      if r2.1.Returned? {
        EvaluateProgress(world, depth, busy + {id}, r2.0, m, id);
        ProgressTrans(s1, r2.0, EvaluateS(world, depth, busy + {id}, r2.0, m, id).0);
      }
    }
  }

  lemma {:induction false} EvaluateProgress(world: World, depth: nat, busy: set<Id>, s: State, m: nat, id: Id)
    requires Ready(world, busy, s) && Tracked(s) && m < |s.modules| && id in world.defs
    ensures Progress(s, EvaluateS(world, depth, busy, s, m, id).0)
    decreases depth, |world.defs.Keys - busy|, 3, 0
  {
    SelfProgress(s);
    if world.defs[id].source.Body? {
      RunBodyProgress(world, depth, busy, s, m, Key(world, id), world.defs[id].source.steps);
    }
  }

  // The contents of module tables play no part in the bookkeeping.
  lemma ModulesProgress(s: State, t: State, modules: seq<Module>)
    requires Tracked(s) && Progress(s, t)
    requires |modules| == |t.modules| && forall k :: 0 <= k < |modules| ==> modules[k].id == t.modules[k].id
    ensures Progress(s, t.(modules := modules))
  {
    var u := t.(modules := modules);
    forall k ensures Cached(u, k) && Settled(s, u, k) {
      assert Cached(t, k) && Settled(s, t, k);
    }
  }

  lemma {:induction false} RunBodyProgress(world: World, depth: nat, busy: set<Id>, s: State, m: nat, id: Id,
      steps: seq<Step>)
    requires Ready(world, busy, s) && Tracked(s) && m < |s.modules|
    ensures Progress(s, RunBodyS(world, depth, busy, s, m, id, steps).0)
    decreases depth, |world.defs.Keys - busy|, 2, 0
  {
    RunProgress(world, depth, busy, s, m, id, steps);
    var t := RunS(world, depth, busy, s, m, id, steps).0;
    ModulesProgress(s, t, MarkLoaded(t, m).modules);
  }

  lemma {:induction false} RunProgress(world: World, depth: nat, busy: set<Id>, s: State, m: nat, id: Id,
      steps: seq<Step>)
    requires Ready(world, busy, s) && Tracked(s) && m < |s.modules|
    ensures Progress(s, RunS(world, depth, busy, s, m, id, steps).0)
    decreases depth, |world.defs.Keys - busy|, 1, |steps|
  {
    if steps != [] {
      match steps[0]
      case Throw(_) =>
      case SetExports(v) =>
        var s1 := s.(modules := s.modules[m := s.modules[m].(exports := Assigned(v))]);
        SelfProgress(s);
        ModulesProgress(s, s, s1.modules);
        RunProgress(world, depth, busy, s1, m, id, steps[1..]);
        ProgressTrans(s, s1, RunS(world, depth, busy, s1, m, id, steps[1..]).0);
      case Require(req) =>
        RequireProgress(world, depth, busy, s, Some(id), req);
        var r1 := RequireS(world, depth, busy, s, Some(id), req);
        if r1.1.Returned? {
          RunProgress(world, depth, busy, r1.0, m, id, steps[1..]);
          ProgressTrans(s, r1.0, RunS(world, depth, busy, r1.0, m, id, steps[1..]).0);
        }
      case TryRequire(req) =>
        RequireProgress(world, depth, busy, s, Some(id), req);
        var s1 := RequireS(world, depth, busy, s, Some(id), req).0;
        RunProgress(world, depth, busy, s1, m, id, steps[1..]);
        ProgressTrans(s, s1, RunS(world, depth, busy, s1, m, id, steps[1..]).0);
    }
  }

  // ------------------------------------------- what legal histories exclude

  lemma LoadedOnlyHits(log: seq<Event>, e: Event, id: Id)
    requires LegalEvent(log, e) && StatusOf(log, id) == Loaded
    ensures StatusAfter(Loaded, e, id) == Loaded && e != Begin(id)
  {
  }

  lemma StatusStep(log: seq<Event>, j: nat, id: Id)
    requires 0 < j <= |log|
    ensures StatusOf(log[..j], id) == StatusAfter(StatusOf(log[..j - 1], id), log[j - 1], id)
  {
    assert log[..j][..j - 1] == log[..j - 1];
  }

  // Once completed, always completed.
  lemma {:induction false} LoadedForever(log: seq<Event>, i: nat, j: nat, id: Id)
    requires Legal(log) && i <= j <= |log| && StatusOf(log[..i], id) == Loaded
    ensures StatusOf(log[..j], id) == Loaded
  {
    if i < j {
      LoadedForever(log, i, j - 1, id);
      LoadedOnlyHits(log[..j - 1], log[j - 1], id);
      StatusStep(log, j, id);
    }
  }

  // A module that has completed is never loaded again.
  lemma CompletedNeverReloads(log: seq<Event>, i: nat, j: nat, id: Id)
    requires Legal(log) && i < j < |log| && log[i] == Done(id)
    ensures log[j] != Begin(id)
  {
    assert log[..i + 1][..i] == log[..i];
    LoadedForever(log, i + 1, j, id);
    LoadedOnlyHits(log[..j], log[j], id);
  }

  lemma {:induction false} FindFailure(log: seq<Event>, i: nat, j: nat, id: Id) returns (k: nat)
    requires i < j <= |log| && StatusOf(log[..i], id) != Absent && StatusOf(log[..j], id) == Absent
    ensures i <= k < j && log[k] == Failed(id)
  {
    StatusStep(log, j, id);
    if StatusOf(log[..j - 1], id) == Absent {
      k := FindFailure(log, i, j - 1, id);
    } else {
      k := j - 1;
    }
  }

  // Between two loads of one id the first has failed: loads of one id never overlap.
  lemma LoadsNeverOverlap(log: seq<Event>, i: nat, j: nat, id: Id) returns (k: nat)
    requires Legal(log) && i < j < |log| && log[i] == log[j] == Begin(id)
    ensures i < k < j && log[k] == Failed(id)
  {
    assert log[..i + 1][..i] == log[..i];
    assert LegalEvent(log[..j], log[j]);
    k := FindFailure(log, i + 1, j, id);
  }

  // ------------------------------------------------- exports and identity

  // No module table but m changes.
  ghost predicate SameModules(s: State, s': State, m: nat) {
    |s.modules| <= |s'.modules| && forall k :: 0 <= k < |s.modules| && k != m ==> SameTable(s, s', k)
  }

  ghost predicate SameTable(s: State, s': State, k: nat) {
    k < |s.modules| <= |s'.modules| && s'.modules[k] == s.modules[k]
  }

  lemma SameModulesTrans(s: State, t: State, u: State, m: nat)
    requires SameModules(s, t, m) && SameModules(t, u, m)
    ensures SameModules(s, u, m)
  {
    forall k | 0 <= k < |s.modules| && k != m ensures SameTable(s, u, k) {
      assert SameTable(s, t, k) && SameTable(t, u, k);
    }
  }

  // Loading touches no module table that existed before, whether its module is
  // completed or still under way.
  lemma {:induction false} RequireKeepsModules(world: World, depth: nat, busy: set<Id>, s: State, base: Option<Id>,
      req: seq<Byte>)
    requires Ready(world, busy, s)
    ensures SameModules(s, RequireS(world, depth, busy, s, base, req).0, |s.modules|)
    decreases depth, |world.defs.Keys - busy|, 0, 5
  {
    AskKeepsModules(world, depth, busy, s, base, req);
    var (s1, error) := AskS(world, depth, busy, s, base, req);
    if error.None? {
      ResolvedKeepsModules(world, depth, busy, s1, base, req);
      SameModulesStep(s, s1, ResolvedS(world, depth, busy, s1, base, req).0);
    }
  }

  lemma ResolvedKeepsModules(world: World, depth: nat, busy: set<Id>, s: State, base: Option<Id>, req: seq<Byte>)
    requires Ready(world, busy, s)
    ensures SameModules(s, ResolvedS(world, depth, busy, s, base, req).0, |s.modules|)
    decreases depth, |world.defs.Keys - busy|, 0, 3
  {
    match world.resolve(req, base)
    case CannotResolve =>
    case Resolved(id, _) => if Key(world, id) !in s.loaded { LoadKeepsModules(world, depth, busy, s, id); }
  }

  lemma AskKeepsModules(world: World, depth: nat, busy: set<Id>, s: State, base: Option<Id>, req: seq<Byte>)
    requires Ready(world, busy, s)
    ensures SameModules(s, AskS(world, depth, busy, s, base, req).0, |s.modules|)
    decreases depth, |world.defs.Keys - busy|, 0, 4
  {
    var steps := world.asks(req, base);
    if steps != [] && depth > 0 { StepsKeepModules(world, depth - 1, busy, s, steps); }
  }

  lemma {:induction false} StepsKeepModules(world: World, depth: nat, busy: set<Id>, s: State, steps: seq<Step>)
    requires Ready(world, busy, s)
    ensures SameModules(s, StepsS(world, depth, busy, s, steps).0, |s.modules|)
    decreases depth, |world.defs.Keys - busy|, 4, |steps|, 0
  {
    if steps != [] {
      match steps[0]
      case Throw(_) =>
      case SetExports(_) => StepsKeepModules(world, depth, busy, s, steps[1..]);
      case Require(req) => ThenStepsKeepModules(world, depth, busy, s, req, steps[1..]);
      case TryRequire(req) => ThenStepsKeepModules(world, depth, busy, s, req, steps[1..]);
    }
  }

  lemma ThenStepsKeepModules(world: World, depth: nat, busy: set<Id>, s: State, req: seq<Byte>, steps: seq<Step>)
    requires Ready(world, busy, s)
    ensures var s1 := RequireS(world, depth, busy, s, None, req).0;
      SameModules(s, s1, |s.modules|) && SameModules(s, StepsS(world, depth, busy, s1, steps).0, |s.modules|)
    decreases depth, |world.defs.Keys - busy|, 4, |steps|, 1
  {
    RequireKeepsModules(world, depth, busy, s, None, req);
    var s1 := RequireS(world, depth, busy, s, None, req).0;
    StepsKeepModules(world, depth, busy, s1, steps);
    SameModulesStep(s, s1, StepsS(world, depth, busy, s1, steps).0);
  }

  lemma LoadKeepsModules(world: World, depth: nat, busy: set<Id>, s: State, id: Id)
    requires Ready(world, busy, s) && Key(world, id) !in s.loaded
    ensures SameModules(s, LoadS(world, depth, busy, s, id).0, |s.modules|)
    decreases depth, |world.defs.Keys - busy|, 0, 1
  {
    RunModuleKeepsModules(world, depth, busy, s, id);
    var t, u := RunModuleS(world, depth, busy, s, id).0, LoadS(world, depth, busy, s, id).0;
    assert u.modules == t.modules;
    assert forall k :: SameTable(s, t, k) ==> SameTable(s, u, k);
  }

  // What a run of module m leaves of its own table.
  ghost predicate OwnTable(s: State, s': State, m: nat) {
    m < |s.modules| <= |s'.modules| && s'.modules[m].id == s.modules[m].id
      && s'.modules[m].loaded == s.modules[m].loaded
  }

  // A module is marked loaded exactly when a Node-style load has completed its body.
  lemma {:induction false} RunModuleKeepsModules(world: World, depth: nat, busy: set<Id>, s: State, id: Id)
    requires Ready(world, busy, s) && Key(world, id) !in s.loaded
    ensures var (s', r) := RunModuleS(world, depth, busy, s, id);
      && SameModules(s, s', |s.modules|)
      && s'.modules[|s.modules|].id == Key(world, id)
      && (s'.modules[|s.modules|].loaded <==> Marks(world, id, r))
    decreases depth, |world.defs.Keys - busy|, 0, 0
  {
    RunModuleEvaluates(world, depth, busy, s, Register(s, Key(world, id)), id);
    SameThroughRegister(s, Key(world, id), RunModuleS(world, depth, busy, s, id).0);
  }

  // The load completed a body, under the Node-style loader.
  ghost predicate Marks(world: World, id: Id, r: Outcome) {
    r.Returned? && world.kind.NodeStyle? && id in world.defs && world.defs[id].source.Body?
  }

  lemma {:induction false} RunModuleEvaluates(world: World, depth: nat, busy: set<Id>, s: State, s1: State, id: Id)
    requires Ready(world, busy, s) && Key(world, id) !in s.loaded && s1 == Register(s, Key(world, id))
    ensures var (u, r) := RunModuleS(world, depth, busy, s, id);
      SameModules(s1, u, |s.modules|) && Evaluated(s1, u, |s.modules|, Marks(world, id, r))
    decreases depth, |world.defs.Keys - busy|, 0, 0, 0
  {
    var m, key := |s.modules|, Key(world, id);
    RegisterReady(world, busy, s, id);
    if id in world.defs {
      OneMoreBusy(world, busy, id);
      RunKeepsModules(world, depth, busy + {id}, s1, m, key, world.defs[id].search);
      var r2 := RunS(world, depth, busy + {id}, s1, m, key, world.defs[id].search);
      if r2.1.Returned? {
        EvaluateKeepsModules(world, depth, busy + {id}, s1, r2.0, m, id);
        assert RunModuleS(world, depth, busy, s, id) == EvaluateS(world, depth, busy + {id}, r2.0, m, id);
      } else {
        assert RunModuleS(world, depth, busy, s, id) == r2;
      }
    }
  }

  // What evaluating a module does to its own table.
  ghost predicate Evaluated(s: State, s': State, m: nat, marked: bool) {
    m < |s.modules| <= |s'.modules| && s'.modules[m].id == s.modules[m].id
    && s'.modules[m].loaded == (s.modules[m].loaded || marked)
  }

  lemma {:induction false} EvaluateKeepsModules(world: World, depth: nat, busy: set<Id>, s: State, t: State, m: nat,
      id: Id)
    requires Ready(world, busy, t) && m < |t.modules| && id in world.defs
    requires SameModules(s, t, m) && OwnTable(s, t, m)
    ensures var (u, r) := EvaluateS(world, depth, busy, t, m, id);
      SameModules(s, u, m) && Evaluated(s, u, m, r.Returned? && world.kind.NodeStyle? && world.defs[id].source.Body?)
    decreases depth, |world.defs.Keys - busy|, 3, 0
  {
    if world.defs[id].source.Body? {
      RunBodyKeepsModules(world, depth, busy, t, m, Key(world, id), world.defs[id].source.steps);
      SameModulesTrans(s, t, EvaluateS(world, depth, busy, t, m, id).0, m);
    }
  }

  lemma SameThroughRegister(s: State, id: Id, t: State)
    requires SameModules(Register(s, id), t, |s.modules|)
    ensures SameModules(s, t, |s.modules|)
  {
    forall k | 0 <= k < |s.modules| ensures SameTable(s, t, k) {
      assert SameTable(Register(s, id), t, k);
    }
  }

  lemma RunBodyKeepsModules(world: World, depth: nat, busy: set<Id>, s: State, m: nat, id: Id, steps: seq<Step>)
    requires Ready(world, busy, s) && m < |s.modules|
    ensures var (u, r) := RunBodyS(world, depth, busy, s, m, id, steps);
      SameModules(s, u, m) && Evaluated(s, u, m, r.Returned? && world.kind.NodeStyle?)
    decreases depth, |world.defs.Keys - busy|, 2, 0
  {
    RunKeepsModules(world, depth, busy, s, m, id, steps);
    var t := RunS(world, depth, busy, s, m, id, steps).0;
    forall k | 0 <= k < |t.modules| && k != m ensures SameTable(t, MarkLoaded(t, m), k) {
    }
    SameModulesTrans(s, t, MarkLoaded(t, m), m);
  }

  lemma {:induction false} RunKeepsModules(world: World, depth: nat, busy: set<Id>, s: State, m: nat, id: Id,
      steps: seq<Step>)
    requires Ready(world, busy, s) && m < |s.modules|
    ensures SameModules(s, RunS(world, depth, busy, s, m, id, steps).0, m)
      && OwnTable(s, RunS(world, depth, busy, s, m, id, steps).0, m)
    decreases depth, |world.defs.Keys - busy|, 1, |steps|, 0
  {
    if steps != [] {
      match steps[0]
      case Throw(_) =>
      case SetExports(v) =>
        var s1 := s.(modules := s.modules[m := s.modules[m].(exports := Assigned(v))]);
        RunKeepsModules(world, depth, busy, s1, m, id, steps[1..]);
        SameModulesTrans(s, s1, RunS(world, depth, busy, s1, m, id, steps[1..]).0, m);
      case Require(req) =>
        var r1 := RequireS(world, depth, busy, s, Some(id), req);
        RequireKeepsModules(world, depth, busy, s, Some(id), req);
        ThenRunKeepsModules(world, depth, busy, s, r1.0, m, id, steps[1..]);
      case TryRequire(req) =>
        var r1 := RequireS(world, depth, busy, s, Some(id), req);
        RequireKeepsModules(world, depth, busy, s, Some(id), req);
        ThenRunKeepsModules(world, depth, busy, s, r1.0, m, id, steps[1..]);
    }
  }

  // A nested require, then the rest of the steps.
  lemma ThenRunKeepsModules(world: World, depth: nat, busy: set<Id>, s: State, t: State, m: nat, id: Id,
      steps: seq<Step>)
    requires Ready(world, busy, t) && m < |s.modules| && SameModules(s, t, |s.modules|)
    ensures SameModules(s, t, m) && OwnTable(s, t, m)
    ensures SameModules(s, RunS(world, depth, busy, t, m, id, steps).0, m)
      && OwnTable(s, RunS(world, depth, busy, t, m, id, steps).0, m)
    decreases depth, |world.defs.Keys - busy|, 1, |steps|, 1
  {
    assert SameTable(s, t, m);
    assert SameModules(s, t, m) by {
      forall k | 0 <= k < |s.modules| && k != m ensures SameTable(s, t, k) {
      }
    }
    RunKeepsModules(world, depth, busy, t, m, id, steps);
    SameModulesTrans(s, t, RunS(world, depth, busy, t, m, id, steps).0, m);
  }

  // The key under which a requested id is cached.
  function KeyOf(world: World, base: Option<Id>, req: seq<Byte>): Id
    requires world.resolve(req, base).Resolved?
  {
    Key(world, world.resolve(req, base).id)
  }

  // Requiring a registered id loads nothing: unless the resolve callback throws,
  // it is a hit that returns the current exports of the registered module.
  ghost predicate OnlyHits(world: World, depth: nat, busy: set<Id>, s: State, base: Option<Id>, req: seq<Byte>,
      exports: Exports)
    requires Ready(world, busy, s) && world.resolve(req, base).Resolved?
  {
    var (asked, error) := AskS(world, depth, busy, s, base, req);
    RequireS(world, depth, busy, s, base, req) ==
      if error.Some? then (asked, Threw(error.value))
        else (Note(asked, Hit(KeyOf(world, base, req))), Returned(exports))
  }

  lemma RegisteredHits(world: World, depth: nat, busy: set<Id>, s: State, base: Option<Id>, req: seq<Byte>)
    requires Ready(world, busy, s) && world.resolve(req, base).Resolved? && KeyOf(world, base, req) in s.loaded
    ensures OnlyHits(world, depth, busy, s, base, req, s.modules[s.loaded[KeyOf(world, base, req)]].exports)
  {
    AskKeepsModules(world, depth, busy, s, base, req);
    var key, s1 := KeyOf(world, base, req), AskS(world, depth, busy, s, base, req).0;
    assert SameTable(s, s1, s.loaded[key]);
    assert key in s1.loaded && s1.loaded[key] == s.loaded[key];
    assert ResolvedS(world, depth, busy, s1, base, req)
      == RequireIdS(world, depth, busy, s1, world.resolve(req, base).id);
  }

  // A require that returned has resolved its id and registered its key.
  lemma ReturnedIsRegistered(world: World, depth: nat, busy: set<Id>, s: State, base: Option<Id>, req: seq<Byte>)
    requires Ready(world, busy, s) && Tracked(s) && ResolvedS(world, depth, busy, s, base, req).1.Returned?
    ensures world.resolve(req, base).Resolved?
    ensures var (s', r) := ResolvedS(world, depth, busy, s, base, req); var key := KeyOf(world, base, req);
      key in s'.loaded && r.exports == s'.modules[s'.loaded[key]].exports
  {
    var id := world.resolve(req, base).id;
    if Key(world, id) !in s.loaded {
      LoadProgress(world, depth, busy, s, id);
      LoadRegistersItself(world, depth, busy, s, id);
    }
  }

  // A require that returned leaves its module cached: asking again is a hit and
  // returns the same exports.
  lemma RequireAgainHits(world: World, depth: nat, busy: set<Id>, s: State, base: Option<Id>, req: seq<Byte>)
    requires Ready(world, busy, s) && Tracked(s) && RequireS(world, depth, busy, s, base, req).1.Returned?
    ensures world.resolve(req, base).Resolved?
    ensures var (s', r) := RequireS(world, depth, busy, s, base, req); var key := KeyOf(world, base, req);
      && Ready(world, busy, s') && key in s'.loaded && r.exports == s'.modules[s'.loaded[key]].exports
      && OnlyHits(world, depth, busy, s', base, req, r.exports)
  {
    var s1, s2 := AskS(world, depth, busy, s, base, req).0, RequireS(world, depth, busy, s, base, req).0;
    AskProgress(world, depth, busy, s, base, req);
    ReturnedIsRegistered(world, depth, busy, s1, base, req);
    RegisteredHits(world, depth, busy, s2, base, req);
  }

  // The entry a load leaves behind is its own module table.
  lemma LoadRegistersItself(world: World, depth: nat, busy: set<Id>, s: State, id: Id)
    requires Ready(world, busy, s) && Tracked(s) && Key(world, id) !in s.loaded
    requires LoadS(world, depth, busy, s, id).1.Returned?
    ensures var (s', r) := LoadS(world, depth, busy, s, id); var key := Key(world, id);
      && key in s'.loaded && s'.loaded[key] == |s.modules| < |s'.modules|
      && s'.modules[|s.modules|].id == key && r.exports == s'.modules[|s.modules|].exports
  {
    RunModuleKeepsModules(world, depth, busy, s, id);
    var s2 := RunModuleS(world, depth, busy, s, id).0;
    assert Key(world, id) in Register(s, Key(world, id)).loaded;
  }

  // Resolved ids share a cache entry exactly when their keys are equal. After a
  // Node-style load of one, another id that differs only behind a NUL is a hit
  // with the exports of the first, whatever the load callback has for it.
  lemma NulSharesEntry(world: World, depth: nat, busy: set<Id>, s: State, base: Option<Id>, first: seq<Byte>,
      second: seq<Byte>)
    requires Ready(world, busy, s) && Tracked(s) && RequireS(world, depth, busy, s, base, first).1.Returned?
    requires world.resolve(first, base).Resolved? && world.resolve(second, base).Resolved?
    requires KeyOf(world, base, first) == KeyOf(world, base, second)
    ensures var (s', r) := RequireS(world, depth, busy, s, base, first);
      Ready(world, busy, s') && OnlyHits(world, depth, busy, s', base, second, r.exports)
  {
    RequireAgainHits(world, depth, busy, s, base, first);
    RegisteredHits(world, depth, busy, RequireS(world, depth, busy, s, base, first).0, base, second);
  }

  // Keys of the Duktape style are whole ids; those of the Node style are equal
  // exactly when the ids agree up to the first NUL.
  lemma KeysEqualExactly(world: World, a: Id, b: Id)
    ensures Key(world, a) == Key(world, b) <==> if world.kind.NodeStyle? then Cut(a) == Cut(b) else a == b
    ensures world.kind.NodeStyle? ==> Key(world, [97, 0, 98]) == Key(world, [97, 0, 99]) == [97]
  {
    assert Cut([97, 0, 98]) == [97] + Cut([0, 98]) && Cut([97, 0, 99]) == [97] + Cut([0, 99]);
  }

  // ------------------------------------------------------- whole programs

  // Requires from outside any module, errors caught.
  function Program(world: World, depth: nat, s: State, reqs: seq<seq<Byte>>): (r: State)
    requires WellFormed(s)
    ensures WellFormed(r)
    decreases |reqs|
  {
    if reqs == [] then s else Program(world, depth, RequireS(world, depth, {}, s, None, reqs[0]).0, reqs[1..])
  }

  lemma StartTracked()
    ensures Tracked(START) && Open(START.log) == []
  {
    assert forall id :: Cached(START, id);
  }

  lemma {:induction false} ProgramProgress(world: World, depth: nat, s: State, reqs: seq<seq<Byte>>)
    requires Tracked(s)
    ensures Progress(s, Program(world, depth, s, reqs))
    decreases |reqs|
  {
    if reqs != [] {
      var s1 := RequireS(world, depth, {}, s, None, reqs[0]).0;
      RequireProgress(world, depth, {}, s, None, reqs[0]);
      ProgramProgress(world, depth, s1, reqs[1..]);
      ProgressTrans(s, s1, Program(world, depth, s1, reqs[1..]));
    }
  }

  // After any program, whatever failed: the history is legal, no load is left
  // open, and the cache holds exactly the modules that completed.
  lemma ProgramLeavesOnlyCompleted(world: World, depth: nat, reqs: seq<seq<Byte>>)
    ensures var s := Program(world, depth, START, reqs);
      && Legal(s.log) && Open(s.log) == []
      && forall id :: id in s.loaded <==> StatusOf(s.log, id) == Loaded
  {
    StartTracked();
    ProgramProgress(world, depth, START, reqs);
    var s := Program(world, depth, START, reqs);
    forall id ensures id in s.loaded <==> StatusOf(s.log, id) == Loaded {
      assert Cached(s, id) && Settled(START, s, id);
    }
  }

  // Over any program nothing registered is lost and no earlier module changes.
  lemma {:induction false} ProgramKeepsModules(world: World, depth: nat, s: State, reqs: seq<seq<Byte>>)
    requires WellFormed(s)
    ensures SameModules(s, Program(world, depth, s, reqs), |s.modules|) && Extends(s, Program(world, depth, s, reqs))
    decreases |reqs|
  {
    if reqs != [] {
      var s1 := RequireS(world, depth, {}, s, None, reqs[0]).0;
      RequireKeepsModules(world, depth, {}, s, None, reqs[0]);
      ProgramKeepsModules(world, depth, s1, reqs[1..]);
      ExtendsTrans(s, s1, Program(world, depth, s1, reqs[1..]));
      SameModulesStep(s, s1, Program(world, depth, s1, reqs[1..]));
    }
  }

  lemma ExtendsTrans(s: State, t: State, u: State)
    requires Extends(s, t) && Extends(t, u)
    ensures Extends(s, u)
  {
    forall id | id in s.loaded ensures id in u.loaded && u.loaded[id] == s.loaded[id] {
      assert id in t.loaded;
    }
  }

  lemma SameModulesStep(s: State, t: State, u: State)
    requires SameModules(s, t, |s.modules|) && SameModules(t, u, |t.modules|)
    ensures SameModules(s, u, |s.modules|)
  {
    forall k | 0 <= k < |s.modules| ensures SameTable(s, u, k) {
      assert SameTable(s, t, k) && SameTable(t, u, k);
    }
  }

  // A module that has completed returns the same exports for ever: whatever
  // runs in between, requiring it again is a hit with the exports it had.
  lemma ExportsAreStable(world: World, depth: nat, s: State, reqs: seq<seq<Byte>>, base: Option<Id>, req: seq<Byte>)
    requires WellFormed(s) && world.resolve(req, base).Resolved? && KeyOf(world, base, req) in s.loaded
    ensures var s' := Program(world, depth, s, reqs);
      OnlyHits(world, depth, {}, s', base, req, s.modules[s.loaded[KeyOf(world, base, req)]].exports)
  {
    ProgramKeepsModules(world, depth, s, reqs);
    assert SameTable(s, Program(world, depth, s, reqs), s.loaded[KeyOf(world, base, req)]);
    RegisteredHits(world, depth, {}, Program(world, depth, s, reqs), base, req);
  }
}
