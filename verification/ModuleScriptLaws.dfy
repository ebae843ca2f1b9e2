// What the steps of module bodies and callbacks do, seen from outside: what is
// loaded, what a require returns, and which error comes out.
module ModuleScriptLaws {
  import opened Octets
  import opened ModuleId
  import opened ModuleLoader
  import opened ModuleLoaderLaws

  // ------------------------------------------------------ steps in sequence

  // A script runs its second part in the state its first part leaves, unless
  // the first part throws.
  lemma {:induction false} RunComposes(
    world: World, depth: nat, busy: set<Id>, s: State, m: nat, id: Id, first: seq<Step>, second: seq<Step>)
    requires Ready(world, busy, s) && m < |s.modules|
    ensures var (s1, r1) := RunS(world, depth, busy, s, m, id, first);
      RunS(world, depth, busy, s, m, id, first + second) ==
        if r1.Threw? then (s1, r1) else RunS(world, depth, busy, s1, m, id, second)
    decreases |first|
  {
    if first == [] {
      assert first + second == second;
    } else {
      var all, rest := first + second, first[1..];
      assert all[0] == first[0] && all[1..] == rest + second;
      match first[0]
      case Throw(_) =>
      case SetExports(v) =>
        var s1 := s.(modules := s.modules[m := s.modules[m].(exports := Assigned(v))]);
        RunComposes(world, depth, busy, s1, m, id, rest, second);
      case Require(req) =>
        var r1 := RequireS(world, depth, busy, s, Some(id), req);
        if r1.1.Returned? { RunComposes(world, depth, busy, r1.0, m, id, rest, second); }
      case TryRequire(req) =>
        var s1 := RequireS(world, depth, busy, s, Some(id), req).0;
        RunComposes(world, depth, busy, s1, m, id, rest, second);
    }
  }

  // The empty script returns the current exports of its module.
  lemma RunNothing(world: World, depth: nat, busy: set<Id>, s: State, m: nat, id: Id)
    requires Ready(world, busy, s) && m < |s.modules|
    ensures RunS(world, depth, busy, s, m, id, []) == (s, Returned(s.modules[m].exports))
  {
  }

  // throw ends the script with its error, whatever follows.
  lemma ThrowEnds(world: World, depth: nat, busy: set<Id>, s: State, m: nat, id: Id, code: int, rest: seq<Step>)
    requires Ready(world, busy, s) && m < |s.modules|
    ensures RunS(world, depth, busy, s, m, id, [Throw(code)] + rest) == (s, Threw(UserError(code)))
  {
    assert ([Throw(code)] + rest)[0] == Throw(code);
  }

  // Assigning module.exports changes that, of this module, and nothing else.
  lemma AssignmentSticks(world: World, depth: nat, busy: set<Id>, s: State, m: nat, id: Id, v: int)
    requires Ready(world, busy, s) && m < |s.modules|
    ensures var (s', r) := RunS(world, depth, busy, s, m, id, [SetExports(v)]);
      && r == Returned(Assigned(v))
      && s'.loaded == s.loaded && s'.log == s.log && |s'.modules| == |s.modules|
      && s'.modules[m] == s.modules[m].(exports := Assigned(v))
      && forall k :: 0 <= k < |s.modules| && k != m ==> s'.modules[k] == s.modules[k]
  {
    var s1 := s.(modules := s.modules[m := s.modules[m].(exports := Assigned(v))]);
    assert [SetExports(v)][1..] == [];
    RunNothing(world, depth, busy, s1, m, id);
  }

  // A require is resolved against the module that runs it. If it throws, so
  // does the script, with the same error.
  lemma RequireIsRelative(world: World, depth: nat, busy: set<Id>, s: State, m: nat, id: Id, req: seq<Byte>)
    requires Ready(world, busy, s) && m < |s.modules|
    ensures var (s1, r1) := RequireS(world, depth, busy, s, Some(id), req);
      RunS(world, depth, busy, s, m, id, [Require(req)]) ==
        (s1, if r1.Threw? then Threw(r1.error) else Returned(s1.modules[m].exports))
  {
    assert [Require(req)][1..] == [];
  }

  // A guarded require is too, but its error is caught.
  lemma GuardCatches(world: World, depth: nat, busy: set<Id>, s: State, m: nat, id: Id, req: seq<Byte>)
    requires Ready(world, busy, s) && m < |s.modules|
    ensures var s1 := RequireS(world, depth, busy, s, Some(id), req).0;
      RunS(world, depth, busy, s, m, id, [TryRequire(req)]) == (s1, Returned(s1.modules[m].exports))
  {
    assert [TryRequire(req)][1..] == [];
  }

  // The same of the steps of a callback, which is no module: its requires are
  // resolved as outside any module.
  lemma {:induction false} StepsCompose(
    world: World, depth: nat, busy: set<Id>, s: State, first: seq<Step>, second: seq<Step>)
    requires Ready(world, busy, s)
    ensures var (s1, error) := StepsS(world, depth, busy, s, first);
      StepsS(world, depth, busy, s, first + second) ==
        if error.Some? then (s1, error) else StepsS(world, depth, busy, s1, second)
    decreases |first|
  {
    if first == [] {
      assert first + second == second;
    } else {
      var all, rest := first + second, first[1..];
      assert all[0] == first[0] && all[1..] == rest + second;
      match first[0]
      case Throw(_) =>
      case SetExports(_) => StepsCompose(world, depth, busy, s, rest, second);
      case Require(req) =>
        var r1 := RequireS(world, depth, busy, s, None, req);
        if r1.1.Returned? { StepsCompose(world, depth, busy, r1.0, rest, second); }
      case TryRequire(req) =>
        var s1 := RequireS(world, depth, busy, s, None, req).0;
        StepsCompose(world, depth, busy, s1, rest, second);
    }
  }

  lemma CallbackSteps(world: World, depth: nat, busy: set<Id>, s: State, req: seq<Byte>, code: int)
    requires Ready(world, busy, s)
    ensures StepsS(world, depth, busy, s, []) == (s, None)
    ensures StepsS(world, depth, busy, s, [Throw(code)]) == (s, Some(UserError(code)))
    ensures var (s1, r1) := RequireS(world, depth, busy, s, None, req);
      && StepsS(world, depth, busy, s, [Require(req)]) == (s1, if r1.Threw? then Some(r1.error) else None)
      && StepsS(world, depth, busy, s, [TryRequire(req)]) == (s1, None)
  {
    assert [Require(req)][1..] == [] && [TryRequire(req)][1..] == [];
  }

  // ---------------------------------------------------- what a require does

  // The resolve callback acts before the id is looked up: if it throws, the
  // require throws the same; too deep a nesting is an error, and nothing runs.
  lemma CallbackActsFirst(world: World, depth: nat, busy: set<Id>, s: State, base: Option<Id>, req: seq<Byte>)
    requires Ready(world, busy, s) && world.asks(req, base) != []
    ensures var (s', r) := RequireS(world, depth, busy, s, base, req);
      if depth == 0 then (s', r) == (s, Threw(TooDeep))
      else
        var (s1, error) := StepsS(world, depth - 1, busy, s, world.asks(req, base));
        && Extends(s1, s')
        && (error.Some? ==> (s', r) == (s1, Threw(error.value)))
        && (error.None? && world.resolve(req, base) == CannotResolve ==> (s', r) == (s1, Threw(UnresolvedId(req))))
  {
  }

  // An id that cannot be resolved is an error, and changes nothing.
  lemma UnresolvedThrows(world: World, depth: nat, busy: set<Id>, s: State, base: Option<Id>, req: seq<Byte>)
    requires Ready(world, busy, s) && world.asks(req, base) == [] && world.resolve(req, base) == CannotResolve
    ensures RequireS(world, depth, busy, s, base, req) == (s, Threw(UnresolvedId(req)))
  {
  }

  // The next event of the history: a hit on what is registered, or a load.
  function FirstEvent(s: State, key: Id): Event {
    if key in s.loaded then Hit(key) else Begin(key)
  }

  lemma RequireContinues(world: World, depth: nat, busy: set<Id>, s: State, base: Option<Id>, req: seq<Byte>)
    requires Ready(world, busy, s) && world.asks(req, base) == [] && world.resolve(req, base).Resolved?
    ensures s.log + [FirstEvent(s, KeyOf(world, base, req))] <= RequireS(world, depth, busy, s, base, req).0.log
  {
    var id := world.resolve(req, base).id;
    assert RequireS(world, depth, busy, s, base, req) == RequireIdS(world, depth, busy, s, id);
    if Key(world, id) !in s.loaded {
      LoadContinues(world, depth, busy, s, id);
    }
  }

  // A load begins with its own event and ends with whether it returned.
  lemma LoadContinues(world: World, depth: nat, busy: set<Id>, s: State, id: Id)
    requires Ready(world, busy, s) && Key(world, id) !in s.loaded
    ensures var (s', r) := LoadS(world, depth, busy, s, id); var key := Key(world, id);
      && s.log + [Begin(key)] <= s'.log
      && s'.log[|s'.log| - 1] == if r.Returned? then Done(key) else Failed(key)
  {
  }

  // ---------------------------------------------------------- whole modules

  // The module is found, its search callback takes no steps, and its source is
  // this. It is not registered yet.
  ghost predicate Finds(world: World, busy: set<Id>, s: State, id: Id, source: Source) {
    && Ready(world, busy, s) && Key(world, id) !in s.loaded
    && id in world.defs && world.defs[id] == Definition([], source)
  }

  // State and history after a load that ran nothing else and returned ...
  ghost predicate LoadedAlone(s: State, s': State, key: Id, exports: Exports, marked: bool) {
    && s'.modules == s.modules + [Module(key, exports, marked)]
    && s'.loaded == s.loaded[key := |s.modules|]
    && s'.log == s.log + [Begin(key), Done(key)]
  }

  // ... or that failed.
  ghost predicate FailedAlone(s: State, s': State, key: Id) {
    && s'.modules == s.modules + [Module(key, Fresh(|s.modules|), false)]
    && s'.loaded == s.loaded - {key}
    && s'.log == s.log + [Begin(key), Failed(key)]
  }

  lemma LogOfTwo(log: seq<Event>, a: Event, b: Event)
    ensures log + [a] + [b] == log + [a, b]
  {
  }

  lemma DeleteRegistered(s: State, key: Id)
    requires key !in s.loaded
    ensures Register(s, key).loaded - {key} == s.loaded - {key} == s.loaded
  {
  }

  // With nothing to do before it, evaluating the source is all there is to
  // running the module.
  lemma OnlyEvaluates(world: World, depth: nat, busy: set<Id>, s: State, id: Id, source: Source)
    requires Finds(world, busy, s, id, source)
    ensures Ready(world, busy + {id}, Register(s, Key(world, id)))
    ensures RunModuleS(world, depth, busy, s, id)
      == EvaluateS(world, depth, busy + {id}, Register(s, Key(world, id)), |s.modules|, id)
  {
    RegisterReady(world, busy, s, id);
    RunNothing(world, depth, busy + {id}, Register(s, Key(world, id)), |s.modules|, Key(world, id));
  }

  // Nothing but the callback's verdict on a module without a body.
  lemma BodylessLoads(world: World, depth: nat, busy: set<Id>, s: State, id: Id, source: Source)
    requires Finds(world, busy, s, id, source) && !source.Body?
    ensures var (s', r) := LoadS(world, depth, busy, s, id); var key := Key(world, id);
      match source
      case Undefined => r == Returned(Fresh(|s.modules|)) && LoadedAlone(s, s', key, Fresh(|s.modules|), false)
      case NotAString =>
        if world.kind.NodeStyle? then r == Threw(InvalidResult(key)) && FailedAlone(s, s', key)
        else r == Returned(Fresh(|s.modules|)) && LoadedAlone(s, s', key, Fresh(|s.modules|), false)
      case BadSource => r == Threw(SyntaxError(key)) && FailedAlone(s, s', key)
      case Body(_) => true
  {
    var key := Key(world, id);
    OnlyEvaluates(world, depth, busy, s, id, source);
    LogOfTwo(s.log, Begin(key), Done(key));
    LogOfTwo(s.log, Begin(key), Failed(key));
    DeleteRegistered(s, key);
  }

  // A module nobody defines is not found.
  lemma UndefinedIsNotFound(world: World, depth: nat, busy: set<Id>, s: State, id: Id)
    requires Ready(world, busy, s) && Key(world, id) !in s.loaded && id !in world.defs
    ensures var (s', r) := LoadS(world, depth, busy, s, id);
      r == Threw(NotFound(id)) && FailedAlone(s, s', Key(world, id))
  {
    LogOfTwo(s.log, Begin(Key(world, id)), Failed(Key(world, id)));
    DeleteRegistered(s, Key(world, id));
  }

  // A body that is found is executed: the load returns or throws as the body
  // does, in the state with the module registered, and under its own key.
  lemma BodyIsExecuted(world: World, depth: nat, busy: set<Id>, s: State, id: Id, steps: seq<Step>)
    requires Finds(world, busy, s, id, Body(steps))
    ensures var key := Key(world, id); Ready(world, busy + {id}, Register(s, key))
    ensures var key := Key(world, id); var m := |s.modules|;
      var (s1, r1) := RunS(world, depth, busy + {id}, Register(s, key), m, key, steps);
      var (s', r) := LoadS(world, depth, busy, s, id);
      && m < |s1.modules| && |s'.modules| == |s1.modules|
      && r == (if r1.Threw? then Threw(r1.error) else Returned(s1.modules[m].exports))
      && s'.log == s1.log + [if r1.Threw? then Failed(key) else Done(key)]
      && s'.loaded == (if r1.Threw? then s1.loaded - {key} else s1.loaded)
      && s'.modules[m].exports == s1.modules[m].exports
      && forall k :: 0 <= k < |s1.modules| && k != m ==> s'.modules[k] == s1.modules[k]
  {
    var key := Key(world, id);
    OnlyEvaluates(world, depth, busy, s, id, Body(steps));
    RunKeepsModules(world, depth, busy + {id}, Register(s, key), |s.modules|, key, steps);
    RunEndsWithExports(world, depth, busy + {id}, Register(s, key), |s.modules|, key, steps);
  }

  // A script that returns returns the exports its module has then.
  lemma {:induction false} RunEndsWithExports(
    world: World, depth: nat, busy: set<Id>, s: State, m: nat, id: Id, steps: seq<Step>)
    requires Ready(world, busy, s) && m < |s.modules|
    ensures var (s1, r1) := RunS(world, depth, busy, s, m, id, steps);
      r1.Returned? ==> m < |s1.modules| && r1.exports == s1.modules[m].exports
    decreases |steps|
  {
    if steps != [] {
      match steps[0]
      case Throw(_) =>
      case SetExports(v) =>
        var s1 := s.(modules := s.modules[m := s.modules[m].(exports := Assigned(v))]);
        RunEndsWithExports(world, depth, busy, s1, m, id, steps[1..]);
      case Require(req) =>
        var r1 := RequireS(world, depth, busy, s, Some(id), req);
        if r1.1.Returned? { RunEndsWithExports(world, depth, busy, r1.0, m, id, steps[1..]); }
      case TryRequire(req) =>
        var s1 := RequireS(world, depth, busy, s, Some(id), req).0;
        RunEndsWithExports(world, depth, busy, s1, m, id, steps[1..]);
    }
  }

  lemma SearchesThenEvaluates(world: World, depth: nat, busy: set<Id>, s: State, id: Id)
    requires Ready(world, busy, s) && Key(world, id) !in s.loaded && id in world.defs
    ensures Ready(world, busy + {id}, Register(s, Key(world, id)))
    ensures var key, m := Key(world, id), |s.modules|;
      var (s1, r1) := RunS(world, depth, busy + {id}, Register(s, key), m, key, world.defs[id].search);
      RunModuleS(world, depth, busy, s, id) ==
        if r1.Threw? then (s1, r1) else EvaluateS(world, depth, busy + {id}, s1, m, id)
  {
    RegisterReady(world, busy, s, id);
  }

  // What the callback does itself comes first, under the module's own key: an
  // error of its ends the load.
  lemma SearchErrorPropagates(world: World, depth: nat, busy: set<Id>, s: State, id: Id)
    requires Ready(world, busy, s) && Key(world, id) !in s.loaded && id in world.defs
    ensures Ready(world, busy + {id}, Register(s, Key(world, id)))
    ensures var key, m := Key(world, id), |s.modules|;
      var (s1, r1) := RunS(world, depth, busy + {id}, Register(s, key), m, key, world.defs[id].search);
      var (s', r) := LoadS(world, depth, busy, s, id);
      r1.Threw? ==> r == Threw(r1.error) && s'.log == s1.log + [Failed(key)] && s'.loaded == s1.loaded - {key}
  {
    SearchesThenEvaluates(world, depth, busy, s, id);
  }

  // If it leaves no source, the module is what the callback made of it.
  lemma SearchAloneLoads(world: World, depth: nat, busy: set<Id>, s: State, id: Id)
    requires Ready(world, busy, s) && Key(world, id) !in s.loaded && id in world.defs
    requires world.defs[id].source.Undefined?
    ensures Ready(world, busy + {id}, Register(s, Key(world, id)))
    ensures var key, m := Key(world, id), |s.modules|;
      var (s1, r1) := RunS(world, depth, busy + {id}, Register(s, key), m, key, world.defs[id].search);
      var (s', r) := LoadS(world, depth, busy, s, id);
      r1.Returned? ==>
        r == r1 && s'.modules == s1.modules && s'.loaded == s1.loaded && s'.log == s1.log + [Done(key)]
  {
    var key, m := Key(world, id), |s.modules|;
    SearchesThenEvaluates(world, depth, busy, s, id);
    RunEndsWithExports(world, depth, busy + {id}, Register(s, key), m, key, world.defs[id].search);
    var r1 := RunS(world, depth, busy + {id}, Register(s, key), m, key, world.defs[id].search);
    if r1.1.Returned? {
      assert EvaluateS(world, depth, busy + {id}, r1.0, m, id) == (r1.0, Returned(r1.0.modules[m].exports));
    }
  }

  // -------------------------------------------------------- what one observes

  // An assigned module.exports is what require returns.
  lemma AssignedIsReturned(world: World, depth: nat, busy: set<Id>, s: State, id: Id, v: int)
    requires Finds(world, busy, s, id, Body([SetExports(v)]))
    ensures LoadS(world, depth, busy, s, id).1 == Returned(Assigned(v))
  {
    BodyIsExecuted(world, depth, busy, s, id, [SetExports(v)]);
    var key := Key(world, id);
    AssignmentSticks(world, depth, busy + {id}, Register(s, key), |s.modules|, key, v);
  }

  // A body that throws fails its load with that error, and the module is
  // forgotten.
  lemma ThrownIsRethrown(world: World, depth: nat, busy: set<Id>, s: State, id: Id, code: int, rest: seq<Step>)
    requires Finds(world, busy, s, id, Body([Throw(code)] + rest))
    ensures var (s', r) := LoadS(world, depth, busy, s, id);
      r == Threw(UserError(code)) && Key(world, id) !in s'.loaded
  {
    BodyIsExecuted(world, depth, busy, s, id, [Throw(code)] + rest);
    var key := Key(world, id);
    ThrowEnds(world, depth, busy + {id}, Register(s, key), |s.modules|, key, code, rest);
  }

  // A script that starts with a require, guarded or not, hits or loads the id
  // it names relative to its module.
  lemma ScriptRequires(
    world: World, depth: nat, busy: set<Id>, s: State, m: nat, id: Id, first: Step, req: seq<Byte>, rest: seq<Step>)
    requires Ready(world, busy, s) && m < |s.modules| && (first == Require(req) || first == TryRequire(req))
    requires world.asks(req, Some(id)) == [] && world.resolve(req, Some(id)).Resolved?
    ensures s.log + [FirstEvent(s, KeyOf(world, Some(id), req))]
      <= RunS(world, depth, busy, s, m, id, [first] + rest).0.log
  {
    RunComposes(world, depth, busy, s, m, id, [first], rest);
    if first == Require(req) {
      RequireIsRelative(world, depth, busy, s, m, id, req);
    } else {
      GuardCatches(world, depth, busy, s, m, id, req);
    }
    RequireContinues(world, depth, busy, s, Some(id), req);
  }

  // The first require of a body: once the module is registered, the id that
  // it names relative to this module is hit or loaded.
  lemma BodyRequires(
    world: World, depth: nat, busy: set<Id>, s: State, id: Id, first: Step, req: seq<Byte>, rest: seq<Step>)
    requires Finds(world, busy, s, id, Body([first] + rest)) && (first == Require(req) || first == TryRequire(req))
    requires world.asks(req, Some(Key(world, id))) == [] && world.resolve(req, Some(Key(world, id))).Resolved?
    ensures var key := Key(world, id); var dep := KeyOf(world, Some(key), req);
      var next := if dep == key || dep in s.loaded then Hit(dep) else Begin(dep);
      s.log + [Begin(key), next] <= LoadS(world, depth, busy, s, id).0.log
  {
    var key := Key(world, id);
    BodyIsExecuted(world, depth, busy, s, id, [first] + rest);
    ScriptRequires(world, depth, busy + {id}, Register(s, key), |s.modules|, key, first, req, rest);
    LogOfTwo(s.log, Begin(key), FirstEvent(Register(s, key), KeyOf(world, Some(key), req)));
  }

  // A nested require that throws ends the load with the same error ...
  lemma NestedErrorPropagates(
    world: World, depth: nat, busy: set<Id>, s: State, id: Id, req: seq<Byte>, rest: seq<Step>)
    requires Finds(world, busy, s, id, Body([Require(req)] + rest))
    ensures Ready(world, busy + {id}, Register(s, Key(world, id)))
    ensures var key := Key(world, id);
      var (s1, r1) := RequireS(world, depth, busy + {id}, Register(s, key), Some(key), req);
      var (s', r) := LoadS(world, depth, busy, s, id);
      r1.Threw? ==> r == r1 && s'.log == s1.log + [Failed(key)]
  {
    var key := Key(world, id);
    BodyIsExecuted(world, depth, busy, s, id, [Require(req)] + rest);
    RunComposes(world, depth, busy + {id}, Register(s, key), |s.modules|, key, [Require(req)], rest);
    RequireIsRelative(world, depth, busy + {id}, Register(s, key), |s.modules|, key, req);
  }

  // ... and a guarded one does not: the body goes on, and the load succeeds.
  lemma GuardedErrorDoesNot(world: World, depth: nat, busy: set<Id>, s: State, id: Id, req: seq<Byte>, v: int)
    requires Finds(world, busy, s, id, Body([TryRequire(req), SetExports(v)]))
    ensures LoadS(world, depth, busy, s, id).1 == Returned(Assigned(v))
  {
    var key, steps := Key(world, id), [TryRequire(req), SetExports(v)];
    assert steps == [TryRequire(req)] + [SetExports(v)];
    BodyIsExecuted(world, depth, busy, s, id, steps);
    var s0 := Register(s, key);
    RunComposes(world, depth, busy + {id}, s0, |s.modules|, key, [TryRequire(req)], [SetExports(v)]);
    GuardCatches(world, depth, busy + {id}, s0, |s.modules|, key, req);
    var s1 := RequireS(world, depth, busy + {id}, s0, Some(key), req).0;
    AssignmentSticks(world, depth, busy + {id}, s1, |s.modules|, key, v);
  }

  // Assigning exports and then requiring a registered id.
  lemma AssignsThenHits(world: World, depth: nat, busy: set<Id>, s: State, m: nat, id: Id, v: int, req: seq<Byte>)
    requires Ready(world, busy, s) && m < |s.modules| && world.asks(req, Some(id)) == []
    requires world.resolve(req, Some(id)).Resolved? && KeyOf(world, Some(id), req) in s.loaded
    ensures var (s', r) := RunS(world, depth, busy, s, m, id, [SetExports(v)] + [Require(req)]);
      && m < |s'.modules| && s'.modules[m].exports == Assigned(v) && r == Returned(Assigned(v))
      && s'.log == s.log + [Hit(KeyOf(world, Some(id), req))]
  {
    RunComposes(world, depth, busy, s, m, id, [SetExports(v)], [Require(req)]);
    AssignmentSticks(world, depth, busy, s, m, id, v);
    var s1 := RunS(world, depth, busy, s, m, id, [SetExports(v)]).0;
    RequireRegistered(world, depth, busy, s1, m, id, req);
  }

  // A module that requires itself gets the exports it has so far.
  lemma CircularRequireHits(world: World, depth: nat, busy: set<Id>, s: State, id: Id, v: int, req: seq<Byte>)
    requires Finds(world, busy, s, id, Body([SetExports(v)] + [Require(req)]))
    requires world.asks(req, Some(Key(world, id))) == [] && world.resolve(req, Some(Key(world, id))).Resolved?
    requires KeyOf(world, Some(Key(world, id)), req) == Key(world, id)
    ensures var (s', r) := LoadS(world, depth, busy, s, id); var key := Key(world, id);
      r == Returned(Assigned(v)) && s'.log == s.log + [Begin(key), Hit(key), Done(key)]
  {
    var key := Key(world, id);
    BodyIsExecuted(world, depth, busy, s, id, [SetExports(v)] + [Require(req)]);
    AssignsThenHits(world, depth, busy + {id}, Register(s, key), |s.modules|, key, v, req);
    assert s.log + [Begin(key)] + [Hit(key)] + [Done(key)] == s.log + [Begin(key), Hit(key), Done(key)];
  }

  lemma RequireRegistered(world: World, depth: nat, busy: set<Id>, s: State, m: nat, id: Id, req: seq<Byte>)
    requires Ready(world, busy, s) && m < |s.modules| && world.asks(req, Some(id)) == []
    requires world.resolve(req, Some(id)).Resolved? && KeyOf(world, Some(id), req) in s.loaded
    ensures RunS(world, depth, busy, s, m, id, [Require(req)]) ==
      (Note(s, Hit(KeyOf(world, Some(id), req))), Returned(s.modules[m].exports))
  {
    RequireIsRelative(world, depth, busy, s, m, id, req);
    RegisteredHits(world, depth, busy, s, Some(id), req);
  }

  // ---------------------------------------------------------- whole programs

  // A program runs its requires in order, each as outside any module.
  lemma {:induction false} ProgramComposes(
    world: World, depth: nat, s: State, first: seq<seq<Byte>>, second: seq<seq<Byte>>)
    requires WellFormed(s)
    ensures Program(world, depth, s, first + second) == Program(world, depth, Program(world, depth, s, first), second)
    decreases |first|
  {
    if first == [] {
      assert first + second == second;
    } else {
      assert (first + second)[0] == first[0] && (first + second)[1..] == first[1..] + second;
      ProgramComposes(world, depth, RequireS(world, depth, {}, s, None, first[0]).0, first[1..], second);
    }
  }

  lemma ProgramOfOne(world: World, depth: nat, s: State, req: seq<Byte>)
    requires WellFormed(s)
    ensures Program(world, depth, s, [req]) == RequireS(world, depth, {}, s, None, req).0
  {
    assert [req][1..] == [];
  }

  // After a program that requires a module that completes, it is registered.
  lemma ProgramLoads(world: World, depth: nat, req: seq<Byte>)
    requires world.asks(req, None) == [] && world.resolve(req, None).Resolved?
    ensures [Begin(KeyOf(world, None, req))] <= Program(world, depth, START, [req]).log
  {
    ProgramOfOne(world, depth, START, req);
    RequireContinues(world, depth, {}, START, None, req);
  }
}
