// What require() does in duk_module_duktape.c and duk_module_node.c: a load
// registers its module early, so that circular requires see it, and forgets it
// if anything throws. Callbacks and module bodies are scripts.
module ModuleLoader {
  import opened Octets
  import opened ModuleId

  type Id = seq<Byte>

  // module.exports: the object made at load start, or what the module assigned.
  datatype Exports = Fresh(table: nat) | Assigned(value: int)

  datatype Error =
    | UnresolvedId(req: seq<Byte>) | NotFound(id: Id) | SyntaxError(id: Id) | InvalidResult(id: Id)
    | UserError(code: int) | TooDeep

  datatype Step =
    | Require(req: seq<Byte>)
    | TryRequire(req: seq<Byte>)
    | SetExports(value: int)
    | Throw(code: int)

  // What the search or load callback returns after its own steps: undefined,
  // something that is neither undefined nor a string, source that does not
  // compile, or a module body.
  datatype Source = Undefined | NotAString | BadSource | Body(steps: seq<Step>)

  datatype Definition = Definition(search: seq<Step>, source: Source)

  // The Node-style loader insists on a string or undefined, and marks modules
  // whose body has completed.
  datatype Kind = DuktapeStyle | NodeStyle

  // The modules the callback can find (it throws for any other id), how ids are
  // resolved against the requiring module, and what the resolve callback does
  // before it answers.
  datatype World = World(
    kind: Kind, defs: map<Id, Definition>,
    resolve: (seq<Byte>, Option<Id>) -> Resolution, asks: (seq<Byte>, Option<Id>) -> seq<Step>)

  datatype Module = Module(id: Id, exports: Exports, loaded: bool)

  datatype Event = Begin(id: Id) | Done(id: Id) | Failed(id: Id) | Hit(id: Id)

  // The cache key of a resolved id. The Node-style loader handles ids as C
  // strings, which end at the first NUL; only the load callback sees them whole.
  function Key(world: World, id: Id): Id {
    if world.kind.NodeStyle? then Cut(id) else id
  }

  // All module tables made so far, the module cache, and the history.
  datatype State = State(modules: seq<Module>, loaded: map<Id, nat>, log: seq<Event>)

  const START := State([], map[], [])

  datatype Outcome = Returned(exports: Exports) | Threw(error: Error)

  // Every entry leads to a module table of its own id.
  ghost predicate WellFormed(s: State) {
    forall id :: id in s.loaded ==> s.loaded[id] < |s.modules| && s.modules[s.loaded[id]].id == id
  }

  // Nothing registered is lost or replaced, and no module table is dropped.
  ghost predicate Extends(s: State, s': State) {
    && |s.modules| <= |s'.modules|
    && s.log <= s'.log
    && forall id :: id in s.loaded ==> id in s'.loaded && s'.loaded[id] == s.loaded[id]
  }

  // A load is under way for each id in 'busy'; their keys are registered.
  ghost predicate Ready(world: World, busy: set<Id>, s: State) {
    WellFormed(s) && busy <= world.defs.Keys && forall id :: id in busy ==> Key(world, id) in s.loaded
  }

  function Note(s: State, e: Event): State {
    s.(log := s.log + [e])
  }

  // Register a fresh module table for id.
  function Register(s: State, id: Id): State {
    State(s.modules + [Module(id, Fresh(|s.modules|), false)], s.loaded[id := |s.modules|], s.log + [Begin(id)])
  }

  // Delete the entry and rethrow.
  function DeleteRethrow(s: State, id: Id, e: Error): (State, Outcome) {
    (Note(s.(loaded := s.loaded - {id}), Failed(id)), Threw(e))
  }

  function ReturnExports(s: State, id: Id, m: nat): (State, Outcome)
    requires m < |s.modules|
  {
    (Note(s, Done(id)), Returned(s.modules[m].exports))
  }

  // require(req), called from the module 'base'. A resolve callback may itself
  // call the global require(); the engine throws once such calls nest deeper
  // than 'depth', whatever its limit is.
  function RequireS(world: World, depth: nat, busy: set<Id>, s: State, base: Option<Id>, req: seq<Byte>):
    (r: (State, Outcome))
    requires Ready(world, busy, s)
    ensures WellFormed(r.0) && Extends(s, r.0)
    decreases depth, |world.defs.Keys - busy|, 0, 5
  {
    var (s1, error) := AskS(world, depth, busy, s, base, req);
    if error.Some? then (s1, Threw(error.value))
    else ResolvedS(world, depth, busy, s1, base, req)
  }

  // The resolve callback has done its own requires, and answers.
  function ResolvedS(world: World, depth: nat, busy: set<Id>, s: State, base: Option<Id>, req: seq<Byte>):
    (r: (State, Outcome))
    requires Ready(world, busy, s)
    ensures WellFormed(r.0) && Extends(s, r.0)
    decreases depth, |world.defs.Keys - busy|, 0, 3
  {
    match world.resolve(req, base)
    case CannotResolve => (s, Threw(UnresolvedId(req)))
    case Resolved(id, _) => RequireIdS(world, depth, busy, s, id)
  }

  // What the resolve callback does before it answers.
  function AskS(world: World, depth: nat, busy: set<Id>, s: State, base: Option<Id>, req: seq<Byte>):
    (r: (State, Option<Error>))
    requires Ready(world, busy, s)
    ensures WellFormed(r.0) && Extends(s, r.0)
    decreases depth, |world.defs.Keys - busy|, 0, 4
  {
    if world.asks(req, base) == [] then (s, None)
    else if depth == 0 then (s, Some(TooDeep))
    else StepsS(world, depth - 1, busy, s, world.asks(req, base))
  }

  // Steps outside any module: there are no exports to set.
  function StepsS(world: World, depth: nat, busy: set<Id>, s: State, steps: seq<Step>): (r: (State, Option<Error>))
    requires Ready(world, busy, s)
    ensures WellFormed(r.0) && Extends(s, r.0)
    decreases depth, |world.defs.Keys - busy|, 4, |steps|
  {
    if steps == [] then (s, None)
    else
      match steps[0]
      case Throw(code) => (s, Some(UserError(code)))
      case SetExports(_) => StepsS(world, depth, busy, s, steps[1..])
      case Require(req) =>
        var (s1, r1) := RequireS(world, depth, busy, s, None, req);
        if r1.Threw? then (s1, Some(r1.error)) else StepsS(world, depth, busy, s1, steps[1..])
      case TryRequire(req) =>
        var (s1, _) := RequireS(world, depth, busy, s, None, req);
        StepsS(world, depth, busy, s1, steps[1..])
  }

  // Return what is cached under the key of the resolved id, or load.
  function RequireIdS(world: World, depth: nat, busy: set<Id>, s: State, id: Id): (r: (State, Outcome))
    requires Ready(world, busy, s)
    ensures WellFormed(r.0) && Extends(s, r.0)
    decreases depth, |world.defs.Keys - busy|, 0, 2
  {
    var key := Key(world, id);
    if key in s.loaded then (Note(s, Hit(key)), Returned(s.modules[s.loaded[key]].exports))
    else LoadS(world, depth, busy, s, id)
  }

  // Whatever happened between registering id and the end of its load, nothing
  // registered before is lost, whether the entry of id stays or goes.
  lemma LoadExtends(s: State, id: Id, s2: State, e: Event)
    requires WellFormed(s) && id !in s.loaded && WellFormed(s2) && Extends(Register(s, id), s2)
    ensures |s.modules| < |s2.modules|
    ensures WellFormed(Note(s2, e)) && Extends(s, Note(s2, e))
    ensures WellFormed(Note(s2.(loaded := s2.loaded - {id}), e)) && Extends(s, Note(s2.(loaded := s2.loaded - {id}), e))
  {
    var s1 := Register(s, id);
    forall k | k in s.loaded ensures k in s2.loaded && s2.loaded[k] == s.loaded[k] && k != id {
      assert k in s1.loaded && s1.loaded[k] == s.loaded[k];
    }
    assert s.log <= s1.log;
  }

  // Load a module that is not registered.
  function LoadS(world: World, depth: nat, busy: set<Id>, s: State, id: Id): (r: (State, Outcome))
    requires Ready(world, busy, s) && Key(world, id) !in s.loaded
    ensures WellFormed(r.0) && Extends(s, r.0)
    decreases depth, |world.defs.Keys - busy|, 0, 1
  {
    var key := Key(world, id);
    var s2r2 := RunModuleS(world, depth, busy, s, id);
    LoadExtends(s, key, s2r2.0, Failed(key));
    LoadExtends(s, key, s2r2.0, Done(key));
    if s2r2.1.Threw? then DeleteRethrow(s2r2.0, key, s2r2.1.error) else ReturnExports(s2r2.0, key, |s.modules|)
  }

  lemma RegisterReady(world: World, busy: set<Id>, s: State, id: Id)
    requires Ready(world, busy, s) && Key(world, id) !in s.loaded
    ensures var s1 := Register(s, Key(world, id)); Extends(s, s1) && WellFormed(s1) && id !in busy
    ensures id in world.defs ==> Ready(world, busy + {id}, Register(s, Key(world, id)))
  {
  }

  // Register the module, search for it, and run its body.
  function RunModuleS(world: World, depth: nat, busy: set<Id>, s: State, id: Id): (r: (State, Outcome))
    requires Ready(world, busy, s) && Key(world, id) !in s.loaded
    ensures WellFormed(r.0) && Extends(Register(s, Key(world, id)), r.0)
    decreases depth, |world.defs.Keys - busy|, 0, 0
  {
    var m := |s.modules|;
    var s1 := Register(s, Key(world, id));
    RegisterReady(world, busy, s, id);
    if id !in world.defs then (s1, Threw(NotFound(id)))
    else
      OneMoreBusy(world, busy, id);
      var r2 := RunS(world, depth, busy + {id}, s1, m, Key(world, id), world.defs[id].search);
      if r2.1.Threw? then r2 else EvaluateS(world, depth, busy + {id}, r2.0, m, id)
  }

  // Act on what the search callback returned.
  function EvaluateS(world: World, depth: nat, busy: set<Id>, s: State, m: nat, id: Id): (r: (State, Outcome))
    requires Ready(world, busy, s) && m < |s.modules| && id in world.defs
    ensures WellFormed(r.0) && Extends(s, r.0)
    decreases depth, |world.defs.Keys - busy|, 3, 0
  {
    match world.defs[id].source
    case Undefined => (s, Returned(s.modules[m].exports))
    case NotAString =>
      (s, if world.kind.NodeStyle? then Threw(InvalidResult(Key(world, id))) else Returned(s.modules[m].exports))
    case BadSource => (s, Threw(SyntaxError(Key(world, id))))
    case Body(steps) => RunBodyS(world, depth, busy, s, m, Key(world, id), steps)
  }

  // Run a module body; the Node-style loader marks the module afterwards.
  function RunBodyS(world: World, depth: nat, busy: set<Id>, s: State, m: nat, id: Id, steps: seq<Step>):
    (r: (State, Outcome))
    requires Ready(world, busy, s) && m < |s.modules|
    ensures WellFormed(r.0) && Extends(s, r.0)
    decreases depth, |world.defs.Keys - busy|, 2, 0
  {
    var r := RunS(world, depth, busy, s, m, id, steps);
    if r.1.Returned? && world.kind.NodeStyle? then (MarkLoaded(r.0, m), r.1) else r
  }

  // module.loaded = true
  function MarkLoaded(s: State, m: nat): State
    requires m < |s.modules|
  {
    s.(modules := s.modules[m := s.modules[m].(loaded := true)])
  }

  lemma OneMoreBusy(world: World, busy: set<Id>, id: Id)
    requires id in world.defs && id !in busy
    ensures |world.defs.Keys - (busy + {id})| < |world.defs.Keys - busy|
  {
    assert world.defs.Keys - busy == (world.defs.Keys - (busy + {id})) + {id};
  }

  // Run steps of the module table m, whose require() resolves against id.
  function RunS(world: World, depth: nat, busy: set<Id>, s: State, m: nat, id: Id, steps: seq<Step>):
    (r: (State, Outcome))
    requires Ready(world, busy, s) && m < |s.modules|
    ensures WellFormed(r.0) && Extends(s, r.0)
    decreases depth, |world.defs.Keys - busy|, 1, |steps|
  {
    if steps == [] then (s, Returned(s.modules[m].exports))
    else
      match steps[0]
      case Throw(code) => (s, Threw(UserError(code)))
      case SetExports(v) =>
        RunS(world, depth, busy, s.(modules := s.modules[m := s.modules[m].(exports := Assigned(v))]), m, id,
          steps[1..])
      case Require(req) =>
        var (s1, r1) := RequireS(world, depth, busy, s, Some(id), req);
        if r1.Threw? then (s1, r1) else RunS(world, depth, busy, s1, m, id, steps[1..])
      case TryRequire(req) =>
        var (s1, _) := RequireS(world, depth, busy, s, Some(id), req);
        RunS(world, depth, busy, s1, m, id, steps[1..])
  }
}
