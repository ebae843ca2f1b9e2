// duk__require and duk__handle_require, step by step on their value stacks.
module RequireContext {
  import opened Octets
  import opened ModuleId
  import opened ModuleLoader
  import opened ModuleIdLaws
  import opened ModuleLoaderLaws
  import opened ModuleScriptLaws
  import opened ValueStack

  // Stack indices of duk__require.
  const IDX_REQUESTED_ID := 0
  const IDX_REQUIRE := 1
  const IDX_REQUIRE_ID := 2
  const IDX_RESOLVED_ID := 3
  const IDX_LASTCOMP := 4
  const IDX_DUKTAPE := 5
  const IDX_MODLOADED := 6
  const IDX_UNDEFINED := 7
  const IDX_FRESH_REQUIRE := 8
  const IDX_EXPORTS := 9
  const IDX_MODULE := 10

  // Duktape.modSearch with CommonJS ids.
  function DuktapeWorld(defs: map<Id, Definition>): World {
    World(DuktapeStyle, defs, (req, base) => Resolve(req, base), (req, base) => [])
  }

  // A resolve callback sees the parent id as a string, "" outside any module.
  datatype ResolveCallback = ResolveCallback(
    answer: (seq<Byte>, Id) -> Resolution, asks: (seq<Byte>, Id) -> seq<Step>)

  function NodeWorld(defs: map<Id, Definition>, callback: ResolveCallback): World {
    World(NodeStyle, defs,
          (req, base) => callback.answer(req, ParentText(base)), (req, base) => callback.asks(req, ParentText(base)))
  }

  function ParentText(base: Option<Id>): Id {
    if base.Some? then base.value else []
  }

  // What the code of each style assumes of resolution.
  ghost predicate ResolvesOk(world: World, req: seq<Byte>, base: Option<Id>) {
    if world.kind.DuktapeStyle? then world.resolve(req, base) == Resolve(req, base) && world.asks(req, base) == []
    else
      && world.resolve(req, base) == world.resolve(req, Some(ParentText(base)))
      && world.asks(req, base) == world.asks(req, Some(ParentText(base)))
  }

  ghost predicate WorldOk(world: World) {
    forall req, base :: ResolvesOk(world, req, base)
  }

  lemma WorldsOk(defs: map<Id, Definition>, callback: ResolveCallback)
    ensures WorldOk(DuktapeWorld(defs)) && WorldOk(NodeWorld(defs, callback))
  {
    var w := NodeWorld(defs, callback);
    forall req, base ensures ResolvesOk(w, req, base) {
      var parent: Option<Id> := Some(ParentText(base));
      assert ParentText(parent) == ParentText(base);
      assert w.resolve(req, base) == callback.answer(req, ParentText(base));
      assert w.resolve(req, parent) == callback.answer(req, ParentText(parent));
      assert w.asks(req, base) == callback.asks(req, ParentText(base));
      assert w.asks(req, parent) == callback.asks(req, ParentText(parent));
    }
  }

  // The stack of duk__require while a module loads.
  ghost predicate LoadFrame(f: Frame, id: Id, m: nat) {
    && |f| > IDX_MODULE
    && f[IDX_RESOLVED_ID] == Text(id) && f[IDX_LASTCOMP].Text?
    && f[IDX_DUKTAPE] == DuktapeObject && f[IDX_MODLOADED] == CacheObject
    && f[IDX_FRESH_REQUIRE] == RequireFunction(Some(id)) && f[IDX_EXPORTS] == ExportsValue(Fresh(m))
    && f[IDX_MODULE] == ModuleObject(m)
  }

  lemma SameLoadFrame(f: Frame, g: Frame, id: Id, m: nat)
    requires LoadFrame(f, id, m) && |g| > IDX_MODULE && g[..IDX_MODULE + 1] == f[..IDX_MODULE + 1]
    ensures LoadFrame(g, id, m)
  {
    assert forall k :: 0 <= k <= IDX_MODULE ==> g[k] == g[..IDX_MODULE + 1][k] == f[..IDX_MODULE + 1][k] == f[k];
  }

  // The Node style answers with its callback, given the parent id, and the empty
  // text outside any module.
  lemma NodeAnswers(defs: map<Id, Definition>, callback: ResolveCallback, req: seq<Byte>, parent: Id)
    ensures var w := NodeWorld(defs, callback);
      && w.kind == NodeStyle && w.defs == defs
      && w.resolve(req, Some(parent)) == callback.answer(req, parent)
      && w.resolve(req, None) == callback.answer(req, [])
      && w.asks(req, Some(parent)) == callback.asks(req, parent)
      && w.asks(req, None) == callback.asks(req, [])
  {
    var w := NodeWorld(defs, callback);
    var inside: Option<Id>, outside: Option<Id> := Some(parent), None;
    assert w.resolve(req, inside) == callback.answer(req, ParentText(inside));
    assert w.resolve(req, outside) == callback.answer(req, ParentText(outside));
    assert w.asks(req, inside) == callback.asks(req, ParentText(inside));
    assert w.asks(req, outside) == callback.asks(req, ParentText(outside));
  }

  // The Duktape style: a module whose body starts by requiring './x' hits or
  // loads the x beside it.
  lemma SiblingIsLoaded(
    defs: map<Id, Definition>, depth: nat, busy: set<Id>, s: State, first: ModuleLoader.Step,
    rest: seq<ModuleLoader.Step>, req: seq<Byte>, bs: seq<Term>, xs: seq<Term>)
    requires Names(bs) && Names(xs) && 0 !in Join(bs) && 0 !in Join(xs)
    requires req == [DOT] + [SLASH] + Join(xs) && |Join(bs)| + 4 + |req| < 256
    requires first == Require(req) || first == TryRequire(req)
    requires Finds(DuktapeWorld(defs), busy, s, Join(bs), Body([first] + rest))
    ensures var own, dep := Join(bs), Join(bs[..|bs| - 1] + xs);
      s.log + [Begin(own), if dep == own || dep in s.loaded then Hit(dep) else Begin(dep)]
        <= LoadS(DuktapeWorld(defs), depth, busy, s, own).0.log
  {
    SiblingReplacesLast(req, bs, xs);
    BodyRequires(DuktapeWorld(defs), depth, busy, s, Join(bs), first, req, rest);
  }

  // A load that ended like e leaves this state and returns this outcome.
  ghost predicate LoadEnds(e: (State, Outcome), after: State, r: Outcome, key: Id, m: nat) {
    if e.1.Threw? then (after, r) == DeleteRethrow(e.0, key, e.1.error)
    else m < |e.0.modules| && (after, r) == ReturnExports(e.0, key, m)
  }

  // The parent text is all the code passes on of the base.
  lemma SameParent(world: World, depth: nat, busy: set<Id>, s: State, base: Option<Id>, req: seq<Byte>)
    requires Ready(world, busy, s) && world.kind.NodeStyle? && ResolvesOk(world, req, base)
    ensures RequireS(world, depth, busy, s, base, req) == RequireS(world, depth, busy, s, Some(ParentText(base)), req)
  {
  }

  // What the search or load callback leaves on the stack.
  function CallbackResult(source: ModuleLoader.Source): Value {
    match source
    case Undefined => UndefinedValue
    case NotAString => OtherValue
    case BadSource => ValueStack.Source
    case Body(_) => ValueStack.Source
  }

  class Context {
    const world: World
    var modules: seq<Module>
    var cache: map<Id, nat>
    ghost var log: seq<Event>

    // duk_module_duktape_init, and duk_module_node_init with its resolve callback.
    constructor Duktape(defs: map<Id, Definition>)
      ensures world == DuktapeWorld(defs) && WorldOk(world) && Current() == START
    {
      world := DuktapeWorld(defs);
      modules, cache, log := [], map[], [];
      new;
      WorldsOk(defs, ResolveCallback((req, parent) => CannotResolve, (req, parent) => []));
    }

    constructor Node(defs: map<Id, Definition>, callback: ResolveCallback)
      ensures world == NodeWorld(defs, callback) && WorldOk(world) && Current() == START
    {
      world := NodeWorld(defs, callback);
      modules, cache, log := [], map[], [];
      new;
      WorldsOk(defs, callback);
    }

    ghost function Current(): State
      reads this
    {
      State(modules, cache, log)
    }

    // -------------------------------------------------- running scripts

    // Steps of module m; its require() resolves against id.
    method RunSteps(m: nat, id: Id, steps: seq<Step>, depth: nat, ghost busy: set<Id>) returns (r: Outcome)
      requires WorldOk(world) && Ready(world, busy, Current()) && m < |modules|
      modifies this
      ensures (Current(), r) == RunS(world, depth, busy, old(Current()), m, id, steps)
      decreases depth, |world.defs.Keys - busy|, 1, |steps|
    {
      if steps == [] { return Returned(modules[m].exports); }
      match steps[0]
      case Throw(code) =>
        return Threw(UserError(code));
      case SetExports(v) =>
        modules := modules[m := modules[m].(exports := Assigned(v))];
        r := RunSteps(m, id, steps[1..], depth, busy);
      case Require(req) =>
        var r1 := CallRequire(Some(id), req, depth, busy);
        if r1.Threw? { return r1; }
        r := RunSteps(m, id, steps[1..], depth, busy);
      case TryRequire(req) =>
        var r1 := CallRequire(Some(id), req, depth, busy);
        r := RunSteps(m, id, steps[1..], depth, busy);
    }

    // What a callback does outside any module: its require() is the global one.
    method RunCallback(steps: seq<Step>, depth: nat, ghost busy: set<Id>) returns (error: Option<Error>)
      requires WorldOk(world) && Ready(world, busy, Current())
      modifies this
      ensures (Current(), error) == StepsS(world, depth, busy, old(Current()), steps)
      decreases depth, |world.defs.Keys - busy|, 4, |steps|
    {
      if steps == [] { return None; }
      match steps[0]
      case Throw(code) =>
        return Some(UserError(code));
      case SetExports(_) =>
        error := RunCallback(steps[1..], depth, busy);
      case Require(req) =>
        var r1 := CallRequire(None, req, depth, busy);
        if r1.Threw? { return Some(r1.error); }
        error := RunCallback(steps[1..], depth, busy);
      case TryRequire(req) =>
        var r1 := CallRequire(None, req, depth, busy);
        error := RunCallback(steps[1..], depth, busy);
    }

    // The resolve callback before it answers: its calls nest at most to 'depth'.
    method Ask(req: seq<Byte>, parent: Option<Id>, depth: nat, ghost busy: set<Id>) returns (error: Option<Error>)
      requires WorldOk(world) && Ready(world, busy, Current())
      modifies this
      ensures (Current(), error) == AskS(world, depth, busy, old(Current()), parent, req)
      decreases depth, |world.defs.Keys - busy|, 0, 1
    {
      var steps := world.asks(req, parent);
      if steps == [] { return None; }
      if depth == 0 { return Some(TooDeep); }
      error := RunCallback(steps, depth - 1, busy);
    }

    // require(req) of the module 'base'.
    method CallRequire(base: Option<Id>, req: seq<Byte>, depth: nat, ghost busy: set<Id>) returns (r: Outcome)
      requires WorldOk(world) && Ready(world, busy, Current())
      modifies this
      ensures (Current(), r) == RequireS(world, depth, busy, old(Current()), base, req)
      decreases depth, |world.defs.Keys - busy|, 0, 3
    {
      if world.kind == DuktapeStyle {
        r := DuktapeRequire(base, req, depth, busy);
      } else {
        r := NodeRequire(base, req, depth, busy);
      }
    }

    // ------------------------------------------------------ duk__require

    method DuktapeRequire(base: Option<Id>, req: seq<Byte>, depth: nat, ghost busy: set<Id>) returns (r: Outcome)
      requires WorldOk(world) && world.kind.DuktapeStyle? && Ready(world, busy, Current())
      modifies this
      ensures (Current(), r) == RequireS(world, depth, busy, old(Current()), base, req)
      decreases depth, |world.defs.Keys - busy|, 0, 2
    {
      assert ResolvesOk(world, req, base);
      var f: Frame := [Text(req)];
      f := Push(f, RequireFunction(base));
      f := Push(f, IdValue(Get(f, -1).base));
      var modId := if Get(f, IDX_REQUIRE_ID).Text? then Some(Get(f, IDX_REQUIRE_ID).s) else None;
      var resolution := ResolveModuleId(Get(f, IDX_REQUESTED_ID).s, modId);
      if resolution.CannotResolve? { return Threw(UnresolvedId(req)); }
      f := Push(Push(f, Text(resolution.id)), Text(resolution.last));
      assert |f| == IDX_LASTCOMP + 1;
      r := DuktapeLookup(f, resolution.id, depth, busy);
    }

    // Look the resolved id up in Duktape.modLoaded.
    method DuktapeLookup(f0: Frame, id: Id, depth: nat, ghost busy: set<Id>) returns (r: Outcome)
      requires WorldOk(world) && world.kind.DuktapeStyle? && Ready(world, busy, Current())
      requires |f0| == IDX_LASTCOMP + 1 && f0[IDX_RESOLVED_ID] == Text(id) && f0[IDX_LASTCOMP].Text?
      modifies this
      ensures (Current(), r) == RequireIdS(world, depth, busy, old(Current()), id)
      decreases depth, |world.defs.Keys - busy|, 0, 1, 1
    {
      var f := Push(f0, Stash);
      f := Push(f, DuktapeObject);
      f := Remove(f, -2);
      f := PushCache(f, IDX_DUKTAPE);
      assert |f| == IDX_MODLOADED + 1 && f[IDX_DUKTAPE] == DuktapeObject && f[IDX_MODLOADED] == CacheObject;

      f := Dup(f, IDX_RESOLVED_ID);
      assert IsCache(f, IDX_MODLOADED);
      if Get(f, -1).s in cache {
        f := Replace(f, 1, ModuleObject(cache[Get(f, -1).s]));
        f := Push(f, ExportsValue(modules[Get(f, -1).m].exports));
        log := log + [Hit(id)];
        return TopOutcome(f);
      }
      f := Replace(f, 1, UndefinedValue);
      assert |f| == IDX_UNDEFINED + 1;
      r := DuktapeLoad(f, id, depth, busy);
    }

    // A module that is not in modLoaded.
    method DuktapeLoad(f0: Frame, id: Id, depth: nat, ghost busy: set<Id>) returns (r: Outcome)
      requires WorldOk(world) && world.kind.DuktapeStyle? && Ready(world, busy, Current()) && id !in cache
      requires |f0| == IDX_UNDEFINED + 1 && f0[IDX_RESOLVED_ID] == Text(id) && f0[IDX_LASTCOMP].Text?
      requires f0[IDX_DUKTAPE] == DuktapeObject && f0[IDX_MODLOADED] == CacheObject
      modifies this
      ensures (Current(), r) == LoadS(world, depth, busy, old(Current()), id)
      decreases depth, |world.defs.Keys - busy|, 0, 1, 0
    {
      ghost var s0 := Current();
      var m := |modules|;
      var f := DuktapeRegister(f0, id);
      f := Push(f, Text([]));
      f := PushCallback(f, IDX_DUKTAPE);
      f := Dup(f, IDX_RESOLVED_ID);
      f := Dup(f, IDX_FRESH_REQUIRE);
      f := Dup(f, IDX_EXPORTS);
      f := Dup(f, IDX_MODULE);
      var out := Search(Get(f, -1).m, Get(f, -4).s, Get(f, -3).base, depth, busy);
      LoadExtends(s0, id, Current(), Failed(id));
      r := DuktapeAfterSearch(f, id, m, depth, busy, out);
    }

    // Make the fresh require, exports and module objects, and register the module.
    method DuktapeRegister(f0: Frame, id: Id) returns (f: Frame)
      requires |f0| == IDX_UNDEFINED + 1 && f0[IDX_RESOLVED_ID] == Text(id) && f0[IDX_LASTCOMP].Text?
      requires f0[IDX_DUKTAPE] == DuktapeObject && f0[IDX_MODLOADED] == CacheObject
      modifies this
      ensures Current() == Register(old(Current()), id)
      ensures |f| == IDX_MODULE + 1 && LoadFrame(f, id, |old(modules)|)
    {
      f := Push(f0, RequireFunction(Some(Get(f0, IDX_RESOLVED_ID).s)));
      var m := |modules|;
      f := Push(f, ExportsValue(Fresh(m)));
      f := Push(f, ModuleObject(m));
      modules := modules + [Module(Get(f, IDX_RESOLVED_ID).s, Get(f, IDX_EXPORTS).e, false)];
      assert |f| == IDX_MODULE + 1;
      f := Dup(f, IDX_RESOLVED_ID);
      f := Dup(f, IDX_MODULE);
      assert IsCache(f, IDX_MODLOADED);
      cache := cache[Get(f, -2).s := Get(f, -1).m];
      f := Drop(f, 2);
      log := log + [Begin(id)];
    }

    // The callback and its four arguments give way to its result or error.
    method DuktapeAfterSearch(f0: Frame, id: Id, m: nat, depth: nat, ghost busy: set<Id>, out: Outcome)
      returns (r: Outcome)
      requires WorldOk(world) && world.kind.DuktapeStyle? && WellFormed(Current()) && m < |modules|
      requires |f0| == IDX_MODULE + 7 && LoadFrame(f0, id, m)
      requires id !in busy && (out.Returned? ==> id in world.defs && Ready(world, busy + {id}, Current()))
      modifies this
      ensures out.Threw? ==> (Current(), r) == DeleteRethrow(old(Current()), id, out.error)
      ensures out.Returned? ==>
        LoadEnds(EvaluateS(world, depth, busy + {id}, old(Current()), m, id), Current(), r, id, m)
      decreases depth, |world.defs.Keys - busy|, 0, 0
    {
      var f := Replace(f0, 5, if out.Threw? then ErrorValue(out.error) else CallbackResult(world.defs[id].source));
      assert |f| == IDX_MODULE + 3;
      SameLoadFrame(f0, f, id, m);
      if out.Threw? {
        r := DuktapeDeleteRethrow(f, id);
      } else {
        OneMoreBusy(world, busy, id);
        r := DuktapeEvaluate(f, id, m, depth, busy + {id});
      }
    }

    // The search or load callback, called with these arguments.
    method Search(m: nat, id: Id, require: Option<Id>, depth: nat, ghost busy: set<Id>) returns (r: Outcome)
      requires WorldOk(world) && m < |modules| && require == Some(Key(world, id)) && WellFormed(Current())
      requires id !in busy && Key(world, id) in cache
      requires busy <= world.defs.Keys && forall k :: k in busy ==> Key(world, k) in cache
      modifies this
      ensures id !in world.defs ==> r == Threw(NotFound(id)) && Current() == old(Current())
      ensures id in world.defs ==>
        Ready(world, busy + {id}, old(Current()))
          && (Current(), r) == RunS(world, depth, busy + {id}, old(Current()), m, Key(world, id), world.defs[id].search)
      decreases depth, |world.defs.Keys - busy|, 0, 0
    {
      if id !in world.defs { return Threw(NotFound(id)); }
      OneMoreBusy(world, busy, id);
      r := RunSteps(m, require.value, world.defs[id].search, depth, busy + {id});
    }

    // Source text, a module that needs none, or a failure.
    method DuktapeEvaluate(f0: Frame, id: Id, m: nat, depth: nat, ghost busy: set<Id>) returns (r: Outcome)
      requires WorldOk(world) && world.kind.DuktapeStyle? && Ready(world, busy, Current()) && m < |modules|
      requires id in world.defs && |f0| == IDX_MODULE + 3 && LoadFrame(f0, id, m)
      requires f0[IDX_MODULE + 2] == CallbackResult(world.defs[id].source)
      modifies this
      ensures LoadEnds(EvaluateS(world, depth, busy, old(Current()), m, id), Current(), r, id, m)
      decreases depth, |world.defs.Keys - busy|, 4, 0
    {
      var f := f0;
      if !(Get(f, -1).Text? || Get(f, -1).Source?) {
        r := DuktapeReturnExports(f, id, m);
        return;
      }
      f := Push(f, Text([]));
      f := Replace(f, 3, ValueStack.Source);
      f := Dup(f, IDX_RESOLVED_ID);
      f := Replace(f, 2, if world.defs[id].source.BadSource? then ErrorValue(SyntaxError(id)) else CompiledFunction);
      assert |f| == IDX_MODULE + 2;
      SameLoadFrame(f0, f, id, m);
      if Get(f, -1).ErrorValue? {
        r := DuktapeDeleteRethrow(f, id);
        return;
      }
      f := Replace(f, 1, CompiledFunction);
      f := Push(f, Text([]));
      f := Dup(f, IDX_LASTCOMP);
      assert Get(f, -3) == CompiledFunction;
      f := Drop(f, 2);
      assert |f| == IDX_MODULE + 2;
      SameLoadFrame(f0, f, id, m);
      r := DuktapeCallBody(f, id, m, depth, busy);
    }

    // Call the wrapped module function.
    method DuktapeCallBody(f0: Frame, id: Id, m: nat, depth: nat, ghost busy: set<Id>) returns (r: Outcome)
      requires WorldOk(world) && world.kind.DuktapeStyle? && Ready(world, busy, Current()) && m < |modules|
      requires id in world.defs && world.defs[id].source.Body?
      requires |f0| == IDX_MODULE + 2 && LoadFrame(f0, id, m) && f0[IDX_MODULE + 1] == CompiledFunction
      modifies this
      ensures LoadEnds(RunBodyS(world, depth, busy, old(Current()), m, id, world.defs[id].source.steps), Current(),
        r, id, m)
      decreases depth, |world.defs.Keys - busy|, 3, 0
    {
      var f := Dup(f0, IDX_EXPORTS);
      f := Dup(f, IDX_FRESH_REQUIRE);
      f := Push(f, ExportsValue(modules[Get(f, IDX_MODULE).m].exports));
      f := Dup(f, IDX_MODULE);
      assert |f| == IDX_MODULE + 6 && Get(f, -5) == CompiledFunction;
      var out := RunSteps(Get(f, -1).m, Get(f, -3).base.value, world.defs[id].source.steps, depth, busy);
      f := Replace(f, 5, if out.Threw? then ErrorValue(out.error) else OtherValue);
      assert |f| == IDX_MODULE + 2;
      SameLoadFrame(f0, f, id, m);
      if out.Threw? {
        r := DuktapeDeleteRethrow(f, id);
      } else {
        r := DuktapeReturnExports(f, id, m);
      }
    }

    // return_exports: the exports of the module table at its index.
    method DuktapeReturnExports(f0: Frame, id: Id, m: nat) returns (r: Outcome)
      requires LoadFrame(f0, id, m) && m < |modules|
      modifies this`log
      ensures m < |old(modules)| && (Current(), r) == ReturnExports(old(Current()), id, m)
    {
      var f := Push(f0, ExportsValue(modules[Get(f0, IDX_MODULE).m].exports));
      log := log + [Done(id)];
      r := TopOutcome(f);
    }

    // delete_rethrow: the error on top survives the deletion.
    method DuktapeDeleteRethrow(f0: Frame, id: Id) returns (r: Outcome)
      requires |f0| > IDX_MODLOADED && f0[IDX_RESOLVED_ID] == Text(id) && f0[IDX_MODLOADED] == CacheObject
      requires f0[|f0| - 1].ErrorValue?
      modifies this`cache, this`log
      ensures (Current(), r) == DeleteRethrow(old(Current()), id, f0[|f0| - 1].error)
    {
      var f := Dup(f0, IDX_RESOLVED_ID);
      assert IsCache(f, IDX_MODLOADED);
      cache := cache - {Get(f, -1).s};
      f := Drop(f, 1);
      log := log + [Failed(id)];
      r := TopOutcome(f);
    }

    // Requires from outside any module, errors caught.
    method RunProgram(reqs: seq<seq<Byte>>, depth: nat)
      requires WorldOk(world) && WellFormed(Current())
      modifies this
      ensures Current() == Program(world, depth, old(Current()), reqs)
    {
      for i := 0 to |reqs|
        invariant WellFormed(Current())
        invariant Program(world, depth, Current(), reqs[i..]) == Program(world, depth, old(Current()), reqs)
      {
        assert reqs[i..][0] == reqs[i] && reqs[i..][1..] == reqs[i + 1..];
        var _ := CallRequire(None, reqs[i], depth, {});
      }
    }

    // ------------------------------------------------- duk__handle_require

    // duk__get_cached_module, with a C string: on a hit, the module and nothing
    // else is added.
    method GetCachedModule(f0: Frame, id: Id) returns (hit: bool, f: Frame)
      ensures hit <==> Cut(id) in cache
      ensures f == if hit then Push(f0, ModuleObject(cache[Cut(id)])) else f0
    {
      f := Push(f0, Stash);
      f := PushCache(f, -1);
      assert IsCache(f, -1);
      if Cut(id) in cache {
        f := Push(f, ModuleObject(cache[Cut(id)]));
        f := Remove(f, -2);
        f := Remove(f, -2);
        hit := true;
      } else {
        f := Push(f, UndefinedValue);
        f := Drop(f, 3);
        hit := false;
      }
    }

    // duk__put_cached_module: cache the module on top under its id, and leave it there.
    method PutCachedModule(f0: Frame) returns (f: Frame)
      requires f0 != [] && f0[|f0| - 1].ModuleObject? && f0[|f0| - 1].m < |modules|
      modifies this`cache
      ensures f == f0 && cache == old(cache)[modules[f0[|f0| - 1].m].id := f0[|f0| - 1].m]
    {
      f := Push(f0, Stash);
      f := PushCache(f, -1);
      f := Dup(f, -3);
      f := Push(f, Text(modules[Get(f, -1).m].id));
      f := Dup(f, -2);
      assert IsCache(f, -4);
      cache := cache[Get(f, -2).s := Get(f, -1).m];
      f := Drop(f, 2);
      f := Drop(f, 3);
    }

    // duk__del_cached_module, with a C string; it leaves the stack as it was.
    method DelCachedModule(f0: Frame, id: Id) returns (f: Frame)
      modifies this`cache
      ensures f == f0 && cache == old(cache) - {Cut(id)}
    {
      f := Push(f0, Stash);
      f := PushCache(f, -1);
      assert IsCache(f, -1);
      cache := cache - {Cut(id)};
      f := Drop(f, 2);
    }

    method NodeRequire(base: Option<Id>, req: seq<Byte>, depth: nat, ghost busy: set<Id>) returns (r: Outcome)
      requires WorldOk(world) && world.kind.NodeStyle? && Ready(world, busy, Current())
      modifies this
      ensures (Current(), r) == RequireS(world, depth, busy, old(Current()), base, req)
      decreases depth, |world.defs.Keys - busy|, 0, 2
    {
      var f: Frame := [Text(req)];
      f := Push(f, Stash);
      var stashIdx := |f| - 1;
      f := Push(f, RequireFunction(base));
      f := Push(f, Text(ParentText(Get(f, -1).base)));

      f := PushCallback(f, stashIdx);
      f := Dup(f, 0);
      f := Dup(f, -3);
      assert ResolvesOk(world, req, base);
      SameParent(world, depth, busy, Current(), base, req);
      var error := Ask(Get(f, -2).s, Some(Get(f, -1).s), depth, busy);
      if error.Some? { return Threw(error.value); }
      var resolution := world.resolve(Get(f, -2).s, Some(Get(f, -1).s));
      if resolution.CannotResolve? { return Threw(UnresolvedId(req)); }
      f := Replace(f, 3, Text(resolution.id));
      r := NodeLookup(f, stashIdx, Get(f, -1).s, depth, busy);
    }

    // Look the resolved id up in the require cache.
    method NodeLookup(f0: Frame, stashIdx: nat, id: Id, depth: nat, ghost busy: set<Id>) returns (r: Outcome)
      requires WorldOk(world) && world.kind.NodeStyle? && Ready(world, busy, Current())
      requires stashIdx < |f0| && f0[stashIdx] == Stash && f0[|f0| - 1] == Text(id)
      modifies this
      ensures (Current(), r) == RequireIdS(world, depth, busy, old(Current()), id)
      decreases depth, |world.defs.Keys - busy|, 0, 1, 1
    {
      var hit, f := GetCachedModule(f0, id);
      if hit {
        f := Push(f, ExportsValue(modules[Get(f, -1).m].exports));
        log := log + [Hit(Cut(id))];
        return TopOutcome(f);
      }
      r := NodeLoad(f, stashIdx, id, depth, busy);
    }

    method NodeLoad(f0: Frame, stashIdx: nat, id: Id, depth: nat, ghost busy: set<Id>) returns (r: Outcome)
      requires WorldOk(world) && world.kind.NodeStyle? && Ready(world, busy, Current()) && Key(world, id) !in cache
      requires stashIdx < |f0| && f0[stashIdx] == Stash && f0[|f0| - 1] == Text(id)
      modifies this
      ensures (Current(), r) == LoadS(world, depth, busy, old(Current()), id)
      decreases depth, |world.defs.Keys - busy|, 0, 1, 0
    {
      ghost var s0 := Current();
      var m := |modules|;
      var f := NodeRegister(f0, id);
      var moduleIdx := |f| - 1;
      f := PushCallback(f, stashIdx);
      f := Dup(f, -3);
      f := Push(f, ExportsValue(modules[Get(f, moduleIdx).m].exports));
      f := Dup(f, moduleIdx);
      var out := Search(Get(f, -1).m, Get(f, -3).s, Some(modules[Get(f, -1).m].id), depth, busy);
      LoadExtends(s0, Cut(id), Current(), Failed(Cut(id)));
      if id in world.defs { SearchKeepsId(world, depth, busy, s0, id); }
      r := NodeAfterLoad(f, id, m, depth, busy, out);
    }

    static lemma SearchKeepsId(world: World, depth: nat, busy: set<Id>, s: State, id: Id)
      requires Ready(world, busy, s) && Key(world, id) !in s.loaded && id in world.defs
      ensures var key, s1 := Key(world, id), Register(s, Key(world, id));
        && Ready(world, busy + {id}, s1)
        && RunS(world, depth, busy + {id}, s1, |s.modules|, key, world.defs[id].search).0.modules[|s.modules|].id == key
    {
      var key := Key(world, id);
      RunKeepsModules(world, depth, busy + {id}, Register(s, key), |s.modules|, key, world.defs[id].search);
    }

    // duk__push_module_object, with a C string, and duk__put_cached_module.
    method NodeRegister(f0: Frame, id: Id) returns (f: Frame)
      modifies this
      ensures Current() == Register(old(Current()), Cut(id)) && f == Push(f0, ModuleObject(|old(modules)|))
    {
      var m := |modules|;
      modules := modules + [Module(Cut(id), Fresh(m), false)];
      f := Push(f0, ModuleObject(m));
      f := PutCachedModule(f);
      log := log + [Begin(Cut(id))];
    }

    // Forget the module, and throw the error on top.
    method NodeDeleteRethrow(f0: Frame, id: Id) returns (r: Outcome)
      requires f0 != [] && f0[|f0| - 1].ErrorValue?
      modifies this`cache, this`log
      ensures (Current(), r) == DeleteRethrow(old(Current()), Cut(id), f0[|f0| - 1].error)
    {
      var f := DelCachedModule(f0, id);
      log := log + [Failed(Cut(id))];
      r := TopOutcome(f);
    }

    // [ ... module modLoad id exports module ] gives way to [ ... module result ].
    method NodeAfterLoad(f0: Frame, id: Id, m: nat, depth: nat, ghost busy: set<Id>, out: Outcome) returns (r: Outcome)
      requires WorldOk(world) && world.kind.NodeStyle? && WellFormed(Current()) && m < |modules|
      requires |f0| >= 5 && f0[|f0| - 5] == ModuleObject(m)
      requires id !in busy
      requires out.Returned? ==>
        id in world.defs && Ready(world, busy + {id}, Current()) && modules[m].id == Key(world, id)
      modifies this
      ensures out.Threw? ==> (Current(), r) == DeleteRethrow(old(Current()), Key(world, id), out.error)
      ensures out.Returned? ==>
        LoadEnds(EvaluateS(world, depth, busy + {id}, old(Current()), m, id), Current(), r, Key(world, id), m)
      decreases depth, |world.defs.Keys - busy|, 0, 0
    {
      var f := Replace(f0, 4, if out.Threw? then ErrorValue(out.error) else CallbackResult(world.defs[id].source));
      assert |f| == |f0| - 3 && f[|f| - 2] == ModuleObject(m);
      if out.Threw? {
        r := NodeDeleteRethrow(f, id);
      } else {
        OneMoreBusy(world, busy, id);
        r := NodeEvaluate(f, id, m, depth, busy + {id});
      }
    }

    method NodeEvaluate(f0: Frame, id: Id, m: nat, depth: nat, ghost busy: set<Id>) returns (r: Outcome)
      requires WorldOk(world) && world.kind.NodeStyle? && Ready(world, busy, Current())
      requires m < |modules| && modules[m].id == Key(world, id)
      requires id in world.defs && |f0| >= 2 && f0[|f0| - 2] == ModuleObject(m)
      requires f0[|f0| - 1] == CallbackResult(world.defs[id].source)
      modifies this
      ensures LoadEnds(EvaluateS(world, depth, busy, old(Current()), m, id), Current(), r, Key(world, id), m)
      decreases depth, |world.defs.Keys - busy|, 4, 0
    {
      var f := f0;
      if Get(f, -1).Source? {
        var ok;
        f, ok := EvalModuleSource(f, id, m, depth, busy);
        if !ok {
          r := NodeDeleteRethrow(f, id);
          return;
        }
      } else if Get(f, -1).UndefinedValue? {
        f := Drop(f, 1);
      } else {
        r := NodeDeleteRethrow(Push(f, ErrorValue(InvalidResult(Cut(id)))), id);
        return;
      }
      f := Push(f, ExportsValue(modules[Get(f, -1).m].exports));
      log := log + [Done(Cut(id))];
      r := TopOutcome(f);
    }

    // The wrapped source and the file name, on top of [ ... module source ].
    method WrapSource(f0: Frame, m: nat) returns (f: Frame)
      requires |f0| >= 2 && f0[|f0| - 2] == ModuleObject(m) && f0[|f0| - 1] == ValueStack.Source && m < |modules|
      ensures f == f0 + [ValueStack.Source, Text(modules[m].id)]
    {
      f := Push(f0, Text([]));
      f := Push(f, Text([]));
      f := Dup(f, -3);
      assert Get(f, -1) == ValueStack.Source;
      f := Push(f, Text([]));
      f := Replace(f, 4, ValueStack.Source);
      assert f == f0 + [ValueStack.Source];
      f := Push(f, Text(modules[Get(f, -3).m].id));
    }

    // duk__eval_module_source under duk_safe_call: [ ... module source ] becomes
    // [ ... module ], or [ ... error ].
    method EvalModuleSource(f0: Frame, id: Id, m: nat, depth: nat, ghost busy: set<Id>) returns (f: Frame, ok: bool)
      requires WorldOk(world) && world.kind.NodeStyle? && Ready(world, busy, Current())
      requires m < |modules| && modules[m].id == Key(world, id)
      requires |f0| >= 2 && f0[|f0| - 2] == ModuleObject(m) && f0[|f0| - 1] == ValueStack.Source
      requires id in world.defs && (world.defs[id].source.BadSource? || world.defs[id].source.Body?)
      modifies this
      ensures var e := EvaluateS(world, depth, busy, old(Current()), m, id);
        && Current() == e.0 && m < |modules| && ok == e.1.Returned?
        && f == Replace(f0, 2, if ok then ModuleObject(m) else ErrorValue(e.1.error))
      decreases depth, |world.defs.Keys - busy|, 3, 0
    {
      f := WrapSource(f0, m);
      if world.defs[id].source.BadSource? {
        return Replace(f0, 2, ErrorValue(SyntaxError(modules[m].id))), false;
      }
      f := Replace(f, 2, CompiledFunction);
      assert f == f0 + [CompiledFunction];
      f := Replace(f, 1, CompiledFunction);
      f := Push(Push(f, Text([])), Text([]));
      assert Get(f, -3) == CompiledFunction;
      f := Drop(f, 2);
      assert f == f0 + [CompiledFunction];
      f, ok := NodeCallBody(f, world.defs[id].source.steps, Key(world, id), m, depth, busy);
    }

    // Call the wrapper of the module on [ ... module source func ], then mark it.
    method NodeCallBody(f0: Frame, steps: seq<Step>, ghost key: Id, m: nat, depth: nat, ghost busy: set<Id>)
      returns (f: Frame, ok: bool)
      requires WorldOk(world) && world.kind.NodeStyle? && Ready(world, busy, Current())
      requires m < |modules| && modules[m].id == key
      requires |f0| >= 3 && f0[|f0| - 3] == ModuleObject(m) && f0[|f0| - 1] == CompiledFunction
      modifies this
      ensures var e := RunBodyS(world, depth, busy, old(Current()), m, key, steps);
        && Current() == e.0 && m < |modules| && ok == e.1.Returned?
        && f == Replace(f0, 3, if ok then ModuleObject(m) else ErrorValue(e.1.error))
      decreases depth, |world.defs.Keys - busy|, 2, 0
    {
      f := Push(f0, ExportsValue(modules[Get(f0, -3).m].exports));
      f := Push(f, RequireFunction(Some(modules[Get(f, -4).m].id)));
      f := Dup(f, -5);
      f := Push(f, Text(modules[Get(f, -6).m].id));
      f := Push(f, UndefinedValue);
      assert Get(f, -6) == CompiledFunction;
      var out := RunSteps(Get(f, -3).m, Get(f, -4).base.value, steps, depth, busy);
      if out.Threw? { return Replace(f0, 3, ErrorValue(out.error)), false; }
      f := Replace(f, 6, OtherValue);
      assert f == f0[..|f0| - 1] + [OtherValue];
      f := Push(f, OtherValue);
      modules := modules[m := modules[Get(f, -4).m].(loaded := true)];
      f := Drop(f, 1);
      f := Drop(f, 2);
      ok := true;
    }
  }
}
