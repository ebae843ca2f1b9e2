// The part of a Duktape value stack that one C function sees.
module ValueStack {
  import opened Octets
  import opened ModuleId
  import opened ModuleLoader

  datatype Value =
    | UndefinedValue
    | OtherValue
    | Text(s: seq<Byte>)
    | Source
    | CompiledFunction
    | RequireFunction(base: Option<Id>)
    | Callback
    | Stash
    | DuktapeObject
    | CacheObject
    | ExportsValue(e: Exports)
    | ModuleObject(m: nat)
    | ErrorValue(error: Error)

  type Frame = seq<Value>

  // Nonnegative indices count from the bottom, negative ones from the top.
  predicate ValidIndex(f: Frame, i: int) {
    -|f| <= i < |f|
  }

  function Place(f: Frame, i: int): (p: nat)
    requires ValidIndex(f, i)
    ensures p < |f|
  {
    if i < 0 then |f| + i else i
  }

  function Get(f: Frame, i: int): Value
    requires ValidIndex(f, i)
  {
    f[Place(f, i)]
  }

  function Push(f: Frame, v: Value): Frame {
    f + [v]
  }

  function Dup(f: Frame, i: int): Frame
    requires ValidIndex(f, i)
  {
    f + [Get(f, i)]
  }

  function Drop(f: Frame, n: nat): Frame
    requires n <= |f|
  {
    f[..|f| - n]
  }

  function Remove(f: Frame, i: int): Frame
    requires ValidIndex(f, i)
  {
    f[..Place(f, i)] + f[Place(f, i) + 1..]
  }

  // The stash and the Duktape object hold the module cache and the callbacks.
  predicate IsHolder(v: Value) {
    v.Stash? || v.DuktapeObject?
  }

  // Get the callback, or the cache, from the holder at index i.
  function PushCallback(f: Frame, i: int): Frame
    requires ValidIndex(f, i) && IsHolder(Get(f, i))
  {
    Push(f, Callback)
  }

  function PushCache(f: Frame, i: int): Frame
    requires ValidIndex(f, i) && IsHolder(Get(f, i))
  {
    Push(f, CacheObject)
  }

  // The object at index i is the cache: the next access reads or writes it.
  predicate IsCache(f: Frame, i: int) {
    ValidIndex(f, i) && Get(f, i).CacheObject?
  }

  // A call replaces a function and its arguments by the result, or the error.
  function Replace(f: Frame, n: nat, v: Value): Frame
    requires n <= |f|
  {
    f[..|f| - n] + [v]
  }

  // The text of require.id, or undefined outside any module.
  function IdValue(base: Option<Id>): Value {
    if base.Some? then Text(base.value) else UndefinedValue
  }

  // What a C function returns or throws: the value on top of its stack.
  predicate HasOutcome(f: Frame) {
    f != [] && (f[|f| - 1].ExportsValue? || f[|f| - 1].ErrorValue?)
  }

  function TopOutcome(f: Frame): Outcome
    requires HasOutcome(f)
  {
    var v := f[|f| - 1];
    if v.ExportsValue? then Returned(v.e) else Threw(v.error)
  }
}
