// The string pool of strpool.go: a slice of chunk objects that callers share.
module StringPoolObjects {
  import opened Octets
  import opened StringPoolModel
  import opened StringPoolLaws

  // Length of the byte array that GetStringPointer views a chunk as.
  const SLICE_LIMIT: nat := 0x4000_0000

  // A chunk: malloced memory, its size, and whether a caller holds it.
  class StringPointer {
    ghost const id: nat
    const p: array<Byte>
    const cap: nat
    var inuse: bool

    // C.malloc, on behalf of the caller of get.
    constructor (ghost id: nat, cap: nat)
      ensures this.id == id && this.cap == cap && inuse && p.Length == cap && fresh(p)
    {
      this.id, this.cap := id, cap;
      p := new Byte[cap];
      inuse := true;
    }

    ghost predicate Is(s: Slot)
      reads this
    {
      id == s.id && cap == s.cap && inuse == s.inuse && p.Length == cap
    }
  }

  ghost predicate Mirror(pool: seq<StringPointer>, slots: seq<Slot>)
    reads pool
  {
    |pool| == |slots| && forall i :: 0 <= i < |pool| ==> pool[i].Is(slots[i])
  }

  // Chunks do not share memory.
  ghost predicate Separate(pool: seq<StringPointer>) {
    forall c, d :: c in pool && d in pool && c != d ==> c.p != d.p
  }

  // sort.Slice(pool, lessThan): some order by capacity.
  method SortByCap(pool: seq<StringPointer>, ghost slots: seq<Slot>)
    returns (r: seq<StringPointer>, ghost sorted: seq<Slot>)
    requires Mirror(pool, slots)
    ensures Mirror(r, sorted) && SortedOrder(slots, sorted)
    ensures forall c :: c in r <==> c in pool
  {
    r, sorted := [], [];
    for k := 0 to |pool|
      invariant Mirror(r, sorted) && SortedOrder(slots[..k], sorted) && SameChunks(r, pool[..k])
    {
      assert pool[k].Is(slots[k]);
      assert slots[..k + 1] == slots[..k] + [slots[k]] && pool[..k + 1] == pool[..k] + [pool[k]];
      r, sorted := InsertByCap(r, sorted, pool[k], slots[k]);
    }
    assert slots[..|pool|] == slots && pool[..|pool|] == pool;
  }

  ghost predicate SameChunks(a: seq<StringPointer>, b: seq<StringPointer>) {
    (forall c :: c in a ==> c in b) && (forall c :: c in b ==> c in a)
  }

  method InsertByCap(s: seq<StringPointer>, ghost slots: seq<Slot>, c: StringPointer, ghost x: Slot)
    returns (r: seq<StringPointer>, ghost sorted: seq<Slot>)
    requires Mirror(s, slots) && Sorted(slots) && c.Is(x)
    ensures Mirror(r, sorted) && Sorted(sorted) && multiset(sorted) == multiset(slots) + multiset{x}
    ensures forall d :: d in r <==> d in s || d == c
  {
    var j := |s|;
    while j > 0 && c.cap < s[j - 1].cap
      invariant 0 <= j <= |s|
      invariant forall i :: j <= i < |s| ==> x.cap < slots[i].cap
    {
      assert s[j - 1].Is(slots[j - 1]);
      j := j - 1;
    }
    assert j > 0 ==> s[j - 1].Is(slots[j - 1]);
    r := s[..j] + [c] + s[j..];
    sorted := slots[..j] + [x] + slots[j..];
    InsertKeepsSorted(slots, j, x, sorted);
    InsertMirrors(s, slots, c, x, j, r, sorted);
  }

  lemma InsertMirrors(s: seq<StringPointer>, slots: seq<Slot>, c: StringPointer, x: Slot, j: nat,
                      r: seq<StringPointer>, sorted: seq<Slot>)
    requires Mirror(s, slots) && c.Is(x) && j <= |s|
    requires r == s[..j] + [c] + s[j..] && sorted == slots[..j] + [x] + slots[j..]
    ensures Mirror(r, sorted) && multiset(sorted) == multiset(slots) + multiset{x}
    ensures forall d :: d in r <==> d in s || d == c
  {
    assert s == s[..j] + s[j..] && slots == slots[..j] + slots[j..];
  }

  lemma InsertKeepsSorted(s: seq<Slot>, j: nat, x: Slot, r: seq<Slot>)
    requires Sorted(s) && j <= |s| && r == s[..j] + [x] + s[j..]
    requires j > 0 ==> s[j - 1].cap <= x.cap
    requires forall i :: j <= i < |s| ==> x.cap < s[i].cap
    ensures Sorted(r)
  {
    forall i | 0 <= i < |r| ensures r[i] == if i < j then s[i] else if i == j then x else s[i - 1] {
    }
  }

  class Pool {
    // MaxMallocBytes, which does not change while the pool is in use.
    const limit: int
    var pool: seq<StringPointer>
    var allocatedBytes: int
    var statAllocs: nat
    var statReuses: nat
    var statFrees: nat
    ghost var state: State

    // The fields say what the state says.
    ghost predicate Consistent()
      reads this, pool
    {
      && Mirror(pool, state.slots) && Separate(pool)
      && allocatedBytes == state.allocatedBytes
      && statAllocs == state.statAllocs && statReuses == state.statReuses && statFrees == state.statFrees
    }

    ghost predicate Valid()
      reads this, pool
    {
      Consistent() && Inv(state, limit)
    }

    // NewStrPool
    constructor (limit: int)
      ensures Valid() && state == EMPTY && this.limit == limit
    {
      this.limit := limit;
      pool, allocatedBytes := [], 0;
      statAllocs, statReuses, statFrees := 0, 0, 0;
      state := EMPTY;
    }

    // freeExcess
    method FreeExcessChunks()
      requires Consistent()
      modifies this
      ensures Consistent() && state == FreeExcess(old(state), limit)
      ensures forall c :: c in pool ==> c in old(pool)
    {
      while allocatedBytes > limit
        invariant Consistent() && FreeExcess(state, limit) == FreeExcess(old(state), limit)
        invariant forall c :: c in pool ==> c in old(pool)
        decreases |pool|
      {
        var found, i := FindIdle();
        if !found { return; }
        EvictChunk(i);
      }
    }

    // The last idle chunk, searched backwards.
    method FindIdle() returns (found: bool, i: int)
      requires Consistent()
      ensures found <==> LastIdle(state.slots) < |state.slots|
      ensures found ==> i == LastIdle(state.slots)
    {
      i := |pool| - 1;
      while i >= 0
        invariant -1 <= i < |pool|
        invariant forall j :: i < j < |pool| ==> state.slots[j].inuse
      {
        assert pool[i].Is(state.slots[i]);
        if !pool[i].inuse { return true, i; }
        i := i - 1;
      }
      found := false;
    }

    // Free one chunk and take it out of the slice.
    method EvictChunk(i: nat)
      requires Consistent() && i < |pool|
      modifies this
      ensures Consistent() && state == EvictAt(old(state), i)
      ensures pool == RemoveAt(old(pool), i)
    {
      assert pool[i].Is(state.slots[i]);
      MirrorRemove(pool, state.slots, i);
      statFrees := statFrees + 1;
      allocatedBytes := allocatedBytes - pool[i].cap;
      pool := pool[..i] + pool[i + 1..];
      state := EvictAt(state, i);
    }

    static lemma MirrorRemove(pool: seq<StringPointer>, slots: seq<Slot>, i: nat)
      requires Mirror(pool, slots) && i < |pool|
      ensures Mirror(RemoveAt(pool, i), RemoveAt(slots, i))
      ensures forall c :: c in RemoveAt(pool, i) ==> c in pool
    {
    }

    // get
    method Get(cap: nat) returns (sp: StringPointer)
      requires Valid() && cap > 0
      modifies this, pool
      ensures Valid() && GetStep(old(state), limit, cap, state, sp.id)
      ensures sp in pool && sp.inuse && cap <= sp.p.Length
      ensures sp in old(pool) || (fresh(sp) && fresh(sp.p))
      ensures forall c :: c in pool ==> c in old(pool) || c == sp
    {
      for i := 0 to |pool|
        invariant Valid() && state == old(state) && pool == old(pool)
        invariant forall j :: 0 <= j < i ==> state.slots[j].inuse || state.slots[j].cap < cap
      {
        assert pool[i].Is(state.slots[i]);
        if !pool[i].inuse && pool[i].cap >= cap {
          FirstFitIs(state.slots, cap, i);
          sp := Reuse(i);
          return;
        }
      }
      sp := MakeNew(cap);
    }

    method Reuse(i: nat) returns (sp: StringPointer)
      requires Valid() && i < |pool|
      modifies this, pool[i]
      ensures Valid() && state == Take(old(state), i) && pool == old(pool)
      ensures sp == pool[i] && sp.inuse && sp.id == state.slots[i].id && sp.p.Length == state.slots[i].cap
    {
      TakeKeeps(state, i, limit);
      sp := pool[i];
      forall j | 0 <= j < |pool| ensures pool[j].Is(state.slots[j]) && (j != i ==> pool[j] != sp) {
        assert pool[i].Is(state.slots[i]) && pool[j].Is(state.slots[j]);
      }
      sp.inuse := true;
      statReuses := statReuses + 1;
      state := Take(state, i);
    }

    // Give the caller a new chunk, then let eviction make up for it.
    method MakeNew(cap: nat) returns (sp: StringPointer)
      requires Valid() && cap > 0
      modifies this
      ensures fresh(sp) && fresh(sp.p) && sp.inuse && cap <= sp.p.Length && sp.id == old(state).next
      ensures Valid() && GrowStep(old(state), limit, cap, state)
      ensures forall c :: c in pool ==> c in old(pool) || c == sp
      ensures sp in pool
    {
      NormalizedCapFits(cap);
      sp := new StringPointer(state.next, NormalizedCap(cap));
      ghost var sorted := Join(sp, cap);
      GrowKeeps(old(state), cap, sorted);
      ghost var grown := state;
      if allocatedBytes > limit { FreeExcessChunks(); }
      FreeExcessKeeps(grown, limit);
      NewChunkStays(old(pool), old(state), cap, sorted, grown, sp);
    }

    // Put a new chunk into the slice and sort it.
    method Join(sp: StringPointer, cap: nat) returns (ghost sorted: seq<Slot>)
      requires Consistent() && cap > 0 && sp.Is(NewSlot(state, cap))
      requires forall c :: c in pool ==> c != sp && c.p != sp.p
      modifies this
      ensures Consistent() && SortedOrder(old(state).slots + [NewSlot(old(state), cap)], sorted)
      ensures state == Grow(old(state), cap, sorted)
      ensures forall c :: c in pool <==> c in old(pool) || c == sp
    {
      var joined := pool + [sp];
      ghost var slots := state.slots + [NewSlot(state, cap)];
      assert Mirror(joined, slots);
      joined, sorted := SortByCap(joined, slots);
      statAllocs := statAllocs + 1;
      pool := joined;
      allocatedBytes := allocatedBytes + NormalizedCap(cap);
      state := Grow(state, cap, sorted);
    }

    // The new chunk is in use, so its own get does not evict it.
    lemma NewChunkStays(before: seq<StringPointer>, s: State, cap: nat, sorted: seq<Slot>, grown: State,
        sp: StringPointer)
      requires Accounted(s) && cap > 0 && SortedOrder(s.slots + [NewSlot(s, cap)], sorted)
        && grown == Grow(s, cap, sorted)
      requires |before| == |s.slots| && forall i :: 0 <= i < |before| ==> before[i].id == s.slots[i].id
      requires Consistent() && state == FreeExcess(grown, limit)
      requires forall c :: c in pool ==> c in before || c == sp
      ensures sp in pool
    {
      var x := NewSlot(s, cap);
      assert x in s.slots + [x];
      SameMembers(s.slots + [x], sorted, x);
      FreeExcessFreesOnlyIdle(grown, limit, x);
      var k :| 0 <= k < |state.slots| && state.slots[k] == x;
      assert pool[k].Is(x);
      forall i | 0 <= i < |before| ensures before[i] != pool[k] {
        PoolIdBelow(s, i);
      }
      assert pool[k] in pool && pool[k] !in before;
    }

    static lemma FirstFitIs(slots: seq<Slot>, cap: nat, i: nat)
      requires i < |slots| && !slots[i].inuse && slots[i].cap >= cap
      requires forall j :: 0 <= j < i ==> slots[j].inuse || slots[j].cap < cap
      ensures FirstFit(slots, cap) == i
    {
    }

    // GetStringPointer: the bytes of str and a NUL, in a chunk of the caller's own.
    // A string too long for the slice panics, after get has taken chunk 'id'.
    method GetStringPointer(str: seq<Byte>) returns (r: StringPointer?, ghost id: nat)
      requires Valid()
      modifies this, pool, set c | c in pool :: c.p
      ensures Valid() && GetStep(old(state), limit, |str| + 1, state, id)
      ensures r == null <==> |str| >= SLICE_LIMIT
      ensures r != null ==> r.id == id && r in pool && r.inuse
      ensures r != null ==> |str| < r.p.Length && r.p[..|str|] == str && r.p[|str|] == 0
      ensures forall c :: c in old(pool) && c in pool && c.id != id ==> c.p[..] == old(c.p[..])
      ensures forall c :: c in pool ==> c in old(pool) || (fresh(c) && fresh(c.p) && c.id == id)
    {
      ghost var arrays := set c | c in pool :: c.p;
      var sp := Get(|str| + 1);
      assert sp in old(pool) ==> sp.p in arrays;
      id := sp.id;
      var ok := FillChunk(sp, str);
      r := if ok then sp else null;
    }

    // Fill one chunk; the memory of the others stays as it is.
    method FillChunk(sp: StringPointer, str: seq<Byte>) returns (ok: bool)
      requires Valid() && sp in pool && |str| < sp.p.Length
      modifies sp.p
      ensures Valid() && (ok <==> |str| < SLICE_LIMIT)
      ensures ok ==> sp.p[..|str|] == str && sp.p[|str|] == 0
      ensures forall c :: c in pool && c != sp ==> c.p[..] == old(c.p[..])
    {
      ok := FillString(sp.p, str);
    }

    // Copy the bytes and put the NUL behind them, through a slice of SLICE_LIMIT
    // bytes.
    static method FillString(p: array<Byte>, str: seq<Byte>) returns (ok: bool)
      requires |str| < p.Length
      modifies p
      ensures ok <==> |str| < SLICE_LIMIT
      ensures ok ==> p[..|str|] == str && p[|str|] == 0
    {
      var n := if |str| < SLICE_LIMIT then |str| else SLICE_LIMIT;
      for k := 0 to n
        invariant p[..k] == str[..k]
      {
        p[k] := str[k];
      }
      if |str| >= SLICE_LIMIT { return false; }
      p[|str|] := 0;
      ok := true;
    }

    // FreeStringPointer, by the caller that holds the chunk.
    method FreeStringPointer(sp: StringPointer)
      requires Valid() && sp in pool && sp.inuse
      modifies this, sp
      ensures Valid() && state == Release(old(state), limit, sp.id)
      ensures forall c :: c in pool ==> c in old(pool)
    {
      ReleaseKeepsInv(state, limit, sp.id);
      SetChunkIdle(sp);
      if allocatedBytes > limit { FreeExcessChunks(); }
    }

    // sp.inuse = false
    method SetChunkIdle(sp: StringPointer)
      requires Valid() && sp in pool
      modifies this`state, sp
      ensures Consistent() && pool == old(pool)
      ensures state == old(state).(slots := SetIdle(old(state).slots, sp.id))
    {
      var i :| 0 <= i < |pool| && pool[i] == sp;
      forall j | 0 <= j < |pool| ensures pool[j].Is(state.slots[j]) && (pool[j].id == sp.id ==> pool[j] == sp) {
        assert pool[i].Is(state.slots[i]) && pool[j].Is(state.slots[j]);
      }
      sp.inuse := false;
      state := state.(slots := SetIdle(state.slots, sp.id));
    }

    // destroy
    method DestroyPool()
      requires Valid()
      modifies this
      ensures state == Destroy(old(state))
      ensures allocatedBytes == state.allocatedBytes && statFrees == state.statFrees && pool == old(pool)
    {
      for i := 0 to |pool|
        invariant Mirror(pool, state.slots) && state == old(state) && pool == old(pool)
        invariant allocatedBytes == state.allocatedBytes - SumCaps(state.slots[..i])
        invariant statFrees == state.statFrees + i
      {
        assert pool[i].Is(state.slots[i]);
        SumPush(state.slots, i);
        statFrees := statFrees + 1;
        allocatedBytes := allocatedBytes - pool[i].cap;
      }
      assert state.slots[..|pool|] == state.slots;
      state := Destroy(state);
    }

    static lemma SumPush(slots: seq<Slot>, i: nat)
      requires i < |slots|
      ensures SumCaps(slots[..i + 1]) == SumCaps(slots[..i]) + slots[i].cap
    {
      assert RemoveAt(slots[..i + 1], i) == slots[..i];
      SumRemove(slots[..i + 1], i);
    }
  }
}
