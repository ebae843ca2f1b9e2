// What get and FreeStringPointer leave in the pool, said of its chunks: which
// are reused, which are freed, and when nothing is.
module StringPoolEviction {
  import opened Widths
  import opened StringPoolModel
  import opened StringPoolLaws

  // From the chunks 'all', with so many bytes, the pool s' is left: only
  // idle chunks are freed, the largest first, until the limit is met or nothing
  // is idle, and no longer.
  ghost predicate Evicted(all: seq<Slot>, held: int, limit: int, s': State) {
    && (forall x :: x in s'.slots ==> x in all)
    && (forall x :: x in all && x !in s'.slots ==> !x.inuse)
    && (forall x, y :: x in s'.slots && !x.inuse && y in all && y !in s'.slots ==> x.cap <= y.cap)
    && (s'.allocatedBytes <= limit || AllInUse(s'.slots))
    && (held <= limit ==> s'.allocatedBytes == held && forall x :: x in all ==> x in s'.slots)
    && (s'.allocatedBytes == held || LastWasNeeded(all, limit, s'))
  }

  // Without the last chunk freed the limit would not be met.
  ghost predicate LastWasNeeded(all: seq<Slot>, limit: int, s': State) {
    exists y :: y in all && y !in s'.slots && s'.allocatedBytes + y.cap > limit
  }

  lemma RemovedElement(slots: seq<Slot>, i: nat, x: Slot)
    requires i < |slots| && DistinctIds(slots)
    ensures x in RemoveAt(slots, i) <==> x in slots && x != slots[i]
  {
    var r := RemoveAt(slots, i);
    if x in r {
      var k :| 0 <= k < |r| && r[k] == x;
      assert x == slots[if k < i then k else k + 1];
    }
    if x in slots && x != slots[i] {
      var k :| 0 <= k < |slots| && slots[k] == x;
      assert r[if k < i then k else k - 1] == x;
    }
  }

  lemma {:induction false} FreeExcessEvicts(s: State, limit: int)
    requires Accounted(s) && Balanced(s)
    ensures Evicted(s.slots, s.allocatedBytes, limit, FreeExcess(s, limit))
    decreases |s.slots|
  {
    var i := LastIdle(s.slots);
    if s.allocatedBytes > limit && i < |s.slots| {
      var t := EvictAt(s, i);
      EvictKeeps(s, i);
      FreeExcessEvicts(t, limit);
      forall x ensures x in t.slots <==> x in s.slots && x != s.slots[i] {
        RemovedElement(s.slots, i, x);
      }
      OneMoreEvicted(s, limit, i, FreeExcess(t, limit));
    }
  }

  lemma OneMoreEvicted(s: State, limit: int, i: nat, s': State)
    requires Balanced(s) && i == LastIdle(s.slots) < |s.slots| && s.allocatedBytes > limit
    requires forall x :: x in EvictAt(s, i).slots <==> x in s.slots && x != s.slots[i]
    requires Evicted(EvictAt(s, i).slots, EvictAt(s, i).allocatedBytes, limit, s')
    ensures Evicted(s.slots, s.allocatedBytes, limit, s')
  {
    var t, last := EvictAt(s, i), s.slots[i];
    forall x | x in s'.slots && !x.inuse ensures x.cap <= last.cap {
      assert x in s.slots;
      var k :| 0 <= k < |s.slots| && s.slots[k] == x;
    }
    if s'.allocatedBytes == t.allocatedBytes {
      assert last in s.slots && last !in s'.slots && s'.allocatedBytes + last.cap > limit;
    } else {
      var y :| y in t.slots && y !in s'.slots && s'.allocatedBytes + y.cap > limit;
      assert y in s.slots;
    }
  }

  // ---------------------------------------------------------------- release

  // Returning a chunk makes exactly that chunk idle.
  ghost predicate MadeIdle(slots: seq<Slot>, id: nat, all: seq<Slot>) {
    && |all| == |slots|
    && forall i :: 0 <= i < |slots| ==>
      all[i] == Slot(slots[i].id, slots[i].cap, slots[i].inuse && slots[i].id != id)
  }

  // A return makes the chunk idle, and then evicts as much as the limit asks.
  lemma ReleaseEvicts(s: State, limit: int, id: nat) returns (all: seq<Slot>)
    requires Inv(s, limit)
    ensures MadeIdle(s.slots, id, all) && Evicted(all, s.allocatedBytes, limit, Release(s, limit, id))
  {
    all := SetIdle(s.slots, id);
    SetIdleSum(s.slots, all);
    forall x: nat ensures Located(all, s.freed, s.next, x) {
      assert Located(s.slots, s.freed, s.next, x);
      SameIdsInPool(s.slots, all, x);
    }
    FreeExcessEvicts(s.(slots := all), limit);
  }

  // Within the limit it frees nothing, and leaves exactly that chunk idle.
  lemma ReleaseWithinLimit(s: State, limit: int, id: nat)
    requires s.allocatedBytes <= limit
    ensures var s' := Release(s, limit, id);
      MadeIdle(s.slots, id, s'.slots) && s' == s.(slots := s'.slots)
  {
  }

  // So that the next get it is large enough for reuses it, or a smaller chunk,
  // and mallocs nothing.
  lemma ReleasedIsReused(s: State, limit: int, i: nat, cap: nat, s': State, id: nat)
    requires Inv(s, limit) && s.allocatedBytes <= limit && i < |s.slots| && 0 < cap <= s.slots[i].cap
    requires GetStep(Release(s, limit, s.slots[i].id), limit, cap, s', id)
    ensures s'.next == s.next && s'.freed == s.freed && s'.statReuses == s.statReuses + 1
    ensures InPool(s.slots, id)
    ensures exists x :: x in s'.slots && x.id == id && x.inuse && cap <= x.cap <= s.slots[i].cap
  {
    var r := Release(s, limit, s.slots[i].id);
    ReleaseWithinLimit(s, limit, s.slots[i].id);
    ReleaseKeepsInv(s, limit, s.slots[i].id);
    ReuseIsTight(r, limit, cap, s', id, i);
    var k := FirstFit(r.slots, cap);
    assert s.slots[k].id == id;
    assert s'.slots[k] in s'.slots && s'.slots[k].id == id;
  }

  // -------------------------------------------------------------------- get

  // Reuse changes one chunk, and counts as a reuse.
  lemma ReuseTakesOne(s: State, limit: int, cap: nat, s': State, id: nat) returns (i: nat)
    requires Inv(s, limit) && cap > 0 && GetStep(s, limit, cap, s', id)
    requires exists j :: 0 <= j < |s.slots| && !s.slots[j].inuse && s.slots[j].cap >= cap
    ensures i < |s.slots| && s.slots[i] == Slot(id, s.slots[i].cap, false)
    ensures s' == s.(slots := s.slots[i := Slot(id, s.slots[i].cap, true)], statReuses := s.statReuses + 1)
  {
    i := FirstFit(s.slots, cap);
  }

  // Otherwise one chunk is malloced, and then idle ones are evicted as the limit
  // asks.
  lemma GrowthEvicts(s: State, limit: int, cap: nat, s': State, id: nat) returns (x: Slot)
    requires Inv(s, limit) && cap > 0 && GetStep(s, limit, cap, s', id)
    requires forall j :: 0 <= j < |s.slots| ==> s.slots[j].inuse || s.slots[j].cap < cap
    ensures x == Slot(s.next, NormalizedCap(cap), true) && cap < x.cap <= 2 * cap
    ensures Evicted(s.slots + [x], s.allocatedBytes + x.cap, limit, s')
    ensures s'.next == s.next + 1 && s'.statAllocs == s.statAllocs + 1 && s'.statReuses == s.statReuses
  {
    assert FirstFit(s.slots, cap) == |s.slots|;
    var sorted :| SortedOrder(s.slots + [NewSlot(s, cap)], sorted) && s' == FreeExcess(Grow(s, cap, sorted), limit);
    x := NewSlot(s, cap);
    var all, t := s.slots + [x], Grow(s, cap, sorted);
    NormalizedCapFits(cap);
    GrowKeeps(s, cap, sorted);
    FreeExcessEvicts(t, limit);
    FreeExcessCounts(t, limit);
    EvictedFromSame(sorted, all, t.allocatedBytes, limit, s');
  }

  // The order of the chunks plays no part.
  lemma EvictedFromSame(a: seq<Slot>, b: seq<Slot>, held: int, limit: int, s': State)
    requires multiset(a) == multiset(b) && Evicted(a, held, limit, s')
    ensures Evicted(b, held, limit, s')
  {
    forall y ensures y in a <==> y in b {
      SameMembers(a, b, y);
    }
    if LastWasNeeded(a, limit, s') {
      var y :| y in a && y !in s'.slots && s'.allocatedBytes + y.cap > limit;
      assert y in b;
    }
  }

  // Eviction mallocs nothing and counts only what it frees.
  lemma {:induction false} FreeExcessCounts(s: State, limit: int)
    ensures var s' := FreeExcess(s, limit);
      && s'.next == s.next && s'.statAllocs == s.statAllocs && s'.statReuses == s.statReuses
      && |s'.slots| + (s'.statFrees - s.statFrees) == |s.slots|
    decreases |s.slots|
  {
    if s.allocatedBytes > limit && LastIdle(s.slots) < |s.slots| {
      FreeExcessCounts(EvictAt(s, LastIdle(s.slots)), limit);
    }
  }

  // ------------------------------------------------------------------- runs

  ghost function Gets(events: seq<Event>): nat {
    if events == [] then 0
    else Gets(events[..|events| - 1]) + if events[|events| - 1].Got? then 1 else 0
  }

  // Over a run, each get is counted once, as an allocation or a reuse.
  lemma {:induction false} GetsAreCounted(states: seq<State>, limit: int, events: seq<Event>, k: nat)
    requires IsRun(states, limit, events) && k < |states|
    ensures states[k].statAllocs + states[k].statReuses == Gets(events[..k])
  {
    if k > 0 {
      GetsAreCounted(states, limit, events, k - 1);
      RunKeepsInv(states, limit, events, k - 1);
      assert Step(states[k - 1], limit, events[k - 1], states[k]);
      assert events[..k][..k - 1] == events[..k - 1];
      StepCounts(states[k - 1], limit, events[k - 1], states[k]);
    }
  }

  lemma StepCounts(s: State, limit: int, e: Event, s': State)
    requires Inv(s, limit) && Step(s, limit, e, s')
    ensures s'.statAllocs + s'.statReuses == s.statAllocs + s.statReuses + if e.Got? then 1 else 0
  {
    match e
    case Got(cap, id) =>
      if FirstFit(s.slots, cap) < |s.slots| {
        assert !s.slots[FirstFit(s.slots, cap)].inuse;
        var _ := ReuseTakesOne(s, limit, cap, s', id);
      } else {
        var _ := GrowthEvicts(s, limit, cap, s', id);
      }
    case Returned(id) => FreeExcessCounts(s.(slots := SetIdle(s.slots, id)), limit);
  }
}
