// What callers of the string pool rely on, over every call and every run.
module StringPoolLaws {
  import opened Widths
  import opened StringPoolModel

  // ------------------------------------------------------- reordering chunks

  lemma RemoveMultiset(s: seq<Slot>, i: nat)
    requires i < |s|
    ensures multiset(s) == multiset(RemoveAt(s, i)) + multiset{s[i]}
  {
    assert s == s[..i] + [s[i]] + s[i + 1..];
  }

  lemma MultisetCancel(m: multiset<Slot>, n: multiset<Slot>, x: Slot)
    requires m + multiset{x} == n + multiset{x}
    ensures m == n
  {
    forall y: Slot ensures m[y] == n[y] {
      assert (m + multiset{x})[y] == (n + multiset{x})[y];
    }
  }

  lemma {:induction false} SumPermutes(a: seq<Slot>, b: seq<Slot>)
    requires multiset(a) == multiset(b)
    ensures SumCaps(a) == SumCaps(b)
    decreases |a|
  {
    assert |a| == |multiset(a)| == |multiset(b)| == |b|;
    if a != [] {
      assert a[0] in multiset(b);
      var i :| 0 <= i < |b| && b[i] == a[0];
      RemoveMultiset(a, 0);
      RemoveMultiset(b, i);
      assert RemoveAt(a, 0) == a[1..];
      MultisetCancel(multiset(a[1..]), multiset(RemoveAt(b, i)), a[0]);
      SumPermutes(a[1..], RemoveAt(b, i));
      SumRemove(b, i);
    }
  }

  lemma SameMembers(a: seq<Slot>, b: seq<Slot>, x: Slot)
    requires multiset(a) == multiset(b)
    ensures x in a <==> x in b
  {
    assert x in a <==> x in multiset(a);
    assert x in b <==> x in multiset(b);
  }

  lemma SameInPool(a: seq<Slot>, b: seq<Slot>, id: nat)
    requires multiset(a) == multiset(b) && InPool(a, id)
    ensures InPool(b, id)
  {
    var i :| 0 <= i < |a| && a[i].id == id;
    SameMembers(a, b, a[i]);
  }

  lemma SameHeld(a: seq<Slot>, b: seq<Slot>, id: nat)
    requires multiset(a) == multiset(b) && Held(a, id)
    ensures Held(b, id)
  {
    var i :| 0 <= i < |a| && a[i].id == id && a[i].inuse;
    SameMembers(a, b, a[i]);
  }

  // Distinct ids survive reordering: otherwise a slot would occur twice, or two
  // slots of one id would have been there before.
  lemma SameDistinctIds(a: seq<Slot>, b: seq<Slot>)
    requires multiset(a) == multiset(b) && DistinctIds(a)
    ensures DistinctIds(b)
  {
    forall i, j | 0 <= i < j < |b| ensures b[i].id != b[j].id {
      SameMembers(a, b, b[i]);
      SameMembers(a, b, b[j]);
      if b[i] == b[j] {
        assert b == b[..i] + [b[i]] + b[i + 1..j] + [b[j]] + b[j + 1..];
        assert multiset(b)[b[i]] >= 2;
        OnlyOnce(a, b[i]);
      }
    }
  }

  lemma {:induction false} OnlyOnce(a: seq<Slot>, x: Slot)
    requires DistinctIds(a)
    ensures multiset(a)[x] <= 1
    decreases |a|
  {
    if a != [] {
      assert a == [a[0]] + a[1..];
      OnlyOnce(a[1..], x);
      forall k | 0 <= k < |a[1..]| ensures a[1..][k] != a[0] {
        assert a[k + 1].id != a[0].id;
      }
    }
  }

  // ------------------------------------------------------------------- get

  lemma PoolIdBelow(s: State, i: nat)
    requires Accounted(s) && i < |s.slots|
    ensures s.slots[i].id < s.next
  {
    assert InPool(s.slots, s.slots[i].id);
    assert Located(s.slots, s.freed, s.next, s.slots[i].id);
  }

  lemma HeldBelow(s: State, id: nat)
    requires Accounted(s) && Held(s.slots, id)
    ensures id < s.next
  {
    var i :| 0 <= i < |s.slots| && s.slots[i].id == id && s.slots[i].inuse;
    PoolIdBelow(s, i);
  }

  // The pool with one more chunk, before any eviction.
  lemma GrowKeeps(s: State, cap: nat, sorted: seq<Slot>)
    requires Accounted(s) && Balanced(s) && cap > 0 && SortedOrder(s.slots + [NewSlot(s, cap)], sorted)
    ensures Accounted(Grow(s, cap, sorted)) && Balanced(Grow(s, cap, sorted))
  {
    var fresh' := NewSlot(s, cap);
    var all := s.slots + [fresh'];
    var s' := Grow(s, cap, sorted);
    assert !InPool(s.slots, s.next) && s.next !in s.freed by { assert Located(s.slots, s.freed, s.next, s.next); }
    assert RemoveAt(all, |s.slots|) == s.slots;
    assert forall i :: 0 <= i < |s.slots| ==> all[i] == s.slots[i];
    SumRemove(all, |s.slots|);
    SumPermutes(all, sorted);
    forall i, j | 0 <= i < j < |all| ensures all[i].id != all[j].id {
      PoolIdBelow(s, i);
    }
    SameDistinctIds(all, sorted);
    forall id: nat ensures Located(s'.slots, s'.freed, s'.next, id) {
      assert Located(s.slots, s.freed, s.next, id);
      RemoveInPool(all, |s.slots|, id);
      if InPool(all, id) { SameInPool(all, sorted, id); }
      if InPool(sorted, id) { SameInPool(sorted, all, id); }
      assert all[|s.slots|].id == s.next;
      assert InPool(all, s.next);
    }
  }

  lemma TakeSum(slots: seq<Slot>, i: nat)
    requires i < |slots|
    ensures SumCaps(slots[i := slots[i].(inuse := true)]) == SumCaps(slots)
  {
    var r := slots[i := slots[i].(inuse := true)];
    SumRemove(slots, i);
    SumRemove(r, i);
    assert RemoveAt(r, i) == RemoveAt(slots, i);
  }

  lemma TakeKeeps(s: State, i: nat, limit: int)
    requires Inv(s, limit) && i < |s.slots|
    ensures Inv(Take(s, i), limit)
  {
    var s' := Take(s, i);
    TakeSum(s.slots, i);
    forall id: nat ensures Located(s'.slots, s'.freed, s'.next, id) {
      assert Located(s.slots, s.freed, s.next, id);
      SameIdsInPool(s.slots, s'.slots, id);
    }
  }

  lemma SameIdsInPool(a: seq<Slot>, b: seq<Slot>, id: nat)
    requires |a| == |b| && forall i :: 0 <= i < |a| ==> a[i].id == b[i].id
    ensures InPool(a, id) <==> InPool(b, id)
  {
    if InPool(a, id) {
      var i :| 0 <= i < |a| && a[i].id == id;
      assert b[i].id == id;
    }
    if InPool(b, id) {
      var i :| 0 <= i < |b| && b[i].id == id;
      assert a[i].id == id;
    }
  }

  lemma GetKeepsInv(s: State, limit: int, cap: nat, s': State, id: nat)
    requires Inv(s, limit) && cap > 0 && GetStep(s, limit, cap, s', id)
    ensures Inv(s', limit)
  {
    var i := FirstFit(s.slots, cap);
    if i < |s.slots| {
      TakeKeeps(s, i, limit);
    } else {
      var sorted :| SortedOrder(s.slots + [NewSlot(s, cap)], sorted) && s' == FreeExcess(Grow(s, cap, sorted), limit);
      GrowKeeps(s, cap, sorted);
      FreeExcessKeeps(Grow(s, cap, sorted), limit);
    }
  }

  // A chunk in use stays in use through eviction, and an idle one stays idle.
  lemma FreeExcessHeld(s: State, limit: int, id: nat)
    ensures Held(FreeExcess(s, limit).slots, id) <==> Held(s.slots, id)
  {
    var r := FreeExcess(s, limit);
    if Held(s.slots, id) {
      var i :| 0 <= i < |s.slots| && s.slots[i].id == id && s.slots[i].inuse;
      FreeExcessFreesOnlyIdle(s, limit, s.slots[i]);
    }
    if Held(r.slots, id) {
      var i :| 0 <= i < |r.slots| && r.slots[i].id == id && r.slots[i].inuse;
      FreeExcessFreesOnlyIdle(s, limit, r.slots[i]);
    }
  }

  // get hands out a chunk nobody holds, and every other chunk keeps its holder;
  // in particular a new chunk survives the eviction inside its own get.
  lemma GetIsExclusive(s: State, limit: int, cap: nat, s': State, id: nat)
    requires Inv(s, limit) && cap > 0 && GetStep(s, limit, cap, s', id)
    ensures !Held(s.slots, id)
    ensures forall x: nat :: Held(s'.slots, x) <==> Held(s.slots, x) || x == id
  {
    var i := FirstFit(s.slots, cap);
    if i < |s.slots| {
      TakeHeld(s, i);
    } else {
      var sorted :| SortedOrder(s.slots + [NewSlot(s, cap)], sorted) && s' == FreeExcess(Grow(s, cap, sorted), limit);
      forall x: nat ensures Held(s'.slots, x) <==> Held(s.slots, x) || x == id {
        FreeExcessHeld(Grow(s, cap, sorted), limit, x);
        GrowHeld(s, cap, sorted, x);
      }
      if Held(s.slots, id) { HeldBelow(s, id); }
    }
  }

  lemma TakeHeld(s: State, i: nat)
    requires DistinctIds(s.slots) && i < |s.slots| && !s.slots[i].inuse
    ensures !Held(s.slots, s.slots[i].id)
    ensures forall x: nat :: Held(Take(s, i).slots, x) <==> Held(s.slots, x) || x == s.slots[i].id
  {
    var r := Take(s, i).slots;
    forall x: nat ensures Held(r, x) <==> Held(s.slots, x) || x == s.slots[i].id {
      if x == s.slots[i].id { assert r[i].id == x && r[i].inuse; }
      if Held(s.slots, x) {
        var k :| 0 <= k < |s.slots| && s.slots[k].id == x && s.slots[k].inuse;
        assert r[k].id == x && r[k].inuse;
      }
      if Held(r, x) && x != s.slots[i].id {
        var k :| 0 <= k < |r| && r[k].id == x && r[k].inuse;
        assert s.slots[k].id == x && s.slots[k].inuse;
      }
    }
  }

  lemma GrowHeld(s: State, cap: nat, sorted: seq<Slot>, x: nat)
    requires cap > 0 && SortedOrder(s.slots + [NewSlot(s, cap)], sorted)
    ensures Held(sorted, x) <==> Held(s.slots, x) || x == s.next
  {
    var all := s.slots + [NewSlot(s, cap)];
    if Held(sorted, x) {
      SameHeld(sorted, all, x);
      var i :| 0 <= i < |all| && all[i].id == x && all[i].inuse;
      assert i < |s.slots| ==> s.slots[i].id == x && s.slots[i].inuse;
    }
    if Held(s.slots, x) {
      var i :| 0 <= i < |s.slots| && s.slots[i].id == x && s.slots[i].inuse;
      assert all[i].id == x && all[i].inuse;
      SameHeld(all, sorted, x);
    }
    if x == s.next {
      assert all[|s.slots|].id == x && all[|s.slots|].inuse;
      SameHeld(all, sorted, x);
    }
  }

  // An idle chunk that fits is reused, and it is the smallest such chunk.
  lemma ReuseIsTight(s: State, limit: int, cap: nat, s': State, id: nat, j: nat)
    requires Inv(s, limit) && cap > 0 && GetStep(s, limit, cap, s', id)
    requires j < |s.slots| && !s.slots[j].inuse && s.slots[j].cap >= cap
    ensures var i := FirstFit(s.slots, cap);
      i < |s.slots| && id == s.slots[i].id && !s.slots[i].inuse && cap <= s.slots[i].cap <= s.slots[j].cap
    ensures s'.allocatedBytes == s.allocatedBytes && s'.next == s.next && s'.freed == s.freed
  {
  }

  // Otherwise a new chunk, larger than the request and at most twice it, is in
  // the pool afterwards.
  lemma NewChunkIsTight(s: State, limit: int, cap: nat, s': State, id: nat) returns (x: Slot)
    requires Inv(s, limit) && cap > 0 && GetStep(s, limit, cap, s', id)
    requires forall j :: 0 <= j < |s.slots| ==> s.slots[j].inuse || s.slots[j].cap < cap
    ensures x in s'.slots && x.id == id == s.next && x.inuse && cap < x.cap <= 2 * cap
  {
    assert FirstFit(s.slots, cap) == |s.slots|;
    var sorted :| SortedOrder(s.slots + [NewSlot(s, cap)], sorted) && s' == FreeExcess(Grow(s, cap, sorted), limit);
    x := NewSlot(s, cap);
    assert x in s.slots + [x];
    SameMembers(s.slots + [x], sorted, x);
    FreeExcessFreesOnlyIdle(Grow(s, cap, sorted), limit, x);
    NormalizedCapFits(cap);
  }

  // --------------------------------------------------------------- release

  lemma {:induction false} SetIdleSum(a: seq<Slot>, b: seq<Slot>)
    requires |a| == |b| && forall i :: 0 <= i < |a| ==> a[i].cap == b[i].cap
    ensures SumCaps(a) == SumCaps(b)
  {
    if a != [] { SetIdleSum(a[1..], b[1..]); }
  }

  lemma ReleaseKeepsInv(s: State, limit: int, id: nat)
    requires Inv(s, limit)
    ensures Inv(Release(s, limit, id), limit)
  {
    var s' := s.(slots := SetIdle(s.slots, id));
    SetIdleSum(s.slots, s'.slots);
    forall x: nat ensures Located(s'.slots, s'.freed, s'.next, x) {
      assert Located(s.slots, s.freed, s.next, x);
      SameIdsInPool(s.slots, s'.slots, x);
    }
    FreeExcessKeeps(s', limit);
  }

  // Exactly the released chunk loses its holder.
  lemma ReleaseHeld(s: State, limit: int, id: nat, x: nat)
    ensures Held(Release(s, limit, id).slots, x) <==> Held(s.slots, x) && x != id
  {
    var r := SetIdle(s.slots, id);
    FreeExcessHeld(s.(slots := r), limit, x);
    if Held(s.slots, x) && x != id {
      var k :| 0 <= k < |s.slots| && s.slots[k].id == x && s.slots[k].inuse;
      assert r[k].id == x && r[k].inuse;
    }
    if Held(r, x) {
      var k :| 0 <= k < |r| && r[k].id == x && r[k].inuse;
      assert s.slots[k].id == x && s.slots[k].inuse && x != id;
    }
  }

  // ------------------------------------------------------------------ bounds

  lemma {:induction false} AllInUseBytes(slots: seq<Slot>)
    ensures InUseBytes(slots) <= SumCaps(slots)
    ensures AllInUse(slots) ==> InUseBytes(slots) == SumCaps(slots)
  {
    if slots != [] { AllInUseBytes(slots[1..]); }
  }

  // The pool never holds more than the limit or what callers hold, whichever is more.
  lemma AllocatedIsBounded(s: State, limit: int)
    requires Inv(s, limit)
    ensures s.allocatedBytes <= limit || s.allocatedBytes == InUseBytes(s.slots)
  {
    AllInUseBytes(s.slots);
  }

  // ------------------------------------------------------------------- runs

  datatype Event = Got(cap: nat, id: nat) | Returned(id: nat)

  // Callers ask for at least one byte and return chunks they hold.
  ghost predicate Step(s: State, limit: int, e: Event, s': State) {
    match e
    case Got(cap, id) => cap > 0 && GetStep(s, limit, cap, s', id)
    case Returned(id) => Held(s.slots, id) && s' == Release(s, limit, id)
  }

  ghost predicate IsRun(states: seq<State>, limit: int, events: seq<Event>) {
    && |states| == |events| + 1 && states[0] == EMPTY
    && forall k :: 0 <= k < |events| ==> Step(states[k], limit, events[k], states[k + 1])
  }

  lemma {:induction false} RunKeepsInv(states: seq<State>, limit: int, events: seq<Event>, k: nat)
    requires IsRun(states, limit, events) && k < |states|
    ensures Inv(states[k], limit)
  {
    if k > 0 {
      RunKeepsInv(states, limit, events, k - 1);
      assert Step(states[k - 1], limit, events[k - 1], states[k - 1 + 1]);
      match events[k - 1]
      case Got(cap, id) => GetKeepsInv(states[k - 1], limit, cap, states[k], id);
      case Returned(id) => ReleaseKeepsInv(states[k - 1], limit, id);
    }
  }

  // Callers that hold chunk x after these events: gets minus returns.
  ghost function Holders(events: seq<Event>, x: nat): int {
    if events == [] then 0
    else
      var e := events[|events| - 1];
      Holders(events[..|events| - 1], x) + if e.id != x then 0 else if e.Got? then 1 else -1
  }

  // At every moment each chunk has at most one holder, and exactly the chunks
  // with a holder are in use.
  lemma {:induction false} OneHolder(states: seq<State>, limit: int, events: seq<Event>, k: nat, x: nat)
    requires IsRun(states, limit, events) && k < |states|
    ensures Holders(events[..k], x) == if Held(states[k].slots, x) then 1 else 0
  {
    if k > 0 {
      OneHolder(states, limit, events, k - 1, x);
      RunKeepsInv(states, limit, events, k - 1);
      assert events[..k][..k - 1] == events[..k - 1];
      assert Step(states[k - 1], limit, events[k - 1], states[k - 1 + 1]);
      match events[k - 1]
      case Got(cap, id) => GetIsExclusive(states[k - 1], limit, cap, states[k], id);
      case Returned(id) => ReleaseHeld(states[k - 1], limit, id, x);
    }
  }

  // A run that ends with destroy frees each malloced chunk exactly once.
  lemma EveryMallocFreedOnce(states: seq<State>, limit: int, events: seq<Event>)
    requires IsRun(states, limit, events)
    ensures var s := states[|events|]; var d := Destroy(s);
      && Distinct(d.freed) && (forall id: nat :: id in d.freed <==> id < s.next)
      && d.statFrees == d.statAllocs == s.next && d.allocatedBytes == 0
  {
    RunKeepsInv(states, limit, events, |events|);
    DestroyFreesOnce(states[|events|]);
  }

  lemma DestroyFreesOnce(s: State)
    requires Accounted(s) && Balanced(s)
    ensures var d := Destroy(s);
      && Distinct(d.freed) && (forall id: nat :: id in d.freed <==> id < s.next)
      && d.statFrees == d.statAllocs == s.next && d.allocatedBytes == 0
  {
    var d := Destroy(s);
    var ids := Ids(s.slots);
    forall id: nat ensures id in ids <==> InPool(s.slots, id) {
      if id in ids {
        var i :| 0 <= i < |ids| && ids[i] == id;
        assert s.slots[i].id == id;
      }
      if InPool(s.slots, id) {
        var i :| 0 <= i < |s.slots| && s.slots[i].id == id;
        assert ids[i] == id;
      }
    }
    forall id: nat ensures id in d.freed <==> id < s.next {
      assert Located(s.slots, s.freed, s.next, id);
    }
    forall i, j | 0 <= i < j < |d.freed| ensures d.freed[i] != d.freed[j] {
      if i < |s.freed| <= j {
        assert Located(s.slots, s.freed, s.next, d.freed[j]);
        assert d.freed[j] in ids && d.freed[i] in s.freed;
      }
    }
    CountBelow(d.freed, s.next);
  }

  lemma RemoveMembers(s: seq<nat>, i: nat, x: nat)
    requires Distinct(s) && i < |s|
    ensures x in RemoveAt(s, i) <==> x in s && x != s[i]
  {
    var r := RemoveAt(s, i);
    if x in r {
      var k :| 0 <= k < |r| && r[k] == x;
      assert s[if k < i then k else k + 1] == x;
    }
    if x in s && x != s[i] {
      var k :| 0 <= k < |s| && s[k] == x;
      assert r[if k < i then k else k - 1] == x;
    }
  }

  lemma RemoveDistinct(s: seq<nat>, i: nat)
    requires Distinct(s) && i < |s|
    ensures Distinct(RemoveAt(s, i))
  {
    var r := RemoveAt(s, i);
    forall k | 0 <= k < |r| ensures r[k] == s[if k < i then k else k + 1] {
    }
  }

  lemma HasMember(s: seq<nat>)
    requires s != []
    ensures exists x: nat :: x in s
  {
    assert s[0] in s;
  }

  // Distinct numbers that are exactly those below n: there are n of them.
  lemma {:induction false} CountBelow(s: seq<nat>, n: nat)
    requires Distinct(s) && forall id: nat :: id in s <==> id < n
    ensures |s| == n
    decreases n
  {
    if n == 0 {
      if s != [] { HasMember(s); }
    } else {
      var m: nat := n - 1;
      assert m in s;
      var i :| 0 <= i < |s| && s[i] == m;
      RemoveDistinct(s, i);
      forall id: nat ensures id in RemoveAt(s, i) <==> id < m {
        RemoveMembers(s, i, id);
      }
      CountBelow(RemoveAt(s, i), m);
    }
  }
}
