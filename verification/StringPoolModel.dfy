// The reusing C-string pool of strpool.go, as values: what each operation does,
// what every operation keeps, and why evicting the largest chunks is best.
module StringPoolModel {
  import opened Widths

  // One chunk of the pool. 'id' is the malloc call that made it.
  datatype Slot = Slot(id: nat, cap: nat, inuse: bool)

  // 'next' counts malloc calls, 'freed' lists freed chunks in order.
  datatype State = State(
    slots: seq<Slot>, allocatedBytes: int, next: nat, freed: seq<nat>,
    statAllocs: nat, statReuses: nat, statFrees: nat)

  const EMPTY := State([], 0, 0, [], 0, 0, 0)

  // ---------------------------------------------------------- new capacities

  function Pow2(n: nat): (r: nat)
    ensures r > 0
  {
    if n == 0 then 1 else 2 * Pow2(n - 1)
  }

  function FloorLog2(n: nat): nat
    requires n > 0
  {
    if n == 1 then 0 else 1 + FloorLog2(n / 2)
  }

  // 2 << int(math.Log2(float64(cap)))
  function NormalizedCap(cap: nat): nat
    requires cap > 0
  {
    2 * Pow2(FloorLog2(cap))
  }

  // A new chunk is a power of two, larger than the request and at most twice it.
  lemma {:induction false} NormalizedCapFits(cap: nat)
    requires cap > 0
    ensures cap < NormalizedCap(cap) <= 2 * cap
  {
    if cap > 1 { NormalizedCapFits(cap / 2); }
  }

  lemma {:induction false} Pow2Monotone(m: nat, n: nat)
    requires m <= n
    ensures Pow2(m) <= Pow2(n)
  {
    if m < n { Pow2Monotone(m, n - 1); }
  }

  lemma {:induction false} FloorLog2Floors(n: nat)
    requires n > 0
    ensures Pow2(FloorLog2(n)) <= n < Pow2(FloorLog2(n) + 1)
  {
    if n > 1 { FloorLog2Floors(n / 2); }
  }

  // It is the least power of two strictly above the request, so a request of
  // exactly a power of two gets the next one.
  lemma NormalizedCapIsLeast(cap: nat, k: nat)
    requires cap > 0
    ensures NormalizedCap(cap) <= Pow2(k) <==> cap < Pow2(k)
    ensures NormalizedCap(Pow2(k)) == Pow2(k + 1)
  {
    var l := FloorLog2(cap);
    FloorLog2Floors(cap);
    if k <= l { Pow2Monotone(k, l); } else { Pow2Monotone(l + 1, k); }
    FloorLog2OfPow2(k);
  }

  lemma {:induction false} FloorLog2OfPow2(k: nat)
    ensures FloorLog2(Pow2(k)) == k
  {
    if k > 0 { FloorLog2OfPow2(k - 1); }
  }

  // -------------------------------------------------------------- invariants

  ghost predicate Sorted(slots: seq<Slot>) {
    forall i, j :: 0 <= i < j < |slots| ==> slots[i].cap <= slots[j].cap
  }

  function SumCaps(slots: seq<Slot>): int {
    if slots == [] then 0 else slots[0].cap + SumCaps(slots[1..])
  }

  function InUseBytes(slots: seq<Slot>): int {
    if slots == [] then 0 else (if slots[0].inuse then slots[0].cap else 0) + InUseBytes(slots[1..])
  }

  ghost predicate AllInUse(slots: seq<Slot>) {
    forall i :: 0 <= i < |slots| ==> slots[i].inuse
  }

  ghost predicate DistinctIds(slots: seq<Slot>) {
    forall i, j :: 0 <= i < j < |slots| ==> slots[i].id != slots[j].id
  }

  ghost predicate InPool(slots: seq<Slot>, id: nat) {
    exists i :: 0 <= i < |slots| && slots[i].id == id
  }

  // Chunks held by callers.
  ghost predicate Held(slots: seq<Slot>, id: nat) {
    exists i :: 0 <= i < |slots| && slots[i].id == id && slots[i].inuse
  }

  // Chunk 'id' was malloced exactly when it is in the pool or freed, never both.
  ghost predicate Located(slots: seq<Slot>, freed: seq<nat>, next: nat, id: nat) {
    && (id < next <==> InPool(slots, id) || id in freed)
    && (InPool(slots, id) ==> id !in freed)
  }

  // Every malloc is either still in the pool or freed once.
  ghost predicate Accounted(s: State) {
    && DistinctIds(s.slots) && Distinct(s.freed)
    && (forall id: nat :: Located(s.slots, s.freed, s.next, id))
    && s.statAllocs == s.next && s.statFrees == |s.freed|
  }

  ghost predicate Balanced(s: State) {
    Sorted(s.slots) && s.allocatedBytes == SumCaps(s.slots)
  }

  // Above the limit only while nothing is idle.
  ghost predicate WithinLimit(s: State, limit: int) {
    s.allocatedBytes > limit ==> AllInUse(s.slots)
  }

  ghost predicate Inv(s: State, limit: int) {
    Accounted(s) && Balanced(s) && WithinLimit(s, limit)
  }

  // ---------------------------------------------------------------- eviction

  function RemoveAt<T>(s: seq<T>, i: nat): (r: seq<T>)
    requires i < |s|
    ensures |r| == |s| - 1
  {
    s[..i] + s[i + 1..]
  }

  // The last idle chunk, or |slots|.
  function LastIdle(slots: seq<Slot>): (i: nat)
    ensures i <= |slots|
    ensures i < |slots| ==> !slots[i].inuse && forall j :: i < j < |slots| ==> slots[j].inuse
    ensures i == |slots| ==> forall j :: 0 <= j < |slots| ==> slots[j].inuse
  {
    if slots == [] then 0
    else
      var n := |slots| - 1;
      if !slots[n].inuse then n
      else var i := LastIdle(slots[..n]); if i == n then n + 1 else i
  }

  // Free chunk i.
  function EvictAt(s: State, i: nat): State
    requires i < |s.slots|
  {
    s.(slots := RemoveAt(s.slots, i), allocatedBytes := s.allocatedBytes - s.slots[i].cap,
       freed := s.freed + [s.slots[i].id], statFrees := s.statFrees + 1)
  }

  // Free the largest idle chunk until the limit is met or nothing is idle.
  function FreeExcess(s: State, limit: int): State
    decreases |s.slots|
  {
    if s.allocatedBytes <= limit || LastIdle(s.slots) == |s.slots| then s
    else FreeExcess(EvictAt(s, LastIdle(s.slots)), limit)
  }

  lemma {:induction false} SumRemove(slots: seq<Slot>, i: nat)
    requires i < |slots|
    ensures SumCaps(slots) == SumCaps(RemoveAt(slots, i)) + slots[i].cap
  {
    if i == 0 {
      assert RemoveAt(slots, 0) == slots[1..];
    } else {
      SumRemove(slots[1..], i - 1);
      assert RemoveAt(slots, i)[1..] == RemoveAt(slots[1..], i - 1);
    }
  }

  lemma RemoveInPool(slots: seq<Slot>, i: nat, id: nat)
    requires i < |slots| && DistinctIds(slots)
    ensures InPool(RemoveAt(slots, i), id) <==> InPool(slots, id) && id != slots[i].id
  {
    var r := RemoveAt(slots, i);
    if InPool(r, id) {
      var k :| 0 <= k < |r| && r[k].id == id;
      assert slots[if k < i then k else k + 1].id == id;
    }
    if InPool(slots, id) && id != slots[i].id {
      var k :| 0 <= k < |slots| && slots[k].id == id;
      assert r[if k < i then k else k - 1].id == id;
    }
  }

  lemma RemoveKeepsOrder(slots: seq<Slot>, i: nat)
    requires i < |slots|
    ensures Sorted(slots) ==> Sorted(RemoveAt(slots, i))
    ensures DistinctIds(slots) ==> DistinctIds(RemoveAt(slots, i))
  {
    var r := RemoveAt(slots, i);
    forall j | 0 <= j < |r| ensures r[j] == slots[if j < i then j else j + 1] {
    }
  }

  lemma EvictLocated(s: State, i: nat, id: nat)
    requires Accounted(s) && i < |s.slots|
    ensures Located(EvictAt(s, i).slots, EvictAt(s, i).freed, s.next, id)
  {
    assert Located(s.slots, s.freed, s.next, id);
    assert InPool(s.slots, s.slots[i].id);
    RemoveInPool(s.slots, i, id);
  }

  lemma EvictKeeps(s: State, i: nat)
    requires Accounted(s) && Balanced(s) && i < |s.slots|
    ensures Accounted(EvictAt(s, i)) && Balanced(EvictAt(s, i))
  {
    SumRemove(s.slots, i);
    RemoveKeepsOrder(s.slots, i);
    assert InPool(s.slots, s.slots[i].id);
    assert Located(s.slots, s.freed, s.next, s.slots[i].id);
    forall id: nat ensures Located(EvictAt(s, i).slots, EvictAt(s, i).freed, s.next, id) {
      EvictLocated(s, i, id);
    }
  }

  // Eviction keeps the books, and meets the limit if idle chunks can.
  lemma {:induction false} FreeExcessKeeps(s: State, limit: int)
    requires Accounted(s) && Balanced(s)
    ensures Inv(FreeExcess(s, limit), limit)
    decreases |s.slots|
  {
    var i := LastIdle(s.slots);
    if s.allocatedBytes > limit && i < |s.slots| {
      EvictKeeps(s, i);
      FreeExcessKeeps(EvictAt(s, i), limit);
    }
  }

  // It frees idle chunks only.
  lemma {:induction false} FreeExcessFreesOnlyIdle(s: State, limit: int, x: Slot)
    ensures x in FreeExcess(s, limit).slots ==> x in s.slots
    ensures x in s.slots && x.inuse ==> x in FreeExcess(s, limit).slots
    decreases |s.slots|
  {
    var i := LastIdle(s.slots);
    if s.allocatedBytes > limit && i < |s.slots| {
      FreeExcessFreesOnlyIdle(EvictAt(s, i), limit, x);
      assert s.slots == s.slots[..i] + [s.slots[i]] + s.slots[i + 1..];
    }
  }

  // -------------------------------------------- eviction is the best there is

  // A choice of idle chunks to free instead.
  ghost predicate Choice(slots: seq<Slot>, drop: seq<bool>) {
    |drop| == |slots| && forall i :: 0 <= i < |slots| && drop[i] ==> !slots[i].inuse
  }

  ghost function Count(drop: seq<bool>): nat {
    if drop == [] then 0 else (if drop[0] then 1 else 0) + Count(drop[1..])
  }

  ghost function Weight(slots: seq<Slot>, drop: seq<bool>): int
    requires |drop| == |slots|
  {
    if drop == [] then 0 else (if drop[0] then slots[0].cap else 0) + Weight(slots[1..], drop[1..])
  }

  lemma {:induction false} ChoiceRemove(slots: seq<Slot>, drop: seq<bool>, i: nat)
    requires |drop| == |slots| && i < |drop|
    ensures Count(drop) == Count(RemoveAt(drop, i)) + if drop[i] then 1 else 0
    ensures Weight(slots, drop) == Weight(RemoveAt(slots, i), RemoveAt(drop, i)) + if drop[i] then slots[i].cap else 0
  {
    if i == 0 {
      assert RemoveAt(drop, 0) == drop[1..] && RemoveAt(slots, 0) == slots[1..];
    } else {
      ChoiceRemove(slots[1..], drop[1..], i - 1);
      assert RemoveAt(drop, i)[1..] == RemoveAt(drop[1..], i - 1);
      assert RemoveAt(slots, i)[1..] == RemoveAt(slots[1..], i - 1);
    }
  }

  lemma {:induction false} ChoiceClear(slots: seq<Slot>, drop: seq<bool>, j: nat)
    requires |drop| == |slots| && j < |drop| && drop[j]
    ensures Count(drop[j := false]) == Count(drop) - 1
    ensures Weight(slots, drop[j := false]) == Weight(slots, drop) - slots[j].cap
  {
    ChoiceRemove(slots, drop, j);
    ChoiceRemove(slots, drop[j := false], j);
    assert RemoveAt(drop[j := false], j) == RemoveAt(drop, j);
  }

  lemma {:induction false} SomeDropped(slots: seq<Slot>, drop: seq<bool>) returns (j: nat)
    requires |drop| == |slots| && Weight(slots, drop) > 0
    ensures j < |drop| && drop[j]
  {
    if drop[0] {
      j := 0;
    } else {
      j := SomeDropped(slots[1..], drop[1..]);
      j := j + 1;
    }
  }

  // Exchange: some choice that evicts the largest idle chunk does as well.
  lemma ExchangeLargest(slots: seq<Slot>, drop: seq<bool>, i: nat) returns (drop': seq<bool>)
    requires Sorted(slots) && Choice(slots, drop) && i == LastIdle(slots) < |slots| && Weight(slots, drop) > 0
    ensures Choice(RemoveAt(slots, i), drop')
    ensures Count(drop') == Count(drop) - 1
    ensures Weight(RemoveAt(slots, i), drop') >= Weight(slots, drop) - slots[i].cap
  {
    var cleared := drop;
    if drop[i] {
      ChoiceClear(slots, drop, i);
      cleared := drop[i := false];
    } else {
      var j := SomeDropped(slots, drop);
      ChoiceClear(slots, drop, j);
      cleared := drop[j := false];
    }
    drop' := RemoveAt(cleared, i);
    ChoiceRemove(slots, cleared, i);
    forall k | 0 <= k < |drop'| && drop'[k] ensures !RemoveAt(slots, i)[k].inuse {
      assert drop[if k < i then k else k + 1];
    }
  }

  // Any choice of idle chunks that meets the limit frees at least as many chunks
  // as FreeExcess does.
  lemma {:induction false} FreeExcessIsMinimal(s: State, limit: int, drop: seq<bool>)
    requires Balanced(s) && Choice(s.slots, drop)
    requires s.allocatedBytes - Weight(s.slots, drop) <= limit
    ensures FreeExcess(s, limit).allocatedBytes <= limit
    ensures |s.slots| - |FreeExcess(s, limit).slots| <= Count(drop)
    decreases |s.slots|
  {
    if s.allocatedBytes > limit {
      var j := SomeDropped(s.slots, drop);
      var i := LastIdle(s.slots);
      assert i < |s.slots|;
      var drop' := ExchangeLargest(s.slots, drop, i);
      SumRemove(s.slots, i);
      FreeExcessIsMinimal(EvictAt(s, i), limit, drop');
    }
  }

  // The choice of every idle chunk: what frees the most.
  ghost function AllIdle(slots: seq<Slot>): (drop: seq<bool>)
    ensures Choice(slots, drop)
  {
    seq(|slots|, i requires 0 <= i < |slots| => !slots[i].inuse)
  }

  lemma {:induction false} AllIdleWeighsMost(slots: seq<Slot>, drop: seq<bool>)
    requires Choice(slots, drop)
    ensures Weight(slots, drop) <= Weight(slots, AllIdle(slots))
  {
    if slots != [] {
      assert AllIdle(slots)[1..] == AllIdle(slots[1..]);
      AllIdleWeighsMost(slots[1..], drop[1..]);
    }
  }

  lemma {:induction false} NothingIdle(slots: seq<Slot>)
    requires AllInUse(slots)
    ensures Weight(slots, AllIdle(slots)) == Count(AllIdle(slots)) == 0
  {
    if slots != [] {
      assert AllIdle(slots)[1..] == AllIdle(slots[1..]);
      NothingIdle(slots[1..]);
    }
  }

  // When freeing everything idle does not meet the limit, everything idle is
  // freed, and nothing else.
  lemma {:induction false} FreeExcessFreesAllIdle(s: State, limit: int)
    requires s.allocatedBytes - Weight(s.slots, AllIdle(s.slots)) > limit
    ensures var s' := FreeExcess(s, limit);
      && AllInUse(s'.slots)
      && s'.allocatedBytes == s.allocatedBytes - Weight(s.slots, AllIdle(s.slots))
      && |s'.slots| == |s.slots| - Count(AllIdle(s.slots))
    decreases |s.slots|
  {
    var i := LastIdle(s.slots);
    var all := AllIdle(s.slots);
    if i == |s.slots| {
      NothingIdle(s.slots);
    } else {
      ChoiceRemove(s.slots, all, i);
      assert RemoveAt(all, i) == AllIdle(RemoveAt(s.slots, i));
      FreeExcessFreesAllIdle(EvictAt(s, i), limit);
    }
  }

  // The limit is met exactly when some choice of idle chunks can meet it.
  lemma FreeExcessMeetsLimitExactly(s: State, limit: int)
    requires Balanced(s)
    ensures FreeExcess(s, limit).allocatedBytes <= limit <==>
      exists drop :: Choice(s.slots, drop) && s.allocatedBytes - Weight(s.slots, drop) <= limit
  {
    var all := AllIdle(s.slots);
    if s.allocatedBytes - Weight(s.slots, all) <= limit {
      FreeExcessIsMinimal(s, limit, all);
    } else {
      FreeExcessFreesAllIdle(s, limit);
      forall drop | Choice(s.slots, drop) ensures s.allocatedBytes - Weight(s.slots, drop) > limit {
        AllIdleWeighsMost(s.slots, drop);
      }
    }
  }

  // -------------------------------------------------------------- operations

  // The first idle chunk that is large enough, or |slots|.
  function FirstFit(slots: seq<Slot>, cap: nat): (i: nat)
    ensures i <= |slots|
    ensures i < |slots| ==> !slots[i].inuse && slots[i].cap >= cap
    ensures forall j :: 0 <= j < i ==> slots[j].inuse || slots[j].cap < cap
  {
    if slots == [] then 0
    else if !slots[0].inuse && slots[0].cap >= cap then 0
    else 1 + FirstFit(slots[1..], cap)
  }

  function Take(s: State, i: nat): State
    requires i < |s.slots|
  {
    s.(slots := s.slots[i := s.slots[i].(inuse := true)], statReuses := s.statReuses + 1)
  }

  // The chunk malloc returns next.
  function NewSlot(s: State, cap: nat): Slot
    requires cap > 0
  {
    Slot(s.next, NormalizedCap(cap), true)
  }

  // sort.Slice is not stable: any sorted order may come out.
  ghost predicate SortedOrder(slots: seq<Slot>, sorted: seq<Slot>) {
    Sorted(sorted) && multiset(sorted) == multiset(slots)
  }

  // A new chunk joins the pool, which is sorted into the given order.
  function Grow(s: State, cap: nat, sorted: seq<Slot>): State
    requires cap > 0
  {
    s.(slots := sorted, allocatedBytes := s.allocatedBytes + NormalizedCap(cap), next := s.next + 1,
      statAllocs := s.statAllocs + 1)
  }

  // What get may do when no idle chunk fits.
  ghost predicate GrowStep(s: State, limit: int, cap: nat, s': State)
    requires cap > 0
  {
    exists sorted :: SortedOrder(s.slots + [NewSlot(s, cap)], sorted) && s' == FreeExcess(Grow(s, cap, sorted), limit)
  }

  // What get may do.
  ghost predicate GetStep(s: State, limit: int, cap: nat, s': State, id: nat)
    requires cap > 0
  {
    var i := FirstFit(s.slots, cap);
    if i < |s.slots| then
      s' == Take(s, i) && id == s.slots[i].id
    else
      id == s.next && GrowStep(s, limit, cap, s')
  }

  function SetIdle(slots: seq<Slot>, id: nat): (r: seq<Slot>)
    ensures |r| == |slots|
  {
    seq(|slots|, i requires 0 <= i < |slots| => if slots[i].id == id then slots[i].(inuse := false) else slots[i])
  }

  // What FreeStringPointer does.
  function Release(s: State, limit: int, id: nat): State {
    FreeExcess(s.(slots := SetIdle(s.slots, id)), limit)
  }

  // destroy: free every chunk of the pool. The slice itself is not cleared.
  function Destroy(s: State): State {
    s.(allocatedBytes := s.allocatedBytes - SumCaps(s.slots),
       freed := s.freed + Ids(s.slots), statFrees := s.statFrees + |s.slots|)
  }

  function Ids(slots: seq<Slot>): (r: seq<nat>)
    ensures |r| == |slots|
  {
    seq(|slots|, i requires 0 <= i < |slots| => slots[i].id)
  }
}
