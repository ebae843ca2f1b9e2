// The allocation providers, over the caller's buffer and the pool states, built
// with DUK_ALLOC_POOL_TRACK_HIGHWATER and without waste tracking.
module PoolAllocator {
  import opened Octets
  import opened Widths
  import opened RawMemory
  import opened PoolModel
  import opened PoolOps

  // duk_pool_state: the free list head is an address, NULL when the pool is empty.
  datatype PoolState = PoolState(first: nat, allocEnd: nat, size: nat, count: nat, hwmUsedCount: int)

  datatype PoolStats = PoolStats(
    usedCount: int, usedBytes: int, freeCount: int, freeBytes: int, wasteBytes: int, hwmUsedCount: int)

  datatype GlobalStats = GlobalStats(
    usedBytes: int, freeBytes: int, wasteBytes: int, hwmUsedBytes: int, hwmWasteBytes: int)

  // State i says what the heap says about pool i.
  ghost predicate StateOk(st: PoolState, h: Heap, i: nat)
    requires i < |h.slabs| == |h.free| == |h.hwmCount|
  {
    && st.first == Head(h.free[i])
    && st.allocEnd == h.slabs[i].End()
    && st.size == h.slabs[i].size
    && st.count == h.slabs[i].count
    && st.hwmUsedCount == h.hwmCount[i]
  }

  ghost predicate StatesOk(sts: seq<PoolState>, h: Heap) {
    && |sts| == |h.slabs| == |h.free| == |h.hwmCount|
    && forall i :: 0 <= i < |sts| ==> StateOk(sts[i], h, i)
  }

  // ---------------------------------------------------- counting free blocks

  // Blocks among the first n of the pool that are on the list.
  ghost function CountListed(s: Slab, n: nat, list: seq<nat>): nat {
    if n == 0 then 0 else CountListed(s, n - 1, list) + if s.Block(n - 1) in list then 1 else 0
  }

  lemma {:induction false} CountListedCons(s: Slab, n: nat, list: seq<nat>, k: nat)
    requires s.size > 0 && list != [] && list[0] == s.Block(k) && list[0] !in list[1..]
    ensures CountListed(s, n, list) == CountListed(s, n, list[1..]) + if k < n then 1 else 0
  {
    if n > 0 {
      CountListedCons(s, n - 1, list, k);
      if n - 1 < k { BlockStep(s, n - 1, k); } else if k < n - 1 { BlockStep(s, k, n - 1); }
      assert list == [list[0]] + list[1..];
    }
  }

  lemma {:induction false} CountListedNone(s: Slab, n: nat)
    ensures CountListed(s, n, []) == 0
  {
    if n > 0 { CountListedNone(s, n - 1); }
  }

  // The scan over all blocks of a pool finds each list element once.
  lemma {:induction false} CountListedAll(s: Slab, list: seq<nat>)
    requires s.size > 0 && Distinct(list)
    requires forall k :: 0 <= k < |list| ==> IsBlock(s, list[k])
    ensures CountListed(s, s.count, list) == |list|
    decreases |list|
  {
    if list == [] {
      CountListedNone(s, s.count);
    } else {
      var k :| 0 <= k < s.count && list[0] == s.Block(k);
      CountListedCons(s, s.count, list, k);
      CountListedAll(s, list[1..]);
    }
  }

  lemma {:induction false} CountListedBound(s: Slab, n: nat, list: seq<nat>)
    ensures CountListed(s, n, list) <= n
  {
    if n > 0 { CountListedBound(s, n - 1, list); }
  }

  // A pool never has more free blocks than blocks.
  lemma UsedCountNonNegative(h: Heap, i: nat)
    requires Inv(h) && i < |h.slabs|
    ensures CountListed(h.slabs[i], h.slabs[i].count, h.free[i]) == |h.free[i]|
    ensures 0 <= UsedCount(h, i) <= h.slabs[i].count
  {
    assert FreeListOk(h, i) && SlabOk(h.base, h.slabs, |h.mem|, i);
    forall k | 0 <= k < |h.free[i]| ensures IsBlock(h.slabs[i], h.free[i][k]) {
      assert OwnedBy(h, i, h.free[i][k]);
    }
    CountListedAll(h.slabs[i], h.free[i]);
    CountListedBound(h.slabs[i], h.slabs[i].count, h.free[i]);
  }

  // ------------------------------------- where the statistics scan begins

  // The scan walks back from the end of the pool by size * count, a product of
  // two unsigned ints.
  function ScanBytes(s: Slab): nat {
    s.size * s.count % UINT_LIMIT
  }

  // Walking up from there by whole blocks, the scan meets the end of the pool.
  predicate ScanEnds(s: Slab) {
    s.size > 0 && ScanBytes(s) % s.size == 0
  }

  // The first block the scan sees.
  function FirstScanned(s: Slab): (k: nat)
    requires ScanEnds(s)
    ensures k <= s.count && s.Block(k) + ScanBytes(s) == s.End()
  {
    ScanInside(s);
    s.count - ScanBytes(s) / s.size
  }

  lemma ScanInside(s: Slab)
    requires ScanEnds(s)
    ensures ScanBytes(s) / s.size <= s.count
    ensures s.Block(s.count - ScanBytes(s) / s.size) + ScanBytes(s) == s.End()
  {
    ScanMultiple(ScanBytes(s), s.size, ScanBytes(s) / s.size, s.count);
    BlocksUpTo(s, s.count - ScanBytes(s) / s.size, ScanBytes(s) / s.size);
  }

  lemma ScanMultiple(bytes: nat, size: nat, n: nat, count: nat)
    requires size > 0 && bytes % size == 0 && n == bytes / size && bytes <= size * count
    ensures bytes == n * size && n <= count
  {
    QuotientBound(n, count, size);
  }

  lemma BlocksUpTo(s: Slab, k: nat, n: nat)
    ensures s.Block(k) + n * s.size == s.Block(k + n)
  {
    BlockClosedForm(s, k);
    BlockClosedForm(s, k + n);
    assert (k + n) * s.size == k * s.size + n * s.size;
  }

  // The scan sees the whole pool.
  predicate Scannable(s: Slab) {
    s.size * s.count < UINT_LIMIT
  }

  // The scan begins at the pool exactly when its bytes fit an unsigned int.
  lemma ScanStartsAtPoolExactly(s: Slab)
    ensures s.End() - ScanBytes(s) == s.start <==> Scannable(s)
    ensures s.size > 0 && Scannable(s) ==> ScanEnds(s) && FirstScanned(s) == 0
  {
    BlockClosedForm(s, s.count);
    if s.size > 0 && Scannable(s) { WholeBlocks(s); }
  }

  lemma WholeBlocks(s: Slab)
    requires s.size > 0 && Scannable(s)
    ensures ScanBytes(s) % s.size == 0 && ScanBytes(s) / s.size == s.count
  {
    QuotientOfMultiple(s.size * s.count, s.size, s.count);
  }

  // What the scan counts as free: listed blocks from the first one it sees.
  ghost function ScannedFree(s: Slab, list: seq<nat>): int
    requires ScanEnds(s)
  {
    CountListed(s, s.count, list) - CountListed(s, FirstScanned(s), list)
  }

  // The count is right exactly when no free block lies before the first one seen.
  lemma ScanCountsExactly(h: Heap, i: nat)
    requires Inv(h) && i < |h.slabs| && ScanEnds(h.slabs[i])
    ensures ScannedFree(h.slabs[i], h.free[i]) == |h.free[i]| <==>
      NoneListed(h.slabs[i], FirstScanned(h.slabs[i]), h.free[i])
    ensures Scannable(h.slabs[i]) ==> ScannedFree(h.slabs[i], h.free[i]) == |h.free[i]|
  {
    UsedCountNonNegative(h, i);
    CountListedZero(h.slabs[i], FirstScanned(h.slabs[i]), h.free[i]);
    ScanStartsAtPoolExactly(h.slabs[i]);
  }

  ghost predicate NoneListed(s: Slab, n: nat, list: seq<nat>) {
    forall k :: 0 <= k < n ==> s.Block(k) !in list
  }

  lemma {:induction false} CountListedZero(s: Slab, n: nat, list: seq<nat>)
    ensures CountListed(s, n, list) == 0 <==> NoneListed(s, n, list)
  {
    if n > 0 {
      CountListedZero(s, n - 1, list);
      var p := s.Block(n - 1);
      if p !in list && NoneListed(s, n - 1, list) {
        assert NoneListed(s, n, list);
      } else if p in list {
        assert !NoneListed(s, n, list);
      }
    }
  }

  // Every pool of the layout is seen whole: what the highwater marks need.
  ghost predicate AllScannable(slabs: seq<Slab>) {
    forall i :: 0 <= i < |slabs| ==> Scannable(slabs[i])
  }

  // Element k of a free list, NULL past its end.
  ghost function ElementAt(s: seq<nat>, k: nat): nat {
    if k < |s| then s[k] else NULL
  }

  lemma ElementLink(h: Heap, i: nat, k: nat)
    requires Inv(h) && i < |h.free| && k < |h.free[i]|
    ensures InMem(h.base, |h.mem|, h.free[i][k]) && h.free[i][k] != NULL
    ensures LoadPtr(h.mem, h.free[i][k] - h.base) == ElementAt(h.free[i], k + 1)
  {
    assert FreeListOk(h, i);
    assert Linked(h.base, h.mem, h.free[i], k);
    assert OwnedBy(h, i, h.free[i][k]);
  }

  class Allocator {
    const base: nat
    const buffer: array<Byte>
    const states: array<PoolState>
    var hwmUsedBytes: int
    ghost var heap: Heap

    ghost predicate Valid()
      reads this, buffer, states
    {
      && Inv(heap)
      && heap.base == base
      && heap.mem == buffer[..]
      && heap.hwmBytes == hwmUsedBytes
      && StatesOk(states[..], heap)
    }

    constructor (base: nat, buffer: array<Byte>, states: array<PoolState>, ghost heap: Heap)
      requires Inv(heap) && heap.base == base && heap.mem == buffer[..] && heap.hwmBytes == 0
      requires StatesOk(states[..], heap)
      ensures Valid()
      ensures this.base == base && this.buffer == buffer && this.states == states && this.heap == heap
    {
      this.base, this.buffer, this.states, this.heap := base, buffer, states, heap;
      hwmUsedBytes := 0;
    }

    // ---------------------------------------------------------- statistics

    method PtrInFreelist(i: nat, ptr: nat) returns (b: bool)
      requires Valid() && i < states.Length && ptr != NULL
      ensures b <==> ptr in heap.free[i]
    {
      assert StateOk(states[..][i], heap, i);
      var curr := states[i].first;
      ghost var k := 0;
      while curr != NULL
        invariant k <= |heap.free[i]| && curr == ElementAt(heap.free[i], k)
        invariant ptr !in heap.free[i][..k]
        decreases |heap.free[i]| - k
      {
        if curr == ptr { return true; }
        ElementLink(heap, i, k);
        assert heap.free[i][..k + 1] == heap.free[i][..k] + [curr];
        curr := LoadPtr(buffer[..], curr - base);
        k := k + 1;
      }
      if k < |heap.free[i]| { ElementLink(heap, i, k); }
      assert heap.free[i][..k] == heap.free[i];
      return false;
    }

    static lemma BlockAddress(h: Heap, i: nat, k: nat)
      requires Inv(h) && i < |h.slabs| && k <= h.slabs[i].count
      ensures NULL < h.slabs[i].Block(k)
      ensures h.slabs[i].Block(k) == h.slabs[i].End() <==> k == h.slabs[i].count
    {
      var s := h.slabs[i];
      assert SlabOk(h.base, h.slabs, |h.mem|, i);
      StartAboveBase(h.base, h.slabs, |h.mem|, i);
      if k > 0 { BlockStep(s, 0, k); }
      if k < s.count { BlockStep(s, k, s.count); }
    }

    // The scan: free blocks from where the 32-bit product puts its start.
    method CountFree(i: nat) returns (freeCount: nat)
      requires Valid() && i < states.Length && ScanEnds(heap.slabs[i])
      ensures freeCount == ScannedFree(heap.slabs[i], heap.free[i]) <= heap.slabs[i].count
    {
      assert StateOk(states[..][i], heap, i);
      ghost var s, list := heap.slabs[i], heap.free[i];
      ghost var k := FirstScanned(s);
      var st := states[i];
      var curr := st.allocEnd - st.size * st.count % UINT_LIMIT;
      freeCount := 0;
      BlockAddress(heap, i, k);
      while curr != st.allocEnd
        invariant FirstScanned(s) <= k <= s.count && curr == s.Block(k) && NULL < curr
        invariant curr == s.End() <==> k == s.count
        invariant freeCount == CountListed(s, k, list) - CountListed(s, FirstScanned(s), list) <= k
        decreases s.count - k
      {
        var listed := PtrInFreelist(i, curr);
        if listed { freeCount := freeCount + 1; }
        curr := curr + st.size;
        k := k + 1;
        BlockAddress(heap, i, k);
      }
    }

    // Counts are those of the blocks the scan sees: all of them if it begins at
    // the pool.
    method GetPoolStats(i: nat) returns (res: PoolStats)
      requires Valid() && i < states.Length && ScanEnds(heap.slabs[i])
      ensures res.freeCount == ScannedFree(heap.slabs[i], heap.free[i])
      ensures res.usedCount + res.freeCount == heap.slabs[i].count && 0 <= res.usedCount
      ensures Scannable(heap.slabs[i]) ==> res.usedCount == UsedCount(heap, i) && res.freeCount == |heap.free[i]|
      ensures res.usedBytes == res.usedCount * heap.slabs[i].size
      ensures res.freeBytes == res.freeCount * heap.slabs[i].size
      ensures res.wasteBytes == 0 && res.hwmUsedCount == heap.hwmCount[i]
    {
      assert StateOk(states[..][i], heap, i);
      var st := states[i];
      var freeCount := CountFree(i);
      ScanCountsExactly(heap, i);
      var usedCount := st.count - freeCount;
      res := PoolStats(usedCount, usedCount * st.size, freeCount, freeCount * st.size, 0, st.hwmUsedCount);
    }

    // Used and free bytes add up to the carved bytes, even where the scan does
    // not see whole pools; each is right where it does.
    method GetGlobalStats() returns (res: GlobalStats)
      requires Valid() && forall i :: 0 <= i < |heap.slabs| ==> ScanEnds(heap.slabs[i])
      ensures AllScannable(heap.slabs) ==> res.usedBytes == UsedBytes(heap, |heap.slabs|)
      ensures base + res.usedBytes + res.freeBytes == StartOf(base, heap.slabs, |heap.slabs|)
      ensures res.wasteBytes == res.hwmWasteBytes == 0 && res.hwmUsedBytes == heap.hwmBytes
    {
      var totalUsed, totalFree, totalWaste := 0, 0, 0;
      for i := 0 to states.Length
        invariant totalWaste == 0 && (AllScannable(heap.slabs) ==> totalUsed == UsedBytes(heap, i))
        invariant base + totalUsed + totalFree == StartOf(base, heap.slabs, i)
      {
        var stats := GetPoolStats(i);
        BytesAddUp(heap, i, stats.usedCount, stats.freeCount);
        totalUsed := totalUsed + stats.usedBytes;
        totalFree := totalFree + stats.freeBytes;
        totalWaste := totalWaste + stats.wasteBytes;
      }
      res := GlobalStats(totalUsed, totalFree, totalWaste, hwmUsedBytes, 0);
    }

    static lemma BytesAddUp(h: Heap, i: nat, used: int, free: int)
      requires Inv(h) && i < |h.slabs| && used + free == h.slabs[i].count
      ensures StartOf(h.base, h.slabs, i) + used * h.slabs[i].size + free * h.slabs[i].size
        == StartOf(h.base, h.slabs, i + 1)
    {
      assert SlabOk(h.base, h.slabs, |h.mem|, i);
      BlockClosedForm(h.slabs[i], h.slabs[i].count);
      assert (used + free) * h.slabs[i].size == used * h.slabs[i].size + free * h.slabs[i].size;
    }

    method UpdateHighwater()
      requires Valid() && AllScannable(heap.slabs)
      modifies this, states
      ensures Valid() && heap == Track(old(heap))
    {
      var totalUsed := 0;
      for i := 0 to states.Length
        invariant Valid() && SameButHighwater(old(heap), heap)
        invariant heap.hwmBytes == old(heap).hwmBytes
        invariant totalUsed == UsedBytes(old(heap), i)
        invariant forall j :: 0 <= j < states.Length ==>
          heap.hwmCount[j] == if j < i then Track(old(heap)).hwmCount[j] else old(heap).hwmCount[j]
      {
        assert SlabOk(base, heap.slabs, buffer.Length, i);
        ScanStartsAtPoolExactly(heap.slabs[i]);
        var stats := GetPoolStats(i);
        if stats.usedCount > states[i].hwmUsedCount {
          SetHighwaterCount(i, stats.usedCount);
        }
        totalUsed := totalUsed + stats.usedBytes;
      }
      HighwaterKeepsInv(heap, Track(old(heap)));
      if totalUsed > hwmUsedBytes {
        hwmUsedBytes := totalUsed;
      }
      assert heap.hwmCount == Track(old(heap)).hwmCount;
      heap := Track(old(heap));
    }

    // s->hwm_used_count = n
    method SetHighwaterCount(i: nat, n: int)
      requires Valid() && i < states.Length
      modifies this`heap, states
      ensures Valid() && heap == old(heap).(hwmCount := old(heap).hwmCount[i := n])
    {
      assert forall j :: 0 <= j < states.Length ==> StateOk(states[..][j], heap, j);
      states[i] := states[i].(hwmUsedCount := n);
      heap := heap.(hwmCount := heap.hwmCount[i := n]);
      HighwaterKeepsInv(old(heap), heap);
    }

    // ------------------------------------------------ allocation providers

    // Take the first free block of pool i.
    method TakeFirst(i: nat) returns (res: nat)
      requires Valid() && HasFree(heap, i)
      modifies this`heap, states
      ensures Valid() && heap == Pop(old(heap), i) && res == old(heap).free[i][0]
    {
      ElementLink(heap, i, 0);
      PopKeepsInv(heap, i);
      assert forall j :: 0 <= j < states.Length ==> StateOk(states[..][j], heap, j);
      res := states[i].first;
      states[i] := states[i].(first := LoadPtr(buffer[..], res - base));
      heap := Pop(heap, i);
    }

    // Put the live block p in front of the free list of its pool i.
    method PutFirst(i: nat, p: nat)
      requires Valid() && OwnedBy(heap, i, p) && p in heap.live
      modifies this`heap, states, buffer
      ensures InMem(base, |old(heap).mem|, p)
      ensures Valid() && heap == Push(old(heap), i, p)
    {
      PushKeepsInv(heap, i, p);
      assert forall j :: 0 <= j < states.Length ==> StateOk(states[..][j], heap, j);
      StoreLink(buffer, p - base, states[i].first);
      states[i] := states[i].(first := p);
      heap := Push(heap, i, p);
    }

    method Alloc(size: nat) returns (r: nat)
      requires Valid() && AllScannable(heap.slabs)
      modifies this, states
      ensures Valid() && (heap, r) == AllocS(old(heap), size)
    {
      if size == 0 { return NULL; }
      for i := 0 to states.Length
        invariant Valid() && heap == old(heap)
        invariant forall j :: 0 <= j < i ==> !Fits(heap, j, size)
      {
        assert StateOk(states[..][i], heap, i);
        if size <= states[i].size {
          if states[i].first != NULL {
            FirstFitIs(heap, 0, |heap.slabs|, size, i);
            r := TakeFirst(i);
            UpdateHighwater();
            return;
          }
          NoneFree(heap, i);
        }
      }
      return NULL;
    }

    static lemma NoneFree(h: Heap, i: nat)
      requires Inv(h) && i < |h.free| && Head(h.free[i]) == NULL
      ensures h.free[i] == []
    {
      if h.free[i] != [] { ElementLink(h, i, 0); }
    }

    method Free(p: nat)
      requires Valid() && Legal(heap, p)
      modifies this`heap, states, buffer
      ensures Valid() && heap == FreeS(old(heap), p)
    {
      if p == NULL { return; }
      LiveOwner(heap, p);
      OwnerOfFirst(heap.slabs, p);
      for i := 0 to states.Length
        invariant Valid() && heap == old(heap)
        invariant i <= OwnerOf(heap.slabs, p)
      {
        assert StateOk(states[..][i], heap, i);
        if p >= states[i].allocEnd { continue; }
        PutFirst(i, p);
        return;
      }
    }

    // Move n bytes of block p of pool i to the first free block of pool j.
    method MoveBlock(i: nat, j: nat, p: nat, n: nat) returns (q: nat)
      requires Valid() && AllScannable(heap.slabs)
      requires OwnedBy(heap, i, p) && p in heap.live && CanMove(heap, i, j, p, n)
      modifies this, states, buffer
      ensures Valid() && heap == Track(Move(old(heap), i, j, p, n)) && q == old(heap).free[j][0]
    {
      FreeHead(heap, j);
      q := TakeFirst(j);
      assert OwnedBy(heap, j, q) && OwnedBy(heap, i, p);
      CopyBlock(j, q, p, n);
      assert OwnedBy(heap, i, p);
      PutFirst(i, p);
      UpdateHighwater();
    }

    // Copy n bytes from address p into the live block q of pool j.
    method CopyBlock(j: nat, q: nat, p: nat, n: nat)
      requires Valid() && OwnedBy(heap, j, q) && q in heap.live && n <= heap.slabs[j].size
      requires base <= p && p + n <= base + buffer.Length
      requires q + n <= p || p + n <= q
      modifies this`heap, buffer
      ensures base <= q && q + n <= base + |old(heap).mem|
      ensures Valid() && heap == Copy(old(heap), q, p, n)
    {
      BlockInside(base, heap.slabs, buffer.Length, j, q);
      CopyKeepsInv(heap, j, q, p, n);
      Memcpy(buffer, q - base, p - base, n);
      assert forall k :: 0 <= k < states.Length ==> StateOk(states[..][k], old(heap), k);
      heap := Copy(heap, q, p, n);
    }

    method Realloc(p: nat, size: nat) returns (r: nat)
      requires Valid() && AllScannable(heap.slabs) && Legal(heap, p)
      modifies this, states, buffer
      ensures Valid() && (heap, r) == ReallocS(old(heap), p, size)
    {
      if p == NULL {
        r := Alloc(size);
        return;
      }
      if size == 0 {
        Free(p);
        return NULL;
      }
      LiveOwner(heap, p);
      OwnerOfFirst(heap.slabs, p);
      for i := 0 to states.Length
        invariant Valid() && heap == old(heap)
        invariant i <= OwnerOf(heap.slabs, p)
      {
        assert StateOk(states[..][i], heap, i);
        if p >= states[i].allocEnd { continue; }
        if size <= states[i].size {
          r := Shrink(i, p, size);
        } else {
          r := Grow(i, p, size);
        }
        return;
      }
    }

    // The request fits the current block: try each smaller block size.
    method Shrink(i: nat, p: nat, size: nat) returns (r: nat)
      requires Valid() && OwnedBy(heap, i, p) && p in heap.live && 0 < size <= heap.slabs[i].size
      requires AllScannable(heap.slabs) && i == OwnerOf(heap.slabs, p)
      modifies this, states, buffer
      ensures Valid() && (heap, r) == ReallocS(old(heap), p, size)
    {
      LiveOwner(heap, p);
      for j := 0 to i
        invariant Valid() && heap == old(heap)
        invariant forall k :: 0 <= k < j ==> !Fits(heap, k, size)
      {
        assert StateOk(states[..][j], heap, j);
        if size <= states[j].size {
          if states[j].first != NULL {
            FirstFitIs(heap, 0, i, size, j);
            MoveIsPossible(heap, i, j, p, size);
            r := MoveBlock(i, j, p, size);
            return;
          }
          NoneFree(heap, j);
        }
      }
      return p;
    }

    // The request exceeds the current block: find the first larger block that is free.
    method Grow(i: nat, p: nat, size: nat) returns (r: nat)
      requires Valid() && OwnedBy(heap, i, p) && p in heap.live && heap.slabs[i].size < size
      requires AllScannable(heap.slabs) && i == OwnerOf(heap.slabs, p)
      modifies this, states, buffer
      ensures Valid() && (heap, r) == ReallocS(old(heap), p, size)
    {
      LiveOwner(heap, p);
      assert StateOk(states[..][i], heap, i);
      for j := i + 1 to states.Length
        invariant Valid() && heap == old(heap)
        invariant forall k :: i < k < j ==> !Fits(heap, k, size)
      {
        assert StateOk(states[..][j], heap, j) && StateOk(states[..][i], heap, i);
        if size <= states[j].size {
          if states[j].first != NULL {
            FirstFitIs(heap, i + 1, |heap.slabs|, size, j);
            MoveIsPossible(heap, i, j, p, heap.slabs[i].size);
            r := MoveBlock(i, j, p, states[i].size);
            return;
          }
          NoneFree(heap, j);
        }
      }
      return NULL;
    }

    // A client stores bytes in a block it owns.
    method Write(p: nat, a: nat, bytes: seq<Byte>)
      requires Valid() && ClientOwns(heap, p, a, |bytes|)
      modifies this`heap, buffer
      ensures Valid() && heap == WriteS(old(heap), p, a, bytes)
    {
      LiveOwner(heap, p);
      ClientWriteKeepsInv(heap, p, a, bytes);
      StoreBytes(buffer, a - base, bytes);
      assert forall k :: 0 <= k < states.Length ==> StateOk(states[..][k], old(heap), k);
      heap := WriteS(heap, p, a, bytes);
    }
  }
}
