// What duk_alloc_pool, duk_realloc_pool, duk_free_pool and client writes do to
// the pool heap: they keep it valid.
module PoolOps {
  import opened Widths
  import opened Octets
  import opened RawMemory
  import opened PoolModel

  // ------------------------------------------------------------ accounting

  // Blocks of pool i that clients own.
  ghost function UsedCount(h: Heap, i: nat): int
    requires i < |h.slabs| == |h.free|
  {
    h.slabs[i].count - |h.free[i]|
  }

  ghost function UsedBytes(h: Heap, n: nat): int
    requires n <= |h.slabs| == |h.free|
  {
    if n == 0 then 0 else UsedBytes(h, n - 1) + UsedCount(h, n - 1) * h.slabs[n - 1].size
  }

  function Max(a: int, b: int): int {
    if a < b then b else a
  }

  // Highwater update after a successful allocation or move.
  ghost function Track(h: Heap): Heap
    requires |h.slabs| == |h.free| == |h.hwmCount|
  {
    h.(hwmCount := seq(|h.hwmCount|, i requires 0 <= i < |h.hwmCount| => Max(h.hwmCount[i], UsedCount(h, i))),
       hwmBytes := Max(h.hwmBytes, UsedBytes(h, |h.slabs|)))
  }

  // The highwater marks play no part in what makes a heap valid.
  ghost predicate SameButHighwater(h: Heap, h': Heap) {
    && h'.base == h.base && h'.slabs == h.slabs && h'.mem == h.mem
    && h'.free == h.free && h'.live == h.live
    && |h'.hwmCount| == |h.hwmCount|
  }

  lemma HighwaterKeepsInv(h: Heap, h': Heap)
    requires Inv(h) && SameButHighwater(h, h')
    ensures Inv(h')
  {
    forall i | 0 <= i < |h.slabs| ensures FreeListOk(h', i) {
      assert FreeListOk(h, i);
      forall k | 0 <= k < |h.free[i]| ensures OwnedBy(h', i, h.free[i][k]) {
        assert OwnedBy(h, i, h.free[i][k]);
      }
    }
    SamePartition(h, h');
  }

  lemma {:induction false} SameUsedBytes(h: Heap, h': Heap, n: nat)
    requires n <= |h.slabs| == |h.free| && h'.slabs == h.slabs && h'.free == h.free
    ensures UsedBytes(h', n) == UsedBytes(h, n)
  {
    if n > 0 { SameUsedBytes(h, h', n - 1); }
  }

  lemma TrackKeepsInv(h: Heap)
    requires Inv(h)
    ensures Inv(Track(h))
  {
    HighwaterKeepsInv(h, Track(h));
  }

  // ------------------------------------------------------------- operations

  // Pool i can serve a request of 'size' bytes.
  ghost predicate Fits(h: Heap, i: nat, size: nat)
    requires |h.slabs| == |h.free|
  {
    i < |h.slabs| && size <= h.slabs[i].size && h.free[i] != []
  }

  // First pool in [lo, hi) that can serve the request, or hi.
  ghost function FirstFit(h: Heap, lo: nat, hi: nat, size: nat): (r: nat)
    requires lo <= hi <= |h.slabs| == |h.free|
    ensures lo <= r <= hi
    ensures r < hi ==> Fits(h, r, size)
    ensures forall j :: lo <= j < r ==> !Fits(h, j, size)
    decreases hi - lo
  {
    if lo == hi || Fits(h, lo, size) then lo else FirstFit(h, lo + 1, hi, size)
  }

  lemma FirstFitIs(h: Heap, lo: nat, hi: nat, size: nat, r: nat)
    requires lo <= r < hi <= |h.slabs| == |h.free|
    requires Fits(h, r, size) && forall k :: lo <= k < r ==> !Fits(h, k, size)
    ensures FirstFit(h, lo, hi, size) == r
  {
    var s := FirstFit(h, lo, hi, size);
    assert s < hi ==> Fits(h, s, size);
  }

  ghost predicate Legal(h: Heap, p: nat) {
    p == NULL || p in h.live
  }

  // A live pointer has an owner, which the end-address search finds.
  lemma LiveOwner(h: Heap, p: nat)
    requires Inv(h) && p in h.live
    ensures p != NULL
    ensures OwnedBy(h, OwnerOf(h.slabs, p), p)
    ensures InMem(h.base, |h.mem|, p)
    ensures p + h.slabs[OwnerOf(h.slabs, p)].size <= h.base + |h.mem|
  {
    var i: nat :| OwnedBy(h, i, p);
    OwnerIsFoundByEndAddress(h.base, h.slabs, |h.mem|, i, p);
    BlockInside(h.base, h.slabs, |h.mem|, i, p);
  }

  lemma FreeHead(h: Heap, j: nat)
    requires Inv(h) && HasFree(h, j)
    ensures OwnedBy(h, j, h.free[j][0]) && h.free[j][0] !in h.live && h.free[j][0] != NULL
    ensures h.base <= h.free[j][0] && h.free[j][0] + h.slabs[j].size <= h.base + |h.mem|
  {
    assert FreeListOk(h, j);
    assert OwnedBy(h, j, h.free[j][0]);
    BlockInside(h.base, h.slabs, |h.mem|, j, h.free[j][0]);
  }

  ghost function AllocS(h: Heap, size: nat): (Heap, nat)
    requires Inv(h)
  {
    if size == 0 then (h, NULL) else
    var i := FirstFit(h, 0, |h.slabs|, size);
    if i == |h.slabs| then (h, NULL) else (Track(Pop(h, i)), h.free[i][0])
  }

  ghost function FreeS(h: Heap, p: nat): Heap
    requires Inv(h) && Legal(h, p)
  {
    if p == NULL then h else
    LiveOwner(h, p);
    Push(h, OwnerOf(h.slabs, p), p)
  }

  // Block p of pool i and the first free block of pool j lie inside the buffer
  // and do not overlap, and both have room for n bytes.
  ghost predicate CanMove(h: Heap, i: nat, j: nat, p: nat, n: nat) {
    && i < |h.slabs| == |h.free| && HasFree(h, j) && i != j
    && n <= h.slabs[i].size && n <= h.slabs[j].size
    && PTR_SIZE <= h.slabs[i].size && PTR_SIZE <= h.slabs[j].size
    && h.base <= p && p + h.slabs[i].size <= h.base + |h.mem|
    && h.base <= h.free[j][0] && h.free[j][0] + h.slabs[j].size <= h.base + |h.mem|
    && (p + h.slabs[i].size <= h.free[j][0] || h.free[j][0] + h.slabs[j].size <= p)
  }

  lemma MoveIsPossible(h: Heap, i: nat, j: nat, p: nat, n: nat)
    requires Inv(h) && OwnedBy(h, i, p) && p in h.live && HasFree(h, j) && i != j
    requires n <= h.slabs[i].size && n <= h.slabs[j].size
    ensures CanMove(h, i, j, p, n)
  {
    BlockInside(h.base, h.slabs, |h.mem|, i, p);
    FreeHead(h, j);
    BlocksApart(h.base, h.slabs, |h.mem|, i, p, j, h.free[j][0]);
  }

  // Take a block of pool j, copy n bytes of p into it, and free p.
  ghost function Move(h: Heap, i: nat, j: nat, p: nat, n: nat): Heap
    requires CanMove(h, i, j, p, n)
  {
    Push(Copy(Pop(h, j), h.free[j][0], p, n), i, p)
  }

  ghost function ReallocS(h: Heap, p: nat, size: nat): (Heap, nat)
    requires Inv(h) && Legal(h, p)
  {
    if p == NULL then AllocS(h, size)
    else if size == 0 then (FreeS(h, p), NULL)
    else
      LiveOwner(h, p);
      var i := OwnerOf(h.slabs, p);
      if size <= h.slabs[i].size then
        var j := FirstFit(h, 0, i, size);
        if j == i then (h, p) else
        MoveIsPossible(h, i, j, p, size);
        (Track(Move(h, i, j, p, size)), h.free[j][0])
      else
        var j := FirstFit(h, i + 1, |h.slabs|, size);
        if j == |h.slabs| then (h, NULL) else
        MoveIsPossible(h, i, j, p, h.slabs[i].size);
        (Track(Move(h, i, j, p, h.slabs[i].size)), h.free[j][0])
  }

  // The pool realloc moves the block of pool i to, or |slabs| if it stays put.
  ghost function Target(h: Heap, i: nat, size: nat): (j: nat)
    requires i < |h.slabs| == |h.free|
    ensures j < |h.slabs| ==> j != i && Fits(h, j, size)
  {
    if size <= h.slabs[i].size then
      var j := FirstFit(h, 0, i, size); if j == i then |h.slabs| else j
    else
      FirstFit(h, i + 1, |h.slabs|, size)
  }

  // Realloc either changes nothing, or moves the block once.
  lemma ReallocCases(h: Heap, p: nat, size: nat)
    requires Inv(h) && p in h.live && size > 0
    ensures var i := OwnerOf(h.slabs, p); OwnedBy(h, i, p) && var j := Target(h, i, size);
      (j < |h.slabs| ==> CanMove(h, i, j, p, Min(h.slabs[i].size, size))) &&
      ReallocS(h, p, size) ==
        if j == |h.slabs| then (h, if size <= h.slabs[i].size then p else NULL)
        else (Track(Move(h, i, j, p, Min(h.slabs[i].size, size))), h.free[j][0])
  {
    LiveOwner(h, p);
    var i := OwnerOf(h.slabs, p);
    var j := Target(h, i, size);
    if j < |h.slabs| { MoveIsPossible(h, i, j, p, Min(h.slabs[i].size, size)); }
  }

  // The n bytes at address a lie inside the live block p.
  ghost predicate ClientOwns(h: Heap, p: nat, a: nat, n: nat)
    requires Inv(h)
  {
    && p in h.live
    && p <= a
    && (LiveOwner(h, p); a + n <= p + h.slabs[OwnerOf(h.slabs, p)].size)
  }

  // A client stores bytes b at address a.
  ghost function WriteS(h: Heap, p: nat, a: nat, b: seq<Byte>): Heap
    requires Inv(h) && ClientOwns(h, p, a, |b|)
  {
    LiveOwner(h, p);
    h.(mem := Overwrite(h.mem, a - h.base, b))
  }

  // -------------------------------------------------- every step keeps Inv

  lemma CopyKeepsInv(h: Heap, j: nat, q: nat, p: nat, n: nat)
    requires Inv(h) && OwnedBy(h, j, q) && q in h.live && n <= h.slabs[j].size
    requires h.base <= p && p + n <= h.base + |h.mem|
    ensures h.base <= q && q + n <= h.base + |h.mem| && Inv(Copy(h, q, p, n))
  {
    WriteKeepsInv(h, j, q, q, h.mem[p - h.base..p - h.base + n]);
  }

  lemma MoveKeepsInv(h: Heap, i: nat, j: nat, p: nat, n: nat)
    requires Inv(h) && OwnedBy(h, i, p) && p in h.live && CanMove(h, i, j, p, n)
    ensures Inv(Move(h, i, j, p, n))
  {
    FreeHead(h, j);
    var q := h.free[j][0];
    PopKeepsInv(h, j);
    var h1 := Pop(h, j);
    assert OwnedBy(h1, j, q);
    CopyKeepsInv(h1, j, q, p, n);
    var h2 := Copy(h1, q, p, n);
    assert OwnedBy(h2, i, p);
    PushKeepsInv(h2, i, p);
  }

  lemma AllocKeepsInv(h: Heap, size: nat)
    requires Inv(h)
    ensures Inv(AllocS(h, size).0)
  {
    var i := FirstFit(h, 0, |h.slabs|, size);
    if size > 0 && i < |h.slabs| {
      PopKeepsInv(h, i);
      TrackKeepsInv(Pop(h, i));
    }
  }

  lemma FreeKeepsInv(h: Heap, p: nat)
    requires Inv(h) && Legal(h, p)
    ensures Inv(FreeS(h, p))
  {
    if p != NULL {
      LiveOwner(h, p);
      PushKeepsInv(h, OwnerOf(h.slabs, p), p);
    }
  }

  lemma ReallocKeepsInv(h: Heap, p: nat, size: nat)
    requires Inv(h) && Legal(h, p)
    ensures Inv(ReallocS(h, p, size).0)
  {
    if p == NULL {
      AllocKeepsInv(h, size);
    } else if size == 0 {
      FreeKeepsInv(h, p);
    } else {
      ReallocCases(h, p, size);
      var i := OwnerOf(h.slabs, p);
      var j := Target(h, i, size);
      if j < |h.slabs| {
        var n := Min(h.slabs[i].size, size);
        MoveKeepsInv(h, i, j, p, n);
        TrackKeepsInv(Move(h, i, j, p, n));
      }
    }
  }

  lemma ClientWriteKeepsInv(h: Heap, p: nat, a: nat, b: seq<Byte>)
    requires Inv(h) && ClientOwns(h, p, a, |b|)
    ensures Inv(WriteS(h, p, a, b))
  {
    LiveOwner(h, p);
    WriteKeepsInv(h, OwnerOf(h.slabs, p), p, a, b);
  }
}
