// The abstract pool heap: what duk_alloc_pool.c keeps true of the caller's
// buffer, and what each allocation provider does to it.
module PoolModel {
  import opened Widths
  import opened Octets
  import opened RawMemory

  // One pool: 'count' blocks of 'size' bytes, back to back from address 'start'.
  datatype Slab = Slab(start: nat, size: nat, count: nat) {
    // Address of block k; Block(count) is the end of the pool.
    function Block(k: nat): nat {
      if k == 0 then start else Block(k - 1) + size
    }

    function End(): nat { Block(count) }
  }

  // 'slabs' is fixed by initialisation. 'free[i]' is the free list of pool i in
  // list order; 'live' holds the blocks that clients own.
  datatype Heap = Heap(
    base: nat, slabs: seq<Slab>,
    mem: seq<Byte>, free: seq<seq<nat>>, live: set<nat>,
    hwmCount: seq<int>, hwmBytes: int)

  ghost predicate IsBlock(s: Slab, p: nat) {
    exists k :: 0 <= k < s.count && p == s.Block(k)
  }

  // ---------------------------------------------------------------- layout

  // Where pool i begins: at the buffer, or at the end of the pool before it.
  function StartOf(base: nat, slabs: seq<Slab>, i: nat): nat
    requires i <= |slabs|
  {
    if i == 0 then base else slabs[i - 1].End()
  }

  ghost predicate SlabOk(base: nat, slabs: seq<Slab>, len: nat, i: nat)
    requires i < |slabs|
  {
    && slabs[i].size >= PTR_SIZE
    && slabs[i].size % 4 == 0
    && slabs[i].start == StartOf(base, slabs, i)
    && slabs[i].End() <= base + len
  }

  ghost predicate LayoutOk(base: nat, slabs: seq<Slab>, len: nat) {
    && NULL < base
    && base + len < ADDRESS_LIMIT
    && forall i :: 0 <= i < |slabs| ==> SlabOk(base, slabs, len, i)
  }

  lemma {:induction false} BlockStep(s: Slab, k: nat, l: nat)
    requires k < l
    ensures s.Block(k) + s.size <= s.Block(l)
  {
    if k + 1 < l { BlockStep(s, k, l - 1); }
  }

  lemma {:induction false} BlockClosedForm(s: Slab, k: nat)
    ensures s.Block(k) == s.start + k * s.size
  {
    if k > 0 { BlockClosedForm(s, k - 1); }
  }

  lemma StartBelowEnd(s: Slab)
    ensures s.start <= s.End()
  {
    if s.count > 0 { BlockStep(s, 0, s.count); }
  }

  lemma {:induction false} SlabsAscend(base: nat, slabs: seq<Slab>, len: nat, i: nat, j: nat)
    requires LayoutOk(base, slabs, len)
    requires i < j < |slabs|
    ensures slabs[i].End() <= slabs[j].start
  {
    assert SlabOk(base, slabs, len, j);
    if i < j - 1 {
      SlabsAscend(base, slabs, len, i, j - 1);
      StartBelowEnd(slabs[j - 1]);
    }
  }

  lemma {:induction false} StartAboveBase(base: nat, slabs: seq<Slab>, len: nat, i: nat)
    requires LayoutOk(base, slabs, len)
    requires i < |slabs|
    ensures base <= slabs[i].start
  {
    assert SlabOk(base, slabs, len, i);
    if i > 0 {
      StartAboveBase(base, slabs, len, i - 1);
      StartBelowEnd(slabs[i - 1]);
    }
  }

  // A block lies inside its own pool, hence inside the buffer.
  lemma BlockInside(base: nat, slabs: seq<Slab>, len: nat, i: nat, p: nat)
    requires LayoutOk(base, slabs, len)
    requires i < |slabs| && IsBlock(slabs[i], p)
    ensures NULL < base <= slabs[i].start <= p
    ensures p + PTR_SIZE <= p + slabs[i].size <= slabs[i].End() <= base + len
  {
    assert SlabOk(base, slabs, len, i);
    var k :| 0 <= k < slabs[i].count && p == slabs[i].Block(k);
    BlockStep(slabs[i], k, slabs[i].count);
    if k > 0 { BlockStep(slabs[i], 0, k); }
    StartAboveBase(base, slabs, len, i);
  }

  // Any two blocks are the same block of the same pool, or do not overlap.
  lemma BlocksApart(base: nat, slabs: seq<Slab>, len: nat, i: nat, p: nat, j: nat, q: nat)
    requires LayoutOk(base, slabs, len)
    requires i < |slabs| && IsBlock(slabs[i], p)
    requires j < |slabs| && IsBlock(slabs[j], q)
    ensures slabs[i].size >= PTR_SIZE && slabs[j].size >= PTR_SIZE
    ensures (i == j && p == q) || p + slabs[i].size <= q || q + slabs[j].size <= p
  {
    assert SlabOk(base, slabs, len, i) && SlabOk(base, slabs, len, j);
    BlockInside(base, slabs, len, i, p);
    BlockInside(base, slabs, len, j, q);
    if i < j {
      SlabsAscend(base, slabs, len, i, j);
    } else if j < i {
      SlabsAscend(base, slabs, len, j, i);
    } else if p != q {
      var k :| 0 <= k < slabs[i].count && p == slabs[i].Block(k);
      var l :| 0 <= l < slabs[i].count && q == slabs[i].Block(l);
      if k < l { BlockStep(slabs[i], k, l); } else { BlockStep(slabs[i], l, k); }
    }
  }

  // The search used by realloc and free: the first pool whose end lies above p.
  function OwnerOf(slabs: seq<Slab>, p: nat): (r: nat)
    ensures r <= |slabs|
  {
    if slabs == [] || p < slabs[0].End() then 0 else 1 + OwnerOf(slabs[1..], p)
  }

  lemma {:induction false} OwnerOfFirst(slabs: seq<Slab>, p: nat)
    ensures OwnerOf(slabs, p) < |slabs| ==> p < slabs[OwnerOf(slabs, p)].End()
    ensures forall j :: 0 <= j < OwnerOf(slabs, p) ==> slabs[j].End() <= p
  {
    if !(slabs == [] || p < slabs[0].End()) {
      OwnerOfFirst(slabs[1..], p);
      var r := OwnerOf(slabs[1..], p);
      forall j | 0 <= j < r + 1 ensures slabs[j].End() <= p {
        if j > 0 { assert slabs[1..][j - 1] == slabs[j]; }
      }
    }
  }

  // End addresses alone find the owner, also when pools without blocks lie between.
  lemma OwnerIsFoundByEndAddress(base: nat, slabs: seq<Slab>, len: nat, i: nat, p: nat)
    requires LayoutOk(base, slabs, len)
    requires i < |slabs| && IsBlock(slabs[i], p)
    ensures OwnerOf(slabs, p) == i
  {
    OwnerOfFirst(slabs, p);
    BlockInside(base, slabs, len, i, p);
    if OwnerOf(slabs, p) < i {
      SlabsAscend(base, slabs, len, OwnerOf(slabs, p), i);
    }
  }

  // ------------------------------------------------------------- invariant

  function Head(s: seq<nat>): nat {
    if s == [] then NULL else s[0]
  }

  // Successor of element k of a free list, as the element stores it.
  function Next(s: seq<nat>, k: nat): nat
    requires k < |s|
  {
    if k + 1 < |s| then s[k + 1] else NULL
  }

  ghost predicate InMem(base: nat, len: nat, p: nat) {
    base <= p && p + PTR_SIZE <= base + len
  }

  // Element k of 's' stores the address of element k + 1, the last one NULL.
  ghost predicate Linked(base: nat, mem: seq<Byte>, s: seq<nat>, k: nat)
    requires k < |s|
  {
    InMem(base, |mem|, s[k]) && LoadPtr(mem, s[k] - base) == Next(s, k)
  }

  ghost predicate Chain(base: nat, mem: seq<Byte>, s: seq<nat>) {
    forall k :: 0 <= k < |s| ==> Linked(base, mem, s, k)
  }

  ghost predicate FreeListOk(h: Heap, i: nat)
    requires i < |h.slabs| == |h.free|
  {
    && (forall k :: 0 <= k < |h.free[i]| ==> OwnedBy(h, i, h.free[i][k]))
    && Distinct(h.free[i])
    && Chain(h.base, h.mem, h.free[i])
  }

  ghost predicate OwnedBy(h: Heap, i: nat, p: nat) {
    i < |h.slabs| && IsBlock(h.slabs[i], p)
  }

  // Every block is either free or live, never both, and only blocks are live.
  ghost predicate Partition(h: Heap)
    requires |h.slabs| == |h.free|
  {
    && (forall i: nat, p: nat :: OwnedBy(h, i, p) ==> (p in h.live <==> p !in h.free[i]))
    && (forall p: nat :: p in h.live ==> exists i: nat :: OwnedBy(h, i, p))
  }

  ghost predicate Inv(h: Heap) {
    && LayoutOk(h.base, h.slabs, |h.mem|)
    && |h.slabs| == |h.free| == |h.hwmCount|
    && (forall i :: 0 <= i < |h.slabs| ==> FreeListOk(h, i))
    && Partition(h)
  }

  // ------------------------------------------------------- primitive steps

  ghost predicate HasFree(h: Heap, i: nat) {
    i < |h.free| && h.free[i] != []
  }

  // Take the first free block of pool i.
  ghost function Pop(h: Heap, i: nat): Heap
    requires HasFree(h, i)
  {
    h.(free := h.free[i := h.free[i][1..]], live := h.live + {h.free[i][0]})
  }

  // Put block p in front of the free list of pool i.
  ghost function Push(h: Heap, i: nat, p: nat): Heap
    requires i < |h.free| && InMem(h.base, |h.mem|, p)
  {
    h.(mem := StorePtr(h.mem, p - h.base, Head(h.free[i])),
       free := h.free[i := [p] + h.free[i]],
       live := h.live - {p})
  }

  // Copy n bytes between two blocks.
  ghost function Copy(h: Heap, dst: nat, src: nat, n: nat): Heap
    requires h.base <= dst && dst + n <= h.base + |h.mem|
    requires h.base <= src && src + n <= h.base + |h.mem|
  {
    h.(mem := CopyBytes(h.mem, dst - h.base, src - h.base, n))
  }

  lemma PopPartition(h: Heap, i: nat)
    requires |h.slabs| == |h.free| && Partition(h) && HasFree(h, i)
    requires LayoutOk(h.base, h.slabs, |h.mem|)
    requires FreeListOk(h, i)
    ensures Partition(Pop(h, i))
  {
    var h' := Pop(h, i);
    var q := h.free[i][0];
    assert OwnedBy(h, i, q);
    forall j: nat, p: nat | OwnedBy(h', j, p) ensures p in h'.live <==> p !in h'.free[j] {
      assert OwnedBy(h, j, p);
      BlocksApart(h.base, h.slabs, |h.mem|, i, q, j, p);
      if j == i {
        assert h.free[i] == [q] + h'.free[i];
      }
    }
    forall p: nat | p in h'.live ensures exists j: nat :: OwnedBy(h', j, p) {
      if p == q {
        assert OwnedBy(h', i, p);
      } else {
        var j: nat :| OwnedBy(h, j, p);
        assert OwnedBy(h', j, p);
      }
    }
  }

  lemma ChainTail(base: nat, mem: seq<Byte>, s: seq<nat>)
    requires s != [] && Chain(base, mem, s)
    ensures Chain(base, mem, s[1..])
    ensures InMem(base, |mem|, s[0]) && LoadPtr(mem, s[0] - base) == Head(s[1..])
  {
    assert Linked(base, mem, s, 0);
    forall k | 0 <= k < |s[1..]| ensures Linked(base, mem, s[1..], k) {
      assert Linked(base, mem, s, k + 1);
    }
  }

  lemma PopKeepsInv(h: Heap, i: nat)
    requires Inv(h) && HasFree(h, i)
    ensures Inv(Pop(h, i))
  {
    var h' := Pop(h, i);
    assert FreeListOk(h, i);
    PopPartition(h, i);
    ChainTail(h.base, h.mem, h.free[i]);
    forall j | 0 <= j < |h.slabs| ensures FreeListOk(h', j) {
      assert FreeListOk(h, j);
      forall k | 0 <= k < |h'.free[j]| ensures OwnedBy(h', j, h'.free[j][k]) {
        assert OwnedBy(h, j, h.free[j][if j == i then k + 1 else k]);
      }
    }
  }

  // The bytes [a, a + n) meet no element of the list.
  ghost predicate Misses(s: seq<nat>, a: nat, n: nat) {
    forall k :: 0 <= k < |s| ==> s[k] + PTR_SIZE <= a || a + n <= s[k]
  }

  lemma ChainSurvivesWrite(base: nat, mem: seq<Byte>, s: seq<nat>, a: nat, b: seq<Byte>)
    requires base <= a && a + |b| <= base + |mem|
    requires Chain(base, mem, s) && Misses(s, a, |b|)
    ensures Chain(base, Overwrite(mem, a - base, b), s)
  {
    var mem' := Overwrite(mem, a - base, b);
    forall k | 0 <= k < |s| ensures Linked(base, mem', s, k) {
      assert Linked(base, mem, s, k);
      LoadUntouched(mem, a - base, b, s[k] - base);
    }
  }

  // A live block meets no element of any free list.
  lemma LiveMissesFree(h: Heap, i: nat, p: nat, j: nat, a: nat, n: nat)
    requires Inv(h) && OwnedBy(h, i, p) && p in h.live
    requires p <= a && a + n <= p + h.slabs[i].size
    requires j < |h.slabs|
    ensures h.base <= a && a + n <= h.base + |h.mem|
    ensures Misses(h.free[j], a, n)
  {
    BlockInside(h.base, h.slabs, |h.mem|, i, p);
    assert FreeListOk(h, j);
    forall k | 0 <= k < |h.free[j]| ensures h.free[j][k] + PTR_SIZE <= a || a + n <= h.free[j][k] {
      assert OwnedBy(h, j, h.free[j][k]);
      BlocksApart(h.base, h.slabs, |h.mem|, i, p, j, h.free[j][k]);
    }
  }

  lemma SamePartition(h: Heap, h': Heap)
    requires |h.slabs| == |h.free| && Partition(h)
    requires h'.slabs == h.slabs && h'.free == h.free && h'.live == h.live
    ensures Partition(h')
  {
    forall j: nat, q: nat | OwnedBy(h', j, q) ensures q in h'.live <==> q !in h'.free[j] {
      assert OwnedBy(h, j, q);
    }
    forall q: nat | q in h'.live ensures exists j: nat :: OwnedBy(h', j, q) {
      var j: nat :| OwnedBy(h, j, q);
      assert OwnedBy(h', j, q);
    }
  }

  // Whatever a client writes inside a block it owns, the free lists stay threaded.
  lemma WriteKeepsInv(h: Heap, i: nat, p: nat, a: nat, b: seq<Byte>)
    requires Inv(h) && OwnedBy(h, i, p) && p in h.live
    requires p <= a && a + |b| <= p + h.slabs[i].size
    ensures h.base <= a && a + |b| <= h.base + |h.mem|
    ensures Inv(h.(mem := Overwrite(h.mem, a - h.base, b)))
  {
    LiveMissesFree(h, i, p, i, a, |b|);
    var h' := h.(mem := Overwrite(h.mem, a - h.base, b));
    forall j | 0 <= j < |h.slabs| ensures FreeListOk(h', j) {
      LiveMissesFree(h, i, p, j, a, |b|);
      assert FreeListOk(h, j);
      ChainSurvivesWrite(h.base, h.mem, h.free[j], a, b);
    }
    SamePartition(h, h');
  }

  lemma PushPartition(h: Heap, i: nat, p: nat)
    requires |h.slabs| == |h.free| && Partition(h)
    requires LayoutOk(h.base, h.slabs, |h.mem|)
    requires OwnedBy(h, i, p) && p in h.live && InMem(h.base, |h.mem|, p)
    ensures Partition(Push(h, i, p))
  {
    var h' := Push(h, i, p);
    forall j: nat, q: nat | OwnedBy(h', j, q) ensures q in h'.live <==> q !in h'.free[j] {
      assert OwnedBy(h, j, q);
      BlocksApart(h.base, h.slabs, |h.mem|, i, p, j, q);
    }
    forall q: nat | q in h'.live ensures exists j: nat :: OwnedBy(h', j, q) {
      var j: nat :| OwnedBy(h, j, q);
      assert OwnedBy(h', j, q);
    }
  }

  // A block that stores the head of a list goes in front of it.
  lemma ChainInFront(base: nat, mem: seq<Byte>, s: seq<nat>, p: nat)
    requires InMem(base, |mem|, p) && Chain(base, mem, s) && LoadPtr(mem, p - base) == Head(s)
    ensures Chain(base, mem, [p] + s)
  {
    var t := [p] + s;
    forall k | 0 <= k < |t| ensures Linked(base, mem, t, k) {
      if k > 0 { assert Linked(base, mem, s, k - 1); }
    }
  }

  lemma HeadIsAddress(base: nat, mem: seq<Byte>, s: seq<nat>)
    requires Chain(base, mem, s) && base + |mem| < ADDRESS_LIMIT
    ensures Head(s) < ADDRESS_LIMIT
  {
    if s != [] { assert Linked(base, mem, s, 0); }
  }

  // Storing the old head as the link of a block puts the block in front.
  lemma ChainCons(base: nat, mem: seq<Byte>, s: seq<nat>, p: nat)
    requires InMem(base, |mem|, p) && base + |mem| < ADDRESS_LIMIT
    requires Chain(base, mem, s) && Misses(s, p, PTR_SIZE)
    ensures Chain(base, StorePtr(mem, p - base, Head(s)), [p] + s)
  {
    HeadIsAddress(base, mem, s);
    ChainSurvivesWrite(base, mem, s, p, PtrBytes(Head(s), PTR_SIZE));
    LoadAfterStore(mem, p - base, Head(s));
    ChainInFront(base, StorePtr(mem, p - base, Head(s)), s, p);
  }

  lemma PushFreeList(h: Heap, i: nat, p: nat, j: nat)
    requires Inv(h) && OwnedBy(h, i, p) && p in h.live && j < |h.slabs|
    ensures InMem(h.base, |h.mem|, p) && FreeListOk(Push(h, i, p), j)
  {
    BlockInside(h.base, h.slabs, |h.mem|, i, p);
    assert FreeListOk(h, j) && SlabOk(h.base, h.slabs, |h.mem|, i);
    LiveMissesFree(h, i, p, j, p, PTR_SIZE);
    var h' := Push(h, i, p);
    if j == i {
      ChainCons(h.base, h.mem, h.free[i], p);
      assert p !in h.free[i];
    } else {
      ChainSurvivesWrite(h.base, h.mem, h.free[j], p, PtrBytes(Head(h.free[i]), PTR_SIZE));
    }
    forall k | 0 <= k < |h'.free[j]| ensures OwnedBy(h', j, h'.free[j][k]) {
      if j != i || k > 0 { assert OwnedBy(h, j, h.free[j][if j == i then k - 1 else k]); }
    }
  }

  lemma PushKeepsInv(h: Heap, i: nat, p: nat)
    requires Inv(h) && OwnedBy(h, i, p) && p in h.live
    ensures InMem(h.base, |h.mem|, p)
    ensures Inv(Push(h, i, p))
  {
    BlockInside(h.base, h.slabs, |h.mem|, i, p);
    PushPartition(h, i, p);
    forall j | 0 <= j < |h.slabs| ensures FreeListOk(Push(h, i, p), j) {
      PushFreeList(h, i, p, j);
    }
  }
}
