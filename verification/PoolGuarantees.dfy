// What clients of the pool allocator rely on, proved of every valid heap.
module PoolGuarantees {
  import opened Widths
  import opened Octets
  import opened RawMemory
  import opened PoolModel
  import opened PoolOps

  // Configurations list pools in ascending block size.
  ghost predicate Ascending(slabs: seq<Slab>) {
    forall i, j :: 0 <= i < j < |slabs| ==> slabs[i].size <= slabs[j].size
  }

  // Size of the live block at p.
  ghost function BlockSize(h: Heap, p: nat): nat
    requires Inv(h) && p in h.live
  {
    LiveOwner(h, p);
    h.slabs[OwnerOf(h.slabs, p)].size
  }

  // The first n bytes at address p.
  ghost function Bytes(h: Heap, p: nat, n: nat): (s: seq<Byte>)
    requires h.base <= p && p + n <= h.base + |h.mem|
    ensures |s| == n
  {
    h.mem[p - h.base..p - h.base + n]
  }

  // The whole contents of the live block at p.
  ghost function Contents(h: Heap, p: nat): (s: seq<Byte>)
    requires Inv(h) && p in h.live
    ensures |s| == BlockSize(h, p)
  {
    LiveOwner(h, p);
    Bytes(h, p, BlockSize(h, p))
  }

  // Live block t is still live in h' and holds the bytes it held in h.
  ghost predicate Preserved(h: Heap, h': Heap, t: nat)
    requires Inv(h) && t in h.live && Inv(h')
  {
    t in h'.live && Contents(h', t) == Contents(h, t)
  }

  // Two live blocks never share a byte.
  lemma LiveBlocksDisjoint(h: Heap, p: nat, q: nat)
    requires Inv(h) && p in h.live && q in h.live && p != q
    ensures p + BlockSize(h, p) <= q || q + BlockSize(h, q) <= p
  {
    LiveOwner(h, p);
    LiveOwner(h, q);
    BlocksApart(h.base, h.slabs, |h.mem|, OwnerOf(h.slabs, p), p, OwnerOf(h.slabs, q), q);
  }

  // ------------------------------------------- the carved region is covered

  lemma {:induction false} BlockCovers(s: Slab, a: nat, n: nat) returns (k: nat)
    requires s.start <= a < s.Block(n)
    ensures k < n && s.Block(k) <= a < s.Block(k) + s.size
  {
    if a < s.Block(n - 1) { k := BlockCovers(s, a, n - 1); } else { k := n - 1; }
  }

  lemma {:induction false} SlabCovers(base: nat, slabs: seq<Slab>, len: nat, a: nat, n: nat) returns (i: nat)
    requires LayoutOk(base, slabs, len)
    requires n <= |slabs| && base <= a < StartOf(base, slabs, n)
    ensures i < n && slabs[i].start <= a < slabs[i].End()
  {
    assert SlabOk(base, slabs, len, n - 1);
    if a < slabs[n - 1].start {
      i := SlabCovers(base, slabs, len, a, n - 1);
    } else {
      i := n - 1;
    }
  }

  // Every byte of the carved region lies in exactly one block, and that block
  // is on its pool's free list or owned by a client, never both.
  lemma RegionIsPartitioned(h: Heap, a: nat) returns (i: nat, p: nat)
    requires Inv(h) && h.base <= a < StartOf(h.base, h.slabs, |h.slabs|)
    ensures OwnedBy(h, i, p) && p <= a < p + h.slabs[i].size
    ensures p in h.live <==> p !in h.free[i]
    ensures forall j: nat, q: nat :: OwnedBy(h, j, q) && q <= a < q + h.slabs[j].size ==> j == i && q == p
  {
    i := SlabCovers(h.base, h.slabs, |h.mem|, a, |h.slabs|);
    var k := BlockCovers(h.slabs[i], a, h.slabs[i].count);
    p := h.slabs[i].Block(k);
    assert OwnedBy(h, i, p);
    forall j: nat, q: nat | OwnedBy(h, j, q) && q <= a < q + h.slabs[j].size ensures j == i && q == p {
      BlocksApart(h.base, h.slabs, |h.mem|, i, p, j, q);
    }
  }

  // A free block is on one list once, and on no other pool's list.
  lemma FreeListsDisjoint(h: Heap, i: nat, k: nat, j: nat, l: nat)
    requires Inv(h) && i < |h.free| && j < |h.free|
    requires k < |h.free[i]| && l < |h.free[j]| && h.free[i][k] == h.free[j][l]
    ensures i == j && k == l
  {
    assert FreeListOk(h, i) && FreeListOk(h, j);
    assert OwnedBy(h, i, h.free[i][k]) && OwnedBy(h, j, h.free[j][l]);
    BlocksApart(h.base, h.slabs, |h.mem|, i, h.free[i][k], j, h.free[j][l]);
  }

  // ------------------------------------------------------------------ alloc

  // NULL exactly for size 0 or when no pool with large enough blocks has one
  // left; otherwise a block of the smallest sufficient size.
  lemma AllocExact(h: Heap, size: nat) returns (i: nat)
    requires Inv(h) && Ascending(h.slabs)
    ensures var (h', p) := AllocS(h, size);
      && (p == NULL <==> size == 0 || forall j: nat :: !Fits(h, j, size))
      && (p == NULL ==> h' == h)
      && (p != NULL ==>
        && Fits(h, i, size)
        && (forall j: nat :: Fits(h, j, size) ==> h.slabs[i].size <= h.slabs[j].size)
        && [p] + h'.free[i] == h.free[i]
        && (forall j :: 0 <= j < |h.free| && j != i ==> h'.free[j] == h.free[j])
        && p !in h.live && h'.live == h.live + {p}
        && h'.mem == h.mem && h'.slabs == h.slabs && h'.base == h.base
        && OwnedBy(h', i, p))
  {
    i := FirstFit(h, 0, |h.slabs|, size);
    if size > 0 && i < |h.slabs| {
      FreeHead(h, i);
      assert OwnedBy(Track(Pop(h, i)), i, h.free[i][0]);
    }
  }

  lemma AllocPreserves(h: Heap, size: nat, t: nat)
    requires Inv(h) && t in h.live
    ensures Inv(AllocS(h, size).0) && Preserved(h, AllocS(h, size).0, t)
  {
    AllocKeepsInv(h, size);
  }

  // ------------------------------------------------------------------- free

  // Freeing gives the block back to the pool it came from and to no other, and
  // touches no other live block.
  lemma FreeExact(h: Heap, p: nat)
    requires Inv(h) && p in h.live
    ensures var h' := FreeS(h, p); var i := OwnerOf(h.slabs, p);
      && Inv(h')
      && OwnedBy(h, i, p)
      && h'.free[i] == [p] + h.free[i]
      && (forall j :: 0 <= j < |h.free| && j != i ==> h'.free[j] == h.free[j])
      && h'.live == h.live - {p}
      && (forall t :: t in h.live && t != p ==> Preserved(h, h', t))
  {
    LiveOwner(h, p);
    FreeKeepsInv(h, p);
    forall t | t in h.live && t != p ensures Preserved(h, FreeS(h, p), t) {
      PushPreserves(h, OwnerOf(h.slabs, p), p, t);
    }
  }

  lemma PushPreserves(h: Heap, i: nat, p: nat, t: nat)
    requires Inv(h) && OwnedBy(h, i, p) && p in h.live && t in h.live && t != p
    ensures InMem(h.base, |h.mem|, p)
    ensures Inv(Push(h, i, p)) && Preserved(h, Push(h, i, p), t)
  {
    PushKeepsInv(h, i, p);
    LiveOwner(h, t);
    var j := OwnerOf(h.slabs, t);
    BlocksApart(h.base, h.slabs, |h.mem|, i, p, j, t);
    PushFrame(h, i, p, t, h.slabs[j].size);
  }

  // ------------------------------------------------------------------ write

  lemma ClientWriteFrame(h: Heap, p: nat, a: nat, b: seq<Byte>, t: nat, m: nat)
    requires Inv(h) && ClientOwns(h, p, a, |b|)
    requires h.base <= t && t + m <= h.base + |h.mem|
    requires t + m <= p || p + BlockSize(h, p) <= t
    ensures Bytes(WriteS(h, p, a, b), t, m) == Bytes(h, t, m)
  {
    LiveOwner(h, p);
    OverwriteFrame(h.mem, a - h.base, b, t - h.base, t - h.base + m);
  }

  // A client that writes inside its own block disturbs no other block.
  lemma ClientWritePreserves(h: Heap, p: nat, a: nat, b: seq<Byte>, t: nat)
    requires Inv(h) && ClientOwns(h, p, a, |b|) && t in h.live && t != p
    ensures Inv(WriteS(h, p, a, b)) && Preserved(h, WriteS(h, p, a, b), t)
  {
    ClientWriteKeepsInv(h, p, a, b);
    LiveBlocksDisjoint(h, p, t);
    LiveOwner(h, t);
    ClientWriteFrame(h, p, a, b, t, BlockSize(h, t));
  }

  // ---------------------------------------------------------------- realloc

  // Exactly one block leaves list j and exactly p enters list i.
  ghost predicate Swapped(h: Heap, h': Heap, i: nat, j: nat, p: nat, q: nat)
    requires |h.free| == |h'.free|
  {
    && i < |h.free| && j < |h.free| && i != j
    && h.free[j] == [q] + h'.free[j]
    && h'.free[i] == [p] + h.free[i]
    && (forall k :: 0 <= k < |h.free| && k != i && k != j ==> h'.free[k] == h.free[k])
    && h'.live == h.live - {p} + {q}
  }

  lemma MoveSwaps(h: Heap, i: nat, j: nat, p: nat, n: nat)
    requires CanMove(h, i, j, p, n) && p in h.live && h.free[j][0] !in h.live
    ensures Swapped(h, Move(h, i, j, p, n), i, j, p, h.free[j][0])
  {
  }

  lemma PushFrame(h: Heap, i: nat, p: nat, t: nat, m: nat)
    requires i < |h.free| && InMem(h.base, |h.mem|, p)
    requires h.base <= t && t + m <= h.base + |h.mem|
    requires t + m <= p || p + PTR_SIZE <= t
    ensures Bytes(Push(h, i, p), t, m) == Bytes(h, t, m)
  {
    OverwriteFrame(h.mem, p - h.base, PtrBytes(Head(h.free[i]), PTR_SIZE), t - h.base, t - h.base + m);
  }

  lemma CopyFrame(h: Heap, q: nat, p: nat, n: nat, t: nat, m: nat)
    requires h.base <= q && q + n <= h.base + |h.mem|
    requires h.base <= p && p + n <= h.base + |h.mem|
    requires h.base <= t && t + m <= h.base + |h.mem|
    requires t + m <= q || q + n <= t
    ensures Bytes(Copy(h, q, p, n), t, m) == Bytes(h, t, m)
  {
    OverwriteFrame(h.mem, q - h.base, Bytes(h, p, n), t - h.base, t - h.base + m);
  }

  lemma CopyLands(h: Heap, q: nat, p: nat, n: nat)
    requires h.base <= q && q + n <= h.base + |h.mem|
    requires h.base <= p && p + n <= h.base + |h.mem|
    ensures Bytes(Copy(h, q, p, n), q, n) == Bytes(h, p, n)
  {
    OverwriteLands(h.mem, q - h.base, Bytes(h, p, n));
  }

  // A move leaves n bytes of p at the new place ...
  lemma MoveCopies(h: Heap, i: nat, j: nat, p: nat, n: nat)
    requires CanMove(h, i, j, p, n)
    ensures Bytes(Move(h, i, j, p, n), h.free[j][0], n) == Bytes(h, p, n)
  {
    CopyLands(Pop(h, j), h.free[j][0], p, n);
    PushFrame(Copy(Pop(h, j), h.free[j][0], p, n), i, p, h.free[j][0], n);
  }

  // ... and any range apart from both blocks as it was.
  lemma MoveFrame(h: Heap, i: nat, j: nat, p: nat, n: nat, t: nat, m: nat)
    requires CanMove(h, i, j, p, n)
    requires h.base <= t && t + m <= h.base + |h.mem|
    requires t + m <= p || p + h.slabs[i].size <= t
    requires t + m <= h.free[j][0] || h.free[j][0] + h.slabs[j].size <= t
    ensures Bytes(Move(h, i, j, p, n), t, m) == Bytes(h, t, m)
  {
    CopyFrame(Pop(h, j), h.free[j][0], p, n, t, m);
    PushFrame(Copy(Pop(h, j), h.free[j][0], p, n), i, p, t, m);
  }

  lemma MovePreserves(h: Heap, i: nat, j: nat, p: nat, n: nat, t: nat)
    requires Inv(h) && OwnedBy(h, i, p) && p in h.live && CanMove(h, i, j, p, n)
    requires t in h.live && t != p
    ensures Inv(Move(h, i, j, p, n)) && Preserved(h, Move(h, i, j, p, n), t)
  {
    MoveKeepsInv(h, i, j, p, n);
    FreeHead(h, j);
    LiveOwner(h, t);
    var k := OwnerOf(h.slabs, t);
    BlocksApart(h.base, h.slabs, |h.mem|, i, p, k, t);
    BlocksApart(h.base, h.slabs, |h.mem|, j, h.free[j][0], k, t);
    MoveFrame(h, i, j, p, n, t, h.slabs[k].size);
  }

  // Realloc fails, and then changes nothing, exactly when the request exceeds
  // the current block and no pool that could hold it has a free block.
  lemma ReallocFailsExactly(h: Heap, p: nat, size: nat)
    requires Inv(h) && p in h.live && size > 0 && Ascending(h.slabs)
    ensures var (h', r) := ReallocS(h, p, size);
      && (r == NULL <==> BlockSize(h, p) < size && forall j: nat :: !Fits(h, j, size))
      && (r == NULL || r == p ==> h' == h)
  {
    ReallocCases(h, p, size);
    LiveOwner(h, p);
    var i := OwnerOf(h.slabs, p);
    var j := Target(h, i, size);
    if j < |h.slabs| {
      FreeHead(h, j);
      assert Fits(h, j, size);
    }
  }

  // A successful realloc returns a live block of at least 'size' bytes that
  // holds the first min(old block size, size) bytes of the old one.
  lemma ReallocKeepsContents(h: Heap, p: nat, size: nat)
    requires Inv(h) && p in h.live && size > 0
    ensures var (h', r) := ReallocS(h, p, size); var n := Min(BlockSize(h, p), size);
      && Inv(h')
      && (r != NULL ==> r in h'.live && size <= BlockSize(h', r) && Contents(h', r)[..n] == Contents(h, p)[..n])
  {
    ReallocCases(h, p, size);
    ReallocKeepsInv(h, p, size);
    LiveOwner(h, p);
    var i := OwnerOf(h.slabs, p);
    var j := Target(h, i, size);
    if j < |h.slabs| { TrackedMoveCopies(h, i, j, p, Min(h.slabs[i].size, size)); }
  }

  // After a move the block taken from pool j is live, and holds n bytes of p.
  lemma MoveDelivers(h: Heap, i: nat, j: nat, p: nat, n: nat, g: Heap, q: nat)
    requires Inv(h) && OwnedBy(h, i, p) && p in h.live && CanMove(h, i, j, p, n)
    requires g == Move(h, i, j, p, n) && q == h.free[j][0]
    ensures q != NULL && Inv(g) && q in g.live && OwnerOf(g.slabs, q) == j
    ensures q + n <= g.base + |g.mem| && Bytes(g, q, n) == Bytes(h, p, n)
  {
    MoveKeepsInv(h, i, j, p, n);
    FreeHead(h, j);
    OwnerIsFoundByEndAddress(h.base, h.slabs, |h.mem|, j, q);
    MoveCopies(h, i, j, p, n);
  }

  lemma TrackedMoveCopies(h: Heap, i: nat, j: nat, p: nat, n: nat)
    requires Inv(h) && OwnedBy(h, i, p) && i == OwnerOf(h.slabs, p) && p in h.live && CanMove(h, i, j, p, n)
    ensures var (h', q) := (Track(Move(h, i, j, p, n)), h.free[j][0]);
      && q != NULL && Inv(h') && q in h'.live && BlockSize(h', q) == h.slabs[j].size
      && n <= BlockSize(h, p) && Contents(h', q)[..n] == Contents(h, p)[..n]
  {
    var g, q := Move(h, i, j, p, n), h.free[j][0];
    MoveDelivers(h, i, j, p, n, g, q);
    PrefixOfContents(h, p, n);
    PrefixOfContents(g, q, n);
    TrackPreserves(g, q);
  }

  lemma PrefixOfContents(h: Heap, p: nat, n: nat)
    requires Inv(h) && p in h.live && n <= BlockSize(h, p)
    ensures h.base <= p && p + n <= h.base + |h.mem|
    ensures Contents(h, p)[..n] == Bytes(h, p, n)
  {
    LiveOwner(h, p);
  }

  // A realloc that moves swaps exactly one block between two free lists.
  lemma ReallocSwapsOneBlock(h: Heap, p: nat, size: nat)
    requires Inv(h) && p in h.live && size > 0
    ensures var (h', r) := ReallocS(h, p, size);
      r != NULL && r != p ==> |h'.free| == |h.free| && Swapped(h, h', OwnerOf(h.slabs, p), OwnerOf(h.slabs, r), p, r)
  {
    ReallocCases(h, p, size);
    LiveOwner(h, p);
    var i := OwnerOf(h.slabs, p);
    var j := Target(h, i, size);
    if j < |h.slabs| {
      FreeHead(h, j);
      OwnerIsFoundByEndAddress(h.base, h.slabs, |h.mem|, j, h.free[j][0]);
      MoveSwaps(h, i, j, p, Min(h.slabs[i].size, size));
    }
  }

  // Reallocating p leaves every other live block as it was.
  lemma ReallocPreserves(h: Heap, p: nat, size: nat, t: nat)
    requires Inv(h) && Legal(h, p) && t in h.live && t != p
    ensures Inv(ReallocS(h, p, size).0) && Preserved(h, ReallocS(h, p, size).0, t)
  {
    if p == NULL {
      AllocPreserves(h, size, t);
    } else if size == 0 {
      FreeExact(h, p);
      assert Preserved(h, FreeS(h, p), t);
    } else {
      ReallocCases(h, p, size);
      var i := OwnerOf(h.slabs, p);
      var j := Target(h, i, size);
      if j < |h.slabs| { TrackedMovePreserves(h, i, j, p, Min(h.slabs[i].size, size), t); }
    }
  }

  lemma TrackedMovePreserves(h: Heap, i: nat, j: nat, p: nat, n: nat, t: nat)
    requires Inv(h) && OwnedBy(h, i, p) && p in h.live && CanMove(h, i, j, p, n)
    requires t in h.live && t != p
    ensures Inv(Track(Move(h, i, j, p, n))) && Preserved(h, Track(Move(h, i, j, p, n)), t)
  {
    MovePreserves(h, i, j, p, n, t);
    TrackPreserves(Move(h, i, j, p, n), t);
  }

  lemma TrackPreserves(g: Heap, t: nat)
    requires Inv(g) && t in g.live
    ensures Inv(Track(g)) && Preserved(g, Track(g), t)
  {
    TrackKeepsInv(g);
  }

  // The block realloc returns belongs to the target pool.
  lemma ReallocLands(h: Heap, p: nat, size: nat)
    requires Inv(h) && p in h.live && size > 0
    ensures var r := ReallocS(h, p, size).1; var i := OwnerOf(h.slabs, p);
      && p != NULL && i < |h.slabs| && BlockSize(h, p) == h.slabs[i].size
      && var j := Target(h, i, size);
      && (j == |h.slabs| ==> r == if size <= h.slabs[i].size then p else NULL)
      && (j < |h.slabs| ==> r != NULL && r != p && OwnerOf(h.slabs, r) == j)
  {
    ReallocCases(h, p, size);
    LiveOwner(h, p);
    var j := Target(h, OwnerOf(h.slabs, p), size);
    if j < |h.slabs| {
      FreeHead(h, j);
      OwnerIsFoundByEndAddress(h.base, h.slabs, |h.mem|, j, h.free[j][0]);
    }
  }

  // A block that shrinks moves to a pool of smallest sufficient block size
  // whenever an earlier pool has room, and otherwise stays where it is.
  lemma ShrinkIsTight(h: Heap, p: nat, size: nat)
    requires Inv(h) && p in h.live && 0 < size <= BlockSize(h, p) && Ascending(h.slabs)
    ensures var r := ReallocS(h, p, size).1; var i := OwnerOf(h.slabs, p);
      && (r == p <==> forall k: nat :: k < i ==> !Fits(h, k, size))
      && (r != p ==> OwnerOf(h.slabs, r) < i)
      && (r != p ==> forall k: nat :: Fits(h, k, size) ==> h.slabs[OwnerOf(h.slabs, r)].size <= h.slabs[k].size)
  {
    ReallocLands(h, p, size);
  }

  lemma FirstLargerFit(h: Heap, i: nat, size: nat, k: nat)
    requires i < |h.slabs| == |h.free| && Ascending(h.slabs) && h.slabs[i].size < size
    requires Fits(h, k, size)
    ensures i < Target(h, i, size) <= k && h.slabs[Target(h, i, size)].size <= h.slabs[k].size
  {
  }

  // A block that grows moves to a pool of smallest sufficient block size.
  lemma GrowIsTight(h: Heap, p: nat, size: nat)
    requires Inv(h) && p in h.live && BlockSize(h, p) < size && Ascending(h.slabs)
    ensures var r := ReallocS(h, p, size).1; var j := OwnerOf(h.slabs, r);
      r != NULL ==>
        && OwnerOf(h.slabs, p) < j && Fits(h, j, size)
        && forall k: nat :: Fits(h, k, size) ==> h.slabs[j].size <= h.slabs[k].size
  {
    ReallocLands(h, p, size);
    var i := OwnerOf(h.slabs, p);
    var j := Target(h, i, size);
    forall k: nat | j < |h.slabs| && Fits(h, k, size) ensures h.slabs[j].size <= h.slabs[k].size {
      FirstLargerFit(h, i, size, k);
    }
  }
}
