// What the operations of the pool allocator mean, in terms of blocks, bytes and
// counts alone.
module PoolLaws {
  import opened Widths
  import opened Octets
  import opened RawMemory
  import opened PoolModel
  import opened PoolOps
  import opened PoolGuarantees
  import opened PoolInit
  import opened PoolRuns

  // ---------------------------------------------- realloc at its edges

  // Reallocating a live block to size 0 frees it and returns NULL.
  lemma ReallocZeroFrees(h: Heap, p: nat)
    requires Inv(h) && p in h.live
    ensures var (h', r) := ReallocS(h, p, 0); var i := OwnerOf(h.slabs, p);
      && r == NULL
      && Inv(h') && h'.live == h.live - {p}
      && OwnedBy(h, i, p) && h'.free[i] == [p] + h.free[i]
      && (forall j :: 0 <= j < |h.free| && j != i ==> h'.free[j] == h.free[j])
      && (forall t :: t in h.live && t != p ==> Preserved(h, h', t))
  {
    FreeExact(h, p);
    assert p != NULL by { LiveOwner(h, p); }
  }

  // Reallocating NULL allocates.
  lemma ReallocNullAllocates(h: Heap, size: nat) returns (i: nat)
    requires Inv(h) && Ascending(h.slabs)
    ensures var (h', p) := ReallocS(h, NULL, size);
      && (p == NULL <==> size == 0 || forall j: nat :: !Fits(h, j, size))
      && (p == NULL ==> h' == h)
      && (p != NULL ==>
        && Fits(h, i, size)
        && (forall j: nat :: Fits(h, j, size) ==> h.slabs[i].size <= h.slabs[j].size)
        && [p] + h'.free[i] == h.free[i]
        && (forall j :: 0 <= j < |h.free| && j != i ==> h'.free[j] == h.free[j])
        && p !in h.live && h'.live == h.live + {p}
        && h'.mem == h.mem && OwnedBy(h', i, p))
  {
    i := AllocExact(h, size);
  }

  // ------------------------------------------------- which pool is chosen

  // Pool i has a free block of at least 'size' bytes.
  ghost predicate CanServe(h: Heap, i: int, size: nat)
    requires |h.slabs| == |h.free|
  {
    0 <= i < |h.slabs| && h.slabs[i].size >= size && |h.free[i]| > 0
  }

  // No pool of smaller blocks serves the request.
  ghost predicate SmallestServing(h: Heap, i: int, size: nat)
    requires |h.slabs| == |h.free|
  {
    CanServe(h, i, size) && forall j :: CanServe(h, j, size) ==> h.slabs[i].size <= h.slabs[j].size
  }

  // Block p was the first free one of pool i, a smallest that serves the request.
  ghost predicate ServedFrom(h: Heap, i: int, size: nat, h': Heap, p: nat)
    requires |h.slabs| == |h.free| == |h'.free|
  {
    SmallestServing(h, i, size) && p == h.free[i][0] && h'.free[i] == h.free[i][1..]
  }

  // NULL exactly for size 0 or when no pool serves the request; otherwise the
  // first block of a pool of the smallest block size that does.
  lemma AllocServes(h: Heap, size: nat)
    requires Inv(h) && Ascending(h.slabs)
    ensures var (h', p) := AllocS(h, size);
      && (p == NULL <==> size == 0 || forall i :: 0 <= i < |h.slabs| ==> !CanServe(h, i, size))
      && (p != NULL ==> exists i :: ServedFrom(h, i, size, h', p))
  {
    var i := AllocExact(h, size);
    var (h', p) := AllocS(h, size);
    forall j: int ensures CanServe(h, j, size) <==> 0 <= j && Fits(h, j, size) {
    }
    if p != NULL {
      assert ServedFrom(h, i, size, h', p);
    }
  }

  // A realloc that does not move changes nothing; it returns the old pointer if
  // the block is large enough, and NULL if not.
  lemma ReallocServes(h: Heap, p: nat, size: nat)
    requires Inv(h) && p in h.live && size > 0 && Ascending(h.slabs)
    ensures var (h', r) := ReallocS(h, p, size); var i := OwnerOf(h.slabs, p); var j := OwnerOf(h.slabs, r);
      if size <= BlockSize(h, p) then
        if forall k :: 0 <= k < i ==> !CanServe(h, k, size) then (h', r) == (h, p)
        else r != NULL && j < i && SmallestServing(h, j, size)
      else
        if forall k :: 0 <= k < |h.slabs| ==> !CanServe(h, k, size) then (h', r) == (h, NULL)
        else r != NULL && j > i && SmallestServing(h, j, size)
  {
    forall k: int ensures CanServe(h, k, size) <==> 0 <= k && Fits(h, k, size) {
    }
    ReallocFailsExactly(h, p, size);
    ReallocLands(h, p, size);
    if size <= BlockSize(h, p) {
      ShrinkIsTight(h, p, size);
    } else {
      GrowIsTight(h, p, size);
    }
  }

  // ------------------------------------------------ free and client writes

  // Freeing NULL changes nothing.
  lemma FreeNullDoesNothing(h: Heap)
    requires Inv(h)
    ensures FreeS(h, NULL) == h
  {
  }

  // Freeing touches no mark, and no byte outside the link of the freed block.
  lemma FreeFrame(h: Heap, p: nat, t: nat, m: nat)
    requires Inv(h) && p in h.live
    requires h.base <= t && t + m <= h.base + |h.mem| && (t + m <= p || p + PTR_SIZE <= t)
    ensures var h' := FreeS(h, p);
      && h'.base == h.base && h'.slabs == h.slabs && |h'.mem| == |h.mem|
      && h'.hwmCount == h.hwmCount && h'.hwmBytes == h.hwmBytes
      && Bytes(h', t, m) == Bytes(h, t, m)
  {
    LiveOwner(h, p);
    PushFrame(h, OwnerOf(h.slabs, p), p, t, m);
  }

  // What a client writes is there, and nothing else of the heap has changed.
  lemma ClientWriteLands(h: Heap, p: nat, a: nat, b: seq<Byte>, t: nat, m: nat)
    requires Inv(h) && ClientOwns(h, p, a, |b|)
    requires h.base <= t && t + m <= h.base + |h.mem| && (t + m <= a || a + |b| <= t)
    ensures var h' := WriteS(h, p, a, b);
      && h.base <= a && a + |b| <= h.base + |h.mem| && |h'.mem| == |h.mem|
      && h' == h.(mem := h'.mem)
      && Bytes(h', a, |b|) == b && Bytes(h', t, m) == Bytes(h, t, m)
  {
    LiveOwner(h, p);
    OverwriteLands(h.mem, a - h.base, b);
    OverwriteFrame(h.mem, a - h.base, b, t - h.base, t - h.base + m);
  }

  // -------------------------------------------------------------- counting

  // The live blocks of pool i.
  ghost function LiveIn(h: Heap, i: nat): set<nat> {
    set p | p in h.live && OwnedBy(h, i, p)
  }

  ghost function Members(s: seq<nat>): set<nat> {
    set p | p in s
  }

  lemma {:induction false} DistinctMembers(s: seq<nat>)
    requires Distinct(s)
    ensures |Members(s)| == |s|
  {
    if s != [] {
      DistinctMembers(s[1..]);
      assert s == [s[0]] + s[1..];
      assert Members(s) == Members(s[1..]) + {s[0]};
    }
  }

  // The used count of a pool is the number of its blocks that clients own.
  lemma UsedCountIsLive(h: Heap, i: nat)
    requires Inv(h) && i < |h.slabs|
    ensures UsedCount(h, i) == |LiveIn(h, i)|
  {
    var all := AllBlocks(h.slabs[i]);
    assert SlabOk(h.base, h.slabs, |h.mem|, i) && FreeListOk(h, i);
    BlocksDistinct(h.slabs[i]);
    DistinctMembers(all);
    DistinctMembers(h.free[i]);
    forall p: nat ensures p in Members(all) <==> OwnedBy(h, i, p) {
      assert p in all <==> IsBlock(h.slabs[i], p);
    }
    forall p | p in Members(h.free[i]) ensures p in Members(all) {
      var k :| 0 <= k < |h.free[i]| && h.free[i][k] == p;
      assert OwnedBy(h, i, h.free[i][k]);
    }
    assert LiveIn(h, i) == Members(all) - Members(h.free[i]);
  }

  // Used bytes follow the length of the free lists.
  lemma {:induction false} UsedBytesFollow(h: Heap, h': Heap, i: nat, d: int, n: nat)
    requires n <= |h.slabs| == |h.free| == |h'.free| && h'.slabs == h.slabs && i < |h.slabs|
    requires |h'.free[i]| == |h.free[i]| - d
    requires forall j :: 0 <= j < |h.free| && j != i ==> |h'.free[j]| == |h.free[j]|
    ensures UsedBytes(h', n) == UsedBytes(h, n) + if i < n then d * h.slabs[i].size else 0
  {
    if n > 0 {
      UsedBytesFollow(h, h', i, d, n - 1);
      if n - 1 == i {
        assert (UsedCount(h, i) + d) * h.slabs[i].size == UsedCount(h, i) * h.slabs[i].size + d * h.slabs[i].size;
      }
    }
  }

  // A successful allocation uses exactly the bytes of its block more.
  lemma AllocUses(h: Heap, size: nat)
    requires Inv(h) && Ascending(h.slabs) && AllocS(h, size).1 != NULL
    ensures var (h', p) := AllocS(h, size);
      Inv(h') && p in h'.live && UsedBytes(h', |h.slabs|) == UsedBytes(h, |h.slabs|) + BlockSize(h', p)
  {
    var i := AllocExact(h, size);
    var (h', p) := AllocS(h, size);
    AllocKeepsInv(h, size);
    OwnerIsFoundByEndAddress(h.base, h.slabs, |h.mem|, i, p);
    UsedBytesFollow(h, h', i, 1, |h.slabs|);
  }

  // Freeing a block uses exactly its bytes less.
  lemma FreeUses(h: Heap, p: nat)
    requires Inv(h) && p in h.live
    ensures Inv(FreeS(h, p))
    ensures UsedBytes(FreeS(h, p), |h.slabs|) == UsedBytes(h, |h.slabs|) - BlockSize(h, p)
  {
    FreeExact(h, p);
    LiveOwner(h, p);
    UsedBytesFollow(h, FreeS(h, p), OwnerOf(h.slabs, p), -1, |h.slabs|);
  }

  // ------------------------------------------------------------------ runs

  // What one operation of a run does to the set of live blocks.
  lemma ApplyLive(h: Heap, op: Op)
    requires Inv(h) && Allowed(h, op) && Ascending(h.slabs)
    ensures var live := Apply(h, op).live;
      match op
      case AllocOp(size) =>
        if size == 0 || forall j: nat :: !Fits(h, j, size) then live == h.live
        else exists p: nat :: p !in h.live && live == h.live + {p}
      case FreeOp(p) => live == if p == NULL then h.live else h.live - {p}
      case WriteOp(_, _, _) => live == h.live
      case ReallocOp(p, size) =>
        if p == NULL then live == AllocS(h, size).0.live
        else if size == 0 then live == h.live - {p}
        else live == h.live || exists q: nat :: q !in h.live && live == h.live - {p} + {q}
  {
    match op
    case AllocOp(size) => var _ := AllocExact(h, size);
    case FreeOp(p) => if p != NULL { FreeExact(h, p); }
    case WriteOp(p, a, b) => LiveOwner(h, p);
    case ReallocOp(p, size) =>
      if p != NULL {
        if size == 0 {
          ReallocZeroFrees(h, p);
        } else {
          ReallocLive(h, p, size);
        }
      }
  }

  lemma ReallocLive(h: Heap, p: nat, size: nat)
    requires Inv(h) && p in h.live && size > 0
    ensures var (h', r) := ReallocS(h, p, size);
      if r == NULL || r == p then h'.live == h.live else r !in h.live && h'.live == h.live - {p} + {r}
  {
    ReallocCases(h, p, size);
    LiveOwner(h, p);
    var i := OwnerOf(h.slabs, p);
    var j := Target(h, i, size);
    if j < |h.slabs| {
      FreeHead(h, j);
      MoveSwaps(h, i, j, p, Min(h.slabs[i].size, size));
    }
  }

  // Running one sequence after another is running both.
  lemma {:induction false} RunComposes(h: Heap, first: seq<Op>, second: seq<Op>)
    requires Inv(h) && LegalRun(h, first) && LegalRun(Run(h, first), second)
    ensures LegalRun(h, first + second) && Run(h, first + second) == Run(Run(h, first), second)
    decreases |first|
  {
    if first == [] {
      assert first + second == second;
    } else {
      assert (first + second)[0] == first[0] && (first + second)[1..] == first[1..] + second;
      ApplyKeepsInv(h, first[0]);
      RunComposes(Apply(h, first[0]), first[1..], second);
    }
  }

  // What a client has written is still there after any run that leaves its
  // block alone.
  lemma WrittenSurvives(h: Heap, p: nat, a: nat, b: seq<Byte>, ops: seq<Op>)
    requires Inv(h) && ClientOwns(h, p, a, |b|)
    requires LegalRun(h, [WriteOp(p, a, b)] + ops) && forall k :: 0 <= k < |ops| ==> !Targets(ops[k], p)
    ensures var h' := Run(h, [WriteOp(p, a, b)] + ops);
      h'.base <= a && a + |b| <= h'.base + |h'.mem| && p in h'.live && Bytes(h', a, |b|) == b
  {
    var all := [WriteOp(p, a, b)] + ops;
    assert all[0] == WriteOp(p, a, b) && all[1..] == ops;
    ApplyKeepsInv(h, all[0]);
    var g := Apply(h, all[0]);
    LiveOwner(h, p);
    ClientWriteLands(h, p, a, b, h.base, 0);
    UntouchedBlockSurvives(g, ops, p);
    LiveOwner(g, p);
    SliceOfContents(g, p, a, |b|);
    SliceOfContents(Run(g, ops), p, a, |b|);
  }

  lemma SliceOfSlice(s: seq<Byte>, i: nat, j: nat, k: nat, l: nat)
    requires i <= j <= |s| && k <= l <= j - i
    ensures s[i..j][k..l] == s[i + k..i + l]
  {
    var a, b := s[i..j][k..l], s[i + k..i + l];
    assert |a| == |b| && forall x :: 0 <= x < |a| ==> a[x] == b[x];
  }

  lemma SliceOfContents(h: Heap, p: nat, a: nat, n: nat)
    requires Inv(h) && ClientOwns(h, p, a, n)
    ensures h.base <= a && a + n <= h.base + |h.mem|
    ensures Bytes(h, a, n) == Contents(h, p)[a - p..a - p + n]
  {
    LiveOwner(h, p);
    SliceOfSlice(h.mem, p - h.base, p - h.base + BlockSize(h, p), a - p, a - p + n);
  }
}
