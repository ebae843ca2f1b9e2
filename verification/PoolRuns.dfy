// Whole runs of an allocator: any sequence of allocations, reallocations and
// frees of live pointers, mixed with client writes to live blocks.
module PoolRuns {
  import opened Widths
  import opened Octets
  import opened RawMemory
  import opened PoolModel
  import opened PoolOps
  import opened PoolGuarantees
  import opened PoolAllocator
  import opened PoolInit

  datatype Op =
    | AllocOp(size: nat)
    | ReallocOp(ptr: nat, size: nat)
    | FreeOp(ptr: nat)
    | WriteOp(ptr: nat, at: nat, bytes: seq<Byte>)

  // Clients pass NULL or pointers they own, and write inside blocks they own.
  ghost predicate Allowed(h: Heap, op: Op)
    requires Inv(h)
  {
    match op
    case AllocOp(_) => true
    case ReallocOp(p, _) => Legal(h, p)
    case FreeOp(p) => Legal(h, p)
    case WriteOp(p, a, b) => ClientOwns(h, p, a, |b|)
  }

  ghost function Apply(h: Heap, op: Op): Heap
    requires Inv(h) && Allowed(h, op)
  {
    match op
    case AllocOp(size) => AllocS(h, size).0
    case ReallocOp(p, size) => ReallocS(h, p, size).0
    case FreeOp(p) => FreeS(h, p)
    case WriteOp(p, a, b) => WriteS(h, p, a, b)
  }

  lemma ApplyKeepsInv(h: Heap, op: Op)
    requires Inv(h) && Allowed(h, op)
    ensures Inv(Apply(h, op))
  {
    match op
    case AllocOp(size) => AllocKeepsInv(h, size);
    case ReallocOp(p, size) => ReallocKeepsInv(h, p, size);
    case FreeOp(p) => FreeKeepsInv(h, p);
    case WriteOp(p, a, b) => ClientWriteKeepsInv(h, p, a, b);
  }

  ghost predicate LegalRun(h: Heap, ops: seq<Op>)
    requires Inv(h)
    decreases |ops|
  {
    ops == [] || (Allowed(h, ops[0]) && (ApplyKeepsInv(h, ops[0]); LegalRun(Apply(h, ops[0]), ops[1..])))
  }

  // The heap after a run: whatever the clients do, it stays valid.
  ghost function Run(h: Heap, ops: seq<Op>): (r: Heap)
    requires Inv(h) && LegalRun(h, ops)
    ensures Inv(r) && r.slabs == h.slabs && r.base == h.base && |r.mem| == |h.mem|
    decreases |ops|
  {
    if ops == [] then h else ApplyKeepsInv(h, ops[0]); Run(Apply(h, ops[0]), ops[1..])
  }

  // -------------------------------------------------- contents over a run

  ghost predicate Targets(op: Op, t: nat) {
    !op.AllocOp? && op.ptr == t
  }

  lemma ApplyPreserves(h: Heap, op: Op, t: nat)
    requires Inv(h) && Allowed(h, op) && t in h.live && !Targets(op, t)
    ensures Inv(Apply(h, op)) && Preserved(h, Apply(h, op), t)
  {
    match op
    case AllocOp(size) => AllocPreserves(h, size, t);
    case ReallocOp(p, size) => ReallocPreserves(h, p, size, t);
    case FreeOp(p) => if p != NULL { FreeExact(h, p); }
    case WriteOp(p, a, b) => ClientWritePreserves(h, p, a, b, t);
  }

  // Over any run in which nobody frees, reallocates or writes block t, it stays
  // live and keeps every byte.
  lemma {:induction false} UntouchedBlockSurvives(h: Heap, ops: seq<Op>, t: nat)
    requires Inv(h) && LegalRun(h, ops) && t in h.live
    requires forall k :: 0 <= k < |ops| ==> !Targets(ops[k], t)
    ensures Preserved(h, Run(h, ops), t)
    decreases |ops|
  {
    if ops != [] {
      ApplyPreserves(h, ops[0], t);
      UntouchedBlockSurvives(Apply(h, ops[0]), ops[1..], t);
    }
  }

  // ------------------------------------------------ highwater over a run

  // Marks that are at least the current usage.
  ghost predicate Covered(h: Heap)
    requires Inv(h)
  {
    && (forall i :: 0 <= i < |h.slabs| ==> UsedCount(h, i) <= h.hwmCount[i])
    && UsedBytes(h, |h.slabs|) <= h.hwmBytes
  }

  // The marks of h' are those of h raised to the usage of h'.
  ghost predicate Raised(h: Heap, h': Heap)
    requires Inv(h) && Inv(h') && h.slabs == h'.slabs
  {
    && (forall i :: 0 <= i < |h.slabs| ==> h'.hwmCount[i] == Max(h.hwmCount[i], UsedCount(h', i)))
    && h'.hwmBytes == Max(h.hwmBytes, UsedBytes(h', |h.slabs|))
  }

  lemma {:induction false} PushUsedBytes(h: Heap, i: nat, p: nat, n: nat)
    requires i < |h.free| == |h.slabs| && InMem(h.base, |h.mem|, p) && n <= |h.slabs|
    ensures UsedBytes(Push(h, i, p), n) <= UsedBytes(h, n)
  {
    if n > 0 {
      PushUsedBytes(h, i, p, n - 1);
      if n - 1 == i {
        assert (UsedCount(h, i) - 1) * h.slabs[i].size == UsedCount(h, i) * h.slabs[i].size - h.slabs[i].size;
      }
    }
  }

  // Tracking records the usage at that moment.
  lemma TrackRaises(h: Heap, g: Heap)
    requires Inv(h) && Inv(g) && g.slabs == h.slabs && g.hwmCount == h.hwmCount && g.hwmBytes == h.hwmBytes
    ensures Inv(Track(g)) && Raised(h, Track(g))
  {
    TrackKeepsInv(g);
    SameUsedBytes(g, Track(g), |g.slabs|);
  }

  lemma FreeRaises(h: Heap, p: nat)
    requires Inv(h) && Legal(h, p) && Covered(h)
    ensures Inv(FreeS(h, p)) && Raised(h, FreeS(h, p))
  {
    FreeKeepsInv(h, p);
    if p != NULL {
      LiveOwner(h, p);
      PushUsedBytes(h, OwnerOf(h.slabs, p), p, |h.slabs|);
    }
  }

  lemma AllocRaises(h: Heap, size: nat)
    requires Inv(h) && Covered(h)
    ensures Inv(AllocS(h, size).0) && Raised(h, AllocS(h, size).0)
  {
    var i := FirstFit(h, 0, |h.slabs|, size);
    if size > 0 && i < |h.slabs| {
      PopKeepsInv(h, i);
      TrackRaises(h, Pop(h, i));
    }
  }

  lemma ReallocRaises(h: Heap, p: nat, size: nat)
    requires Inv(h) && Legal(h, p) && Covered(h)
    ensures Inv(ReallocS(h, p, size).0) && Raised(h, ReallocS(h, p, size).0)
  {
    if p == NULL {
      AllocRaises(h, size);
    } else if size == 0 {
      FreeRaises(h, p);
    } else {
      ReallocCases(h, p, size);
      var i := OwnerOf(h.slabs, p);
      var j := Target(h, i, size);
      if j < |h.slabs| {
        var n := Min(h.slabs[i].size, size);
        MoveKeepsInv(h, i, j, p, n);
        TrackRaises(h, Move(h, i, j, p, n));
      }
    }
  }

  lemma ApplyRaises(h: Heap, op: Op)
    requires Inv(h) && Allowed(h, op) && Covered(h)
    ensures Inv(Apply(h, op)) && Apply(h, op).slabs == h.slabs && Raised(h, Apply(h, op))
  {
    match op
    case AllocOp(size) => AllocRaises(h, size);
    case ReallocOp(p, size) => ReallocRaises(h, p, size);
    case FreeOp(p) => FreeRaises(h, p);
    case WriteOp(p, a, b) =>
      ClientWriteKeepsInv(h, p, a, b);
      SameUsedBytes(h, WriteS(h, p, a, b), |h.slabs|);
  }

  // The largest used count of pool i over all states of a run.
  ghost function PeakCount(h: Heap, ops: seq<Op>, i: nat): int
    requires Inv(h) && LegalRun(h, ops) && i < |h.slabs|
    decreases |ops|
  {
    if ops == [] then UsedCount(h, i)
    else
      ApplyKeepsInv(h, ops[0]);
      Max(UsedCount(h, i), PeakCount(Apply(h, ops[0]), ops[1..], i))
  }

  // The largest number of used bytes over all states of a run.
  ghost function PeakBytes(h: Heap, ops: seq<Op>): int
    requires Inv(h) && LegalRun(h, ops)
    decreases |ops|
  {
    if ops == [] then UsedBytes(h, |h.slabs|)
    else
      ApplyKeepsInv(h, ops[0]);
      Max(UsedBytes(h, |h.slabs|), PeakBytes(Apply(h, ops[0]), ops[1..]))
  }

  lemma {:induction false} MarksFollowPeaks(h: Heap, ops: seq<Op>)
    requires Inv(h) && AllScannable(h.slabs) && LegalRun(h, ops) && Covered(h)
    ensures Covered(Run(h, ops))
    ensures forall i :: 0 <= i < |h.slabs| ==> Run(h, ops).hwmCount[i] == Max(h.hwmCount[i], PeakCount(h, ops, i))
    ensures Run(h, ops).hwmBytes == Max(h.hwmBytes, PeakBytes(h, ops))
    decreases |ops|
  {
    if ops != [] {
      ApplyRaises(h, ops[0]);
      MarksFollowPeaks(Apply(h, ops[0]), ops[1..]);
    }
  }

  lemma {:induction false} FreshUsage(h: Heap, n: nat)
    requires Inv(h) && n <= |h.slabs|
    requires forall i :: 0 <= i < |h.slabs| ==> UsedCount(h, i) == 0
    ensures UsedBytes(h, n) == 0
  {
    if n > 0 { FreshUsage(h, n - 1); }
  }

  // From initialisation on, the marks after any run are exactly the peaks of the
  // run, although frees never update them.
  lemma HighwaterIsPeak(h: Heap, ops: seq<Op>)
    requires h == FreshHeap(h.base, h.mem, h.slabs) && Inv(h) && AllScannable(h.slabs) && LegalRun(h, ops)
    ensures forall i :: 0 <= i < |h.slabs| ==> Run(h, ops).hwmCount[i] == PeakCount(h, ops, i)
    ensures Run(h, ops).hwmBytes == PeakBytes(h, ops)
  {
    FreshUsage(h, |h.slabs|);
    MarksFollowPeaks(h, ops);
    PeaksAtLeastStart(h, ops);
  }

  lemma PeaksAtLeastStart(h: Heap, ops: seq<Op>)
    requires Inv(h) && LegalRun(h, ops)
    ensures forall i :: 0 <= i < |h.slabs| ==> UsedCount(h, i) <= PeakCount(h, ops, i)
    ensures UsedBytes(h, |h.slabs|) <= PeakBytes(h, ops)
  {
  }

  // ------------------------------------------------- runs of the allocator

  method PerformOp(g: Allocator, op: Op)
    requires g.Valid() && AllScannable(g.heap.slabs) && Allowed(g.heap, op)
    modifies g, g.states, g.buffer
    ensures g.Valid() && g.heap == Apply(old(g.heap), op)
  {
    match op
    case AllocOp(size) => var _ := g.Alloc(size);
    case ReallocOp(p, size) => var _ := g.Realloc(p, size);
    case FreeOp(p) => g.Free(p);
    case WriteOp(p, a, b) => g.Write(p, a, b);
  }

  // Any legal run, on the allocator itself: what is proved of runs holds of it.
  method Perform(g: Allocator, ops: seq<Op>)
    requires g.Valid() && AllScannable(g.heap.slabs) && LegalRun(g.heap, ops)
    modifies g, g.states, g.buffer
    ensures g.Valid() && g.heap == Run(old(g.heap), ops)
  {
    for i := 0 to |ops|
      invariant g.Valid() && g.heap.slabs == old(g.heap).slabs
      invariant LegalRun(g.heap, ops[i..]) && Run(g.heap, ops[i..]) == Run(old(g.heap), ops)
    {
      assert ops[i..][0] == ops[i] && ops[i..][1..] == ops[i + 1..];
      ApplyKeepsLayout(g.heap, ops[i]);
      PerformOp(g, ops[i]);
    }
  }

  lemma ApplyKeepsLayout(h: Heap, op: Op)
    requires Inv(h) && Allowed(h, op)
    ensures Inv(Apply(h, op)) && Apply(h, op).slabs == h.slabs
  {
    ApplyKeepsInv(h, op);
  }

  // From initialisation, after any run, the fields of the C structures hold the
  // peaks of that run.
  method PerformFresh(g: Allocator, ops: seq<Op>)
    requires g.Valid() && g.heap == FreshHeap(g.base, g.buffer[..], g.heap.slabs)
    requires AllScannable(g.heap.slabs) && LegalRun(g.heap, ops)
    modifies g, g.states, g.buffer
    ensures g.Valid() && g.heap == Run(old(g.heap), ops)
    ensures g.hwmUsedBytes == PeakBytes(old(g.heap), ops)
    ensures forall i :: 0 <= i < g.states.Length ==> g.states[i].hwmUsedCount == PeakCount(old(g.heap), ops, i)
  {
    HighwaterIsPeak(g.heap, ops);
    Perform(g, ops);
    assert forall i :: 0 <= i < g.states.Length ==> StateOk(g.states[..][i], g.heap, i);
  }

  // ------------------------------------------------- where the marks fail

  const HUGE: nat := UINT_LIMIT

  // One pool of 2^32 bytes: its scan begins at its end and sees no block.
  lemma HugePoolIsUnseen(base: nat, slabs: seq<Slab>)
    requires Provisioned([PoolConfig(8, 0, 0xffff_fff8)], base, HUGE, slabs)
    ensures slabs == [Slab(base, 8, 0x2000_0000)]
    ensures ScanEnds(slabs[0]) && !Scannable(slabs[0]) && FirstScanned(slabs[0]) == slabs[0].count
  {
    var configs := [PoolConfig(8, 0, 0xffff_fff8)];
    var t: real, states: seq<PoolState> :|
      NearBest(configs, HUGE, t) && CountsAre(configs, HUGE, t, states) && slabs == Carve(base, states);
    CarveAt(base, states, 0);
    assert SlabOk(base, slabs, HUGE, 0);
    BlockClosedForm(slabs[0], slabs[0].count);
    assert slabs[0].start == base && slabs[0].size == 8;
    assert slabs[0].count == 0x2000_0000;
  }

  // So after initialisation, with every block free, the statistics report every
  // block as used, and the first update of the marks would record that.
  lemma HugePoolIsMiscounted(base: nat, mem: seq<Byte>, slabs: seq<Slab>)
    requires Provisioned([PoolConfig(8, 0, 0xffff_fff8)], base, HUGE, slabs)
    requires Inv(FreshHeap(base, mem, slabs))
    ensures var h := FreshHeap(base, mem, slabs);
      && UsedCount(h, 0) == 0 && |h.free[0]| == 0x2000_0000
      && ScanEnds(slabs[0]) && ScannedFree(slabs[0], h.free[0]) == 0
  {
    HugePoolIsUnseen(base, slabs);
  }

  // Initialisation accepts that configuration.
  lemma HugePoolIsAccepted()
    ensures var configs := [PoolConfig(8, 0, 0xffff_fff8)];
      ConfigsOk(configs) && BlocksCountable(configs, HUGE) && CountsHold(configs, HUGE) && Good(configs, HUGE, 0.0)
  {
    var configs := [PoolConfig(8, 0, 0xffff_fff8)];
    SmallConfigsHold(configs, HUGE);
    assert CountAt(configs[0], 0.0) == 0x1fff_ffff;
    assert TotalAt(configs, 0, 0.0) == 0;
  }
}
