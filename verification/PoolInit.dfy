// duk_alloc_pool_init: choose the pool counts, carve the buffer, thread the
// free lists. The scale parameter is an exact real here.
module PoolInit {
  import opened Widths
  import opened Octets
  import opened RawMemory
  import opened PoolModel
  import opened PoolAllocator

  datatype PoolConfig = PoolConfig(size: UInt, a: UInt, b: UInt)

  ghost predicate ConfigsOk(configs: seq<PoolConfig>) {
    forall i :: 0 <= i < |configs| ==> configs[i].size >= PTR_SIZE && configs[i].size % 4 == 0
  }

  // --------------------------------------------------- the search for a scale

  // Target bytes a * t + b over the block size.
  function TargetBlocks(c: PoolConfig, t: real): real
    requires c.size > 0
  {
    (c.a as real * t + c.b as real) / c.size as real
  }

  lemma TargetMonotone(c: PoolConfig, t: real, u: real)
    requires c.size > 0 && 0.0 <= t <= u
    ensures 0.0 <= TargetBlocks(c, t) <= TargetBlocks(c, u)
  {
    var a, b, d := c.a as real, c.b as real, c.size as real;
    TimesMonotone(a, 0.0, t);
    TimesMonotone(a, t, u);
    QuotientMonotone(0.0, a * t + b, d);
    QuotientMonotone(a * t + b, a * u + b, d);
  }

  // Block count of one pool at scale t.
  function CountAt(c: PoolConfig, t: real): nat
    requires c.size > 0 && t >= 0.0
  {
    TargetMonotone(c, t, t);
    TargetBlocks(c, t).Floor
  }

  lemma QuotientMonotone(x: real, y: real, d: real)
    requires x <= y && d > 0.0
    ensures x / d <= y / d
  {
  }

  // Bytes taken by the first n pools at scale t.
  ghost function TotalAt(configs: seq<PoolConfig>, n: nat, t: real): nat
    requires n <= |configs| && ConfigsOk(configs) && t >= 0.0
  {
    if n == 0 then 0
    else TotalAt(configs, n - 1, t) + configs[n - 1].size * CountAt(configs[n - 1], t)
  }

  // Scale t fits into 'size' bytes.
  ghost predicate Good(configs: seq<PoolConfig>, size: nat, t: real)
    requires ConfigsOk(configs) && t >= 0.0
  {
    TotalAt(configs, |configs|, t) <= size
  }

  lemma CountMonotone(c: PoolConfig, t: real, u: real)
    requires c.size > 0 && 0.0 <= t <= u
    ensures CountAt(c, t) <= CountAt(c, u)
  {
    TargetMonotone(c, t, u);
  }

  lemma ProductMonotone(s: nat, m: nat, n: nat)
    requires m <= n
    ensures s * m <= s * n
  {
  }

  lemma {:induction false} TotalMonotone(configs: seq<PoolConfig>, n: nat, t: real, u: real)
    requires n <= |configs| && ConfigsOk(configs) && 0.0 <= t <= u
    ensures TotalAt(configs, n, t) <= TotalAt(configs, n, u)
  {
    if n > 0 {
      TotalMonotone(configs, n - 1, t, u);
      CountMonotone(configs[n - 1], t, u);
      ProductMonotone(configs[n - 1].size, CountAt(configs[n - 1], t), CountAt(configs[n - 1], u));
    }
  }

  lemma {:induction false} TotalGrows(configs: seq<PoolConfig>, m: nat, n: nat, t: real)
    requires m <= n <= |configs| && ConfigsOk(configs) && t >= 0.0
    ensures TotalAt(configs, m, t) <= TotalAt(configs, n, t)
  {
    if m < n {
      TotalGrows(configs, m, n - 1, t);
      assert configs[n - 1].size * CountAt(configs[n - 1], t) >= 0;
    }
  }

  // (unsigned int) x, which is undefined for larger values.
  function ToUnsigned(x: real): nat
    requires 0.0 <= x < UINT_LIMIT as real
  {
    x.Floor
  }

  // A round evaluates pool i when the pools before it fit; every target count it
  // evaluates at scale t is an unsigned int.
  ghost predicate RoundHolds(configs: seq<PoolConfig>, size: nat, t: real)
    requires ConfigsOk(configs) && t >= 0.0
  {
    forall i :: 0 <= i < |configs| && TotalAt(configs, i, t) <= size ==>
      TargetBlocks(configs[i], t) < UINT_LIMIT as real
  }

  // Fewer blocks of any size than an int can count fit into the buffer.
  ghost predicate BlocksCountable(configs: seq<PoolConfig>, size: nat) {
    forall i :: 0 <= i < |configs| ==> size < (INT_MAX + 1) * configs[i].size
  }

  // One past the largest size_t.
  const SIZE_LIMIT: nat := 0x1_0000_0000_0000_0000

  // A sum of size_t values, which must not wrap.
  function ToSize(n: nat): nat
    requires n < SIZE_LIMIT
  {
    n
  }

  // No wrap: the blocks of a pool take at most their target bytes, which A and B
  // and the largest scale bound.
  lemma PoolBytesBounded(c: PoolConfig, t: real)
    requires c.size > 0 && 0.0 <= t <= 1000000.0
    ensures c.size * CountAt(c, t) < 0x80_0000_0000_0000
  {
    TargetBytesBounded(c.a as real, c.b as real, t);
    FloorTimes(c.a as real * t + c.b as real, c.size);
  }

  lemma TargetBytesBounded(a: real, b: real, t: real)
    requires 0.0 <= a < UINT_LIMIT as real && 0.0 <= b < UINT_LIMIT as real && 0.0 <= t <= 1000000.0
    ensures 0.0 <= a * t + b < 0x80_0000_0000_0000 as real
  {
    TimesMonotone(a, 0.0, t);
    TimesMonotone(a, t, 1000000.0);
    var x := a * t;
    assert 0.0 <= x;
    assert x <= a * 1000000.0;
    assert 0.0 <= x + b;
  }

  lemma TimesMonotone(a: real, t: real, u: real)
    requires a >= 0.0 && t <= u
    ensures a * t <= a * u
  {
    assert a * (u - t) >= 0.0;
  }

  lemma FloorTimes(x: real, d: nat)
    requires x >= 0.0 && d > 0
    ensures 0.0 <= x / d as real && (d * (x / d as real).Floor) as real <= x
  {
    var q := x / d as real;
    assert q * d as real == x;
    assert (q - q.Floor as real) * d as real >= 0.0;
  }

  // Set the counts for scale t; give up as soon as they no longer fit.
  method TryScale(configs: seq<PoolConfig>, size: nat, t: real, states: array<PoolState>)
    returns (good: bool, total: nat)
    requires states.Length == |configs| && ConfigsOk(configs) && 0.0 <= t <= 1000000.0
    requires BlocksCountable(configs, size) && RoundHolds(configs, size, t)
    modifies states
    ensures good <==> Good(configs, size, t)
    ensures good ==> total == TotalAt(configs, |configs|, t)
    ensures good ==> forall i :: 0 <= i < |configs| ==>
      states[i].size == configs[i].size && states[i].count == CountAt(configs[i], t)
  {
    total := 0;
    for i := 0 to |configs|
      invariant total == TotalAt(configs, i, t) <= size
      invariant forall j :: 0 <= j < i ==>
        states[j].size == configs[j].size && states[j].count == CountAt(configs[j], t)
    {
      TargetMonotone(configs[i], t, t);
      states[i] := states[i].(size := configs[i].size, count := ToUnsigned(TargetBlocks(configs[i], t)));
      PoolBytesBounded(configs[i], t);
      total := ToSize(total + states[i].size * states[i].count);
      if total > size {
        TotalGrows(configs, i + 1, |configs|, t);
        return false, total;
      }
    }
    good := true;
  }

  // Width of the search interval after n halvings.
  function Width(n: nat): real {
    if n == 0 then 1000000.0 else Width(n - 1) / 2.0
  }

  // The search interval after n rounds: its lower end is 0 or fits, its upper
  // end is the largest scale or does not fit.
  ghost function Interval(configs: seq<PoolConfig>, size: nat, n: nat): (r: (real, real))
    requires ConfigsOk(configs)
    ensures 0.0 <= r.0 <= r.1 <= 1000000.0 && r.1 - r.0 == Width(n)
    ensures (r.0 == 0.0 || Good(configs, size, r.0)) && (r.1 == 1000000.0 || !Good(configs, size, r.1))
  {
    if n == 0 then (0.0, 1000000.0)
    else
      var (lo, hi) := Interval(configs, size, n - 1);
      var mid := (lo + hi) / 2.0;
      if Good(configs, size, mid) then (mid, hi) else (lo, mid)
  }

  lemma NextInterval(configs: seq<PoolConfig>, size: nat, n: nat, lo: real, hi: real)
    requires ConfigsOk(configs) && (lo, hi) == Interval(configs, size, n)
    ensures 0.0 <= lo && var mid := (lo + hi) / 2.0;
      && 0.0 <= mid <= 1000000.0
      && Interval(configs, size, n + 1) == if Good(configs, size, mid) then (mid, hi) else (lo, mid)
  {
  }

  // The scale tried in round n; from round 100 on, the lower end.
  ghost function Tried(configs: seq<PoolConfig>, size: nat, n: nat): (t: real)
    requires ConfigsOk(configs)
    ensures 0.0 <= t <= 1000000.0
  {
    var (lo, hi) := Interval(configs, size, if n < 100 then n else 100);
    if n < 100 then (lo + hi) / 2.0 else lo
  }

  // A and B are small enough that no target count wraps at any scale tried.
  ghost predicate CountsHold(configs: seq<PoolConfig>, size: nat)
    requires ConfigsOk(configs)
  {
    forall n :: 0 <= n <= 100 ==> RoundHolds(configs, size, Tried(configs, size, n))
  }

  // Which is so, in particular, if none would wrap at the largest scale.
  lemma SmallConfigsHold(configs: seq<PoolConfig>, size: nat)
    requires ConfigsOk(configs)
    requires forall i :: 0 <= i < |configs| ==> TargetBlocks(configs[i], 1000000.0) < UINT_LIMIT as real
    ensures CountsHold(configs, size)
  {
    forall n, i | 0 <= n <= 100 && 0 <= i < |configs|
      ensures TargetBlocks(configs[i], Tried(configs, size, n)) < UINT_LIMIT as real
    {
      TargetMonotone(configs[i], Tried(configs, size, n), 1000000.0);
    }
  }

  // The binary search: it succeeds exactly when the unscaled configuration
  // fits, in 101 steps, and then its scale is within Width(100) of the best one.
  // Otherwise it gives up after 1001 steps.
  method SearchScale(configs: seq<PoolConfig>, size: nat, states: array<PoolState>)
    returns (good: bool, total: nat, ghost t: real, ghost steps: nat)
    requires states.Length == |configs| && ConfigsOk(configs)
    requires BlocksCountable(configs, size) && CountsHold(configs, size)
    modifies states
    ensures steps == if good then 101 else 1001
    ensures good <==> Good(configs, size, 0.0)
    ensures t == Tried(configs, size, 100)
    ensures good ==> NearBest(configs, size, t) && total == TotalAt(configs, |configs|, t)
    ensures good ==> forall i :: 0 <= i < |configs| ==>
      states[i].size == configs[i].size && states[i].count == CountAt(configs[i], t)
  {
    t, steps := Tried(configs, size, 100), 0;
    var tMin, tMax := 0.0, 1000000.0;
    var step := 0;
    while true
      invariant 0 <= step <= 1000 && steps == step
      invariant step <= 100 ==> (tMin, tMax) == Interval(configs, size, step)
      invariant step > 100 ==> tMin == t == 0.0 && !Good(configs, size, 0.0)
      decreases 1001 - step
    {
      var tCurr := if step >= 100 then tMin else (tMin + tMax) / 2.0;
      if step <= 100 { NextInterval(configs, size, step, tMin, tMax); }
      assert tCurr == Tried(configs, size, if step < 100 then step else 100);
      good, total := TryScale(configs, size, tCurr, states);
      steps := steps + 1;
      if good {
        if step >= 100 {
          EndIsNearBest(configs, size);
          return;
        }
        tMin := tCurr;
      } else {
        if step >= 1000 { return; }
        tMax := tCurr;
      }
      step := step + 1;
    }
  }

  // A scale that fits, within Width(100) of the best one.
  ghost predicate NearBest(configs: seq<PoolConfig>, size: nat, t: real)
    requires ConfigsOk(configs)
  {
    && t >= 0.0 && Good(configs, size, t)
    && forall u: real :: 0.0 <= u <= 1000000.0 && Good(configs, size, u) ==> u <= t + Width(100)
  }

  // If the lower end of the final interval fits, it is within its width of the
  // best scale, and the unscaled configuration fits too.
  lemma EndIsNearBest(configs: seq<PoolConfig>, size: nat)
    requires ConfigsOk(configs) && Good(configs, size, Tried(configs, size, 100))
    ensures NearBest(configs, size, Tried(configs, size, 100)) && Good(configs, size, 0.0)
  {
    var (lo, hi) := Interval(configs, size, 100);
    TotalMonotone(configs, |configs|, 0.0, lo);
    forall u: real | 0.0 <= u <= 1000000.0 && Good(configs, size, u) ensures u <= lo + Width(100) {
      if u > hi { TotalMonotone(configs, |configs|, hi, u); }
    }
  }

  // ------------------------------------------------------------ the leftovers

  ghost function Total(states: seq<PoolState>): nat {
    if states == [] then 0
    else Total(states[..|states| - 1]) + states[|states| - 1].size * states[|states| - 1].count
  }

  lemma {:induction false} TotalIsTotalAt(configs: seq<PoolConfig>, states: seq<PoolState>, n: nat, t: real)
    requires ConfigsOk(configs) && t >= 0.0 && n <= |configs| == |states|
    requires forall i :: 0 <= i < n ==> states[i].size == configs[i].size && states[i].count == CountAt(configs[i], t)
    ensures Total(states[..n]) == TotalAt(configs, n, t)
  {
    if n > 0 {
      TotalIsTotalAt(configs, states, n - 1, t);
      assert states[..n][..n - 1] == states[..n - 1];
    }
  }

  // One more block in pool i costs one block size.
  lemma {:induction false} TotalOneMore(states: seq<PoolState>, i: nat)
    requires i < |states|
    ensures Total(states[i := states[i].(count := states[i].count + 1)]) == Total(states) + states[i].size
  {
    var n := |states| - 1;
    var more := states[i := states[i].(count := states[i].count + 1)];
    if i == n {
      assert more[..n] == states[..n];
      assert states[n].size * (states[n].count + 1) == states[n].size * states[n].count + states[n].size;
    } else {
      TotalOneMore(states[..n], i);
      assert more[..n] == states[..n][i := more[i]];
    }
  }

  // How often d goes into x, and what remains.
  ghost function Whole(x: nat, d: nat): nat
    requires d > 0
  {
    if x < d then 0 else 1 + Whole(x - d, d)
  }

  ghost function Leftover(x: nat, d: nat): nat
    requires d > 0
  {
    if x < d then x else Leftover(x - d, d)
  }

  lemma {:induction false} WholeAndLeftover(x: nat, d: nat)
    requires d > 0
    ensures x == Whole(x, d) * d + Leftover(x, d) && Leftover(x, d) < d
  {
    if x >= d { WholeAndLeftover(x - d, d); }
  }

  // Bytes left once pools i and up have taken as many blocks as they can, the
  // last pool first.
  ghost function LeftAfter(configs: seq<PoolConfig>, left: nat, i: nat): nat
    requires i <= |configs| && ConfigsOk(configs)
    decreases |configs| - i
  {
    if i == |configs| then left else Leftover(LeftAfter(configs, left, i + 1), configs[i].size)
  }

  // Blocks that pool i gets on top of its scaled count.
  ghost function Extra(configs: seq<PoolConfig>, left: nat, i: nat): nat
    requires i < |configs| && ConfigsOk(configs)
  {
    Whole(LeftAfter(configs, left, i + 1), configs[i].size)
  }

  // One pool takes blocks for as long as they fit.
  method TakeLeftover(size: nat, total0: nat, states: array<PoolState>, i: nat) returns (total: nat)
    requires total0 == Total(states[..]) <= size
    requires i < states.Length && states[i].size > 0
    modifies states
    ensures total == Total(states[..]) <= size
    ensures size - total == Leftover(size - total0, old(states[i]).size)
    ensures states[i] == old(states[i]).(count := old(states[i]).count + Whole(size - total0, old(states[i]).size))
    ensures forall j :: 0 <= j < states.Length && j != i ==> states[j] == old(states[j])
  {
    total := total0;
    ghost var given, d := 0, states[i].size;
    while size - total >= states[i].size
      invariant total == Total(states[..]) <= size
      invariant Whole(size - total0, d) == given + Whole(size - total, d)
      invariant Leftover(size - total0, d) == Leftover(size - total, d)
      invariant states[i] == old(states[i]).(count := old(states[i]).count + given)
      invariant forall j :: 0 <= j < states.Length && j != i ==> states[j] == old(states[j])
      decreases size - total
    {
      TotalOneMore(states[..], i);
      ghost var before := states[..];
      states[i] := states[i].(count := states[i].count + 1);
      assert states[..] == before[i := before[i].(count := before[i].count + 1)];
      total := total + states[i].size;
      given := given + 1;
    }
  }

  // Hand out the leftover bytes, last pools first, until no block size fits.
  method Sprinkle(ghost configs: seq<PoolConfig>, size: nat, total0: nat, states: array<PoolState>)
    requires total0 == Total(states[..]) <= size
    requires states.Length == |configs| && ConfigsOk(configs)
    requires forall i :: 0 <= i < states.Length ==> states[i].size == configs[i].size
    modifies states
    ensures Total(states[..]) <= size
    ensures forall i :: 0 <= i < states.Length ==> size - Total(states[..]) < states[i].size
    ensures forall i :: 0 <= i < states.Length ==>
      states[i].size == configs[i].size && states[i].count == old(states[i]).count + Extra(configs, size - total0, i)
  {
    var total := total0;
    for i := states.Length downto 0
      invariant total == Total(states[..]) <= size
      invariant size - total == LeftAfter(configs, size - total0, i)
      invariant forall j :: i <= j < states.Length ==> size - total < configs[j].size
      invariant forall j :: 0 <= j < states.Length ==> states[j].size == configs[j].size
      invariant forall j :: 0 <= j < i ==> states[j] == old(states[j])
      invariant forall j :: i <= j < states.Length ==>
        states[j].count == old(states[j]).count + Extra(configs, size - total0, j)
    {
      WholeAndLeftover(size - total, configs[i].size);
      total := TakeLeftover(size, total, states, i);
    }
  }

  // ------------------------------------------------------- carving the buffer

  // The pools laid end to end from 'base'.
  ghost function Carve(base: nat, states: seq<PoolState>): (slabs: seq<Slab>)
    ensures |slabs| == |states|
  {
    if states == [] then []
    else
      var n := |states| - 1;
      var before := Carve(base, states[..n]);
      before + [Slab(StartOf(base, before, n), states[n].size, states[n].count)]
  }

  lemma {:induction false} CarvePrefix(base: nat, states: seq<PoolState>, n: nat)
    requires n <= |states|
    ensures Carve(base, states[..n]) == Carve(base, states)[..n]
  {
    if n < |states| {
      var m := |states| - 1;
      CarvePrefix(base, states[..m], n);
      assert states[..m][..n] == states[..n];
    } else {
      assert states[..n] == states;
    }
  }

  lemma {:induction false} CarveEnds(base: nat, states: seq<PoolState>)
    ensures StartOf(base, Carve(base, states), |states|) == base + Total(states)
  {
    if states != [] {
      var n := |states| - 1;
      var slabs, before := Carve(base, states), Carve(base, states[..n]);
      CarveEnds(base, states[..n]);
      assert slabs[n] == Slab(StartOf(base, before, n), states[n].size, states[n].count);
      EndOfSlab(slabs[n]);
    }
  }

  lemma EndOfSlab(s: Slab)
    ensures s.End() == s.start + s.size * s.count
  {
    BlockClosedForm(s, s.count);
  }

  // Pool i of the carved layout.
  lemma CarveAt(base: nat, states: seq<PoolState>, i: nat)
    requires i < |states|
    ensures var slabs := Carve(base, states);
      slabs[i] == Slab(StartOf(base, slabs, i), states[i].size, states[i].count)
    ensures StartOf(base, Carve(base, states), i) == base + Total(states[..i])
  {
    CarvePrefix(base, states, i + 1);
    CarvePrefix(base, states, i);
    CarveEnds(base, states[..i]);
    assert states[..i + 1][..i] == states[..i];
    assert Carve(base, states)[i] == Carve(base, states[..i + 1])[i];
  }

  lemma {:induction false} TotalPrefix(states: seq<PoolState>, n: nat)
    requires n <= |states|
    ensures Total(states[..n]) <= Total(states)
  {
    if n < |states| {
      var m := |states| - 1;
      TotalPrefix(states[..m], n);
      assert states[..m][..n] == states[..n];
      assert states[m].size * states[m].count >= 0;
    } else {
      assert states[..n] == states;
    }
  }

  lemma CarveLayoutOk(base: nat, states: seq<PoolState>, len: nat)
    requires NULL < base && base + len < ADDRESS_LIMIT && Total(states) <= len
    requires forall i :: 0 <= i < |states| ==> states[i].size >= PTR_SIZE && states[i].size % 4 == 0
    ensures LayoutOk(base, Carve(base, states), len)
  {
    var slabs := Carve(base, states);
    forall i | 0 <= i < |slabs| ensures SlabOk(base, slabs, len, i) {
      CarveAt(base, states, i);
      if i + 1 < |states| { CarveAt(base, states, i + 1); } else { CarveEnds(base, states); }
      TotalPrefix(states, i + 1);
      assert i + 1 == |states| ==> states[..i + 1] == states;
      assert StartOf(base, slabs, i + 1) == slabs[i].End();
    }
  }

  // All blocks of a pool, in address order.
  ghost function AllBlocks(s: Slab): (list: seq<nat>)
    ensures |list| == s.count
  {
    seq(s.count, k requires 0 <= k < s.count => s.Block(k))
  }

  lemma {:induction false} BlocksDistinct(s: Slab)
    requires s.size > 0
    ensures Distinct(AllBlocks(s))
    ensures forall p: nat :: IsBlock(s, p) <==> p in AllBlocks(s)
  {
    forall k, l | 0 <= k < l < s.count ensures s.Block(k) != s.Block(l) {
      BlockStep(s, k, l);
    }
    forall p: nat | IsBlock(s, p) ensures p in AllBlocks(s) {
      var k :| 0 <= k < s.count && p == s.Block(k);
      assert AllBlocks(s)[k] == p;
    }
  }

  lemma SamePrefix(a: seq<Byte>, b: seq<Byte>, n: nat, i: nat, j: nat)
    requires i <= j <= n <= |a| && |a| == |b| && a[..n] == b[..n]
    ensures a[i..j] == b[i..j]
  {
    assert forall k :: 0 <= k < n ==> a[k] == a[..n][k] == b[..n][k] == b[k];
  }

  // A list threaded below address 'limit' does not see writes at or above it.
  lemma ChainBelow(base: nat, mem: seq<Byte>, mem': seq<Byte>, s: seq<nat>, limit: nat)
    requires |mem| == |mem'| && Chain(base, mem, s) && base <= limit <= base + |mem|
    requires mem[..limit - base] == mem'[..limit - base]
    requires forall k :: 0 <= k < |s| ==> s[k] + PTR_SIZE <= limit
    ensures Chain(base, mem', s)
  {
    forall k | 0 <= k < |s| ensures Linked(base, mem', s, k) {
      assert Linked(base, mem, s, k);
      var o := s[k] - base;
      SamePrefix(mem, mem', limit - base, o, o + PTR_SIZE);
    }
  }

  ghost predicate LinkedUpTo(base: nat, mem: seq<Byte>, list: seq<nat>, n: nat)
    requires n <= |list|
  {
    forall k :: 0 <= k < n ==> Linked(base, mem, list, k)
  }

  lemma LinkStays(base: nat, mem: seq<Byte>, s: Slab, k: nat, j: nat, link: nat)
    requires PTR_SIZE <= s.size && k < j < s.count
    requires InMem(base, |mem|, s.Block(j)) && Linked(base, mem, AllBlocks(s), k)
    ensures Linked(base, StorePtr(mem, s.Block(j) - base, link), AllBlocks(s), k)
  {
    BlockStep(s, k, j);
    LoadUntouched(mem, s.Block(j) - base, PtrBytes(link, PTR_SIZE), s.Block(k) - base);
  }

  // Storing the link of block j threads the first j + 1 blocks.
  lemma LinkBlock(base: nat, mem: seq<Byte>, s: Slab, j: nat, link: nat)
    requires PTR_SIZE <= s.size && base <= s.start && s.End() <= base + |mem| < ADDRESS_LIMIT
    requires j < s.count && InMem(base, |mem|, s.Block(j)) && link == Next(AllBlocks(s), j)
    requires LinkedUpTo(base, mem, AllBlocks(s), j)
    ensures LinkedUpTo(base, StorePtr(mem, s.Block(j) - base, link), AllBlocks(s), j + 1)
  {
    if j + 1 < s.count { BlockStep(s, j + 1, s.count); }
    LoadAfterStore(mem, s.Block(j) - base, link);
    var mem' := StorePtr(mem, s.Block(j) - base, link);
    forall k | 0 <= k < j + 1 ensures Linked(base, mem', AllBlocks(s), k) {
      if k < j {
        assert Linked(base, mem, AllBlocks(s), k);
        LinkStays(base, mem, s, k, j, link);
      }
    }
  }

  // Thread the free list of one pool through its blocks; p ends behind the pool.
  method ThreadPool(buffer: array<Byte>, base: nat, size: nat, n: nat, p0: nat) returns (first: nat, p: nat)
    requires NULL < base <= p0 && Slab(p0, size, n).End() <= base + buffer.Length < ADDRESS_LIMIT
    requires PTR_SIZE <= size
    modifies buffer
    ensures p == Slab(p0, size, n).End() && first == Head(AllBlocks(Slab(p0, size, n)))
    ensures Chain(base, buffer[..], AllBlocks(Slab(p0, size, n)))
    ensures p0 - base <= buffer.Length && buffer[..p0 - base] == old(buffer[..p0 - base])
  {
    ghost var s := Slab(p0, size, n);
    StartBelowEnd(s);
    p := p0;
    if n > 0 {
      first := p;
      for j := 0 to n
        invariant p == s.Block(j)
        invariant LinkedUpTo(base, buffer[..], AllBlocks(s), j)
        invariant buffer[..p0 - base] == old(buffer[..p0 - base])
      {
        var pNext := p + size;
        BlockStep(s, j, n);
        if j > 0 { BlockStep(s, 0, j); }
        var link := if j == n - 1 then NULL else pNext;
        ghost var before := buffer[..];
        StoreLink(buffer, p - base, link);
        LinkBlock(base, before, s, j, link);
        OverwriteFrame(before, p - base, PtrBytes(link, PTR_SIZE), 0, p0 - base);
        assert buffer[..p0 - base] == before[..p0 - base];
        p := pNext;
      }
    } else {
      first := NULL;
    }
  }

  // Pool i of a freshly carved buffer is ready: all its blocks are free.
  ghost predicate Ready(base: nat, mem: seq<Byte>, slabs: seq<Slab>, sts: seq<PoolState>, i: nat)
    requires i < |slabs| == |sts|
  {
    && sts[i].first == Head(AllBlocks(slabs[i]))
    && sts[i].allocEnd == slabs[i].End()
    && sts[i].hwmUsedCount == 0
    && Chain(base, mem, AllBlocks(slabs[i]))
  }

  lemma {:induction false} PoolFitsTotal(states: seq<PoolState>, i: nat)
    requires i < |states|
    ensures states[i].size * states[i].count <= Total(states)
  {
    var n := |states| - 1;
    if i < n { PoolFitsTotal(states[..n], i); }
    assert states[n].size * states[n].count >= 0;
  }

  // Counts that fit the buffer are counts an int can hold.
  lemma TotalBoundsCounts(configs: seq<PoolConfig>, size: nat, states: seq<PoolState>)
    requires |states| == |configs| && ConfigsOk(configs) && BlocksCountable(configs, size) && Total(states) <= size
    requires forall i :: 0 <= i < |states| ==> states[i].size == configs[i].size
    ensures forall i :: 0 <= i < |states| ==> states[i].count <= INT_MAX
  {
    forall i | 0 <= i < |states| ensures states[i].count <= INT_MAX {
      PoolFitsTotal(states, i);
      if states[i].count > INT_MAX { ProductMonotone(configs[i].size, INT_MAX + 1, states[i].count); }
    }
  }

  // Every block free, none live.
  ghost function FreshHeap(base: nat, mem: seq<Byte>, slabs: seq<Slab>): Heap {
    Heap(base, slabs, mem, seq(|slabs|, i requires 0 <= i < |slabs| => AllBlocks(slabs[i])), {},
         seq(|slabs|, i => 0), 0)
  }

  lemma FreshHeapOk(base: nat, mem: seq<Byte>, slabs: seq<Slab>, sts: seq<PoolState>)
    requires LayoutOk(base, slabs, |mem|) && |slabs| == |sts|
    requires forall i :: 0 <= i < |slabs| ==> Ready(base, mem, slabs, sts, i)
    requires forall i :: 0 <= i < |slabs| ==> slabs[i].size == sts[i].size && slabs[i].count == sts[i].count
    ensures Inv(FreshHeap(base, mem, slabs)) && StatesOk(sts, FreshHeap(base, mem, slabs))
  {
    var h := FreshHeap(base, mem, slabs);
    forall i | 0 <= i < |slabs| ensures FreeListOk(h, i) && StateOk(sts[i], h, i) {
      assert Ready(base, mem, slabs, sts, i) && SlabOk(base, slabs, |mem|, i);
      BlocksDistinct(slabs[i]);
      forall k | 0 <= k < |h.free[i]| ensures OwnedBy(h, i, h.free[i][k]) {
        assert h.free[i][k] in AllBlocks(slabs[i]);
      }
    }
    forall i: nat, p: nat | OwnedBy(h, i, p) ensures p in h.live <==> p !in h.free[i] {
      assert SlabOk(base, slabs, |mem|, i);
      BlocksDistinct(slabs[i]);
    }
  }

  // Pools carved so far lie below the next one, so threading it leaves them ready.
  lemma StillReady(base: nat, mem: seq<Byte>, mem': seq<Byte>, slabs: seq<Slab>, sts: seq<PoolState>,
      sts': seq<PoolState>, j: nat, i: nat)
    requires LayoutOk(base, slabs, |mem|) && |slabs| == |sts| == |sts'| && j < i < |slabs|
    requires Ready(base, mem, slabs, sts, j) && sts'[j] == sts[j]
    requires base <= slabs[i].start <= base + |mem|
    requires |mem| == |mem'| && mem[..slabs[i].start - base] == mem'[..slabs[i].start - base]
    ensures Ready(base, mem', slabs, sts', j)
  {
    SlabsAscend(base, slabs, |mem|, j, i);
    assert SlabOk(base, slabs, |mem|, j);
    BlocksDistinct(slabs[j]);
    forall k | 0 <= k < |AllBlocks(slabs[j])| ensures AllBlocks(slabs[j])[k] + PTR_SIZE <= slabs[i].start {
      BlockStep(slabs[j], k, slabs[j].count);
    }
    ChainBelow(base, mem, mem', AllBlocks(slabs[j]), slabs[i].start);
  }

  // (int) n
  function ToSigned(n: nat): nat
    requires n <= INT_MAX
  {
    n
  }

  // Lay the pools end to end and thread each free list.
  method CarveBuffer(buffer: array<Byte>, base: nat, states: array<PoolState>)
    requires NULL < base && base + buffer.Length < ADDRESS_LIMIT && Total(states[..]) <= buffer.Length
    requires forall i :: 0 <= i < states.Length ==> states[i].size >= PTR_SIZE && states[i].size % 4 == 0
    requires forall i :: 0 <= i < states.Length ==> states[i].count <= INT_MAX
    modifies buffer, states
    ensures var slabs := Carve(base, old(states[..]));
      && LayoutOk(base, slabs, buffer.Length)
      && forall i :: 0 <= i < |slabs| ==> Ready(base, buffer[..], slabs, states[..], i)
    ensures forall i :: 0 <= i < states.Length ==>
      states[i].size == old(states[i]).size && states[i].count == old(states[i]).count
  {
    ghost var sts := states[..];
    ghost var slabs := Carve(base, sts);
    CarveLayoutOk(base, sts, buffer.Length);
    var p := base;
    for i := 0 to states.Length
      invariant p == StartOf(base, slabs, i)
      invariant forall j :: 0 <= j < i ==> Ready(base, buffer[..], slabs, states[..], j)
      invariant forall j :: 0 <= j < states.Length ==> states[j].size == sts[j].size && states[j].count == sts[j].count
    {
      CarveAt(base, sts, i);
      assert SlabOk(base, slabs, buffer.Length, i);
      StartAboveBase(base, slabs, buffer.Length, i);
      StartBelowEnd(slabs[i]);
      ghost var mem0, sts0 := buffer[..], states[..];
      var first;
      first, p := ThreadPool(buffer, base, states[i].size, ToSigned(states[i].count), p);
      states[i] := states[i].(first := first, allocEnd := p, hwmUsedCount := 0);
      forall j | 0 <= j < i + 1 ensures Ready(base, buffer[..], slabs, states[..], j) {
        if j < i { StillReady(base, mem0, buffer[..], slabs, sts0, states[..], j, i); }
      }
    }
  }

  // No pool is larger than the buffer, which bounds its count.
  lemma CountsFitBuffer(base: nat, slabs: seq<Slab>, len: nat, i: nat)
    requires LayoutOk(base, slabs, len) && i < |slabs|
    ensures slabs[i].count * slabs[i].size <= len
  {
    assert SlabOk(base, slabs, len, i);
    StartAboveBase(base, slabs, len, i);
    BlockClosedForm(slabs[i], slabs[i].count);
  }

  // The counts for scale t, plus the leftovers handed out from the last pool down.
  ghost predicate CountsAre(configs: seq<PoolConfig>, size: nat, t: real, states: seq<PoolState>)
    requires ConfigsOk(configs) && t >= 0.0 && Good(configs, size, t)
  {
    && |states| == |configs|
    && forall i :: 0 <= i < |states| ==>
      && states[i].size == configs[i].size
      && states[i].count == CountAt(configs[i], t) + Extra(configs, size - TotalAt(configs, |configs|, t), i)
  }

  // What initialisation promises: such counts for a scale that fits and is
  // within Width(100) of the best one, laid end to end from 'base', and less
  // than one block of any size left over.
  ghost predicate Provisioned(configs: seq<PoolConfig>, base: nat, size: nat, slabs: seq<Slab>)
    requires ConfigsOk(configs)
  {
    && LayoutOk(base, slabs, size)
    && (forall i :: 0 <= i < |slabs| ==> size - (StartOf(base, slabs, |slabs|) - base) < slabs[i].size)
    && exists t: real, states: seq<PoolState> ::
      NearBest(configs, size, t) && CountsAre(configs, size, t, states) && slabs == Carve(base, states)
  }

  lemma CountsProvision(configs: seq<PoolConfig>, base: nat, size: nat, t: real, states: seq<PoolState>)
    requires ConfigsOk(configs) && NULL < base && base + size < ADDRESS_LIMIT
    requires NearBest(configs, size, t) && CountsAre(configs, size, t, states)
    requires Total(states) <= size
    requires forall i :: 0 <= i < |states| ==> size - Total(states) < states[i].size
    ensures Provisioned(configs, base, size, Carve(base, states))
    ensures forall i :: 0 <= i < |states| ==>
      Carve(base, states)[i].size == states[i].size && Carve(base, states)[i].count == states[i].count
  {
    CarveEnds(base, states);
    forall i | 0 <= i < |states|
      ensures Carve(base, states)[i].size == states[i].size && Carve(base, states)[i].count == states[i].count
    {
      CarveAt(base, states, i);
    }
    CarveLayoutOk(base, states, size);
  }

  // The counts are final: carve and thread the buffer.
  method Finish(buffer: array<Byte>, base: nat, configs: seq<PoolConfig>, states: array<PoolState>, ghost t: real)
    returns (g: Allocator)
    requires NULL < base && base + buffer.Length < ADDRESS_LIMIT && ConfigsOk(configs)
    requires NearBest(configs, buffer.Length, t) && CountsAre(configs, buffer.Length, t, states[..])
    requires Total(states[..]) <= buffer.Length
    requires forall i :: 0 <= i < states.Length ==> buffer.Length - Total(states[..]) < states[i].size
    requires forall i :: 0 <= i < states.Length ==> states[i].count <= INT_MAX
    modifies buffer, states
    ensures fresh(g) && g.Valid() && g.buffer == buffer && g.states == states && g.base == base
    ensures g.heap == FreshHeap(base, buffer[..], g.heap.slabs)
    ensures Provisioned(configs, base, buffer.Length, g.heap.slabs)
  {
    ghost var slabs := Carve(base, states[..]);
    CountsProvision(configs, base, buffer.Length, t, states[..]);
    CarveBuffer(buffer, base, states);
    FreshHeapOk(base, buffer[..], slabs, states[..]);
    g := new Allocator(base, buffer, states, FreshHeap(base, buffer[..], slabs));
  }

  // The search and the leftovers settle the counts.
  method ChooseCounts(configs: seq<PoolConfig>, size: nat, states: array<PoolState>) returns (good: bool, ghost t: real)
    requires states.Length == |configs| && ConfigsOk(configs)
    requires BlocksCountable(configs, size) && CountsHold(configs, size)
    modifies states
    ensures good <==> Good(configs, size, 0.0)
    ensures good ==> NearBest(configs, size, t) && CountsAre(configs, size, t, states[..])
    ensures good ==> Total(states[..]) <= size
    ensures good ==> forall i :: 0 <= i < states.Length ==> size - Total(states[..]) < states[i].size
  {
    var total;
    ghost var steps;
    good, total, t, steps := SearchScale(configs, size, states);
    if good {
      TotalIsTotalAt(configs, states[..], |configs|, t);
      assert states[..][..|configs|] == states[..];
      Sprinkle(configs, size, total, states);
    }
  }

  // duk_alloc_pool_init: NULL exactly when even the unscaled configuration does
  // not fit; otherwise a valid allocator with every block free.
  method Init(buffer: array<Byte>, base: nat, configs: seq<PoolConfig>, states: array<PoolState>)
    returns (g: Allocator?)
    requires NULL < base && base + buffer.Length < ADDRESS_LIMIT
    requires states.Length == |configs| && ConfigsOk(configs)
    requires BlocksCountable(configs, buffer.Length) && CountsHold(configs, buffer.Length)
    modifies buffer, states
    ensures g == null <==> !Good(configs, buffer.Length, 0.0)
    ensures g != null ==>
      && fresh(g) && g.Valid() && g.buffer == buffer && g.states == states && g.base == base
      && g.heap == FreshHeap(base, buffer[..], g.heap.slabs)
      && Provisioned(configs, base, buffer.Length, g.heap.slabs)
  {
    var good;
    ghost var t;
    good, t := ChooseCounts(configs, buffer.Length, states);
    if !good { return null; }
    TotalBoundsCounts(configs, buffer.Length, states[..]);
    g := Finish(buffer, base, configs, states, t);
  }
}
