// What initialisation provides, in terms of the configuration fields alone.
module PoolInitLaws {
  import opened Widths
  import opened Octets
  import opened RawMemory
  import opened PoolModel
  import opened PoolAllocator
  import opened PoolInit

  // ------------------------------------------------------ counts at a scale

  // n blocks are what the target bytes A * t + B hold.
  ghost predicate HoldsBlocks(c: PoolConfig, t: real, n: nat) {
    (n * c.size) as real <= c.a as real * t + c.b as real < ((n + 1) * c.size) as real
  }

  lemma QuotientTimes(x: real, d: nat)
    requires x >= 0.0 && d > 0
    ensures 0.0 <= x / d as real
    ensures var n := (x / d as real).Floor; (n * d) as real <= x < ((n + 1) * d) as real
  {
    var q := x / d as real;
    assert d as real * q == x;
    BelowFloor(q, d, q.Floor);
    AboveFloor(q, d, q.Floor + 1);
  }

  lemma BelowFloor(q: real, d: nat, n: int)
    requires n as real <= q
    ensures (n * d) as real <= d as real * q
  {
    ProductReal(n, d);
    TimesMonotone(d as real, n as real, q);
  }

  lemma AboveFloor(q: real, d: nat, n: int)
    requires q < n as real && d > 0
    ensures d as real * q < (n * d) as real
  {
    ProductReal(n, d);
    StrictTimes(d as real, q, n as real);
  }

  lemma StrictTimes(a: real, t: real, u: real)
    requires a > 0.0 && t < u
    ensures a * t < a * u
  {
    assert a * (u - t) > 0.0;
  }

  lemma ProductReal(n: int, d: nat)
    ensures (n * d) as real == d as real * n as real
  {
  }

  lemma TargetBytes(c: PoolConfig, t: real) returns (x: real)
    requires c.size > 0 && t >= 0.0
    ensures x == c.a as real * t + c.b as real && x >= 0.0
    ensures CountAt(c, t) == (x / c.size as real).Floor
  {
    TargetMonotone(c, t, t);
    TimesMonotone(c.a as real, 0.0, t);
    x := c.a as real * t + c.b as real;
    assert TargetBlocks(c, t) == x / c.size as real;
  }

  // The count at a scale is the number of blocks that the target bytes hold.
  lemma CountHoldsBlocks(c: PoolConfig, t: real)
    requires c.size > 0 && t >= 0.0
    ensures HoldsBlocks(c, t, CountAt(c, t))
  {
    var x := TargetBytes(c, t);
    QuotientTimes(x, c.size);
  }

  // There is one such number.
  lemma HoldsBlocksOnce(c: PoolConfig, t: real, m: nat, n: nat)
    requires c.size > 0 && HoldsBlocks(c, t, m) && HoldsBlocks(c, t, n)
    ensures m == n
  {
    if m < n { ProductStep(m, n, c.size); }
    if n < m { ProductStep(n, m, c.size); }
  }

  ghost predicate Scaled(configs: seq<PoolConfig>, t: real, counts: seq<nat>) {
    |counts| == |configs| && forall i :: 0 <= i < |counts| ==> HoldsBlocks(configs[i], t, counts[i])
  }

  // Bytes of pools i and up, with these counts.
  ghost function BytesFrom(configs: seq<PoolConfig>, counts: seq<nat>, i: nat): nat
    requires i <= |configs| == |counts|
    decreases |configs| - i
  {
    if i == |configs| then 0 else counts[i] * configs[i].size + BytesFrom(configs, counts, i + 1)
  }

  // Scale t fits: the blocks that the target bytes hold fit into 'size' bytes.
  ghost predicate ScaleFits(configs: seq<PoolConfig>, size: nat, t: real) {
    exists counts :: Scaled(configs, t, counts) && BytesFrom(configs, counts, 0) <= size
  }

  ghost function CountsAt(configs: seq<PoolConfig>, t: real): (counts: seq<nat>)
    requires ConfigsOk(configs) && t >= 0.0
    ensures |counts| == |configs|
    ensures forall i :: 0 <= i < |counts| ==> counts[i] == CountAt(configs[i], t)
  {
    seq(|configs|, i requires 0 <= i < |configs| => CountAt(configs[i], t))
  }

  lemma {:induction false} TotalSplits(configs: seq<PoolConfig>, t: real, n: nat)
    requires ConfigsOk(configs) && t >= 0.0 && n <= |configs|
    ensures TotalAt(configs, n, t) + BytesFrom(configs, CountsAt(configs, t), n)
      == BytesFrom(configs, CountsAt(configs, t), 0)
  {
    if n > 0 {
      TotalSplits(configs, t, n - 1);
      var m := CountsAt(configs, t)[n - 1];
      assert TotalAt(configs, n, t) == TotalAt(configs, n - 1, t) + configs[n - 1].size * m;
      Commutes(configs[n - 1].size, m);
    }
  }

  lemma Commutes(m: nat, n: nat)
    ensures m * n == n * m
  {
  }

  lemma CountsAtScaled(configs: seq<PoolConfig>, t: real)
    requires ConfigsOk(configs) && t >= 0.0
    ensures Scaled(configs, t, CountsAt(configs, t))
    ensures BytesFrom(configs, CountsAt(configs, t), 0) == TotalAt(configs, |configs|, t)
    ensures forall counts :: Scaled(configs, t, counts) ==> counts == CountsAt(configs, t)
  {
    TotalSplits(configs, t, |configs|);
    forall i | 0 <= i < |configs| ensures HoldsBlocks(configs[i], t, CountsAt(configs, t)[i]) {
      CountHoldsBlocks(configs[i], t);
    }
    forall counts | Scaled(configs, t, counts) ensures counts == CountsAt(configs, t) {
      forall i | 0 <= i < |configs| ensures counts[i] == CountsAt(configs, t)[i] {
        HoldsBlocksOnce(configs[i], t, counts[i], CountsAt(configs, t)[i]);
      }
    }
  }

  // What the search calls good is what fits.
  lemma GoodIsFit(configs: seq<PoolConfig>, size: nat, t: real)
    requires ConfigsOk(configs) && t >= 0.0
    ensures Good(configs, size, t) <==> ScaleFits(configs, size, t)
  {
    CountsAtScaled(configs, t);
  }

  // ------------------------------------------------- how near the best scale

  ghost function Double(n: nat): nat {
    if n == 0 then 1 else 2 * Double(n - 1)
  }

  lemma {:induction false} WidthTimesDouble(n: nat)
    ensures Width(n) * Double(n) as real == 1000000.0
  {
    if n > 0 {
      WidthTimesDouble(n - 1);
      var w, d := Width(n - 1), Double(n - 1) as real;
      assert Double(n) as real == 2.0 * d;
      assert (w / 2.0) * (2.0 * d) == w * d;
    }
  }

  lemma TwiceProduct(a: nat, b: nat)
    ensures 2 * (a * b) == (2 * a) * b
  {
  }

  lemma {:induction false} DoubleSum(m: nat, n: nat)
    ensures Double(m + n) == Double(m) * Double(n)
  {
    if m > 0 {
      DoubleSum(m - 1, n);
      TwiceProduct(Double(m - 1), Double(n));
    }
  }

  lemma DoubleHundred()
    ensures Double(100) == 1267650600228229401496703205376
  {
    assert Double(10) == 1024;
    DoubleSum(10, 10);
    assert Double(20) == 0x10_0000;
    DoubleSum(20, 20);
    assert Double(40) == 0x100_0000_0000;
    DoubleSum(40, 40);
    DoubleSum(80, 20);
  }

  // No scale in the search range that fits is more than 1e6 / 2^100 above t.
  ghost predicate NearlyBest(configs: seq<PoolConfig>, size: nat, t: real) {
    && t >= 0.0 && ScaleFits(configs, size, t)
    && forall u: real :: 0.0 <= u <= 1000000.0 && ScaleFits(configs, size, u) ==>
      (u - t) * 1267650600228229401496703205376.0 <= 1000000.0
  }

  lemma NearBestIsNearlyBest(configs: seq<PoolConfig>, size: nat, t: real)
    requires ConfigsOk(configs) && NearBest(configs, size, t)
    ensures NearlyBest(configs, size, t)
  {
    GoodIsFit(configs, size, t);
    DoubleHundred();
    WidthTimesDouble(100);
    forall u: real | 0.0 <= u <= 1000000.0 && ScaleFits(configs, size, u)
      ensures (u - t) * 1267650600228229401496703205376.0 <= 1000000.0
    {
      GoodIsFit(configs, size, u);
      TimesMonotone(1267650600228229401496703205376.0, u - t, Width(100));
    }
  }

  // ------------------------------------------------------------ leftovers

  // From the last pool down, each pool takes as many blocks as what the pools
  // behind it have left can hold: less than one of its blocks remains.
  ghost predicate Shared(configs: seq<PoolConfig>, left: nat, extra: seq<nat>) {
    |extra| == |configs| && forall i :: 0 <= i < |extra| ==> ShareOk(configs, left, extra, i)
  }

  ghost predicate ShareOk(configs: seq<PoolConfig>, left: nat, extra: seq<nat>, i: nat)
    requires i < |extra| == |configs|
  {
    0 <= left - BytesFrom(configs, extra, i) < configs[i].size
  }

  ghost function Extras(configs: seq<PoolConfig>, left: nat): (extra: seq<nat>)
    requires ConfigsOk(configs)
    ensures |extra| == |configs|
    ensures forall i :: 0 <= i < |extra| ==> extra[i] == Extra(configs, left, i)
  {
    seq(|configs|, i requires 0 <= i < |configs| => Extra(configs, left, i))
  }

  lemma {:induction false} LeftAfterIs(configs: seq<PoolConfig>, left: nat, i: nat)
    requires ConfigsOk(configs) && i <= |configs|
    ensures LeftAfter(configs, left, i) == left - BytesFrom(configs, Extras(configs, left), i)
    decreases |configs| - i
  {
    if i < |configs| {
      LeftAfterIs(configs, left, i + 1);
      WholeAndLeftover(LeftAfter(configs, left, i + 1), configs[i].size);
    }
  }

  lemma ExtrasShared(configs: seq<PoolConfig>, left: nat)
    requires ConfigsOk(configs)
    ensures Shared(configs, left, Extras(configs, left))
  {
    forall i | 0 <= i < |configs| ensures ShareOk(configs, left, Extras(configs, left), i) {
      LeftAfterIs(configs, left, i);
      WholeAndLeftover(LeftAfter(configs, left, i + 1), configs[i].size);
    }
  }

  // These conditions leave one choice.
  lemma {:induction false} SharedOnce(configs: seq<PoolConfig>, left: nat, x: seq<nat>, y: seq<nat>, i: nat)
    requires ConfigsOk(configs) && Shared(configs, left, x) && Shared(configs, left, y) && i <= |configs|
    ensures x[i..] == y[i..] && BytesFrom(configs, x, i) == BytesFrom(configs, y, i)
    decreases |configs| - i
  {
    if i < |configs| {
      SharedOnce(configs, left, x, y, i + 1);
      assert ShareOk(configs, left, x, i) && ShareOk(configs, left, y, i);
      var d := configs[i].size;
      if x[i] < y[i] { ProductStep(x[i], y[i], d); }
      if y[i] < x[i] { ProductStep(y[i], x[i], d); }
      assert x[i..] == [x[i]] + x[i + 1..] && y[i..] == [y[i]] + y[i + 1..];
    }
  }

  // ---------------------------------------------------- what is provided

  // Counts of a nearly best scale, plus the shared leftovers, laid end to end
  // from 'base'.
  ghost predicate Provides(configs: seq<PoolConfig>, base: nat, size: nat, slabs: seq<Slab>) {
    && LayoutOk(base, slabs, size) && |slabs| == |configs|
    && exists t: real, counts: seq<nat>, extra: seq<nat> :: ProvidesFrom(configs, size, slabs, t, counts, extra)
  }

  ghost predicate ProvidesFrom(
    configs: seq<PoolConfig>, size: nat, slabs: seq<Slab>, t: real, counts: seq<nat>, extra: seq<nat>)
    requires |slabs| == |configs|
  {
    && NearlyBest(configs, size, t) && Scaled(configs, t, counts)
    && BytesFrom(configs, counts, 0) <= size && Shared(configs, size - BytesFrom(configs, counts, 0), extra)
    && forall i :: 0 <= i < |slabs| ==>
      slabs[i].size == configs[i].size && slabs[i].count == counts[i] + extra[i]
  }

  lemma ProvisionedProvides(configs: seq<PoolConfig>, base: nat, size: nat, slabs: seq<Slab>)
    requires ConfigsOk(configs) && Provisioned(configs, base, size, slabs)
    ensures Provides(configs, base, size, slabs)
  {
    var t: real, states: seq<PoolState> :|
      NearBest(configs, size, t) && CountsAre(configs, size, t, states) && slabs == Carve(base, states);
    var counts := CountsAt(configs, t);
    CountsAtScaled(configs, t);
    var extra := Extras(configs, size - TotalAt(configs, |configs|, t));
    ExtrasShared(configs, size - TotalAt(configs, |configs|, t));
    NearBestIsNearlyBest(configs, size, t);
    forall i | 0 <= i < |slabs| ensures slabs[i].size == configs[i].size && slabs[i].count == counts[i] + extra[i] {
      CarveAt(base, states, i);
    }
    assert ProvidesFrom(configs, size, slabs, t, counts, extra);
  }

  // The free list of a new pool runs through its blocks in address order.
  lemma FreshListInOrder(s: Slab, k: nat)
    requires k < s.count
    ensures AllBlocks(s)[k] == s.start + k * s.size
  {
    BlockClosedForm(s, k);
  }

  // duk_alloc_pool_init, in these terms: NULL exactly when the unscaled
  // configuration does not fit.
  method InitProvides(buffer: array<Byte>, base: nat, configs: seq<PoolConfig>, states: array<PoolState>)
    returns (g: Allocator?)
    requires NULL < base && base + buffer.Length < ADDRESS_LIMIT
    requires states.Length == |configs| && ConfigsOk(configs)
    requires BlocksCountable(configs, buffer.Length) && CountsHold(configs, buffer.Length)
    modifies buffer, states
    ensures g == null <==> !ScaleFits(configs, buffer.Length, 0.0)
    ensures g != null ==>
      && fresh(g) && g.Valid() && g.buffer == buffer && g.states == states && g.base == base
      && g.heap == FreshHeap(base, buffer[..], g.heap.slabs)
      && Provides(configs, base, buffer.Length, g.heap.slabs)
  {
    GoodIsFit(configs, buffer.Length, 0.0);
    g := Init(buffer, base, configs, states);
    if g != null { ProvisionedProvides(configs, base, buffer.Length, g.heap.slabs); }
  }
}
