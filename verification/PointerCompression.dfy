// 16-bit pointer compression for one registered pool, with or without the ROM
// pointer table.
module PointerCompression {
  import opened RawMemory
  import opened PoolModel
  import opened PoolAllocator
  import opened PoolInit

  // DUK_USE_ROM_PTRCOMP_FIRST
  const ROMPTR_FIRST: nat := 63488

  const U16: nat := 0x1_0000

  // 'base' is the pool buffer; 'rom' lists the ROM pointers of the table, without
  // its NULL terminator. Builds without ROM objects have no table.
  datatype Codec = Codec(base: nat, useRom: bool, rom: seq<nat>)

  ghost predicate CodecOk(c: Codec) {
    && 4 <= c.base < ADDRESS_LIMIT
    && (!c.useRom ==> c.rom == [])
    && (forall k :: 0 <= k < |c.rom| ==> NULL < c.rom[k] < ADDRESS_LIMIT)
    && ROMPTR_FIRST + |c.rom| <= U16
  }

  // ------------------------------------------------------ the ROM table

  function Low(rom: seq<nat>): nat {
    if rom == [] then NULL else if |rom| == 1 then rom[0] else
    var m := Low(rom[..|rom| - 1]); if rom[|rom| - 1] < m then rom[|rom| - 1] else m
  }

  function High(rom: seq<nat>): nat {
    if rom == [] then NULL else if |rom| == 1 then rom[0] else
    var m := High(rom[..|rom| - 1]); if rom[|rom| - 1] > m then rom[|rom| - 1] else m
  }

  // Every listed pointer passes the range check.
  lemma {:induction false} ListedInRange(rom: seq<nat>, k: nat)
    requires k < |rom|
    ensures Low(rom) <= rom[k] <= High(rom)
  {
    var n := |rom| - 1;
    if k < n {
      ListedInRange(rom[..n], k);
    } else if n > 0 {
      assert rom[..n] != [];
    }
  }

  // duk__alloc_pool_romptr_init, on the table with its NULL terminator.
  method RomInit(table: seq<nat>) returns (low: nat, high: nat)
    requires |table| > 0 && table[|table| - 1] == NULL
    requires forall k :: 0 <= k < |table| - 1 ==> table[k] != NULL
    ensures low == Low(table[..|table| - 1]) && high == High(table[..|table| - 1])
  {
    low, high := table[0], table[0];
    var k := 0;
    while table[k] != NULL
      invariant 0 <= k < |table|
      invariant k == 0 ==> low == high == table[0]
      invariant k > 0 ==> low == Low(table[..k]) && high == High(table[..k])
      decreases |table| - k
    {
      assert table[..k + 1][..k] == table[..k];
      if table[k] > high { high := table[k]; }
      if table[k] < low { low := table[k]; }
      k := k + 1;
    }
  }

  // First place of p in the table, or its length.
  function PlaceOf(rom: seq<nat>, p: nat): (k: nat)
    ensures k <= |rom|
    ensures k < |rom| ==> rom[k] == p
    ensures forall j :: 0 <= j < k ==> rom[j] != p
    ensures p in rom ==> k < |rom|
  {
    if rom == [] || rom[0] == p then 0 else 1 + PlaceOf(rom[1..], p)
  }

  function EncRomS(rom: seq<nat>, p: nat): nat {
    if PlaceOf(rom, p) < |rom| then (ROMPTR_FIRST + PlaceOf(rom, p)) % U16 else 0
  }

  // duk_alloc_pool_enc16_rom
  method EncRom(table: seq<nat>, p: nat) returns (v: nat)
    requires |table| > 0 && table[|table| - 1] == NULL && p != NULL
    requires forall k :: 0 <= k < |table| - 1 ==> table[k] != NULL
    ensures v == EncRomS(table[..|table| - 1], p)
  {
    ghost var rom := table[..|table| - 1];
    var k := 0;
    while table[k] != NULL
      invariant 0 <= k < |table|
      invariant PlaceOf(rom, p) == k + PlaceOf(rom[k..], p)
      decreases |table| - k
    {
      if table[k] == p { return (ROMPTR_FIRST + k) % U16; }
      k := k + 1;
    }
    return 0;
  }

  // ------------------------------------------------------ encode, decode

  function Enc16(c: Codec, p: nat): nat
    requires 4 <= c.base < ADDRESS_LIMIT && p < ADDRESS_LIMIT
  {
    if p == NULL then 0
    else if c.useRom && Low(c.rom) <= p <= High(c.rom) then EncRomS(c.rom, p)
    else (p + ADDRESS_LIMIT - (c.base - 4)) % ADDRESS_LIMIT / 4 % U16
  }

  datatype Decoded = Pointer(p: nat) | OutOfTable

  // The table lookup is blind: the terminator reads as NULL, and anything
  // behind it is not a pointer the table defines.
  function Dec16(c: Codec, v: nat): Decoded
    requires 4 <= c.base
  {
    if v == 0 then Pointer(NULL)
    else if c.useRom && v >= ROMPTR_FIRST then
      var k := v - ROMPTR_FIRST;
      if k < |c.rom| then Pointer(c.rom[k]) else if k == |c.rom| then Pointer(NULL) else OutOfTable
    else Pointer((c.base - 4 + 4 * v) % ADDRESS_LIMIT)
  }

  ghost predicate RoundTrips(c: Codec, p: nat)
    requires CodecOk(c) && p < ADDRESS_LIMIT
  {
    Dec16(c, Enc16(c, p)) == Pointer(p)
  }

  // Codes below this value stand for pool addresses.
  function PoolCodes(c: Codec): nat {
    if c.useRom then ROMPTR_FIRST else U16
  }

  // A listed ROM pointer always survives.
  lemma RomRoundTrips(c: Codec, k: nat)
    requires CodecOk(c) && k < |c.rom|
    ensures RoundTrips(c, c.rom[k])
  {
    ListedInRange(c.rom, k);
  }

  // An aligned pool address, not in the ROM table, survives exactly when it lies
  // outside the ROM range and its word offset is below the first ROM code.
  lemma PoolRoundTripsExactly(c: Codec, p: nat)
    requires CodecOk(c) && c.base <= p < ADDRESS_LIMIT && (p - c.base) % 4 == 0 && p !in c.rom
    ensures RoundTrips(c, p) <==>
      !(c.useRom && Low(c.rom) <= p <= High(c.rom)) && (p - c.base) / 4 + 1 < PoolCodes(c)
  {
    if c.useRom && Low(c.rom) <= p <= High(c.rom) {
      assert Enc16(c, p) == 0;
    } else {
      var w := (p - c.base) / 4 + 1;
      assert p == c.base - 4 + 4 * w;
      assert (p + ADDRESS_LIMIT - (c.base - 4)) % ADDRESS_LIMIT / 4 == w;
      DecodesOnlyItself(c, p, w);
    }
  }

  // The code of an address that fits is its word offset, counted from 1, and
  // decodes to it.
  lemma PoolCode(c: Codec, w: nat)
    requires CodecOk(c) && 0 < w < (if c.useRom then 63488 else 65536) && c.base - 4 + 4 * w < ADDRESS_LIMIT
    requires !(c.useRom && Low(c.rom) <= c.base - 4 + 4 * w <= High(c.rom))
    ensures Enc16(c, c.base - 4 + 4 * w) == w
    ensures Dec16(c, w) == Pointer(c.base - 4 + 4 * w)
  {
    var p := c.base - 4 + 4 * w;
    assert (p + ADDRESS_LIMIT - (c.base - 4)) % ADDRESS_LIMIT == 4 * w;
  }

  // The code of a listed ROM pointer is its first place behind 63488, and
  // decodes to it.
  lemma RomCode(c: Codec, k: nat)
    requires CodecOk(c) && c.useRom && k < |c.rom| && forall j :: 0 <= j < k ==> c.rom[j] != c.rom[k]
    ensures Enc16(c, c.rom[k]) == 63488 + k && Dec16(c, 63488 + k) == Pointer(c.rom[k])
  {
    ListedInRange(c.rom, k);
  }

  // Of all codes, the word offset itself is the only one that decodes to p.
  lemma DecodesOnlyItself(c: Codec, p: nat, w: nat)
    requires CodecOk(c) && p < ADDRESS_LIMIT && p == c.base - 4 + 4 * w && w > 0 && p !in c.rom
    ensures Dec16(c, w % U16) == Pointer(p) <==> w < PoolCodes(c)
  {
    var v := w % U16;
    if v < PoolCodes(c) && v != w {
      assert c.base - 4 + 4 * v < p;
    }
  }

  // ------------------------------------------------------ a whole heap

  lemma {:induction false} BlockAligned(base: nat, slabs: seq<Slab>, len: nat, i: nat, k: nat)
    requires LayoutOk(base, slabs, len) && i < |slabs|
    ensures (slabs[i].Block(k) - base) % 4 == 0
    decreases i, k
  {
    assert SlabOk(base, slabs, len, i);
    if k > 0 {
      BlockAligned(base, slabs, len, i, k - 1);
    } else if i > 0 {
      BlockAligned(base, slabs, len, i - 1, slabs[i - 1].count);
    }
  }

  // The highest block of all pools, NULL if there is none.
  function TopBlock(slabs: seq<Slab>): nat {
    if slabs == [] then NULL
    else
      var s := slabs[|slabs| - 1];
      if s.count > 0 then s.Block(s.count - 1) else TopBlock(slabs[..|slabs| - 1])
  }

  lemma {:induction false} TopBlockIsHighest(base: nat, slabs: seq<Slab>, len: nat, n: nat, i: nat, p: nat)
    requires LayoutOk(base, slabs, len) && i < n <= |slabs| && IsBlock(slabs[i], p)
    ensures p <= TopBlock(slabs[..n])
  {
    var s, j := slabs[n - 1], n - 1;
    assert slabs[..n][..n - 1] == slabs[..n - 1];
    if s.count == 0 {
      TopBlockIsHighest(base, slabs, len, n - 1, i, p);
    } else if i < j {
      BlockInside(base, slabs, len, i, p);
      SlabsAscend(base, slabs, len, i, j);
      if s.count > 1 { BlockStep(s, 0, s.count - 1); }
    } else {
      var k :| 0 <= k < s.count && p == s.Block(k);
      if k < s.count - 1 { BlockStep(s, k, s.count - 1); }
    }
  }

  lemma {:induction false} TopBlockIsBlock(slabs: seq<Slab>) returns (i: nat)
    requires TopBlock(slabs) != NULL
    ensures i < |slabs| && IsBlock(slabs[i], TopBlock(slabs))
  {
    var n := |slabs| - 1;
    if slabs[n].count > 0 { i := n; } else { i := TopBlockIsBlock(slabs[..n]); }
  }

  lemma {:induction false} LowHighListed(rom: seq<nat>)
    requires rom != []
    ensures Low(rom) in rom && High(rom) in rom
  {
    var n := |rom| - 1;
    if n > 0 {
      LowHighListed(rom[..n]);
      assert rom == rom[..n] + [rom[n]];
    }
  }

  // NULL, a block of the heap, or a listed ROM pointer.
  ghost predicate Compressible(c: Codec, h: Heap, p: nat) {
    p == NULL || p in c.rom || exists i: nat :: OwnedBy(h, i, p)
  }

  // The codec serves this heap, and the ROM objects lie outside its buffer.
  ghost predicate Serves(c: Codec, h: Heap) {
    && c.base == h.base
    && forall p :: p in c.rom ==> p < h.base || h.base + |h.mem| <= p
  }

  // The highest block lies below the first ROM code, and the ROM range does not
  // span the buffer; without blocks nothing has to fit.
  predicate PoolFits(c: Codec, h: Heap) {
    var top := TopBlock(h.slabs);
    top == NULL ||
    (top < h.base + 4 * (PoolCodes(c) - 1) && !(c.useRom && Low(c.rom) < h.base && h.base + |h.mem| <= High(c.rom)))
  }

  // Every block is aligned, and either outside the ROM range, or inside it
  // together with the whole buffer.
  lemma BlockIsCompressed(c: Codec, h: Heap, i: nat, p: nat)
    requires CodecOk(c) && Inv(h) && Serves(c, h) && OwnedBy(h, i, p)
    ensures h.base <= p < ADDRESS_LIMIT && p <= TopBlock(h.slabs)
    ensures RoundTrips(c, p) <==>
      !(c.useRom && Low(c.rom) < h.base && h.base + |h.mem| <= High(c.rom)) && p < h.base + 4 * (PoolCodes(c) - 1)
  {
    var k :| 0 <= k < h.slabs[i].count && p == h.slabs[i].Block(k);
    BlockInside(h.base, h.slabs, |h.mem|, i, p);
    BlockAligned(h.base, h.slabs, |h.mem|, i, k);
    TopBlockIsHighest(h.base, h.slabs, |h.mem|, |h.slabs|, i, p);
    assert h.slabs[..|h.slabs|] == h.slabs;
    PoolRoundTripsExactly(c, p);
    if c.rom != [] { LowHighListed(c.rom); }
  }

  // NULL, all blocks and all listed ROM pointers survive compression if and only
  // if the pool fits.
  lemma CompressedRoundTrip(c: Codec, h: Heap)
    requires CodecOk(c) && Inv(h) && Serves(c, h)
    ensures PoolFits(c, h) <==> forall p: nat :: Compressible(c, h, p) ==> p < ADDRESS_LIMIT && RoundTrips(c, p)
  {
    forall p: nat | PoolFits(c, h) && Compressible(c, h, p) ensures p < ADDRESS_LIMIT && RoundTrips(c, p) {
      if p in c.rom {
        var k :| 0 <= k < |c.rom| && c.rom[k] == p;
        RomRoundTrips(c, k);
      } else if p != NULL {
        var i: nat :| OwnedBy(h, i, p);
        BlockIsCompressed(c, h, i, p);
      }
    }
    if !PoolFits(c, h) {
      var i := TopBlockIsBlock(h.slabs);
      assert OwnedBy(h, i, TopBlock(h.slabs));
      BlockIsCompressed(c, h, i, TopBlock(h.slabs));
      assert Compressible(c, h, TopBlock(h.slabs));
    }
  }

  // Then compression is injective, and only NULL compresses to 0.
  lemma CompressedInjective(c: Codec, h: Heap, p: nat, q: nat)
    requires CodecOk(c) && Inv(h) && Serves(c, h) && PoolFits(c, h) && Compressible(c, h, p) && Compressible(c, h, q)
    ensures p < ADDRESS_LIMIT && q < ADDRESS_LIMIT
    ensures Enc16(c, p) < U16 && (Enc16(c, p) == Enc16(c, q) ==> p == q)
    ensures Enc16(c, p) == 0 <==> p == NULL
  {
    CompressedRoundTrip(c, h);
  }

  const OVERSIZED: nat := 8 * 32769

  lemma OversizedPool(base: nat, slabs: seq<Slab>)
    requires Provisioned([PoolConfig(8, 0, OVERSIZED)], base, OVERSIZED, slabs)
    ensures |slabs| == 1 && slabs[0].start == base && slabs[0].size == 8 && 32769 <= slabs[0].count
  {
    var configs := [PoolConfig(8, 0, OVERSIZED)];
    var t: real, states: seq<PoolState> :|
      NearBest(configs, OVERSIZED, t) && CountsAre(configs, OVERSIZED, t, states) && slabs == Carve(base, states);
    assert CountAt(configs[0], t) == 32769;
    CarveAt(base, states, 0);
  }

  lemma WrapsAround(base: nat)
    requires 4 <= base && base + OVERSIZED < ADDRESS_LIMIT
    ensures Enc16(Codec(base, false, []), base + 8 * 32768) == 1
  {
    assert base + 8 * 32768 + ADDRESS_LIMIT - (base - 4) == ADDRESS_LIMIT + 4 * 65537;
  }

  // Nothing stops initialisation from carving one block too many. Without ROM
  // pointers the codes reach 65535 words, and block 32768 of a pool of 8-byte
  // blocks begins at word 65537: it decodes to the first block.
  lemma OversizedPoolFails(base: nat, slabs: seq<Slab>)
    requires 4 <= base && base % 4 == 0 && base + OVERSIZED < ADDRESS_LIMIT
    requires Provisioned([PoolConfig(8, 0, OVERSIZED)], base, OVERSIZED, slabs)
    ensures var c, p := Codec(base, false, []), base + 8 * 32768;
      && CodecOk(c) && |slabs| == 1 && IsBlock(slabs[0], p)
      && Dec16(c, Enc16(c, p)) == Pointer(base) && !RoundTrips(c, p)
  {
    OversizedPool(base, slabs);
    BlockClosedForm(slabs[0], 32768);
    WrapsAround(base);
  }

  // And initialisation succeeds with that configuration.
  lemma OversizedPoolIsGood()
    ensures Good([PoolConfig(8, 0, OVERSIZED)], OVERSIZED, 0.0)
  {
    var configs := [PoolConfig(8, 0, OVERSIZED)];
    assert CountAt(configs[0], 0.0) == 32769;
    assert TotalAt(configs, 0, 0.0) == 0;
  }
}
