// The caller's buffer as raw bytes, and pointers overlaid on it.
//
// duk_alloc_pool.c keeps its free lists inside the free blocks themselves: the
// first sizeof(void *) bytes of a free block hold the address of the next one.
// Everything in this module is about offsets into one buffer.
module RawMemory {
  import opened Octets

  // sizeof(void *) on a 64-bit target.
  const PTR_SIZE: nat := 8

  const NULL: nat := 0

  // One past the largest address.
  const ADDRESS_LIMIT: nat := 0x1_0000_0000_0000_0000

  function Pow256(n: nat): (r: nat)
    ensures r > 0
  {
    if n == 0 then 1 else 256 * Pow256(n - 1)
  }

  // Byte k of a pointer value, least significant first.
  function PtrByte(v: nat, k: nat): Byte {
    if k == 0 then v % 256 else PtrByte(v / 256, k - 1)
  }

  function PtrBytes(v: nat, n: nat): (s: seq<Byte>)
    ensures |s| == n
  {
    seq(n, k requires 0 <= k < n => PtrByte(v, k))
  }

  function BytesPtr(s: seq<Byte>): nat {
    if s == [] then 0 else s[0] + 256 * BytesPtr(s[1..])
  }

  lemma {:induction false} PtrRoundTrip(v: nat, n: nat)
    requires v < Pow256(n)
    ensures BytesPtr(PtrBytes(v, n)) == v
  {
    if n > 0 {
      PtrRoundTrip(v / 256, n - 1);
      var s := PtrBytes(v, n);
      assert s[1..] == PtrBytes(v / 256, n - 1);
      assert s[0] == v % 256;
    }
  }

  function LoadPtr(mem: seq<Byte>, o: nat): nat
    requires o + PTR_SIZE <= |mem|
  {
    BytesPtr(mem[o..o + PTR_SIZE])
  }

  // The buffer with the bytes of s stored from offset o on, one after another.
  function Overwrite(mem: seq<Byte>, o: nat, s: seq<Byte>): (r: seq<Byte>)
    requires o + |s| <= |mem|
    ensures |r| == |mem|
    decreases |s|
  {
    if s == [] then mem else Overwrite(mem[o := s[0]], o + 1, s[1..])
  }

  lemma {:induction false} OverwriteAt(mem: seq<Byte>, o: nat, s: seq<Byte>)
    requires o + |s| <= |mem|
    ensures forall k :: 0 <= k < |mem| ==>
      Overwrite(mem, o, s)[k] == if o <= k < o + |s| then s[k - o] else mem[k]
    decreases |s|
  {
    if s != [] { OverwriteAt(mem[o := s[0]], o + 1, s[1..]); }
  }

  function StorePtr(mem: seq<Byte>, o: nat, v: nat): (r: seq<Byte>)
    requires o + PTR_SIZE <= |mem|
    ensures |r| == |mem|
  {
    Overwrite(mem, o, PtrBytes(v, PTR_SIZE))
  }

  // memcpy: the two ranges may not overlap.
  function CopyBytes(mem: seq<Byte>, dst: nat, src: nat, n: nat): (r: seq<Byte>)
    requires dst + n <= |mem| && src + n <= |mem|
    ensures |r| == |mem|
  {
    Overwrite(mem, dst, mem[src..src + n])
  }

  lemma OverwriteFrame(mem: seq<Byte>, o: nat, s: seq<Byte>, a: nat, b: nat)
    requires o + |s| <= |mem|
    requires a <= b <= |mem|
    requires b <= o || o + |s| <= a
    ensures Overwrite(mem, o, s)[a..b] == mem[a..b]
  {
    OverwriteAt(mem, o, s);
  }

  lemma OverwriteLands(mem: seq<Byte>, o: nat, s: seq<Byte>)
    requires o + |s| <= |mem|
    ensures Overwrite(mem, o, s)[o..o + |s|] == s
  {
    OverwriteAt(mem, o, s);
  }

  lemma LoadUntouched(mem: seq<Byte>, o: nat, s: seq<Byte>, q: nat)
    requires o + |s| <= |mem|
    requires q + PTR_SIZE <= |mem|
    requires q + PTR_SIZE <= o || o + |s| <= q
    ensures LoadPtr(Overwrite(mem, o, s), q) == LoadPtr(mem, q)
  {
    OverwriteFrame(mem, o, s, q, q + PTR_SIZE);
  }

  lemma LoadAfterStore(mem: seq<Byte>, o: nat, v: nat)
    requires o + PTR_SIZE <= |mem|
    requires v < ADDRESS_LIMIT
    ensures LoadPtr(StorePtr(mem, o, v), o) == v
  {
    assert Pow256(PTR_SIZE) == ADDRESS_LIMIT;
    PtrRoundTrip(v, PTR_SIZE);
    OverwriteLands(mem, o, PtrBytes(v, PTR_SIZE));
  }

  // ((duk_pool_free *) p)->next = v, where p is o bytes into the buffer.
  method StoreLink(buffer: array<Byte>, o: nat, v: nat)
    requires o + PTR_SIZE <= buffer.Length
    modifies buffer
    ensures buffer[..] == StorePtr(old(buffer[..]), o, v)
  {
    for k := 0 to PTR_SIZE
      invariant forall x :: 0 <= x < buffer.Length ==>
        buffer[x] == if o <= x < o + k then PtrByte(v, x - o) else old(buffer[x])
    {
      buffer[o + k] := PtrByte(v, k);
    }
    OverwriteAt(old(buffer[..]), o, PtrBytes(v, PTR_SIZE));
  }

  // memcpy, whose two ranges may not overlap.
  method Memcpy(buffer: array<Byte>, dst: nat, src: nat, n: nat)
    requires dst + n <= buffer.Length && src + n <= buffer.Length
    requires dst + n <= src || src + n <= dst
    modifies buffer
    ensures buffer[..] == CopyBytes(old(buffer[..]), dst, src, n)
  {
    for k := 0 to n
      invariant forall x :: 0 <= x < buffer.Length ==>
        buffer[x] == if dst <= x < dst + k then old(buffer[x - dst + src]) else old(buffer[x])
    {
      buffer[dst + k] := buffer[src + k];
    }
    OverwriteAt(old(buffer[..]), dst, old(buffer[..])[src..src + n]);
  }

  // A client stores s from offset o on.
  method StoreBytes(buffer: array<Byte>, o: nat, s: seq<Byte>)
    requires o + |s| <= buffer.Length
    modifies buffer
    ensures buffer[..] == Overwrite(old(buffer[..]), o, s)
  {
    for k := 0 to |s|
      invariant forall x :: 0 <= x < buffer.Length ==>
        buffer[x] == if o <= x < o + k then s[x - o] else old(buffer[x])
    {
      buffer[o + k] := s[k];
    }
    OverwriteAt(old(buffer[..]), o, s);
  }
}
