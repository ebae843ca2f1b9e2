// A pool in use: callers get strings and return chunks in any order, and every
// string still held reads as it was written.
module StringPoolSessions {
  import opened Octets
  import opened StringPoolModel
  import opened StringPoolLaws
  import opened StringPoolObjects

  // A caller asks for a string, or returns the chunk that call 'of' handed out.
  datatype Call = GetString(str: seq<Byte>) | Return(of: nat)

  // Call k is among the first n, it got its string, and has not returned it.
  ghost predicate HeldAfter(calls: seq<Call>, n: nat, k: nat)
    requires n <= |calls|
  {
    k < n && calls[k].GetString? && |calls[k].str| < SLICE_LIMIT && forall j :: 0 <= j < n ==> calls[j] != Return(k)
  }

  // Callers return chunks they hold.
  ghost predicate LegalCalls(calls: seq<Call>) {
    forall j :: 0 <= j < |calls| && calls[j].Return? ==> HeldAfter(calls, j, calls[j].of)
  }

  // The chunk is in use in the pool, and reads as the string with its NUL.
  ghost predicate Holds(p: Pool, c: StringPointer?, str: seq<Byte>)
    reads p, c, if c == null then {} else {c.p}
  {
    c != null && c in p.pool && c.inuse && |str| < c.p.Length && c.p[..|str|] == str && c.p[|str|] == 0
  }

  // The chunk of call k, if held after n calls, holds its string.
  ghost predicate OneHolds(p: Pool, calls: seq<Call>, n: nat, handed: seq<StringPointer?>, k: nat)
    requires n <= |calls| && n == |handed|
    reads p, p.pool, set c | c in p.pool :: c.p
  {
    HeldAfter(calls, n, k) ==> handed[k] != null && handed[k] in p.pool && Holds(p, handed[k], calls[k].str)
  }

  // No two callers share a chunk.
  ghost predicate NoneShared(calls: seq<Call>, n: nat, handed: seq<StringPointer?>)
    requires n <= |calls| && n == |handed|
  {
    forall k, l :: 0 <= k < l < n && HeldAfter(calls, n, k) && HeldAfter(calls, n, l) ==> handed[k] != handed[l]
  }

  // Every chunk handed out by the first n calls and not returned holds its
  // string, and no two callers share one.
  ghost predicate AllHold(p: Pool, calls: seq<Call>, n: nat, handed: seq<StringPointer?>)
    requires n <= |calls| && n == |handed|
    reads p, p.pool, set c | c in p.pool :: c.p
  {
    NoneShared(calls, n, handed) && forall k :: 0 <= k < n ==> OneHolds(p, calls, n, handed, k)
  }

  lemma HeldEarlier(calls: seq<Call>, n: nat, k: nat)
    requires n < |calls| && k < n && HeldAfter(calls, n + 1, k)
    ensures HeldAfter(calls, n, k) && calls[n] != Return(k)
  {
  }

  // The chunk of call k still holds its string after call n, and is not r.
  ghost predicate StillHolds(p: Pool, calls: seq<Call>, n: nat, handed: seq<StringPointer?>, r: StringPointer?, k: nat)
    requires k < n == |handed| && n < |calls|
    reads p, p.pool, set c | c in p.pool :: c.p
  {
    HeldAfter(calls, n + 1, k) ==>
      handed[k] != null && handed[k] != r && handed[k] in p.pool && Holds(p, handed[k], calls[k].str)
  }

  // One more call, which handed out r.
  lemma AllHoldNext(p: Pool, calls: seq<Call>, n: nat, handed: seq<StringPointer?>, r: StringPointer?)
    requires n < |calls| && n == |handed| && NoneShared(calls, n, handed)
    requires forall k :: 0 <= k < n ==> StillHolds(p, calls, n, handed, r, k)
    requires HeldAfter(calls, n + 1, n) ==> r != null && r in p.pool && Holds(p, r, calls[n].str)
    ensures AllHold(p, calls, n + 1, handed + [r])
  {
    var next, m := handed + [r], n + 1;
    forall k | 0 <= k < m ensures OneHolds(p, calls, m, next, k) {
      assert k < n ==> StillHolds(p, calls, n, handed, r, k);
    }
    forall k, l | 0 <= k < l < m && HeldAfter(calls, m, k) && HeldAfter(calls, m, l) ensures next[k] != next[l] {
      assert StillHolds(p, calls, n, handed, r, k);
      HeldEarlier(calls, n, k);
      if l < n { HeldEarlier(calls, n, l); }
    }
  }

  // ---------------------------------------------- chunks and their ids

  ghost predicate OneChunkPerId(pool: seq<StringPointer>) {
    forall c, d :: c in pool && d in pool && c.id == d.id ==> c == d
  }

  lemma ValidHasOneChunkPerId(p: Pool)
    requires p.Valid()
    ensures OneChunkPerId(p.pool)
  {
    forall c, d | c in p.pool && d in p.pool && c.id == d.id ensures c == d {
      var i :| 0 <= i < |p.pool| && p.pool[i] == c;
      var j :| 0 <= j < |p.pool| && p.pool[j] == d;
      assert p.pool[i].Is(p.state.slots[i]) && p.pool[j].Is(p.state.slots[j]);
    }
  }

  lemma InUseIsHeld(p: Pool, c: StringPointer)
    requires p.Valid() && c in p.pool && c.inuse
    ensures Held(p.state.slots, c.id)
  {
    var i :| 0 <= i < |p.pool| && p.pool[i] == c;
    assert p.pool[i].Is(p.state.slots[i]);
  }

  lemma HeldIsInUse(p: Pool, id: nat) returns (c: StringPointer)
    requires p.Valid() && Held(p.state.slots, id)
    ensures c in p.pool && c.id == id && c.inuse
  {
    var i :| 0 <= i < |p.state.slots| && p.state.slots[i].id == id && p.state.slots[i].inuse;
    c := p.pool[i];
    assert p.pool[i].Is(p.state.slots[i]);
  }

  // A chunk whose id is still held is still in the pool and in use.
  lemma HeldStays(p: Pool, before: seq<StringPointer>, id: nat, c: StringPointer)
    requires p.Valid() && Held(p.state.slots, c.id)
    requires OneChunkPerId(before) && c in before && c.id != id
    requires forall d :: d in p.pool ==> d in before || d.id == id
    ensures c in p.pool && c.inuse
  {
    var d := HeldIsInUse(p, c.id);
    assert d == c;
  }

  // All chunks handed out and not returned are held.
  lemma AllHeld(p: Pool, calls: seq<Call>, n: nat, handed: seq<StringPointer?>)
    requires n <= |calls| && n == |handed| && p.Valid() && AllHold(p, calls, n, handed)
    ensures OneChunkPerId(p.pool)
    ensures forall k :: 0 <= k < n && HeldAfter(calls, n, k) ==>
      handed[k] != null && handed[k] in p.pool && Held(p.state.slots, handed[k].id)
  {
    ValidHasOneChunkPerId(p);
    forall k | 0 <= k < n && HeldAfter(calls, n, k)
      ensures handed[k] != null && handed[k] in p.pool && Held(p.state.slots, handed[k].id)
    {
      assert OneHolds(p, calls, n, handed, k);
      InUseIsHeld(p, handed[k]);
    }
  }

  // A chunk held before a get is not the one handed out, and stays held.
  lemma HeldThroughGet(p: Pool, before: seq<StringPointer>, s: State, cap: nat, id: nat, c: StringPointer)
    requires Inv(s, p.limit) && cap > 0 && GetStep(s, p.limit, cap, p.state, id) && p.Valid()
    requires OneChunkPerId(before) && c in before && Held(s.slots, c.id)
    requires forall d :: d in p.pool ==> d in before || d.id == id
    ensures c.id != id && c in p.pool && c.inuse
  {
    GetIsExclusive(s, p.limit, cap, p.state, id);
    HeldStays(p, before, id, c);
  }

  // ------------------------------------------------------------ sessions

  method GetOne(p: Pool, ghost calls: seq<Call>, str: seq<Byte>, handed: seq<StringPointer?>)
    returns (r: StringPointer?)
    requires p.Valid() && |handed| < |calls| && calls[|handed|] == GetString(str)
    requires AllHold(p, calls, |handed|, handed)
    modifies p, p.pool, set c | c in p.pool :: c.p
    ensures p.Valid() && AllHold(p, calls, |handed| + 1, handed + [r])
    ensures forall c :: c in p.pool ==> c in old(p.pool) || (fresh(c) && fresh(c.p))
  {
    ghost var before, s, n := p.pool, p.state, |handed|;
    AllHeld(p, calls, n, handed);
    ghost var id;
    r, id := p.GetStringPointer(str);
    forall k | 0 <= k < n ensures StillHolds(p, calls, n, handed, r, k) {
      if HeldAfter(calls, n + 1, k) {
        HeldEarlier(calls, n, k);
        assert old(OneHolds(p, calls, n, handed, k));
        HeldThroughGet(p, before, s, |str| + 1, id, handed[k]);
      }
    }
    AllHoldNext(p, calls, n, handed, r);
  }

  method ReturnOne(p: Pool, ghost calls: seq<Call>, of: nat, handed: seq<StringPointer?>)
    requires p.Valid() && |handed| < |calls| && calls[|handed|] == Return(of) && HeldAfter(calls, |handed|, of)
    requires AllHold(p, calls, |handed|, handed)
    modifies p, p.pool
    ensures p.Valid() && AllHold(p, calls, |handed| + 1, handed + [null])
    ensures forall c :: c in p.pool ==> c in old(p.pool)
  {
    ghost var before, s, n := p.pool, p.state, |handed|;
    assert OneHolds(p, calls, n, handed, of);
    var sp := handed[of];
    AllHeld(p, calls, n, handed);
    p.FreeStringPointer(sp);
    forall k | 0 <= k < n ensures StillHolds(p, calls, n, handed, null, k) {
      if HeldAfter(calls, n + 1, k) {
        HeldEarlier(calls, n, k);
        assert old(OneHolds(p, calls, n, handed, k));
        ReleaseHeld(s, p.limit, sp.id, handed[k].id);
        HeldStays(p, before, sp.id, handed[k]);
      }
    }
    AllHoldNext(p, calls, n, handed, null);
  }

  method OneCall(p: Pool, calls: seq<Call>, handed: seq<StringPointer?>) returns (r: StringPointer?)
    requires p.Valid() && |handed| < |calls| && LegalCalls(calls) && AllHold(p, calls, |handed|, handed)
    modifies p, p.pool, set c | c in p.pool :: c.p
    ensures p.Valid() && AllHold(p, calls, |handed| + 1, handed + [r])
    ensures forall c :: c in p.pool ==> c in old(p.pool) || (fresh(c) && fresh(c.p))
  {
    match calls[|handed|]
    case GetString(str) =>
      r := GetOne(p, calls, str, handed);
    case Return(of) =>
      assert HeldAfter(calls, |handed|, of);
      ReturnOne(p, calls, of, handed);
      r := null;
  }

  // Any session from a new pool on: whatever is evicted, reused and returned in
  // between, every string still held reads as it was written.
  method Session(limit: int, calls: seq<Call>) returns (p: Pool, handed: seq<StringPointer?>)
    requires LegalCalls(calls)
    ensures p.Valid() && p.limit == limit
    ensures |handed| == |calls| && AllHold(p, calls, |calls|, handed)
  {
    p := new Pool(limit);
    handed := [];
    while |handed| < |calls|
      invariant |handed| <= |calls| && fresh(p) && p.Valid() && p.limit == limit
      invariant forall c :: c in p.pool ==> fresh(c) && fresh(c.p)
      invariant AllHold(p, calls, |handed|, handed)
      decreases |calls| - |handed|
    {
      var r := OneCall(p, calls, handed);
      handed := handed + [r];
    }
  }
}
