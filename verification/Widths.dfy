// The integer widths of C on a 64-bit target, and what several modules share.
module Widths {

  // One past the largest unsigned int, and the largest int.
  const UINT_LIMIT: nat := 0x1_0000_0000
  const INT_MAX: nat := 0x7fff_ffff

  type UInt = x: nat | x < UINT_LIMIT

  function Min(a: nat, b: nat): nat {
    if a < b then a else b
  }

  ghost predicate Distinct<T>(s: seq<T>) {
    forall k, l :: 0 <= k < l < |s| ==> s[k] != s[l]
  }

  // ------------------------------------------------- products and quotients

  lemma LargeMultiple(m: int, d: nat)
    requires m != 0
    ensures d <= m * d || m * d + d <= 0
  {
  }

  lemma SmallMultiple(m: int, d: nat)
    requires 0 <= m * d < d
    ensures m == 0
  {
    if m != 0 { LargeMultiple(m, d); }
  }

  lemma QuotientOfMultiple(x: nat, d: nat, q: nat)
    requires d > 0 && x == q * d
    ensures x / d == q && x % d == 0
  {
    assert (q - x / d) * d == q * d - x / d * d;
    SmallMultiple(q - x / d, d);
  }

  lemma ProductStep(m: nat, n: nat, d: nat)
    requires m < n
    ensures m * d + d <= n * d
  {
    var k := n - m - 1;
    assert n * d == (m + 1 + k) * d == m * d + d + k * d;
  }

  lemma QuotientBound(n: nat, m: nat, d: nat)
    requires d > 0 && n * d <= m * d
    ensures n <= m
  {
    if n > m { ProductStep(m, n, d); }
  }
}
