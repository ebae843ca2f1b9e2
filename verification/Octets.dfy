// Bytes, and text as C sees it.
module Octets {

  type Byte = x: int | 0 <= x < 256

  // The part of s before the first NUL.
  function Cut(s: seq<Byte>): (r: seq<Byte>)
    ensures 0 !in r
    ensures r <= s && (|r| < |s| ==> s[|r|] == 0)
  {
    if s == [] || s[0] == 0 then [] else [s[0]] + Cut(s[1..])
  }
}
