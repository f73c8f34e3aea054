/** Bytes and NUL-terminated strings in memory. */
module Bytes {

  predicate IsByte(b: nat) { b < 256 }

  predicate AllBytes(s: seq<nat>) {
    forall i :: 0 <= i < |s| ==> IsByte(s[i])
  }

  /** Byte k of a 32-bit word in memory: the lowest comes first. */
  function LittleEndian(w: nat, k: nat): (b: nat)
    ensures b < 256
  {
    w / (if k == 0 then 1 else if k == 1 then 0x100 else if k == 2 then 0x1_0000 else 0x100_0000) % 0x100
  }

  /** The string at a pointer: the bytes before the first NUL. */
  function UpToNul(s: seq<nat>): (r: seq<nat>)
    requires 0 in s
    ensures |r| < |s| && s[|r|] == 0 && r == s[..|r|] && 0 !in r
  {
    if s[0] == 0 then [] else [s[0]] + UpToNul(s[1..])
  }
}
