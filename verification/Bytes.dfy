/** Bytes, the control codes the parsers look at, and a few facts on sequences. */
module Bytes {

  type byte = b: int | 0 <= b < 256

  const HT: byte := 9
  const LF: byte := 10
  const CR: byte := 13
  const SP: byte := 32
  const DEL: byte := 127

  /** `n` copies of `b`. */
  function Repeat(b: byte, n: nat): (r: seq<byte>)
    ensures |r| == n && forall k :: 0 <= k < n ==> r[k] == b
  {
    seq(n, _ => b)
  }

  predicate All(p: byte -> bool, s: seq<byte>) {
    forall k :: 0 <= k < |s| ==> p(s[k])
  }
}
