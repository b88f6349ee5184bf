/** Bytes as small integers, for the formats that do arithmetic on them. */
module Bytes {
  type Byte = x: int | 0 <= x < 256

  /** memmove within a buffer. */
  function Move(s: seq<Byte>, dst: nat, src: nat, n: nat): (r: seq<Byte>)
    requires dst + n <= |s| && src + n <= |s|
    ensures |r| == |s|
  {
    s[..dst] + s[src..src + n] + s[dst + n..]
  }
}
