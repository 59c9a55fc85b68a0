/** Bytes, as small numbers where their values matter and as bit patterns where they are only copied. */
module Bytes {
  type Byte = x: int | 0 <= x < 256

  type Raw = bv8

  function Repeat<T>(n: nat, x: T): (s: seq<T>)
    ensures |s| == n && forall k :: 0 <= k < n ==> s[k] == x
  {
    if n == 0 then [] else Repeat(n - 1, x) + [x]
  }

  function Zeros(n: nat): (z: seq<Byte>)
    ensures |z| == n && forall i :: 0 <= i < n ==> z[i] == 0
  {
    if n == 0 then [] else Zeros(n - 1) + [0]
  }
}
