/** The padding that MD5 and SHA-256 share: a one bit, and zeros up to 448 modulo 512 bits. */
module Padding {
  import opened Bytes

  function ZeroCount(n: nat): nat { (119 - n % 64) % 64 }

  function Zeros(n: nat): (z: seq<byte>)
    ensures |z| == n && forall i :: 0 <= i < n ==> z[i] == 0
  {
    if n == 0 then [] else Zeros(n - 1) + [0]
  }

  function Filler(n: nat): seq<byte> { [0x80] + Zeros(ZeroCount(n)) }

  /** With eight more bytes for the length, the message ends at a block boundary. */
  lemma CountToBoundary(n: nat)
    ensures (n + 9 + ZeroCount(n)) % 64 == 0
  {
    var q, r := n / 64, n % 64;
    assert n == 64 * q + r;
    assert r + 9 + ZeroCount(n) == if r <= 55 then 64 else 128;
  }

  lemma FewestZeros(n: nat)
    ensures ZeroCount(n) < 64
  {
  }

  lemma SplitFront(m: seq<byte>, done: nat, x: seq<byte>, y: seq<byte>)
    requires done <= |m|
    ensures m + x + y == m[..done] + (m[done..] + x + y)
  {
  }
}
