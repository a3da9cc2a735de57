/** MD5 of a whole message, as defined in RFC 1321. */
module Md5Spec {
  import opened Bytes
  import opened Padding
  import opened Words

  datatype Regs = Regs(a: bv32, b: bv32, c: bv32, d: bv32)

  // Section 3.4

  function F(x: bv32, y: bv32, z: bv32): bv32 { (x & y) | (!x & z) }

  function G(x: bv32, y: bv32, z: bv32): bv32 { (x & z) | (y & !z) }

  function H(x: bv32, y: bv32, z: bv32): bv32 { x ^ y ^ z }

  function I(x: bv32, y: bv32, z: bv32): bv32 { y ^ (x | !z) }

  /** The integer part of 4294967296 times abs(sin(i + 1)). */
  function T(i: nat): bv32
    requires i < 64
  {
    (match i / 8
     case 0 => [0xd76aa478, 0xe8c7b756, 0x242070db, 0xc1bdceee, 0xf57c0faf, 0x4787c62a, 0xa8304613, 0xfd469501]
     case 1 => [0x698098d8, 0x8b44f7af, 0xffff5bb1, 0x895cd7be, 0x6b901122, 0xfd987193, 0xa679438e, 0x49b40821]
     case 2 => [0xf61e2562, 0xc040b340, 0x265e5a51, 0xe9b6c7aa, 0xd62f105d, 0x02441453, 0xd8a1e681, 0xe7d3fbc8]
     case 3 => [0x21e1cde6, 0xc33707d6, 0xf4d50d87, 0x455a14ed, 0xa9e3e905, 0xfcefa3f8, 0x676f02d9, 0x8d2a4c8a]
     case 4 => [0xfffa3942, 0x8771f681, 0x6d9d6122, 0xfde5380c, 0xa4beea44, 0x4bdecfa9, 0xf6bb4b60, 0xbebfbc70]
     case 5 => [0x289b7ec6, 0xeaa127fa, 0xd4ef3085, 0x04881d05, 0xd9d4d039, 0xe6db99e5, 0x1fa27cf8, 0xc4ac5665]
     case 6 => [0xf4292244, 0x432aff97, 0xab9423a7, 0xfc93a039, 0x655b59c3, 0x8f0ccc92, 0xffeff47d, 0x85845dd1]
     case _ => [0x6fa87e4f, 0xfe2ce6e0, 0xa3014314, 0x4e0811a1, 0xf7537e82, 0xbd3af235, 0x2ad7d2bb, 0xeb86d391])[i % 8]
  }

  /** Which word of the block operation `i` takes, and how far it rotates. */
  function Index(i: nat): (k: nat)
    requires i < 64
    ensures k < 16
  {
    if i < 16 then i
    else if i < 32 then (1 + 5 * (i - 16)) % 16
    else if i < 48 then (5 + 3 * (i - 32)) % 16
    else 7 * (i - 48) % 16
  }

  function Shift(i: nat): nat
    requires i < 64
  {
    var j := i % 4;
    if i < 16 then if j == 0 then 7 else if j == 1 then 12 else if j == 2 then 17 else 22
    else if i < 32 then if j == 0 then 5 else if j == 1 then 9 else if j == 2 then 14 else 20
    else if i < 48 then if j == 0 then 4 else if j == 1 then 11 else if j == 2 then 16 else 23
    else if j == 0 then 6 else if j == 1 then 10 else if j == 2 then 15 else 21
  }

  lemma ConstantsTo16()
    ensures T(0) == 0xd76aa478 && T(1) == 0xe8c7b756 && T(2) == 0x242070db && T(3) == 0xc1bdceee
    ensures T(4) == 0xf57c0faf && T(5) == 0x4787c62a && T(6) == 0xa8304613 && T(7) == 0xfd469501
    ensures T(8) == 0x698098d8 && T(9) == 0x8b44f7af && T(10) == 0xffff5bb1 && T(11) == 0x895cd7be
    ensures T(12) == 0x6b901122 && T(13) == 0xfd987193 && T(14) == 0xa679438e && T(15) == 0x49b40821
  {
  }

  lemma ConstantsTo32()
    ensures T(16) == 0xf61e2562 && T(17) == 0xc040b340 && T(18) == 0x265e5a51 && T(19) == 0xe9b6c7aa
    ensures T(20) == 0xd62f105d && T(21) == 0x02441453 && T(22) == 0xd8a1e681 && T(23) == 0xe7d3fbc8
    ensures T(24) == 0x21e1cde6 && T(25) == 0xc33707d6 && T(26) == 0xf4d50d87 && T(27) == 0x455a14ed
    ensures T(28) == 0xa9e3e905 && T(29) == 0xfcefa3f8 && T(30) == 0x676f02d9 && T(31) == 0x8d2a4c8a
  {
  }

  lemma ConstantsTo48()
    ensures T(32) == 0xfffa3942 && T(33) == 0x8771f681 && T(34) == 0x6d9d6122 && T(35) == 0xfde5380c
    ensures T(36) == 0xa4beea44 && T(37) == 0x4bdecfa9 && T(38) == 0xf6bb4b60 && T(39) == 0xbebfbc70
    ensures T(40) == 0x289b7ec6 && T(41) == 0xeaa127fa && T(42) == 0xd4ef3085 && T(43) == 0x04881d05
    ensures T(44) == 0xd9d4d039 && T(45) == 0xe6db99e5 && T(46) == 0x1fa27cf8 && T(47) == 0xc4ac5665
  {
  }

  lemma ConstantsTo64()
    ensures T(48) == 0xf4292244 && T(49) == 0x432aff97 && T(50) == 0xab9423a7 && T(51) == 0xfc93a039
    ensures T(52) == 0x655b59c3 && T(53) == 0x8f0ccc92 && T(54) == 0xffeff47d && T(55) == 0x85845dd1
    ensures T(56) == 0x6fa87e4f && T(57) == 0xfe2ce6e0 && T(58) == 0xa3014314 && T(59) == 0x4e0811a1
    ensures T(60) == 0xf7537e82 && T(61) == 0xbd3af235 && T(62) == 0x2ad7d2bb && T(63) == 0xeb86d391
  {
  }

  lemma PlacesTo16()
    ensures Index(0) == 0 && Index(1) == 1 && Index(2) == 2 && Index(3) == 3
    ensures Index(4) == 4 && Index(5) == 5 && Index(6) == 6 && Index(7) == 7
    ensures Index(8) == 8 && Index(9) == 9 && Index(10) == 10 && Index(11) == 11
    ensures Index(12) == 12 && Index(13) == 13 && Index(14) == 14 && Index(15) == 15
    ensures Shift(0) == 7 && Shift(1) == 12 && Shift(2) == 17 && Shift(3) == 22
    ensures Shift(4) == 7 && Shift(5) == 12 && Shift(6) == 17 && Shift(7) == 22
    ensures Shift(8) == 7 && Shift(9) == 12 && Shift(10) == 17 && Shift(11) == 22
    ensures Shift(12) == 7 && Shift(13) == 12 && Shift(14) == 17 && Shift(15) == 22
  {
  }

  lemma PlacesTo32()
    ensures Index(16) == 1 && Index(17) == 6 && Index(18) == 11 && Index(19) == 0
    ensures Index(20) == 5 && Index(21) == 10 && Index(22) == 15 && Index(23) == 4
    ensures Index(24) == 9 && Index(25) == 14 && Index(26) == 3 && Index(27) == 8
    ensures Index(28) == 13 && Index(29) == 2 && Index(30) == 7 && Index(31) == 12
    ensures Shift(16) == 5 && Shift(17) == 9 && Shift(18) == 14 && Shift(19) == 20
    ensures Shift(20) == 5 && Shift(21) == 9 && Shift(22) == 14 && Shift(23) == 20
    ensures Shift(24) == 5 && Shift(25) == 9 && Shift(26) == 14 && Shift(27) == 20
    ensures Shift(28) == 5 && Shift(29) == 9 && Shift(30) == 14 && Shift(31) == 20
  {
  }

  lemma PlacesTo48()
    ensures Index(32) == 5 && Index(33) == 8 && Index(34) == 11 && Index(35) == 14
    ensures Index(36) == 1 && Index(37) == 4 && Index(38) == 7 && Index(39) == 10
    ensures Index(40) == 13 && Index(41) == 0 && Index(42) == 3 && Index(43) == 6
    ensures Index(44) == 9 && Index(45) == 12 && Index(46) == 15 && Index(47) == 2
    ensures Shift(32) == 4 && Shift(33) == 11 && Shift(34) == 16 && Shift(35) == 23
    ensures Shift(36) == 4 && Shift(37) == 11 && Shift(38) == 16 && Shift(39) == 23
    ensures Shift(40) == 4 && Shift(41) == 11 && Shift(42) == 16 && Shift(43) == 23
    ensures Shift(44) == 4 && Shift(45) == 11 && Shift(46) == 16 && Shift(47) == 23
  {
  }

  lemma PlacesTo64()
    ensures Index(48) == 0 && Index(49) == 7 && Index(50) == 14 && Index(51) == 5
    ensures Index(52) == 12 && Index(53) == 3 && Index(54) == 10 && Index(55) == 1
    ensures Index(56) == 8 && Index(57) == 15 && Index(58) == 6 && Index(59) == 13
    ensures Index(60) == 4 && Index(61) == 11 && Index(62) == 2 && Index(63) == 9
    ensures Shift(48) == 6 && Shift(49) == 10 && Shift(50) == 15 && Shift(51) == 21
    ensures Shift(52) == 6 && Shift(53) == 10 && Shift(54) == 15 && Shift(55) == 21
    ensures Shift(56) == 6 && Shift(57) == 10 && Shift(58) == 15 && Shift(59) == 21
    ensures Shift(60) == 6 && Shift(61) == 10 && Shift(62) == 15 && Shift(63) == 21
  {
  }

  function Mix(i: nat, x: bv32, y: bv32, z: bv32): bv32
  {
    if i < 16 then F(x, y, z) else if i < 32 then G(x, y, z) else if i < 48 then H(x, y, z) else I(x, y, z)
  }

  function X(block: seq<byte>, k: nat): bv32
    requires |block| == 64 && k < 16
  {
    FromLE32(block, 4 * k)
  }

  function Rotate(x: bv32, s: nat): bv32
    requires s < 32
  {
    x.RotateLeft(s)
  }

  /** a = b + ((a + f(b,c,d) + x + t) <<< s) */
  function NewA(a: bv32, b: bv32, f: bv32, x: bv32, t: bv32, s: nat): bv32
    requires s < 32
  {
    Add(b, Rotate(Add(Add(Add(a, f), x), t), s))
  }

  /** One operation. The registers swap their roles: the next operation computes what is D now. */
  function Op(r: Regs, block: seq<byte>, i: nat): Regs
    requires |block| == 64 && i < 64
  {
    Regs(r.d, NewA(r.a, r.b, Mix(i, r.b, r.c, r.d), X(block, Index(i)), T(i), Shift(i)), r.b, r.c)
  }

  function Ops(r: Regs, block: seq<byte>, i: nat): Regs
    requires |block| == 64 && i <= 64
  {
    if i == 0 then r else Op(Ops(r, block, i - 1), block, i - 1)
  }

  /** After four operations every register has its role back. */
  lemma Four(r: Regs, block: seq<byte>, i: nat)
    requires |block| == 64 && i + 4 <= 64
    ensures Ops(r, block, i + 4)
         == Op(Op(Op(Op(Ops(r, block, i), block, i), block, i + 1), block, i + 2), block, i + 3)
  {
    hide Op;
    assert Ops(r, block, i + 2) == Op(Ops(r, block, i + 1), block, i + 1);
    assert Ops(r, block, i + 3) == Op(Ops(r, block, i + 2), block, i + 2);
  }

  function Sum(r: Regs, s: Regs): Regs
  {
    Regs(Add(r.a, s.a), Add(r.b, s.b), Add(r.c, s.c), Add(r.d, s.d))
  }

  function Compress(r: Regs, block: seq<byte>): Regs
    requires |block| == 64
  {
    Sum(Ops(r, block, 64), r)
  }

  /** The registers after the blocks of `data`. */
  function Blocks(r: Regs, data: seq<byte>): Regs
    requires |data| % 64 == 0
    decreases |data|
  {
    if data == [] then r else Compress(Blocks(r, data[..|data| - 64]), data[|data| - 64..])
  }

  lemma {:induction false} BlocksConcat(r: Regs, x: seq<byte>, y: seq<byte>)
    requires |x| % 64 == 0 && |y| % 64 == 0
    ensures Blocks(r, x + y) == Blocks(Blocks(r, x), y)
    decreases |y|
  {
    hide Compress;
    if y == [] {
      assert x + y == x;
    } else {
      var y' := y[..|y| - 64];
      BlocksConcat(r, x, y');
      assert (x + y)[..|x + y| - 64] == x + y' && (x + y)[|x + y| - 64..] == y[|y| - 64..];
    }
  }

  // Sections 3.1 to 3.3 and 3.5

  const INIT := Regs(0x67452301, 0xefcdab89, 0x98badcfe, 0x10325476)

  function Pad(m: seq<byte>): seq<byte>
  {
    m + Filler(|m|) + LE64(U64(8 * |m|))
  }

  lemma PadLength(m: seq<byte>)
    ensures |Pad(m)| % 64 == 0
  {
    hide LE64, U64, Zeros;
    CountToBoundary(|m|);
    assert |Pad(m)| == |m| + 9 + ZeroCount(|m|);
  }

  /** The message, a one bit, zeros, and in the last eight bytes the length, in the fewest blocks that
      hold them. */
  lemma PadShape(m: seq<byte>)
    ensures var p, n := Pad(m), |m|;
      && |p| % 64 == 0 && n + 9 <= |p| < n + 73
      && p[..n] == m && p[n] == 0x80 && p[|p| - 8..] == LE64(U64(8 * n))
      && forall i :: n < i < |p| - 8 ==> p[i] == 0
  {
    hide LE64, U64;
    PadLength(m);
    FewestZeros(|m|);
  }

  function Digest(r: Regs): seq<byte> { LE32(r.a) + LE32(r.b) + LE32(r.c) + LE32(r.d) }

  function Md5(m: seq<byte>): seq<byte>
  {
    PadLength(m);
    Digest(Blocks(INIT, Pad(m)))
  }
}
