/** SHA-256 of a whole message, as defined in FIPS 180-2. */
module Sha256Spec {
  import opened Bytes
  import opened Padding
  import opened Words

  datatype Hash = Hash(a: bv32, b: bv32, c: bv32, d: bv32, e: bv32, f: bv32, g: bv32, h: bv32)

  // Section 4.1.2

  function Ch(x: bv32, y: bv32, z: bv32): bv32 { (x & y) ^ ((!x) & z) }

  function Maj(x: bv32, y: bv32, z: bv32): bv32 { (x & y) ^ (x & z) ^ (y & z) }

  function BigSigma0(x: bv32): bv32 { x.RotateRight(2) ^ x.RotateRight(13) ^ x.RotateRight(22) }

  function BigSigma1(x: bv32): bv32 { x.RotateRight(6) ^ x.RotateRight(11) ^ x.RotateRight(25) }

  function SmallSigma0(x: bv32): bv32 { x.RotateRight(7) ^ x.RotateRight(18) ^ (x >> 3) }

  function SmallSigma1(x: bv32): bv32 { x.RotateRight(17) ^ x.RotateRight(19) ^ (x >> 10) }

  // Section 4.2.2

  /** The first 32 bits of the fractional parts of the cube roots of the first 64 primes. */
  function K(t: nat): bv32
    requires t < 64
  {
    (match t / 8
     case 0 => [0x428a2f98, 0x71374491, 0xb5c0fbcf, 0xe9b5dba5, 0x3956c25b, 0x59f111f1, 0x923f82a4, 0xab1c5ed5]
     case 1 => [0xd807aa98, 0x12835b01, 0x243185be, 0x550c7dc3, 0x72be5d74, 0x80deb1fe, 0x9bdc06a7, 0xc19bf174]
     case 2 => [0xe49b69c1, 0xefbe4786, 0x0fc19dc6, 0x240ca1cc, 0x2de92c6f, 0x4a7484aa, 0x5cb0a9dc, 0x76f988da]
     case 3 => [0x983e5152, 0xa831c66d, 0xb00327c8, 0xbf597fc7, 0xc6e00bf3, 0xd5a79147, 0x06ca6351, 0x14292967]
     case 4 => [0x27b70a85, 0x2e1b2138, 0x4d2c6dfc, 0x53380d13, 0x650a7354, 0x766a0abb, 0x81c2c92e, 0x92722c85]
     case 5 => [0xa2bfe8a1, 0xa81a664b, 0xc24b8b70, 0xc76c51a3, 0xd192e819, 0xd6990624, 0xf40e3585, 0x106aa070]
     case 6 => [0x19a4c116, 0x1e376c08, 0x2748774c, 0x34b0bcb5, 0x391c0cb3, 0x4ed8aa4a, 0x5b9cca4f, 0x682e6ff3]
     case _ => [0x748f82ee, 0x78a5636f, 0x84c87814, 0x8cc70208, 0x90befffa, 0xa4506ceb, 0xbef9a3f7, 0xc67178f2])[t % 8]
  }

  // Section 5.1.1: a one bit, zeros up to 448 modulo 512 bits, and the length in bits

  function Pad(m: seq<byte>): seq<byte>
  {
    m + Filler(|m|) + BE64(U64(8 * |m|))
  }

  lemma PadLength(m: seq<byte>)
    ensures |Pad(m)| % 64 == 0
  {
    hide BE64, U64, Zeros;
    CountToBoundary(|m|);
    assert |Pad(m)| == |m| + 9 + ZeroCount(|m|);
  }

  /** The message, a one bit, zeros, and in the last eight bytes the length, in the fewest blocks that
      hold them. */
  lemma PadShape(m: seq<byte>)
    ensures var p, n := Pad(m), |m|;
      && |p| % 64 == 0 && n + 9 <= |p| < n + 73
      && p[..n] == m && p[n] == 0x80 && p[|p| - 8..] == BE64(U64(8 * n))
      && forall i :: n < i < |p| - 8 ==> p[i] == 0
  {
    hide BE64, U64;
    PadLength(m);
    FewestZeros(|m|);
  }

  // Section 5.3.2

  /** The same of the square roots of the first eight. */
  const H0: Hash := Hash(0x6a09e667, 0xbb67ae85, 0x3c6ef372, 0xa54ff53a,
                         0x510e527f, 0x9b05688c, 0x1f83d9ab, 0x5be0cd19)

  // Section 6.2.2

  function Expand(w2: bv32, w7: bv32, w15: bv32, w16: bv32): bv32
  {
    Add(Add(Add(SmallSigma1(w2), w7), SmallSigma0(w15)), w16)
  }

  /** The message schedule. */
  function W(block: seq<byte>, t: nat): bv32
    requires |block| == 64 && t < 64
  {
    if t < 16 then FromBE32(block, 4 * t)
    else Expand(W(block, t - 2), W(block, t - 7), W(block, t - 15), W(block, t - 16))
  }

  function Round(s: Hash, k: bv32, w: bv32): Hash
  {
    var t1 := Add(Add(Add(Add(s.h, BigSigma1(s.e)), Ch(s.e, s.f, s.g)), k), w);
    var t2 := Add(BigSigma0(s.a), Maj(s.a, s.b, s.c));
    Hash(Add(t1, t2), s.a, s.b, s.c, Add(s.d, t1), s.e, s.f, s.g)
  }

  function Rounds(s: Hash, block: seq<byte>, t: nat): Hash
    requires |block| == 64 && t <= 64
  {
    if t == 0 then s else Round(Rounds(s, block, t - 1), K(t - 1), W(block, t - 1))
  }

  function Sum(r: Hash, s: Hash): Hash
  {
    Hash(Add(r.a, s.a), Add(r.b, s.b), Add(r.c, s.c), Add(r.d, s.d),
         Add(r.e, s.e), Add(r.f, s.f), Add(r.g, s.g), Add(r.h, s.h))
  }

  function Compress(s: Hash, block: seq<byte>): Hash
    requires |block| == 64
  {
    Sum(Rounds(s, block, 64), s)
  }

  /** The hash value after the blocks of `data`. */
  function Blocks(s: Hash, data: seq<byte>): Hash
    requires |data| % 64 == 0
    decreases |data|
  {
    if data == [] then s else Compress(Blocks(s, data[..|data| - 64]), data[|data| - 64..])
  }

  lemma {:induction false} BlocksConcat(s: Hash, x: seq<byte>, y: seq<byte>)
    requires |x| % 64 == 0 && |y| % 64 == 0
    ensures Blocks(s, x + y) == Blocks(Blocks(s, x), y)
    decreases |y|
  {
    if y == [] {
      assert x + y == x;
    } else {
      var y' := y[..|y| - 64];
      BlocksConcat(s, x, y');
      assert (x + y)[..|x + y| - 64] == x + y' && (x + y)[|x + y| - 64..] == y[|y| - 64..];
      hide Compress;
    }
  }

  /** The first `n` words, most significant byte first. */
  function DigestOf(words: seq<bv32>, n: nat): seq<byte>
    requires n <= |words|
  {
    if n == 0 then [] else DigestOf(words, n - 1) + BE32(words[n - 1])
  }

  function Digest(s: Hash): seq<byte> { DigestOf([s.a, s.b, s.c, s.d, s.e, s.f, s.g, s.h], 8) }

  lemma DigestStep(words: seq<bv32>, n: nat, x: bv32)
    requires n < |words| && words[n] == x
    ensures DigestOf(words, n + 1) == DigestOf(words, n) + BE32(x)
  {
  }

  lemma DigestBytes(s: Hash)
    ensures Digest(s) == BE32(s.a) + BE32(s.b) + BE32(s.c) + BE32(s.d) + BE32(s.e) + BE32(s.f) + BE32(s.g) + BE32(s.h)
  {
    var words := [s.a, s.b, s.c, s.d, s.e, s.f, s.g, s.h];
    assert DigestOf(words, 0) == [];
    hide BE32, DigestOf;
    DigestStep(words, 0, s.a);
    DigestStep(words, 1, s.b);
    DigestStep(words, 2, s.c);
    DigestStep(words, 3, s.d);
    DigestStep(words, 4, s.e);
    DigestStep(words, 5, s.f);
    DigestStep(words, 6, s.g);
    DigestStep(words, 7, s.h);
    assert [] + BE32(s.a) == BE32(s.a);
  }

  function Sha256(m: seq<byte>): seq<byte>
  {
    PadLength(m);
    Digest(Blocks(H0, Pad(m)))
  }
}
