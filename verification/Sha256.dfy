/** 3pt/sha/sha256.c: SHA-256 of a stream of pieces, on a little-endian machine. */
module Sha256 {
  import opened Bytes
  import opened Padding
  import opened Words
  import S = Sha256Spec

  predicate Aligned(n: nat) { n % 64 == 0 }

  lemma AlignedBlock()
    ensures Aligned(64)
  {
  }

  lemma AlignedSum(a: nat, b: nat)
    requires Aligned(a) && Aligned(b)
    ensures Aligned(a + b)
  {
  }

  lemma MultipleIsAligned(q: nat)
    ensures Aligned(64 * q)
  {
  }

  /** `x & ~63` */
  function Floor64(x: nat): (r: nat)
    ensures r <= x < r + 64 && Aligned(r)
    ensures 64 < x <= 128 ==> r == if x == 128 then 128 else 64
  {
    MultipleIsAligned(x / 64);
    64 * (x / 64)
  }

  /** The `CYCLIC` macro and the ones made from it. */
  function S0(x: bv32): bv32
  {
    ((x >> 2) | (x << 30)) ^ ((x >> 13) | (x << 19)) ^ ((x >> 22) | (x << 10))
  }

  function S1(x: bv32): bv32
  {
    ((x >> 6) | (x << 26)) ^ ((x >> 11) | (x << 21)) ^ ((x >> 25) | (x << 7))
  }

  function R0(x: bv32): bv32
  {
    ((x >> 7) | (x << 25)) ^ ((x >> 18) | (x << 14)) ^ (x >> 3)
  }

  function R1(x: bv32): bv32
  {
    ((x >> 17) | (x << 15)) ^ ((x >> 19) | (x << 13)) ^ (x >> 10)
  }

  lemma MacrosAreTheStandards(x: bv32)
    ensures S0(x) == S.BigSigma0(x) && S1(x) == S.BigSigma1(x)
    ensures R0(x) == S.SmallSigma0(x) && R1(x) == S.SmallSigma1(x)
  {
  }

  /** The padding as the code lays it out behind the last `bytes` bytes of the message. */
  function PadCount(bytes: nat): nat
    requires bytes <= 64
  {
    if bytes >= 56 then 64 + 56 - bytes else 56 - bytes
  }

  function FillBuf(): (f: seq<byte>)
    ensures |f| == 64
  {
    [0x80] + Zeros(63)
  }

  lemma PadCountIsTheStandards(done: nat, n: nat)
    requires Aligned(done) && done <= n <= done + 64
    ensures var bytes := n - done;
      && 1 <= PadCount(bytes) <= 64 && ZeroCount(n) == PadCount(bytes) - 1
      && (bytes + PadCount(bytes) == 56 || bytes + PadCount(bytes) == 120)
  {
    assert n % 64 == (n - done) % 64;
  }

  lemma FillPrefix(done: nat, n: nat)
    requires Aligned(done) && done <= n <= done + 64
    ensures 1 <= PadCount(n - done) <= 64 && FillBuf()[..PadCount(n - done)] == Filler(n)
  {
    hide Zeros;
    PadCountIsTheStandards(done, n);
  }

  lemma PaddingIsTheStandards(m: seq<byte>, done: nat)
    requires Aligned(done) && done <= |m| <= done + 64
    ensures var pad := PadCount(|m| - done);
      && 1 <= pad <= 64
      && S.Pad(m) == m[..done] + (m[done..] + FillBuf()[..pad] + BE64(ToBits(U64(|m|))))
  {
    hide BE64, U64, ToBits, PadCount, Filler, FillBuf, Aligned;
    var filler, len := Filler(|m|), BE64(U64(8 * |m|));
    FillPrefix(done, |m|);
    SplitFront(m, done, filler, len);
    assert S.Pad(m) == m[..done] + (m[done..] + filler + len);
    U64Times8(|m|);
    assert len == BE64(ToBits(U64(|m|)));
  }

  lemma Slices(s: seq<byte>, a: nat, n: nat, b: nat)
    requires a + n <= b <= |s|
    ensures s[a..b][..n] == s[a..a + n] && s[a..b][n..] == s[a + n..b]
    ensures s[a..a + n] + s[a + n..b] == s[a..b]
  {
  }

  /** `struct sha256_ctx`; `msg` is the concatenation of the pieces so far. */
  class Ctx {
    const H: array<bv32>
    const buffer: array<byte>
    var total64: bv64
    var buflen: nat
    ghost var msg: seq<byte>

    ghost predicate Shape()
    {
      H.Length == 8 && buffer.Length == 128
    }

    ghost function Hash(): S.Hash
      requires Shape()
      reads H
    {
      S.Hash(H[0], H[1], H[2], H[3], H[4], H[5], H[6], H[7])
    }

    /** `done` bytes of the message have gone into the hash value. */
    ghost predicate Digested(done: nat)
      reads this`total64, this`msg, H
    {
      && Shape() && done <= |msg| && Aligned(done)
      && Hash() == S.Blocks(S.H0, msg[..done]) && total64 == U64(done)
    }

    /** The others are in the buffer. */
    ghost predicate Valid()
      reads this, H, buffer
    {
      && Shape() && buflen <= 64 && buflen <= |msg|
      && Digested(|msg| - buflen) && buffer[..buflen] == msg[|msg| - buflen..]
    }

    /** `__sha256_init_ctx` */
    constructor ()
      ensures Valid() && msg == [] && fresh(H) && fresh(buffer)
    {
      var h := new bv32[8];
      h[0], h[1], h[2], h[3] := 0x6a09e667, 0xbb67ae85, 0x3c6ef372, 0xa54ff53a;
      h[4], h[5], h[6], h[7] := 0x510e527f, 0x9b05688c, 0x1f83d9ab, 0x5be0cd19;
      var b := new byte[128];
      H, buffer, total64, buflen, msg := h, b, 0, 0, [];
    }

    /** The inner loops of `__sha256_process_block`, on one block: the message schedule ... */
    method Schedule(block: seq<byte>) returns (w: array<bv32>)
      requires |block| == 64
      ensures fresh(w) && w.Length == 64 && forall t :: 0 <= t < 64 ==> w[t] == S.W(block, t)
    {
      hide R0, R1, S.SmallSigma0, S.SmallSigma1, Add, FromLE32, FromBE32, Swap;
      w := new bv32[64];
      for t := 0 to 16
        invariant forall j :: 0 <= j < t ==> w[j] == S.W(block, j)
      {
        SwapLoads(block, 4 * t);
        w[t] := Swap(FromLE32(block, 4 * t));
      }
      for t := 16 to 64
        invariant forall j :: 0 <= j < t ==> w[j] == S.W(block, j)
      {
        MacrosAreTheStandards(w[t - 2]);
        MacrosAreTheStandards(w[t - 15]);
        w[t] := Add(Add(Add(R1(w[t - 2]), w[t - 7]), R0(w[t - 15])), w[t - 16]);
      }
    }

    /** ... and the rounds. */
    method Rounds(block: seq<byte>, s: S.Hash) returns (r: S.Hash)
      requires |block| == 64
      ensures r == S.Rounds(s, block, 64)
    {
      hide S0, S1, S.BigSigma0, S.BigSigma1, S.Ch, S.Maj, S.W, S.K, Add;
      var w := Schedule(block);
      var a, b, c, d, e, f, g, h := s.a, s.b, s.c, s.d, s.e, s.f, s.g, s.h;
      for t := 0 to 64
        invariant S.Hash(a, b, c, d, e, f, g, h) == S.Rounds(s, block, t)
        invariant forall j :: 0 <= j < 64 ==> w[j] == S.W(block, j)
      {
        MacrosAreTheStandards(e);
        MacrosAreTheStandards(a);
        var T1 := Add(Add(Add(Add(h, S1(e)), S.Ch(e, f, g)), S.K(t)), w[t]);
        var T2 := Add(S0(a), S.Maj(a, b, c));
        h := g;
        g := f;
        f := e;
        e := Add(d, T1);
        d := c;
        c := b;
        b := a;
        a := Add(T1, T2);
      }
      return S.Hash(a, b, c, d, e, f, g, h);
    }

    method OneBlock(block: seq<byte>, s: S.Hash) returns (r: S.Hash)
      requires |block| == 64
      ensures r == S.Compress(s, block)
    {
      hide S.Rounds, Add;
      r := Rounds(block, s);
      r := S.Hash(Add(r.a, s.a), Add(r.b, s.b), Add(r.c, s.c), Add(r.d, s.d),
                  Add(r.e, s.e), Add(r.f, s.f), Add(r.g, s.g), Add(r.h, s.h));
    }

    static lemma NoBlock(start: S.Hash, data: seq<byte>)
      ensures S.Blocks(start, data[..0]) == start
    {
    }

    static lemma NextBlock(start: S.Hash, data: seq<byte>, pos: nat)
      requires pos % 64 == 0 && pos + 64 <= |data|
      ensures S.Blocks(start, data[..pos + 64]) == S.Compress(S.Blocks(start, data[..pos]), data[pos..pos + 64])
    {
      hide S.Compress;
      assert data[..pos + 64][..pos] == data[..pos] && data[..pos + 64][pos..] == data[pos..pos + 64];
    }

    /** The outer loop of `__sha256_process_block`. */
    method AllBlocks(start: S.Hash, data: seq<byte>) returns (s: S.Hash)
      requires |data| % 64 == 0
      ensures s == S.Blocks(start, data)
    {
      hide S.Blocks, S.Compress;
      s := start;
      var pos := 0;
      NoBlock(start, data);
      while pos < |data|
        invariant pos <= |data| && pos % 64 == 0 && s == S.Blocks(start, data[..pos])
      {
        NextBlock(start, data, pos);
        s := OneBlock(data[pos..pos + 64], s);
        pos := pos + 64;
      }
      assert data[..pos] == data;
    }

    /** `__sha256_process_block` */
    method ProcessBlock(data: seq<byte>)
      requires Shape() && |data| % 64 == 0
      modifies H, this`total64
      ensures Hash() == S.Blocks(old(Hash()), data)
      ensures total64 == Plus(old(total64), U64(|data|))
    {
      hide S.Blocks, Plus, U64;
      total64 := Plus(total64, U64(|data|));
      var s := AllBlocks(S.Hash(H[0], H[1], H[2], H[3], H[4], H[5], H[6], H[7]), data);
      H[0], H[1], H[2], H[3] := s.a, s.b, s.c, s.d;
      H[4], H[5], H[6], H[7] := s.e, s.f, s.g, s.h;
    }

    /** `__sha256_process_block` on the bytes of the message behind the digested ones. */
    method Advance(data: seq<byte>, ghost done: nat)
      requires Digested(done) && Aligned(|data|)
      requires done + |data| <= |msg| && data == msg[done..done + |data|]
      modifies H, this`total64
      ensures Digested(done + |data|)
    {
      hide Plus, U64, S.Blocks;
      AlignedSum(done, |data|);
      U64Add(done, |data|);
      S.BlocksConcat(S.H0, msg[..done], data);
      assert msg[..done] + data == msg[..done + |data|];
      ProcessBlock(data);
    }

    /** Within a call: the message is what is digested, then the buffer, then `rest`. */
    ghost predicate Stage(rest: seq<byte>)
      reads this, H, buffer
    {
      && Shape() && buflen <= 128 && buflen + |rest| <= |msg|
      && var done := |msg| - |rest| - buflen;
      && Aligned(done) && Digested(done) && buffer[..buflen] == msg[done..done + buflen]
      && rest == msg[done + buflen..]
    }

    static lemma Longer(m: seq<byte>, done: nat, n: nat, data: seq<byte>, add: nat)
      requires done + n <= |m| && data == m[done + n..] && add <= |data|
      ensures m[done..done + n] + data[..add] == m[done..done + n + add] && data[add..] == m[done + n + add..]
    {
    }

    method Fill(data: seq<byte>) returns (rest: seq<byte>)
      requires Stage(data) && buflen <= 64
      modifies this`buflen, buffer
      ensures Stage(rest) && (rest != [] ==> buflen == 128)
    {
      hide Ctx.Digested, Aligned;
      ghost var done := |msg| - |data| - buflen;
      var leftOver := buflen;
      var add := Min(128 - leftOver, |data|);
      MemCopy(buffer, leftOver, data[..add]);
      buflen := buflen + add;
      rest := data[add..];
      Longer(msg, done, leftOver, data, add);
      assert buffer[..buflen] == msg[done..done + leftOver] + data[..add];
    }

    /** The complete blocks of the buffer are digested, and what follows them moves to its front. */
    method Drain(ghost rest: seq<byte>)
      requires Stage(rest) && buflen > 64
      modifies this`total64, this`buflen, H, buffer
      ensures Stage(rest) && buflen <= 64 && (old(buflen) == 128 ==> buflen == 0)
    {
      hide Ctx.Digested, Floor64, Aligned;
      ghost var done := |msg| - |rest| - buflen;
      var n := Floor64(buflen);
      AlignedSum(done, n);
      var all := buffer[..buflen];
      Slices(msg, done, n, done + buflen);
      assert buffer[..n] == all[..n];
      Advance(all[..n], done);
      buflen := buflen - n;
      MemCopy(buffer, 0, all[n..]);
      assert buffer[..buflen] == all[n..];
    }

    /** `__sha256_process_bytes`, first part: concatenate the buffer and the input. */
    method TopUp(data: seq<byte>) returns (rest: seq<byte>)
      requires Stage(data) && 0 < buflen <= 64
      modifies this`total64, this`buflen, H, buffer
      ensures Stage(rest) && buflen <= 64 && (rest != [] ==> buflen == 0)
    {
      hide Ctx.Stage;
      rest := Fill(data);
      if buflen > 64 {
        Drain(rest);
      }
    }

    method CopiedBlock(data: seq<byte>) returns (rest: seq<byte>)
      requires Stage(data) && buflen == 0 && |data| > 64
      modifies this`total64, H, buffer
      ensures Stage(rest) && |rest| < |data|
    {
      hide Ctx.Digested, Aligned;
      MemCopy(buffer, 0, data[..64]);
      assert buffer[..64] == data[..64];
      Slices(msg, |msg| - |data|, 64, |msg|);
      AlignedBlock();
      AlignedSum(|msg| - |data|, 64);
      Advance(buffer[..64], |msg| - |data|);
      rest := data[64..];
    }

    method BlocksInPlace(data: seq<byte>) returns (rest: seq<byte>)
      requires Stage(data) && buflen == 0 && |data| >= 64
      modifies this`total64, H, buffer
      ensures Stage(rest) && |rest| <= 64
    {
      hide Ctx.Digested, Floor64, Aligned;
      var n := Floor64(|data|);
      Slices(msg, |msg| - |data|, n, |msg|);
      AlignedSum(|msg| - |data|, n);
      Advance(data[..n], |msg| - |data|);
      rest := data[n..];
    }

    /** `__sha256_process_bytes`, second part: complete blocks, one at a time through the buffer
        if the input is not aligned. Then the last block is left over. */
    method Bulk(data: seq<byte>, unaligned: bool) returns (rest: seq<byte>)
      requires Stage(data) && buflen == 0 && |data| >= 64
      modifies this`total64, H, buffer
      ensures Stage(rest) && |rest| <= 64
    {
      hide Ctx.Stage;
      rest := data;
      if unaligned {
        while |rest| > 64
          invariant Stage(rest)
        {
          rest := CopiedBlock(rest);
        }
      } else {
        rest := BlocksInPlace(rest);
      }
    }

    /** `__sha256_process_bytes`, last part: keep what is left. */
    method Keep(data: seq<byte>)
      requires Stage(data) && buflen == 0 && 0 < |data| <= 64
      modifies this`total64, this`buflen, H, buffer
      ensures Valid()
    {
      hide Ctx.Digested, Aligned;
      var leftOver := buflen;
      MemCopy(buffer, leftOver, data);
      leftOver := leftOver + |data|;
      if leftOver >= 64 {
        AlignedBlock();
        AlignedSum(|msg| - |data|, 64);
        Advance(buffer[..64], |msg| - |data|);
        leftOver := leftOver - 64;
        MemCopy(buffer, 0, buffer[64..64 + leftOver]);
      }
      buflen := leftOver;
    }

    ghost method Accept(data: seq<byte>)
      requires Valid()
      modifies this`msg
      ensures Stage(data) && msg == old(msg) + data
    {
      hide S.Blocks, U64, Ctx.Hash;
      ghost var done := |msg| - buflen;
      assert (msg + data)[..done] == msg[..done];
      assert (msg + data)[done..done + buflen] == msg[done..];
      msg := msg + data;
    }

    /** `__sha256_process_bytes`. `unaligned` is the outcome of the `UNALIGNED_P` test. */
    method ProcessBytes(data: seq<byte>, unaligned: bool)
      requires Valid()
      modifies this`total64, this`buflen, this`msg, H, buffer
      ensures Valid() && msg == old(msg) + data
    {
      hide Ctx.Digested, Aligned;
      var rest := data;
      Accept(data);
      if buflen != 0 {
        rest := TopUp(rest);
      }
      if |rest| >= 64 {
        rest := Bulk(rest, unaligned);
      }
      if |rest| > 0 {
        Keep(rest);
      }
    }

    /** What two adjacent stores behind `front` leave in memory. */
    static lemma TwoStores(mem: seq<byte>, n: nat, x: seq<byte>, y: seq<byte>)
      requires n + 8 <= |mem| && |x| == 4 && |y| == 4
      ensures Patched(Patched(mem, n + 4, y), n, x)[..n + 8] == mem[..n] + (x + y)
    {
    }

    /** A 32-bit store on a little-endian machine. */
    method Store32(at: nat, x: bv32)
      requires Shape() && at + 4 <= 128
      modifies buffer
      ensures buffer[..] == Patched(old(buffer[..]), at, LE32(x))
    {
      MemCopy(buffer, at, LE32(x));
    }

    /** `__sha256_finish_ctx`: the length behind the padding, the word with the higher bits first. */
    method PutLength(n: nat)
      requires Shape() && (n == 56 || n == 120)
      modifies buffer
      ensures buffer[..n + 8] == old(buffer[..n]) + BE64(ToBits(total64))
    {
      hide LE32, BE32, BE64, Swap, ToBits, BitsLow, BitsHigh;
      TwoStores(buffer[..], n, BE32(BitsHigh(total64)), BE32(BitsLow(total64)));
      SwapStores(BitsLow(total64));
      SwapStores(BitsHigh(total64));
      TimesEightOnHalves(total64);
      Store32(4 * ((n + 4) / 4), Swap(BitsLow(total64)));
      Store32(4 * (n / 4), Swap(BitsHigh(total64)));
    }

    /** `__sha256_finish_ctx`, first part: lay out the padding and the length. */
    method PutPadding(pad: nat)
      requires Shape() && buflen <= 64 && pad == PadCount(buflen)
      modifies buffer
      ensures buffer[..buflen + pad + 8] == old(buffer[..buflen]) + FillBuf()[..pad] + BE64(ToBits(total64))
    {
      hide BE64, ToBits, FillBuf;
      ghost var head := buffer[..buflen];
      MemCopy(buffer, buflen, FillBuf()[..pad]);
      assert buffer[..buflen + pad] == head + FillBuf()[..pad];
      PutLength(buflen + pad);
    }

    /** `__sha256_finish_ctx`, last part: store the hash value. */
    method Result() returns (result: seq<byte>)
      requires Shape()
      ensures result == S.Digest(Hash())
    {
      hide LE32, BE32, Swap;
      result := [];
      for i := 0 to 8
        invariant result == S.DigestOf([H[0], H[1], H[2], H[3], H[4], H[5], H[6], H[7]], i)
      {
        SwapStores(H[i]);
        result := result + LE32(Swap(H[i]));
      }
    }

    /** `__sha256_finish_ctx` */
    method Finish() returns (result: seq<byte>)
      requires Valid()
      modifies this`total64, H, buffer
      ensures result == S.Sha256(msg)
    {
      hide S.Blocks, U64, Plus, BE32, BE64, ToBits, S.Pad, FillBuf;
      var bytes := buflen;
      ghost var done := |msg| - bytes;
      PadCountIsTheStandards(done, |msg|);
      PaddingIsTheStandards(msg, done);
      S.PadLength(msg);
      U64Add(done, bytes);
      total64 := Plus(total64, U64(bytes));
      var pad := if bytes >= 56 then 64 + 56 - bytes else 56 - bytes;
      PutPadding(pad);
      S.BlocksConcat(S.H0, msg[..done], buffer[..bytes + pad + 8]);
      ProcessBlock(buffer[..bytes + pad + 8]);
      result := Result();
    }
  }

  /** A digest computed piece by piece, whatever the pieces and their alignment are, is the digest
      of the whole message. */
  method HashPieces(pieces: seq<seq<byte>>, unaligned: nat -> bool) returns (result: seq<byte>)
    ensures result == S.Sha256(Concat(pieces))
  {
    hide Ctx.Valid, S.Sha256;
    var ctx := new Ctx();
    for i := 0 to |pieces|
      invariant ctx.Valid() && ctx.msg == Concat(pieces[..i])
      invariant fresh(ctx) && fresh(ctx.H) && fresh(ctx.buffer)
    {
      ctx.ProcessBytes(pieces[i], unaligned(i));
      assert pieces[..i + 1][..i] == pieces[..i];
    }
    assert pieces[..|pieces|] == pieces;
    result := ctx.Finish();
  }
}
