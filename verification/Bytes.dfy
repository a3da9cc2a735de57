/** Byte strings, `ffstr`-style slices of memory, and files as byte sequences. */
module Bytes {

  type byte = bv8

  datatype Option<+T> = None | Some(value: T)

  function Max(a: nat, b: nat): nat { if a < b then b else a }

  function Min(a: nat, b: nat): nat { if a < b then a else b }

  /** The byte at a position of a zero-extended file. */
  function At(file: seq<byte>, i: nat): byte { if i < |file| then file[i] else 0 }

  lemma PartOfPart(s: seq<byte>, pos: nat, len: nat, a: nat, n: nat)
    requires pos + len <= |s| && a + n <= len
    ensures s[pos..pos + len][a..a + n] == s[pos + a..pos + a + n]
  {
    var all, part := s[pos..pos + len], s[pos + a..pos + a + n];
    forall i | 0 <= i < n ensures all[a..a + n][i] == part[i] {
      assert all[a..a + n][i] == all[a + i] == s[pos + (a + i)];
      assert part[i] == s[pos + a + i];
    }
    assert |all[a..a + n]| == |part|;
  }

  /** `ffstr`: a piece of memory that the holder reads through a pointer. */
  datatype Str = Str(ptr: array<byte>, pos: nat, len: nat)
  {
    ghost predicate Ok() { pos + len <= ptr.Length }

    function Bytes(): seq<byte>
      requires Ok()
      reads ptr
    {
      ptr[pos..pos + len]
    }

    /** `ffstr_shift` */
    function Shift(n: nat): Str
      requires n <= len
    {
      Str(ptr, pos + n, len - n)
    }

    lemma Length()
      requires Ok()
      ensures |Bytes()| == len
    {
    }

    lemma ByteAt(i: nat)
      requires Ok() && i < len
      ensures |Bytes()| == len && ptr[pos + i] == Bytes()[i]
    {
    }

    /** A part of a slice is a slice. */
    lemma PartBytes(a: nat, n: nat)
      requires Ok() && a + n <= len
      ensures Str(ptr, pos + a, n).Ok() && Str(ptr, pos + a, n).Bytes() == Bytes()[a..a + n]
    {
      PartOfPart(ptr[..], pos, len, a, n);
      assert ptr[pos..pos + len] == ptr[..][pos..pos + len];
      assert ptr[pos + a..pos + a + n] == ptr[..][pos + a..pos + a + n];
    }
  }

  /** What `ftruncate` does to a file: cut it, or extend it with zeros. */
  function Resize(file: seq<byte>, n: nat): seq<byte>
    decreases n
  {
    if n <= |file| then file[..n] else Resize(file, n - 1) + [0]
  }

  lemma {:induction false} ResizeBytes(file: seq<byte>, n: nat)
    ensures |Resize(file, n)| == n
    ensures forall i :: 0 <= i < n ==> Resize(file, n)[i] == At(file, i)
    decreases n
  {
    if |file| < n {
      ResizeBytes(file, n - 1);
    }
  }

  /** The byte that a write leaves at a position of the file. */
  function PwriteAt(file: seq<byte>, off: nat, data: seq<byte>, i: nat): byte
  {
    if off <= i < off + |data| then data[i - off] else At(file, i)
  }

  /** Memory after a copy of `data` to position `at`. */
  function Patched(mem: seq<byte>, at: nat, data: seq<byte>): (r: seq<byte>)
    requires at + |data| <= |mem|
    ensures |r| == |mem| && forall i :: 0 <= i < |r| ==> r[i] == PwriteAt(mem, at, data, i)
  {
    mem[..at] + data + mem[at + |data|..]
  }

  /** Memory behind a region, once data has been copied to the region's end. */
  lemma PatchedEnd(mem: seq<byte>, i: nat, used: nat, data: seq<byte>)
    requires i + used + |data| <= |mem|
    ensures Patched(mem, i + used, data)[i..i + used + |data|] == mem[i..i + used] + data
  {
  }

  /** memcpy/memmove: the source bytes are read before the first one is stored. */
  method MemCopy(dst: array<byte>, at: nat, src: seq<byte>)
    requires at + |src| <= dst.Length
    modifies dst
    ensures dst[..] == Patched(old(dst[..]), at, src)
  {
    forall i | 0 <= i < |src| {
      dst[at + i] := src[i];
    }
  }

  function Put(file: seq<byte>, i: nat, b: byte): seq<byte>
  {
    if i < |file| then file[i := b] else Resize(file, i) + [b]
  }

  /** What `pwrite` does to a file, one byte after the other: the gap in front of the data,
      if any, reads as zeros, and writing nothing changes nothing. */
  function Pwrite(file: seq<byte>, off: nat, data: seq<byte>): seq<byte>
    decreases |data|
  {
    if data == [] then file
    else Put(Pwrite(file, off, data[..|data| - 1]), off + |data| - 1, data[|data| - 1])
  }

  lemma {:induction false} PwriteBytes(file: seq<byte>, off: nat, data: seq<byte>)
    ensures |Pwrite(file, off, data)| == if data == [] then |file| else Max(|file|, off + |data|)
    ensures forall i :: 0 <= i < |Pwrite(file, off, data)| ==>
      Pwrite(file, off, data)[i] == PwriteAt(file, off, data, i)
    decreases |data|
  {
    if data != [] {
      var d := data[..|data| - 1];
      PwriteBytes(file, off, d);
      ResizeBytes(Pwrite(file, off, d), off + |data| - 1);
    }
  }

  lemma PwriteNothing(file: seq<byte>, off: nat)
    ensures Pwrite(file, off, []) == file
  {
  }

  /** Two adjacent writes are one write. */
  lemma {:induction false} PwriteAdjacent(file: seq<byte>, off: nat, a: seq<byte>, b: seq<byte>)
    ensures Pwrite(Pwrite(file, off, a), off + |a|, b) == Pwrite(file, off, a + b)
    decreases |b|
  {
    if b == [] {
      assert a + b == a;
    } else {
      var b' := b[..|b| - 1];
      PwriteAdjacent(file, off, a, b');
      assert (a + b)[..|a + b| - 1] == a + b';
    }
  }

  function Concat(pieces: seq<seq<byte>>): seq<byte>
  {
    if pieces == [] then [] else Concat(pieces[..|pieces| - 1]) + pieces[|pieces| - 1]
  }
}
