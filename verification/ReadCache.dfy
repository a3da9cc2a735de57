/** src/core/file.c and src/core/fbuf.h, input side: a round-robin set of read buffers. */
module ReadCache {
  import opened Align
  import opened Bytes
  import opened Fbuf

  /** `enum FCOM_FILE_RET`; `Wrapped` is FCOM_FILE_OK with a length below zero, which wraps. */
  datatype Ret = OK | EOF | ASYNC | ERR | Wrapped

  /** `struct fbufset` */
  class FbufSet {
    const bufs: seq<Fbuf>
    var idx: nat

    ghost predicate Shape(cap: nat)
      reads this, bufs
    {
      && idx < |bufs|
      && (forall i :: 0 <= i < |bufs| ==> bufs[i].ptr.Length == cap && bufs[i].win.len <= cap)
      && (forall i, j :: 0 <= i < j < |bufs| ==> bufs[i] != bufs[j] && bufs[i].ptr != bufs[j].ptr)
    }

    /** `fbufset_init` */
    constructor (n: nat, cap: nat)
      requires n > 0
      ensures Shape(cap) && |bufs| == n && idx == 0
      ensures forall b :: b in bufs ==> fresh(b) && fresh(b.ptr) && b.win.len == 0
    {
      var all: seq<Fbuf> := [];
      for i := 0 to n
        invariant |all| == i
        invariant forall b :: b in all ==> fresh(b) && fresh(b.ptr) && b.ptr.Length == cap && b.win.len == 0
        invariant forall i, j :: 0 <= i < j < |all| ==> all[i] != all[j] && all[i].ptr != all[j].ptr
      {
        var b := new Fbuf(cap);
        all := all + [b];
      }
      bufs := all;
      idx := 0;
    }

    /** `fbufset_reset` */
    method Reset(cap: nat)
      requires Shape(cap)
      modifies bufs
      ensures Shape(cap) && forall b :: b in bufs ==> b.win == Window(0, 0)
    {
      for i := 0 to |bufs|
        invariant Shape(cap) && forall k :: 0 <= k < i ==> bufs[k].win == Window(0, 0)
      {
        bufs[i].win := Window(0, 0);
      }
    }

    /** `fbufset_nextbuf`: the buffers are reused in turn. */
    method NextBuf(cap: nat) returns (i: nat)
      requires Shape(cap)
      modifies this
      ensures Shape(cap) && i == old(idx) && idx == (i + 1) % |bufs|
    {
      i := idx;
      idx := (idx + 1) % |bufs|;
    }

    /** `fbufset_find`: a buffer with data at `off`. */
    method Find(off: nat) returns (i: Option<nat>)
      ensures match i
        case Some(k) => k < |bufs| && bufs[k].win.off <= off < bufs[k].win.off + bufs[k].win.len
        case None => forall b :: b in bufs ==> !(b.win.off <= off < b.win.off + b.win.len)
    {
      for k := 0 to |bufs|
        invariant forall j :: 0 <= j < k ==> !(bufs[j].win.off <= off < bufs[j].win.off + bufs[j].win.len)
      {
        if bufs[k].win.off <= off < bufs[k].win.off + bufs[k].win.len {
          return Some(k);
        }
      }
      return None;
    }
  }

  /** `struct file` opened for reading; `disk` is the file, which nobody changes meanwhile. */
  class File {
    const cap: nat
    const bufset: FbufSet
    const disk: seq<byte>
    var size: nat
    var curOff: nat
    /** How many requests the kernel has been given, and how many of them it has answered with EAGAIN
        and with any other error. */
    var requests: nat
    var agains: nat
    var failures: nat

    /** A buffer holds the slice of the file that its offset and length name. */
    ghost predicate Coherent(b: Fbuf)
      reads b, b.ptr
    {
      b.win.len > 0 ==>
        && b.win.len <= b.ptr.Length && b.win.off + b.win.len <= |disk|
        && b.Data() == disk[b.win.off..b.win.off + b.win.len]
    }

    ghost predicate Valid()
      reads bufset, bufset.bufs, set b | b in bufset.bufs :: b.ptr
    {
      && ALIGN <= cap && bufset.Shape(cap)
      && forall i :: 0 <= i < |bufset.bufs| ==> Coherent(bufset.bufs[i])
    }

    /** `file_create` and `file_open` for reading */
    constructor (bufferSize: nat, nBuffers: nat, contents: seq<byte>)
      ensures Valid() && disk == contents && curOff == 0
      ensures cap == if bufferSize == 0 then 0x10000 else if bufferSize < 0x1000 then 0x1000 else bufferSize
      ensures fresh(bufset) && forall b :: b in bufset.bufs ==> fresh(b) && fresh(b.ptr)
      ensures |bufset.bufs| == if nBuffers == 0 then 3 else nBuffers
    {
      var n := Max(if bufferSize == 0 then 64 * 1024 else bufferSize, ALIGN);
      cap, disk, size, curOff := n, contents, 0, 0;
      requests, agains, failures := 0, 0, 0;
      bufset := new FbufSet(if nBuffers == 0 then 3 else nBuffers, n);
    }

    /** `fffile_readat`: everything up to the end of the file that fits, EAGAIN, or an error. */
    method ReadAt(b: Fbuf, off: nat) returns (n: int)
      requires b.ptr.Length == cap
      modifies this`requests, this`agains, this`failures, b.ptr
      ensures requests == old(requests) + 1
      ensures agains == old(agains) + if n == -1 then 1 else 0
      ensures failures == old(failures) + if n == -2 then 1 else 0
      ensures n == -1 || n == -2 || n == if |disk| <= off then 0 else Min(cap, |disk| - off)
      ensures n > 0 ==> b.ptr[..n] == disk[off..off + n]
      ensures n < 0 ==> b.ptr[..] == old(b.ptr[..])
    {
      requests := requests + 1;
      var fate :| 0 <= fate < 3;
      if fate == 1 {
        agains := agains + 1;
        return -1;
      } else if fate == 2 {
        failures := failures + 1;
        return -2;
      }
      n := if |disk| <= off then 0 else Min(cap, |disk| - off);
      if n > 0 {
        var src := disk[off..off + n];
        MemCopy(b.ptr, 0, src);
      }
    }

    /** Read into a buffer; on failure it keeps what it had. */
    method Load(b: Fbuf, off: nat) returns (n: int)
      requires b.ptr.Length == cap && Coherent(b)
      modifies this`requests, this`agains, this`failures, b, b.ptr
      ensures requests == old(requests) + 1
      ensures agains == old(agains) + if n == -1 then 1 else 0
      ensures failures == old(failures) + if n == -2 then 1 else 0
      ensures Coherent(b) && b.win == if n < 0 then old(b.win) else Window(off, n)
      ensures n == -1 || n == -2 || n == if |disk| <= off then 0 else Min(cap, |disk| - off)
    {
      n := ReadAt(b, off);
      if n >= 0 {
        b.win := Window(off, n);
      }
    }

    /** A buffer reaches the wanted offset, if that is in the file; behind its end there is nothing
        to reach, and the buffer ends in front of the offset unless that is aligned. */
    ghost predicate Around(b: Fbuf, pos: nat)
      reads b
    {
      && b.win.off <= pos
      && (pos <= |disk| ==> pos <= b.win.off + b.win.len <= |disk|)
      && (pos < |disk| ==> pos < b.win.off + b.win.len)
      && (pos > |disk| ==> (if pos % ALIGN == 0 then b.win == Window(pos, 0) else b.win.off + b.win.len < pos))
    }

    lemma LoadedAround(b: Fbuf, pos: nat, n: nat)
      requires ALIGN <= cap && b.win == Window(AlignFloor(pos), n)
      requires n == if |disk| <= AlignFloor(pos) then 0 else Min(cap, |disk| - AlignFloor(pos))
      ensures Around(b, pos)
      ensures pos <= |disk| && n < cap ==> b.win.off + n == |disk|
    {
    }

    /** The cache-miss part of `file_read`: fill the next buffer with the data around `pos`. */
    method Fill(pos: nat) returns (n: int, b: Fbuf)
      requires Valid()
      modifies this`size, this`requests, this`agains, this`failures
      modifies bufset, bufset.bufs, set b | b in bufset.bufs :: b.ptr
      ensures requests == old(requests) + 1
      ensures agains == old(agains) + if n == -1 then 1 else 0
      ensures failures == old(failures) + if n == -2 then 1 else 0
      ensures n == -1 || n == -2 || n >= 0
      ensures Valid() && old(bufset.idx) < |bufset.bufs| && b == bufset.bufs[old(bufset.idx)]
      ensures forall i :: 0 <= i < |bufset.bufs| && i != old(bufset.idx) ==> unchanged(bufset.bufs[i])
      ensures n >= 0 ==> Around(b, pos)
      ensures pos <= |disk| ==> size == old(size) || size == |disk|
    {
      hide AlignFloor, File.Around, File.Coherent;
      var k := bufset.NextBuf(cap);
      b := bufset.bufs[k];
      n := Load(b, AlignFloor(pos));
      if n >= 0 {
        LoadedAround(b, pos, n);
      }
      if 0 <= n < cap {
        size := b.win.off + n;
      }
      forall i | 0 <= i < |bufset.bufs| ensures Coherent(bufset.bufs[i]) {
        if i != k {
          assert old(Coherent(bufset.bufs[i])) && unchanged(bufset.bufs[i]) && unchanged(bufset.bufs[i].ptr);
        }
      }
    }

    /** The last part of `file_read`. */
    method View(b: Fbuf, pos: nat) returns (r: Ret, d: Str)
      requires Coherent(b) && b.win.len <= b.ptr.Length && Around(b, pos)
      modifies this`curOff
      ensures d.Ok() && curOff == b.win.off + b.win.len
      ensures r == if pos > |disk| && pos % ALIGN != 0 then Wrapped else if pos >= |disk| then EOF else OK
      ensures r != Wrapped ==> curOff == pos + d.len && (pos <= |disk| ==> curOff <= |disk| && d.Bytes() == disk[pos..curOff])
    {
      curOff := b.win.off + b.win.len;
      d := Str(b.ptr, 0, b.win.len);
      if pos - b.win.off > d.len {
        return Wrapped, d;
      }
      d := d.Shift(pos - b.win.off);
      assert b.win.len > 0 ==> d.Bytes() == b.Data()[pos - b.win.off..];
      return if d.len == 0 then EOF else OK, d;
    }

    lemma Hit(k: nat, pos: nat)
      requires Valid() && k < |bufset.bufs|
      requires var w := bufset.bufs[k].win; w.off <= pos < w.off + w.len
      ensures Around(bufset.bufs[k], pos) && pos < |disk|
      ensures Coherent(bufset.bufs[k]) && bufset.bufs[k].win.len <= bufset.bufs[k].ptr.Length
    {
    }

    lemma Member(b: Fbuf)
      requires Valid() && b in bufset.bufs
      ensures Coherent(b) && b.win.len <= b.ptr.Length
    {
    }

    /** A buffer holds the byte at `pos`. */
    ghost predicate Cached(pos: nat)
      reads bufset.bufs
    {
      exists i :: 0 <= i < |bufset.bufs| && bufset.bufs[i].win.off <= pos < bufset.bufs[i].win.off + bufset.bufs[i].win.len
    }

    /** `file_read`: a view of cached data at `off`, as long as the buffer goes. Behind the end of the
        file the answer is EOF at aligned offsets, and a length that wraps at all others. Exactly if
        no buffer holds the byte wanted, the kernel is asked, once; ASYNC and ERR are its answers. */
    method Read(off: int) returns (r: Ret, d: Str)
      requires Valid() && -1 <= off
      modifies this`size, this`curOff, this`requests, this`agains, this`failures
      modifies bufset, bufset.bufs, set b | b in bufset.bufs :: b.ptr
      ensures Valid() && d.Ok()
      ensures requests == old(requests) + if old(Cached(if off == -1 then curOff else off)) then 0 else 1
      ensures r == ASYNC || r == ERR ==> requests == old(requests) + 1
      ensures agains == old(agains) + if r == ASYNC then 1 else 0
      ensures failures == old(failures) + if r == ERR then 1 else 0
      ensures r == OK ==>
        var pos := if off == -1 then old(curOff) else off;
        && pos < |disk| && d.len > 0 && curOff == pos + d.len <= |disk| && d.Bytes() == disk[pos..curOff]
      ensures r == EOF ==>
        var pos := if off == -1 then old(curOff) else off;
        && d.len == 0 && curOff == pos && (pos == |disk| || (pos > |disk| && pos % ALIGN == 0))
      ensures r == Wrapped ==>
        var pos := if off == -1 then old(curOff) else off;
        pos > |disk| && pos % ALIGN != 0
      ensures r == ASYNC || r == ERR ==> curOff == old(curOff)
      ensures (if off == -1 then old(curOff) else off) <= |disk| ==> size == old(size) || size == |disk|
    {
      hide File.Valid, FbufSet.Shape;
      var pos := if off == -1 then curOff else off;
      var i := bufset.Find(pos);
      var b: Fbuf;
      if i.Some? {
        b := bufset.bufs[i.value];
        Hit(i.value, pos);
      } else {
        var n;
        n, b := Fill(pos);
        if n < 0 {
          return if n == -1 then ASYNC else ERR, Str(b.ptr, 0, 0);
        }
        Member(b);
      }
      r, d := View(b, pos);
    }

    /** Reading at the current position until the end, as the operations do (src/ops/md5.c:165-175).
        Together the views are the rest of the file, and there are at most as many of them as there
        are bytes. Here ASYNC ends the loop, which the operations do not look for: they take the data
        of the last view once more. */
    method ReadAll() returns (r: Ret, out: seq<byte>, views: nat)
      requires Valid() && curOff <= |disk|
      modifies this`size, this`curOff, this`requests, this`agains, this`failures
      modifies bufset, bufset.bufs, set b | b in bufset.bufs :: b.ptr
      ensures Valid() && r != OK
      ensures r == EOF ==> out == disk[old(curOff)..] && curOff == |disk|
      ensures agains == old(agains) + if r == ASYNC then 1 else 0
      ensures failures == old(failures) + if r == ERR then 1 else 0
      ensures requests <= old(requests) + views + 1
      ensures out <= disk[old(curOff)..] && views <= |out|
    {
      hide File.Valid, File.Coherent, FbufSet.Shape, Str.Bytes;
      out, views := [], 0;
      while true
        invariant agains == old(agains) && failures == old(failures) && requests <= old(requests) + views
        invariant Valid() && old(curOff) <= curOff <= |disk| && out == disk[old(curOff)..curOff] && views <= |out|
        decreases |disk| - curOff
      {
        var d;
        r, d := Read(-1);
        if r != OK {
          return;
        }
        d.Length();
        out, views := out + d.Bytes(), views + 1;
      }
    }
  }
}
