/** src/core/file.c, output side: the write-back cache, the two-phase write loop, resumption of
    partial writes, preallocation and its removal at close. */
module CachedFile {
  import opened Align
  import opened Bytes
  import opened Fbuf
  import opened Disk
  import WB = WriteBack

  /** `enum FCOM_FILE_RET`; `Next` is the internal -1: go on with the other phase. */
  datatype Ret = OK | ASYNC | ERR | Next

  /** `f_write` returns a count or a negated code. */
  datatype Count = Written(n: nat) | Failed(code: Ret)

  /** `wcache.user_data` and `wcache.continued`: input that waits for the write phase to end. */
  datatype Rest = Rest(userData: Str, continued: bool)

  /** `w`: the chunk that the kernel has not taken yet, and the preallocated length. */
  datatype Chunk = Chunk(buf: Str, off: nat, prealloc: nat, async: bool)

  /** The size of the buffers that `file_create` makes. */
  function Capacity(bufferSize: nat): nat
  {
    Max(if bufferSize == 0 then 64 * 1024 else bufferSize, ALIGN)
  }

  /** `struct file` opened for writing */
  class File {
    const cap: nat
    const cache: Fbuf
    var disk: Disk
    var stdout: bool
    var noPrealloc: bool
    var size: nat
    var curOff: nat
    /** Phase of the write loop: false - cache, true - write. */
    var wWrite: bool
    var wcache: Rest
    var w: Chunk

    /** Where the file must be once every accepted call has been carried out. */
    ghost var goal: WB.Goal

    ghost predicate Shape()
      reads this`stdout, this`noPrealloc, this`wcache, this`w, cache
    {
      && ALIGN <= cap == cache.ptr.Length && cache.win.len <= cap
      && wcache.userData.Ok() && wcache.userData.ptr != cache.ptr && w.buf.Ok()
      && (stdout ==> noPrealloc)
    }

    ghost function V(): WB.View
      requires cache.win.len <= cache.ptr.Length
      reads this`disk, this`stdout, this`size, this`w, this`curOff, this`goal, disk`bytes, cache, cache.ptr
    {
      WB.View(cap, stdout, disk.bytes, size, w.prealloc, cache.win.off, cache.Data(), curOff, goal)
    }

    /** No call is in progress. */
    ghost predicate NoCall()
      reads this`stdout, this`noPrealloc, this`wcache, this`wWrite, this`w, cache
    {
      && Shape() && !wWrite && !wcache.continued && !w.async
      && cache.win.len < cap && (cache.win.len == 0 ==> cache.win.off == 0)
    }

    /** No call is in progress, and the disk overlaid with the cache is the wanted file. */
    ghost predicate Idle()
      reads this`disk, this`stdout, this`noPrealloc, this`size, this`wcache, this`wWrite, this`w, this`curOff, this`goal,
        disk`bytes, cache, cache.ptr
    {
      Shape() && !wWrite && !wcache.continued && !w.async && WB.Idle(V())
    }

    /** Within a call: `d` must go to `off`, and then the rest of the user's data is placed. */
    ghost predicate Owes(off: int, d: Str)
      reads this`disk, this`stdout, this`noPrealloc, this`size, this`wcache, this`w, this`curOff, this`goal,
        disk`bytes, cache, cache.ptr, wcache.userData.ptr, d.ptr
    {
      && Shape() && wcache.continued && off >= 0 && d.Ok()
      && WB.Owes(V(), off, d.Bytes(), wcache.userData.Bytes())
    }

    /** The kernel did not take everything: the call must be repeated. */
    ghost predicate Pending()
      reads this`disk, this`stdout, this`noPrealloc, this`size, this`wcache, this`wWrite, this`w, this`curOff, this`goal,
        disk`bytes, cache, cache.ptr, wcache.userData.ptr, w.buf.ptr
    {
      wWrite && w.async && w.buf.len > 0 && Owes(w.off, w.buf)
    }

    ghost predicate Valid()
      reads this`disk, this`stdout, this`noPrealloc, this`size, this`wcache, this`wWrite, this`w, this`curOff, this`goal,
        disk`bytes, cache, cache.ptr, wcache.userData.ptr, w.buf.ptr
    {
      Idle() || Pending()
    }

    /** A flush to a pipe stopped after the pipe had taken something. */
    ghost predicate HalfFlushed()
      reads this, disk, cache
    {
      && Shape() && !wWrite && !wcache.continued && !w.async
      && stdout && cache.win.len > 0 && cache.win.off < size == |disk.bytes| == w.prealloc
    }

    lemma IdleFacts()
      requires Idle()
      ensures !wWrite && !w.async && curOff == goal.pos && !HalfFlushed()
    {
      hide Pwrite, Resize;
    }

    /** The offset meant by an `off` argument. */
    function Pos(off: int): nat
      requires -1 <= off
      reads this
    {
      if off == -1 then curOff else off
    }

    /** Nothing is left over from the file that was open before. */
    ghost predicate Clean()
      reads this`stdout, this`noPrealloc, this`wcache, this`wWrite, this`w, cache
    {
      NoCall() && cache.win.len == 0
    }

    /** The object stands for a new file. */
    ghost predicate Fresh()
      reads this`disk, this`stdout, this`noPrealloc, this`size, this`wcache, this`wWrite, this`w, this`curOff, this`goal,
        disk`bytes, cache, cache.ptr
    {
      Idle() && goal == WB.EMPTY
    }

    /** `size <= disk length <= prealloc` */
    ghost predicate Within()
      reads this`size, this`w, this`disk, disk`bytes
    {
      size <= |disk.bytes| <= w.prealloc
    }

    /** With preallocation the disk file is as long as what has been preallocated. */
    ghost predicate Full()
      reads this`noPrealloc, this`size, this`w, this`disk, disk`bytes
    {
      noPrealloc || size <= |disk.bytes| == w.prealloc
    }

    /** Nothing but the bytes in the cache may be missing from what has been preallocated. */
    ghost predicate Settling()
      reads this`noPrealloc, this`w, this`disk, disk`bytes, cache
    {
      noPrealloc || w.prealloc <= Max(|disk.bytes|, cache.win.off + cache.win.len)
    }

    /** Between calls, and while a call is pending, the size stays within the disk file and the disk
        file within what has been preallocated, if no call has left a hole in the file, or if the
        length has been preallocated throughout. */
    lemma SizeStaysWithin()
      requires Valid() && (!goal.holes || (!noPrealloc && Full()))
      ensures Within()
    {
      hide Pwrite, Resize;
    }

    /** `file_create` */
    constructor Create(bufferSize: nat, d: Disk)
      ensures Clean() && cap == if bufferSize == 0 then 0x10000 else if bufferSize < 0x1000 then 0x1000 else bufferSize
      ensures fresh(cache) && fresh(cache.ptr) && fresh(wcache.userData.ptr) && fresh(w.buf.ptr)
    {
      var n := Capacity(bufferSize);
      var b := new Fbuf(n);
      var none := new byte[0];
      cap, cache, disk := n, b, d;
      stdout, noPrealloc, size, curOff, wWrite := false, false, 0, 0, false;
      wcache := Rest(Str(none, 0, 0), false);
      w := Chunk(Str(none, 0, 0), 0, 0, false);
      goal := WB.EMPTY;
    }

    lemma Opened()
      requires Shape() && disk.bytes == [] && size == curOff == w.prealloc == 0
      requires goal == WB.Plain(WB.EMPTY, cache.win.off, cache.Data(), cap).(pos := 0)
      ensures Fresh() <==> Clean()
      ensures NoCall() && !stdout ==> Idle()
    {
      hide Pwrite, Resize;
      WB.EmptyFile(cache.win.off, cache.Data());
      PwriteNothing([], cache.win.off);
      if Clean() {
        WB.NewFile(V());
      } else if NoCall() && !stdout {
        WB.LeftOver(V());
      }
    }

    method SetLength(n: nat)
      modifies this`w, this`noPrealloc, disk`bytes, disk`refusals
      ensures w == old(w).(prealloc := n) && old(disk.refusals) <= disk.refusals
      ensures noPrealloc == (old(noPrealloc) || disk.refusals > old(disk.refusals))
      ensures if disk.refusals == old(disk.refusals) then disk.bytes == Resize(old(disk.bytes), n)
              else disk.bytes == old(disk.bytes)
    {
      w := w.(prealloc := n);
      var ok := disk.Truncate(n);
      if !ok {
        noPrealloc := true;
      }
    }

    /** `file_open` for writing, on a descriptor that the system has opened. Only `size`,
        `prealloc` and `cur_off` are reset. On an empty file the object stands for a new file exactly
        if nothing is left over from the last one; bytes left over in the cache count as if they were
        the first call. */
    method Open(d: Disk, toStdout: bool, withoutPrealloc: bool, truncate: bool)
      requires Shape()
      modifies this, d`bytes, d`refusals
      ensures Shape() && disk == d && stdout == toStdout && cache.win == old(cache.win) && size == 0
      ensures d.bytes == old(d.bytes) || (truncate && d.bytes == [])
      ensures d.refusals == old(d.refusals) ==> noPrealloc == (withoutPrealloc || toStdout)
      ensures truncate && !toStdout && d.refusals == old(d.refusals) ==> d.bytes == []
      ensures old(d.refusals) <= d.refusals && (d.refusals > old(d.refusals) ==> noPrealloc)
      ensures d.bytes == [] ==> (Fresh() <==> old(Clean())) && Full() && Within()
      ensures d.bytes == [] && old(NoCall()) && !toStdout ==>
        Idle() && goal.file == Pwrite([], cache.win.off, cache.Data())
    {
      hide Pwrite, Resize, Store, NextWindow, WB.Idle, File.Idle;
      ResizeBytes(d.bytes, 0);
      disk, stdout, noPrealloc := d, toStdout, withoutPrealloc || toStdout;
      size, curOff, w := 0, 0, w.(prealloc := 0);
      goal := WB.Plain(WB.EMPTY, cache.win.off, cache.Data(), cap).(pos := 0);
      if truncate && !toStdout {
        SetLength(0);
      }
      if d.bytes == [] {
        Opened();
      }
    }

    /** `file_trunc`: preallocation by the caller. It is harmless where it cuts nothing off that
        counts, and at the start of a new file in any case. */
    method Trunc(n: int)
      requires -1 <= n && Idle() && !stdout
      modifies this`w, this`noPrealloc, disk`bytes, disk`refusals
      ensures w == old(w).(prealloc := Pos(n)) && old(disk.refusals) <= disk.refusals
      ensures noPrealloc == (old(noPrealloc) || disk.refusals > old(disk.refusals))
      ensures if disk.refusals == old(disk.refusals) then disk.bytes == Resize(old(disk.bytes), Pos(n))
              else disk.bytes == old(disk.bytes)
      ensures size <= Pos(n) && (old(|disk.bytes|) <= Pos(n) || disk.refusals == old(disk.refusals)) ==> Idle()
      ensures size <= Pos(n) ==> Full()
    {
      hide Resize, WB.Idle;
      ghost var v := V();
      if size <= Pos(n) {
        WB.Preset(v, Pos(n));
      }
      ResizeBytes(disk.bytes, Pos(n));
      SetLength(if n == -1 then curOff else n);
      assert V() == v.(prealloc := w.prealloc, disk := disk.bytes);
    }

    /** The end of `f_write`: the size fields follow what has been written. */
    method Grown(off: nat, r: nat, len: nat)
      modifies this`size, this`w
      ensures size == Max(old(size), off + r) && w == old(w).(prealloc := Max(old(w.prealloc), off + len))
    {
      if off + r > size {
        size := off + r;
      }
      if w.prealloc < off + len {
        w := w.(prealloc := off + len);
      }
    }

    /** `f_write`: pass data to the kernel. */
    method FWrite(d: Str, off: nat, ghost v: WB.View) returns (c: Count)
      requires Shape() && d.Ok() && d.len > 0 && v == V()
      requires stdout ==> |disk.bytes| == size
      modifies disk, this`size, this`w
      ensures w == old(w).(prealloc := w.prealloc)
      ensures c.Written? ==>
        && c.n <= d.len && (stdout ==> off == v.size)
        && V() == WB.Wrote(v, off, d.Bytes(), c.n, if stdout then c.n else d.len)
      ensures c.Failed? ==> V() == v && (c.code == ASYNC || c.code == ERR)
      ensures stdout && off != v.size ==> c == Failed(ERR) && unchanged(disk)
      ensures !(stdout && off != v.size) ==> disk.failures == old(disk.failures) + if c == Failed(ERR) then 1 else 0
      ensures disk.partials == old(disk.partials) + if c == Failed(ASYNC) || (c.Written? && c.n < d.len) then 1 else 0
      ensures disk.writes <= old(disk.writes) + 1 && disk.refusals == old(disk.refusals)
      ensures disk.stalls <= old(disk.stalls) && (c == Written(0) ==> disk.stalls < old(disk.stalls))
    {
      hide Pwrite;
      var len := d.len;
      var a;
      if stdout {
        if off != size {
          return Failed(ERR);
        }
        a := disk.Append(d.Bytes());
        if a.Took? {
          len := a.n;
        }
      } else {
        a := disk.WriteAt(d.Bytes(), off);
      }
      match a {
        case Again => return Failed(ASYNC);
        case Fail => return Failed(ERR);
        case Took(r) =>
          Grown(off, r, len);
          assert V() == WB.Wrote(v, off, d.Bytes(), r, len);
          return Written(r);
      }
    }

    /** `fw_cache`, second half: hand the data to the cache, and see what comes out. */
    method Place(d: Str, pos: nat) returns (r: Ret, out: Str, off: int)
      requires Shape() && !wWrite && !wcache.continued && !w.async && d.Ok() && d.ptr != cache.ptr
      requires WB.Lacks(V(), pos, d.Bytes())
      modifies this`curOff, this`wcache, cache, cache.ptr
      ensures out.Ok() && (r == OK || r == Next)
      ensures r == OK ==> Idle()
      ensures r == Next ==> Owes(off, out) && out.len > 0
      ensures r == Next && old(cache.win.len) == 0 ==> wcache.userData.len == 0 && d.len > 0
    {
      hide Pwrite, Resize, WB.ZeroBeyond, WB.DiskOk, WB.Logical, WB.Idle, WB.Owes, NextWindow, Store,
        Absorb, GapFree;
      ghost var v := V();
      ghost var res := Absorb(cache.win.off, cache.Data(), cap, d.Bytes(), pos);
      WB.CachePhase(v, pos, d.Bytes());
      var woff, rest;
      woff, rest, out := cache.Write(cap, d, pos, res);
      curOff := pos + (d.len - rest.len);
      if woff < 0 {
        assert V() == v.(cacheOff := res.off, held := res.held, curOff := pos + d.len);
        return OK, d, -1;
      }
      assert out.Bytes() == res.out && rest.Bytes() == res.rest;
      cache.win := Window(0, 0);
      wcache := Rest(rest, true);
      assert V() == v.(cacheOff := 0, held := [], curOff := pos + d.len - rest.len);
      return Next, out, woff;
    }

    /** `fw_cache`: place the user's data, or what is left of it, into the cache. With `first`
        the call is a new one, otherwise its write phase has just ended. */
    method FwCache(data: Str, off: int, ghost first: bool) returns (r: Ret, data': Str, off': int)
      requires !wWrite && !w.async && data.Ok() && -1 <= off
      requires first ==> Idle() && data.ptr != cache.ptr && GapFree(goal.win, Pos(off), data.len, cap)
      requires first && stdout ==> Pos(off) == curOff
      requires !first ==> Owes(w.off, data) && data.len == 0
      modifies this`curOff, this`wcache, this`goal, cache, cache.ptr
      ensures data'.Ok() && (r == OK || r == Next)
      ensures r == OK ==> Idle()
      ensures r == Next ==> off' >= 0 && Owes(off', data') && data'.len > 0
      ensures goal == if first then WB.Plain(old(goal), old(Pos(off)), old(data.Bytes()), cap) else old(goal)
      ensures r == Next && !first ==> wcache.userData.len == 0 && old(wcache.userData.len) > 0
    {
      hide Pwrite, Resize, WB.ZeroBeyond, NextWindow, Store, GapFree, WB.Plain;
      var d := data;
      var pos := if off == -1 then curOff else off;
      if first {
        WB.AcceptCall(V(), pos, d.Bytes());
        goal := WB.Plain(goal, pos, d.Bytes(), cap);
      } else {
        WB.Continue(V(), w.off, wcache.userData.Bytes());
      }
      if wcache.continued {
        d := wcache.userData;
        wcache := Rest(d.(len := 0), false);
        pos := curOff;
      }
      r, data', off' := Place(d, pos);
    }

    /** `fw_write`, first step: make the disk file long enough for the chunk. */
    method Preallocate(off: nat, d: Str)
      requires Owes(off, d)
      modifies this`w, this`noPrealloc, disk`bytes, disk`refusals
      ensures Owes(off, d) && old(disk.refusals) <= disk.refusals
      ensures w == old(w).(prealloc := if !old(noPrealloc) && old(w.prealloc) < off + d.len
                                       then AlignPower2(off + d.len) else old(w.prealloc))
      ensures noPrealloc == (old(noPrealloc) || disk.refusals > old(disk.refusals))
      ensures noPrealloc || off + d.len <= w.prealloc
      ensures old(Full()) ==> Full()
    {
      hide Pwrite, Resize, WB.Owes, AlignPower2, IsPower2;
      if !noPrealloc && w.prealloc < off + d.len {
        ghost var v, n := V(), AlignPower2(off + d.len);
        WB.Grow(v, off, d.Bytes(), wcache.userData.Bytes(), n);
        ResizeBytes(disk.bytes, n);
        SetLength(AlignPower2(off + d.len));
        assert V() == v.(prealloc := w.prealloc, disk := disk.bytes);
      }
    }

    /** What `fw_write` does about the kernel's answer: remember what it did not take. */
    method Account(d: Str, off: nat, c: Count, ghost v: WB.View) returns (r: Ret)
      requires wWrite && !w.async && d.Ok() && d.len > 0 && Shape() && wcache.continued
      requires v.stdout == stdout && WB.Owes(v, off, d.Bytes(), wcache.userData.Bytes())
      requires match c
        case Failed(code) => (code == ASYNC || code == ERR) && V() == v
        case Written(n) => n <= d.len && V() == WB.Wrote(v, off, d.Bytes(), n, if stdout then n else d.len)
      modifies this`w
      ensures w.prealloc == old(w.prealloc)
      ensures r == Next || r == ASYNC || r == ERR
      ensures r == ASYNC ==> Pending()
      ensures r == Next ==> !w.async && Owes(w.off, d.(len := 0)) && w.buf == old(w.buf)
      ensures r == ERR <==> c == Failed(ERR)
      ensures r == ASYNC <==> c == Failed(ASYNC) || (c.Written? && c.n < d.len)
    {
      hide Pwrite, Resize, WB.Idle, WB.Owes, WB.Wrote, Str.Bytes;
      ghost var now := V();
      if c == Failed(ASYNC) {
        w := w.(buf := d, async := true, off := off);
        assert V() == now;
        return ASYNC;
      } else if c.Failed? {
        return c.code;
      }
      d.Length();
      d.PartBytes(c.n, d.len - c.n);
      WB.WritePhase(v, off, d.Bytes(), wcache.userData.Bytes(), c.n, if stdout then c.n else d.len);
      if c.n != d.len {
        w := w.(off := off + c.n, buf := d.Shift(c.n), async := true);
        assert V() == now && d.Bytes()[c.n..] == d.Bytes()[c.n..d.len];
        return ASYNC;
      }
      d.(len := 0).Length();
      assert d.Bytes()[c.n..] == [] == d.(len := 0).Bytes();
      w := w.(off := off + c.n);
      assert V() == now;
      return Next;
    }

    /** `fw_write`, second step: offer the chunk to the kernel. */
    method Push(d: Str, off: nat) returns (r: Ret)
      requires wWrite && !w.async && d.len > 0 && Owes(off, d)
      requires noPrealloc || off + d.len <= w.prealloc
      modifies this`w, this`size, disk
      ensures disk.writes <= old(disk.writes) + 1 && disk.refusals == old(disk.refusals)
      ensures r == Next || r == ASYNC || r == ERR
      ensures r == ASYNC ==> Pending()
      ensures r == Next ==> !w.async && Owes(w.off, d.(len := 0)) && w.buf == old(w.buf)
      ensures disk.failures == old(disk.failures) + if r == ERR then 1 else 0
      ensures disk.partials == old(disk.partials) + if r == ASYNC then 1 else 0
      ensures old(Full()) ==> Full()
    {
      hide Pwrite, Resize, WB.Idle, WB.Owes, Str.Bytes;
      ghost var v, bytes, rest := V(), d.Bytes(), wcache.userData.Bytes();
      if stdout {
        WB.InSequence(v, off, bytes, rest);
      }
      var c := FWrite(d, off, v);
      if c.Written? && !noPrealloc && v.size <= |v.disk| == v.prealloc {
        d.Length();
        WB.TightWrite(v, off, bytes, c.n, d.len);
      }
      r := Account(d, off, c, v);
    }

    /** `fw_write`: pass the data chunk, or what is left of it, to the kernel. */
    method FwWrite(data: Str, off: int) returns (r: Ret, data': Str)
      requires wWrite && data.Ok()
      requires if w.async then Pending() else data.len > 0 && Owes(off, data)
      modifies this`w, this`noPrealloc, this`size, disk
      ensures disk.writes <= old(disk.writes) + 1 && old(disk.refusals) <= disk.refusals
      ensures r == Next || r == ASYNC || r == ERR
      ensures r == ASYNC ==> Pending()
      ensures r == Next ==> !w.async && Owes(w.off, data') && data' == data.(len := 0)
      ensures disk.failures == old(disk.failures) + if r == ERR then 1 else 0
      ensures disk.partials == old(disk.partials) + if r == ASYNC then 1 else 0
      ensures noPrealloc == (old(noPrealloc) || disk.refusals > old(disk.refusals))
      ensures old(Full()) ==> Full()
    {
      hide Pwrite, Resize, WB.Idle, WB.Owes, AlignPower2;
      data' := data;
      var d, pos := data, off;
      if w.async {
        d, pos := w.buf, w.off;
        w := w.(async := false, buf := d.(len := 0));
      }
      Preallocate(pos, d);
      r := Push(d, pos);
      if r == Next {
        data' := data.(len := 0);
        assert data'.Bytes() == [] == d.(len := 0).Bytes();
      }
    }

    /** In the middle of a call. */
    ghost predicate Going(off: int, d: Str)
      reads this, disk, cache, cache.ptr, wcache.userData.ptr, w.buf.ptr, d.ptr
    {
      && d.Ok() && -1 <= off
      && if wWrite then if w.async then Pending() else d.len > 0 && Owes(off, d)
         else !w.async && d.len == 0 && Owes(w.off, d)
    }

    /** At the start of a call. */
    ghost predicate Ready(off: int, d: Str)
      reads this, disk, cache, cache.ptr, d.ptr
    {
      && !wWrite && Idle() && d.Ok() && d.ptr != cache.ptr && -1 <= off
      && GapFree(goal.win, Pos(off), d.len, cap) && (stdout ==> Pos(off) == curOff)
    }

    /** One pass of the loop in `file_write`: run the phase that is due, and switch. */
    method Phase(data: Str, off: int, ghost first: bool) returns (r: Ret, data': Str, off': int)
      requires if first then Ready(off, data) else Going(off, data)
      modifies this`w, this`noPrealloc, this`size, this`curOff, this`wcache, this`goal, this`wWrite
      modifies disk, cache, cache.ptr
      ensures r == OK ==> Idle()
      ensures r == ASYNC ==> Pending()
      ensures r == Next ==> Going(off', data') && wWrite == !old(wWrite)
      ensures !old(wWrite) ==> r == OK || r == Next
      ensures old(wWrite) ==> r == ASYNC || r == ERR || r == Next
      ensures goal == if first then WB.Plain(old(goal), old(Pos(off)), old(data.Bytes()), cap) else old(goal)
      ensures disk.failures == old(disk.failures) + if r == ERR then 1 else 0
      ensures disk.partials == old(disk.partials) + if r == ASYNC then 1 else 0
      ensures noPrealloc == (old(noPrealloc) || disk.refusals > old(disk.refusals)) && old(disk.refusals) <= disk.refusals
      ensures old(Full()) ==> Full()
      ensures disk.writes <= old(disk.writes) + if old(wWrite) then 1 else 0
      ensures r == Next && !first && !old(wWrite) ==> wcache.userData.len == 0 && old(wcache.userData.len) > 0
      ensures old(wWrite) ==> wcache == old(wcache)
    {
      hide Pwrite, Resize, WB.Idle, WB.Owes, WB.Plain, GapFree, File.Full, File.Owes, File.Idle, File.Pending;
      data', off' := data, off;
      if first {
        IdleFacts();
      }
      if !wWrite {
        r, data', off' := FwCache(data, off, first);
      } else {
        r, data' := FwWrite(data, off);
      }
      if r == Next {
        ghost var mem: set<object> := {data'.ptr, wcache.userData.ptr};
        assert this !in mem;
        wWrite := !wWrite;
      }
    }

    /** `file_write`: the two phases alternate until the data is cached or the kernel is full.
        ASYNC means that the call must be repeated; then its arguments do not matter. */
    method Write(data: Str, off: int) returns (r: Ret)
      requires if wWrite then Pending() && data.Ok() && -1 <= off else Ready(off, data)
      modifies this`w, this`noPrealloc, this`size, this`curOff, this`wcache, this`goal, this`wWrite
      modifies disk, cache, cache.ptr
      ensures r == OK ==> Idle() && !wWrite
      ensures r == ASYNC ==> Pending() && wWrite
      ensures r == OK || r == ASYNC || r == ERR
      ensures disk.failures == old(disk.failures) + if r == ERR then 1 else 0
      ensures goal == if old(wWrite) then old(goal) else WB.Plain(old(goal), old(Pos(off)), old(data.Bytes()), cap)
      ensures disk.writes <= old(disk.writes) + 2
      ensures disk.partials == old(disk.partials) + if r == ASYNC then 1 else 0
      ensures noPrealloc == (old(noPrealloc) || disk.refusals > old(disk.refusals)) && old(disk.refusals) <= disk.refusals
      ensures old(Full()) ==> Full()
    {
      hide WB.Idle, WB.Owes, WB.Plain, GapFree, File.Full;
      var d, o := data, off;
      ghost var phases := 0;
      ghost var failures, writes := disk.failures, disk.writes;
      ghost var target := if wWrite then goal else WB.Plain(goal, Pos(off), data.Bytes(), cap);
      if !wWrite {
        r, d, o := Phase(d, o, true);
        if r != Next {
          return r;
        }
      }
      while true
        invariant Going(o, d) && goal == target
        invariant phases <= 2 && (phases == 2 ==> !wWrite)
        invariant (wWrite && phases == 1) || phases == 2 ==> wcache.userData.len == 0
        invariant disk.writes <= writes + phases && disk.failures == failures
        invariant disk.partials == old(disk.partials) && old(disk.refusals) <= disk.refusals
        invariant noPrealloc == (old(noPrealloc) || disk.refusals > old(disk.refusals))
        invariant old(Full()) ==> Full()
        decreases 2 - phases, !wWrite
      {
        if wWrite {
          phases := phases + 1;
        }
        r, d, o := Phase(d, o, false);
        if r != Next {
          return r;
        }
      }
    }

    /** `k` bytes of the cache have gone out, or the flush is one that cannot succeed. */
    ghost predicate InFlush(v0: WB.View, k: nat, stuck: bool)
      reads this, disk, cache, cache.ptr
    {
      && Shape() && !wWrite && !wcache.continued && !w.async && k <= cache.win.len
      && if stuck then HalfFlushed() && k == 0 else WB.Flushing(v0, V(), k)
    }

    /** What a kernel answer in the middle of a flush means for the account. */
    ghost method FlushAnswer(v0: WB.View, v: WB.View, k: nat, c: Count)
      requires Shape() && !wWrite && !wcache.continued && !w.async
      requires WB.Flushing(v0, v, k) && k < |v0.held| == cache.win.len && v.stdout == stdout
      requires match c
        case Failed(code) => (code == ASYNC || code == ERR) && V() == v
        case Written(n) =>
          && n <= |v0.held| - k
          && V() == WB.Wrote(v, v0.cacheOff + k, v0.held[k..], n, if stdout then n else |v0.held| - k)
      modifies this`goal
      ensures c.Written? ==> WB.Flushing(v0, V(), k + c.n) && goal == old(goal)
      ensures c.Failed? ==> goal == v0.goal
      ensures c == Failed(ASYNC) ==> if stdout && size != v0.size then HalfFlushed() else Idle()
      ensures |v.disk| <= |disk.bytes| && w.prealloc <= Max(v.prealloc, v0.cacheOff + |v0.held|)
    {
      hide Pwrite, Resize, WB.Idle, WB.Owes, WB.Flushing;
      WB.FlushFacts(v0, v, k);
      if c.Written? {
        WB.WroteGrows(v, v0.cacheOff + k, v0.held[k..], c.n, if stdout then c.n else |v0.held| - k);
        WB.FlushStep(v0, v, k, c.n, if stdout then c.n else |v0.held| - k);
      } else {
        goal := v0.goal;
        assert V() == v.(goal := v0.goal);
        if c.code == ASYNC && (stdout ==> k == 0) {
          WB.FlushAgain(v0, v, k);
        }
      }
    }

    /** One pass of the loop in `file_flush`. */
    method FlushPass(d: Str, off: nat, ghost v0: WB.View, ghost k: nat, ghost stuck: bool) returns (c: Count)
      requires InFlush(v0, k, stuck) && k < cache.win.len
      requires d == Str(cache.ptr, k, cache.win.len - k) && off == cache.win.off + k
      modifies this`w, this`size, this`goal, disk
      ensures Shape() && (stuck ==> c == Failed(ERR) && unchanged(this) && unchanged(disk))
      ensures c.Written? ==> c.n <= d.len && InFlush(v0, k + c.n, stuck) && goal == old(goal)
      ensures c.Written? && c.n == 0 ==> disk.stalls < old(disk.stalls)
      ensures disk.stalls <= old(disk.stalls)
      ensures !stuck ==> disk.failures == old(disk.failures) + if c == Failed(ERR) then 1 else 0
      ensures disk.refusals == old(disk.refusals) && old(disk.partials) <= disk.partials
      ensures c == Failed(ASYNC) ==> disk.partials > old(disk.partials)
      ensures old(Settling()) ==> Settling()
      ensures c.Failed? ==> (c.code == ASYNC || c.code == ERR) && (!stuck ==> goal == v0.goal)
      ensures c == Failed(ASYNC) ==> if stdout && size != v0.size then HalfFlushed() else Idle()
    {
      hide Pwrite, Resize, WB.Idle, WB.Owes, WB.Flushing, WB.Wrote;
      ghost var v := V();
      if !stuck {
        WB.FlushFacts(v0, v, k);
      }
      assert stuck || d.Bytes() == v0.held[k..];
      c := FWrite(d, off, v);
      if !stuck {
        FlushAnswer(v0, v, k, c);
      }
    }

    lemma NothingHeld()
      requires Valid() && cache.win.len == 0
      ensures cache.win == Window(0, 0) && (Idle() ==> goal.win == Window(0, 0))
      ensures Idle() && Settling() ==> Full()
    {
      hide Pwrite, Resize;
    }

    lemma PendingHoldsNothing()
      requires Pending()
      ensures cache.win == Window(0, 0)
    {
      hide Pwrite, Resize;
    }

    lemma Settled(v0: WB.View)
      requires Shape() && WB.Flushing(v0, V(), cache.win.len) && Settling()
      ensures Full()
    {
      hide Pwrite, Resize, WB.Flushing;
      if !noPrealloc {
        WB.FlushFacts(v0, V(), cache.win.len);
        WB.FlushSettles(v0, V(), cache.win.len);
      }
    }

    /** `file_flush` with something in the cache. */
    method FlushHeld() returns (r: Ret)
      requires (Idle() || HalfFlushed()) && cache.win.len > 0
      modifies this`w, this`size, this`goal, disk, cache
      ensures Shape() && (r == OK || r == ASYNC || r == ERR)
      ensures r == OK ==> Idle() && cache.win == Window(0, 0) && goal == old(goal).(win := Window(0, 0))
      ensures r == ASYNC ==> goal == old(goal) && if stdout && size != old(size) then HalfFlushed() else Idle()
      ensures old(!HalfFlushed()) ==> disk.failures == old(disk.failures) + if r == ERR then 1 else 0
      ensures old(HalfFlushed()) ==> r == ERR && unchanged(this) && unchanged(disk)
      ensures r != OK ==> cache.win == old(cache.win) && cache.win.len > 0
      ensures disk.refusals == old(disk.refusals) && (r == ASYNC ==> disk.partials > old(disk.partials))
      ensures old(Settling()) ==> if r == OK then Full() else Settling()
    {
      hide Pwrite, Resize, WB.Idle, WB.Owes, WB.Flushing, File.Settling;
      var d := Str(cache.ptr, 0, cache.win.len);
      var off := cache.win.off;
      ghost var k: nat, v0, stuck := 0, V(), HalfFlushed();
      if !stuck {
        WB.FlushStart(v0);
        goal := goal.(win := Window(0, 0));
      }
      while d.len > 0
        invariant InFlush(v0, k, stuck) && cache.win == old(cache.win)
        invariant d == Str(cache.ptr, k, cache.win.len - k) && off == cache.win.off + k
        invariant stuck ==> unchanged(this) && unchanged(disk)
        invariant !stuck ==> disk.failures == old(disk.failures) && goal == v0.goal.(win := Window(0, 0))
        invariant disk.refusals == old(disk.refusals) && old(disk.partials) <= disk.partials
        invariant old(Settling()) ==> Settling()
        decreases disk.stalls, d.len
      {
        var c := FlushPass(d, off, v0, k, stuck);
        if c.Failed? {
          return c.code;
        }
        off := off + c.n;
        d := d.Shift(c.n);
        k := k + c.n;
      }
      WB.FlushEnd(v0, V());
      if Settling() {
        Settled(v0);
      }
      ghost var v := V();
      cache.win := Window(0, 0);
      assert V() == v.(held := [], cacheOff := 0);
      return OK;
    }

    /** `file_flush`: write everything that is in the cache. While a call is pending there is nothing
        in it. A flush can be repeated after ASYNC, unless the output is a pipe that has taken a part
        of the buffer: the repeated call starts from the beginning of the buffer again and is refused
        as an attempt to seek. */
    method Flush() returns (r: Ret)
      requires Valid() || HalfFlushed()
      modifies this`w, this`size, this`goal, disk, cache
      ensures Shape() && (r == OK || r == ASYNC || r == ERR)
      ensures old(Idle()) && r == OK ==> Idle() && cache.win == Window(0, 0) && goal == old(goal).(win := Window(0, 0))
      ensures old(Pending()) ==> r == OK && Pending() && V() == old(V()) && disk.refusals == old(disk.refusals)
      ensures r == ASYNC ==> goal == old(goal) && if stdout && size != old(size) then HalfFlushed() else Idle()
      ensures old(!HalfFlushed()) ==> disk.failures == old(disk.failures) + if r == ERR then 1 else 0
      ensures old(HalfFlushed()) ==> r == ERR && unchanged(this) && unchanged(disk)
      ensures r != OK ==> cache.win == old(cache.win) && cache.win.len > 0
      ensures disk.refusals == old(disk.refusals) && (r == ASYNC ==> disk.partials > old(disk.partials))
      ensures old(Settling()) && !old(Pending()) ==> if r == OK then Full() else Settling()
    {
      hide Pwrite, Resize, WB.Idle, WB.Owes, WB.Flushing;
      if Pending() {
        PendingHoldsNothing();
      }
      if cache.win.len > 0 {
        r := FlushHeld();
        return;
      }
      NothingHeld();
      ghost var v := V();
      cache.win := Window(0, 0);
      assert V() == v;
      return OK;
    }

    /** `prealloc_trunc`: cut off the preallocated space. */
    method PreallocTrunc() returns (ok: bool)
      requires Shape()
      modifies this`w, disk`bytes, disk`refusals
      ensures Shape() && w == old(w).(prealloc := w.prealloc)
      ensures old(Idle()) ==> Idle()
      ensures old(Pending()) ==> Pending()
      ensures old(Idle()) && cache.win.len == 0 && ok ==> disk.bytes == goal.file
      ensures disk.refusals == old(disk.refusals) + if ok then 0 else 1
      ensures old(HalfFlushed()) ==> ok && unchanged(this) && unchanged(disk)
      ensures old(Full()) ==> Full()
    {
      hide Resize, WB.Idle, WB.Owes;
      ResizeBytes(disk.bytes, size);
      ghost var v := V();
      if w.prealloc <= size {
        if Idle() && cache.win.len == 0 {
          WB.ExactLength(v);
        }
        return true;
      }
      if Idle() {
        WB.Trim(v);
      } else if Pending() {
        WB.TrimOwes(v, w.off, w.buf.Bytes(), wcache.userData.Bytes());
      }
      ok := disk.Truncate(size);
      if ok {
        w := w.(prealloc := size);
        assert V() == v.(prealloc := v.size, disk := WB.Logical(v));
        if Idle() && cache.win.len == 0 {
          WB.ExactLength(V());
        }
      }
    }

    /** `file_close`. If the cache could not be flushed its bytes are lost, and they stay behind in
        the cache; if a call is pending, so does the rest of its data. */
    method Close() returns (flushed: Ret, trimmed: bool)
      requires Valid() || HalfFlushed()
      modifies this`w, this`size, this`goal, disk, cache
      ensures Shape()
      ensures old(Idle()) && flushed == OK && trimmed ==> disk.bytes == old(goal.file)
      ensures old(Idle()) && flushed == OK ==> size == |old(goal.file)| && size <= |disk.bytes| && Clean()
      ensures old(Pending()) ==> flushed == OK && Pending()
      ensures old(HalfFlushed()) ==> flushed == ERR && unchanged(this) && unchanged(disk)
      ensures flushed == OK <==> cache.win == Window(0, 0)
      ensures flushed == OK || flushed == ASYNC || flushed == ERR
      ensures flushed == ERR && old(!HalfFlushed()) ==> disk.failures > old(disk.failures)
      ensures flushed == ASYNC ==> disk.partials > old(disk.partials)
      ensures disk.refusals == old(disk.refusals) + if trimmed then 0 else 1
    {
      hide Pwrite, Resize, WB.Idle, WB.Owes;
      if Pending() {
        PendingHoldsNothing();
      }
      flushed := Flush();
      trimmed := PreallocTrunc();
      if Idle() && flushed == OK {
        WB.Flushed(V());
      }
    }
  }

  /** Bytes that a failed flush left behind end up in the next file that the object is used for. */
  method Reuse(f: File, d: Disk) returns (r: Ret)
    requires f.NoCall() && f.cache.win.len > 0 && d.bytes == []
    modifies f, f.cache, d
    ensures r == OK ==>
      && f.Idle() && WB.Logical(f.V()) == Pwrite([], old(f.cache.win.off), old(f.cache.Data()))
      && WB.Logical(f.V()) != []
  {
    hide Pwrite, Resize, WB.Idle, WB.Owes;
    WB.EmptyFile(f.cache.win.off, f.cache.Data());
    f.Open(d, false, false, false);
    ghost var goal := f.goal.file;
    r := f.Flush();
    if r == OK {
      WB.Flushed(f.V());
    }
  }

  /** How a run ends. */
  datatype End = Complete | KernelError | Refused | OutOfTries | FlushUnfinished

  /** One call, repeated with the same arguments while the answer is ASYNC, but not more often
      than `tries` times. `within` says that the bound on `size` has held after each of them. */
  method Submit(f: File, c: WB.Call, tries: nat) returns (r: Ret, left: nat, ghost within: bool)
    requires f.Idle() && -1 <= c.off && GapFree(f.goal.win, f.Pos(c.off), |c.data|, f.cap)
    requires f.stdout ==> f.Pos(c.off) == f.curOff
    modifies f, f.disk, f.cache, f.cache.ptr
    ensures f.disk == old(f.disk) && f.stdout == old(f.stdout)
    ensures f.goal == WB.Plain(old(f.goal), old(f.Pos(c.off)), c.data, f.cap)
    ensures r == OK || r == ASYNC || r == ERR
    ensures r == OK ==> f.Idle()
    ensures r == ASYNC ==> left == 0 && f.Pending()
    ensures f.disk.failures == old(f.disk.failures) + if r == ERR then 1 else 0
    ensures left <= tries && f.disk.partials == old(f.disk.partials) + (tries - left) + if r == ASYNC then 1 else 0
    ensures f.noPrealloc == (old(f.noPrealloc) || f.disk.refusals > old(f.disk.refusals))
    ensures old(f.disk.refusals) <= f.disk.refusals && (old(f.Full()) ==> f.Full())
    ensures !f.goal.holes || (old(f.Full()) && !f.noPrealloc) ==> within
  {
    hide Pwrite, Resize, WB.Idle, WB.Owes, WB.Plain, GapFree;
    hide File.Full, File.Within, File.Idle, File.Pending, File.Shape;
    f.IdleFacts();
    left := tries;
    var mem := new byte[|c.data|](k requires 0 <= k < |c.data| => c.data[k]);
    var data := Str(mem, 0, |c.data|);
    assert data.Bytes() == c.data;
    r := f.Write(data, c.off);
    ghost var goal := f.goal;
    within := r == ERR || f.Within();
    if r != ERR && (!f.goal.holes || (f.Full() && !f.noPrealloc)) {
      f.SizeStaysWithin();
    }
    while r == ASYNC && left > 0
      invariant r == OK || r == ASYNC || r == ERR
      invariant r == OK ==> f.Idle()
      invariant r == ASYNC ==> f.Pending() && f.wWrite
      invariant f.goal == goal && f.disk == old(f.disk) && f.stdout == old(f.stdout)
      invariant f.disk.failures == old(f.disk.failures) + if r == ERR then 1 else 0
      invariant left <= tries && f.disk.partials == old(f.disk.partials) + (tries - left) + if r == ASYNC then 1 else 0
      invariant f.noPrealloc == (old(f.noPrealloc) || f.disk.refusals > old(f.disk.refusals))
      invariant old(f.disk.refusals) <= f.disk.refusals && (old(f.Full()) ==> f.Full())
      invariant !f.goal.holes || (old(f.Full()) && !f.noPrealloc) ==> within
    {
      left := left - 1;
      r := f.Write(data, c.off);
      within := within && (r == ERR || f.Within());
      if r != ERR && (!f.goal.holes || (f.Full() && !f.noPrealloc)) {
        f.SizeStaysWithin();
      }
    }
  }

  /** The beginning of a run: create, open, and optionally preset the length. */
  method Begin(d: Disk, bufferSize: nat, toStdout: bool, withoutPrealloc: bool, truncate: bool, presize: Option<nat>)
    returns (f: File, ok: bool)
    requires d.bytes == [] || (truncate && !toStdout)
    modifies d
    ensures fresh(f) && fresh(f.cache) && fresh(f.cache.ptr) && f.disk == d && f.stdout == toStdout
    ensures f.cap == Capacity(bufferSize)
    ensures ok ==> f.Fresh() && f.Full()
    ensures ok || d.refusals > old(d.refusals)
    ensures d.failures == old(d.failures) && d.partials == old(d.partials) && old(d.refusals) <= d.refusals
    ensures f.noPrealloc ==> toStdout || withoutPrealloc || d.refusals > old(d.refusals)
  {
    hide Pwrite, Resize, WB.Idle, File.Full;
    f := new File.Create(bufferSize, d);
    f.Open(d, toStdout, withoutPrealloc, truncate);
    if d.bytes != [] {
      return f, false;
    }
    if presize.Some? && !toStdout {
      f.Trunc(presize.value);
    }
    return f, true;
  }

  /** A whole run: create, open, optionally preset the length, write, close. When all calls are
      accepted and the cache is flushed, the file is that of plain writes, each at its place and one
      over the other; any other end has its
      cause in the kernel. The bound on `size` holds after every call and every repetition if no call
      leaves a hole, or if the length is preallocated and the system never refuses to set it. */
  method Session(d: Disk, bufferSize: nat, toStdout: bool, withoutPrealloc: bool, truncate: bool, presize: Option<nat>,
                 calls: seq<WB.Call>, tries: nat)
    returns (end: End, ghost within: bool)
    requires d.bytes == [] || (truncate && !toStdout)
    requires WB.GapFreeRun(calls, Capacity(bufferSize))
    requires toStdout ==> forall c :: c in calls ==> c.off == -1
    modifies d
    ensures end == Complete ==> d.bytes == WB.Overlaid(calls, |calls|)
    ensures end == KernelError ==> d.failures > old(d.failures)
    ensures end == Refused ==> d.refusals > old(d.refusals)
    ensures end == OutOfTries ==> d.partials >= old(d.partials) + tries + 1
    ensures end == FlushUnfinished ==> d.partials > old(d.partials)
    ensures WB.NoHoles(calls) ==> within
    ensures !toStdout && !withoutPrealloc && d.refusals == old(d.refusals) ==> within
  {
    hide Pwrite, Resize, WB.Plain, WB.Overlaid, WB.Start, GapFree, WB.NoHoles, WB.Idle, WB.Owes;
    hide File.Full, File.Within, File.Pending, File.Shape, File.HalfFlushed;
    within := true;
    var f, ok := Begin(d, bufferSize, toStdout, withoutPrealloc, truncate, presize);
    if !ok {
      return Refused, within;
    }
    var left: nat := tries;
    for i := 0 to |calls|
      invariant f.Idle() && f.disk == d && f.stdout == toStdout && f.Full()
      invariant fresh(f) && fresh(f.cache) && fresh(f.cache.ptr)
      invariant f.goal == WB.PlainRun(calls, i, f.cap)
      invariant d.failures == old(d.failures) && old(d.refusals) <= d.refusals
      invariant left <= tries && d.partials == old(d.partials) + (tries - left)
      invariant f.noPrealloc ==> toStdout || withoutPrealloc || d.refusals > old(d.refusals)
      invariant within || (f.noPrealloc && !WB.NoHoles(calls))
    {
      assert WB.GapFreeCall(calls, i, f.cap);
      WB.RunIsOverlaid(calls, i, f.cap);
      f.IdleFacts();
      var r;
      ghost var w;
      r, left, w := Submit(f, calls[i], left);
      if WB.NoHoles(calls) {
        WB.PrefixHasNoHoles(calls, i + 1, f.cap);
      }
      within := within && w;
      if r != OK {
        return if r == ERR then KernelError else OutOfTries, within;
      }
    }
    WB.RunIsOverlaid(calls, |calls|, f.cap);
    f.IdleFacts();
    var flushed, trimmed := f.Close();
    end := if flushed == ERR then KernelError else if flushed == ASYNC then FlushUnfinished
      else if trimmed then Complete else Refused;
  }
}
