/** The state of a file under a write-back cache, on values: what must hold between the steps of
    src/core/file.c, and why each step keeps it. */
module WriteBack {
  import opened Bytes
  import opened Fbuf

  /** What the calls accepted so far ask for: the contents of the file, the current position, the
      window left in the cache, and whether some call has started behind the end of the file. */
  datatype Goal = Goal(file: seq<byte>, pos: nat, win: Window, holes: bool)

  const EMPTY := Goal([], 0, Window(0, 0), false)

  /** A write of `data` at `off` without any cache. */
  function Plain(g: Goal, off: nat, data: seq<byte>, cap: nat): Goal
  {
    Goal(Pwrite(g.file, off, data), off + |data|, NextWindow(g.win, off, |data|, cap),
         g.holes || (data != [] && |g.file| < off))
  }

  datatype View = View(
    cap: nat, stdout: bool,
    disk: seq<byte>, size: nat, prealloc: nat,
    cacheOff: nat, held: seq<byte>, curOff: nat,
    goal: Goal)

  /** The bytes of the disk file that count are those in front of `size`. */
  function Logical(v: View): seq<byte> { Resize(v.disk, v.size) }

  ghost predicate ZeroBeyond(file: seq<byte>, size: nat)
  {
    forall i :: size <= i < |file| ==> file[i] == 0
  }

  /** The disk file and the size fields, when `n` bytes are still to go to `off`. The size can be
      ahead of the disk file only if the kernel took nothing of a write behind its end. */
  ghost predicate DiskOk(v: View, off: nat, n: nat)
  {
    && ZeroBeyond(v.disk, v.size) && |v.disk| <= v.prealloc
    && (v.size <= |v.disk| || (n > 0 && v.size <= off))
    && (v.stdout ==> |v.disk| == v.size == v.prealloc)
  }

  /** As long as no call has left a hole in the file, no write to the disk starts behind `size`, and
      the disk file reaches that far. */
  ghost predicate Level(v: View, off: nat, n: nat)
  {
    !v.goal.holes ==> v.size <= |v.disk| && (n > 0 ==> off <= v.size)
  }

  /** What follows starts no later than where `size` will be when the bytes up to `end` are out. */
  ghost predicate LevelNext(v: View, off: nat, n: nat, end: nat)
  {
    !v.goal.holes && n > 0 ==> off <= Max(v.size, end)
  }

  /** `size <= disk length <= prealloc` */
  ghost predicate Within(v: View)
  {
    v.size <= |v.disk| <= v.prealloc
  }

  /** No call is in progress: the disk overlaid with the cache is the wanted file. */
  ghost predicate Idle(v: View)
  {
    && |v.held| < v.cap && (v.held == [] ==> v.cacheOff == 0)
    && DiskOk(v, v.cacheOff, |v.held|) && Level(v, v.cacheOff, |v.held|)
    && v.goal.file == Pwrite(Logical(v), v.cacheOff, v.held)
    && v.goal.pos == v.curOff && v.goal.win == Window(v.cacheOff, |v.held|)
    && (v.stdout ==> v.curOff == v.size + |v.held| && (v.held != [] ==> v.cacheOff == v.size))
  }

  /** The cache, and then `d` at `pos`, are all that the disk lacks. */
  ghost predicate Lacks(v: View, pos: nat, d: seq<byte>)
  {
    && |v.held| < v.cap && (v.held == [] ==> v.cacheOff == 0)
    && GapFree(Window(v.cacheOff, |v.held|), pos, |d|, v.cap)
    && DiskOk(v, v.cacheOff, |v.held|) && Level(v, v.cacheOff, |v.held|)
    && LevelNext(v, pos, |d|, v.cacheOff + |v.held|)
    && v.goal.file == Pwrite(Pwrite(Logical(v), v.cacheOff, v.held), pos, d)
    && v.goal.pos == pos + |d| && v.goal.win == NextWindow(Window(v.cacheOff, |v.held|), pos, |d|, v.cap)
    && (v.stdout ==> pos == v.size + |v.held| && (v.held != [] ==> v.cacheOff == v.size))
  }

  /** The cache is empty; `d` at `off`, and then `rest` at the current position, are all that the
      disk lacks. */
  ghost predicate Owes(v: View, off: nat, d: seq<byte>, rest: seq<byte>)
  {
    && 0 < v.cap && v.held == [] && v.cacheOff == 0
    && DiskOk(v, off, |d|) && Level(v, off, |d|)
    && (!v.goal.holes ==> off <= v.size) && LevelNext(v, v.curOff, |rest|, off + |d|)
    && v.goal.file == Pwrite(Pwrite(Logical(v), off, d), v.curOff, rest)
    && v.goal.pos == v.curOff + |rest| && v.goal.win == Store(v.curOff, |rest|, v.cap)
    && (v.stdout ==> off == v.size && v.curOff == off + |d|)
  }

  lemma NewFile(v: View)
    requires v.disk == [] && v.held == [] && v.goal == EMPTY
    requires v.size == v.prealloc == v.cacheOff == v.curOff == 0 < v.cap
    ensures Idle(v)
  {
    PwriteNothing(Logical(v), 0);
  }

  /** Bytes left over in the cache are for a new file what its first call would be. */
  lemma LeftOver(v: View)
    requires v.disk == [] && |v.held| < v.cap && (v.held == [] ==> v.cacheOff == 0) && !v.stdout
    requires v.size == v.prealloc == v.curOff == 0
    requires v.goal == Plain(EMPTY, v.cacheOff, v.held, v.cap).(pos := 0)
    ensures Idle(v)
  {
    hide Pwrite;
    assert Logical(v) == [];
    PwriteNothing([], 0);
    if v.held == [] {
      assert v.goal == EMPTY;
    } else {
      assert v.goal.win == Window(v.cacheOff, |v.held|);
    }
  }

  /** An empty file needs no bytes, and any byte makes it longer. */
  lemma EmptyFile(off: nat, held: seq<byte>)
    ensures Pwrite([], off, held) == [] <==> held == []
  {
    PwriteBytes([], off, held);
    PwriteNothing([], off);
  }

  /** Setting the length of the disk file to `n` changes nothing that counts, if that does not cut
      off anything that counts. */
  lemma Preset(v: View, n: nat)
    requires Idle(v) && !v.stdout && v.size <= n
    ensures |v.disk| <= n ==> Idle(v.(prealloc := n))
    ensures Idle(v.(prealloc := n, disk := Resize(v.disk, n)))
  {
    ResizeBytes(v.disk, n);
    ResizeBytes(v.disk, v.size);
    ResizeBytes(Resize(v.disk, n), v.size);
    assert Resize(Resize(v.disk, n), v.size) == Resize(v.disk, v.size);
  }

  /** The wanted file ends where the disk file or the cache ends. */
  lemma GoalLength(v: View)
    requires Idle(v)
    ensures |v.goal.file| == if v.held == [] then v.size else Max(v.size, v.cacheOff + |v.held|)
  {
    ResizeBytes(v.disk, v.size);
    PwriteBytes(Logical(v), v.cacheOff, v.held);
  }

  lemma AcceptCall(v: View, pos: nat, d: seq<byte>)
    requires Idle(v) && GapFree(v.goal.win, pos, |d|, v.cap) && (v.stdout ==> pos == v.curOff)
    ensures Lacks(v.(goal := Plain(v.goal, pos, d, v.cap)), pos, d)
  {
    hide Pwrite, Resize;
    GoalLength(v);
  }

  /** When the write phase is done, the rest of the user's data is treated like a new call. */
  lemma Continue(v: View, off: nat, rest: seq<byte>)
    requires Owes(v, off, [], rest)
    ensures Lacks(v, v.curOff, rest)
  {
  }

  /** Nor does the cache phase let a write start behind `size`. */
  lemma CachePhaseLevel(v: View, pos: nat, d: seq<byte>)
    requires |v.held| < v.cap && (v.held == [] ==> v.cacheOff == 0)
    requires GapFree(Window(v.cacheOff, |v.held|), pos, |d|, v.cap)
    requires Level(v, v.cacheOff, |v.held|) && LevelNext(v, pos, |d|, v.cacheOff + |v.held|)
    ensures match Absorb(v.cacheOff, v.held, v.cap, d, pos)
      case Kept(o, h) => Level(v.(cacheOff := o, held := h, curOff := pos + |d|), o, |h|)
      case Emit(woff, out, rest) =>
        |rest| <= |d| && var v' := v.(cacheOff := 0, held := [], curOff := pos + |d| - |rest|);
        && Level(v', woff, |out|) && (!v'.goal.holes ==> woff <= v'.size)
        && LevelNext(v', v'.curOff, |rest|, woff + |out|)
  {
  }

  /** The cache phase keeps track of every byte. */
  lemma CachePhase(v: View, pos: nat, d: seq<byte>)
    requires Lacks(v, pos, d)
    ensures match Absorb(v.cacheOff, v.held, v.cap, d, pos)
      case Kept(o, h) => Idle(v.(cacheOff := o, held := h, curOff := pos + |d|))
      case Emit(woff, out, rest) =>
        && out != [] && |rest| <= |d| && (v.held == [] ==> rest == [] && d != [])
        && Owes(v.(cacheOff := 0, held := [], curOff := pos + |d| - |rest|), woff, out, rest)
  {
    hide Pwrite, Resize, ZeroBeyond, Level, LevelNext, Absorb, NextWindow, GapFree;
    CachePhaseLevel(v, pos, d);
    PwriteNothing(Logical(v), 0);
    AbsorbIsPwrite(Logical(v), v.cacheOff, v.held, v.cap, d, pos);
    AbsorbWindow(v.cacheOff, v.held, v.cap, d, pos);
  }

  /** A kernel write of `r` bytes of `d`: the view afterwards. `len` is what the code counts as
      covered by preallocation. */
  function Wrote(v: View, off: nat, d: seq<byte>, r: nat, len: nat): View
    requires r <= |d|
  {
    v.(disk := Pwrite(v.disk, off, d[..r]), size := Max(v.size, off + r), prealloc := Max(v.prealloc, off + len))
  }

  /** The disk file gets no shorter, and no more is counted as preallocated than the chunk covers. */
  lemma WroteGrows(v: View, off: nat, d: seq<byte>, r: nat, len: nat)
    requires r <= len <= |d|
    ensures |v.disk| <= |Wrote(v, off, d, r, len).disk|
    ensures v.prealloc <= Wrote(v, off, d, r, len).prealloc <= Max(v.prealloc, off + |d|)
  {
    PwriteBytes(v.disk, off, d[..r]);
  }

  /** A partial write leaves exactly the rest of the data to be written. */
  lemma PartialWrite(file: seq<byte>, size: nat, off: nat, d: seq<byte>, r: nat)
    requires ZeroBeyond(file, size) && d != [] && r <= |d|
    ensures var file' := Pwrite(file, off, d[..r]);
      var size' := Max(size, off + r);
      && ZeroBeyond(file', size')
      && |file'| == (if r == 0 then |file| else Max(|file|, off + r))
      && Pwrite(Resize(file', size'), off + r, d[r..]) == Pwrite(Resize(file, size), off, d)
  {
    hide Pwrite, Resize;
    var file', size' := Pwrite(file, off, d[..r]), Max(size, off + r);
    ResizeBytes(file, size);
    PwriteBytes(file, off, d[..r]);
    ResizeBytes(file', size');
    PwriteBytes(Resize(file, size), off, d);
    PwriteBytes(Resize(file', size'), off + r, d[r..]);
  }

  lemma WritePhase(v: View, off: nat, d: seq<byte>, rest: seq<byte>, r: nat, len: nat)
    requires Owes(v, off, d, rest) && d != []
    requires r <= len <= |d| && (v.stdout ==> len == r)
    ensures Owes(Wrote(v, off, d, r, len), off + r, d[r..], rest)
  {
    PartialWrite(v.disk, v.size, off, d, r);
    hide Pwrite, Resize, ZeroBeyond;
  }

  /** What a kernel write does to the bound on `size`, by how much the kernel took. */
  lemma SizeAfterWrite(v: View, off: nat, d: seq<byte>, r: nat, len: nat)
    requires DiskOk(v, off, |d|) && d != []
    requires r <= len <= |d| && (v.stdout ==> len == r)
    ensures |Wrote(v, off, d, r, len).disk| <= Wrote(v, off, d, r, len).prealloc
    ensures Within(Wrote(v, off, d, r, len)) <==> r > 0 || Max(v.size, off) <= |v.disk|
  {
    hide Pwrite, Resize, ZeroBeyond;
    PwriteBytes(v.disk, off, d[..r]);
  }

  /** Whatever the kernel answers to a write. */
  ghost predicate AlwaysWithin(v: View, off: nat, d: seq<byte>)
  {
    forall r: nat, len: nat :: r <= len <= |d| && (v.stdout ==> len == r) ==> Within(Wrote(v, off, d, r, len))
  }

  /** The bound on `size` survives a kernel write, whatever the kernel takes of it, exactly if the
      disk file reaches to where the write starts, and to `size`. */
  lemma SizeWithinDisk(v: View, off: nat, d: seq<byte>)
    requires DiskOk(v, off, |d|) && d != []
    ensures AlwaysWithin(v, off, d) <==> Max(v.size, off) <= |v.disk|
  {
    hide Wrote, Within, DiskOk;
    if Max(v.size, off) <= |v.disk| {
      forall r: nat, len: nat | r <= len <= |d| && (v.stdout ==> len == r)
        ensures Within(Wrote(v, off, d, r, len))
      {
        SizeAfterWrite(v, off, d, r, len);
      }
    } else {
      SizeAfterWrite(v, off, d, 0, 0);
      assert !Within(Wrote(v, off, d, 0, 0));
    }
  }

  /** The bound fails: the first call on a new file writes 4096 bytes at offset 10, which fill the
      cache; there is no preallocation, and the kernel takes nothing. */
  lemma SizePassesDisk() returns (v: View, d: seq<byte>)
    ensures |d| == 4096 && Idle(v) && v.cap == 4096 && v.disk == [] && v.prealloc == 0 && v.goal == EMPTY
    ensures var w := v.(goal := Plain(EMPTY, 10, d, 4096), curOff := 10 + 4096);
      && Absorb(0, [], 4096, d, 10) == Emit(10, d, []) && Owes(w, 10, d, [])
      && Wrote(w, 10, d, 0, |d|).size == 10 && Wrote(w, 10, d, 0, |d|).disk == []
      && !Within(Wrote(w, 10, d, 0, |d|))
  {
    d := seq(4096, _ => 1);
    v := View(4096, false, [], 0, 0, 0, [], 0, EMPTY);
    NewFile(v);
    hide Pwrite, Resize;
    AcceptCall(v, 10, d);
    CachePhase(v.(goal := Plain(EMPTY, 10, d, 4096)), 10, d);
    PwriteNothing([], 10);
  }

  /** With a disk file that is as long as what has been preallocated, and longer than the chunk's
      end, no answer of the kernel changes its length. */
  lemma TightWrite(v: View, off: nat, d: seq<byte>, r: nat, len: nat)
    requires v.size <= |v.disk| == v.prealloc && off + |d| <= v.prealloc && r <= len <= |d|
    ensures var w := Wrote(v, off, d, r, len); w.size <= |w.disk| == w.prealloc
  {
    PwriteBytes(v.disk, off, d[..r]);
  }

  /** A call on a file without preallocation, with nothing in the cache: its data goes to the disk
      at once, or at the next flush. The bound on `size` is safe from every answer of the kernel
      exactly if the call leaves no hole. */
  lemma HolesBreakTheBound(v: View, pos: nat, d: seq<byte>)
    requires Idle(v) && v.held == [] && d != [] && !v.stdout && |v.disk| == v.size
    ensures var w := v.(goal := Plain(v.goal, pos, d, v.cap), curOff := pos + |d|);
      match Absorb(v.cacheOff, v.held, v.cap, d, pos)
      case Emit(woff, out, rest) => Owes(w, woff, out, rest) && (AlwaysWithin(w, woff, out) <==> pos <= |v.goal.file|)
      case Kept(o, h) =>
        && Idle(w.(cacheOff := o, held := h))
        && (AlwaysWithin(w.(cacheOff := o, held := h), o, h) <==> pos <= |v.goal.file|)
  {
    hide Pwrite, Resize, AlwaysWithin;
    GoalLength(v);
    AcceptCall(v, pos, d);
    CachePhase(v.(goal := Plain(v.goal, pos, d, v.cap)), pos, d);
    var w := v.(goal := Plain(v.goal, pos, d, v.cap), curOff := pos + |d|);
    if v.cap <= |d| {
      SizeWithinDisk(w, pos, d);
    } else {
      SizeWithinDisk(w.(cacheOff := pos, held := d), pos, d);
    }
  }

  /** Growing the disk file ahead of the data changes nothing that counts. */
  lemma Grow(v: View, off: nat, d: seq<byte>, rest: seq<byte>, n: nat)
    requires Owes(v, off, d, rest) && !v.stdout && v.prealloc <= n
    ensures Owes(v.(prealloc := n), off, d, rest)
    ensures Owes(v.(prealloc := n, disk := Resize(v.disk, n)), off, d, rest)
  {
    ResizeBytes(v.disk, n);
    ResizeBytes(v.disk, v.size);
    ResizeBytes(Resize(v.disk, n), v.size);
    assert Resize(Resize(v.disk, n), v.size) == Resize(v.disk, v.size);
  }

  /** On a pipe the data owed always starts at the end of what has been sent. */
  lemma InSequence(v: View, off: nat, d: seq<byte>, rest: seq<byte>)
    requires Owes(v, off, d, rest) && v.stdout
    ensures off == v.size == |v.disk|
  {
  }

  /** `file_flush` is between two kernel writes: `k` bytes of the buffer have gone out. */
  ghost predicate Flushing(v0: View, v: View, k: nat)
  {
    && Idle(v0) && v0.held != [] && k <= |v0.held|
    && Owes(v.(held := [], cacheOff := 0), v0.cacheOff + k, v0.held[k..], [])
    && v == v0.(disk := v.disk, size := v.size, prealloc := v.prealloc, goal := v.goal)
    && v.goal == v0.goal.(win := Window(0, 0))
    && v.disk == Pwrite(v0.disk, v0.cacheOff, v0.held[..k])
    && (v.size == Max(v0.size, v0.cacheOff + k) || (k == 0 && v.size == v0.size))
  }

  lemma FlushStart(v0: View)
    requires Idle(v0) && v0.held != []
    ensures Flushing(v0, v0.(goal := v0.goal.(win := Window(0, 0))), 0)
  {
    PwriteNothing(v0.disk, v0.cacheOff);
    assert v0.held[0..] == v0.held && v0.held[..0] == [];
  }

  lemma FlushFacts(v0: View, v: View, k: nat)
    requires Flushing(v0, v, k)
    ensures v.held == v0.held && v.cacheOff == v0.cacheOff && v.stdout == v0.stdout
    ensures v.stdout ==> v0.cacheOff == v0.size && v0.size + k == v.size == |v.disk| == v.prealloc
  {
  }

  lemma FlushStep(v0: View, v: View, k: nat, r: nat, len: nat)
    requires Flushing(v0, v, k) && k < |v0.held|
    requires r <= len <= |v0.held| - k && (v.stdout ==> len == r)
    ensures Flushing(v0, Wrote(v, v0.cacheOff + k, v0.held[k..], r, len), k + r)
  {
    hide Pwrite, Resize, ZeroBeyond, Owes, Idle;
    var d, w := v0.held[k..], v.(held := [], cacheOff := 0);
    WritePhase(w, v0.cacheOff + k, d, [], r, len);
    assert Wrote(w, v0.cacheOff + k, d, r, len)
        == Wrote(v, v0.cacheOff + k, d, r, len).(held := [], cacheOff := 0);
    PwriteAdjacent(v0.disk, v0.cacheOff, v0.held[..k], d[..r]);
    assert v0.held[..k] + d[..r] == v0.held[..k + r];
    assert d[r..] == v0.held[k + r..];
  }

  ghost predicate AlwaysWithinFlush(v0: View)
  {
    forall v: View, k: nat :: Flushing(v0, v, k) ==> Within(v)
  }

  lemma FlushKeepsWithin(v0: View, v: View, k: nat)
    requires Flushing(v0, v, k) && Max(v0.size, v0.cacheOff) <= |v0.disk|
    ensures Within(v)
  {
    hide Resize, ZeroBeyond;
    PwriteBytes(v0.disk, v0.cacheOff, v0.held[..k]);
  }

  lemma FlushBreaks(v0: View)
    requires Idle(v0) && v0.held != [] && |v0.disk| < Max(v0.size, v0.cacheOff)
    ensures var start := v0.(goal := v0.goal.(win := Window(0, 0)));
      !Within(Wrote(start, v0.cacheOff, v0.held[0..], 0, 0))
  {
    hide Resize, ZeroBeyond;
    PwriteNothing(v0.disk, v0.cacheOff);
  }

  /** `size` stays within the disk file from the first to the last write of a flush, whatever the
      kernel takes of each, exactly if the disk file reaches to where the cached bytes start, and to
      `size`. A flush does not preallocate. */
  lemma FlushWithin(v0: View)
    requires Idle(v0) && v0.held != []
    ensures AlwaysWithinFlush(v0) <==> Max(v0.size, v0.cacheOff) <= |v0.disk|
  {
    hide Flushing, Wrote, Pwrite, Resize, Idle;
    var start := v0.(goal := v0.goal.(win := Window(0, 0)));
    if Max(v0.size, v0.cacheOff) <= |v0.disk| {
      forall v: View, k: nat | Flushing(v0, v, k) ensures Within(v) {
        FlushKeepsWithin(v0, v, k);
      }
    } else {
      FlushStart(v0);
      FlushStep(v0, start, 0, 0, 0);
      FlushBreaks(v0);
    }
  }

  /** A flush that reaches its end restores the bound, and the disk file is again as long as what has
      been preallocated, if nothing but the cached bytes was missing. */
  lemma FlushSettles(v0: View, v: View, k: nat)
    requires Flushing(v0, v, k) && v.prealloc <= Max(|v.disk|, v0.cacheOff + |v0.held|)
    ensures k == |v0.held| ==> v.size <= |v.disk| == v.prealloc
  {
    hide Resize, ZeroBeyond;
    PwriteBytes(v0.disk, v0.cacheOff, v0.held[..k]);
  }

  /** A complete flush leaves the wanted file in front of `size`. */
  lemma FlushEnd(v0: View, v: View)
    requires Flushing(v0, v, |v0.held|)
    ensures Idle(v.(held := [], cacheOff := 0))
  {
    assert v0.held[|v0.held|..] == [];
    PwriteNothing(Logical(v), v.curOff);
    PwriteNothing(Logical(v), v0.cacheOff + |v0.held|);
    PwriteNothing(Logical(v), 0);
    hide Pwrite, Resize;
  }

  /** With nothing in the cache the disk file is the wanted file, up to preallocated space. */
  lemma Flushed(v: View)
    requires Idle(v) && v.held == []
    ensures v.goal.file == Logical(v) && v.size == |v.goal.file| <= |v.disk|
    ensures v.goal.win == Window(0, 0) && v.cacheOff == 0
  {
    PwriteNothing(Logical(v), 0);
    ResizeBytes(v.disk, v.size);
  }

  lemma ExactLength(v: View)
    requires Idle(v) && v.held == [] && v.prealloc <= v.size
    ensures v.disk == v.goal.file
  {
    Flushed(v);
    assert v.disk == v.disk[..v.size];
  }

  /** A flush that stops half-way can be repeated from the start of the buffer, except on a pipe
      that has taken something: the bytes that went out already go out once more, to the same
      place. */
  lemma FlushAgain(v0: View, v: View, k: nat)
    requires Flushing(v0, v, k) && (v.stdout ==> k == 0)
    ensures Idle(v.(goal := v0.goal))
  {
    hide Pwrite, Resize;
    var d := v0.held[..k];
    PwriteBytes(v0.disk, v0.cacheOff, d);
    ResizeBytes(v0.disk, v0.size);
    ResizeBytes(v.disk, v.size);
    PwriteBytes(Resize(v0.disk, v0.size), v0.cacheOff, v0.held);
    PwriteBytes(Resize(v.disk, v.size), v0.cacheOff, v0.held);
    assert Pwrite(Resize(v.disk, v.size), v0.cacheOff, v0.held) == v0.goal.file;
  }

  /** Cutting off the preallocated space changes nothing that counts. */
  lemma Trim(v: View)
    requires Idle(v) && v.size < v.prealloc
    ensures !v.stdout && Idle(v.(prealloc := v.size, disk := Logical(v)))
  {
    ResizeBytes(v.disk, v.size);
    assert Resize(Logical(v), v.size) == Logical(v);
  }

  lemma TrimOwes(v: View, off: nat, d: seq<byte>, rest: seq<byte>)
    requires Owes(v, off, d, rest) && v.size < v.prealloc
    ensures !v.stdout && Owes(v.(prealloc := v.size, disk := Logical(v)), off, d, rest)
  {
    ResizeBytes(v.disk, v.size);
    assert Resize(Logical(v), v.size) == Logical(v);
  }

  /** One call. An offset of -1 is the place where the call before it has ended. */
  datatype Call = Call(data: seq<byte>, off: int)

  /** Where the bytes of a call start. */
  function Start(calls: seq<Call>, i: nat): nat
    requires i < |calls| && forall c :: c in calls ==> -1 <= c.off
  {
    if calls[i].off >= 0 then calls[i].off
    else if i == 0 then 0
    else Start(calls, i - 1) + |calls[i - 1].data|
  }

  /** Where they end. */
  function End(calls: seq<Call>, i: nat): nat
    requires i < |calls| && forall c :: c in calls ==> -1 <= c.off
  {
    Start(calls, i) + |calls[i].data|
  }

  /** The file that plain writes leave: each call at its place, one over the other. */
  function Overlaid(calls: seq<Call>, n: nat): seq<byte>
    requires n <= |calls| && forall c :: c in calls ==> -1 <= c.off
  {
    if n == 0 then [] else Pwrite(Overlaid(calls, n - 1), Start(calls, n - 1), calls[n - 1].data)
  }

  predicate Covers(calls: seq<Call>, k: nat, i: nat)
    requires k < |calls| && forall c :: c in calls ==> -1 <= c.off
  {
    Start(calls, k) <= i < Start(calls, k) + |calls[k].data|
  }

  /** The last call that covers a position decides about the byte there. */
  lemma {:induction false} LastCallWins(calls: seq<Call>, n: nat, k: nat, i: nat)
    requires k < n <= |calls| && forall c :: c in calls ==> -1 <= c.off
    requires Covers(calls, k, i) && forall m :: k < m < n ==> !Covers(calls, m, i)
    ensures i < |Overlaid(calls, n)| && Overlaid(calls, n)[i] == calls[k].data[i - Start(calls, k)]
  {
    hide Pwrite, Start;
    PwriteBytes(Overlaid(calls, n - 1), Start(calls, n - 1), calls[n - 1].data);
    if k < n - 1 {
      assert !Covers(calls, n - 1, i);
      LastCallWins(calls, n - 1, k, i);
    }
  }

  /** A byte that no call covers is zero. */
  lemma {:induction false} UncoveredIsZero(calls: seq<Call>, n: nat, i: nat)
    requires n <= |calls| && forall c :: c in calls ==> -1 <= c.off
    requires forall m :: 0 <= m < n ==> !Covers(calls, m, i)
    ensures At(Overlaid(calls, n), i) == 0
  {
    hide Pwrite, Start;
    if n > 0 {
      assert !Covers(calls, n - 1, i);
      PwriteBytes(Overlaid(calls, n - 1), Start(calls, n - 1), calls[n - 1].data);
      UncoveredIsZero(calls, n - 1, i);
    }
  }

  /** The length of the file is the greatest end of any byte written. */
  ghost predicate GreatestEnd(calls: seq<Call>, n: nat, len: nat)
    requires n <= |calls| && forall c :: c in calls ==> -1 <= c.off
  {
    && (forall i :: 0 <= i < n && calls[i].data != [] ==> End(calls, i) <= len)
    && (len > 0 ==> exists i :: 0 <= i < n && calls[i].data != [] && End(calls, i) == len)
  }

  lemma {:induction false} LengthIsGreatestEnd(calls: seq<Call>, n: nat)
    requires n <= |calls| && forall c :: c in calls ==> -1 <= c.off
    ensures GreatestEnd(calls, n, |Overlaid(calls, n)|)
  {
    hide Pwrite, Start;
    if n > 0 {
      var k := n - 1;
      LengthIsGreatestEnd(calls, k);
      var before, after := |Overlaid(calls, k)|, |Overlaid(calls, n)|;
      PwriteBytes(Overlaid(calls, k), Start(calls, k), calls[k].data);
      if after > 0 {
        if after == before {
          var i :| 0 <= i < k && calls[i].data != [] && End(calls, i) == before;
          assert End(calls, i) == after;
        } else {
          assert End(calls, k) == after;
        }
      }
    }
  }

  /** A call starts no later than where the file that the calls before it make ends. */
  ghost predicate StartsInside(calls: seq<Call>, i: nat)
    requires i < |calls| && forall c :: c in calls ==> -1 <= c.off
  {
    calls[i].data == [] || Start(calls, i) <= |Overlaid(calls, i)|
  }

  ghost predicate NoHoles(calls: seq<Call>)
    requires forall c :: c in calls ==> -1 <= c.off
  {
    forall i :: 0 <= i < |calls| ==> StartsInside(calls, i)
  }

  /** A run of calls as the cache sees it, one call after the other from where it stands. */
  function PlainRun(calls: seq<Call>, n: nat, cap: nat): Goal
    requires n <= |calls| && forall c :: c in calls ==> -1 <= c.off
  {
    if n == 0 then EMPTY
    else
      var g, c := PlainRun(calls, n - 1, cap), calls[n - 1];
      Plain(g, if c.off == -1 then g.pos else c.off, c.data, cap)
  }

  /** It leads to the file of plain writes, and to the end of the last call. */
  lemma {:induction false} RunIsOverlaid(calls: seq<Call>, n: nat, cap: nat)
    requires n <= |calls| && forall c :: c in calls ==> -1 <= c.off
    ensures PlainRun(calls, n, cap).file == Overlaid(calls, n)
    ensures PlainRun(calls, n, cap).pos == if n == 0 then 0 else End(calls, n - 1)
    ensures n < |calls| ==>
      Start(calls, n) == if calls[n].off == -1 then PlainRun(calls, n, cap).pos else calls[n].off
  {
    hide Pwrite, NextWindow;
    if n > 0 {
      RunIsOverlaid(calls, n - 1, cap);
    }
  }

  ghost predicate GapFreeCall(calls: seq<Call>, i: nat, cap: nat)
    requires i < |calls| && forall c :: c in calls ==> -1 <= c.off
  {
    GapFree(PlainRun(calls, i, cap).win, Start(calls, i), |calls[i].data|, cap)
  }

  /** Every call leaves no gap in the window that the calls before it leave in the cache. */
  ghost predicate GapFreeRun(calls: seq<Call>, cap: nat)
  {
    && (forall c :: c in calls ==> -1 <= c.off)
    && forall i :: 0 <= i < |calls| ==> GapFreeCall(calls, i, cap)
  }

  lemma NextWindowInSequence(w: Window, pos: nat, n: nat, cap: nat)
    requires w.len < cap && (w.len > 0 ==> w.off + w.len == pos)
    ensures var next := NextWindow(w, pos, n, cap);
      next.len < cap && (next.len > 0 ==> next.off + next.len == pos + n)
  {
  }

  lemma {:induction false} SequentialWindow(calls: seq<Call>, n: nat, cap: nat)
    requires n <= |calls| && cap > 0 && forall c :: c in calls ==> c.off == -1
    ensures var g := PlainRun(calls, n, cap);
      g.win.len < cap && (g.win.len > 0 ==> g.win.off + g.win.len == g.pos) && |g.file| == g.pos
  {
    hide Pwrite, NextWindow;
    if n > 0 {
      SequentialWindow(calls, n - 1, cap);
      var g := PlainRun(calls, n - 1, cap);
      NextWindowInSequence(g.win, g.pos, |calls[n - 1].data|, cap);
      PwriteBytes(g.file, g.pos, calls[n - 1].data);
    }
  }

  /** Calls that follow each other never leave a gap, whatever their sizes are. */
  lemma SequentialIsGapFree(calls: seq<Call>, cap: nat)
    requires cap > 0 && forall c :: c in calls ==> c.off == -1
    ensures GapFreeRun(calls, cap)
  {
    forall i | 0 <= i < |calls| ensures GapFreeCall(calls, i, cap) {
      SequentialWindow(calls, i, cap);
      RunIsOverlaid(calls, i, cap);
    }
  }

  /** The flag says exactly whether there is a hole. */
  lemma {:induction false} HolesOfCalls(calls: seq<Call>, n: nat, cap: nat)
    requires n <= |calls| && forall c :: c in calls ==> -1 <= c.off
    ensures PlainRun(calls, n, cap).holes <==> exists i :: 0 <= i < n && !StartsInside(calls, i)
  {
    hide Pwrite, NextWindow, Start;
    if n > 0 {
      var k := n - 1;
      HolesOfCalls(calls, k, cap);
      RunIsOverlaid(calls, k, cap);
      assert PlainRun(calls, n, cap).holes <==> PlainRun(calls, k, cap).holes || !StartsInside(calls, k);
    }
  }

  lemma PrefixHasNoHoles(calls: seq<Call>, n: nat, cap: nat)
    requires (forall c :: c in calls ==> -1 <= c.off) && NoHoles(calls) && n <= |calls|
    ensures !PlainRun(calls, n, cap).holes
  {
    hide PlainRun, StartsInside;
    HolesOfCalls(calls, n, cap);
  }

  /** Calls that follow each other never leave a hole. */
  lemma SequentialHasNoHoles(calls: seq<Call>)
    requires forall c :: c in calls ==> c.off == -1
    ensures NoHoles(calls)
  {
    forall i | 0 <= i < |calls| ensures StartsInside(calls, i) {
      SequentialWindow(calls, i, 1);
      RunIsOverlaid(calls, i, 1);
    }
  }
}
