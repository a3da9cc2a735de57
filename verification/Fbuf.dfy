/** src/core/fbuf.h: one file buffer, and the rule by which it absorbs writes. */
module Fbuf {
  import opened Bytes

  /** The part of the file that a write-back buffer holds. */
  datatype Window = Window(off: nat, len: nat)

  /** The window left when `n` bytes arrive at `off` while the buffer is empty. */
  function Store(off: nat, n: nat, cap: nat): Window
  {
    if n == 0 || cap <= n then Window(0, 0) else Window(off, n)
  }

  /** The window left by a complete write of `n` bytes at `off`. */
  function NextWindow(w: Window, off: nat, n: nat, cap: nat): Window
  {
    if n == 0 then w
    else if w.len != 0 && w.off <= off < w.off + cap then
      var at := off - w.off;
      var fit := Min(n, cap - at);
      if w.len < at + fit && at + fit != cap then Window(w.off, at + fit)
      else Store(off + fit, n - fit, cap)
    else Store(off, n, cap)
  }

  /** The caller's side of the bargain: a write that starts inside the buffer's window starts
      no later than the end of the bytes already there. */
  predicate GapFree(w: Window, off: nat, n: nat, cap: nat)
  {
    n != 0 && w.len != 0 && w.off <= off < w.off + cap ==> off <= w.off + w.len
  }

  /** Bytes held by a buffer after a copy of `data` into it. */
  function Overlap(held: seq<byte>, at: nat, data: seq<byte>): seq<byte>
    requires at <= |held|
  {
    held[..at] + data + (if at + |data| < |held| then held[at + |data|..] else [])
  }

  /** Two overlapping writes, the first of which starts first, are one write. */
  lemma PwriteOverlap(base: seq<byte>, off: nat, held: seq<byte>, at: nat, data: seq<byte>)
    requires held != [] && at <= |held|
    ensures Pwrite(base, off, Overlap(held, at, data)) == Pwrite(Pwrite(base, off, held), off + at, data)
  {
    hide Pwrite;
    PwriteBytes(base, off, Overlap(held, at, data));
    PwriteBytes(base, off, held);
    PwriteBytes(Pwrite(base, off, held), off + at, data);
  }

  /** A write into the window of a buffer that is not empty, gap or not: the buffer takes `n` bytes
      and shows everything up to the greatest end; whatever does not fit follows behind it. Whether
      this is as good as writing the buffer and then `data`. */
  predicate Absorbs(mem: seq<byte>, w: Window, at: nat, data: seq<byte>, base: seq<byte>)
    requires w.len <= |mem| && at < |mem|
  {
    var n := Min(|data|, |mem| - at);
    Pwrite(Pwrite(base, w.off, Patched(mem, at, data[..n])[..Max(w.len, at + n)]), w.off + at + n, data[n..])
    == Pwrite(Pwrite(base, w.off, mem[..w.len]), w.off + at, data)
  }

  /** Leaving a gap exposes the stale memory there: with some contents the result is wrong, whether
      the data fits into the buffer or not. */
  lemma GapExposesStaleBytes(cap: nat, w: Window, at: nat, data: seq<byte>)
    returns (mem: seq<byte>, base: seq<byte>)
    requires 0 < w.len < at < cap && data != []
    ensures |mem| == cap && !Absorbs(mem, w, at, data, base)
  {
    hide Pwrite;
    mem, base := seq(cap, _ => 1), [];
    var n := Min(|data|, cap - at);
    var shown := Patched(mem, at, data[..n])[..at + n];
    PwriteBytes(base, w.off, shown);
    PwriteBytes(Pwrite(base, w.off, shown), w.off + at + n, data[n..]);
    PwriteBytes(base, w.off, mem[..w.len]);
    PwriteBytes(Pwrite(base, w.off, mem[..w.len]), w.off + at, data);
    assert Pwrite(Pwrite(base, w.off, shown), w.off + at + n, data[n..])[w.off + w.len] == 1;
    assert Pwrite(Pwrite(base, w.off, mem[..w.len]), w.off + at, data)[w.off + w.len] == 0;
  }

  /** Without a gap the result is right. */
  lemma NoGapAbsorbs(mem: seq<byte>, w: Window, at: nat, data: seq<byte>, base: seq<byte>)
    requires 0 < w.len <= |mem| && at <= w.len && at < |mem|
    ensures Absorbs(mem, w, at, data, base)
  {
    hide Pwrite;
    var n := Min(|data|, |mem| - at);
    assert Patched(mem, at, data[..n])[..Max(w.len, at + n)] == Overlap(mem[..w.len], at, data[..n]);
    PwriteOverlap(base, w.off, mem[..w.len], at, data[..n]);
    PwriteAdjacent(Pwrite(base, w.off, mem[..w.len]), w.off + at, data[..n], data[n..]);
    assert data[..n] + data[n..] == data;
  }

  /** Whether a buffered write is right whatever the memory and the file hold. */
  ghost predicate AlwaysAbsorbs(cap: nat, w: Window, at: nat, data: seq<byte>)
    requires w.len <= cap && at < cap
  {
    forall mem: seq<byte>, base: seq<byte> ::
      |mem| == cap ==> Absorbs(mem, w, at, data, base)
  }

  /** A write of any length that starts inside the window is always right exactly if it leaves no
      gap. */
  lemma GapFreeExactly(cap: nat, w: Window, off: nat, data: seq<byte>)
    requires 0 < w.len <= cap && data != [] && w.off <= off < w.off + cap
    ensures AlwaysAbsorbs(cap, w, off - w.off, data) <==> GapFree(w, off, |data|, cap)
  {
    hide Absorbs;
    var at := off - w.off;
    if at <= w.len {
      forall mem: seq<byte>, base: seq<byte> | |mem| == cap ensures Absorbs(mem, w, at, data, base) {
        NoGapAbsorbs(mem, w, at, data, base);
      }
    } else {
      var mem, base := GapExposesStaleBytes(cap, w, at, data);
    }
  }

  /** What one call of `fbuf_write` does to a buffer holding `held` at `off`: the input is kept,
      or `out` has to go to the file at `woff`, and `rest` is the input not yet placed. */
  datatype Outcome =
    | Kept(off: nat, held: seq<byte>)
    | Emit(woff: nat, out: seq<byte>, rest: seq<byte>)

  function Absorb(off: nat, held: seq<byte>, cap: nat, input: seq<byte>, pos: nat): Outcome
    requires |held| < cap && GapFree(Window(off, |held|), pos, |input|, cap)
  {
    if input == [] then Kept(off, held)
    else if held != [] then
      if off <= pos < off + cap then
        var n := Min(|input|, cap - (pos - off));
        var h := Overlap(held, pos - off, input[..n]);
        if |held| < |h| < cap then Kept(off, h) else Emit(off, h, input[n..])
      else Emit(off, held, input)
    else if cap <= |input| then Emit(pos, input, [])
    else Kept(pos, input)
  }

  /** No byte is lost or misplaced by the buffer, whatever file is under it. */
  lemma AbsorbIsPwrite(base: seq<byte>, off: nat, held: seq<byte>, cap: nat, input: seq<byte>, pos: nat)
    requires |held| < cap && GapFree(Window(off, |held|), pos, |input|, cap)
    ensures var want := Pwrite(Pwrite(base, off, held), pos, input);
      match Absorb(off, held, cap, input, pos)
      case Kept(o, h) => Pwrite(base, o, h) == want && |h| < cap
      case Emit(woff, out, rest) =>
        && out != [] && |rest| <= |input|
        && Pwrite(Pwrite(base, woff, out), pos + |input| - |rest|, rest) == want
  {
    hide Pwrite;
    PwriteNothing(base, off);
    PwriteNothing(Pwrite(base, off, held), pos);
    PwriteNothing(Pwrite(base, pos, input), pos + |input|);
    if input != [] && held != [] && off <= pos < off + cap {
      var n := Min(|input|, cap - (pos - off));
      PwriteOverlap(base, off, held, pos - off, input[..n]);
      PwriteNothing(Pwrite(Pwrite(base, off, held), pos, input[..n]), pos + n);
      PwriteAdjacent(Pwrite(base, off, held), pos, input[..n], input[n..]);
      assert input[..n] + input[n..] == input;
    }
  }

  /** How far the buffer reaches depends on lengths and offsets only. What comes out starts where
      the buffer started, or, from an empty buffer, is the input itself; and output of
      sequential input is sequential. */
  lemma AbsorbWindow(off: nat, held: seq<byte>, cap: nat, input: seq<byte>, pos: nat)
    requires |held| < cap && GapFree(Window(off, |held|), pos, |input|, cap)
    ensures var next := NextWindow(Window(off, |held|), pos, |input|, cap);
      match Absorb(off, held, cap, input, pos)
      case Kept(o, h) =>
        && next == Window(o, |h|)
        && (if held == [] && input != [] then o == pos && h == input else o == off && |h| >= |held|)
        && (input == [] ==> h == held)
        && (pos == off + |held| ==> o + |h| == pos + |input|)
      case Emit(woff, out, rest) =>
        && next == Store(pos + |input| - |rest|, |rest|, cap)
        && (if held != [] then woff == off else woff == pos && out == input && rest == [])
        && (pos == off + |held| ==> woff + |out| == pos + |input| - |rest|)
  {
  }

  /** `struct fbuf`; `win` is its `off` and `len`. */
  class Fbuf {
    const ptr: array<byte>
    var win: Window

    constructor (cap: nat)
      ensures fresh(this.ptr) && this.ptr.Length == cap && win == Window(0, 0)
    {
      ptr := new byte[cap];
      win := Window(0, 0);
    }

    function Data(): seq<byte>
      requires win.len <= ptr.Length
      reads this, ptr
    {
      ptr[..win.len]
    }

    /** What the results of `fbuf_write` mean. */
    ghost predicate Delivers(res: Outcome, woff: int, rest: Str, out: Str)
      requires win.len <= ptr.Length && rest.Ok() && out.Ok()
      reads this, ptr, rest.ptr, out.ptr
    {
      match res
      case Kept(o, held) => woff < 0 && rest.len == 0 && win.off == o && Data() == held
      case Emit(w, bytes, left) => woff == w && rest.Bytes() == left && out.Bytes() == bytes
    }

    /** Copy data into the window. */
    method Overwrite(at: nat, data: seq<byte>)
      requires at <= win.len <= ptr.Length && at + |data| <= ptr.Length
      modifies this, ptr
      ensures win == old(win).(len := Max(old(win.len), at + |data|))
      ensures Data() == Overlap(old(Data()), at, data)
    {
      MemCopy(ptr, at, data);
      if win.len < at + |data| {
        win := win.(len := at + |data|);
      }
    }

    /** The branch of `fbuf_write` for a buffer that is not empty. */
    method WriteOver(cap: nat, input: Str, pos: nat, ghost res: Outcome)
      returns (woff: int, rest: Str, out: Str)
      requires cap == ptr.Length && 0 < win.len < cap && 0 < input.len
      requires input.Ok() && input.ptr != ptr && GapFree(win, pos, input.len, cap)
      requires res == Absorb(win.off, Data(), cap, input.Bytes(), pos)
      modifies this, ptr
      ensures win.len <= cap && rest.Ok() && rest.ptr == input.ptr && rest.len <= input.len && out.Ok()
      ensures Delivers(res, woff, rest, out)
    {
      hide Overlap;
      rest := input;
      if win.off <= pos < win.off + cap {
        var at := pos - win.off;
        var n := Min(input.len, cap - at);
        var data := input.Bytes();
        var grows := win.len < at + n;
        Overwrite(at, data[..n]);
        rest := input.Shift(n);
        assert rest.Bytes() == data[n..];
        if grows && win.len != cap {
          return -1, rest, input;
        }
      }
      out := Str(ptr, 0, win.len);
      return win.off, rest, out;
    }

    /** `fbuf_write`: put input data into the buffer. A negative result means that everything
        is in the buffer; otherwise `out` must go to the file at that offset. */
    method Write(cap: nat, input: Str, pos: nat, ghost res: Outcome)
      returns (woff: int, rest: Str, out: Str)
      requires cap == ptr.Length && win.len < cap
      requires input.Ok() && input.ptr != ptr && GapFree(win, pos, input.len, cap)
      requires res == Absorb(win.off, Data(), cap, input.Bytes(), pos)
      modifies this, ptr
      ensures win.len <= cap && rest.Ok() && rest.ptr == input.ptr && rest.len <= input.len && out.Ok()
      ensures Delivers(res, woff, rest, out)
    {
      hide Overlap;
      if input.len == 0 {
        return -1, input, input;
      }
      if win.len != 0 {
        woff, rest, out := WriteOver(cap, input, pos, res);
        return;
      }
      rest := input.Shift(input.len);
      if cap <= input.len {
        return pos, rest, input;
      }
      var data := input.Bytes();
      MemCopy(ptr, 0, data);
      win := Window(pos, input.len);
      assert Data() == data;
      return -1, rest, input;
    }
  }
}
