/** src/util/stream.h: a byte queue in a power-of-two buffer whose read and write indices are
    32-bit counters that wrap, with a variant that refers to the input instead of copying it. */
module Stream {
  import opened Align
  import opened Bytes

  const TWO32: nat := 0x1_0000_0000

  type u32 = x: nat | x < TWO32 witness 0

  /** Unsigned 32-bit addition and subtraction. */
  function Add32(a: u32, b: u32): u32
  {
    if a + b < TWO32 then a + b else a + b - TWO32
  }

  function Sub32(a: u32, b: u32): u32
  {
    if b <= a then a - b else a + TWO32 - b
  }

  /** The remainder, by repeated subtraction. */
  function Mod(x: nat, a: nat): (m: nat)
    requires a > 0
    ensures m < a && m <= x
  {
    if x < a then x else Mod(x - a, a)
  }

  /** `x & mask`, for a mask that is one less than a power of two. */
  function Masked(x: nat, mask: nat): nat { Mod(x, mask + 1) }

  lemma Pow2Of31()
    ensures Pow2(31) == TWO32 / 2 && Mod(TWO32, Pow2(31)) == 0
  {
    assert Pow2(8) == 0x100;
    assert Pow2(16) == 0x1_0000;
    assert Pow2(24) == 0x100_0000;
    var half := Pow2(31);
    assert half == 0x8000_0000;
    assert Mod(half, half) == 0 == Mod(half + half, half);
  }

  lemma {:induction false} HalfDivides(x: nat, h: nat)
    requires h > 0 && Mod(x, 2 * h) == 0
    ensures Mod(x, h) == 0
    decreases x
  {
    if x >= 2 * h {
      HalfDivides(x - 2 * h, h);
    }
  }

  lemma {:induction false} Pow2Divides(k: nat)
    requires k <= 31
    ensures Pow2(k) <= TWO32 / 2 && Mod(TWO32, Pow2(k)) == 0
    decreases 31 - k
  {
    if k == 31 {
      Pow2Of31();
    } else {
      Pow2Divides(k + 1);
      HalfDivides(TWO32, Pow2(k));
    }
  }

  /** The capacity that is asked for fits into the 32-bit field exactly up to 2^31; then indices that
      wrap at 2^32 wrap at a multiple of it. */
  lemma CapacityFits(n: nat)
    ensures AlignPower2(n) < TWO32 <==> n <= TWO32 / 2
    ensures n <= TWO32 / 2 ==> AlignPower2(n) <= TWO32 / 2 && Mod(TWO32, AlignPower2(n)) == 0
  {
    hide AlignPower2, Pow2, Mod;
    Pow2Of31();
    var p := AlignPower2(n);
    var k: nat :| p == Pow2(k);
    if n <= TWO32 / 2 {
      AlignPower2IsLeast(n, Pow2(31));
    }
    if k > 31 {
      Pow2Grows(31, k);
    } else {
      Pow2Divides(k);
    }
  }

  lemma {:induction false} AddMultiple(x: nat, m: nat, a: nat)
    requires a > 0 && Mod(m, a) == 0
    ensures Mod(x + m, a) == Mod(x, a)
    decreases m
  {
    if m >= a {
      AddMultiple(x, m - a, a);
    }
  }

  lemma {:induction false} AddWithin(r: nat, n: nat, cap: nat)
    requires 0 < cap && Mod(r, cap) + n <= cap
    ensures Mod(r + n, cap) == if Mod(r, cap) + n == cap then 0 else Mod(r, cap) + n
    decreases r
  {
    if r >= cap {
      AddWithin(r - cap, n, cap);
    }
  }

  /** `n` bytes further on than index `r`, the position in the buffer is `n` larger, or back at
      the start: wrapping at 2^32 does not disturb it. */
  lemma Advance(r: nat, n: nat, cap: nat)
    requires r < TWO32 && 0 < cap < TWO32 && Mod(TWO32, cap) == 0 && Mod(r, cap) + n <= cap
    ensures Mod(Add32(r, n), cap) == if Mod(r, cap) + n == cap then 0 else Mod(r, cap) + n
  {
    AddWithin(r, n, cap);
    if r + n >= TWO32 {
      AddMultiple(r + n - TWO32, TWO32, cap);
    }
  }

  /** Moving an index back by its position in the buffer puts it at the start. */
  lemma {:induction false} Rewind(r: nat, cap: nat)
    requires cap > 0
    ensures Mod(r - Mod(r, cap), cap) == 0
    decreases r
  {
    if r >= cap {
      Rewind(r - cap, cap);
    }
  }

  /** The number of bytes in use survives the wrap of either index. */
  lemma UsedAfter(r: nat, w: nat, n: nat)
    requires r < TWO32 && w < TWO32 && n < TWO32
    ensures n <= Sub32(w, r) ==> Sub32(w, Add32(r, n)) == Sub32(w, r) - n
    ensures Sub32(w, r) + n < TWO32 ==> Sub32(Add32(w, n), r) == Sub32(w, r) + n
    ensures Add32(r, Sub32(w, r)) == w
    ensures n <= r ==> Sub32(Sub32(w, n), Sub32(r, n)) == Sub32(w, r) && Sub32(r, n) == r - n
  {
  }

  /** Capacity and mask belong together. */
  ghost predicate Sized(cap: nat, mask: nat)
  {
    cap <= TWO32 / 2 && if cap == 0 then mask == 0 else mask + 1 == cap && Mod(TWO32, cap) == 0
  }

  /** What consuming `n` bytes does to a contiguous region of a buffer. */
  lemma ConsumeRegion(r: nat, w: nat, n: nat, cap: nat, mask: nat)
    requires r < TWO32 && w < TWO32 && Sized(cap, mask) && n <= Sub32(w, r)
    requires Masked(r, mask) + Sub32(w, r) <= cap
    ensures var r', used := Add32(r, n), Sub32(w, r) - n;
      && Sub32(w, r') == used && Masked(r', mask) + used <= cap
      && (used > 0 ==> Masked(r', mask) == Masked(r, mask) + n)
  {
    UsedAfter(r, w, n);
    if cap > 0 {
      Advance(r, n, cap);
    }
  }

  /** What appending `n` bytes does to a contiguous region of a buffer. */
  lemma AppendRegion(r: nat, w: nat, n: nat, cap: nat, mask: nat)
    requires r < TWO32 && w < TWO32 && Sized(cap, mask)
    requires Masked(r, mask) + Sub32(w, r) + n <= cap
    ensures Sub32(Add32(w, n), r) == Sub32(w, r) + n
    ensures Masked(r, mask) + Sub32(w, r) < cap ==> Masked(w, mask) == Masked(r, mask) + Sub32(w, r)
  {
    UsedAfter(r, w, n);
    if cap > 0 {
      Advance(r, Sub32(w, r), cap);
    }
  }

  /** What moving a region to the front of the buffer does to its indices. */
  lemma MoveRegion(r: nat, w: nat, cap: nat, mask: nat)
    requires r < TWO32 && w < TWO32 && Sized(cap, mask)
    requires Masked(r, mask) + Sub32(w, r) <= cap
    ensures var i := Masked(r, mask);
      i <= r && Masked(Sub32(r, i), mask) == 0 && Sub32(Sub32(w, i), Sub32(r, i)) == Sub32(w, r)
  {
    UsedAfter(r, w, Masked(r, mask));
    Rewind(r, mask + 1);
  }

  /** A new buffer, with a region at its front. */
  lemma FrontRegion(used: nat, cap: nat)
    requires 0 < cap <= TWO32 / 2 && Mod(TWO32, cap) == 0 && used <= cap
    ensures Sized(cap, cap - 1) && Masked(0, cap - 1) == 0 && Sub32(used, 0) == used
  {
  }

  /** `struct ffstream` */
  class Stream {
    var ptr: array<byte>
    var r: u32
    var w: u32
    var cap: nat
    var mask: nat
    var ref: Str

    /** Everything accepted so far, and how much of it has been consumed. */
    ghost var fed: seq<byte>
    ghost var eaten: nat

    /** `ffstream_used` */
    function Used(): nat
      reads this
    {
      Sub32(w, r)
    }

    ghost predicate Shape()
      reads this
    {
      && cap == ptr.Length && Sized(cap, mask)
      && ref.Ok() && ref.ptr != ptr
      && if ref.len != 0 then Used() <= ref.len else Masked(r, mask) + Used() <= cap
    }

    /** `ffstream_view`: all available data */
    function View(): Str
      requires Shape()
      reads this
    {
      if ref.len != 0 then ref.Shift(ref.len - Used()) else Str(ptr, Masked(r, mask), Used())
    }

    /** The view is exactly what has been accepted and not yet consumed, in order. */
    ghost predicate Valid()
      reads this, ptr, ref.ptr
    {
      Shape() && eaten <= |fed| && View().Bytes() == fed[eaten..]
    }

    constructor ()
      ensures Valid() && fed == [] && eaten == 0 && cap == 0 && ref.len == 0 && fresh(ptr)
    {
      ptr := new byte[0];
      var none := new byte[0];
      r, w, cap, mask, ref := 0, 0, 0, 0, Str(none, 0, 0);
      fed, eaten := [], 0;
    }

    lemma ViewFacts()
      requires Valid()
      ensures Shape() && View().Ok() && View().len == Used() == |fed| - eaten && View().Bytes() == fed[eaten..]
      ensures ref.len == 0 ==> View() == Str(ptr, Masked(r, mask), Used()) && Masked(r, mask) + Used() <= cap
      ensures ref.len != 0 ==> Used() <= ref.len
    {
      hide Str.Bytes, Mod, Masked, Sub32, Sized;
      View().Length();
    }

    lemma Established()
      requires Shape() && ref.len == 0 && eaten <= |fed|
      requires ptr[Masked(r, mask)..Masked(r, mask) + Used()] == fed[eaten..]
      ensures Valid()
    {
      hide Mod, Masked, Sub32, Sized;
    }

    lemma EstablishedRef()
      requires Shape() && ref.len != 0 && eaten <= |fed|
      requires ref.Shift(ref.len - Used()).Bytes() == fed[eaten..]
      ensures Valid()
    {
    }

    /** `ffstream_realloc`: grow the buffer. */
    method Realloc(newcap: nat) returns (n: nat)
      requires Valid() && newcap <= TWO32 / 2
      modifies this`ptr, this`r, this`w, this`cap, this`mask
      ensures Valid() && n == cap == Max(old(cap), AlignPower2(newcap))
      ensures ptr == old(ptr) || fresh(ptr)
    {
      hide AlignPower2, IsPower2, Mod, Masked, Sub32, Sized, Stream.Valid;
      CapacityFits(newcap);
      ViewFacts();
      var size := AlignPower2(newcap);
      if size <= cap {
        return cap;
      }
      ghost var bytes := fed[eaten..];
      var p := new byte[size];
      var used := Used();
      FrontRegion(if ref.len == 0 then used else 0, size);
      if ref.len == 0 {
        var i := Masked(r, mask);
        MemCopy(p, 0, ptr[i..i + used]);
        r, w := 0, used;
        assert p[..used] == bytes;
      }
      ptr, cap, mask := p, size, size - 1;
      if ref.len == 0 {
        Established();
      } else {
        EstablishedRef();
      }
      return cap;
    }

    /** `ffstream_reset` */
    method Reset()
      requires Valid()
      modifies this`r, this`w, this`eaten
      ensures Valid() && eaten == |fed|
    {
      r, w, eaten := 0, 0, |fed|;
    }

    /** `ffstream_consume` */
    method Consume(n: nat)
      requires Valid() && n <= Used()
      modifies this`r, this`eaten
      ensures Valid() && eaten == old(eaten) + n && Used() == old(Used()) - n
    {
      hide Mod, Masked, Sized, Add32, Sub32, Str.Bytes;
      ghost var v := View();
      v.Length();
      v.PartBytes(n, v.len - n);
      if ref.len == 0 {
        ConsumeRegion(r, w, n, cap, mask);
      } else {
        UsedAfter(r, w, n);
      }
      r := Add32(r, n);
      eaten := eaten + n;
      View().Length();
      assert fed[eaten..] == v.Bytes()[n..v.len];
    }

    /** The part of `ffstream_gather` that makes room: a region with less than `gather` bytes
        between its start and the end of the buffer is moved to the front. */
    method MakeRoom(gather: nat)
      requires Valid() && ref.len == 0 && Used() < gather <= cap
      modifies this`r, this`w, ptr
      ensures Valid() && Used() == old(Used()) && Masked(r, mask) + gather <= cap
    {
      hide Mod, Masked, Sub32, Sized;
      var i := Masked(r, mask);
      if i + gather > cap {
        ghost var bytes := View().Bytes();
        MoveRegion(r, w, cap, mask);
        MemCopy(ptr, 0, ptr[i..i + Used()]);
        r, w := Sub32(r, i), Sub32(w, i);
        assert View().Bytes() == bytes;
      }
    }

    /** The part of `ffstream_gather` that copies: at most `limit` bytes of the input go behind
        the region. */
    method Append(input: Str, limit: nat) returns (n: nat)
      requires Valid() && ref.len == 0 && Masked(r, mask) + Used() + limit <= cap && limit > 0
      requires input.Ok() && input.ptr != ptr
      modifies this`w, this`fed, ptr
      ensures Valid() && n == Min(limit, input.len) && fed == old(fed) + input.Bytes()[..n]
      ensures Used() == old(Used()) + n
    {
      hide Mod, Masked, Add32, Sub32, Sized, Patched, Stream.Valid;
      ViewFacts();
      ghost var bytes, mem := fed[eaten..], ptr[..];
      n := Min(limit, input.len);
      AppendRegion(r, w, n, cap, mask);
      var data := input.Bytes()[..n];
      PatchedEnd(mem, Masked(r, mask), Used(), data);
      MemCopy(ptr, Masked(w, mask), data);
      w := Add32(w, n);
      fed := fed + data;
      assert fed[eaten..] == bytes + data;
      Established();
    }

    lemma WritePosition()
      requires Shape() && ref.len == 0 && Masked(r, mask) + Used() < cap
      ensures Masked(w, mask) == Masked(r, mask) + Used()
    {
      hide Mod, Masked, Add32, Sub32, Sized;
      AppendRegion(r, w, 0, cap, mask);
    }

    /** Append as much as fits behind the region. */
    method AppendToEnd(input: Str) returns (n: nat)
      requires Valid() && ref.len == 0 && Masked(r, mask) + Used() < cap && input.Ok() && input.ptr != ptr
      modifies this`w, this`fed, ptr
      ensures Valid() && n == Min(cap - old(Masked(r, mask) + Used()), input.len)
      ensures fed == old(fed) + input.Bytes()[..n] && Used() == old(Used()) + n
    {
      hide Mod, Masked, Add32, Sub32, Sized, Stream.Valid, Str.Bytes;
      ViewFacts();
      WritePosition();
      n := Append(input, cap - Masked(w, mask));
    }

    /** `ffstream_gather`: a contiguous region of at least `gather` bytes, copying input. */
    method Gather(input: Str, gather: nat) returns (n: nat, out: Str)
      requires Valid() && ref.len == 0 && gather <= cap && input.Ok() && input.ptr != ptr
      modifies this`r, this`w, this`fed, ptr
      ensures Valid() && n <= input.len && fed == old(fed) + input.Bytes()[..n]
      ensures out.Ok() && out.len == Used() == |fed| - eaten && out.Bytes() == fed[eaten..]
      ensures out.len >= gather || n == input.len
    {
      hide Mod, Masked, Add32, Sub32, Sized, Stream.Valid, Stream.Shape, Str.Bytes;
      n := 0;
      ViewFacts();
      if Used() < gather {
        MakeRoom(gather);
        n := AppendToEnd(input);
      }
      ViewFacts();
      out := Str(ptr, Masked(r, mask), Used());
    }

    /** `ffstream_gather_ref` on an empty stream: refer to the input. */
    method Refer(input: Str)
      requires Valid() && Used() == 0 && 0 < cap && input.Ok() && input.ptr != ptr && input.len < TWO32
      modifies this`w, this`ref, this`fed
      ensures Valid() && ref == input && Used() == input.len && fed == old(fed) + input.Bytes()
      ensures View().Bytes() == input.Bytes()
    {
      hide Add32, Sub32;
      UsedAfter(r, w, input.len);
      ref, w := input, Add32(w, input.len);
      fed := fed + input.Bytes();
    }

    /** `ffstream_gather_ref` on a reference that is running out: go over to the buffer. */
    method Unrefer()
      requires Valid() && ref.len != 0 && Used() <= cap && 0 < cap
      modifies this`r, this`w, this`ref, ptr
      ensures Valid() && ref.len == 0 && Used() == old(Used()) && Masked(r, mask) == 0
    {
      hide Mod, Masked, Sub32;
      ghost var bytes := View().Bytes();
      var used := Used();
      FrontRegion(used, cap);
      MemCopy(ptr, 0, View().Bytes());
      ref := Str(ref.ptr, ref.pos, 0);
      r, w := 0, used;
      assert View().Bytes() == bytes;
    }

    /** `ffstream_gather_ref`: a contiguous region of at least `gather` bytes, copying only what
        is needed. The memory of a referenced input must not change while it is referenced. */
    method GatherRef(input: Str, gather: nat) returns (n: nat, out: Str)
      requires Valid() && gather <= cap && input.Ok() && input.ptr != ptr && input.len < TWO32
      modifies this`r, this`w, this`ref, this`fed, ptr
      ensures Valid() && n <= input.len && fed == old(fed) + input.Bytes()[..n]
      ensures out.Ok() && out.len == Used() == |fed| - eaten && out.Bytes() == fed[eaten..]
      ensures out.len >= gather || n == input.len
    {
      hide Mod, Masked, Add32, Sub32, Sized, Stream.Valid, Stream.Shape, Str.Bytes;
      n := 0;
      var used := Used();
      ViewFacts();
      if used < gather {
        if used == 0 {
          Refer(input);
          ViewFacts();
          input.Length();
          assert input.Bytes()[..input.len] == input.Bytes();
          return input.len, input;
        }
        if ref.len != 0 {
          Unrefer();
          n := Append(input, gather - used);
        } else {
          MakeRoom(gather);
          n := AppendToEnd(input);
        }
      } else if ref.len != 0 {
        out := ref.Shift(ref.len - used);
        return 0, out;
      }
      ViewFacts();
      out := Str(ptr, Masked(r, mask), Used());
    }
  }

  /** One pass of a handler: gather, in either mode, and consume some non-empty part of the view. */
  method Pass(s: Stream, input: Str, gather: nat, byRef: bool) returns (n: nat, got: seq<byte>)
    requires s.Valid() && 0 < gather <= s.cap && (byRef || s.ref.len == 0)
    requires input.Ok() && input.ptr != s.ptr && input.len < TWO32
    modifies s`r, s`w, s`ref, s`fed, s`eaten, s.ptr
    ensures s.Valid() && (byRef || s.ref.len == 0)
    ensures n <= input.len && s.fed == old(s.fed) + input.Bytes()[..n]
    ensures s.eaten == old(s.eaten) + |got| && got == s.fed[old(s.eaten)..s.eaten]
    ensures got == [] ==> n == input.len && s.Used() == 0
    ensures |s.fed| == s.eaten + s.Used() && s.eaten >= old(s.eaten)
    ensures |s.fed| - old(s.eaten) >= gather || n == input.len
  {
    hide Stream.Valid, Stream.Shape, Stream.Used, Stream.View;
    var view;
    if byRef {
      n, view := s.GatherRef(input, gather);
    } else {
      n, view := s.Gather(input, gather);
    }
    if view.len == 0 {
      assert s.fed[s.eaten..s.eaten] == [];
      return n, [];
    }
    var k :| 1 <= k <= view.len;
    got := view.Bytes()[..k];
    s.Consume(k);
  }

  lemma Delivered(before: seq<byte>, after: seq<byte>, a: nat, b: nat, c: nat)
    requires a <= b <= |before| && before <= after && b <= c <= |after|
    ensures before[a..b] + after[b..c] == after[a..c]
  {
  }

  /** Of the input `pos` bytes have been accepted behind what the stream had accepted before, and
      `out` has come out. */
  ghost predicate Pumped(before: seq<byte>, input: seq<byte>, pos: nat, fed: seq<byte>, eaten: nat, out: seq<byte>)
  {
    && pos <= |input| && fed == before + input[..pos]
    && |before| <= eaten <= |fed| && out == fed[|before|..eaten]
  }

  lemma PumpedNothing(before: seq<byte>, input: seq<byte>)
    ensures Pumped(before, input, 0, before, |before|, [])
  {
  }

  lemma PumpedMore(before: seq<byte>, input: seq<byte>, pos: nat, n: nat, fed: seq<byte>, eaten: nat, eaten': nat,
                   out: seq<byte>)
    requires Pumped(before, input, pos, fed, eaten, out) && n <= |input| - pos
    requires var fed' := fed + input[pos..][..n]; eaten <= eaten' <= |fed'|
    ensures var fed' := fed + input[pos..][..n];
      Pumped(before, input, pos + n, fed', eaten', out + fed'[eaten..eaten'])
  {
    var fed' := fed + input[pos..][..n];
    assert input[..pos] + input[pos..][..n] == input[..pos + n];
    Delivered(fed, fed', |before|, eaten, eaten');
  }

  lemma PumpedAll(before: seq<byte>, input: seq<byte>, fed: seq<byte>, out: seq<byte>)
    requires Pumped(before, input, |input|, fed, |fed|, out)
    ensures out == input && fed == before + input
  {
  }

  /** A whole run: the input is offered again and again until it is used up and nothing is left.
      Out comes exactly what went in. */
  method Pump(s: Stream, input: seq<byte>, gather: nat, byRef: bool) returns (out: seq<byte>)
    requires s.Valid() && s.Used() == 0 && s.ref.len == 0 && 0 < gather <= s.cap && |input| < TWO32
    requires s.eaten == |s.fed|
    modifies s`r, s`w, s`ref, s`fed, s`eaten, s.ptr
    ensures s.Valid() && s.Used() == 0 && out == input && s.fed == old(s.fed) + input
  {
    hide Stream.Valid, Stream.Shape, Stream.Used, Stream.View, Pumped;
    var mem := new byte[|input|](i requires 0 <= i < |input| => input[i]);
    assert mem[..] == input;
    ghost var before := s.fed;
    var pos := 0;
    var left := s.Used();
    out := [];
    PumpedNothing(before, input);
    while pos < |input| || left > 0
      invariant s.Valid() && (byRef || s.ref.len == 0) && left == s.Used() && s.eaten + left == |s.fed|
      invariant mem[..] == input && pos <= |input| && Pumped(before, input, pos, s.fed, s.eaten, out)
      decreases |input| - pos, left
    {
      ghost var fed, eaten := s.fed, s.eaten;
      var rest := Str(mem, pos, |input| - pos);
      assert rest.Bytes() == input[pos..];
      var n, got := Pass(s, rest, gather, byRef);
      PumpedMore(before, input, pos, n, fed, eaten, s.eaten, out);
      pos, left, out := pos + n, s.Used(), out + got;
    }
    PumpedAll(before, input, s.fed, out);
  }
}
