/** src/util/md5sum.h and src/ops/md5.c: the .md5 line format, its printer and its reader. */
module Md5Sum {
  import opened Bytes

  const CR: byte := 0x0d
  const LF: byte := 0x0a
  const SPACE: byte := 0x20
  const STAR: byte := 0x2a

  datatype Entry = Entry(sum: seq<byte>, name: seq<byte>)

  // Printing

  function Digit(n: byte): byte
    requires n < 16
  {
    if n < 10 then 0x30 + n else 0x57 + n
  }

  function Hex(sum: seq<byte>): (h: seq<byte>)
    ensures |h| == 2 * |sum|
  {
    if sum == [] then [] else Hex(sum[..|sum| - 1]) + [Digit(sum[|sum| - 1] >> 4), Digit(sum[|sum| - 1] & 0xf)]
  }

  /** The line that `md5_result` prints with the format "%*xb *%S\n". */
  function Line(e: Entry): seq<byte>
  {
    Hex(e.sum) + [SPACE, STAR] + e.name + [LF]
  }

  function Print(list: seq<Entry>): seq<byte>
  {
    if list == [] then [] else Line(list[0]) + Print(list[1..])
  }

  // Parsing

  /** The value of a hexadecimal digit of either case, or 16. */
  function Value(c: byte): (v: byte)
    ensures v <= 16
  {
    if 0x30 <= c <= 0x39 then c - 0x30
    else if 0x61 <= c <= 0x66 then c - 0x57
    else if 0x41 <= c <= 0x46 then c - 0x37
    else 16
  }

  /** `ffs_tohex`: two digits a byte. */
  function FromHex(h: seq<byte>): Option<seq<byte>>
  {
    if |h| < 2 then if h == [] then Some([]) else None
    else
      var front := FromHex(h[..|h| - 2]);
      var hi, lo := Value(h[|h| - 2]), Value(h[|h| - 1]);
      if front.None? || hi == 16 || lo == 16 then None else Some(front.value + [(hi << 4) | lo])
  }

  /** The first position of one of the given bytes, or -1. */
  function First(s: seq<byte>, any: seq<byte>): (r: int)
    ensures -1 <= r < |s|
    ensures r >= 0 ==> s[r] in any && forall k :: 0 <= k < r ==> s[k] !in any
    ensures r < 0 ==> forall k :: 0 <= k < |s| ==> s[k] !in any
    decreases |s|
  {
    if s == [] then -1
    else
      var r := First(s[..|s| - 1], any);
      if r >= 0 then r else if s[|s| - 1] in any then |s| - 1 else -1
  }

  /** `ffstr_findany` */
  method FindAny(s: Str, any: seq<byte>) returns (r: int)
    requires s.Ok()
    ensures r == First(s.Bytes(), any)
  {
    var bytes := s.Bytes();
    for i := 0 to s.len
      invariant First(bytes[..i], any) == -1
    {
      assert bytes[..i + 1][..i] == bytes[..i];
      if s.ptr[s.pos + i] in any {
        assert bytes[i] in any;
        return i;
      }
    }
    assert bytes[..s.len] == bytes;
    return -1;
  }

  /** The result of reading one line: whether it is malformed, how many bytes are consumed, the
      sum if the digits are well-formed, and the length of the name that starts at byte 34. */
  datatype Parsed = Parsed(err: bool, used: nat, sum: Option<seq<byte>>, name: nat)

  predicate HeadOk(d: seq<byte>)
    requires |d| >= 35
  {
    FromHex(d[..32]).Some? && d[32] == SPACE && (d[33] == SPACE || d[33] == STAR)
  }

  /** The position behind a line end [CR]LF, or CR, at position `r`. */
  function LineEnd(s: seq<byte>, r: nat, beyond: byte): nat
    requires r < |s|
  {
    var r1 := if s[r] == CR then r + 1 else r;
    if (if r1 < |s| then s[r1] else beyond) == LF then r1 + 1 else r1
  }

  /** `beyond` is the byte of memory behind the data. */
  function Parse(d: seq<byte>, beyond: byte): Parsed
  {
    if |d| < 35 then Parsed(true, |d|, None, 0)
    else
      var s := d[34..];
      var stop := First(s, [0, CR, LF]);
      var isNul := stop >= 0 && s[stop] == 0;
      var r := if isNul then First(s, [CR, LF]) else stop;
      var err := !HeadOk(d) || isNul;
      if r < 0 then Parsed(err, |d|, FromHex(d[..32]), |s|)
      else
        Parsed(err, 34 + LineEnd(s, r, beyond), FromHex(d[..32]), r)
  }

  method SkipLineEnd(s: Str, r: nat) returns (r': nat)
    requires s.Ok() && r < s.len && s.pos + s.len < s.ptr.Length
    ensures r' == LineEnd(s.Bytes(), r, s.ptr[s.pos + s.len])
  {
    r' := r;
    if s.ptr[s.pos + r'] == CR {
      r' := r' + 1;
    }
    if s.ptr[s.pos + r'] == LF {
      r' := r' + 1;
    }
  }

  /** `md5sum_read` */
  method Read(data: Str) returns (p: Parsed)
    requires data.Ok() && data.pos + data.len < data.ptr.Length
    ensures p == Parse(data.Bytes(), data.ptr[data.pos + data.len])
  {
    hide FromHex, First, LineEnd, Str.Bytes;
    data.Length();
    if data.len < 35 {
      return Parsed(true, data.len, None, 0);
    }
    var d := data.Bytes();
    var e := false;
    var sum := FromHex(d[..32]);
    if !(sum.Some? && d[32] == SPACE && (d[33] == SPACE || d[33] == STAR)) {
      e := true;
    }
    var s := data.Shift(34);
    data.PartBytes(34, data.len - 34);
    s.Length();
    assert d[34..34 + (data.len - 34)] == d[34..data.len] == d[34..];
    var r := FindAny(s, [0, CR, LF]);
    if r >= 0 {
      s.ByteAt(r);
    }
    if r >= 0 && s.ptr[s.pos + r] == 0 {
      e := true;
      r := FindAny(s, [CR, LF]);
    }
    if r < 0 {
      return Parsed(e, 34 + s.len, sum, s.len);
    }
    var end := SkipLineEnd(s, r);
    return Parsed(e, 34 + end, sum, r);
  }

  // Properties of the reader

  /** Every call on non-empty data consumes something, never less than the name, and never more
      than the data, except that a final CR with a stray LF in memory behind it is counted as a
      line end of two bytes. */
  lemma ReadAdvances(d: seq<byte>, beyond: byte)
    requires d != []
    ensures var p := Parse(d, beyond);
      && 1 <= p.used <= |d| + 1
      && (|d| >= 35 ==> 34 + p.name <= p.used)
      && (p.used > |d| <==> |d| >= 35 && beyond == LF && First(d[34..], [CR, LF]) == |d| - 35 && d[|d| - 1] == CR)
  {
  }

  /** A call that stays inside the data consumes the byte behind the name too, unless the data has
      ended there. */
  lemma ReadStaysInside(d: seq<byte>, beyond: byte)
    requires d != [] && Parse(d, beyond).used <= |d|
    ensures var p := Parse(d, beyond);
      !p.err ==> |d| >= 35 && 34 + p.name <= |d| && (34 + p.name < p.used || 34 + p.name == p.used == |d|)
  {
    hide First, FromHex;
  }

  predicate Clean(name: seq<byte>) { 0 !in name && CR !in name && LF !in name }

  lemma DigitValue(b: byte)
    ensures Value(Digit(b >> 4)) == b >> 4 && Value(Digit(b & 0xf)) == b & 0xf
    ensures ((b >> 4) << 4) | (b & 0xf) == b
  {
  }

  lemma HexStep(h: seq<byte>, front: seq<byte>, b: byte)
    requires FromHex(h) == Some(front)
    ensures FromHex(h + [Digit(b >> 4), Digit(b & 0xf)]) == Some(front + [b])
  {
    DigitValue(b);
    hide Digit, Value;
    var hh := h + [Digit(b >> 4), Digit(b & 0xf)];
    assert hh[..|hh| - 2] == h && hh[|hh| - 2] == Digit(b >> 4) && hh[|hh| - 1] == Digit(b & 0xf);
  }

  lemma {:induction false} HexRoundTrip(sum: seq<byte>)
    ensures FromHex(Hex(sum)) == Some(sum)
  {
    if sum != [] {
      var front := sum[..|sum| - 1];
      HexRoundTrip(front);
      HexStep(Hex(front), front, sum[|sum| - 1]);
      assert front + [sum[|sum| - 1]] == sum;
      hide FromHex;
    }
  }

  lemma FirstAt(s: seq<byte>, any: seq<byte>, r: nat)
    requires r < |s| && s[r] in any && forall k :: 0 <= k < r ==> s[k] !in any
    ensures First(s, any) == r
  {
  }

  /** A printed line is read back, whatever follows it, exactly if the name has no NUL, CR or LF. */
  ghost predicate ReadsBack(e: Entry, rest: seq<byte>, beyond: byte)
  {
    var p := Parse(Line(e) + rest, beyond);
    && !p.err && p.used == |Line(e)| && p.sum == Some(e.sum)
    && p.name == |e.name|
  }

  lemma LineLayout(e: Entry, rest: seq<byte>)
    requires |e.sum| == 16
    ensures var d := Line(e) + rest;
      && |d| >= 35 && d[..32] == Hex(e.sum) && d[34..] == e.name + [LF] + rest && HeadOk(d)
  {
    HexRoundTrip(e.sum);
    var d := Line(e) + rest;
    assert d == Hex(e.sum) + ([SPACE, STAR] + (e.name + [LF] + rest));
    assert d[..32] == Hex(e.sum);
    assert d[34..] == e.name + [LF] + rest;
  }

  lemma RoundTripExactly(e: Entry, rest: seq<byte>, beyond: byte)
    requires |e.sum| == 16
    ensures ReadsBack(e, rest, beyond) <==> Clean(e.name)
  {
    hide FromHex, Hex;
    LineLayout(e, rest);
    HexRoundTrip(e.sum);
    var s := e.name + [LF] + rest;
    if Clean(e.name) {
      FirstAt(s, [0, CR, LF], |e.name|);
    } else {
      var c := if 0 in e.name then 0 else if CR in e.name then CR else LF;
      var k :| 0 <= k < |e.name| && e.name[k] == c;
      assert s[k] in [0, CR, LF];
      assert First(s, [0, CR, LF]) < |e.name|;
    }
  }

  // What is accepted, from the bytes

  predicate IsHex(c: byte) { 0x30 <= c <= 0x39 || 0x41 <= c <= 0x46 || 0x61 <= c <= 0x66 }

  predicate IsEnd(c: byte) { c == 0x0d || c == 0x0a }

  /** The printed digits are 0 to 9 and a to f, in this order ... */
  lemma DigitsInOrder(n: byte)
    requires n < 16
    ensures Digit(0) == 0x30 && Digit(10) == 0x61
    ensures n != 9 && n != 15 ==> Digit(n + 1) == Digit(n) + 1
  {
  }

  /** ... the accepted ones are of either case ... */
  lemma ValueExactly(c: byte)
    ensures Value(c) < 16 <==> IsHex(c)
    ensures IsHex(c) ==> Digit(Value(c)) == if c <= 0x39 then c else c | 0x20
  {
  }

  /** ... and two of them make a byte, the higher half first. */
  lemma {:induction false} HexDigits(sum: seq<byte>, i: nat)
    requires i < |sum|
    ensures Hex(sum)[2 * i] == Digit(sum[i] >> 4) && Hex(sum)[2 * i + 1] == Digit(sum[i] & 0xf)
  {
    hide Digit;
    if i < |sum| - 1 {
      HexDigits(sum[..|sum| - 1], i);
    }
  }

  lemma {:induction false} FromHexExactly(h: seq<byte>)
    ensures FromHex(h).Some? <==> |h| % 2 == 0 && forall i :: 0 <= i < |h| ==> IsHex(h[i])
    ensures FromHex(h).Some? ==> |FromHex(h).value| == |h| / 2
    ensures FromHex(h).Some? ==>
      forall i :: 0 <= i < |h| / 2 ==> FromHex(h).value[i] == (Value(h[2 * i]) << 4) | Value(h[2 * i + 1])
  {
    if |h| >= 2 {
      var n := |h| - 2;
      FromHexExactly(h[..n]);
      ValueExactly(h[n]);
      ValueExactly(h[n + 1]);
      hide Value, IsHex;
      assert forall i :: 0 <= i < n ==> h[..n][i] == h[i];
      assert (forall i :: 0 <= i < |h| ==> IsHex(h[i])) <==> (forall i :: 0 <= i < n ==> IsHex(h[i])) && IsHex(h[n]) && IsHex(h[n + 1]);
    }
  }

  /** A line that is accepted: 32 digits, a space, a space or a star, and a name with no NUL in it. */
  ghost predicate WellFormed(d: seq<byte>)
  {
    && |d| >= 35 && (forall i :: 0 <= i < 32 ==> IsHex(d[i]))
    && d[32] == 0x20 && (d[33] == 0x20 || d[33] == 0x2a)
    && forall k :: 34 <= k < |d| && d[k] == 0 ==> exists j :: 34 <= j < k && IsEnd(d[j])
  }

  lemma AcceptedExactly(d: seq<byte>, beyond: byte)
    ensures !Parse(d, beyond).err <==> WellFormed(d)
  {
    if |d| >= 35 {
      FromHexExactly(d[..32]);
      assert forall i :: 0 <= i < 32 ==> d[..32][i] == d[i];
      hide FromHex, First, IsHex;
      var s := d[34..];
      assert forall k :: 34 <= k < |d| ==> d[k] == s[k - 34];
      var stop := First(s, [0, CR, LF]);
      if stop >= 0 && s[stop] == 0 {
        assert d[stop + 34] == 0;
        assert forall j :: 34 <= j < stop + 34 ==> !IsEnd(d[j]);
      } else {
        forall k | 34 <= k < |d| && d[k] == 0 ensures exists j :: 34 <= j < k && IsEnd(d[j]) {
          assert s[k - 34] in [0, CR, LF];
          assert IsEnd(d[stop + 34]);
        }
      }
    }
  }

  /** How many bytes a line end takes. */
  function EndLength(d: seq<byte>, e: nat, beyond: byte): nat
    requires e <= |d|
  {
    if e == |d| then 0
    else if d[e] == 0x0d && (if e + 1 < |d| then d[e + 1] else beyond) == 0x0a then 2
    else 1
  }

  /** What an accepted line says, and how much of the text it takes. */
  lemma AcceptedParts(d: seq<byte>, beyond: byte)
    requires WellFormed(d)
    ensures var p := Parse(d, beyond);
      && p.sum.Some? && |p.sum.value| == 16
      && (forall i :: 0 <= i < 16 ==> p.sum.value[i] == (Value(d[2 * i]) << 4) | Value(d[2 * i + 1]))
      && 34 + p.name <= |d| && (forall j :: 34 <= j < 34 + p.name ==> !IsEnd(d[j]))
      && (34 + p.name < |d| ==> IsEnd(d[34 + p.name]))
      && p.used == 34 + p.name + EndLength(d, 34 + p.name, beyond)
  {
    AcceptedExactly(d, beyond);
    FromHexExactly(d[..32]);
    assert forall i :: 0 <= i < 32 ==> d[..32][i] == d[i];
    hide FromHex, First, IsHex, Value;
    var s := d[34..];
    assert forall k :: 34 <= k < |d| ==> d[k] == s[k - 34];
  }

  /** Any other line is passed over up to its end too, where the search for the end begins behind the
      first 34 bytes; a text that is too short for a line is passed over as a whole. */
  lemma RejectedParts(d: seq<byte>, beyond: byte) returns (e: nat)
    requires !WellFormed(d)
    ensures e <= |d| && Parse(d, beyond).used == e + EndLength(d, e, beyond)
    ensures |d| < 35 ==> e == |d|
    ensures |d| >= 35 ==>
      && 34 <= e && (forall j :: 34 <= j < e ==> !IsEnd(d[j])) && (e < |d| ==> IsEnd(d[e]))
  {
    e := |d|;
    if |d| >= 35 {
      AcceptedExactly(d, beyond);
      hide FromHex, First, IsHex;
      var s := d[34..];
      assert forall k :: 34 <= k < |d| ==> d[k] == s[k - 34];
      var stop := First(s, [0, CR, LF]);
      var r := if stop >= 0 && s[stop] == 0 then First(s, [CR, LF]) else stop;
      if r >= 0 {
        e := 34 + r;
      }
    }
  }

  // Reading a whole text

  /** What a text contains: the entries of its well-formed lines, how many others there are, and
      whether reading stops in front of a CR at the very end because of a stray LF behind it. */
  datatype Listing = Listing(list: seq<Entry>, errors: nat, overrun: bool)

  const NOTHING := Listing([], 0, false)

  function EntryOf(d: seq<byte>, p: Parsed): Entry
    requires 34 + p.name <= |d|
  {
    Entry(if p.sum.Some? then p.sum.value else [], d[34..34 + p.name])
  }

  function Lines(d: seq<byte>, beyond: byte): Listing
    decreases |d|
  {
    if d == [] then NOTHING
    else
      ReadAdvances(d, beyond);
      var p := Parse(d, beyond);
      if p.used > |d| then Listing([], 0, true)
      else
        ReadStaysInside(d, beyond);
        var rest := Lines(d[p.used..], beyond);
        if p.err then rest.(errors := rest.errors + 1) else rest.(list := [EntryOf(d, p)] + rest.list)
  }

  /** A text says what its first line says, if that is well-formed, and then what the rest says. Each
      other line is one error. */
  lemma LinesExactly(d: seq<byte>, beyond: byte)
    requires d != []
    ensures var p := Parse(d, beyond);
      if p.used > |d| then Lines(d, beyond) == Listing([], 0, true)
      else
        var all, rest := Lines(d, beyond), Lines(d[p.used..], beyond);
        && all.overrun == rest.overrun
        && if WellFormed(d) then
             && p.sum.Some? && 34 + p.name <= |d| && all.errors == rest.errors
             && all.list == [Entry(p.sum.value, d[34..34 + p.name])] + rest.list
           else all.errors == rest.errors + 1 && all.list == rest.list
  {
    AcceptedExactly(d, beyond);
    if WellFormed(d) {
      AcceptedParts(d, beyond);
    }
    hide Parse, WellFormed;
  }

  /** One listing behind another. */
  function Joined(a: Listing, b: Listing): Listing
  {
    Listing(a.list + b.list, a.errors + b.errors, b.overrun)
  }

  lemma JoinedAssociates(a: Listing, b: Listing, c: Listing)
    ensures Joined(Joined(a, b), c) == Joined(a, Joined(b, c))
  {
    assert a.list + b.list + c.list == a.list + (b.list + c.list);
  }

  lemma JoinedNothing(a: Listing)
    ensures Joined(NOTHING, a) == a && (!a.overrun ==> Joined(a, NOTHING) == a)
  {
    assert [] + a.list == a.list;
    assert a.list + [] == a.list;
  }

  /** What one line contributes. */
  function OneLine(d: seq<byte>, p: Parsed): Listing
    requires 34 + p.name <= |d| || p.err || p.used > |d|
  {
    if p.used > |d| then Listing([], 0, true)
    else if p.err then Listing([], 1, false)
    else Listing([EntryOf(d, p)], 0, false)
  }

  lemma LinesStep(d: seq<byte>, beyond: byte)
    requires d != []
    ensures var p := Parse(d, beyond);
      && (34 + p.name <= |d| || p.err || p.used > |d|)
      && Lines(d, beyond) == if p.used > |d| then OneLine(d, p) else Joined(OneLine(d, p), Lines(d[p.used..], beyond))
  {
    hide Parse, EntryOf;
    ReadAdvances(d, beyond);
    if Parse(d, beyond).used <= |d| {
      ReadStaysInside(d, beyond);
    }
  }

  lemma NoLines(d: seq<byte>, beyond: byte)
    requires d == []
    ensures Lines(d, beyond) == NOTHING
  {
  }

  lemma JoinedOne(a: Listing, d: seq<byte>, p: Parsed)
    requires !a.overrun && (34 + p.name <= |d| || p.err || p.used > |d|)
    ensures Joined(a, OneLine(d, p)) ==
      if p.used > |d| then a.(overrun := true)
      else if p.err then a.(errors := a.errors + 1)
      else a.(list := a.list + [EntryOf(d, p)])
  {
  }

  ghost predicate Printable(list: seq<Entry>)
  {
    forall e :: e in list ==> |e.sum| == 16 && Clean(e.name)
  }

  /** What reading the first of the printed lines does. */
  lemma PrintedStep(list: seq<Entry>, beyond: byte)
    requires Printable(list) && list != []
    ensures var d := Print(list);
      var p := Parse(d, beyond);
      && d != [] && !p.err && p.used <= |d| && d[p.used..] == Print(list[1..])
      && 34 + p.name <= |d| && EntryOf(d, p) == list[0]
  {
    var e, rest := list[0], Print(list[1..]);
    LineLayout(e, rest);
    RoundTripExactly(e, rest, beyond);
    var d := Line(e) + rest;
    assert d[34..34 + |e.name|] == d[34..][..|e.name|] == e.name;
  }

  /** Reading a printed list gives the list, whatever lies behind it. */
  lemma {:induction false} ListRoundTrip(list: seq<Entry>, beyond: byte)
    requires Printable(list)
    ensures Lines(Print(list), beyond) == Listing(list, 0, false)
    decreases |list|
  {
    hide Parse, EntryOf, Clean;
    if list != [] {
      PrintedStep(list, beyond);
      ListRoundTrip(list[1..], beyond);
      assert [list[0]] + list[1..] == list;
    }
  }

  datatype Step = Done | Error | Got | Overrun

  /** The part of `struct md5` that walks through the text of a .md5 file. There is room for one
      byte behind the text. */
  class Checker {
    var data: Str
    var sum: Option<seq<byte>>
    var name: Str

    ghost predicate Valid()
      reads this, data.ptr
    {
      data.Ok() && data.pos + data.len < data.ptr.Length
    }

    /** The byte behind the text. */
    function Beyond(): byte
      requires Valid()
      reads this, data.ptr
    {
      data.ptr[data.pos + data.len]
    }

    constructor (text: Str)
      requires text.Ok() && text.pos + text.len < text.ptr.Length
      ensures Valid() && data == text
    {
      data, sum, name := text, None, Str(text.ptr, 0, 0);
    }

    /** The name is followed by a NUL, which is not a part of the unread text; nothing else has
        changed in `text`. */
    ghost predicate Terminated(text: seq<byte>)
      reads this, data.ptr
    {
      var at := name.pos + name.len;
      && at < |text| && data.ptr[..] == text[at := 0] && (at < data.pos || data.len == 0)
    }

    /** Read a line and move on; the text is not touched. When the line reaches beyond the text its
        length would fall below zero: then nothing is moved. */
    method ReadLine() returns (p: Parsed)
      requires Valid() && data.len > 0
      modifies this
      ensures Valid() && p == old(Parse(data.Bytes(), Beyond())) && p.used >= 1
      ensures p.used > old(data.len) ==> data == old(data)
      ensures p.used <= old(data.len) ==>
        && data == old(data).Shift(p.used) && data.Bytes() == old(data.Bytes())[p.used..]
        && (!p.err ==>
          && sum == p.sum && name == Str(data.ptr, old(data.pos) + 34, p.name) && name.Ok()
          && 34 + p.name <= old(data.len) && name.Bytes() == old(data.Bytes())[34..34 + p.name]
          && (34 + p.name < p.used || (34 + p.name == old(data.len) && data.len == 0)))
    {
      hide Parse, Str.Bytes;
      var text := data;
      text.Length();
      ReadAdvances(text.Bytes(), Beyond());
      p := Read(text);
      if p.used > text.len {
        return;
      }
      ReadStaysInside(text.Bytes(), Beyond());
      text.PartBytes(p.used, text.len - p.used);
      if text.len >= 35 {
        name := Str(text.ptr, text.pos + 34, p.name);
      }
      if !p.err {
        text.PartBytes(34, p.name);
        sum := p.sum;
      }
      data := text.Shift(p.used);
      assert text.Bytes()[p.used..] == text.Bytes()[p.used..text.len];
    }

    method Terminate()
      requires Valid() && name.ptr == data.ptr && name.Ok()
      requires name.pos + name.len < if data.len == 0 then data.pos + 1 else data.pos
      modifies data.ptr
      ensures Valid() && Terminated(old(data.ptr[..])) && (data.len > 0 ==> Beyond() == old(Beyond()))
      ensures data.Bytes() == old(data.Bytes()) && name.Bytes() == old(name.Bytes())
    {
      data.ptr[name.pos + name.len] := 0;
    }

    /** `md5_chksum_next`: read a line, and end its name with a NUL in place. */
    method Next() returns (r: Step, ghost p: Parsed)
      requires Valid()
      modifies this, data.ptr
      ensures Valid() && data.ptr == old(data.ptr)
      ensures r == Done <==> old(data.len) == 0
      ensures r == Done || r == Overrun ==> data == old(data)
      ensures r != Done ==> p == old(Parse(data.Bytes(), Beyond())) && 1 <= p.used
      ensures r != Done ==> (r == Overrun <==> p.used > old(data.len))
      ensures r == Error || r == Got ==>
        && p.used <= old(data.len) && data == old(data).Shift(p.used) && (r == Error <==> p.err)
        && data.Bytes() == old(data.Bytes())[p.used..] && (data.len > 0 ==> Beyond() == old(Beyond()))
      ensures r != Got ==> unchanged(data.ptr)
      ensures r == Got ==>
        && sum == p.sum && name == Str(data.ptr, old(data.pos) + 34, p.name) && name.Ok()
        && Terminated(old(data.ptr[..]))
        && 34 + p.name <= old(data.len) && name.Bytes() == old(data.Bytes())[34..34 + p.name]
    {
      hide Parse, Str.Bytes;
      if data.len == 0 {
        return Done, Parsed(false, 0, None, 0);
      }
      var len := data.len;
      var q := ReadLine();
      if q.used > len {
        return Overrun, q;
      }
      if q.err {
        return Error, q;
      }
      Terminate();
      return Got, q;
    }
  }

  /** The state loop of `md5_run` around `md5_chksum_next`: a malformed line is counted, and reading
      goes on behind it. For any text this ends, with exactly what the text contains. */
  method ReadList(c: Checker) returns (all: Listing)
    requires c.Valid()
    modifies c, c.data.ptr
    ensures all == old(Lines(c.data.Bytes(), c.Beyond()))
    ensures c.data.len == 0 <==> !all.overrun
  {
    hide Parse, Lines, Joined, Checker.Terminated, Str.Bytes;
    ghost var text, beyond := c.data.Bytes(), c.Beyond();
    all := NOTHING;
    JoinedNothing(Lines(text, beyond));
    while true
      invariant c.Valid() && c.data.ptr == old(c.data.ptr)
      invariant !all.overrun && (c.data.len > 0 ==> c.Beyond() == beyond)
      invariant Lines(text, beyond) == Joined(all, Lines(c.data.Bytes(), beyond))
      decreases c.data.len
    {
      ghost var d, before := c.data.Bytes(), all;
      c.data.Length();
      var r, p := c.Next();
      if r == Done {
        NoLines(d, beyond);
        JoinedNothing(all);
        return;
      }
      LinesStep(d, beyond);
      JoinedAssociates(before, OneLine(d, p), Lines(c.data.Bytes(), beyond));
      if r == Overrun {
        all := all.(overrun := true);
        JoinedOne(before, d, p);
        return;
      } else if r == Error {
        all := all.(errors := all.errors + 1);
      } else {
        all := all.(list := all.list + [Entry(if c.sum.Some? then c.sum.value else [], c.name.Bytes())]);
      }
      JoinedOne(before, d, p);
    }
  }
}
