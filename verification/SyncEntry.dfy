/** src/fs/sync-cmp.h: comparing two files by their meta data, and the status bits. */
module SyncEntry {
  import opened Bytes

  /** `fftime` */
  datatype Time = Time(sec: int, nsec: nat)

  /** `fntree_entry` with its `fcom_sync_entry`, and the path of its `fntree_block`. */
  datatype Entry = Entry(path: seq<byte>, name: seq<byte>, size: nat, unixAttr: bv32, winAttr: bv32, mtime: Time)

  // enum FCOM_SYNC, whose first bits are those of enum FNTREE_CMP

  const LEFT: bv32 := 1
  const RIGHT: bv32 := 2
  const NEQ: bv32 := 4
  const MOVE: bv32 := 8
  const EQ: bv32 := 0x10
  const MASK: bv32 := 0xff
  const NEWER: bv32 := 0x100
  const OLDER: bv32 := 0x200
  const LARGER: bv32 := 0x400
  const SMALLER: bv32 := 0x800
  const ATTR: bv32 := 0x1000
  const DIR: bv32 := 0x2000
  const SWAP: bv32 := 0x4000
  const SKIP: bv32 := 0x8000
  const DONE: bv32 := 0x40000

  /** FNTREE_CMP_EQ */
  const CMP_EQ: bv32 := 0

  // enum FCOM_SYNC_DIFF

  const NO_ATTR: bv32 := 8
  const NO_TIME: bv32 := 0x10
  const TIME_2SEC: bv32 := 0x20
  const MOVE_NO_NAME: bv32 := 0x40

  /** FFFILE_UNIX_DIR */
  const UNIX_DIR: bv32 := 0x4000

  predicate Has(x: bv32, bits: bv32) { x & bits != 0 }

  predicate IsDir(e: Entry) { Has(e.unixAttr, UNIX_DIR) }

  // Orders

  function Lower(c: byte): byte { if 0x41 <= c <= 0x5a then c | 0x20 else c }

  /** `ffstr_icmp2` */
  function NameOrder(a: seq<byte>, b: seq<byte>): int
  {
    if a == [] || b == [] then (if b != [] then -1 else if a != [] then 1 else 0)
    else if Lower(a[0]) < Lower(b[0]) then -1
    else if Lower(a[0]) > Lower(b[0]) then 1
    else NameOrder(a[1..], b[1..])
  }

  /** The same letter of the alphabet, or the same byte. */
  predicate SameLetter(a: byte, b: byte)
  {
    a == b || (a ^ b == 0x20 && (0x41 <= a <= 0x5a || 0x61 <= a <= 0x7a))
  }

  /** Small letters stand for both. */
  lemma LowerIsSameLetter(a: byte, b: byte)
    ensures Lower(a) == Lower(b) <==> SameLetter(a, b)
    ensures SameLetter(a, Lower(a)) && !(0x41 <= Lower(a) <= 0x5a)
  {
  }

  /** The first name goes on like the second one up to `i`, where it ends or has the smaller byte. */
  predicate LessAt(a: seq<byte>, b: seq<byte>, i: nat)
  {
    && i <= |a| && i < |b|
    && (forall j :: 0 <= j < i ==> SameLetter(a[j], b[j]))
    && (i < |a| ==> Lower(a[i]) < Lower(b[i]))
  }

  ghost predicate Less(a: seq<byte>, b: seq<byte>) { exists i: nat :: LessAt(a, b, i) }

  predicate SameName(a: seq<byte>, b: seq<byte>)
  {
    |a| == |b| && forall i :: 0 <= i < |a| ==> SameLetter(a[i], b[i])
  }

  /** The first letters decide, unless they are the same. */
  lemma LessHere(a: seq<byte>, b: seq<byte>)
    requires a == [] || b == [] || !SameLetter(a[0], b[0])
    ensures Less(a, b) <==> b != [] && (a == [] || Lower(a[0]) < Lower(b[0]))
  {
    hide SameLetter, Lower;
    if b != [] && (a == [] || Lower(a[0]) < Lower(b[0])) {
      assert LessAt(a, b, 0);
    }
  }

  lemma LessBehind(a: seq<byte>, b: seq<byte>, i: nat)
    requires a != [] && b != [] && SameLetter(a[0], b[0]) && LessAt(a[1..], b[1..], i)
    ensures LessAt(a, b, i + 1)
  {
    hide SameLetter, Lower;
    forall j | 0 <= j < i + 1 ensures SameLetter(a[j], b[j]) {
      if j > 0 {
        assert SameLetter(a[1..][j - 1], b[1..][j - 1]);
      }
    }
  }

  lemma LessInFront(a: seq<byte>, b: seq<byte>, i: nat)
    requires a != [] && b != [] && SameLetter(a[0], b[0]) && LessAt(a, b, i)
    ensures i > 0 && LessAt(a[1..], b[1..], i - 1)
  {
    LowerIsSameLetter(a[0], b[0]);
    hide SameLetter, Lower;
    forall j | 0 <= j < i - 1 ensures SameLetter(a[1..][j], b[1..][j]) {
      assert SameLetter(a[j + 1], b[j + 1]);
    }
  }

  /** Names that begin with the same letter differ where what follows does. */
  lemma LessFurther(a: seq<byte>, b: seq<byte>)
    requires a != [] && b != [] && SameLetter(a[0], b[0])
    ensures Less(a[1..], b[1..]) <==> Less(a, b)
  {
    hide SameLetter, Lower, LessAt;
    if i: nat :| LessAt(a[1..], b[1..], i) {
      LessBehind(a, b, i);
    }
    if i: nat :| LessAt(a, b, i) {
      LessInFront(a, b, i);
    }
  }

  lemma SameFurther(a: seq<byte>, b: seq<byte>)
    requires a != [] && b != []
    ensures SameName(a, b) <==> SameLetter(a[0], b[0]) && SameName(a[1..], b[1..])
  {
    hide SameLetter;
    if SameLetter(a[0], b[0]) && SameName(a[1..], b[1..]) {
      forall i | 0 <= i < |a| ensures SameLetter(a[i], b[i]) {
        assert i > 0 ==> SameLetter(a[1..][i - 1], b[1..][i - 1]);
      }
    }
  }

  /** Names are ordered by the first letter that differs. */
  lemma {:induction false} NameOrderExactly(a: seq<byte>, b: seq<byte>)
    ensures NameOrder(a, b) == -1 || NameOrder(a, b) == 0 || NameOrder(a, b) == 1
    ensures NameOrder(a, b) == 0 <==> SameName(a, b)
    ensures NameOrder(a, b) == -1 <==> Less(a, b)
    ensures NameOrder(a, b) == 1 <==> Less(b, a)
  {
    if a == [] || b == [] {
      LessHere(a, b);
      LessHere(b, a);
    } else {
      hide SameLetter, Lower, Less, SameName;
      LowerIsSameLetter(a[0], b[0]);
      LowerIsSameLetter(b[0], a[0]);
      SameFurther(a, b);
      if SameLetter(a[0], b[0]) {
        NameOrderExactly(a[1..], b[1..]);
        LessFurther(a, b);
        LessFurther(b, a);
      } else {
        LessHere(a, b);
        LessHere(b, a);
      }
    }
  }

  lemma {:induction false} NameOrderMirror(a: seq<byte>, b: seq<byte>)
    ensures NameOrder(b, a) == -NameOrder(a, b)
  {
    if a != [] && b != [] {
      NameOrderMirror(a[1..], b[1..]);
    }
  }

  /** `fftime_cmp` */
  function TimeOrder(a: Time, b: Time): int
  {
    if a.sec != b.sec then (if a.sec < b.sec then -1 else 1)
    else if a.nsec != b.nsec then (if a.nsec < b.nsec then -1 else 1)
    else 0
  }

  /** Times are ordered by their nanoseconds, and by seconds first where these are out of range. */
  lemma TimeOrderExactly(a: Time, b: Time)
    ensures TimeOrder(a, b) == -1 || TimeOrder(a, b) == 0 || TimeOrder(a, b) == 1
    ensures TimeOrder(a, b) == 0 <==> a == b
    ensures TimeOrder(b, a) == -TimeOrder(a, b)
    ensures a.sec < b.sec || (a.sec == b.sec && a.nsec < b.nsec) ==> TimeOrder(a, b) == -1
    ensures a.nsec < 1000000000 && b.nsec < 1000000000 ==>
      (TimeOrder(a, b) == -1 <==> a.sec * 1000000000 + a.nsec < b.sec * 1000000000 + b.nsec)
  {
  }

  /** C's division by two. */
  function Half(n: int): int { if n >= 0 then n / 2 else -(-n / 2) }

  /** It rounds towards zero. */
  lemma HalfTruncates(n: int)
    ensures n >= 0 ==> 2 * Half(n) <= n <= 2 * Half(n) + 1
    ensures n <= 0 ==> 2 * Half(n) - 1 <= n <= 2 * Half(n)
  {
  }

  /** How `data_cmp` orders the times of two files: 0 if they count as equal. */
  function TimeDifference(o: bv32, a: Time, b: Time): int
  {
    if Has(o, NO_TIME) || (Has(o, TIME_2SEC) && Half(a.sec) == Half(b.sec)) then 0 else TimeOrder(a, b)
  }

  predicate AttrDiffers(o: bv32, l: Entry, r: Entry)
  {
    !Has(o, NO_ATTR) && (l.unixAttr != r.unixAttr || l.winAttr != r.winAttr)
  }

  /** `data_cmp` */
  function DataCmp(o: bv32, l: Entry, r: Entry): bv32
  {
    var i := NameOrder(l.name, r.name);
    if i < 0 then LEFT
    else if i > 0 then RIGHT
    else
      var k := CMP_EQ;
      var k := if l.size != r.size then k | NEQ | (if l.size < r.size then SMALLER else LARGER) else k;
      var k := if AttrDiffers(o, l, r) then k | NEQ | ATTR else k;
      var i := TimeDifference(o, l.mtime, r.mtime);
      if i != 0 then k | NEQ | (if i < 0 then OLDER else NEWER) else k
  }

  /** No bit is set together with its opposite. */
  predicate NoOpposites(st: bv32)
  {
    !(Has(st, LEFT) && Has(st, RIGHT)) && !(Has(st, NEWER) && Has(st, OLDER)) && !(Has(st, LARGER) && Has(st, SMALLER))
  }

  predicate Different(k: bv32)
  {
    k & (0x1f00 | NEQ) == k && Has(k, NEQ) && NoOpposites(k)
  }

  /** The results that a comparison can have: different with some of the five reasons, or one of the
      other three. */
  predicate Comparison(k: bv32)
  {
    k == LEFT || k == RIGHT || k == CMP_EQ || Different(k)
  }

  /** When the option to ignore times, or differences within two seconds, makes two times equal. */
  predicate TimeIgnored(o: bv32, a: Time, b: Time)
  {
    o & 0x10 != 0 || (o & 0x20 != 0 && Half(a.sec) == Half(b.sec))
  }

  lemma TimeDifferenceExactly(o: bv32, a: Time, b: Time)
    ensures TimeDifference(o, a, b) < 0 <==> !TimeIgnored(o, a, b) && TimeOrder(a, b) < 0
    ensures TimeDifference(o, a, b) > 0 <==> !TimeIgnored(o, a, b) && TimeOrder(a, b) > 0
  {
    hide Half, TimeOrder;
  }

  /** What each bit of the result says about the two files. The bit 4 stands beside any of the five
      others, and there are no more. */
  lemma DataCmpBits(o: bv32, l: Entry, r: Entry)
    ensures var k := DataCmp(o, l, r);
      && (k == 1 <==> Less(l.name, r.name))
      && (k == 2 <==> Less(r.name, l.name))
      && (SameName(l.name, r.name) ==>
          && (k & 0x400 != 0 <==> l.size > r.size) && (k & 0x800 != 0 <==> l.size < r.size)
          && (k & 0x1000 != 0 <==> o & 8 == 0 && (l.unixAttr != r.unixAttr || l.winAttr != r.winAttr))
          && (k & 0x100 != 0 <==> !TimeIgnored(o, l.mtime, r.mtime) && TimeOrder(l.mtime, r.mtime) > 0)
          && (k & 0x200 != 0 <==> !TimeIgnored(o, l.mtime, r.mtime) && TimeOrder(l.mtime, r.mtime) < 0)
          && (k & 0x1f00 == 0 <==> k == 0) && (k & !0x1f00 == if k == 0 then 0 else 4))
      && Comparison(k)
  {
    NameOrderExactly(l.name, r.name);
    TimeDifferenceExactly(o, l.mtime, r.mtime);
    hide NameOrder, Less, SameName, TimeDifference, TimeIgnored, TimeOrder;
  }

  // Swapping the sides

  function FlagsSwap(u: bv32, a: bv32, b: bv32): bv32
  {
    if Has(u, a) then (u & !a) | b
    else if Has(u, b) then (u & !b) | a
    else u
  }

  /** `status_swap` */
  function StatusSwap(st: bv32): bv32
  {
    FlagsSwap(FlagsSwap(FlagsSwap(st, LEFT, RIGHT), NEWER, OLDER), LARGER, SMALLER)
  }

  /** The bits outside the three pairs. */
  function Others(st: bv32): bv32 { st & !0xf03 }

  lemma SwapKeepsTheRest(st: bv32)
    ensures Others(StatusSwap(st)) == Others(st)
  {
  }

  lemma SwapExchanges(st: bv32)
    requires NoOpposites(st)
    ensures var x := StatusSwap(st);
      && Has(x, LEFT) == Has(st, RIGHT) && Has(x, RIGHT) == Has(st, LEFT)
      && Has(x, NEWER) == Has(st, OLDER) && Has(x, OLDER) == Has(st, NEWER)
      && Has(x, LARGER) == Has(st, SMALLER) && Has(x, SMALLER) == Has(st, LARGER)
  {
  }

  lemma SameBits(x: bv32, y: bv32)
    requires Others(x) == Others(y)
    requires Has(x, LEFT) == Has(y, LEFT) && Has(x, RIGHT) == Has(y, RIGHT)
    requires Has(x, NEWER) == Has(y, NEWER) && Has(x, OLDER) == Has(y, OLDER)
    requires Has(x, LARGER) == Has(y, LARGER) && Has(x, SMALLER) == Has(y, SMALLER)
    ensures x == y
  {
  }

  lemma SwapTwice(st: bv32)
    requires NoOpposites(st)
    ensures StatusSwap(StatusSwap(st)) == st
  {
    hide StatusSwap, Has, Others;
    var x := StatusSwap(st);
    SwapKeepsTheRest(st);
    SwapExchanges(st);
    SwapKeepsTheRest(x);
    SwapExchanges(x);
    SameBits(st, StatusSwap(x));
  }

  lemma SwapTwiceForgets(st: bv32)
    requires !NoOpposites(st)
    ensures StatusSwap(StatusSwap(st)) != st
  {
  }

  /** Swapping twice gives the status back exactly if no bit is set together with its opposite. */
  lemma SwapIsInvolutionExactly(st: bv32)
    ensures StatusSwap(StatusSwap(st)) == st <==> NoOpposites(st)
  {
    if NoOpposites(st) {
      SwapTwice(st);
    } else {
      SwapTwiceForgets(st);
    }
    hide StatusSwap, NoOpposites;
  }

  lemma DataCmpMirror(o: bv32, l: Entry, r: Entry)
    ensures DataCmp(o, r, l) == StatusSwap(DataCmp(o, l, r))
  {
    NameOrderMirror(l.name, r.name);
    hide NameOrder;
  }
}
