/** src/fs/sync-cmp.h: `struct diff` while it compares two directory trees, and `sync_view`. */
module Diff {
  import opened Bytes
  import opened SyncEntry
  import R = DiffRows
  import S = DiffSpec
  import V = SyncView

  /** What `fntree_cmp_next` returns: a result, and a file of each tree. */
  datatype Found = Found(r: bv32, le: Entry, re: Entry)

  /** The event: the unused file is ignored. */
  function EventOf(f: Found): S.Event
  {
    if f.r & 0xf == LEFT then S.Only(S.Left, f.le)
    else if f.r & 0xf == RIGHT then S.Only(S.Right, f.re)
    else S.Both(f.r, f.le, f.re)
  }

  lemma KindOfComparison(r: bv32)
    requires Comparison(r)
    ensures (r & 0xf == LEFT <==> r == LEFT) && (r & 0xf == RIGHT <==> r == RIGHT)
    ensures r & 0xf == CMP_EQ <==> r == CMP_EQ
  {
  }

  lemma MirrorOfFound(k: bv32, l: Entry, r: Entry)
    requires Comparison(k)
    ensures EventOf(Found(StatusSwap(k), r, l)) == S.MirrorEvent(EventOf(Found(k, l, r)))
  {
  }

  /** Comparing the files in the other order gives the mirrored event. */
  lemma FoundMirror(o: bv32, l: Entry, r: Entry)
    ensures EventOf(Found(DataCmp(o, r, l), r, l)) == S.MirrorEvent(EventOf(Found(DataCmp(o, l, r), l, r)))
  {
    hide DataCmp;
    DataCmpBits(o, l, r);
    DataCmpMirror(o, l, r);
    MirrorOfFound(DataCmp(o, l, r), l, r);
  }

  // The table of unmatched files

  /** The input of the hash function. */
  datatype HashKey = HashKey(dir: bool, msec: int, size: nat, name: seq<byte>)

  const NAME_MAX := 1024

  /** `ent_moved_hash` without the hash function */
  function HashInput(o: bv32, e: Entry): HashKey
  {
    HashKey(!Has(o, NO_ATTR) && IsDir(e), if Has(o, NO_TIME) then 0 else S.Msec(e.mtime), e.size,
            if Has(o, MOVE_NO_NAME) then [] else e.name[..Min(|e.name|, NAME_MAX)])
  }

  /** `moved_keyeq` */
  predicate KeyEq(o: bv32, l: Entry, r: Entry)
  {
    && l.size == r.size
    && IsDir(l) == IsDir(r)
    && (Has(o, MOVE_NO_NAME) || l.name == r.name)
    && (Has(o, NO_TIME) || S.Msec(l.mtime) == S.Msec(r.mtime))
  }

  /** Files match exactly if they have the same key, and then their hashes are the same. */
  lemma KeyEqIsSameKey(o: bv32, l: Entry, r: Entry)
    ensures KeyEq(o, l, r) <==> S.KeyOf(o, l) == S.KeyOf(o, r)
    ensures KeyEq(o, l, r) ==> HashInput(o, l) == HashInput(o, r)
  {
    hide S.Msec, IsDir, Has;
  }

  datatype Slot = Slot(hash: bv32, row: nat)

  /** The file by which a row is looked up. */
  function RowEntry(row: S.Row): Option<Entry> { if row.l.Some? then row.l else row.r }

  ghost predicate SlotOk(o: bv32, hash: HashKey -> bv32, slot: Slot, rows: seq<S.Row>, first: map<S.Key, nat>)
  {
    && slot.row < |rows|
    && var e := RowEntry(rows[slot.row]);
    && e.Some? && slot.hash == hash(HashInput(o, e.value))
    && S.KeyOf(o, e.value) in first && first[S.KeyOf(o, e.value)] == slot.row
  }

  ghost predicate KeyOk(o: bv32, moved: seq<Slot>, rows: seq<S.Row>, first: map<S.Key, nat>, k: S.Key)
    requires k in first
  {
    && first[k] < |rows|
    && var e := RowEntry(rows[first[k]]);
    && e.Some? && S.KeyOf(o, e.value) == k
    && exists i :: 0 <= i < |moved| && moved[i].row == first[k]
  }

  /** The slots hold the first rows of all keys. */
  ghost predicate TableOk(o: bv32, hash: HashKey -> bv32, moved: seq<Slot>, rows: seq<S.Row>, first: map<S.Key, nat>)
  {
    && (forall i :: 0 <= i < |moved| ==> SlotOk(o, hash, moved[i], rows, first))
    && (forall k :: k in first ==> KeyOk(o, moved, rows, first, k))
  }

  lemma TableAfterPush(o: bv32, hash: HashKey -> bv32, moved: seq<Slot>, rows: seq<S.Row>, first: map<S.Key, nat>, row: S.Row)
    requires TableOk(o, hash, moved, rows, first)
    ensures TableOk(o, hash, moved, rows + [row], first)
  {
    hide S.KeyOf, HashInput;
    var all := rows + [row];
    forall i | 0 <= i < |moved| ensures SlotOk(o, hash, moved[i], all, first) {
      assert SlotOk(o, hash, moved[i], rows, first);
    }
    forall k | k in first ensures KeyOk(o, moved, all, first, k) {
      assert KeyOk(o, moved, rows, first, k);
    }
  }

  lemma TableAfterAdd(o: bv32, hash: HashKey -> bv32, moved: seq<Slot>, rows: seq<S.Row>, first: map<S.Key, nat>, e: Entry, ce: nat)
    requires TableOk(o, hash, moved, rows, first) && S.KeyOf(o, e) !in first
    requires ce < |rows| && RowEntry(rows[ce]) == Some(e)
    ensures TableOk(o, hash, moved + [Slot(hash(HashInput(o, e)), ce)], rows, first[S.KeyOf(o, e) := ce])
  {
    hide S.KeyOf, HashInput;
    var slots, first' := moved + [Slot(hash(HashInput(o, e)), ce)], first[S.KeyOf(o, e) := ce];
    forall i | 0 <= i < |slots| ensures SlotOk(o, hash, slots[i], rows, first') {
      assert i < |moved| ==> SlotOk(o, hash, moved[i], rows, first);
    }
    forall k | k in first' ensures KeyOk(o, slots, rows, first', k) {
      if k == S.KeyOf(o, e) {
        assert slots[|moved|].row == ce;
      } else {
        assert KeyOk(o, moved, rows, first, k);
        var i :| 0 <= i < |moved| && moved[i].row == first[k];
        assert slots[i].row == first[k];
      }
    }
  }

  lemma TableAfterUpdate(o: bv32, hash: HashKey -> bv32, moved: seq<Slot>, rows: seq<S.Row>, first: map<S.Key, nat>, j: nat, row: S.Row)
    requires TableOk(o, hash, moved, rows, first) && j < |rows|
    requires RowEntry(row).Some? && RowEntry(rows[j]).Some?
    requires KeyEq(o, RowEntry(row).value, RowEntry(rows[j]).value)
    ensures TableOk(o, hash, moved, rows[j := row], first)
  {
    hide S.KeyOf, HashInput, KeyEq;
    KeyEqIsSameKey(o, RowEntry(row).value, RowEntry(rows[j]).value);
    forall i | 0 <= i < |moved| ensures SlotOk(o, hash, moved[i], rows[j := row], first) {
      assert SlotOk(o, hash, moved[i], rows, first);
    }
    forall k | k in first ensures KeyOk(o, moved, rows[j := row], first, k) {
      assert KeyOk(o, moved, rows, first, k);
    }
  }

  lemma FirstOk(o: bv32, hash: HashKey -> bv32, moved: seq<Slot>, rows: seq<S.Row>, first: map<S.Key, nat>, k: S.Key)
    requires TableOk(o, hash, moved, rows, first) && k in first
    ensures KeyOk(o, moved, rows, first, k)
  {
  }

  /** The two rows of a moved file get their status; the first one also gets the file. */
  lemma TableAfterMatch(o: bv32, hash: HashKey -> bv32, moved: seq<Slot>, s: S.State, side: S.Side, e: Entry, j: nat)
    requires j < |s.rows| && S.KeyOf(o, e) in s.first && s.first[S.KeyOf(o, e)] == j
    requires TableOk(o, hash, moved, s.rows + [S.Single(0, side, e)], s.first)
    ensures TableOk(o, hash, moved, S.Match(s, side, e, j).rows, s.first)
  {
    hide S.KeyOf, HashInput, TableOk, KeyEq;
    var n, rows, t := |s.rows|, s.rows + [S.Single(0, side, e)], S.Match(s, side, e, j);
    assert KeyOk(o, moved, rows, s.first, S.KeyOf(o, e)) by {
      FirstOk(o, hash, moved, rows, s.first, S.KeyOf(o, e));
    }
    KeyEqIsSameKey(o, RowEntry(t.rows[j]).value, RowEntry(s.rows[j]).value);
    KeyEqIsSameKey(o, e, e);
    TableAfterUpdate(o, hash, moved, rows, s.first, j, t.rows[j]);
    TableAfterUpdate(o, hash, moved, rows[j := t.rows[j]], s.first, n, t.rows[n]);
    assert rows[j := t.rows[j]][n := t.rows[n]] == t.rows;
  }

  /** The row of a file that is on one side only gets its status. */
  lemma TableAfterStatus(o: bv32, hash: HashKey -> bv32, moved: seq<Slot>, rows: seq<S.Row>, first: map<S.Key, nat>,
                         n: nat, st: bv32)
    requires TableOk(o, hash, moved, rows, first) && n < |rows| && RowEntry(rows[n]).Some?
    ensures TableOk(o, hash, moved, rows[n := rows[n].(status := st)], first)
  {
    hide TableOk;
    KeyEqIsSameKey(o, RowEntry(rows[n]).value, RowEntry(rows[n]).value);
    TableAfterUpdate(o, hash, moved, rows, first, n, rows[n].(status := st));
  }

  // The tests of `sync_view`

  lemma SkipIsUnwanted(flags: bv32, st: bv32)
    requires Has(st, SKIP)
    ensures !V.KindWanted(flags, V.Effective(flags, st))
  {
  }

  /** The switch of `sync_view`. */
  method KindShown(flags: bv32, status: bv32, st: bv32) returns (shown: bool)
    requires !Has(status, SKIP) && st == V.Effective(flags, status)
    ensures shown == V.KindWanted(flags, st)
  {
    hide StatusSwap;
    V.SwapKeepsSkip(status);
    var kind := st & MASK;
    if kind == LEFT {
      return Has(flags, LEFT);
    } else if kind == RIGHT {
      return Has(flags, RIGHT);
    } else if kind == NEQ {
      return Has(flags, NEQ) && !(!Has(flags, NEWER | OLDER) && !Has(st, LARGER | SMALLER | ATTR));
    } else if kind == MOVE {
      return Has(flags, MOVE);
    } else if kind == EQ {
      return Has(flags, EQ);
    }
    return true;
  }

  /** `included` and `excluded` at the end of the loop. */
  method Filtered(p: V.Props, ce: S.Row) returns (pass: bool)
    ensures pass <==> (forall m :: m in p.except ==> !V.Either(p, ce, m))
                      && (p.only == [] || exists m :: m in p.only && V.Included(p, ce, m))
  {
    hide V.StrMatch;
    var included := p.only == [];
    for i := 0 to |p.except|
      invariant forall j :: 0 <= j < i ==> !V.Either(p, ce, p.except[j])
    {
      if V.Either(p, ce, p.except[i]) {
        return false;
      }
    }
    for i := 0 to |p.only|
      invariant included <==> p.only == [] || exists j :: 0 <= j < i && V.Included(p, ce, p.only[j])
    {
      if V.Included(p, ce, p.only[i]) {
        return true;
      }
    }
    return included;
  }

  /** The body of the loop of `sync_view`: false where it goes on with the next row. */
  method Shows(p: V.Props, flags: bv32, ce: S.Row) returns (shown: bool)
    ensures shown == V.Selected(p, flags, ce)
  {
    hide StatusSwap, TimeOrder, V.StrMatch;
    if Has(ce.status, SKIP) {
      SkipIsUnwanted(flags, ce.status);
      return false;
    }
    if !Has(flags, DONE) && Has(ce.status, DONE) {
      return false;
    }
    var st := ce.status;
    if Has(flags, SWAP) {
      st := StatusSwap(ce.status);
    }
    var kind := KindShown(flags, ce.status, st);
    if !kind {
      return false;
    }
    if !Has(flags, DIR) && ((ce.l.Some? && IsDir(ce.l.value)) || (ce.r.Some? && IsDir(ce.r.value))) {
      return false;
    }
    if p.since.sec != 0 {
      if (ce.l.None? || TimeOrder(ce.l.value.mtime, p.since) < 0) && (ce.r.None? || TimeOrder(ce.r.value.mtime, p.since) < 0) {
        return false;
      }
    }
    shown := Filtered(p, ce);
  }

  /** `struct diff`; `evs` are the events so far. */
  class Diff {
    const options: bv32
    const hash: HashKey -> bv32
    var ents: seq<S.Row>
    var moved: seq<Slot>
    var stats: S.Stats
    var filter: seq<nat>
    ghost var first: map<S.Key, nat>
    ghost var evs: seq<S.Event>

    ghost function State(): S.State
      reads this`ents, this`first, this`stats
    {
      S.State(ents, first, stats)
    }

    ghost predicate Valid()
      reads this
    {
      && S.AllPossible(evs) && State() == S.Run(options, evs)
      && TableOk(options, hash, moved, ents, first)
    }

    /** `init` */
    constructor (flags: bv32, h: HashKey -> bv32)
      ensures Valid() && evs == [] && options == flags
    {
      options, hash := flags, h;
      ents, moved, stats, filter := [], [], S.Stats(0, 0, 0, 0, 0, 0), [];
      first, evs := map[], [];
    }

    /** `ffmap_find_hash` */
    method FindHash(h: bv32, e: Entry) returns (row: Option<nat>)
      requires TableOk(options, hash, moved, ents, first) && h == hash(HashInput(options, e))
      ensures row == if S.KeyOf(options, e) in first then Some(first[S.KeyOf(options, e)]) else None
    {
      hide S.KeyOf, HashInput, KeyEq;
      for i := 0 to |moved|
        invariant forall j :: 0 <= j < i ==> S.KeyOf(options, RowEntry(ents[moved[j].row]).value) != S.KeyOf(options, e)
      {
        var slot := moved[i];
        assert SlotOk(options, hash, slot, ents, first);
        var l := RowEntry(ents[slot.row]).value;
        KeyEqIsSameKey(options, l, e);
        if slot.hash == h && KeyEq(options, l, e) {
          return Some(slot.row);
        }
      }
      assert S.KeyOf(options, e) in first ==> KeyOk(options, moved, ents, first, S.KeyOf(options, e));
      return None;
    }

    /** `moved_find_add` */
    method FindAdd(e: Entry, ce: nat) returns (it: Option<nat>)
      requires TableOk(options, hash, moved, ents, first) && ce < |ents| && RowEntry(ents[ce]) == Some(e)
      modifies this`moved, this`first
      ensures TableOk(options, hash, moved, ents, first)
      ensures var k := S.KeyOf(options, e);
        if k in old(first) then it == Some(old(first)[k]) && first == old(first)
        else it == None && first == old(first)[k := ce]
    {
      hide S.KeyOf, HashInput, TableOk;
      var h := hash(HashInput(options, e));
      it := FindHash(h, e);
      if it == None {
        TableAfterAdd(options, hash, moved, ents, first, e, ce);
        moved := moved + [Slot(h, ce)];
        first := first[S.KeyOf(options, e) := ce];
      }
    }

    /** The row of the event has been added, without a status. */
    ghost predicate Pushed(s: S.State, side: S.Side, e: Entry)
      reads this
    {
      && State() == s.(rows := s.rows + [S.Single(0, side, e)])
      && TableOk(options, hash, moved, ents, first)
      && S.Closed(s) && S.Inv(options, evs, s) && S.AllPossible(evs)
    }

    /** `next`: a file on the left only ... */
    method OnLeft(le: Entry, ghost s: S.State)
      requires Pushed(s, S.Left, le)
      modifies this`ents, this`moved, this`first, this`stats
      ensures TableOk(options, hash, moved, ents, first)
      ensures var t := S.Step(options, s, S.Only(S.Left, le));
        State() == t.(stats := t.stats.(entries := t.stats.entries - 1))
    {
      hide S.KeyOf, HashInput, TableOk, S.Inv, S.Possible;
      var ce := |ents| - 1;
      stats := stats.(left := stats.left + 1);
      var it := FindAdd(le, ce);
      S.MovesIsTheTest(options, evs, s, S.Left, le);
      if it.Some? && Has(ents[it.value].status, RIGHT) {
        var j := it.value;
        TableAfterMatch(options, hash, moved, s, S.Left, le, j);
        var row := ents[j];
        row := row.(status := row.status & !RIGHT);
        row := row.(status := row.status | MOVE);
        row := row.(l := Some(le));
        ents := ents[j := row][ce := ents[ce].(status := MOVE | SKIP)];
        stats := stats.(moved := stats.moved + 1, left := stats.left - 1, right := stats.right - 1,
                        entries := stats.entries - 1);
        assert ents == S.Match(s, S.Left, le, j).rows;
      } else {
        TableAfterStatus(options, hash, moved, ents, first, ce, LEFT);
        ents := ents[ce := ents[ce].(status := LEFT)];
      }
    }

    /** ... a file on the right only ... */
    method OnRight(re: Entry, ghost s: S.State)
      requires Pushed(s, S.Right, re)
      modifies this`ents, this`moved, this`first, this`stats
      ensures TableOk(options, hash, moved, ents, first)
      ensures var t := S.Step(options, s, S.Only(S.Right, re));
        State() == t.(stats := t.stats.(entries := t.stats.entries - 1))
    {
      hide S.KeyOf, HashInput, TableOk, S.Inv, S.Possible;
      var ce := |ents| - 1;
      stats := stats.(right := stats.right + 1);
      var it := FindAdd(re, ce);
      S.MovesIsTheTest(options, evs, s, S.Right, re);
      if it.Some? && Has(ents[it.value].status, LEFT) {
        var j := it.value;
        TableAfterMatch(options, hash, moved, s, S.Right, re, j);
        var row := ents[j];
        row := row.(status := row.status & !LEFT);
        row := row.(status := row.status | MOVE);
        row := row.(r := Some(re));
        ents := ents[j := row][ce := ents[ce].(status := MOVE | SKIP)];
        stats := stats.(moved := stats.moved + 1, left := stats.left - 1, right := stats.right - 1,
                        entries := stats.entries - 1);
        assert ents == S.Match(s, S.Right, re, j).rows;
      } else {
        TableAfterStatus(options, hash, moved, ents, first, ce, RIGHT);
        ents := ents[ce := ents[ce].(status := RIGHT)];
      }
    }

    /** ... or a file on both sides. */
    method OnPair(f: Found, ghost s: S.State)
      requires S.Possible(S.Both(f.r, f.le, f.re))
      requires State() == s.(rows := s.rows + [S.Row(0, Some(f.le), Some(f.re))])
      requires TableOk(options, hash, moved, ents, first)
      modifies this`ents, this`stats
      ensures TableOk(options, hash, moved, ents, first)
      ensures var t := S.Pair(s, f.r, f.le, f.re);
        State() == t.(stats := t.stats.(entries := t.stats.entries - 1))
    {
      hide TableOk;
      KindOfComparison(f.r);
      var ce := |ents| - 1;
      var st := EQ;
      if f.r & 0xf == CMP_EQ {
        stats := stats.(eq := stats.eq + 1);
      } else {
        stats := stats.(neq := stats.neq + 1);
        st := NEQ | (f.r & !0xf);
      }
      TableAfterStatus(options, hash, moved, ents, first, ce, st);
      ents := ents[ce := ents[ce].(status := st)];
    }

    ghost method Record(ev: S.Event, s: S.State)
      requires S.AllPossible(evs) && S.Possible(ev) && s == S.Run(options, evs)
      modifies this`evs
      ensures evs == old(evs) + [ev] && S.AllPossible(evs) && S.Run(options, evs) == S.Step(options, s, ev)
    {
      hide S.Possible, S.Step;
      assert (evs + [ev])[..|evs|] == evs;
      evs := evs + [ev];
    }

    /** `next` on the result of the next comparison, or on none. */
    method Next(found: Option<Found>) returns (end: int)
      requires Valid() && (found.Some? ==> Comparison(found.value.r))
      modifies this
      ensures Valid() && end == if found.None? then 1 else 0
      ensures evs == if found.None? then old(evs) else old(evs) + [EventOf(found.value)]
    {
      hide TableOk, S.Inv, S.AllPossible, S.Run, S.Match, S.Plain, S.KeyOf;
      if found.None? {
        return 1;
      }
      var f := found.value;
      KindOfComparison(f.r);
      var kind := f.r & 0xf;
      var l := if kind == RIGHT then None else Some(f.le);
      var r := if kind == LEFT then None else Some(f.re);
      ghost var s := State();
      S.RunKeepsInv(options, evs);
      TableAfterPush(options, hash, moved, ents, first, S.Row(0, l, r));
      ents := ents + [S.Row(0, l, r)];
      if kind == LEFT {
        OnLeft(f.le, s);
      } else if kind == RIGHT {
        OnRight(f.re, s);
      } else {
        OnPair(f, s);
      }
      stats := stats.(entries := stats.entries + 1);
      Record(EventOf(f), s);
      return 0;
    }

    /** `sync_view` */
    method View(p: V.Props, flags: bv32) returns (n: nat)
      modifies this`filter
      ensures filter == V.View(p, flags, ents) && n == |filter|
    {
      hide V.Selected;
      filter := [];
      for i := 0 to |ents|
        invariant filter == V.View(p, flags, ents[..i])
      {
        assert ents[..i + 1][..i] == ents[..i];
        var selected := Shows(p, flags, ents[i]);
        if selected {
          filter := filter + [i];
        }
      }
      assert ents[..|ents|] == ents;
      return |filter|;
    }
  }

  function EventsOf(found: seq<Found>): (evs: seq<S.Event>)
    ensures |evs| == |found| && forall i :: 0 <= i < |evs| ==> evs[i] == EventOf(found[i])
  {
    if found == [] then [] else EventsOf(found[..|found| - 1]) + [EventOf(found[|found| - 1])]
  }

  /** A row shows the files that the comparison has found. */
  lemma {:induction false} ShowsFound(o: bv32, found: seq<Found>, i: nat)
    requires i < |found| && Comparison(found[i].r)
    ensures var row := R.RowOf(o, EventsOf(found), i);
      && (found[i].r == 1 ==> row.l == Some(found[i].le))
      && (found[i].r == 2 ==> row.r == Some(found[i].re))
      && (found[i].r != 1 && found[i].r != 2 ==>
          row == S.Row(if found[i].r == 0 then 0x10 else found[i].r, Some(found[i].le), Some(found[i].re)))
  {
    hide S.KeyOf, R.First, EventsOf;
    KindOfComparison(found[i].r);
    var evs := EventsOf(found);
    assert evs[i] == EventOf(found[i]);
  }

  /** `sync_diff`: `next` until the comparison ends. */
  method SyncDiff(flags: bv32, hash: HashKey -> bv32, found: seq<Found>) returns (sd: Diff)
    requires forall i :: 0 <= i < |found| ==> Comparison(found[i].r)
    ensures fresh(sd) && sd.Valid() && sd.evs == EventsOf(found)
    ensures sd.State() == S.Run(flags, EventsOf(found)) && |sd.ents| == |found|
    ensures forall i :: 0 <= i < |found| ==> sd.ents[i] == R.RowOf(flags, EventsOf(found), i)
  {
    hide S.Run, TableOk, Comparison, EventOf, S.AllPossible, R.RowOf;
    sd := new Diff(flags, hash);
    var i := 0;
    while true
      invariant i <= |found| && fresh(sd) && sd.Valid() && sd.options == flags && sd.evs == EventsOf(found[..i])
      decreases |found| - i
    {
      var end := sd.Next(if i < |found| then Some(found[i]) else None);
      if end != 0 {
        break;
      }
      assert found[..i + 1][..i] == found[..i];
      i := i + 1;
    }
    assert found[..i] == found;
    R.RowsOfRun(flags, sd.evs);
  }
}
