/** src/fs/sync-cmp.h: every row of the table that a comparison builds, and every counter, in terms of
    the comparison events alone. */
module DiffRows {
  import opened Bytes
  import opened SyncEntry
  import opened DiffSpec

  /** The event is a file on one side only, with this key. */
  predicate At(o: bv32, ev: Event, side: Side, k: Key)
  {
    ev.Only? && ev.side == side && KeyOf(o, ev.e) == k
  }

  /** The first such event, or the number of events if there is none. */
  function First(o: bv32, evs: seq<Event>, side: Side, k: Key): (i: nat)
    ensures i <= |evs| && (i < |evs| ==> At(o, evs[i], side, k))
    ensures forall j :: 0 <= j < i ==> !At(o, evs[j], side, k)
  {
    if evs == [] then 0
    else
      var n := |evs| - 1;
      var i := First(o, evs[..n], side, k);
      if i < n || At(o, evs[n], side, k) then i else n + 1
  }

  /** A row as the events have it. The first left-only and the first right-only file with a key are
      one moved file: the row of the earlier event shows both, and the row of the later one is to be
      skipped. */
  function RowOf(o: bv32, evs: seq<Event>, i: nat): Row
    requires i < |evs|
  {
    match evs[i]
    case Both(k, l, r) => Row(if k == 0 then 0x10 else k, Some(l), Some(r))
    case Only(side, e) =>
      var l, r := First(o, evs, Left, KeyOf(o, e)), First(o, evs, Right, KeyOf(o, e));
      if l < |evs| && r < |evs| && i == Min(l, r) then Row(8, Some(evs[l].e), Some(evs[r].e))
      else
        var moved := l < |evs| && r < |evs| && i == Max(l, r);
        if side.Left? then Row(if moved then 0x8008 else 1, Some(e), None)
        else Row(if moved then 0x8008 else 2, None, Some(e))
  }

  /** The index of the row that `first` must have. */
  function FirstOf(o: bv32, evs: seq<Event>, k: Key): nat
  {
    Min(First(o, evs, Left, k), First(o, evs, Right, k))
  }

  ghost predicate RowsAre(o: bv32, evs: seq<Event>, s: State)
  {
    && |s.rows| == |evs|
    && (forall i :: 0 <= i < |evs| ==> s.rows[i] == RowOf(o, evs, i))
    && (forall k :: k in s.first <==> FirstOf(o, evs, k) < |evs|)
    && (forall k :: k in s.first ==> s.first[k] == FirstOf(o, evs, k))
  }

  lemma FirstSnoc(o: bv32, evs: seq<Event>, ev: Event, side: Side, k: Key)
    ensures First(o, evs + [ev], side, k)
         == if First(o, evs, side, k) < |evs| || At(o, ev, side, k) then First(o, evs, side, k) else |evs| + 1
  {
    assert (evs + [ev])[..|evs|] == evs;
  }

  /** The new event is the first one of its side, after one of the other side. */
  predicate Completes(o: bv32, evs: seq<Event>, side: Side, k: Key)
  {
    First(o, evs, side, k) == |evs| && First(o, evs, Other(side), k) < |evs|
  }

  /** What a new event changes in the rows of the old ones. */
  lemma OldRow(o: bv32, evs: seq<Event>, ev: Event, i: nat)
    requires i < |evs|
    ensures RowOf(o, evs + [ev], i)
         == if ev.Only? && Completes(o, evs, ev.side, KeyOf(o, ev.e)) && i == First(o, evs, Other(ev.side), KeyOf(o, ev.e))
            then if ev.side.Left? then Row(8, Some(ev.e), Some(evs[i].e)) else Row(8, Some(evs[i].e), Some(ev.e))
            else RowOf(o, evs, i)
  {
    hide KeyOf, First;
    if evs[i].Only? {
      FirstSnoc(o, evs, ev, Left, KeyOf(o, evs[i].e));
      FirstSnoc(o, evs, ev, Right, KeyOf(o, evs[i].e));
    }
  }

  /** The row of the new event. */
  lemma NewRow(o: bv32, evs: seq<Event>, ev: Event)
    ensures RowOf(o, evs + [ev], |evs|)
         == match ev
            case Both(k, l, r) => Row(if k == 0 then 0x10 else k, Some(l), Some(r))
            case Only(side, e) =>
              Single(if Completes(o, evs, side, KeyOf(o, e)) then 0x8008 else if side.Left? then 1 else 2, side, e)
  {
    hide KeyOf, First;
    if ev.Only? {
      FirstSnoc(o, evs, ev, Left, KeyOf(o, ev.e));
      FirstSnoc(o, evs, ev, Right, KeyOf(o, ev.e));
    }
  }

  lemma NewFirst(o: bv32, evs: seq<Event>, ev: Event, k: Key)
    ensures FirstOf(o, evs + [ev], k)
         == if FirstOf(o, evs, k) < |evs| || (ev.Only? && KeyOf(o, ev.e) == k) then FirstOf(o, evs, k) else |evs| + 1
  {
    hide KeyOf, First;
    FirstSnoc(o, evs, ev, Left, k);
    FirstSnoc(o, evs, ev, Right, k);
  }

  lemma Statuses(k: bv32)
    ensures LEFT == 1 && RIGHT == 2 && EQ == 0x10 && CMP_EQ == 0
    ensures (LEFT & !LEFT) | MOVE == (RIGHT & !RIGHT) | MOVE == 8 && MOVE | SKIP == 0x8008
    ensures Has(LEFT, LEFT) && !Has(LEFT, RIGHT) && Has(RIGHT, RIGHT) && !Has(RIGHT, LEFT)
    ensures !Has(8, LEFT) && !Has(8, RIGHT)
    ensures Different(k) ==> NEQ | (k & !0xf) == k
  {
  }

  /** The status test of `next` is the right one. */
  lemma TestOfStep(o: bv32, evs: seq<Event>, s: State, side: Side, e: Entry)
    requires RowsAre(o, evs, s)
    ensures var k := KeyOf(o, e);
      && (k in s.first && Has(s.rows[s.first[k]].status, Bit(Other(side))) <==> Completes(o, evs, side, k))
      && (Completes(o, evs, side, k) ==>
          && s.first[k] == First(o, evs, Other(side), k)
          && s.rows[s.first[k]] == Single(Bit(Other(side)), Other(side), evs[s.first[k]].e))
  {
    Statuses(0);
    hide KeyOf, First, Has;
    var k := KeyOf(o, e);
    if k in s.first {
      assert s.rows[s.first[k]] == RowOf(o, evs, s.first[k]);
    }
  }

  lemma AtMost(o: bv32, evs: seq<Event>, k: Key)
    ensures FirstOf(o, evs, k) <= |evs|
  {
    hide At;
  }

  lemma OnlyRows(o: bv32, evs: seq<Event>, s: State, side: Side, e: Entry)
    requires Closed(s) && RowsAre(o, evs, s)
    ensures RowsAre(o, evs + [Only(side, e)], Step(o, s, Only(side, e)))
  {
    Statuses(0);
    hide KeyOf, First, FirstOf, Has, RowOf;
    var ev := Only(side, e);
    TestOfStep(o, evs, s, side, e);
    NewRow(o, evs, ev);
    forall i | 0 <= i < |evs| ensures Step(o, s, ev).rows[i] == RowOf(o, evs + [ev], i) {
      OldRow(o, evs, ev, i);
    }
    forall k {
      NewFirst(o, evs, ev, k);
    }
    assert KeyOf(o, e) in s.first || FirstOf(o, evs, KeyOf(o, e)) == |evs| by {
      AtMost(o, evs, KeyOf(o, e));
    }
  }

  lemma PairRows(o: bv32, evs: seq<Event>, s: State, k: bv32, l: Entry, r: Entry)
    requires Closed(s) && RowsAre(o, evs, s) && Possible(Both(k, l, r))
    ensures RowsAre(o, evs + [Both(k, l, r)], Step(o, s, Both(k, l, r)))
  {
    Statuses(k);
    hide KeyOf, First, FirstOf, Has, RowOf, Different;
    var ev := Both(k, l, r);
    NewRow(o, evs, ev);
    forall i | 0 <= i < |evs| ensures Step(o, s, ev).rows[i] == RowOf(o, evs + [ev], i) {
      OldRow(o, evs, ev, i);
    }
    forall k {
      NewFirst(o, evs, ev, k);
    }
  }

  lemma StepRows(o: bv32, evs: seq<Event>, s: State, ev: Event)
    requires Closed(s) && RowsAre(o, evs, s) && Possible(ev)
    ensures RowsAre(o, evs + [ev], Step(o, s, ev))
  {
    hide Possible, Step, RowsAre;
    match ev
    case Only(side, e) => OnlyRows(o, evs, s, side, e);
    case Both(k, l, r) => PairRows(o, evs, s, k, l, r);
  }

  /** The table of every comparison has exactly these rows. */
  lemma {:induction false} RowsOfRun(o: bv32, evs: seq<Event>)
    requires AllPossible(evs)
    ensures RowsAre(o, evs, Run(o, evs))
  {
    hide Possible, Step, RowOf;
    if evs != [] {
      var n := |evs| - 1;
      RowsOfRun(o, evs[..n]);
      StepRows(o, evs[..n], Run(o, evs[..n]), evs[n]);
      assert evs[..n] + [evs[n]] == evs;
    }
  }

  /** Two files are of the same key exactly if one may be the other, moved. */
  lemma SameKey(o: bv32, a: Entry, b: Entry)
    ensures KeyOf(o, a) == KeyOf(o, b) <==>
      && a.size == b.size
      && (a.unixAttr & 0x4000 == 0 <==> b.unixAttr & 0x4000 == 0)
      && (o & 0x40 == 0 ==> a.name == b.name)
      && (o & 0x10 == 0 ==> Msec(a.mtime) == Msec(b.mtime))
  {
    hide Msec;
  }

  /** Times are compared in whole milliseconds. */
  lemma WholeMsec(t: Time)
    ensures Msec(t) * 1000000 <= t.sec * 1000000000 + t.nsec < (Msec(t) + 1) * 1000000
  {
  }

  /** The number of files on both sides, with equal or with different data. */
  function Pairs(evs: seq<Event>, same: bool): nat
  {
    if evs == [] then 0
    else
      var ev := evs[|evs| - 1];
      Pairs(evs[..|evs| - 1], same) + if ev.Both? && (ev.k == 0) == same then 1 else 0
  }

  lemma {:induction false} PairsCounted(o: bv32, evs: seq<Event>)
    ensures var s := Run(o, evs).stats;
      s.eq == Pairs(evs, true) && s.neq == Pairs(evs, false)
  {
    hide KeyOf, Has;
    if evs != [] {
      PairsCounted(o, evs[..|evs| - 1]);
    }
  }

  lemma {:induction false} FilesOfEvents(evs: seq<Event>)
    ensures Files(evs, Left) + Files(evs, Right) == |evs| + Pairs(evs, true) + Pairs(evs, false)
  {
    if evs != [] {
      FilesOfEvents(evs[..|evs| - 1]);
    }
  }

  /** All counters, from the events: a file counts as moved if it is the first one of its key on its
      side, and the other side has the key, too. */
  lemma CountersOfRun(o: bv32, evs: seq<Event>)
    requires AllPossible(evs)
    ensures var s, moved := Run(o, evs).stats, |Keys(o, evs, Left) * Keys(o, evs, Right)|;
      && s.moved == moved && s.eq == Pairs(evs, true) && s.neq == Pairs(evs, false)
      && s.left == Files(evs, Left) - Pairs(evs, true) - Pairs(evs, false) - moved
      && s.right == Files(evs, Right) - Pairs(evs, true) - Pairs(evs, false) - moved
      && s.entries == |evs| - moved
  {
    hide Run, Keys, Files, Pairs, Possible, Step;
    PairsCounted(o, evs);
    MovedClosedForm(o, evs);
    CountersConserve(o, evs);
    FilesOfEvents(evs);
  }
}
