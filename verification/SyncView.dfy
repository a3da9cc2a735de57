/** src/fs/sync-cmp.h: which rows `sync_view` shows, and what exchanging the sides does to them. */
module SyncView {
  import opened Bytes
  import opened SyncEntry
  import S = DiffSpec

  /** `fcom_sync_props`, with the case-insensitive substring test of `str_match`. */
  datatype Props = Props(only: seq<seq<byte>>, except: seq<seq<byte>>, since: Time, includeBoth: bool,
                         find: (seq<byte>, seq<byte>) -> bool)

  /** `str_match` */
  predicate StrMatch(p: Props, e: Option<Entry>, m: seq<byte>)
  {
    e.Some? && (p.find(e.value.name, m) || p.find(e.value.path, m))
  }

  predicate Either(p: Props, row: S.Row, m: seq<byte>) { StrMatch(p, row.l, m) || StrMatch(p, row.r, m) }

  predicate Included(p: Props, row: S.Row, m: seq<byte>)
  {
    if p.includeBoth then StrMatch(p, row.l, m) && StrMatch(p, row.r, m) else Either(p, row, m)
  }

  /** The flags ask for rows of this kind. Rows that differ in time alone need one of two more flags. */
  predicate KindWanted(flags: bv32, st: bv32)
  {
    match S.KindOf(st)
    case LeftOnly => Has(flags, LEFT)
    case RightOnly => Has(flags, RIGHT)
    case Differs => Has(flags, NEQ) && (Has(flags, NEWER | OLDER) || Has(st, LARGER | SMALLER | ATTR))
    case Moved => Has(flags, MOVE)
    case Same => Has(flags, EQ)
    case Skipped => false
    case Unknown => true
  }

  predicate Recent(since: Time, e: Option<Entry>) { e.Some? && TimeOrder(e.value.mtime, since) >= 0 }

  function Effective(flags: bv32, st: bv32): bv32 { if Has(flags, SWAP) then StatusSwap(st) else st }

  predicate HasDir(row: S.Row)
  {
    (row.l.Some? && IsDir(row.l.value)) || (row.r.Some? && IsDir(row.r.value))
  }

  /** The filters by date and by name. */
  predicate Passes(p: Props, row: S.Row)
  {
    && (p.since.sec == 0 || Recent(p.since, row.l) || Recent(p.since, row.r))
    && (forall m :: m in p.except ==> !Either(p, row, m))
    && (p.only == [] || exists m :: m in p.only && Included(p, row, m))
  }

  predicate Selected(p: Props, flags: bv32, row: S.Row)
  {
    && KindWanted(flags, Effective(flags, row.status))
    && (Has(row.status, DONE) ==> Has(flags, DONE))
    && (HasDir(row) ==> Has(flags, DIR))
    && Passes(p, row)
  }

  lemma SwapKeepsSkip(st: bv32)
    ensures Has(StatusSwap(st), SKIP) == Has(st, SKIP)
  {
  }

  /** Which rows a set of flags lets through, in the numbers of `enum FCOM_SYNC`. */
  predicate FlagsLet(flags: bv32, st: bv32)
  {
    && st & 0x8000 == 0
    && (st & 0xff == 1 ==> flags & 1 != 0) && (st & 0xff == 2 ==> flags & 2 != 0)
    && (st & 0xff == 4 ==> flags & 4 != 0 && (flags & 0x300 != 0 || st & 0x1c00 != 0))
    && (st & 0xff == 8 ==> flags & 8 != 0) && (st & 0xff == 0x10 ==> flags & 0x10 != 0)
  }

  lemma FlagsOfKinds(flags: bv32, st: bv32)
    ensures KindWanted(flags, st) <==> FlagsLet(flags, st)
  {
  }

  /** What each filter lets through: the flags by status, seen from the side asked for; rows done with,
      and rows with a directory, on demand; a date, the rows with a file that is not older; and of the
      patterns, no exclusion may be found in the name or the path of either file, and one inclusion must
      be, in one of the files or in both. */
  lemma SelectedExactly(p: Props, flags: bv32, row: S.Row)
    ensures Selected(p, flags, row) <==>
      && FlagsLet(flags, if flags & 0x4000 != 0 then StatusSwap(row.status) else row.status)
      && (row.status & 0x40000 != 0 ==> flags & 0x40000 != 0)
      && (flags & 0x2000 == 0 ==> forall e: Entry :: row.l == Some(e) || row.r == Some(e) ==> e.unixAttr & 0x4000 == 0)
      && (p.since.sec != 0 ==>
          exists e: Entry :: (row.l == Some(e) || row.r == Some(e)) && TimeOrder(e.mtime, p.since) >= 0)
      && (forall m, e: Entry :: m in p.except && (row.l == Some(e) || row.r == Some(e)) ==>
            !p.find(e.name, m) && !p.find(e.path, m))
      && (p.only == [] || exists m :: m in p.only && Included(p, row, m))
  {
    FlagsOfKinds(flags, Effective(flags, row.status));
    hide KindWanted, FlagsLet, TimeOrder, Included;
  }

  /** How many of the files an inclusion must be found in. */
  lemma IncludedExactly(p: Props, row: S.Row, m: seq<byte>)
    ensures Included(p, row, m) <==>
      && (p.includeBoth ==> row.l.Some? && row.r.Some?)
      && (forall e: Entry :: p.includeBoth && (row.l == Some(e) || row.r == Some(e)) ==> p.find(e.name, m) || p.find(e.path, m))
      && (p.includeBoth || exists e: Entry :: (row.l == Some(e) || row.r == Some(e)) && (p.find(e.name, m) || p.find(e.path, m)))
  {
  }

  lemma MoreFlagsLetMore(flags: bv32, more: bv32, st: bv32)
    requires flags & more == flags
    ensures FlagsLet(flags, st) ==> FlagsLet(more, st)
    ensures Has(flags, DONE) ==> Has(more, DONE)
    ensures Has(flags, DIR) ==> Has(more, DIR)
  {
  }

  /** More flags show more, as long as the side stays the same. */
  lemma MoreFlagsShowMore(p: Props, flags: bv32, more: bv32, row: S.Row)
    requires flags & more == flags && flags & SWAP == more & SWAP
    ensures Selected(p, flags, row) ==> Selected(p, more, row)
  {
    MoreFlagsLetMore(flags, more, row.status);
    MoreFlagsLetMore(flags, more, StatusSwap(row.status));
    FlagsOfKinds(flags, Effective(flags, row.status));
    FlagsOfKinds(more, Effective(more, row.status));
    hide KindWanted, FlagsLet, StatusSwap, Passes, IsDir;
  }

  /** The filters of `q` are at least as narrow as those of `p`. */
  ghost predicate Narrower(p: Props, q: Props)
  {
    && p.find == q.find && (p.includeBoth ==> q.includeBoth)
    && (forall m :: m in p.except ==> m in q.except)
    && (p.only != [] ==> q.only != [] && forall m :: m in q.only ==> m in p.only)
    && (p.since.sec != 0 ==> q.since.sec != 0 && TimeOrder(p.since, q.since) <= 0)
  }

  lemma SameMatches(p: Props, q: Props)
    requires p.find == q.find
    ensures forall e, m :: StrMatch(q, e, m) == StrMatch(p, e, m)
  {
  }

  /** More exclusions, fewer inclusions or a later date show less. */
  lemma NarrowerShowsLess(p: Props, q: Props, flags: bv32, row: S.Row)
    requires Narrower(p, q)
    ensures Selected(q, flags, row) ==> Selected(p, flags, row)
  {
    hide KindWanted, StatusSwap, StrMatch;
    assert forall m :: Either(q, row, m) == Either(p, row, m) && (Included(q, row, m) ==> Included(p, row, m)) by {
      assert forall e, m :: StrMatch(q, e, m) == StrMatch(p, e, m) by {
        SameMatches(p, q);
      }
    }
  }

  /** The positions of the selected rows. */
  function View(p: Props, flags: bv32, rows: seq<S.Row>): (v: seq<nat>)
    ensures forall i :: i in v ==> i < |rows|
  {
    if rows == [] then []
    else
      var n := |rows| - 1;
      View(p, flags, rows[..n]) + if Selected(p, flags, rows[n]) then [n] else []
  }

  lemma {:induction false} ViewShowsTheSelected(p: Props, flags: bv32, rows: seq<S.Row>)
    ensures forall i :: 0 <= i < |rows| ==> (i in View(p, flags, rows) <==> Selected(p, flags, rows[i]))
    ensures forall a, b :: 0 <= a < b < |View(p, flags, rows)| ==> View(p, flags, rows)[a] < View(p, flags, rows)[b]
  {
    hide Selected;
    if rows != [] {
      var n := |rows| - 1;
      ViewShowsTheSelected(p, flags, rows[..n]);
      var v := View(p, flags, rows[..n]);
      forall a | 0 <= a < |v| ensures v[a] < n {
        assert v[a] in v;
      }
    }
  }

  // Everything

  const EVERYTHING: bv32 := LEFT | RIGHT | NEQ | MOVE | EQ | NEWER | OLDER | DIR

  lemma EverythingIsWanted(st: bv32)
    ensures KindWanted(EVERYTHING, Effective(EVERYTHING, st)) <==> S.KindOf(st) != S.Skipped
    ensures Has(EVERYTHING, DIR)
    ensures Different(st) ==> !Has(st, DONE)
  {
  }

  lemma WantedOfRow(o: bv32, p: Props, row: S.Row, ev: S.Event)
    requires S.RowFor(o, row, ev) && S.Possible(ev) && p.only == [] && p.except == [] && p.since.sec == 0
    ensures Selected(p, EVERYTHING, row) <==> S.KindOf(row.status) != S.Skipped
  {
    hide S.KeyOf;
    EverythingIsWanted(row.status);
  }

  lemma {:induction false} CountOfView(p: Props, rows: seq<S.Row>)
    requires forall i :: 0 <= i < |rows| ==>
      (Selected(p, EVERYTHING, rows[i]) <==> S.KindOf(rows[i].status) != S.Skipped)
    ensures |View(p, EVERYTHING, rows)| == |rows| - S.Count(rows, S.Skipped)
  {
    hide Selected, S.KindOf;
    if rows != [] {
      CountOfView(p, rows[..|rows| - 1]);
    }
  }

  /** With no filter, the view of the table of a comparison has as many rows as the counter of
      entries says. */
  lemma ViewOfEverything(o: bv32, evs: seq<S.Event>, p: Props)
    requires S.AllPossible(evs) && p.only == [] && p.except == [] && p.since.sec == 0
    ensures |View(p, EVERYTHING, S.Run(o, evs).rows)| == S.Run(o, evs).stats.entries
  {
    hide View, S.Run, Selected, S.RowFor, S.Possible;
    S.RunKeepsInv(o, evs);
    var rows := S.Run(o, evs).rows;
    forall i | 0 <= i < |rows| ensures Selected(p, EVERYTHING, rows[i]) <==> S.KindOf(rows[i].status) != S.Skipped {
      assert S.RowFor(o, rows[i], evs[i]) && S.Possible(evs[i]);
      WantedOfRow(o, p, rows[i], evs[i]);
    }
    CountOfView(p, rows);
  }

  // Exchanging the sides

  lemma FlagsBesideSwap(flags: bv32)
    ensures Has(flags | SWAP, SWAP)
    ensures Has(flags | SWAP, LEFT) == Has(flags, LEFT) && Has(flags | SWAP, RIGHT) == Has(flags, RIGHT)
    ensures Has(flags | SWAP, NEQ) == Has(flags, NEQ) && Has(flags | SWAP, MOVE) == Has(flags, MOVE)
    ensures Has(flags | SWAP, EQ) == Has(flags, EQ) && Has(flags | SWAP, DIR) == Has(flags, DIR)
    ensures Has(flags | SWAP, DONE) == Has(flags, DONE)
    ensures Has(flags | SWAP, NEWER | OLDER) == Has(flags, NEWER | OLDER)
  {
  }

  lemma SwapKeepsDone(st: bv32)
    ensures Has(StatusSwap(st), DONE) == Has(st, DONE)
  {
  }

  lemma PassesMirror(p: Props, row: S.Row)
    ensures Passes(p, row) <==> Passes(p, S.MirrorRow(row))
  {
    hide StatusSwap, TimeOrder, StrMatch;
    var mirror := S.MirrorRow(row);
    assert forall m :: Either(p, row, m) == Either(p, mirror, m);
    assert forall m :: Included(p, row, m) == Included(p, mirror, m);
  }

  lemma SelectedMirror(p: Props, flags: bv32, row: S.Row)
    requires !Has(flags, SWAP)
    ensures Selected(p, flags | SWAP, row) <==> Selected(p, flags, S.MirrorRow(row))
  {
    hide Has, StatusSwap, S.KindOf, IsDir, Passes;
    FlagsBesideSwap(flags);
    SwapKeepsDone(row.status);
    PassesMirror(p, row);
  }

  /** Showing the table with its sides exchanged selects the rows that the mirrored table has. */
  lemma {:induction false} ViewMirror(p: Props, flags: bv32, rows: seq<S.Row>)
    requires !Has(flags, SWAP)
    ensures View(p, flags | SWAP, rows) == View(p, flags, S.MirrorRows(rows))
  {
    hide Selected;
    if rows != [] {
      var n := |rows| - 1;
      ViewMirror(p, flags, rows[..n]);
      SelectedMirror(p, flags, rows[n]);
      assert S.MirrorRows(rows)[..n] == S.MirrorRows(rows[..n]);
    }
  }

  /** Hence exchanging the trees before the comparison and exchanging the sides of the view cancel out. */
  lemma SwapAndViewCommute(o: bv32, evs: seq<S.Event>, p: Props, flags: bv32)
    requires S.AllPossible(evs) && !Has(flags, SWAP)
    ensures View(p, flags | SWAP, S.Run(o, evs).rows) == View(p, flags, S.Run(o, S.MirrorAll(evs)).rows)
  {
    hide View, S.Run, S.Possible;
    S.RunMirror(o, evs);
    ViewMirror(p, flags, S.Run(o, evs).rows);
  }

  // Sorting the view

  const SORT_FILESIZE: bv32 := 1
  const SORT_MTIME: bv32 := 2

  /** What `sort_f` compares: the greater size and the later time of the two files. No file counts
      as an empty one from the time 0. */
  function SortSize(row: S.Row): nat
  {
    var size := if row.l.Some? then row.l.value.size else 0;
    if row.r.Some? then Max(size, row.r.value.size) else size
  }

  function SortTime(row: S.Row): Time
  {
    var t := if row.l.Some? then row.l.value.mtime else Time(0, 0);
    if row.r.Some? && TimeOrder(t, row.r.value.mtime) < 0 then row.r.value.mtime else t
  }

  /** `sort_f` */
  function SortOrder(flags: bv32, a: S.Row, b: S.Row): int
  {
    if Has(flags, SORT_FILESIZE) then
      if SortSize(a) > SortSize(b) then -1 else if SortSize(a) < SortSize(b) then 1 else 0
    else if Has(flags, SORT_MTIME) then
      if TimeOrder(SortTime(a), SortTime(b)) > 0 then -1 else if TimeOrder(SortTime(a), SortTime(b)) < 0 then 1 else 0
    else 0
  }

  /** The greatest size and the latest time of the files of a row, where a file that is on the right
      alone counts as from the time 0 if it is older. */
  lemma SortKeysExactly(row: S.Row, e: Entry)
    ensures row.l == Some(e) || row.r == Some(e) ==> e.size <= SortSize(row) && TimeOrder(e.mtime, SortTime(row)) <= 0
    ensures SortSize(row) == 0 || (row.l.Some? && SortSize(row) == row.l.value.size)
         || (row.r.Some? && SortSize(row) == row.r.value.size)
    ensures (row.l.None? && SortTime(row) == Time(0, 0)) || (row.l.Some? && SortTime(row) == row.l.value.mtime)
         || (row.r.Some? && SortTime(row) == row.r.value.mtime)
    ensures row.l.None? ==> TimeOrder(SortTime(row), Time(0, 0)) >= 0
  {
  }

  /** Sorting puts the greatest size, or else the latest time, first. */
  lemma SortOrderDescends(flags: bv32, a: S.Row, b: S.Row)
    ensures flags & 1 != 0 ==>
      (SortOrder(flags, a, b) < 0 <==> SortSize(a) > SortSize(b)) && (SortOrder(flags, a, b) == 0 <==> SortSize(a) == SortSize(b))
    ensures flags & 1 == 0 && flags & 2 != 0 ==>
      (SortOrder(flags, a, b) < 0 <==> TimeOrder(SortTime(a), SortTime(b)) > 0) && (SortOrder(flags, a, b) == 0 <==> SortTime(a) == SortTime(b))
    ensures flags & 3 == 0 ==> SortOrder(flags, a, b) == 0
  {
    hide SortSize, SortTime;
  }

  /** The comparison function is one that sorting may rely on: exchanging the rows negates it, and
      it is transitive. */
  lemma SortOrderIsTotal(flags: bv32, a: S.Row, b: S.Row, c: S.Row)
    ensures SortOrder(flags, b, a) == -SortOrder(flags, a, b)
    ensures SortOrder(flags, a, b) <= 0 && SortOrder(flags, b, c) <= 0 ==> SortOrder(flags, a, c) <= 0
  {
    hide Has, SortSize, SortTime;
  }

  function OnlyTime(row: S.Row): Time
  {
    if row.l.Some? then row.l.value.mtime else if row.r.Some? then row.r.value.mtime else Time(0, 0)
  }

  /** A row with one file alone, from before the time 0: its time is that of the file if it is on the
      left, and 0 if it is on the right. */
  predicate Early(row: S.Row)
  {
    row.l.Some? != row.r.Some? && TimeOrder(OnlyTime(row), Time(0, 0)) < 0
  }

  /** Whether the times of two rows compare alike from either side. An early row lies at its own time
      from one side and at 0 from the other, so the other row must lie on the same side of both; two
      early rows must be on the same side, where from the other side both are at 0. */
  predicate TimesAgree(a: S.Row, b: S.Row)
  {
    if Early(a) && Early(b) then a.l.Some? == b.l.Some? && OnlyTime(a) == OnlyTime(b)
    else if Early(a) then TimeOrder(SortTime(b), OnlyTime(a)) < 0 || TimeOrder(SortTime(b), Time(0, 0)) > 0
    else if Early(b) then TimeOrder(SortTime(a), OnlyTime(b)) < 0 || TimeOrder(SortTime(a), Time(0, 0)) > 0
    else true
  }

  lemma SortSizeMirror(a: S.Row)
    ensures SortSize(S.MirrorRow(a)) == SortSize(a)
  {
  }

  lemma SortTimeMirror(a: S.Row)
    ensures if Early(a)
            then SortTime(a) == (if a.l.Some? then OnlyTime(a) else Time(0, 0))
              && SortTime(S.MirrorRow(a)) == (if a.l.Some? then Time(0, 0) else OnlyTime(a))
            else SortTime(S.MirrorRow(a)) == SortTime(a)
  {
  }

  /** Two rows sort alike from either side exactly if the order is by size, or there is none, or their
      times agree in this sense. */
  lemma SortOrderMirror(flags: bv32, a: S.Row, b: S.Row)
    ensures SortOrder(flags, S.MirrorRow(a), S.MirrorRow(b)) == SortOrder(flags, a, b)
       <==> Has(flags, SORT_FILESIZE) || !Has(flags, SORT_MTIME) || TimesAgree(a, b)
  {
    hide Has, SortSize, SortTime, StatusSwap;
    SortSizeMirror(a);
    SortSizeMirror(b);
    SortTimeMirror(a);
    SortTimeMirror(b);
  }
}
