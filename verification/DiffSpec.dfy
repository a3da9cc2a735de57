/** src/fs/sync-cmp.h: the table that comparing two directory trees builds, as a function of the
    comparison events, and what it says about the files of the two trees. */
module DiffSpec {
  import opened Bytes
  import opened SyncEntry

  // Moved files

  /** What two files must share for one to be the other, moved. */
  datatype Key = Key(size: nat, dir: bool, name: Option<seq<byte>>, msec: Option<int>)

  /** `fftime_to_msec` */
  function Msec(t: Time): int { t.sec * 1000 + t.nsec / 1000000 }

  function KeyOf(o: bv32, e: Entry): Key
  {
    Key(e.size, IsDir(e), if Has(o, MOVE_NO_NAME) then None else Some(e.name),
        if Has(o, NO_TIME) then None else Some(Msec(e.mtime)))
  }

  // Events and rows

  datatype Side = Left | Right

  function Other(s: Side): Side { if s.Left? then Right else Left }

  function Bit(s: Side): bv32 { if s.Left? then LEFT else RIGHT }

  /** A file on one side only, or a file on both sides with the result of comparing the two. */
  datatype Event = Only(side: Side, e: Entry) | Both(k: bv32, l: Entry, r: Entry)

  predicate Possible(ev: Event)
  {
    ev.Both? ==> ev.k == CMP_EQ || Different(ev.k)
  }

  /** `fntree_cmp_ent` */
  datatype Row = Row(status: bv32, l: Option<Entry>, r: Option<Entry>)

  function Single(st: bv32, s: Side, e: Entry): Row
  {
    if s.Left? then Row(st, Some(e), None) else Row(st, None, Some(e))
  }

  function Join(row: Row, st: bv32, s: Side, e: Entry): Row
  {
    if s.Left? then Row(st, Some(e), row.r) else Row(st, row.l, Some(e))
  }

  datatype Stats = Stats(eq: int, left: int, right: int, neq: int, moved: int, entries: int)

  /** The rows, and for every key the first row of an unmatched file with this key. */
  datatype State = State(rows: seq<Row>, first: map<Key, nat>, stats: Stats)

  const START := State([], map[], Stats(0, 0, 0, 0, 0, 0))

  ghost predicate Closed(s: State)
  {
    forall k :: k in s.first ==> s.first[k] < |s.rows|
  }

  /** The file is the other one of the row `j`, moved. */
  function Match(s: State, side: Side, e: Entry, j: nat): State
    requires j < |s.rows|
  {
    var st := (s.rows[j].status & !Bit(Other(side))) | MOVE;
    s.(rows := s.rows[j := Join(s.rows[j], st, side, e)] + [Single(MOVE | SKIP, side, e)],
       stats := if side.Left? then s.stats.(moved := s.stats.moved + 1, right := s.stats.right - 1)
                else s.stats.(moved := s.stats.moved + 1, left := s.stats.left - 1))
  }

  /** The file is on one side only, so far. */
  function Plain(s: State, side: Side, e: Entry, k: Key): State
  {
    State(s.rows + [Single(Bit(side), side, e)],
          if k in s.first then s.first else s.first[k := |s.rows|],
          (if side.Left? then s.stats.(left := s.stats.left + 1)
           else s.stats.(right := s.stats.right + 1)).(entries := s.stats.entries + 1))
  }

  function Pair(s: State, k: bv32, l: Entry, r: Entry): State
  {
    if k == CMP_EQ then
      s.(rows := s.rows + [Row(EQ, Some(l), Some(r))],
         stats := s.stats.(eq := s.stats.eq + 1, entries := s.stats.entries + 1))
    else
      s.(rows := s.rows + [Row(NEQ | (k & !0xf), Some(l), Some(r))],
         stats := s.stats.(neq := s.stats.neq + 1, entries := s.stats.entries + 1))
  }

  function Step(o: bv32, s: State, ev: Event): (t: State)
    requires Closed(s)
    ensures Closed(t) && |t.rows| == |s.rows| + 1
  {
    match ev
    case Only(side, e) =>
      var k := KeyOf(o, e);
      if k in s.first && Has(s.rows[s.first[k]].status, Bit(Other(side))) then Match(s, side, e, s.first[k])
      else Plain(s, side, e, k)
    case Both(k, l, r) => Pair(s, k, l, r)
  }

  function Run(o: bv32, evs: seq<Event>): (s: State)
    ensures Closed(s) && |s.rows| == |evs|
  {
    if evs == [] then START else Step(o, Run(o, evs[..|evs| - 1]), evs[|evs| - 1])
  }

  // What the events say

  /** The keys of the files that are on one side only. */
  function Keys(o: bv32, evs: seq<Event>, side: Side): set<Key>
  {
    set i | 0 <= i < |evs| && evs[i].Only? && evs[i].side == side :: KeyOf(o, evs[i].e)
  }

  /** The number of files of one side. */
  function Files(evs: seq<Event>, side: Side): nat
  {
    if evs == [] then 0
    else Files(evs[..|evs| - 1], side) + if evs[|evs| - 1].Both? || evs[|evs| - 1].side == side then 1 else 0
  }

  /** What a row is, as `sync_view` tells it. */
  datatype Kind = LeftOnly | RightOnly | Differs | Moved | Same | Skipped | Unknown

  function KindOf(st: bv32): Kind
  {
    if Has(st, SKIP) then Skipped
    else if st & MASK == LEFT then LeftOnly
    else if st & MASK == RIGHT then RightOnly
    else if st & MASK == NEQ then Differs
    else if st & MASK == MOVE then Moved
    else if st & MASK == EQ then Same
    else Unknown
  }

  function Count(rows: seq<Row>, kind: Kind): nat
  {
    if rows == [] then 0
    else Count(rows[..|rows| - 1], kind) + if KindOf(rows[|rows| - 1].status) == kind then 1 else 0
  }

  lemma CountSnoc(rows: seq<Row>, row: Row, kind: Kind)
    ensures Count(rows + [row], kind) == Count(rows, kind) + if KindOf(row.status) == kind then 1 else 0
  {
    assert (rows + [row])[..|rows|] == rows;
  }

  lemma {:induction false} CountUpdate(rows: seq<Row>, j: nat, row: Row, kind: Kind)
    requires j < |rows|
    ensures Count(rows[j := row], kind)
         == Count(rows, kind) - (if KindOf(rows[j].status) == kind then 1 else 0)
            + if KindOf(row.status) == kind then 1 else 0
  {
    var n := |rows| - 1;
    if j == n {
      assert rows[j := row][..n] == rows[..n];
    } else {
      CountUpdate(rows[..n], j, row, kind);
      assert rows[j := row][..n] == rows[..n][j := row];
    }
  }

  lemma KindsOfStatuses(k: bv32)
    ensures KindOf(LEFT) == LeftOnly && KindOf(RIGHT) == RightOnly && KindOf(MOVE) == Moved
    ensures KindOf(EQ) == Same && KindOf(MOVE | SKIP) == Skipped
    ensures (LEFT & !LEFT) | MOVE == MOVE && (RIGHT & !RIGHT) | MOVE == MOVE
    ensures Has(LEFT, LEFT) && !Has(LEFT, RIGHT) && Has(RIGHT, RIGHT) && !Has(RIGHT, LEFT)
    ensures !Has(MOVE, LEFT) && !Has(MOVE, RIGHT)
    ensures Different(k) ==> NEQ | (k & !0xf) == k && KindOf(k) == Differs
  {
  }

  lemma KeysSnoc(o: bv32, evs: seq<Event>, ev: Event, side: Side)
    ensures Keys(o, evs + [ev], side)
         == Keys(o, evs, side) + if ev.Only? && ev.side == side then {KeyOf(o, ev.e)} else {}
  {
    var all := evs + [ev];
    assert forall i :: 0 <= i < |evs| ==> all[i] == evs[i];
    assert all[|evs|] == ev;
    forall k | k in Keys(o, evs, side) ensures k in Keys(o, all, side) {
      var i :| 0 <= i < |evs| && evs[i].Only? && evs[i].side == side && KeyOf(o, evs[i].e) == k;
      assert all[i] == evs[i];
    }
  }

  // The invariant

  function File(row: Row, side: Side): Option<Entry> { if side.Left? then row.l else row.r }

  /** The row of an event: it shows the files of the event, and at most one more with the same key. */
  ghost predicate RowFor(o: bv32, row: Row, ev: Event)
  {
    match ev
    case Both(k, l, r) => row == Row(if k == CMP_EQ then EQ else k, Some(l), Some(r))
    case Only(side, e) =>
      && File(row, side) == Some(e)
      && var other := File(row, Other(side));
      if row.status == MOVE then other.Some? && KeyOf(o, other.value) == KeyOf(o, e)
      else (row.status == Bit(side) || row.status == MOVE | SKIP) && other.None?
  }

  ghost predicate RowsFor(o: bv32, evs: seq<Event>, rows: seq<Row>)
  {
    && |rows| == |evs|
    && forall i :: 0 <= i < |rows| ==> RowFor(o, rows[i], evs[i])
  }

  /** The status of the first row with a key says on which sides the key has been seen. */
  ghost predicate FirstRow(o: bv32, evs: seq<Event>, s: State, k: Key)
    requires k in s.first
  {
    var j := s.first[k];
    && j < |evs| && j < |s.rows| && evs[j].Only? && KeyOf(o, evs[j].e) == k
    && s.rows[j].status == if k !in Keys(o, evs, Right) then LEFT else if k !in Keys(o, evs, Left) then RIGHT else MOVE
  }

  ghost predicate FirstRows(o: bv32, evs: seq<Event>, s: State)
  {
    && s.first.Keys == Keys(o, evs, Left) + Keys(o, evs, Right)
    && forall k :: k in s.first ==> FirstRow(o, evs, s, k)
  }

  /** The counters count the rows. */
  ghost predicate Tallies(s: State)
  {
    && s.stats.left == Count(s.rows, LeftOnly) && s.stats.right == Count(s.rows, RightOnly)
    && s.stats.eq == Count(s.rows, Same) && s.stats.neq == Count(s.rows, Differs)
    && s.stats.moved == Count(s.rows, Moved)
    && s.stats.entries == |s.rows| - Count(s.rows, Skipped)
    && s.stats.left + s.stats.right + s.stats.moved + s.stats.eq + s.stats.neq == s.stats.entries
  }

  /** Every file is counted once. */
  ghost predicate FilesCounted(o: bv32, evs: seq<Event>, s: State)
  {
    && s.stats.left + s.stats.moved + s.stats.eq + s.stats.neq == Files(evs, Left)
    && s.stats.right + s.stats.moved + s.stats.eq + s.stats.neq == Files(evs, Right)
    && s.stats.moved == |Keys(o, evs, Left) * Keys(o, evs, Right)|
  }

  ghost predicate Inv(o: bv32, evs: seq<Event>, s: State)
  {
    && |s.rows| == |evs|
    && RowsFor(o, evs, s.rows) && FirstRows(o, evs, s) && Tallies(s) && FilesCounted(o, evs, s)
  }

  /** A file is a moved one exactly if its key has been seen on the other side and not on its own. */
  predicate Moves(o: bv32, evs: seq<Event>, side: Side, e: Entry)
  {
    KeyOf(o, e) in Keys(o, evs, Other(side)) && KeyOf(o, e) !in Keys(o, evs, side)
  }

  lemma MovesIsTheTest(o: bv32, evs: seq<Event>, s: State, side: Side, e: Entry)
    requires Closed(s) && Inv(o, evs, s)
    ensures Step(o, s, Only(side, e)) == if Moves(o, evs, side, e) then Match(s, side, e, s.first[KeyOf(o, e)])
                                         else Plain(s, side, e, KeyOf(o, e))
    ensures Moves(o, evs, side, e) ==>
      && KeyOf(o, e) in s.first
      && var j := s.first[KeyOf(o, e)];
      && FirstRow(o, evs, s, KeyOf(o, e)) && s.rows[j].status == Bit(Other(side))
      && evs[j].side == Other(side)
  {
    KindsOfStatuses(0);
    hide Has, Match, Plain, Tallies, FilesCounted, Keys, KeyOf;
    var k := KeyOf(o, e);
    if k in s.first {
      assert FirstRow(o, evs, s, k);
      assert RowFor(o, s.rows[s.first[k]], evs[s.first[k]]);
    }
  }

  lemma MatchKeepsRows(o: bv32, evs: seq<Event>, s: State, side: Side, e: Entry, j: nat)
    requires RowsFor(o, evs, s.rows) && j < |evs| && s.rows[j].status == Bit(Other(side))
    requires evs[j].Only? && evs[j].side == Other(side) && KeyOf(o, evs[j].e) == KeyOf(o, e)
    ensures var t := Match(s, side, e, j);
      && RowsFor(o, evs + [Only(side, e)], t.rows) && t.rows[j].status == MOVE
  {
    KindsOfStatuses(0);
    hide KeyOf, Has;
    assert RowFor(o, s.rows[j], evs[j]);
  }

  lemma PlainKeepsRows(o: bv32, evs: seq<Event>, s: State, side: Side, e: Entry, k: Key)
    requires RowsFor(o, evs, s.rows)
    ensures RowsFor(o, evs + [Only(side, e)], Plain(s, side, e, k).rows)
  {
    hide KeyOf;
  }

  lemma PairKeepsRows(o: bv32, evs: seq<Event>, s: State, k: bv32, l: Entry, r: Entry)
    requires RowsFor(o, evs, s.rows) && Possible(Both(k, l, r))
    ensures RowsFor(o, evs + [Both(k, l, r)], Pair(s, k, l, r).rows)
  {
    KindsOfStatuses(k);
    hide KeyOf, Different;
  }

  lemma MatchKeepsTallies(s: State, side: Side, e: Entry, j: nat)
    requires Tallies(s) && j < |s.rows| && s.rows[j].status == Bit(Other(side))
    ensures Tallies(Match(s, side, e, j))
  {
    KindsOfStatuses(0);
    var t := Match(s, side, e, j);
    var row, last := t.rows[j], t.rows[|s.rows|];
    forall kind: Kind
      ensures Count(t.rows, kind) == Count(s.rows, kind)
        - (if KindOf(Bit(Other(side))) == kind then 1 else 0)
        + (if kind == Moved then 1 else 0) + (if kind == Skipped then 1 else 0)
    {
      CountUpdate(s.rows, j, row, kind);
      CountSnoc(s.rows[j := row], last, kind);
    }
    hide KindOf, Count;
  }

  lemma PlainKeepsTallies(s: State, side: Side, e: Entry, k: Key)
    requires Tallies(s)
    ensures Tallies(Plain(s, side, e, k))
  {
    KindsOfStatuses(0);
    forall kind: Kind {
      CountSnoc(s.rows, Single(Bit(side), side, e), kind);
    }
    hide KindOf, Count;
  }

  lemma PairKeepsTallies(s: State, k: bv32, l: Entry, r: Entry)
    requires Tallies(s) && Possible(Both(k, l, r))
    ensures Tallies(Pair(s, k, l, r))
  {
    KindsOfStatuses(k);
    var t := Pair(s, k, l, r);
    forall kind: Kind {
      CountSnoc(s.rows, t.rows[|s.rows|], kind);
    }
    hide KindOf, Count, Different;
  }

  /** What an event adds to the keys. */
  lemma KeysStep(o: bv32, evs: seq<Event>, side: Side, e: Entry)
    ensures var all := evs + [Only(side, e)];
      && Keys(o, all, side) == Keys(o, evs, side) + {KeyOf(o, e)}
      && Keys(o, all, Other(side)) == Keys(o, evs, Other(side))
  {
    hide Keys, KeyOf;
    KeysSnoc(o, evs, Only(side, e), side);
    KeysSnoc(o, evs, Only(side, e), Other(side));
  }

  lemma KeysPair(o: bv32, evs: seq<Event>, k: bv32, l: Entry, r: Entry, side: Side)
    ensures Keys(o, evs + [Both(k, l, r)], side) == Keys(o, evs, side)
  {
    KeysSnoc(o, evs, Both(k, l, r), side);
  }

  lemma MatchKeepsFirst(o: bv32, evs: seq<Event>, s: State, side: Side, e: Entry)
    requires FirstRows(o, evs, s) && Moves(o, evs, side, e)
    requires var j := s.first[KeyOf(o, e)];
      j < |s.rows| == |evs| && s.rows[j].status == Bit(Other(side))
    ensures FirstRows(o, evs + [Only(side, e)], Match(s, side, e, s.first[KeyOf(o, e)]))
  {
    KindsOfStatuses(0);
    KeysStep(o, evs, side, e);
    hide Keys, KeyOf, Has;
    var k := KeyOf(o, e);
    var all, t := evs + [Only(side, e)], Match(s, side, e, s.first[k]);
    assert Keys(o, evs, side) == Keys(o, evs, if side.Left? then Left else Right);
    assert FirstRow(o, evs, s, k);
    forall k' | k' in s.first ensures FirstRow(o, all, t, k') {
      assert FirstRow(o, evs, s, k');
    }
  }

  lemma PlainKeepsFirst(o: bv32, evs: seq<Event>, s: State, side: Side, e: Entry)
    requires FirstRows(o, evs, s) && !Moves(o, evs, side, e) && |s.rows| == |evs|
    ensures FirstRows(o, evs + [Only(side, e)], Plain(s, side, e, KeyOf(o, e)))
  {
    KeysStep(o, evs, side, e);
    hide Keys, KeyOf;
    var k := KeyOf(o, e);
    var all, t := evs + [Only(side, e)], Plain(s, side, e, k);
    forall k' | k' in t.first ensures FirstRow(o, all, t, k') {
      assert k' in s.first ==> FirstRow(o, evs, s, k');
    }
  }

  lemma PairKeepsFirst(o: bv32, evs: seq<Event>, s: State, k: bv32, l: Entry, r: Entry)
    requires FirstRows(o, evs, s) && |s.rows| == |evs|
    ensures FirstRows(o, evs + [Both(k, l, r)], Pair(s, k, l, r))
  {
    KeysPair(o, evs, k, l, r, Left);
    KeysPair(o, evs, k, l, r, Right);
    hide Keys, KeyOf;
    forall k' | k' in s.first ensures FirstRow(o, evs + [Both(k, l, r)], Pair(s, k, l, r), k') {
      assert FirstRow(o, evs, s, k');
    }
  }

  lemma FilesSnoc(evs: seq<Event>, ev: Event, side: Side)
    ensures Files(evs + [ev], side) == Files(evs, side) + if ev.Both? || ev.side == side then 1 else 0
  {
    assert (evs + [ev])[..|evs|] == evs;
  }

  lemma SharedKeys(own: set<Key>, other: set<Key>, k: Key)
    ensures var n := if k in other && k !in own then 1 else 0;
      |(own + {k}) * other| == |own * other| + n && |other * (own + {k})| == |own * other| + n
  {
    assert other * (own + {k}) == (own + {k}) * other;
    if k in other && k !in own {
      assert (own + {k}) * other == own * other + {k};
    } else {
      assert (own + {k}) * other == own * other;
    }
  }

  lemma OnlyKeepsFiles(o: bv32, evs: seq<Event>, s: State, side: Side, e: Entry)
    requires Closed(s) && Inv(o, evs, s)
    ensures FilesCounted(o, evs + [Only(side, e)], Step(o, s, Only(side, e)))
  {
    hide Files, Keys, KeyOf, Step, RowsFor, FirstRows, Tallies, Join, Single;
    var ev := Only(side, e);
    FilesSnoc(evs, ev, Left);
    FilesSnoc(evs, ev, Right);
    MovesIsTheTest(o, evs, s, side, e);
    KeysStep(o, evs, side, e);
    var own, other := Keys(o, evs, side), Keys(o, evs, Other(side));
    SharedKeys(own, other, KeyOf(o, e));
    assert own * other == other * own;
  }

  lemma PairKeepsFiles(o: bv32, evs: seq<Event>, s: State, k: bv32, l: Entry, r: Entry)
    requires FilesCounted(o, evs, s)
    ensures FilesCounted(o, evs + [Both(k, l, r)], Pair(s, k, l, r))
  {
    hide Files, Keys;
    FilesSnoc(evs, Both(k, l, r), Left);
    FilesSnoc(evs, Both(k, l, r), Right);
    KeysPair(o, evs, k, l, r, Left);
    KeysPair(o, evs, k, l, r, Right);
  }

  lemma StepKeepsInv(o: bv32, evs: seq<Event>, s: State, ev: Event)
    requires Closed(s) && Inv(o, evs, s) && Possible(ev)
    ensures Inv(o, evs + [ev], Step(o, s, ev))
  {
    hide RowsFor, FirstRows, Tallies, FilesCounted, Match, Plain, Pair, Moves, Keys, KeyOf;
    match ev
    case Only(side, e) =>
      OnlyKeepsFiles(o, evs, s, side, e);
      MovesIsTheTest(o, evs, s, side, e);
      if Moves(o, evs, side, e) {
        MatchKeepsRows(o, evs, s, side, e, s.first[KeyOf(o, e)]);
        MatchKeepsTallies(s, side, e, s.first[KeyOf(o, e)]);
        MatchKeepsFirst(o, evs, s, side, e);
      } else {
        PlainKeepsRows(o, evs, s, side, e, KeyOf(o, e));
        PlainKeepsTallies(s, side, e, KeyOf(o, e));
        PlainKeepsFirst(o, evs, s, side, e);
      }
    case Both(k, l, r) =>
      PairKeepsRows(o, evs, s, k, l, r);
      PairKeepsTallies(s, k, l, r);
      PairKeepsFirst(o, evs, s, k, l, r);
      PairKeepsFiles(o, evs, s, k, l, r);
  }

  ghost predicate AllPossible(evs: seq<Event>)
  {
    forall i :: 0 <= i < |evs| ==> Possible(evs[i])
  }

  lemma InvAtStart(o: bv32)
    ensures Inv(o, [], START)
  {
  }

  lemma {:induction false} RunKeepsInv(o: bv32, evs: seq<Event>)
    requires AllPossible(evs)
    ensures Inv(o, evs, Run(o, evs))
  {
    hide Inv, Step, Possible;
    if evs == [] {
      InvAtStart(o);
    } else {
      var n := |evs| - 1;
      RunKeepsInv(o, evs[..n]);
      StepKeepsInv(o, evs[..n], Run(o, evs[..n]), evs[n]);
      assert evs[..n] + [evs[n]] == evs;
    }
  }

  // Main results

  /** The number of moved files does not depend on the order of the events: it is the number of keys
      that files on the left only and files on the right only have in common. */
  lemma MovedClosedForm(o: bv32, evs: seq<Event>)
    requires AllPossible(evs)
    ensures Run(o, evs).stats.moved == |Keys(o, evs, Left) * Keys(o, evs, Right)|
  {
    hide Run, Keys, Possible;
    RunKeepsInv(o, evs);
  }

  lemma SameElements(a: seq<Event>, b: seq<Event>)
    requires multiset(a) == multiset(b)
    ensures forall x :: x in a ==> x in b
  {
    forall x | x in a ensures x in b {
      assert x in multiset(a);
    }
  }

  lemma KeysOfSubset(o: bv32, a: seq<Event>, b: seq<Event>, side: Side)
    requires forall x :: x in a ==> x in b
    ensures Keys(o, a, side) <= Keys(o, b, side)
  {
    forall k | k in Keys(o, a, side) ensures k in Keys(o, b, side) {
      var i :| 0 <= i < |a| && a[i].Only? && a[i].side == side && KeyOf(o, a[i].e) == k;
      assert a[i] in b;
      var j :| 0 <= j < |b| && b[j] == a[i];
    }
  }

  lemma MovedIgnoresOrder(o: bv32, evs: seq<Event>, evs': seq<Event>)
    requires AllPossible(evs) && multiset(evs) == multiset(evs')
    ensures AllPossible(evs') && Run(o, evs).stats.moved == Run(o, evs').stats.moved
  {
    hide Run, Possible, KeyOf, Keys;
    SameElements(evs, evs');
    SameElements(evs', evs);
    forall i | 0 <= i < |evs'| ensures Possible(evs'[i]) {
      assert evs'[i] in evs;
    }
    MovedClosedForm(o, evs);
    MovedClosedForm(o, evs');
    KeysOfSubset(o, evs, evs', Left);
    KeysOfSubset(o, evs', evs, Left);
    KeysOfSubset(o, evs, evs', Right);
    KeysOfSubset(o, evs', evs, Right);
    assert Keys(o, evs, Left) == Keys(o, evs', Left) && Keys(o, evs, Right) == Keys(o, evs', Right);
  }

  /** The counters add up, they count the rows that are not skipped, and they count each file of
      either side once. None of them is negative. */
  lemma CountersConserve(o: bv32, evs: seq<Event>)
    requires AllPossible(evs)
    ensures var s := Run(o, evs);
      && s.stats.left + s.stats.right + s.stats.moved + s.stats.eq + s.stats.neq == s.stats.entries
      && s.stats.entries == |s.rows| - Count(s.rows, Skipped)
      && s.stats.left + s.stats.moved + s.stats.eq + s.stats.neq == Files(evs, Left)
      && s.stats.right + s.stats.moved + s.stats.eq + s.stats.neq == Files(evs, Right)
      && s.stats.left >= 0 && s.stats.right >= 0 && s.stats.moved >= 0 && s.stats.eq >= 0 && s.stats.neq >= 0
  {
    hide Run, Keys, Files, Count, Possible;
    RunKeepsInv(o, evs);
  }

  lemma OppositesOfStatuses(k: bv32)
    ensures NoOpposites(LEFT) && NoOpposites(RIGHT) && NoOpposites(MOVE) && NoOpposites(EQ) && NoOpposites(MOVE | SKIP)
    ensures Different(k) ==> NoOpposites(k)
  {
  }

  lemma StatusOfRow(o: bv32, row: Row, ev: Event)
    requires RowFor(o, row, ev) && Possible(ev)
    ensures KindOf(row.status) != Unknown && StatusSwap(StatusSwap(row.status)) == row.status
  {
    hide KindOf, NoOpposites, StatusSwap, KeyOf, Different;
    KindsOfStatuses(row.status);
    OppositesOfStatuses(row.status);
    SwapIsInvolutionExactly(row.status);
  }

  /** Every row shows the files of its event, and has one of six kinds of status; swapping the sides
      twice gives the status back. */
  lemma ReachableStatus(o: bv32, evs: seq<Event>, i: nat)
    requires AllPossible(evs) && i < |evs|
    ensures var row := Run(o, evs).rows[i];
      && RowFor(o, row, evs[i]) && KindOf(row.status) != Unknown
      && StatusSwap(StatusSwap(row.status)) == row.status
  {
    hide Run, RowFor, Possible, FirstRows, Tallies, FilesCounted, KindOf, StatusSwap;
    RunKeepsInv(o, evs);
    StatusOfRow(o, Run(o, evs).rows[i], evs[i]);
  }

  // Exchanging the two trees

  function MirrorEvent(ev: Event): Event
  {
    match ev
    case Only(side, e) => Only(Other(side), e)
    case Both(k, l, r) => Both(StatusSwap(k), r, l)
  }

  function MirrorAll(evs: seq<Event>): (m: seq<Event>)
    ensures |m| == |evs| && forall i :: 0 <= i < |m| ==> m[i] == MirrorEvent(evs[i])
  {
    if evs == [] then [] else MirrorAll(evs[..|evs| - 1]) + [MirrorEvent(evs[|evs| - 1])]
  }

  function MirrorRow(row: Row): Row { Row(StatusSwap(row.status), row.r, row.l) }

  function MirrorRows(rows: seq<Row>): (m: seq<Row>)
    ensures |m| == |rows| && forall i :: 0 <= i < |m| ==> m[i] == MirrorRow(rows[i])
  {
    if rows == [] then [] else MirrorRows(rows[..|rows| - 1]) + [MirrorRow(rows[|rows| - 1])]
  }

  function MirrorState(s: State): State
  {
    State(MirrorRows(s.rows), s.first, s.stats.(left := s.stats.right, right := s.stats.left))
  }

  lemma MirrorOfStatuses(k: bv32)
    ensures StatusSwap(LEFT) == RIGHT && StatusSwap(RIGHT) == LEFT && StatusSwap(MOVE) == MOVE
    ensures StatusSwap(EQ) == EQ && StatusSwap(MOVE | SKIP) == MOVE | SKIP && StatusSwap(CMP_EQ) == CMP_EQ
    ensures Different(k) ==> StatusSwap(k) != CMP_EQ && StatusSwap(k) == NEQ | (StatusSwap(k) & !0xf)
  {
  }

  lemma MatchMirror(s: State, side: Side, e: Entry, j: nat)
    requires j < |s.rows| && s.rows[j].status == Bit(Other(side))
    ensures Match(MirrorState(s), Other(side), e, j) == MirrorState(Match(s, side, e, j))
  {
    KindsOfStatuses(0);
    MirrorOfStatuses(0);
    hide StatusSwap;
    var a, b := Match(MirrorState(s), Other(side), e, j), MirrorState(Match(s, side, e, j));
    assert a.rows == b.rows;
  }

  lemma PlainMirror(s: State, side: Side, e: Entry, k: Key)
    ensures Plain(MirrorState(s), Other(side), e, k) == MirrorState(Plain(s, side, e, k))
  {
    MirrorOfStatuses(0);
    hide StatusSwap;
    assert Plain(MirrorState(s), Other(side), e, k).rows == MirrorState(Plain(s, side, e, k)).rows;
  }

  lemma PairMirror(s: State, k: bv32, l: Entry, r: Entry)
    requires Possible(Both(k, l, r))
    ensures Pair(MirrorState(s), StatusSwap(k), r, l) == MirrorState(Pair(s, k, l, r))
  {
    KindsOfStatuses(k);
    MirrorOfStatuses(k);
    hide StatusSwap, Different;
    assert Pair(MirrorState(s), StatusSwap(k), r, l).rows == MirrorState(Pair(s, k, l, r)).rows;
  }

  lemma StepMirror(o: bv32, evs: seq<Event>, s: State, ev: Event)
    requires Closed(s) && Inv(o, evs, s) && Possible(ev)
    ensures Closed(MirrorState(s)) && Step(o, MirrorState(s), MirrorEvent(ev)) == MirrorState(Step(o, s, ev))
  {
    match ev
    case Only(side, e) =>
      MovesIsTheTest(o, evs, s, side, e);
      PlainMirror(s, side, e, KeyOf(o, e));
      if Moves(o, evs, side, e) {
        MatchMirror(s, side, e, s.first[KeyOf(o, e)]);
      }
    case Both(k, l, r) =>
      PairMirror(s, k, l, r);
  }

  /** Comparing the trees with their sides exchanged gives the same table and counters, exchanged. */
  lemma {:induction false} RunMirror(o: bv32, evs: seq<Event>)
    requires AllPossible(evs)
    ensures Run(o, MirrorAll(evs)) == MirrorState(Run(o, evs))
  {
    hide Inv, Step, Possible, MirrorEvent, StatusSwap;
    if evs != [] {
      var n := |evs| - 1;
      RunMirror(o, evs[..n]);
      RunKeepsInv(o, evs[..n]);
      StepMirror(o, evs[..n], Run(o, evs[..n]), evs[n]);
      assert MirrorAll(evs)[..n] == MirrorAll(evs[..n]);
    }
  }
}
