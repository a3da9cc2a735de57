/** src/fs/sync-cmp.h: finding duplicate files among the files of one tree, sorted by size. */
module Dups {
  import opened Bytes
  import opened SyncEntry
  import S = DiffSpec

  /** No file has this size: it marks that there is no previous file. */
  const NO_SIZE := 0xffff_ffff_ffff_ffff

  /** The files, in which order they are walked through, and what comparing two of them says. */
  datatype Input = Input(files: seq<Entry>, order: seq<nat>, same: (nat, nat) -> bool)
  {
    /** The order is a permutation, as sorting leaves it. */
    ghost predicate Ok()
    {
      && |order| == |files|
      && (forall i :: 0 <= i < |order| ==> order[i] < |files|)
      && (forall i, j :: 0 <= i < j < |order| ==> order[i] != order[j])
      && (forall i :: 0 <= i < |files| ==> files[i].size < NO_SIZE)
    }

    function File(i: nat): Entry
      requires i < |order| && order[i] < |files|
    {
      files[order[i]]
    }

    /** Two neighbours have the same size and the same content. */
    ghost predicate Twins(i: nat)
      requires Ok() && 0 < i < |order|
    {
      File(i - 1).size == File(i).size && same(order[i - 1], order[i])
    }

    /** The file at `i` is the second one of a pair. */
    ghost predicate Second(i: nat)
      requires Ok() && i < |order|
    {
      i > 0 && !Second(i - 1) && Twins(i)
    }

    /** The number of pairs among the first `n` files. */
    ghost function Pairs(n: nat): nat
      requires Ok() && n <= |order|
    {
      if n == 0 then 0 else Pairs(n - 1) + if Second(n - 1) then 1 else 0
    }

    /** The file at the end waits for its neighbour. */
    ghost predicate Open(n: nat)
      requires Ok() && n <= |order|
    {
      n > 0 && !Second(n - 1)
    }

    /** The row of the file at `i` once `n` files have been seen. */
    ghost function RowAt(n: nat, i: nat): S.Row
      requires Ok() && i < |order| && n <= |order|
    {
      if i >= n then S.Row(0, Some(File(i)), None)
      else if Second(i) then S.Row(DONE, Some(File(i)), None)
      else if i + 1 == n then S.Row(0, Some(File(i)), None)
      else if Second(i + 1) then S.Row(EQ, Some(File(i)), Some(File(i + 1)))
      else S.Row(NEQ, Some(File(i)), None)
    }

    /** The row of the file at `i` at the end. */
    ghost function FinalRow(i: nat): S.Row
      requires Ok() && i < |order|
    {
      if i + 1 == |order| && !Second(i) then S.Row(NEQ, Some(File(i)), None) else RowAt(|order|, i)
    }

    ghost predicate Rows(ents: seq<S.Row>, n: nat)
      requires Ok() && n <= |order|
    {
      && |ents| == |files|
      && forall i :: 0 <= i < |order| ==> ents[order[i]] == RowAt(n, i)
    }

    ghost predicate FinalRows(ents: seq<S.Row>)
      requires Ok()
    {
      && |ents| == |files|
      && forall i :: 0 <= i < |order| ==> ents[order[i]] == FinalRow(i)
    }

    /** The file before `n` is left alone. */
    lemma RowsAlone(ents: seq<S.Row>, n: nat)
      requires Ok() && n < |order| && Rows(ents, n) && Open(n) && !Twins(n)
      ensures var prev := order[n - 1]; Rows(ents[prev := ents[prev].(status := NEQ)], n + 1) && !Second(n)
    {
      hide Input.Twins;
    }

    lemma RowsFirst(ents: seq<S.Row>, n: nat)
      requires Ok() && n < |order| && Rows(ents, n) && !Open(n)
      ensures Rows(ents, n + 1) && !Second(n)
    {
      hide Input.Twins;
    }

    lemma RowsPaired(ents: seq<S.Row>, n: nat)
      requires Ok() && n < |order| && Rows(ents, n) && Open(n) && Twins(n)
      ensures var prev, ce := order[n - 1], order[n];
        && Rows(ents[prev := ents[prev].(status := EQ, r := ents[ce].l)][ce := ents[ce].(status := DONE)], n + 1)
        && Second(n)
    {
      hide Input.Twins;
    }

    lemma RowsEnd(ents: seq<S.Row>)
      requires Ok() && Rows(ents, |order|)
      ensures if Open(|order|) then var prev := order[|order| - 1]; FinalRows(ents[prev := ents[prev].(status := NEQ)])
              else FinalRows(ents)
    {
      hide Input.Twins;
    }

    /** Every file gets exactly one of three statuses, EQ, NEQ or DONE. A row with EQ goes with the next row, which has
        DONE, and the other way round; the two files have the same size and the same content. Of two
        neighbours of the same size that are both left alone, the contents differ. */
    lemma FinalRowsPair(i: nat)
      requires Ok() && i < |order|
      ensures var row := FinalRow(i);
        && row.l == Some(files[order[i]]) && row.status in {0x10, 4, 0x40000}
        && (row.status == 0x10 ==>
            i + 1 < |order| && FinalRow(i + 1).status == 0x40000 && row.r == Some(files[order[i + 1]]))
        && (row.status == 0x40000 ==>
            && i > 0 && FinalRow(i - 1).status == 0x10 && row.r == None
            && files[order[i - 1]].size == files[order[i]].size && same(order[i - 1], order[i]))
        && (row.status == 4 ==> row.r == None)
        && (row.status == 4 && i + 1 < |order| && FinalRow(i + 1).status != 0x40000 ==>
            !(files[order[i]].size == files[order[i + 1]].size && same(order[i], order[i + 1])))
    {
    }
  }

  /** How many of the first `n` files end with a given status. */
  ghost function Rows(x: Input, st: bv32, n: nat): nat
    requires x.Ok() && n <= |x.order|
  {
    if n == 0 then 0 else Rows(x, st, n - 1) + if x.FinalRow(n - 1).status == st then 1 else 0
  }

  lemma {:induction false} RowsOfPairs(x: Input, n: nat)
    requires x.Ok() && n <= |x.order|
    ensures Rows(x, DONE, n) == x.Pairs(n)
    ensures Rows(x, EQ, n) == x.Pairs(n) + if 0 < n < |x.order| && x.Second(n) then 1 else 0
    ensures Rows(x, NEQ, n) + Rows(x, EQ, n) + Rows(x, DONE, n) == n
  {
    hide Input.Twins;
    if n > 0 {
      RowsOfPairs(x, n - 1);
    }
  }

  /** At the end the counters are the numbers of rows of each kind, and the pairs are twice as many
      files as there are rows with EQ. */
  lemma CountersCountRows(sd: Scan)
    requires sd.Ended()
    ensures var n := |sd.input.order|;
      && sd.eq == Rows(sd.input, EQ, n) == Rows(sd.input, DONE, n)
      && sd.neq == Rows(sd.input, NEQ, n) && sd.entries == n
  {
    RowsOfPairs(sd.input, |sd.input.order|);
  }

  /** The part of `struct diff` for duplicates. */
  class Scan {
    ghost const input: Input
    const same: (nat, nat) -> bool
    var ents: seq<S.Row>
    var filter: seq<nat>
    var dupCur: nat
    var szPrev: nat
    var cePrev: Option<nat>
    var eq: nat
    var neq: nat
    var entries: nat

    ghost predicate Valid()
      reads this
    {
      && input.Ok() && filter == input.order && same == input.same && dupCur <= |filter|
      && input.Rows(ents, dupCur)
      && (if input.Open(dupCur) then cePrev == Some(filter[dupCur - 1]) && szPrev == input.File(dupCur - 1).size
          else cePrev == None && szPrev == NO_SIZE)
      && eq == input.Pairs(dupCur) && entries == dupCur
      && 2 * eq + neq + (if input.Open(dupCur) then 1 else 0) == entries
    }

    /** The state when the scan has ended. */
    ghost predicate Ended()
      reads this
    {
      && input.Ok() && filter == [] && input.FinalRows(ents)
      && eq == input.Pairs(|input.order|) && entries == |input.order| && 2 * eq + neq == entries
    }

    /** `dups_init`; `order` is what the sorting makes of the list of files. */
    constructor (files: seq<Entry>, order: seq<nat>, same: (nat, nat) -> bool)
      requires Input(files, order, same).Ok()
      ensures Valid() && dupCur == 0 && input == Input(files, order, same)
    {
      input, this.same := Input(files, order, same), same;
      ents := seq(|files|, i requires 0 <= i < |files| => S.Row(0, Some(files[i]), None));
      filter, dupCur, szPrev, cePrev := order, 0, NO_SIZE, None;
      eq, neq, entries := 0, 0, 0;
    }

    /** The previous file has no duplicate next to it. */
    method Alone()
      requires cePrev.Some? && cePrev.value < |ents|
      modifies this`ents, this`neq
      ensures neq == old(neq) + 1
      ensures ents == old(ents)[cePrev.value := old(ents)[cePrev.value].(status := NEQ)]
    {
      neq := neq + 1;
      ents := ents[cePrev.value := ents[cePrev.value].(status := NEQ)];
    }

    lemma RowsLength()
      requires Valid() && cePrev.Some?
      ensures cePrev.value < |ents|
    {
    }

    /** `dups_scan_next` behind the last file ... */
    method End()
      requires Valid() && dupCur == |filter|
      modifies this`ents, this`neq, this`filter
      ensures Ended()
    {
      hide Input.Rows, Input.FinalRows, Input.Second;
      input.RowsEnd(ents);
      if cePrev.Some? {
        RowsLength();
        Alone();
      }
      filter := [];
    }

    /** Where the method stands. */
    lemma RowsNow()
      requires Valid() && dupCur < |filter|
      ensures var ce := filter[dupCur];
        && ce < |ents| && ents[ce].l == Some(input.File(dupCur)) && input.File(dupCur).size < NO_SIZE
        && (cePrev.Some? ==>
            && cePrev.value < |ents| && 0 < dupCur
            && (input.Twins(dupCur) <==> szPrev == input.File(dupCur).size && same(cePrev.value, ce)))
    {
    }

    /** ... and on a file. */
    method Next()
      requires Valid() && dupCur < |filter|
      modifies this
      ensures Valid() && dupCur == old(dupCur) + 1 && filter == old(filter)
    {
      hide Input.Rows, Input.Second, Input.Twins, Input.RowAt;
      ghost var n := dupCur;
      RowsNow();
      var ce := filter[dupCur];
      dupCur := dupCur + 1;
      entries := entries + 1;
      var sz := ents[ce].l.value.size;
      if szPrev != sz {
        szPrev := sz;
        if cePrev.Some? {
          input.RowsAlone(ents, n);
          Alone();
        } else {
          input.RowsFirst(ents, n);
        }
        cePrev := Some(ce);
        return;
      }
      var prev := cePrev.value;
      if !same(prev, ce) {
        input.RowsAlone(ents, n);
        Alone();
        cePrev := Some(ce);
        return;
      }
      input.RowsPaired(ents, n);
      eq := eq + 1;
      ents := ents[prev := ents[prev].(status := EQ, r := ents[ce].l)][ce := ents[ce].(status := DONE)];
      cePrev := None;
      szPrev := NO_SIZE;
    }

    /** `dups_scan_next` */
    method ScanNext() returns (end: int)
      requires Valid()
      modifies this
      ensures end == if old(dupCur) == |old(filter)| then 1 else 0
      ensures if end == 1 then Ended() else Valid() && dupCur == old(dupCur) + 1 && filter == old(filter)
    {
      if dupCur == |filter| {
        End();
        return 1;
      }
      Next();
      return 0;
    }
  }

  /** `sync_find_dups` */
  method FindDups(files: seq<Entry>, order: seq<nat>, same: (nat, nat) -> bool) returns (sd: Scan)
    requires Input(files, order, same).Ok()
    ensures sd.Ended() && sd.input == Input(files, order, same)
  {
    sd := new Scan(files, order, same);
    while true
      invariant fresh(sd) && sd.Valid() && sd.input == Input(files, order, same)
      decreases |sd.filter| - sd.dupCur
    {
      var end := sd.ScanNext();
      if end == 1 {
        break;
      }
    }
  }
}
