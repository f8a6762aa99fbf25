/** When one append keeps the stored audit log linked, and what a failed read of the chain
    head at boot does to it. Nothing here assumes that head reads succeed. */
module AuditAppend {
  import opened Wrappers
  import opened AuditChain
  import opened AuditLog

  ghost predicate Sorted(rows: seq<Entry>) {
    forall i, j :: 0 <= i < j < |rows| ==> SeqOf(rows[i]) < SeqOf(rows[j])
  }

  predicate Taken(rows: seq<Entry>, n: int) {
    exists i :: 0 <= i < |rows| && SeqOf(rows[i]) == n
  }

  function Splice(rows: seq<Entry>, k: nat, e: Entry): seq<Entry>
    requires k <= |rows|
  {
    rows[..k] + [e] + rows[k..]
  }

  /** Row `k` is where the number of `e` belongs. */
  ghost predicate Place(rows: seq<Entry>, k: nat, e: Entry) {
    && k <= |rows|
    && (forall i :: 0 <= i < k ==> SeqOf(rows[i]) < SeqOf(e))
    && (forall i :: k <= i < |rows| ==> SeqOf(e) < SeqOf(rows[i]))
  }

  lemma {:induction false} InsertTaken(rows: seq<Entry>, e: Entry, i: nat)
    requires Sorted(rows) && i < |rows| && SeqOf(rows[i]) == SeqOf(e)
    ensures InsertRow(rows, e) == rows
  {
    if i < |rows| - 1 {
      InsertTaken(rows[..|rows| - 1], e, i);
      assert rows == rows[..|rows| - 1] + [rows[|rows| - 1]];
    }
  }

  lemma {:induction false} InsertSplices(rows: seq<Entry>, k: nat, e: Entry)
    requires Place(rows, k, e)
    ensures InsertRow(rows, e) == Splice(rows, k, e)
  {
    if k < |rows| {
      var front := rows[..|rows| - 1];
      InsertSplices(front, k, e);
      assert Splice(front, k, e) + [rows[|rows| - 1]] == Splice(rows, k, e);
    } else {
      assert Splice(rows, k, e) == rows + [e];
    }
  }

  lemma {:induction false} FindPlace(rows: seq<Entry>, e: Entry) returns (k: nat)
    requires Sorted(rows) && !Taken(rows, SeqOf(e))
    ensures Place(rows, k, e)
  {
    if rows == [] || SeqOf(rows[|rows| - 1]) < SeqOf(e) {
      k := |rows|;
    } else {
      var front := rows[..|rows| - 1];
      assert forall i :: 0 <= i < |front| ==> front[i] == rows[i];
      k := FindPlace(front, e);
    }
  }

  /** An insert changes nothing when the number is taken, and else puts the entry in its place. */
  lemma InsertPlaces(rows: seq<Entry>, e: Entry) returns (k: nat)
    requires Sorted(rows)
    ensures Taken(rows, SeqOf(e)) ==> InsertRow(rows, e) == rows
    ensures !Taken(rows, SeqOf(e)) ==> Place(rows, k, e) && InsertRow(rows, e) == Splice(rows, k, e)
  {
    if i: nat :| i < |rows| && SeqOf(rows[i]) == SeqOf(e) {
      k := 0;
      InsertTaken(rows, e, i);
    } else {
      k := FindPlace(rows, e);
      InsertSplices(rows, k, e);
    }
  }

  lemma InsertKeepsSorted(rows: seq<Entry>, e: Entry)
    requires Sorted(rows)
    ensures Sorted(InsertRow(rows, e))
  {
    var k := InsertPlaces(rows, e);
  }

  lemma {:induction false} RowsSorted(h: Hasher, events: seq<Event>)
    ensures Sorted(Run(h, events).rows)
  {
    if events != [] {
      RowsSorted(h, Front(events));
      if Last(events).Log? {
        InsertKeepsSorted(Run(h, Front(events)).rows, NewEntry(h, Run(h, Front(events)), Last(events)));
      }
    }
  }

  // ----- one append

  lemma SpliceIntactIff(h: Hasher, rows: seq<Entry>, k: nat, e: Entry)
    requires k <= |rows| && Intact(h, rows) && RowGood(h, e)
    ensures Intact(h, Splice(rows, k, e))
            <==> (k > 0 ==> e.prevHash == rows[k - 1].hash) && (k < |rows| ==> rows[k].prevHash == e.hash)
  {
    var longer := Splice(rows, k, e);
    forall j: nat | j < |longer| && j != k && j != k + 1
      ensures GoodAt(h, longer, j)
    {
      var i := if j < k then j else j - 1;
      assert GoodAt(h, rows, i);
    }
    assert GoodAt(h, longer, k) <==> (k > 0 ==> e.prevHash == rows[k - 1].hash);
    if k < |rows| {
      var next := k + 1;
      assert GoodAt(h, rows, k);
      assert GoodAt(h, longer, next) <==> rows[k].prevHash == e.hash;
    }
  }

  /** What can be checked before an append: the table is empty, the number is taken, or the
      entry links to the last row from behind or is linked to by the first row from before. */
  ghost predicate Fits(rows: seq<Entry>, e: Entry) {
    || rows == []
    || Taken(rows, SeqOf(e))
    || (SeqOf(rows[|rows| - 1]) < SeqOf(e) && e.prevHash == rows[|rows| - 1].hash)
    || (SeqOf(e) < SeqOf(rows[0]) && rows[0].prevHash == e.hash)
  }

  lemma NeverBetween(h: Hasher, rows: seq<Entry>, k: nat, e: Entry)
    requires CollisionFree(h) && Intact(h, rows) && RowGood(h, e) && 0 < k < |rows| && Place(rows, k, e)
    ensures rows[k].prevHash != e.hash
  {
    assert GoodAt(h, rows, k) && GoodAt(h, rows, k - 1);
    assert rows[k].prevHash == h(rows[k - 1].prevHash, rows[k - 1].fields);
    assert SeqOf(rows[k - 1]) < SeqOf(e);
  }

  /** An append keeps an intact table intact exactly when the entry fits; between two rows it
      never does. */
  lemma AppendKeepsIntactIff(h: Hasher, rows: seq<Entry>, e: Entry)
    requires CollisionFree(h) && Sorted(rows) && Intact(h, rows) && RowGood(h, e)
    ensures Intact(h, InsertRow(rows, e)) <==> Fits(rows, e)
  {
    var k := InsertPlaces(rows, e);
    if !Taken(rows, SeqOf(e)) {
      SpliceIntactIff(h, rows, k, e);
      if 0 < k < |rows| {
        NeverBetween(h, rows, k, e);
      }
    }
  }

  // ----- every run

  ghost predicate IntactUpTo(h: Hasher, events: seq<Event>, n: nat)
    requires n <= |events|
  {
    Intact(h, Run(h, events[..n]).rows)
  }

  /** If event `i` stores an entry, that entry fits the table it finds. */
  ghost predicate FitsAt(h: Hasher, events: seq<Event>, i: nat)
    requires i < |events|
  {
    var s := Run(h, events[..i]);
    events[i].Log? && events[i].stored ==> Fits(s.rows, NewEntry(h, s, events[i]))
  }

  lemma EventKeepsIntactIff(h: Hasher, events: seq<Event>, i: nat)
    requires CollisionFree(h) && i < |events| && IntactUpTo(h, events, i)
    ensures IntactUpTo(h, events, i + 1) <==> FitsAt(h, events, i)
  {
    var before, s := events[..i], Run(h, events[..i]);
    assert events[..i + 1] == before + [events[i]];
    RunSnoc(h, before, events[i]);
    if events[i].Log? && events[i].stored {
      RowsSorted(h, before);
      NewEntryGood(h, s, events[i]);
      AppendKeepsIntactIff(h, s.rows, NewEntry(h, s, events[i]));
    }
  }

  ghost predicate AlwaysIntact(h: Hasher, events: seq<Event>, n: nat)
    requires n <= |events|
  {
    forall i: nat :: i <= n ==> IntactUpTo(h, events, i)
  }

  ghost predicate AlwaysFits(h: Hasher, events: seq<Event>, n: nat)
    requires n <= |events|
  {
    forall i: nat :: i < n ==> FitsAt(h, events, i)
  }

  lemma AlwaysIntactSnoc(h: Hasher, events: seq<Event>, n: nat)
    requires n < |events|
    ensures AlwaysIntact(h, events, n + 1) <==> AlwaysIntact(h, events, n) && IntactUpTo(h, events, n + 1)
    ensures AlwaysIntact(h, events, n) ==> IntactUpTo(h, events, n)
  {
  }

  lemma AlwaysFitsSnoc(h: Hasher, events: seq<Event>, n: nat)
    requires n < |events|
    ensures AlwaysFits(h, events, n + 1) <==> AlwaysFits(h, events, n) && FitsAt(h, events, n)
  {
  }

  lemma NothingYet(h: Hasher, events: seq<Event>)
    ensures AlwaysIntact(h, events, 0) && AlwaysFits(h, events, 0)
  {
    assert events[..0] == [];
  }

  /** Over every run, with appends and head reads failing at will, the table stays linked all
      along exactly when every stored entry fits the table it finds. */
  lemma {:induction false} StaysIntactIff(h: Hasher, events: seq<Event>, n: nat)
    requires CollisionFree(h) && n <= |events|
    ensures AlwaysIntact(h, events, n) <==> AlwaysFits(h, events, n)
  {
    if n == 0 {
      NothingYet(h, events);
    } else {
      StaysIntactIff(h, events, n - 1);
      AlwaysIntactSnoc(h, events, n - 1);
      AlwaysFitsSnoc(h, events, n - 1);
      if AlwaysIntact(h, events, n - 1) {
        EventKeepsIntactIff(h, events, n - 1);
      }
    }
  }

  // ----- a boot that could not read the head

  /** The entries one process logs from state `s`. */
  function Logged(h: Hasher, s: LogState, logs: seq<Event>): seq<Entry>
    requires forall i :: 0 <= i < |logs| ==> logs[i].Log?
  {
    if logs == [] then []
    else
      var front := logs[..|logs| - 1];
      Logged(h, s, front) + [NewEntry(h, After(h, s, front), logs[|logs| - 1])]
  }

  function After(h: Hasher, s: LogState, events: seq<Event>): LogState {
    if events == [] then s else Step(h, After(h, s, events[..|events| - 1]), events[|events| - 1])
  }

  ghost predicate AllStored(logs: seq<Event>) {
    forall i :: 0 <= i < |logs| ==> logs[i].Log? && logs[i].stored
  }

  /** Numbered 1, 2, 3 and so on. */
  ghost predicate FromOne(rows: seq<Entry>) {
    forall i :: 0 <= i < |rows| ==> SeqOf(rows[i]) == i + 1
  }

  ghost predicate Linked(all: seq<Entry>) {
    forall i :: 0 < i < |all| ==> all[i].prevHash == all[i - 1].hash
  }

  /** `all` is what a process has logged since a boot without a head. */
  ghost predicate LoggedSince(h: Hasher, s: LogState, all: seq<Entry>) {
    && FromOne(all) && RowsGood(h, all) && Linked(all)
    && s.memory == LastN(all, MEMORY_LIMIT) && s.head == None
  }

  lemma TipSince(h: Hasher, s: LogState, all: seq<Entry>)
    requires LoggedSince(h, s, all)
    ensures Tip(s) == if all == [] then (GENESIS, 1) else (all[|all| - 1].hash, |all| + 1)
  {
  }

  lemma OneMoreLogged(h: Hasher, s: LogState, all: seq<Entry>, e: Event)
    requires LoggedSince(h, s, all) && e.Log?
    ensures LoggedSince(h, Step(h, s, e), all + [NewEntry(h, s, e)])
  {
    TipSince(h, s, all);
    NewEntryGood(h, s, e);
    LastNSnoc(all, NewEntry(h, s, e), MEMORY_LIMIT);
  }

  lemma {:induction false} LoggedAfterBoot(h: Hasher, rows: seq<Entry>, logs: seq<Event>)
    requires forall i :: 0 <= i < |logs| ==> logs[i].Log?
    ensures var boot := LogState([], None, rows);
            |Logged(h, boot, logs)| == |logs| && LoggedSince(h, After(h, boot, logs), Logged(h, boot, logs))
  {
    if logs != [] {
      var front, boot := logs[..|logs| - 1], LogState([], None, rows);
      LoggedAfterBoot(h, rows, front);
      OneMoreLogged(h, After(h, boot, front), Logged(h, boot, front), logs[|logs| - 1]);
    }
  }

  /** Rows numbered from 1, and then those of the logged entries whose numbers are free. */
  function Kept(rows: seq<Entry>, all: seq<Entry>): seq<Entry> {
    rows + if |all| <= |rows| then [] else all[|rows|..]
  }

  lemma KeptSnoc(rows: seq<Entry>, all: seq<Entry>, e: Entry)
    requires FromOne(rows) && FromOne(all + [e])
    ensures InsertRow(Kept(rows, all), e) == Kept(rows, all + [e])
  {
    var longer := all + [e];
    assert SeqOf(longer[|all|]) == |longer|;
    if |longer| <= |rows| {
      RowTaken(rows, e);
      assert Kept(rows, all) == rows;
    } else {
      assert Kept(rows, longer) == Kept(rows, all) + [e];
      var kept := Kept(rows, all);
      if kept != [] {
        assert SeqOf(kept[|kept| - 1]) <= |all| by {
          assert |all| > |rows| ==> kept[|kept| - 1] == longer[|all| - 1];
        }
      }
    }
  }

  /** The first |rows| entries are dropped for their numbers; the later ones are stored. */
  lemma {:induction false} UnreadHeadRows(h: Hasher, rows: seq<Entry>, logs: seq<Event>)
    requires AllStored(logs) && FromOne(rows)
    ensures var boot := LogState([], None, rows);
            After(h, boot, logs).rows == Kept(rows, Logged(h, boot, logs))
  {
    if logs != [] {
      var front, boot := logs[..|logs| - 1], LogState([], None, rows);
      UnreadHeadRows(h, rows, front);
      LoggedAfterBoot(h, rows, logs);
      KeptSnoc(rows, Logged(h, boot, front), NewEntry(h, After(h, boot, front), logs[|logs| - 1]));
    }
  }

  lemma {:induction false} RowTaken(rows: seq<Entry>, e: Entry)
    requires FromOne(rows) && 1 <= SeqOf(e) <= |rows|
    ensures InsertRow(rows, e) == rows
  {
    assert SeqOf(rows[SeqOf(e) - 1]) == SeqOf(e);
    var k := InsertPlaces(rows, e);
  }

  lemma KeptIntactIff(h: Hasher, rows: seq<Entry>, all: seq<Entry>)
    requires CollisionFree(h) && Intact(h, rows) && RowsGood(h, all) && Linked(all)
    ensures Intact(h, Kept(rows, all)) <==> |all| <= |rows| || rows == [] || rows[|rows| - 1] == all[|rows| - 1]
  {
    var joined, k := Kept(rows, all), |rows|;
    if k < |all| {
      forall i: nat | i < |joined| && i != k
        ensures GoodAt(h, joined, i)
      {
        if i < k {
          assert GoodAt(h, rows, i);
        } else {
          assert RowGood(h, all[i]) && joined[i] == all[i] && joined[i - 1] == all[i - 1];
        }
      }
      assert RowGood(h, all[k]) && joined[k] == all[k];
      assert GoodAt(h, joined, k) <==> k > 0 ==> all[k - 1].hash == rows[k - 1].hash;
      if k > 0 {
        assert GoodAt(h, rows, k - 1) && RowGood(h, all[k - 1]);
      }
    } else {
      assert joined == rows;
    }
  }

  /** Over a table numbered from 1, a process that could not read the head keeps the table
      linked exactly as long as it has logged no more entries than there are rows, or the last
      entry it dropped is the last row over again. */
  lemma UnreadHeadKeepsIntactIff(h: Hasher, rows: seq<Entry>, logs: seq<Event>)
    requires CollisionFree(h) && Intact(h, rows) && FromOne(rows) && AllStored(logs)
    ensures var boot := LogState([], None, rows);
            var all := Logged(h, boot, logs);
            |all| == |logs|
            && (Intact(h, After(h, boot, logs).rows)
                <==> |logs| <= |rows| || rows == [] || rows[|rows| - 1] == all[|rows| - 1])
  {
    LoggedAfterBoot(h, rows, logs);
    UnreadHeadRows(h, rows, logs);
    KeptIntactIff(h, rows, Logged(h, LogState([], None, rows), logs));
  }
}
