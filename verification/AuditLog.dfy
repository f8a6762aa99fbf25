/** The action audit log over its whole life: `_log_action`, the append-only table behind
    it, restarts that seed the chain head from the table, and appends that fail. */
module AuditLog {
  import opened Wrappers
  import opened AuditChain

  const MEMORY_LIMIT: nat := 2000

  datatype Head = Head(seqNo: int, hash: string)

  /** One process (`memory`, `head`) and the table that outlives it (`rows`, in `seq` order). */
  datatype LogState = LogState(memory: seq<Entry>, head: Option<Head>, rows: seq<Entry>)

  datatype Event =
    | Log(ts: string, username: string, action: string, detail: string, stored: bool)
    | Restart(headRead: bool)

  const Fresh := LogState([], None, [])

  // ----- the table

  function SeqOf(e: Entry): int {
    e.fields.seqNo.GetOr(0)
  }

  /** INSERT ... ON CONFLICT (seq) DO NOTHING, keeping the rows in `seq` order. */
  function InsertRow(rows: seq<Entry>, e: Entry): seq<Entry> {
    if rows == [] || SeqOf(rows[|rows| - 1]) < SeqOf(e) then rows + [e]
    else if SeqOf(rows[|rows| - 1]) == SeqOf(e) then rows
    else InsertRow(rows[..|rows| - 1], e) + [rows[|rows| - 1]]
  }

  /** SELECT seq, hash ... ORDER BY seq DESC LIMIT 1 */
  function LatestRow(rows: seq<Entry>): Option<Head> {
    if rows == [] then None
    else Some(Head(SeqOf(rows[|rows| - 1]), rows[|rows| - 1].hash))
  }

  /** The `ts` column holds an instant, not the text: a row that is read back carries the text
      `render` makes of it, which need not be the text that was hashed. */
  function ReadBack(render: string -> string, rows: seq<Entry>): seq<Entry> {
    seq(|rows|, i requires 0 <= i < |rows| => Rendered(render, rows[i]))
  }

  function Rendered(render: string -> string, row: Entry): Entry {
    row.(fields := row.fields.(ts := render(row.fields.ts)))
  }

  /** SELECT ... ORDER BY seq DESC LIMIT, then ascending. */
  function LoadEvents(render: string -> string, rows: seq<Entry>, limit: int): seq<Entry> {
    ReadBack(render, LastN(rows, if limit < 1 then 1 else limit))
  }

  // ----- one step of the process

  /** Where the next entry links: (previous hash, sequence number). */
  function Tip(s: LogState): (string, int) {
    if s.memory != [] then (s.memory[|s.memory| - 1].hash, SeqOf(s.memory[|s.memory| - 1]) + 1)
    else if s.head.Some? then (s.head.value.hash, s.head.value.seqNo + 1)
    else (GENESIS, 1)
  }

  function NewEntry(h: Hasher, s: LogState, e: Event): Entry
    requires e.Log?
  {
    var (prev, n) := Tip(s);
    var f := Fields(Some(n), e.ts, e.username, e.action, e.detail);
    Entry(f, prev, h(prev, f))
  }

  function LastN(es: seq<Entry>, n: nat): seq<Entry> {
    if |es| <= n then es else es[|es| - n..]
  }

  function Step(h: Hasher, s: LogState, e: Event): LogState {
    match e
    case Log(_, _, _, _, stored) =>
      var entry := NewEntry(h, s, e);
      LogState(LastN(s.memory + [entry], MEMORY_LIMIT), s.head,
               if stored then InsertRow(s.rows, entry) else s.rows)
    case Restart(headRead) =>
      LogState([], if headRead then LatestRow(s.rows) else None, s.rows)
  }

  function Run(h: Hasher, events: seq<Event>): LogState {
    if events == [] then Fresh else Step(h, Run(h, Front(events)), Last(events))
  }

  function Front(events: seq<Event>): seq<Event>
    requires events != []
  {
    events[..|events| - 1]
  }

  function Last(events: seq<Event>): Event
    requires events != []
  {
    events[|events| - 1]
  }

  // ----- the code, as it mutates its state

  class AuditTable {
    var rows: seq<Entry>

    constructor ()
      ensures rows == []
    {
      rows := [];
    }

    /** `available` is whether the database accepted the statement. */
    method Append(e: Entry, available: bool)
      modifies this
      ensures rows == if available then InsertRow(old(rows), e) else old(rows)
    {
      if available {
        rows := InsertRow(rows, e);
      }
    }

    method Load(render: string -> string, limit: int) returns (entries: seq<Entry>)
      ensures entries == LoadEvents(render, rows, limit)
      ensures |entries| <= |rows| && forall i :: 0 <= i < |entries| ==>
                entries[i] == Rendered(render, rows[|rows| - |entries| + i])
    {
      var from := |rows| - if limit < 1 then 1 else limit;
      if from < 0 {
        from := 0;
      }
      entries := [];
      for i := from to |rows|
        invariant entries == ReadBack(render, rows[from..i])
      {
        assert rows[from..i + 1] == rows[from..i] + [rows[i]];
        entries := entries + [Rendered(render, rows[i])];
      }
      assert rows[from..|rows|] == rows[from..];
      assert rows == rows[0..];
    }
  }

  class AuditLogger {
    const table: AuditTable
    var memory: seq<Entry>
    var head: Option<Head>

    function State(): LogState
      reads this, table
    {
      LogState(memory, head, table.rows)
    }

    /** Boot: the head is seeded from the table; a failed read leaves it empty. */
    constructor (table: AuditTable, headRead: bool)
      ensures this.table == table
      ensures forall h, before: LogState :: before.rows == table.rows ==> State() == Step(h, before, Restart(headRead))
    {
      this.table := table;
      memory := [];
      head := if headRead then LatestRow(table.rows) else None;
    }

    method LogAction(h: Hasher, ts: string, username: string, action: string, detail: string, available: bool)
      modifies this, table
      ensures State() == Step(h, old(State()), Log(ts, username, action, detail, available))
      ensures 0 < |memory| <= 2000
      ensures var f := memory[|memory| - 1].fields;
              f.ts == ts && f.username == username && f.action == action && f.detail == detail
    {
      var prev, seqNo := GENESIS, 1;
      if memory != [] {
        prev, seqNo := memory[|memory| - 1].hash, SeqOf(memory[|memory| - 1]) + 1;
      } else if head.Some? {
        prev, seqNo := head.value.hash, head.value.seqNo + 1;
      }
      var fields := Fields(Some(seqNo), ts, username, action, detail);
      var entry := Entry(fields, prev, h(prev, fields));
      memory := memory + [entry];
      if |memory| > MEMORY_LIMIT {
        memory := memory[|memory| - MEMORY_LIMIT..];
      }
      table.Append(entry, available);
    }
  }

  // ----- what holds in memory, over every run

  /** The entries logged since the last restart, none dropped. */
  function SinceBoot(h: Hasher, events: seq<Event>): seq<Entry> {
    if events == [] || Last(events).Restart? then []
    else SinceBoot(h, Front(events)) + [NewEntry(h, Run(h, Front(events)), Last(events))]
  }

  function LogsSinceBoot(events: seq<Event>): nat {
    if events == [] || Last(events).Restart? then 0 else LogsSinceBoot(Front(events)) + 1
  }

  /** `d` is the digest of some entry numbered `n`. */
  ghost predicate DigestOf(h: Hasher, d: string, n: int) {
    exists p, f :: d == h(p, f) && f.seqNo == Some(n)
  }

  ghost predicate TipGood(h: Hasher, s: LogState) {
    Tip(s).0 == GENESIS || DigestOf(h, Tip(s).0, Tip(s).1 - 1)
  }

  predicate RowGood(h: Hasher, e: Entry) {
    e.fields.seqNo.Some? && e.hash == h(e.prevHash, e.fields)
  }

  ghost predicate RowsGood(h: Hasher, rows: seq<Entry>) {
    forall i :: 0 <= i < |rows| ==> RowGood(h, rows[i])
  }

  lemma {:induction false} InsertKeepsRowsGood(h: Hasher, rows: seq<Entry>, e: Entry)
    requires RowsGood(h, rows) && RowGood(h, e)
    ensures RowsGood(h, InsertRow(rows, e))
  {
    if rows != [] && SeqOf(rows[|rows| - 1]) > SeqOf(e) {
      InsertKeepsRowsGood(h, rows[..|rows| - 1], e);
    }
  }

  lemma NewEntryGood(h: Hasher, s: LogState, e: Event)
    requires e.Log?
    ensures RowGood(h, NewEntry(h, s, e)) && SeqOf(NewEntry(h, s, e)) == Tip(s).1
    ensures DigestOf(h, NewEntry(h, s, e).hash, Tip(s).1)
  {
  }

  lemma {:induction false} RunKeepsTip(h: Hasher, events: seq<Event>)
    ensures RowsGood(h, Run(h, events).rows) && TipGood(h, Run(h, events))
  {
    if events != [] {
      RunKeepsTip(h, Front(events));
      var s, e := Run(h, Front(events)), Last(events);
      if e.Log? {
        NewEntryGood(h, s, e);
        InsertKeepsRowsGood(h, s.rows, NewEntry(h, s, e));
      } else if e.headRead && s.rows != [] {
        var last := s.rows[|s.rows| - 1];
        assert RowGood(h, last);
        assert last.hash == h(last.prevHash, last.fields) && last.fields.seqNo == Some(SeqOf(last));
      }
    }
  }

  lemma ChainExtends(h: Hasher, es: seq<Entry>, s: LogState, e: Event)
    requires LoggerChain(h, es) && e.Log? && TipGood(h, s)
    requires es != [] ==> Tip(s) == (es[|es| - 1].hash, SeqOf(es[|es| - 1]) + 1)
    ensures LoggerChain(h, es + [NewEntry(h, s, e)])
  {
    var longer := es + [NewEntry(h, s, e)];
    forall i: nat | i < |longer|
      ensures GoodAt(h, longer, i)
    {
      if i < |es| {
        assert GoodAt(h, es, i);
      }
    }
    if es == [] && Tip(s).0 != GENESIS {
      var p, f :| Tip(s).0 == h(p, f) && f.seqNo == Some(Tip(s).1 - 1);
      assert Precedes(f.seqNo, longer[0].fields.seqNo);
    }
  }

  lemma SuffixOfChain(h: Hasher, es: seq<Entry>, n: nat)
    requires LoggerChain(h, es)
    ensures LoggerChain(h, LastN(es, n))
  {
    if 0 < n < |es| {
      var k := |es| - n;
      var tail := es[k..];
      forall i: nat | i < |tail|
        ensures GoodAt(h, tail, i)
      {
        assert GoodAt(h, es, k + i);
      }
      assert tail[0].fields.seqNo == es[k].fields.seqNo;
      LinkRoots(h, es, k);
    }
  }

  lemma LinkRoots(h: Hasher, es: seq<Entry>, k: nat)
    requires LoggerChain(h, es) && 0 < k < |es|
    ensures Rooted(h, es[k])
  {
    assert GoodAt(h, es, k) && GoodAt(h, es, k - 1);
    assert es[k].prevHash == h(es[k - 1].prevHash, es[k - 1].fields);
    assert Precedes(es[k - 1].fields.seqNo, es[k].fields.seqNo);
  }

  lemma LastNSnoc(es: seq<Entry>, e: Entry, n: nat)
    requires n > 0
    ensures LastN(LastN(es, n) + [e], n) == LastN(es + [e], n)
  {
  }

  lemma {:induction false} SinceBootInvariant(h: Hasher, events: seq<Event>)
    ensures var all := SinceBoot(h, events);
            && LoggerChain(h, all)
            && |all| == LogsSinceBoot(events)
            && Run(h, events).memory == LastN(all, MEMORY_LIMIT)
  {
    if events != [] {
      SinceBootInvariant(h, Front(events));
      RunKeepsTip(h, Front(events));
      if Last(events).Log? {
        ChainExtends(h, SinceBoot(h, Front(events)), Run(h, Front(events)), Last(events));
        LastNSnoc(SinceBoot(h, Front(events)), NewEntry(h, Run(h, Front(events)), Last(events)), MEMORY_LIMIT);
      }
    }
  }

  /** In every run, with any appends failing and any head reads failing: memory holds the
      last min(n, 2000) of the n entries logged since boot, numbered consecutively, and it
      verifies. */
  lemma MemoryAlwaysVerifies(h: Hasher, events: seq<Event>)
    ensures VerdictOn(h, Run(h, events).memory).ok
    ensures LoggerChain(h, Run(h, events).memory)
    ensures Run(h, events).memory == LastN(SinceBoot(h, events), MEMORY_LIMIT)
    ensures |Run(h, events).memory| == if LogsSinceBoot(events) < 2000 then LogsSinceBoot(events) else 2000
  {
    SinceBootInvariant(h, events);
    SuffixOfChain(h, SinceBoot(h, events), MEMORY_LIMIT);
    NumberedVerdict(h, Run(h, events).memory);
  }

  // ----- what holds in the table, over every run whose head reads succeed

  ghost predicate HeadsRead(events: seq<Event>) {
    forall i :: 0 <= i < |events| && events[i].Restart? ==> events[i].headRead
  }

  predicate StoredAt(events: seq<Event>, i: int) {
    0 <= i < |events| && events[i].Log? && events[i].stored
  }

  predicate FailedAt(events: seq<Event>, j: int) {
    0 <= j < |events| && events[j].Log? && !events[j].stored
  }

  ghost predicate SameProcess(events: seq<Event>, j: int, k: int) {
    forall r :: j <= r < k && 0 <= r < |events| ==> events[r].Log?
  }

  /** Some append succeeded although, in the same process and with a non-empty table, an
      earlier one had failed. */
  ghost predicate StoredPastALoss(events: seq<Event>) {
    exists i, j, k :: i < j < k && StoredAt(events, i) && FailedAt(events, j) && StoredAt(events, k)
                      && SameProcess(events, j, k)
  }

  /** The running process failed to store an entry, after which nothing was stored. */
  ghost predicate LossPending(events: seq<Event>) {
    exists i, j :: i < j && StoredAt(events, i) && FailedAt(events, j) && SameProcess(events, j, |events|)
                   && NothingStored(events, j)
  }

  ghost predicate NothingStored(events: seq<Event>, j: int) {
    forall k :: j < k ==> !StoredAt(events, k)
  }

  lemma SnocEvents(before: seq<Event>, e: Event, i: int)
    ensures StoredAt(before + [e], i) == if i == |before| then e.Log? && e.stored else StoredAt(before, i)
    ensures FailedAt(before + [e], i) == if i == |before| then e.Log? && !e.stored else FailedAt(before, i)
  {
  }

  /** How the two conditions move when an event is added at the end. */
  lemma LossPendingStep(before: seq<Event>, e: Event)
    ensures e.Log? && e.stored ==> !LossPending(before + [e])
    ensures e.Restart? ==> !LossPending(before + [e])
    ensures e.Log? && !e.stored ==> (LossPending(before + [e]) <==> SomeStored(before))
  {
    var events := before + [e];
    forall i
      ensures StoredAt(events, i) == if i == |before| then e.Log? && e.stored else StoredAt(before, i)
      ensures FailedAt(events, i) == if i == |before| then e.Log? && !e.stored else FailedAt(before, i)
    {
      SnocEvents(before, e, i);
    }
    if e.Log? && e.stored {
      assert StoredAt(events, |before|);
    } else if e.Restart? {
      assert events[|before|].Restart?;
    } else {
      if i :| StoredAt(before, i) {
        assert StoredAt(events, i) && FailedAt(events, |before|);
        assert SameProcess(events, |before|, |events|) && NothingStored(events, |before|);
      }
    }
  }

  lemma StoredPastALossStep(before: seq<Event>, e: Event)
    ensures StoredPastALoss(before + [e])
            <==> StoredPastALoss(before) || (e.Log? && e.stored && LossPending(before))
  {
    var events := before + [e];
    forall i
      ensures StoredAt(events, i) == if i == |before| then e.Log? && e.stored else StoredAt(before, i)
      ensures FailedAt(events, i) == if i == |before| then e.Log? && !e.stored else FailedAt(before, i)
    {
      SnocEvents(before, e, i);
    }
    assert forall r :: 0 <= r < |before| ==> events[r] == before[r];
    if StoredPastALoss(before) {
      var i, j, k :| i < j < k && StoredAt(before, i) && FailedAt(before, j) && StoredAt(before, k)
                     && SameProcess(before, j, k);
      assert SameProcess(events, j, k);
      assert StoredAt(events, i) && FailedAt(events, j) && StoredAt(events, k);
    } else if e.Log? && e.stored && LossPending(before) {
      var i, j :| i < j && StoredAt(before, i) && FailedAt(before, j) && SameProcess(before, j, |before|)
                  && NothingStored(before, j);
      assert SameProcess(events, j, |before|);
      assert StoredAt(events, i) && FailedAt(events, j) && StoredAt(events, |before|);
    }
    if StoredPastALoss(events) {
      var i, j, k :| i < j < k && StoredAt(events, i) && FailedAt(events, j) && StoredAt(events, k)
                     && SameProcess(events, j, k);
      assert StoredAt(before, i) && FailedAt(before, j);
      if m :| j < m < |before| && StoredAt(before, m) && SameProcess(events, j, m) {
        assert SameProcess(before, j, m);
      } else if k == |before| {
        assert NothingStored(before, j) by {
          forall m | j < m
            ensures !StoredAt(before, m)
          {
            assert m < |before| ==> SameProcess(events, j, m);
          }
        }
        assert SameProcess(before, j, |before|);
      }
    }
  }

  /** What ties the table to the running process: `some` rows exist, a `loss` is pending,
      the stored chain is `broken`. */
  ghost predicate Linked(h: Hasher, s: LogState, some: bool, loss: bool, broken: bool) {
    && RowsGood(h, s.rows) && TipGood(h, s)
    && (s.rows != [] <==> some)
    && (Intact(h, s.rows) <==> !broken)
    && (!broken ==> LoggerChain(h, s.rows))
    && (s.rows != [] ==>
        var last := s.rows[|s.rows| - 1];
        if loss then SeqOf(last) < Tip(s).1 - 1 else Tip(s) == (last.hash, SeqOf(last) + 1))
  }

  ghost predicate SomeStored(events: seq<Event>) {
    exists i :: StoredAt(events, i)
  }

  ghost predicate RowsLinked(h: Hasher, events: seq<Event>) {
    Linked(h, Run(h, events), SomeStored(events), LossPending(events), StoredPastALoss(events))
  }

  lemma IntactSnoc(h: Hasher, rows: seq<Entry>, e: Entry)
    requires RowGood(h, e)
    ensures Intact(h, rows + [e]) <==> Intact(h, rows) && (rows != [] ==> e.prevHash == rows[|rows| - 1].hash)
  {
    var longer := rows + [e];
    forall i: nat | i < |rows|
      ensures GoodAt(h, longer, i) == GoodAt(h, rows, i)
    {
    }
    assert GoodAt(h, longer, |rows|) <==> (rows != [] ==> e.prevHash == rows[|rows| - 1].hash);
    if Intact(h, rows) && GoodAt(h, longer, |rows|) {
      forall i: nat | i < |longer|
        ensures GoodAt(h, longer, i)
      {
        assert i < |rows| ==> GoodAt(h, rows, i);
      }
    }
  }

  /** The link of the next entry reaches the last row exactly when no loss is pending. */
  lemma TipReachesLastRow(h: Hasher, s: LogState, loss: bool, broken: bool)
    requires CollisionFree(h) && Linked(h, s, true, loss, broken)
    ensures Tip(s).0 == s.rows[|s.rows| - 1].hash <==> !loss
  {
    var last := s.rows[|s.rows| - 1];
    assert RowGood(h, last);
    assert last.hash == h(last.prevHash, last.fields);
    if loss && Tip(s).0 != GENESIS {
      var p, f :| Tip(s).0 == h(p, f) && f.seqNo == Some(Tip(s).1 - 1);
      assert f.seqNo != last.fields.seqNo;
    }
  }

  lemma TipAfterLog(h: Hasher, s: LogState, e: Event)
    requires e.Log?
    ensures var entry := NewEntry(h, s, e);
            Tip(Step(h, s, e)) == (entry.hash, SeqOf(entry) + 1) && SeqOf(entry) == Tip(s).1
  {
    var entry := NewEntry(h, s, e);
    assert LastN(s.memory + [entry], MEMORY_LIMIT)[|LastN(s.memory + [entry], MEMORY_LIMIT)| - 1] == entry;
  }

  lemma LinkedAfterFailure(h: Hasher, s: LogState, e: Event, some: bool, loss: bool, broken: bool)
    requires Linked(h, s, some, loss, broken) && e.Log? && !e.stored
    ensures Linked(h, Step(h, s, e), some, some, broken)
  {
    TipAfterLog(h, s, e);
    NewEntryGood(h, s, e);
  }

  lemma RowStored(h: Hasher, s: LogState, e: Event, some: bool, loss: bool, broken: bool)
    requires Linked(h, s, some, loss, broken) && e.Log? && e.stored
    ensures Step(h, s, e).rows == s.rows + [NewEntry(h, s, e)]
    ensures RowsGood(h, Step(h, s, e).rows) && TipGood(h, Step(h, s, e)) && RowGood(h, NewEntry(h, s, e))
  {
    TipAfterLog(h, s, e);
    NewEntryGood(h, s, e);
    InsertKeepsRowsGood(h, s.rows, NewEntry(h, s, e));
  }

  lemma LinkedAfterStore(h: Hasher, s: LogState, e: Event, some: bool, loss: bool, broken: bool)
    requires CollisionFree(h) && Linked(h, s, some, loss, broken) && e.Log? && e.stored
    requires loss ==> some
    ensures Linked(h, Step(h, s, e), true, false, broken || loss)
  {
    var entry := NewEntry(h, s, e);
    TipAfterLog(h, s, e);
    RowStored(h, s, e, some, loss, broken);
    IntactSnoc(h, s.rows, entry);
    if some {
      TipReachesLastRow(h, s, loss, broken);
    }
    if !broken && !loss {
      ChainExtends(h, s.rows, s, e);
    }
  }

  lemma LinkedAfterRestart(h: Hasher, s: LogState, some: bool, loss: bool, broken: bool)
    requires Linked(h, s, some, loss, broken)
    ensures Linked(h, Step(h, s, Restart(true)), some, false, broken)
  {
    if some {
      var last := s.rows[|s.rows| - 1];
      assert RowGood(h, last);
      assert last.hash == h(last.prevHash, last.fields) && last.fields.seqNo == Some(SeqOf(last));
    }
  }

  lemma StoredSnoc(before: seq<Event>, e: Event)
    ensures SomeStored(before + [e]) <==> SomeStored(before) || (e.Log? && e.stored)
  {
    if i :| StoredAt(before, i) {
      assert StoredAt(before + [e], i);
    }
    if e.Log? && e.stored {
      assert StoredAt(before + [e], |before|);
    }
    if i :| StoredAt(before + [e], i) {
      SnocEvents(before, e, i);
    }
  }

  lemma {:induction false} RowsInvariant(h: Hasher, events: seq<Event>)
    requires CollisionFree(h) && HeadsRead(events)
    ensures RowsLinked(h, events)
  {
    if events == [] {
      assert Intact(h, Run(h, events).rows);
    } else {
      var before, e := Front(events), Last(events);
      assert events == before + [e];
      assert forall i :: 0 <= i < |before| ==> before[i] == events[i];
      RowsInvariant(h, before);
      LossPendingStep(before, e);
      StoredPastALossStep(before, e);
      StoredSnoc(before, e);
      var s, some, loss, broken := Run(h, before), SomeStored(before), LossPending(before), StoredPastALoss(before);
      if e.Log? && e.stored {
        LinkedAfterStore(h, s, e, some, loss, broken);
      } else if e.Log? {
        LinkedAfterFailure(h, s, e, some, loss, broken);
      } else {
        assert e == Restart(true);
        LinkedAfterRestart(h, s, some, loss, broken);
      }
    }
  }

  /** The rows as they were inserted verify unless, within one process, an append failed while
      the table was non-empty and a later append succeeded; and then they do not. When they do,
      they are a chain with consecutive numbers. */
  lemma InsertedRowsVerifyIff(h: Hasher, events: seq<Event>)
    requires CollisionFree(h) && HeadsRead(events)
    ensures Intact(h, Run(h, events).rows) <==> !StoredPastALoss(events)
    ensures Intact(h, Run(h, events).rows) <==> LoggerChain(h, Run(h, events).rows)
  {
    RowsInvariant(h, events);
  }

  // ----- what a verification of the table sees

  /** The text of every time stamp is read back as it was hashed. */
  ghost predicate StampsKept(render: string -> string, rows: seq<Entry>) {
    forall i :: 0 <= i < |rows| ==> render(rows[i].fields.ts) == rows[i].fields.ts
  }

  lemma RenderedGoodIff(h: Hasher, render: string -> string, row: Entry)
    requires CollisionFree(h) && RowGood(h, row)
    ensures Rendered(render, row).hash == h(row.prevHash, Rendered(render, row).fields)
            <==> render(row.fields.ts) == row.fields.ts
  {
    if render(row.fields.ts) == row.fields.ts {
      assert Rendered(render, row) == row;
    }
  }

  /** Rows that are read back verify exactly when they verify as inserted and no time stamp
      changed its text. */
  lemma ReadBackVerifiesIff(h: Hasher, render: string -> string, rows: seq<Entry>)
    requires CollisionFree(h) && RowsGood(h, rows)
    ensures VerdictOn(h, ReadBack(render, rows)).ok <==> Intact(h, rows) && StampsKept(render, rows)
  {
    var read := ReadBack(render, rows);
    NumberedReadBack(h, render, rows);
    NumberedVerdict(h, read);
    forall i: nat | i < |rows|
      ensures GoodAt(h, read, i) <==> GoodAt(h, rows, i) && render(rows[i].fields.ts) == rows[i].fields.ts
    {
      RenderedGoodIff(h, render, rows[i]);
    }
  }

  lemma NumberedReadBack(h: Hasher, render: string -> string, rows: seq<Entry>)
    requires RowsGood(h, rows)
    ensures AllNumbered(ReadBack(render, rows))
  {
    assert forall i :: 0 <= i < |rows| ==> RowGood(h, rows[i]);
  }

  /** Over every run whose head reads succeed, the stored log, as it is read back, verifies
      exactly when nothing was stored past a loss and every stamp is read as it was hashed. */
  lemma StoredLogVerifiesIff(h: Hasher, render: string -> string, events: seq<Event>)
    requires CollisionFree(h) && HeadsRead(events)
    ensures VerdictOn(h, ReadBack(render, Run(h, events).rows)).ok
            <==> !StoredPastALoss(events) && StampsKept(render, Run(h, events).rows)
  {
    InsertedRowsVerifyIff(h, events);
    RunKeepsTip(h, events);
    ReadBackVerifiesIff(h, render, Run(h, events).rows);
  }

  predicate EndsInZ(ts: string) {
    ts != "" && ts[|ts| - 1] == 'Z'
  }

  /** The logger writes stamps that end in Z. */
  ghost predicate ZuluStamps(events: seq<Event>) {
    forall i :: 0 <= i < |events| && events[i].Log? ==> EndsInZ(events[i].ts)
  }

  lemma {:induction false} InsertedStamps(rows: seq<Entry>, e: Entry)
    requires EndsInZ(e.fields.ts) && forall i :: 0 <= i < |rows| ==> EndsInZ(rows[i].fields.ts)
    ensures forall i :: 0 <= i < |InsertRow(rows, e)| ==> EndsInZ(InsertRow(rows, e)[i].fields.ts)
  {
    if rows != [] && SeqOf(rows[|rows| - 1]) > SeqOf(e) {
      InsertedStamps(rows[..|rows| - 1], e);
    }
  }

  lemma {:induction false} RowsEndInZ(h: Hasher, events: seq<Event>)
    requires ZuluStamps(events)
    ensures forall i :: 0 <= i < |Run(h, events).rows| ==> EndsInZ(Run(h, events).rows[i].fields.ts)
  {
    if events != [] {
      RowsEndInZ(h, Front(events));
      if Last(events).Log? {
        InsertedStamps(Run(h, Front(events)).rows, NewEntry(h, Run(h, Front(events)), Last(events)));
      }
    }
  }

  /** With the stamps the logger writes and a column that renders an offset instead of Z, no
      non-empty stored log verifies, whatever the run: the verdict names the first row read. */
  lemma RenderedLogNeverVerifies(h: Hasher, render: string -> string, events: seq<Event>, limit: int)
    requires CollisionFree(h) && ZuluStamps(events) && forall ts :: !EndsInZ(render(ts))
    requires Run(h, events).rows != []
    ensures var read := LoadEvents(render, Run(h, events).rows, limit);
            read != [] && VerdictOn(h, read).brokenAt == read[0].fields.seqNo && !VerdictOn(h, read).ok
  {
    var rows := LastN(Run(h, events).rows, if limit < 1 then 1 else limit);
    var read := ReadBack(render, rows);
    RunKeepsTip(h, events);
    RowsEndInZ(h, events);
    assert RowGood(h, rows[0]) && EndsInZ(rows[0].fields.ts);
    RenderedGoodIff(h, render, rows[0]);
    assert FirstBroken(h, read, 0);
    BrokenAtFirst(h, read, 0);
  }

  // ----- the verification route

  /** The table when it can be read and is not empty, else the entries in memory. */
  function RouteEntries(render: string -> string, s: LogState, limit: int, readable: bool): seq<Entry> {
    if readable && LoadEvents(render, s.rows, limit) != [] then LoadEvents(render, s.rows, limit) else s.memory
  }

  /** The route counts, and takes the root hash of, the rows it loads, or the entries in memory when
      there are none or they cannot be read. */
  lemma RouteCounts(h: Hasher, render: string -> string, s: LogState, limit: int, readable: bool)
    ensures var loaded := LastN(s.rows, if limit < 1 then 1 else limit);
            var seen := if !readable || s.rows == [] then s.memory else loaded;
            var v := VerdictOn(h, RouteEntries(render, s, limit, readable));
            v.count == |seen| && v.rootHash == if seen == [] then "GENESIS" else seen[|seen| - 1].hash
  {
  }

  /** Over every run, head reads failing or not, the route reports ok exactly when it falls back
      to memory, or the rows it loads are linked and keep their stamps. */
  lemma RouteOkIff(h: Hasher, render: string -> string, events: seq<Event>, limit: int, readable: bool)
    requires CollisionFree(h)
    ensures var s := Run(h, events);
            var loaded := LastN(s.rows, if limit < 1 then 1 else limit);
            VerdictOn(h, RouteEntries(render, s, limit, readable)).ok
            <==> !readable || s.rows == [] || (Intact(h, loaded) && StampsKept(render, loaded))
  {
    var s := Run(h, events);
    var loaded := LastN(s.rows, if limit < 1 then 1 else limit);
    RunKeepsTip(h, events);
    MemoryAlwaysVerifies(h, events);
    assert RowsGood(h, loaded);
    ReadBackVerifiesIff(h, render, loaded);
  }

  lemma RunSnoc(h: Hasher, events: seq<Event>, e: Event)
    ensures Run(h, events + [e]) == Step(h, Run(h, events), e)
  {
    assert (events + [e])[..|events|] == events;
  }

  /** With one row stored and no head read, the next entry takes the number of that row and is
      not stored; the one after it is, linked to the entry that is missing. */
  lemma UnreadHeadSteps(h: Hasher, e: Event, g: Event)
    requires CollisionFree(h) && e.Log? && g.Log? && g.stored && e.ts != g.ts
    ensures var first := NewEntry(h, Fresh, e);
            var after := Step(h, Step(h, LogState([], None, [first]), g), g).rows;
            |after| == 2 && after[0] == first && after[1].fields.seqNo.Some? && after[1].prevHash != first.hash
  {
    var first := NewEntry(h, Fresh, e);
    var boot := LogState([], None, [first]);
    var lost := NewEntry(h, boot, g);
    assert lost.fields.seqNo == Some(1) && lost.prevHash == GENESIS;
    assert Step(h, boot, g) == LogState([lost], None, [first]);
    assert lost.hash != first.hash;
  }

  lemma UnreadHeadRun(h: Hasher, e: Event, g: Event)
    requires e.Log? && e.stored && g.Log?
    ensures Run(h, [e, Restart(false), g, g])
            == Step(h, Step(h, LogState([], None, [NewEntry(h, Fresh, e)]), g), g)
  {
    RunSnoc(h, [], e);
    RunSnoc(h, [e], Restart(false));
    RunSnoc(h, [e, Restart(false)], g);
    RunSnoc(h, [e, Restart(false), g], g);
    assert [] + [e] == [e] && [e] + [Restart(false)] == [e, Restart(false)];
    assert [e, Restart(false)] + [g] == [e, Restart(false), g];
    assert [e, Restart(false), g] + [g] == [e, Restart(false), g, g];
  }

  /** The assumption on head reads is needed: one failed read at boot is enough to break
      the stored log although every append succeeds. */
  lemma UnreadHeadBreaksStoredLog(h: Hasher, render: string -> string, e: Event, g: Event)
    requires CollisionFree(h) && e.Log? && g.Log? && e.stored && g.stored && e.ts != g.ts
    ensures !VerdictOn(h, ReadBack(render, Run(h, [e, Restart(false), g, g]).rows)).ok
  {
    UnreadHeadRun(h, e, g);
    UnreadHeadSteps(h, e, g);
    var rows := Run(h, [e, Restart(false), g, g]).rows;
    assert !GoodAt(h, rows, 1);
    RunKeepsTip(h, [e, Restart(false), g, g]);
    ReadBackVerifiesIff(h, render, rows);
  }
}
