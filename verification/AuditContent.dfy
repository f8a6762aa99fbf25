/** What the audit log says: that its entries carry the words of the calls that logged them, in
    memory, in the table, and when calls race. */
module AuditContent {
  import opened Wrappers
  import opened AuditChain
  import opened AuditLog
  import opened AuditAppend
  import Race = AuditRace

  /** The entry carries the four texts of the call. */
  predicate Says(e: Entry, l: Event) {
    && l.Log?
    && e.fields.ts == l.ts && e.fields.username == l.username
    && e.fields.action == l.action && e.fields.detail == l.detail
  }

  /** The calls since the last boot. */
  function CallsSinceBoot(events: seq<Event>): seq<Event> {
    if events == [] || events[|events| - 1].Restart? then []
    else CallsSinceBoot(events[..|events| - 1]) + [events[|events| - 1]]
  }

  /** Entry for entry. */
  ghost predicate AllSay(es: seq<Entry>, calls: seq<Event>) {
    |es| == |calls| && forall k :: 0 <= k < |es| ==> Says(es[k], calls[k])
  }

  lemma {:induction false} SinceBootSays(h: Hasher, events: seq<Event>)
    ensures AllSay(SinceBoot(h, events), CallsSinceBoot(events))
  {
    if events != [] && !events[|events| - 1].Restart? {
      SinceBootSays(h, events[..|events| - 1]);
    }
  }

  /** The entries carry the words of the last 2000 calls, in their order. */
  ghost predicate Remembers(memory: seq<Entry>, calls: seq<Event>) {
    && |memory| == (if |calls| < 2000 then |calls| else 2000)
    && forall j :: 0 <= j < |memory| ==> Says(memory[j], calls[|calls| - |memory| + j])
  }

  /** Over every run memory holds, for each of the last 2000 calls since boot and in their order,
      the entry that carries its words. */
  lemma MemorySaysWhatWasLogged(h: Hasher, events: seq<Event>)
    ensures Remembers(Run(h, events).memory, CallsSinceBoot(events))
  {
    SinceBootInvariant(h, events);
    SinceBootSays(h, events);
    LastSay(SinceBoot(h, events), CallsSinceBoot(events));
  }

  lemma LastSay(es: seq<Entry>, calls: seq<Event>)
    requires AllSay(es, calls)
    ensures Remembers(LastN(es, MEMORY_LIMIT), calls)
  {
  }

  /** A call that the table accepts leaves there the entry it left in memory, which carries its
      words, unless the number was taken; then the table stays as it was. */
  lemma StoredRowSays(h: Hasher, events: seq<Event>, e: Event)
    requires e.Log? && e.stored
    ensures var before, after := Run(h, events), Run(h, events + [e]);
            && after.memory != []
            && var logged := after.memory[|after.memory| - 1];
               && Says(logged, e)
               && (if Taken(before.rows, SeqOf(logged)) then after.rows == before.rows
                   else logged in after.rows && |after.rows| == |before.rows| + 1)
  {
    RunSnoc(h, events, e);
    RowsSorted(h, events);
    var s, entry := Run(h, events), NewEntry(h, Run(h, events), e);
    var k := InsertPlaces(s.rows, entry);
    if !Taken(s.rows, SeqOf(entry)) {
      assert Splice(s.rows, k, entry)[k] == entry;
    }
  }

  /** Some accepted call said what the row says. */
  ghost predicate Told(events: seq<Event>, row: Entry) {
    exists i :: StoredAt(events, i) && Says(row, events[i])
  }

  lemma ToldLater(events: seq<Event>, e: Event, row: Entry)
    requires Told(events, row)
    ensures Told(events + [e], row)
  {
    var i :| StoredAt(events, i) && Says(row, events[i]);
    assert StoredAt(events + [e], i) && (events + [e])[i] == events[i];
  }

  lemma {:induction false} InsertedFrom(rows: seq<Entry>, e: Entry)
    ensures forall row :: row in InsertRow(rows, e) ==> row in rows || row == e
  {
    if rows != [] && SeqOf(rows[|rows| - 1]) > SeqOf(e) {
      InsertedFrom(rows[..|rows| - 1], e);
    }
  }

  /** Over every run nothing is in the table that no accepted call said. */
  lemma {:induction false} RowsSayWhatWasLogged(h: Hasher, events: seq<Event>)
    ensures forall row :: row in Run(h, events).rows ==> Told(events, row)
  {
    if events != [] {
      var before, e := events[..|events| - 1], events[|events| - 1];
      assert events == before + [e];
      RowsSayWhatWasLogged(h, before);
      forall row | row in Run(h, events).rows
        ensures Told(events, row)
      {
        if row in Run(h, before).rows {
          ToldLater(before, e, row);
        } else {
          InsertedFrom(Run(h, before).rows, NewEntry(h, Run(h, before), e));
          assert StoredAt(events, |before|) && Says(row, events[|before|]);
        }
      }
    }
  }

  /** The same holds of calls that race: what a call looks up and appends carries its own words. */
  lemma RacedEntrySays(h: Hasher, s: Race.Race, m: Race.Move)
    requires m.Read? && m.thread !in s.calls
    ensures var made := Race.Next(h, s, m);
            && m.thread in made.calls && made.calls[m.thread].Made?
            && Says(made.calls[m.thread].entry, Log(m.ts, m.username, m.action, m.detail, true))
            && var appended := Race.Next(h, made, Race.Append(m.thread));
               appended.memory != [] && appended.memory[|appended.memory| - 1] == made.calls[m.thread].entry
  {
  }
}
