/** `_log_action` called from several threads: it takes no lock, so other calls can come between
    its look at the last entry, its append to memory and its insert into the table. */
module AuditRace {
  import opened Wrappers
  import opened AuditChain
  import opened AuditLog
  import opened AuditAppend

  /** Where a call is: its entry is made, when `readAt` entries had been appended since boot, or
      it is appended and still to be stored. */
  datatype Call = Made(entry: Entry, readAt: nat) | Appended(entry: Entry)

  /** `all` is everything appended since boot and `memory` what is kept of it; `froms[i]` is the
      `readAt` of the call that appended `all[i]`. */
  datatype Race = Race(head: Option<Head>, memory: seq<Entry>, all: seq<Entry>, froms: seq<nat>,
                       calls: map<nat, Call>, rows: seq<Entry>)

  datatype Move =
    | Read(thread: nat, ts: string, username: string, action: string, detail: string)
    | Append(thread: nat)
    | Store(thread: nat, available: bool)
    | Boot(headRead: bool)                  // calls under way are lost with the process

  const Booted := Race(None, [], [], [], map[], [])

  function AsLogState(s: Race): LogState {
    LogState(s.memory, s.head, s.rows)
  }

  function EntryFor(h: Hasher, s: Race, m: Move): Entry
    requires m.Read?
  {
    NewEntry(h, AsLogState(s), Log(m.ts, m.username, m.action, m.detail, true))
  }

  /** One move of one thread; a move that is not enabled changes nothing. */
  function Next(h: Hasher, s: Race, m: Move): Race {
    match m
    case Read(t, _, _, _, _) =>
      if t in s.calls then s else s.(calls := s.calls[t := Made(EntryFor(h, s, m), |s.all|)])
    case Append(t) =>
      if t !in s.calls || !s.calls[t].Made? then s
      else
        var c := s.calls[t];
        s.(memory := LastN(s.memory + [c.entry], MEMORY_LIMIT), all := s.all + [c.entry],
           froms := s.froms + [c.readAt], calls := s.calls[t := Appended(c.entry)])
    case Store(t, available) =>
      if t !in s.calls || !s.calls[t].Appended? then s
      else
        s.(calls := s.calls - {t}, rows := if available then InsertRow(s.rows, s.calls[t].entry) else s.rows)
    case Boot(headRead) => Race(if headRead then LatestRow(s.rows) else None, [], [], [], map[], s.rows)
  }

  function Run(h: Hasher, moves: seq<Move>): Race {
    if moves == [] then Booted else Next(h, Run(h, moves[..|moves| - 1]), moves[|moves| - 1])
  }

  // ----- the invariant

  /** What the next entry builds on when `k` entries have been appended since boot. */
  function Basis(head: Option<Head>, all: seq<Entry>, k: nat): (string, int)
    requires k <= |all|
  {
    if k == 0 then Tip(LogState([], head, [])) else (all[k - 1].hash, SeqOf(all[k - 1]) + 1)
  }

  predicate BuiltOn(h: Hasher, head: Option<Head>, all: seq<Entry>, e: Entry, k: nat) {
    RowGood(h, e) && k <= |all| && (e.prevHash, SeqOf(e)) == Basis(head, all, k)
  }

  ghost predicate LogGood(h: Hasher, head: Option<Head>, all: seq<Entry>, froms: seq<nat>) {
    && |froms| == |all|
    && TipGood(h, LogState([], head, []))
    && (forall i :: 0 <= i < |all| ==> froms[i] <= i && BuiltOn(h, head, all, all[i], froms[i]))
    && (forall i :: 0 <= i < |all| ==> SeqOf(all[i]) >= Basis(head, all, 0).1)
  }

  predicate CallGood(h: Hasher, head: Option<Head>, all: seq<Entry>, c: Call) {
    if c.Made? then BuiltOn(h, head, all, c.entry, c.readAt) else RowGood(h, c.entry)
  }

  ghost predicate CallsGood(h: Hasher, head: Option<Head>, all: seq<Entry>, calls: map<nat, Call>) {
    forall t :: t in calls ==> CallGood(h, head, all, calls[t])
  }

  ghost predicate RaceGood(h: Hasher, s: Race) {
    && s.memory == LastN(s.all, MEMORY_LIMIT)
    && LogGood(h, s.head, s.all, s.froms)
    && CallsGood(h, s.head, s.all, s.calls)
    && RowsGood(h, s.rows) && Sorted(s.rows)
  }

  lemma TipIsBasis(head: Option<Head>, all: seq<Entry>, rows: seq<Entry>)
    ensures Tip(LogState(LastN(all, MEMORY_LIMIT), head, rows)) == Basis(head, all, |all|)
  {
    var memory := LastN(all, MEMORY_LIMIT);
    assert all != [] ==> memory[|memory| - 1] == all[|all| - 1];
  }

  lemma ReadBuilds(h: Hasher, s: Race, m: Move)
    requires s.memory == LastN(s.all, MEMORY_LIMIT) && m.Read?
    ensures BuiltOn(h, s.head, s.all, EntryFor(h, s, m), |s.all|)
  {
    TipIsBasis(s.head, s.all, s.rows);
  }

  lemma BasisNumber(h: Hasher, head: Option<Head>, all: seq<Entry>, froms: seq<nat>, k: nat)
    requires LogGood(h, head, all, froms) && k <= |all|
    ensures Basis(head, all, k).1 >= Basis(head, all, 0).1
  {
  }

  lemma StillBuilt(h: Hasher, head: Option<Head>, all: seq<Entry>, e: Entry, k: nat, more: Entry)
    requires BuiltOn(h, head, all, e, k)
    ensures BuiltOn(h, head, all + [more], e, k)
  {
  }

  lemma AppendKeepsLog(h: Hasher, head: Option<Head>, all: seq<Entry>, froms: seq<nat>, e: Entry, k: nat)
    requires LogGood(h, head, all, froms) && BuiltOn(h, head, all, e, k)
    ensures LogGood(h, head, all + [e], froms + [k])
  {
    BasisNumber(h, head, all, froms, k);
    var longer, longerFroms := all + [e], froms + [k];
    assert Basis(head, longer, 0) == Basis(head, all, 0);
    forall i | 0 <= i < |longer|
      ensures longerFroms[i] <= i && BuiltOn(h, head, longer, longer[i], longerFroms[i])
    {
      StillBuilt(h, head, all, longer[i], longerFroms[i], e);
    }
  }

  lemma AppendKeepsCalls(h: Hasher, head: Option<Head>, all: seq<Entry>, e: Entry, calls: map<nat, Call>)
    requires CallsGood(h, head, all, calls)
    ensures CallsGood(h, head, all + [e], calls)
  {
    forall t | t in calls
      ensures CallGood(h, head, all + [e], calls[t])
    {
      assert CallGood(h, head, all, calls[t]);
    }
  }

  lemma AppendKeepsGood(h: Hasher, s: Race, t: nat)
    requires RaceGood(h, s) && t in s.calls && s.calls[t].Made?
    ensures RaceGood(h, Next(h, s, Append(t)))
  {
    var c := s.calls[t];
    assert CallGood(h, s.head, s.all, c);
    LastNSnoc(s.all, c.entry, MEMORY_LIMIT);
    AppendKeepsLog(h, s.head, s.all, s.froms, c.entry, c.readAt);
    AppendKeepsCalls(h, s.head, s.all, c.entry, s.calls);
  }

  /** Whoever boots over good rows finds a head that no entry with a later number repeats. */
  lemma BootsAreGood(h: Hasher, rows: seq<Entry>, headRead: bool)
    requires RowsGood(h, rows)
    ensures TipGood(h, LogState([], if headRead then LatestRow(rows) else None, []))
  {
    if rows != [] {
      var last := rows[|rows| - 1];
      assert RowGood(h, last);
      assert last.hash == h(last.prevHash, last.fields) && last.fields.seqNo == Some(SeqOf(last));
    }
  }

  lemma NextKeepsGood(h: Hasher, s: Race, m: Move)
    requires RaceGood(h, s)
    ensures RaceGood(h, Next(h, s, m))
  {
    match m {
      case Read(t, _, _, _, _) =>
        ReadBuilds(h, s, m);
      case Append(t) =>
        if t in s.calls && s.calls[t].Made? {
          AppendKeepsGood(h, s, t);
        }
      case Store(t, available) =>
        if t in s.calls && s.calls[t].Appended? {
          assert CallGood(h, s.head, s.all, s.calls[t]);
          InsertKeepsRowsGood(h, s.rows, s.calls[t].entry);
          InsertKeepsSorted(s.rows, s.calls[t].entry);
        }
      case Boot(headRead) =>
        BootsAreGood(h, s.rows, headRead);
    }
  }

  lemma {:induction false} RunGood(h: Hasher, moves: seq<Move>)
    ensures RaceGood(h, Run(h, moves))
  {
    if moves != [] {
      RunGood(h, moves[..|moves| - 1]);
      NextKeepsGood(h, Run(h, moves[..|moves| - 1]), moves[|moves| - 1]);
    }
  }

  // ----- memory

  /** Entry `i` was made for an entry equal to the one that came to stand before it. */
  predicate MadeForPrevious(s: Race, i: nat)
    requires 0 < i < |s.all| == |s.froms|
  {
    0 < s.froms[i] <= |s.all| && s.all[s.froms[i] - 1] == s.all[i - 1]
  }

  lemma SameHashSameEntry(h: Hasher, a: Entry, b: Entry)
    requires CollisionFree(h) && RowGood(h, a) && RowGood(h, b)
    ensures a.hash == b.hash <==> a == b
  {
  }

  /** No entry appended since boot has the hash that the first of them links to. */
  lemma BootLinkIsNew(h: Hasher, head: Option<Head>, e: Entry)
    requires CollisionFree(h) && TipGood(h, LogState([], head, [])) && RowGood(h, e)
    requires SeqOf(e) >= Tip(LogState([], head, [])).1
    ensures e.hash != Tip(LogState([], head, [])).0
  {
    var tip := Tip(LogState([], head, []));
    if tip.0 != GENESIS {
      var p, f :| tip.0 == h(p, f) && f.seqNo == Some(tip.1 - 1);
    }
  }

  lemma LinkIff(h: Hasher, head: Option<Head>, all: seq<Entry>, e: Entry, k: nat, before: Entry)
    requires CollisionFree(h) && TipGood(h, LogState([], head, [])) && BuiltOn(h, head, all, e, k)
    requires RowGood(h, before) && SeqOf(before) >= Tip(LogState([], head, [])).1
    requires k > 0 ==> RowGood(h, all[k - 1])
    ensures e.prevHash == before.hash <==> k > 0 && all[k - 1] == before
  {
    if k > 0 {
      SameHashSameEntry(h, all[k - 1], before);
    } else {
      BootLinkIsNew(h, head, before);
    }
  }

  /** What entry `i`, the one before it and the one it was made for have in common. */
  predicate Placed(h: Hasher, s: Race, i: nat)
    requires 0 < i < |s.all| == |s.froms|
  {
    && s.froms[i] <= i && BuiltOn(h, s.head, s.all, s.all[i], s.froms[i])
    && RowGood(h, s.all[i - 1]) && SeqOf(s.all[i - 1]) >= Tip(LogState([], s.head, [])).1
    && (s.froms[i] > 0 ==> RowGood(h, s.all[s.froms[i] - 1]))
  }

  lemma EntryPlaced(h: Hasher, s: Race, i: nat)
    requires LogGood(h, s.head, s.all, s.froms) && 0 < i < |s.all|
    ensures Placed(h, s, i)
  {
    assert BuiltOn(h, s.head, s.all, s.all[i - 1], s.froms[i - 1]);
    if s.froms[i] > 0 {
      assert BuiltOn(h, s.head, s.all, s.all[s.froms[i] - 1], s.froms[s.froms[i] - 1]);
    }
  }

  lemma LinksIffMadeForPrevious(h: Hasher, s: Race, i: nat)
    requires CollisionFree(h) && TipGood(h, LogState([], s.head, []))
    requires 0 < i < |s.all| == |s.froms| && Placed(h, s, i)
    ensures s.all[i].prevHash == s.all[i - 1].hash <==> MadeForPrevious(s, i)
  {
    LinkIff(h, s.head, s.all, s.all[i], s.froms[i], s.all[i - 1]);
  }

  /** Every entry that is kept, but the first, was made for an entry equal to the one before it. */
  ghost predicate WindowInOrder(s: Race)
    requires |s.all| == |s.froms| && s.memory == LastN(s.all, MEMORY_LIMIT)
  {
    forall i: nat :: |s.all| - |s.memory| < i < |s.all| ==> MadeForPrevious(s, i)
  }

  lemma WindowGoodAt(h: Hasher, es: seq<Entry>, n: nat, j: nat)
    requires j < |LastN(es, n)|
    ensures var i := |es| - |LastN(es, n)| + j;
            GoodAt(h, LastN(es, n), j)
            <==> es[i].hash == h(es[i].prevHash, es[i].fields) && (j > 0 ==> es[i].prevHash == es[i - 1].hash)
  {
  }

  lemma MemoryGoodIff(h: Hasher, s: Race, j: nat)
    requires CollisionFree(h) && RaceGood(h, s) && j < |s.memory|
    ensures GoodAt(h, s.memory, j) <==> j == 0 || MadeForPrevious(s, |s.all| - |s.memory| + j)
  {
    var i := |s.all| - |s.memory| + j;
    WindowGoodAt(h, s.all, MEMORY_LIMIT, j);
    assert BuiltOn(h, s.head, s.all, s.all[i], s.froms[i]);
    if j > 0 {
      EntryPlaced(h, s, i);
      LinksIffMadeForPrevious(h, s, i);
    }
  }

  lemma MemoryNumbered(h: Hasher, s: Race)
    requires RaceGood(h, s)
    ensures AllNumbered(s.memory)
  {
    forall i | 0 <= i < |s.memory|
      ensures s.memory[i].fields.seqNo.Some?
    {
      var k := |s.all| - |s.memory| + i;
      assert BuiltOn(h, s.head, s.all, s.all[k], s.froms[k]);
    }
  }

  /** Over every interleaving of calls, with restarts, and however much has been truncated:
      memory verifies exactly when every entry it keeps, but the first, was made for an entry
      equal to the one before it. */
  lemma RacedMemoryVerifiesExactly(h: Hasher, moves: seq<Move>)
    requires CollisionFree(h)
    ensures var s := Run(h, moves);
            |s.all| == |s.froms| && s.memory == LastN(s.all, MEMORY_LIMIT)
            && (VerdictOn(h, s.memory).ok <==> WindowInOrder(s))
  {
    var s := Run(h, moves);
    RunGood(h, moves);
    MemoryNumbered(h, s);
    NumberedVerdict(h, s.memory);
    MemoryIntactIff(h, s);
  }

  lemma MemoryIntactIff(h: Hasher, s: Race)
    requires CollisionFree(h) && RaceGood(h, s)
    ensures Intact(h, s.memory) <==> WindowInOrder(s)
  {
    if Intact(h, s.memory) {
      IntactInOrder(h, s);
    } else {
      var j: nat :| j < |s.memory| && !GoodAt(h, s.memory, j);
      MemoryGoodIff(h, s, j);
    }
  }

  lemma IntactInOrder(h: Hasher, s: Race)
    requires CollisionFree(h) && RaceGood(h, s) && Intact(h, s.memory)
    ensures WindowInOrder(s)
  {
    forall i: nat | |s.all| - |s.memory| < i < |s.all|
      ensures MadeForPrevious(s, i)
    {
      var j := i - (|s.all| - |s.memory|);
      assert GoodAt(h, s.memory, j);
      MemoryGoodIff(h, s, j);
    }
  }

  /** No call since boot was appended after another one had come between. */
  ghost predicate Undisturbed(s: Race) {
    forall i :: 0 <= i < |s.froms| ==> s.froms[i] == i
  }

  ghost predicate NumberedTo(s: Race, n: nat)
    requires n <= |s.all|
  {
    forall i :: 0 <= i < n ==> SeqOf(s.all[i]) == Basis(s.head, s.all, 0).1 + i
  }

  lemma UndisturbedStep(h: Hasher, s: Race, i: nat)
    requires |s.all| == |s.froms| && i < |s.all| && NumberedTo(s, i)
    requires s.froms[i] <= i && BuiltOn(h, s.head, s.all, s.all[i], s.froms[i])
    requires i > 0 ==> MadeForPrevious(s, i)
    ensures s.froms[i] == i && NumberedTo(s, i + 1)
  {
    if i > 0 {
      assert SeqOf(s.all[s.froms[i] - 1]) == SeqOf(s.all[i - 1]);
    }
  }

  lemma {:induction false} InOrderMeansUndisturbed(h: Hasher, s: Race, n: nat)
    requires LogGood(h, s.head, s.all, s.froms) && n <= |s.all|
    requires forall i: nat :: 0 < i < n ==> MadeForPrevious(s, i)
    ensures NumberedTo(s, n) && forall i :: 0 <= i < n ==> s.froms[i] == i
  {
    if n > 0 {
      InOrderMeansUndisturbed(h, s, n - 1);
      UndisturbedStep(h, s, n - 1);
    }
  }

  lemma UndisturbedInOrder(s: Race)
    requires |s.all| == |s.froms| && s.memory == LastN(s.all, MEMORY_LIMIT) && Undisturbed(s)
    ensures WindowInOrder(s)
  {
    forall i: nat | 0 < i < |s.all|
      ensures MadeForPrevious(s, i)
    {
    }
  }

  lemma UntruncatedInOrder(h: Hasher, s: Race)
    requires RaceGood(h, s) && |s.all| <= MEMORY_LIMIT && WindowInOrder(s)
    ensures Undisturbed(s)
  {
    InOrderMeansUndisturbed(h, s, |s.all|);
  }

  /** So memory verifies while no call is disturbed; and as long as nothing has been truncated
      it does so only then. */
  lemma RacedMemoryVerifiesIff(h: Hasher, moves: seq<Move>)
    requires CollisionFree(h)
    ensures var s := Run(h, moves);
            && (Undisturbed(s) ==> VerdictOn(h, s.memory).ok)
            && (|s.all| <= MEMORY_LIMIT ==> (VerdictOn(h, s.memory).ok <==> Undisturbed(s)))
  {
    RunGood(h, moves);
    RacedMemoryVerifiesExactly(h, moves);
    var s := Run(h, moves);
    if Undisturbed(s) {
      UndisturbedInOrder(s);
    } else if |s.all| <= MEMORY_LIMIT && WindowInOrder(s) {
      UntruncatedInOrder(h, s);
    }
  }

  // ----- the table

  /** An appended entry that the table accepts is in it afterwards unless its number was taken. */
  lemma StoredUnlessTaken(h: Hasher, moves: seq<Move>, t: nat)
    requires var s := Run(h, moves); t in s.calls && s.calls[t].Appended?
    ensures var s := Run(h, moves);
            var e := s.calls[t].entry;
            e in Next(h, s, Store(t, true)).rows <==> e in s.rows || !Taken(s.rows, SeqOf(e))
  {
    var s := Run(h, moves);
    var e := s.calls[t].entry;
    RunGood(h, moves);
    var k := InsertPlaces(s.rows, e);
    if !Taken(s.rows, SeqOf(e)) {
      assert Splice(s.rows, k, e)[k] == e;
    }
  }

  ghost predicate LinkedUpTo(h: Hasher, moves: seq<Move>, n: nat)
    requires n <= |moves|
  {
    Intact(h, Run(h, moves[..n]).rows)
  }

  /** If move `i` stores an entry, that entry fits the table it finds. */
  ghost predicate StoreFits(h: Hasher, moves: seq<Move>, i: nat)
    requires i < |moves|
  {
    var s, m := Run(h, moves[..i]), moves[i];
    m.Store? && m.available && m.thread in s.calls && s.calls[m.thread].Appended?
    ==> Fits(s.rows, s.calls[m.thread].entry)
  }

  lemma MoveKeepsLinkedIff(h: Hasher, s: Race, m: Move)
    requires CollisionFree(h) && RaceGood(h, s) && Intact(h, s.rows)
    ensures Intact(h, Next(h, s, m).rows)
            <==> (m.Store? && m.available && m.thread in s.calls && s.calls[m.thread].Appended?
                  ==> Fits(s.rows, s.calls[m.thread].entry))
  {
    if m.Store? && m.available && m.thread in s.calls && s.calls[m.thread].Appended? {
      assert CallGood(h, s.head, s.all, s.calls[m.thread]);
      AppendKeepsIntactIff(h, s.rows, s.calls[m.thread].entry);
    }
  }

  ghost predicate AlwaysLinked(h: Hasher, moves: seq<Move>, n: nat)
    requires n <= |moves|
  {
    forall i: nat :: i <= n ==> LinkedUpTo(h, moves, i)
  }

  ghost predicate StoresFit(h: Hasher, moves: seq<Move>, n: nat)
    requires n <= |moves|
  {
    forall i: nat :: i < n ==> StoreFits(h, moves, i)
  }

  lemma AlwaysLinkedSnoc(h: Hasher, moves: seq<Move>, n: nat)
    requires n < |moves|
    ensures AlwaysLinked(h, moves, n + 1) <==> AlwaysLinked(h, moves, n) && LinkedUpTo(h, moves, n + 1)
    ensures StoresFit(h, moves, n + 1) <==> StoresFit(h, moves, n) && StoreFits(h, moves, n)
    ensures AlwaysLinked(h, moves, n) ==> LinkedUpTo(h, moves, n)
  {
  }

  lemma MoveLinkedIff(h: Hasher, moves: seq<Move>, n: nat)
    requires CollisionFree(h) && n < |moves| && LinkedUpTo(h, moves, n)
    ensures LinkedUpTo(h, moves, n + 1) <==> StoreFits(h, moves, n)
  {
    assert moves[..n + 1][..n] == moves[..n] && moves[..n + 1][n] == moves[n];
    RunGood(h, moves[..n]);
    MoveKeepsLinkedIff(h, Run(h, moves[..n]), moves[n]);
  }

  /** Over every interleaving, with failing inserts, restarts and unread heads, the table stays
      linked all along exactly when every stored entry fits the table it finds. */
  lemma {:induction false} RacedRowsLinkedIff(h: Hasher, moves: seq<Move>, n: nat)
    requires CollisionFree(h) && n <= |moves|
    ensures AlwaysLinked(h, moves, n) <==> StoresFit(h, moves, n)
  {
    if n == 0 {
      assert moves[..0] == [];
      assert LinkedUpTo(h, moves, 0);
    } else {
      RacedRowsLinkedIff(h, moves, n - 1);
      AlwaysLinkedSnoc(h, moves, n - 1);
      if AlwaysLinked(h, moves, n - 1) {
        MoveLinkedIff(h, moves, n - 1);
      }
    }
  }

  // ----- two calls that look at the same last entry

  /** The call of thread `t` is over its append. */
  function Through(h: Hasher, s: Race, t: nat): Race {
    Next(h, Next(h, s, Append(t)), Store(t, true))
  }

  /** The table ends where the next entry links. */
  predicate InStep(s: Race) {
    s.rows != [] ==>
      Tip(AsLogState(s)) == (s.rows[|s.rows| - 1].hash, SeqOf(s.rows[|s.rows| - 1]) + 1)
  }

  lemma AppendOne(h: Hasher, s: Race, t: nat)
    requires RaceGood(h, s) && t in s.calls && s.calls[t].Made?
    ensures var r, c := Next(h, s, Append(t)), s.calls[t];
            && RaceGood(h, r) && r.head == s.head && r.rows == s.rows
            && r.all == s.all + [c.entry] && r.froms == s.froms + [c.readAt]
            && r.calls == s.calls[t := Appended(c.entry)]
  {
    AppendKeepsGood(h, s, t);
  }

  lemma StoreOne(h: Hasher, s: Race, t: nat)
    requires RaceGood(h, s) && t in s.calls && s.calls[t].Appended?
    ensures var r := Next(h, s, Store(t, true));
            && RaceGood(h, r)
            && r == s.(calls := s.calls - {t}, rows := InsertRow(s.rows, s.calls[t].entry))
  {
    NextKeepsGood(h, s, Store(t, true));
  }

  /** A whole call of one thread appends its entry and stores it if its number is free. */
  lemma ThroughOne(h: Hasher, s: Race, t: nat)
    requires RaceGood(h, s) && t in s.calls && s.calls[t].Made?
    ensures var r, c := Through(h, s, t), s.calls[t];
            && RaceGood(h, r) && r.head == s.head
            && r.all == s.all + [c.entry] && r.froms == s.froms + [c.readAt] && r.calls == s.calls - {t}
            && r.rows == InsertRow(s.rows, c.entry)
            && Tip(AsLogState(r)) == (c.entry.hash, SeqOf(c.entry) + 1)
  {
    var mid, e := Next(h, s, Append(t)), s.calls[t].entry;
    AppendOne(h, s, t);
    StoreOne(h, mid, t);
    assert s.calls[t := Appended(e)] - {t} == s.calls - {t};
    var r := Through(h, s, t);
    TipIsBasis(r.head, r.all, r.rows);
  }

  /** Two calls look at the same last entry and then go through one after the other. */
  function Both(h: Hasher, s: Race, m: Move, n: Move): Race
    requires m.Read? && n.Read?
  {
    Through(h, Through(h, Next(h, Next(h, s, m), n), m.thread), n.thread)
  }

  lemma TwoReads(h: Hasher, s: Race, m: Move, n: Move)
    requires RaceGood(h, s) && m.Read? && n.Read? && m.thread != n.thread && s.calls == map[]
    ensures var r := Next(h, Next(h, s, m), n);
            && RaceGood(h, r)
            && r == s.(calls := map[m.thread := Made(EntryFor(h, s, m), |s.all|),
                                    n.thread := Made(EntryFor(h, s, n), |s.all|)])
  {
    NextKeepsGood(h, s, m);
    NextKeepsGood(h, Next(h, s, m), n);
  }

  lemma FirstThrough(h: Hasher, s: Race, m: Move, n: Move)
    requires RaceGood(h, s) && m.Read? && n.Read? && m.thread != n.thread && s.calls == map[]
    ensures var r, a, b := Through(h, Next(h, Next(h, s, m), n), m.thread), EntryFor(h, s, m), EntryFor(h, s, n);
            && RaceGood(h, r) && r.calls == map[n.thread := Made(b, |s.all|)]
            && r.all == s.all + [a] && r.froms == s.froms + [|s.all|] && r.rows == InsertRow(s.rows, a)
  {
    TwoReads(h, s, m, n);
    ThroughOne(h, Next(h, Next(h, s, m), n), m.thread);
  }

  lemma BothThrough(h: Hasher, s: Race, m: Move, n: Move)
    requires RaceGood(h, s) && m.Read? && n.Read? && m.thread != n.thread && s.calls == map[]
    ensures var r, a, b := Both(h, s, m, n), EntryFor(h, s, m), EntryFor(h, s, n);
            && RaceGood(h, r) && r.calls == map[]
            && r.all == s.all + [a, b] && r.froms == s.froms + [|s.all|, |s.all|]
            && r.rows == InsertRow(InsertRow(s.rows, a), b)
            && Tip(AsLogState(r)) == (b.hash, SeqOf(b) + 1)
  {
    FirstThrough(h, s, m, n);
    ThroughOne(h, Through(h, Next(h, Next(h, s, m), n), m.thread), n.thread);
    OneByOne(s.all, EntryFor(h, s, m), EntryFor(h, s, n));
    OneByOne(s.froms, |s.all|, |s.all|);
  }

  lemma OneByOne<T>(xs: seq<T>, x: T, y: T)
    ensures xs + [x] + [y] == xs + [x, y]
  {
  }

  lemma SecondIsLost(h: Hasher, s: Race, m: Move, n: Move)
    requires RaceGood(h, s) && InStep(s) && m.Read? && n.Read?
    ensures var a, b := EntryFor(h, s, m), EntryFor(h, s, n);
            && InsertRow(s.rows, a) == s.rows + [a] && InsertRow(s.rows + [a], b) == s.rows + [a]
            && RowGood(h, a) && RowGood(h, b) && SeqOf(a) == SeqOf(b)
            && (s.rows != [] ==> a.prevHash == s.rows[|s.rows| - 1].hash)
  {
    ReadBuilds(h, s, m);
    ReadBuilds(h, s, n);
  }

  /** Then a third call comes and goes through. */
  function Third(h: Hasher, two: Race, p: Move): Race
    requires p.Read?
  {
    Through(h, Next(h, two, p), p.thread)
  }

  /** Of two calls that look at the same last entry the second to be stored is lost, without any
      failure, and the call after them, which links to it, leaves the table linked only if the
      two entries are the same. */
  lemma LostEntryBreaksTable(h: Hasher, s: Race, m: Move, n: Move, p: Move)
    requires CollisionFree(h) && RaceGood(h, s) && InStep(s) && Intact(h, s.rows)
    requires m.Read? && n.Read? && p.Read? && m.thread != n.thread && s.calls == map[]
    ensures var a, b, two := EntryFor(h, s, m), EntryFor(h, s, n), Both(h, s, m, n);
            && two.rows == s.rows + [a]
            && Third(h, two, p).rows == s.rows + [a, EntryFor(h, two, p)]
            && (Intact(h, Third(h, two, p).rows) <==> a == b)
  {
    LostRows(h, s, m, n, p);
    SecondIsLost(h, s, m, n);
    LostLinkIff(h, s.rows, EntryFor(h, s, m), EntryFor(h, s, n), EntryFor(h, Both(h, s, m, n), p));
  }

  lemma TwoRows(h: Hasher, s: Race, m: Move, n: Move)
    requires RaceGood(h, s) && InStep(s) && m.Read? && n.Read? && m.thread != n.thread && s.calls == map[]
    ensures Both(h, s, m, n).rows == s.rows + [EntryFor(h, s, m)]
    ensures SeqOf(EntryFor(h, s, m)) == SeqOf(EntryFor(h, s, n))
  {
    BothThrough(h, s, m, n);
    SecondIsLost(h, s, m, n);
  }

  lemma LostRows(h: Hasher, s: Race, m: Move, n: Move, p: Move)
    requires RaceGood(h, s) && InStep(s)
    requires m.Read? && n.Read? && p.Read? && m.thread != n.thread && s.calls == map[]
    ensures var a, b, two := EntryFor(h, s, m), EntryFor(h, s, n), Both(h, s, m, n);
            var c := EntryFor(h, two, p);
            && two.rows == s.rows + [a] && Third(h, two, p).rows == s.rows + [a, c]
            && RowGood(h, c) && c.prevHash == b.hash
  {
    TwoRows(h, s, m, n);
    BothThrough(h, s, m, n);
    var two := Both(h, s, m, n);
    ThirdFollows(h, two, p, EntryFor(h, s, n));
    AppendRow(s.rows, EntryFor(h, s, m), EntryFor(h, two, p));
  }

  lemma ThirdFollows(h: Hasher, two: Race, p: Move, b: Entry)
    requires RaceGood(h, two) && two.calls == map[] && p.Read? && Tip(AsLogState(two)) == (b.hash, SeqOf(b) + 1)
    ensures var c := EntryFor(h, two, p);
            && Third(h, two, p).rows == InsertRow(two.rows, c)
            && RowGood(h, c) && c.prevHash == b.hash && SeqOf(c) == SeqOf(b) + 1
  {
    ReadBuilds(h, two, p);
    NextKeepsGood(h, two, p);
    ThroughOne(h, Next(h, two, p), p.thread);
  }

  lemma AppendRow(rows: seq<Entry>, a: Entry, c: Entry)
    requires SeqOf(a) < SeqOf(c)
    ensures InsertRow(rows + [a], c) == rows + [a, c]
  {
  }

  lemma LostLinkIff(h: Hasher, rows: seq<Entry>, a: Entry, b: Entry, c: Entry)
    requires CollisionFree(h) && Intact(h, rows) && RowGood(h, a) && RowGood(h, b) && RowGood(h, c)
    requires c.prevHash == b.hash && (rows != [] ==> a.prevHash == rows[|rows| - 1].hash)
    ensures Intact(h, rows + [a, c]) <==> a == b
  {
    IntactSnoc(h, rows, a);
    IntactSnoc(h, rows + [a], c);
    assert rows + [a] + [c] == rows + [a, c];
  }

  /** And memory no longer verifies, whatever was in it. */
  lemma TwoReadersBreakMemory(h: Hasher, s: Race, m: Move, n: Move)
    requires CollisionFree(h) && RaceGood(h, s)
    requires m.Read? && n.Read? && m.thread != n.thread && s.calls == map[]
    ensures !VerdictOn(h, Both(h, s, m, n).memory).ok
  {
    var two := Both(h, s, m, n);
    BothThrough(h, s, m, n);
    SecondNotForFirst(h, s, m, n, two);
    MemoryNumbered(h, two);
    NumberedVerdict(h, two.memory);
    MemoryIntactIff(h, two);
  }

  lemma SecondNotForFirst(h: Hasher, s: Race, m: Move, n: Move, two: Race)
    requires RaceGood(h, s) && m.Read? && n.Read?
    requires two.all == s.all + [EntryFor(h, s, m), EntryFor(h, s, n)]
    requires two.froms == s.froms + [|s.all|, |s.all|] && |s.froms| == |s.all|
    ensures !MadeForPrevious(two, |s.all| + 1)
  {
    ReadBuilds(h, s, m);
  }
}
