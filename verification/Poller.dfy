/** One poll cycle: ingest with retries, and the SourceSync bookkeeping around it; and the
    older `run_ingestion_cycle` that does the same for a list of collectors. */
module Poller {
  import opened Wrappers
  import opened OrderedDict
  import opened Repository

  /** The mapper yields every entity type but SourceSync. */
  type Observed = e: Entity | !e.SyncEntity? witness RowEntity(Alerts, "", "")

  type Envelope = seq<Observed>
  type Record = seq<Envelope>
  type Batch = seq<Record>

  datatype Report = Report(records: nat, envelopes: nat, entities: nat)

  /** How an attempt goes: undisturbed, or something raises once `afterSaves` entities have
      been saved (at the latest, after the last one). */
  datatype Weather = Clear | Fails(afterSaves: nat, error: string)

  datatype Outcome =
    | Skipped
    | Succeeded(startedAt: int, report: Report)
    | Failed(startedAt: int, attempts: nat, error: string)

  // ----- ingest

  function Concat<T>(xs: seq<seq<T>>): seq<T> {
    if xs == [] then [] else Concat(xs[..|xs| - 1]) + xs[|xs| - 1]
  }

  function Entities(batch: Batch): seq<Observed> {
    Concat(Concat(batch))
  }

  function FullReport(batch: Batch): Report {
    Report(|batch|, |Concat(batch)|, |Entities(batch)|)
  }

  /** How many entities of the stream an attempt saves. */
  function Reach(es: seq<Observed>, weather: Weather): (n: nat)
    ensures n <= |es|
  {
    if weather.Fails? && weather.afterSaves < |es| then weather.afterSaves else |es|
  }

  lemma ConcatSnoc<T>(xs: seq<seq<T>>, i: nat)
    requires i < |xs|
    ensures Concat(xs[..i + 1]) == Concat(xs[..i]) + xs[i]
  {
    assert xs[..i + 1][..i] == xs[..i];
  }

  lemma {:induction false} ConcatAppend<T>(xs: seq<seq<T>>, ys: seq<seq<T>>)
    ensures Concat(xs + ys) == Concat(xs) + Concat(ys)
  {
    if ys == [] {
      assert xs + ys == xs;
    } else {
      var front, last := ys[..|ys| - 1], ys[|ys| - 1];
      assert (xs + ys)[..|xs + ys| - 1] == xs + front;
      ConcatAppend(xs, front);
      assert Concat(xs) + Concat(front) + last == Concat(xs) + (Concat(front) + last);
    }
  }

  lemma {:induction false} ConcatPrefix<T>(xs: seq<seq<T>>, i: nat)
    requires i <= |xs|
    ensures Concat(xs[..i]) <= Concat(xs)
  {
    assert xs == xs[..i] + xs[i..];
    ConcatAppend(xs[..i], xs[i..]);
  }

  /** What the stream of a batch is: one envelope is its own entities, and what comes later in a
      record, or in a later record, comes later in the stream. */
  lemma StreamOrder(a: Batch, b: Batch, r: Record, q: Record, envelope: Envelope)
    ensures Entities([[envelope]]) == envelope
    ensures Entities([r + q]) == Entities([r]) + Entities([q])
    ensures Entities(a + b) == Entities(a) + Entities(b)
  {
    ConcatOne(envelope);
    ConcatOne([envelope]);
    ConcatOne(r + q);
    ConcatOne(r);
    ConcatOne(q);
    ConcatAppend(r, q);
    ConcatAppend(a, b);
    ConcatAppend(Concat(a), Concat(b));
  }

  lemma ConcatOne<T>(xs: seq<T>)
    ensures Concat([xs]) == xs
  {
    assert [xs][..0] == [];
    assert Concat<T>([]) + xs == xs;
  }

  lemma EntitiesSnoc(batch: Batch, i: nat)
    requires i < |batch|
    ensures Entities(batch[..i + 1]) == Entities(batch[..i]) + Concat(batch[i])
    ensures Entities(batch[..i + 1]) <= Entities(batch)
  {
    ConcatSnoc(batch, i);
    ConcatAppend(Concat(batch[..i]), batch[i]);
    assert batch == batch[..i + 1] + batch[i + 1..];
    ConcatAppend(batch[..i + 1], batch[i + 1..]);
    ConcatAppend(Concat(batch[..i + 1]), Concat(batch[i + 1..]));
  }

  /** Of `es`, what an attempt saves that had already saved `already` entities; it raises
      when that is not all. */
  predicate Raises(es: seq<Observed>, weather: Weather, already: nat) {
    weather.Fails? && weather.afterSaves < already + |es|
  }

  predicate Within(weather: Weather, already: nat) {
    weather.Fails? ==> already <= weather.afterSaves
  }

  function Part(es: seq<Observed>, weather: Weather, already: nat): seq<Observed>
    requires Within(weather, already)
  {
    if Raises(es, weather, already) then es[..weather.afterSaves - already] else es
  }

  lemma PartOfMore(p: seq<Observed>, q: seq<Observed>, weather: Weather, already: nat)
    requires Within(weather, already) && !Raises(p, weather, already)
    ensures Within(weather, already + |p|)
    ensures Raises(p + q, weather, already) <==> Raises(q, weather, already + |p|)
    ensures Part(p + q, weather, already) == p + Part(q, weather, already + |p|)
  {
  }

  lemma PartOfLonger(p: seq<Observed>, es: seq<Observed>, weather: Weather, already: nat)
    requires Within(weather, already) && p <= es && Raises(p, weather, already)
    ensures Raises(es, weather, already) && Part(es, weather, already) == Part(p, weather, already)
  {
  }

  method IngestEnvelope(repo: InMemoryRepository, envelope: Envelope, weather: Weather, already: nat)
    returns (raised: bool)
    requires Within(weather, already)
    modifies repo
    ensures raised == Raises(envelope, weather, already)
    ensures repo.Contents() == SaveAll(old(repo.Contents()), Part(envelope, weather, already))
  {
    ghost var start := repo.Contents();
    for k := 0 to |envelope|
      invariant Within(weather, already + k)
      invariant repo.Contents() == SaveAll(start, envelope[..k])
    {
      if weather.Fails? && weather.afterSaves == already + k {
        return true;
      }
      repo.SaveEntity(envelope[k]);
      assert envelope[..k + 1][..k] == envelope[..k];
    }
    assert envelope[..|envelope|] == envelope;
    return false;
  }

  method IngestRecord(repo: InMemoryRepository, record: Record, weather: Weather, already: nat)
    returns (raised: bool, envelopes: nat, entities: nat)
    requires Within(weather, already)
    modifies repo
    ensures raised == Raises(Concat(record), weather, already)
    ensures repo.Contents() == SaveAll(old(repo.Contents()), Part(Concat(record), weather, already))
    ensures !raised ==> envelopes == |record| && entities == already + |Concat(record)|
  {
    ghost var start := repo.Contents();
    envelopes, entities := 0, already;
    assert record[..0] == [];
    for j := 0 to |record|
      invariant envelopes == j && entities == already + |Concat(record[..j])|
      invariant Within(weather, entities)
      invariant repo.Contents() == SaveAll(start, Concat(record[..j]))
    {
      envelopes := envelopes + 1;
      ghost var saved := Concat(record[..j]);
      raised := IngestEnvelope(repo, record[j], weather, entities);
      ConcatSnoc(record, j);
      PartOfMore(saved, record[j], weather, already);
      SaveAllAppend(start, saved, Part(record[j], weather, entities));
      if raised {
        ConcatPrefix(record, j + 1);
        PartOfLonger(saved + record[j], Concat(record), weather, already);
        return;
      }
      entities := entities + |record[j]|;
    }
    assert record[..|record|] == record;
    raised := false;
  }

  method Ingest(repo: InMemoryRepository, batch: Batch, weather: Weather) returns (report: Option<Report>)
    modifies repo
    ensures repo.Contents()
            == SaveAll(old(repo.Contents()), Entities(batch)[..Reach(Entities(batch), weather)])
    ensures report == if weather.Clear? then Some(FullReport(batch)) else None
    ensures report.Some? ==>
              && report.value.records == |batch|
              && report.value.envelopes == |Concat(batch)|
              && report.value.entities == |Concat(Concat(batch))|
  {
    ghost var start, es := repo.Contents(), Entities(batch);
    var records, envelopes, entities := 0, 0, 0;
    assert batch[..0] == [];
    for i := 0 to |batch|
      invariant records == i && envelopes == |Concat(batch[..i])| && entities == |Entities(batch[..i])|
      invariant Within(weather, entities)
      invariant repo.Contents() == SaveAll(start, Entities(batch[..i]))
    {
      records := records + 1;
      ghost var saved := Entities(batch[..i]);
      var raised, ofRecord, total := IngestRecord(repo, batch[i], weather, entities);
      ConcatSnoc(batch, i);
      EntitiesSnoc(batch, i);
      PartOfMore(saved, Concat(batch[i]), weather, 0);
      SaveAllAppend(start, saved, Part(Concat(batch[i]), weather, entities));
      if raised {
        PartOfLonger(Entities(batch[..i + 1]), es, weather, 0);
        assert Part(es, weather, 0) == es[..Reach(es, weather)];
        return None;
      }
      envelopes, entities := envelopes + ofRecord, total;
    }
    assert batch[..|batch|] == batch;
    assert es[..|es|] == es;
    if weather.Fails? {
      return None;
    }
    return Some(Report(records, envelopes, entities));
  }

  // ----- one cycle

  function SuccessSync(source: string, previous: Option<SourceSync>, startedAt: int, report: Report): SourceSync {
    SourceSync(source, Success, startedAt, Some(startedAt),
               if previous.Some? then previous.value.lastError else None,
               OkRecords(report.records), report.records, report.envelopes, report.entities)
  }

  function ErrorSync(source: string, previous: Option<SourceSync>, startedAt: int, message: Message): SourceSync {
    SourceSync(source, Error, startedAt,
               if previous.Some? then previous.value.lastSuccess else None, Some(startedAt), message,
               if previous.Some? then previous.value.records else 0,
               if previous.Some? then previous.value.envelopes else 0,
               if previous.Some? then previous.value.entities else 0)
  }

  /** The number of attempts that fail before the first clear one. */
  function Failures(weathers: seq<Weather>): (n: nat)
    ensures n <= |weathers|
    ensures n < |weathers| ==> weathers[n].Clear?
    ensures forall i :: 0 <= i < n ==> weathers[i].Fails?
  {
    if weathers == [] || weathers[0].Clear? then 0 else 1 + Failures(weathers[1..])
  }

  function Reaches(es: seq<Observed>, weathers: seq<Weather>): (r: seq<nat>)
    ensures |r| == |weathers| && forall i :: 0 <= i < |r| ==> r[i] <= |es|
  {
    seq(|weathers|, i requires 0 <= i < |weathers| => Reach(es, weathers[i]))
  }

  datatype Cycle = Cycle(source: string, collector: Option<Batch>, weathers: seq<Weather>, startedAt: int)

  /** At least the first attempt is made: `max_retries` is never negative. */
  predicate Attempted(c: Cycle) {
    c.weathers != []
  }

  function OutcomeOf(c: Cycle): Outcome
    requires Attempted(c)
  {
    if c.collector.None? then Skipped
    else if Failures(c.weathers) < |c.weathers| then Succeeded(c.startedAt, FullReport(c.collector.value))
    else Failed(c.startedAt, |c.weathers|, c.weathers[|c.weathers| - 1].error)
  }

  /** The bookkeeping a cycle leaves for its source. */
  function NextSync(source: string, previous: Option<SourceSync>, outcome: Outcome): Option<SourceSync> {
    match outcome
    case Skipped => previous
    case Succeeded(startedAt, report) => Some(SuccessSync(source, previous, startedAt, report))
    case Failed(startedAt, attempts, error) =>
      Some(ErrorSync(source, previous, startedAt, FailedAfter(attempts, error)))
  }

  function AfterCycle(repo: Repo, c: Cycle): Repo
    requires Attempted(c)
  {
    if c.collector.None? then repo
    else
      Save(Ingested(repo, c.collector.value, c.weathers),
           SyncEntity(NextSync(c.source, Get(repo.syncs, c.source), OutcomeOf(c)).value))
  }

  lemma AttemptFails(start: Repo, es: seq<Observed>, weathers: seq<Weather>, i: nat)
    requires i < |weathers|
    ensures AfterAttempts(start, es, Reaches(es, weathers[..i + 1]))
            == SaveAll(AfterAttempts(start, es, Reaches(es, weathers[..i])), es[..Reach(es, weathers[i])])
  {
    assert Reaches(es, weathers[..i + 1])[..i] == Reaches(es, weathers[..i]);
  }

  /** What the retry loop has saved when it leaves. */
  function Ingested(start: Repo, batch: Batch, weathers: seq<Weather>): Repo {
    var es, n := Entities(batch), Failures(weathers);
    var failed := AfterAttempts(start, es, Reaches(es, weathers[..n]));
    if n < |weathers| then SaveAll(failed, es) else failed
  }

  method RetryIngest(repo: InMemoryRepository, batch: Batch, weathers: seq<Weather>)
    returns (report: Option<Report>, lastError: string)
    requires weathers != []
    modifies repo
    ensures repo.Contents() == Ingested(old(repo.Contents()), batch, weathers)
    ensures report == if Failures(weathers) < |weathers| then Some(FullReport(batch)) else None
    ensures report.None? ==> lastError == weathers[|weathers| - 1].error
  {
    ghost var start, es := repo.Contents(), Entities(batch);
    lastError := "";
    assert Reaches(es, weathers[..0]) == [];
    for attempt := 0 to |weathers|
      invariant forall i :: 0 <= i < attempt ==> weathers[i].Fails?
      invariant repo.Contents() == AfterAttempts(start, es, Reaches(es, weathers[..attempt]))
      invariant attempt > 0 ==> lastError == weathers[attempt - 1].error
    {
      report := Ingest(repo, batch, weathers[attempt]);
      if report.Some? {
        assert Failures(weathers) == attempt;
        assert es[..|es|] == es;
        return;
      }
      lastError := weathers[attempt].error;
      AttemptFails(start, es, weathers, attempt);
    }
    assert Failures(weathers) == |weathers|;
    report := None;
  }

  method RunCycle(repo: InMemoryRepository, c: Cycle) returns (outcome: Outcome)
    requires Attempted(c)
    modifies repo
    ensures repo.Contents() == AfterCycle(old(repo.Contents()), c)
    ensures outcome == OutcomeOf(c)
    ensures outcome.Skipped? <==> c.collector.None?
    ensures outcome.Succeeded? <==> c.collector.Some? && exists i :: 0 <= i < |c.weathers| && c.weathers[i].Clear?
    ensures outcome.Succeeded? ==> outcome.startedAt == c.startedAt && outcome.report.records == |c.collector.value|
    ensures outcome.Failed? ==>
              && outcome.startedAt == c.startedAt && outcome.attempts == |c.weathers|
              && c.weathers[|c.weathers| - 1].Fails? && outcome.error == c.weathers[|c.weathers| - 1].error
  {
    if c.collector.None? {
      return Skipped;
    }
    var previous := Get(repo.syncs, c.source);
    var attempts := |c.weathers|;
    var report, lastError := RetryIngest(repo, c.collector.value, c.weathers);
    if report.Some? {
      repo.SaveEntity(SyncEntity(SuccessSync(c.source, previous, c.startedAt, report.value)));
      return Succeeded(c.startedAt, report.value);
    }
    repo.SaveEntity(SyncEntity(ErrorSync(c.source, previous, c.startedAt, FailedAfter(attempts, lastError))));
    return Failed(c.startedAt, attempts, lastError);
  }

  /** Retry absorption: a cycle in which some attempt succeeds, whatever the failed ones had
      saved, leaves the repository of the cycle whose only attempt succeeds, and reports the
      counters of the one full run. */
  lemma RetriedCycleIsCleanCycle(repo: Repo, c: Cycle)
    requires Attempted(c) && c.collector.Some? && Failures(c.weathers) < |c.weathers|
    ensures AfterCycle(repo, c) == AfterCycle(repo, c.(weathers := [Clear]))
    ensures OutcomeOf(c) == Succeeded(c.startedAt, FullReport(c.collector.value))
  {
    var es, n := Entities(c.collector.value), Failures(c.weathers);
    FailedAttemptsAbsorbed(repo, es, Reaches(es, c.weathers[..n]));
    assert Reaches(es, [Clear][..0]) == [];
  }

  // ----- the stored sync is a fold of the history

  function AfterCycles(repo: Repo, cycles: seq<Cycle>): Repo
    requires forall i :: 0 <= i < |cycles| ==> Attempted(cycles[i])
  {
    if cycles == [] then repo else AfterCycle(AfterCycles(repo, cycles[..|cycles| - 1]), cycles[|cycles| - 1])
  }

  /** What the cycles of one source came to, in order. */
  function HistoryOf(source: string, cycles: seq<Cycle>): seq<Outcome>
    requires forall i :: 0 <= i < |cycles| ==> Attempted(cycles[i])
  {
    if cycles == [] then []
    else
      var c := cycles[|cycles| - 1];
      HistoryOf(source, cycles[..|cycles| - 1]) + if c.source == source then [OutcomeOf(c)] else []
  }

  datatype Kind = AnyRun | ASuccess | AFailure

  predicate Is(outcome: Outcome, kind: Kind) {
    match kind
    case AnyRun => !outcome.Skipped?
    case ASuccess => outcome.Succeeded?
    case AFailure => outcome.Failed?
  }

  /** The latest outcome of a kind. */
  function Latest(history: seq<Outcome>, kind: Kind): (found: Option<Outcome>)
    ensures found.None? ==> forall i :: 0 <= i < |history| ==> !Is(history[i], kind)
    ensures found.Some? ==> exists i :: 0 <= i < |history| && history[i] == found.value && Is(history[i], kind)
                                        && forall j :: i < j < |history| ==> !Is(history[j], kind)
  {
    if history == [] then None
    else if Is(history[|history| - 1], kind) then Some(history[|history| - 1])
    else Latest(history[..|history| - 1], kind)
  }

  function StartOf(outcome: Option<Outcome>): Option<int> {
    match outcome
    case Some(Succeeded(startedAt, _)) => Some(startedAt)
    case Some(Failed(startedAt, _, _)) => Some(startedAt)
    case _ => None
  }

  /** The row a history must leave: none before the first run; then the latest run decides
      status, time and text, the latest success `last_success_at` and the counters, the
      latest failure `last_error_at`. */
  predicate Reflects(source: string, sync: Option<SourceSync>, history: seq<Outcome>) {
    match (sync, Latest(history, AnyRun))
    case (None, None) => true
    case (Some(row), Some(Succeeded(startedAt, report))) =>
      row.status.Success? && row.message == OkRecords(report.records) && ReflectsTimes(source, row, startedAt, history)
    case (Some(row), Some(Failed(startedAt, attempts, error))) =>
      row.status.Error? && row.message == FailedAfter(attempts, error) && ReflectsTimes(source, row, startedAt, history)
    case _ => false
  }

  predicate ReflectsTimes(source: string, row: SourceSync, startedAt: int, history: seq<Outcome>) {
    && row.source == source
    && row.lastSync == startedAt
    && row.lastSuccess == StartOf(Latest(history, ASuccess))
    && row.lastError == StartOf(Latest(history, AFailure))
    && Report(row.records, row.envelopes, row.entities)
       == (match Latest(history, ASuccess) case Some(Succeeded(_, report)) => report case _ => Report(0, 0, 0))
  }

  lemma LatestSnoc(history: seq<Outcome>, outcome: Outcome, kind: Kind)
    ensures Latest(history + [outcome], kind) == if Is(outcome, kind) then Some(outcome) else Latest(history, kind)
  {
    assert (history + [outcome])[..|history|] == history;
  }

  lemma NextSyncReflects(source: string, sync: Option<SourceSync>, history: seq<Outcome>, outcome: Outcome)
    requires Reflects(source, sync, history)
    ensures Reflects(source, NextSync(source, sync, outcome), history + [outcome])
  {
    LatestSnoc(history, outcome, AnyRun);
    LatestSnoc(history, outcome, ASuccess);
    LatestSnoc(history, outcome, AFailure);
  }

  lemma {:induction false} SaveAllKeepsSyncs(repo: Repo, es: seq<Observed>)
    ensures SaveAll(repo, es).syncs == repo.syncs
  {
    if es != [] {
      SaveAllKeepsSyncs(repo, es[..|es| - 1]);
    }
  }

  lemma {:induction false} AttemptsKeepSyncs(repo: Repo, es: seq<Observed>, reached: seq<nat>)
    requires forall i :: 0 <= i < |reached| ==> reached[i] <= |es|
    ensures AfterAttempts(repo, es, reached).syncs == repo.syncs
  {
    if reached != [] {
      var front := reached[..|reached| - 1];
      AttemptsKeepSyncs(repo, es, front);
      SaveAllKeepsSyncs(AfterAttempts(repo, es, front), es[..reached[|reached| - 1]]);
    }
  }

  lemma AfterCycleSync(repo: Repo, c: Cycle, source: string)
    requires Attempted(c)
    ensures Get(AfterCycle(repo, c).syncs, source)
            == if c.source == source then NextSync(source, Get(repo.syncs, source), OutcomeOf(c))
               else Get(repo.syncs, source)
  {
    if c.collector.Some? {
      var es, n := Entities(c.collector.value), Failures(c.weathers);
      var reached := Reaches(es, c.weathers[..n]);
      AttemptsKeepSyncs(repo, es, reached);
      SaveAllKeepsSyncs(AfterAttempts(repo, es, reached), es);
    }
  }

  lemma CycleReflects(repo: Repo, c: Cycle, source: string, history: seq<Outcome>)
    requires Attempted(c) && Reflects(source, Get(repo.syncs, source), history)
    ensures Reflects(source, Get(AfterCycle(repo, c).syncs, source),
                     history + if c.source == source then [OutcomeOf(c)] else [])
  {
    AfterCycleSync(repo, c, source);
    if c.source == source {
      NextSyncReflects(source, Get(repo.syncs, source), history, OutcomeOf(c));
    } else {
      assert history + [] == history;
    }
  }

  /** After any sequence of successful, failed and skipped cycles, of any sources, the stored
      sync of a source is the fold of that source's history. */
  lemma {:induction false} SyncIsFoldOfHistory(repo: Repo, cycles: seq<Cycle>, source: string)
    requires forall i :: 0 <= i < |cycles| ==> Attempted(cycles[i])
    requires source !in repo.syncs.items
    ensures Reflects(source, Get(AfterCycles(repo, cycles).syncs, source), HistoryOf(source, cycles))
  {
    if cycles != [] {
      var front := cycles[..|cycles| - 1];
      SyncIsFoldOfHistory(repo, front, source);
      CycleReflects(AfterCycles(repo, front), cycles[|cycles| - 1], source, HistoryOf(source, front));
    }
  }

  // ----- the legacy cycle

  datatype Collector = Collector(source: string, batch: Batch, weather: Weather)

  function LegacySync(c: Collector, previous: Option<SourceSync>, startedAt: int): SourceSync {
    if c.weather.Clear? then SuccessSync(c.source, previous, startedAt, FullReport(c.batch))
    else ErrorSync(c.source, previous, startedAt, Raised(c.weather.error))
  }

  function AfterLegacy(repo: Repo, collectors: seq<Collector>, startedAt: int): Repo {
    if collectors == [] then repo
    else
      var before, c := AfterLegacy(repo, collectors[..|collectors| - 1], startedAt), collectors[|collectors| - 1];
      var es := Entities(c.batch);
      Save(SaveAll(before, es[..Reach(es, c.weather)]),
           SyncEntity(LegacySync(c, Get(before.syncs, c.source), startedAt)))
  }

  /** The syncs are read once; from then on the local copy is kept up to date by hand. */
  method RunIngestionCycle(repo: InMemoryRepository, collectors: seq<Collector>, startedAt: int)
    modifies repo
    ensures repo.Contents() == AfterLegacy(old(repo.Contents()), collectors, startedAt)
  {
    ghost var start := repo.Contents();
    var existing := repo.syncs.items;
    assert collectors[..0] == [];
    for i := 0 to |collectors|
      invariant repo.Contents() == AfterLegacy(start, collectors[..i], startedAt)
      invariant existing == repo.syncs.items
    {
      var c := collectors[i];
      ghost var before, es := repo.Contents(), Entities(c.batch);
      var previous := if c.source in existing then Some(existing[c.source]) else None;
      var report := Ingest(repo, c.batch, c.weather);
      SaveAllKeepsSyncs(before, es[..Reach(es, c.weather)]);
      var sync;
      if report.Some? {
        sync := SuccessSync(c.source, previous, startedAt, report.value);
      } else {
        sync := ErrorSync(c.source, previous, startedAt, Raised(c.weather.error));
      }
      repo.SaveEntity(SyncEntity(sync));
      existing := existing[c.source := sync];
      assert collectors[..i + 1][..i] == collectors[..i];
    }
    assert collectors[..|collectors|] == collectors;
  }

  function AsCycles(collectors: seq<Collector>, startedAt: int): (cycles: seq<Cycle>)
    ensures |cycles| == |collectors| && forall i :: 0 <= i < |cycles| ==> Attempted(cycles[i])
  {
    seq(|collectors|, i requires 0 <= i < |collectors| =>
      Cycle(collectors[i].source, Some(collectors[i].batch), [collectors[i].weather], startedAt))
  }

  /** Reads the legacy error text as the text the poller would have written. */
  function PollerText(sync: SourceSync): SourceSync {
    match sync.message
    case Raised(error) => sync.(message := FailedAfter(1, error))
    case _ => sync
  }

  ghost predicate SameUpToText(legacy: Repo, current: Repo) {
    && legacy.hosts == current.hosts && legacy.rows == current.rows
    && legacy.syncs.keys == current.syncs.keys && legacy.syncs.items.Keys == current.syncs.items.Keys
    && forall s :: s in legacy.syncs.items ==> PollerText(legacy.syncs.items[s]) == PollerText(current.syncs.items[s])
  }

  lemma {:induction false} SaveAllSameUpToText(legacy: Repo, current: Repo, es: seq<Observed>)
    requires SameUpToText(legacy, current)
    ensures SameUpToText(SaveAll(legacy, es), SaveAll(current, es))
  {
    if es != [] {
      SaveAllSameUpToText(legacy, current, es[..|es| - 1]);
    }
  }

  lemma OneAttempt(repo: Repo, c: Cycle)
    requires c.collector.Some? && |c.weathers| == 1
    ensures var es := Entities(c.collector.value);
            AfterCycle(repo, c)
            == Save(SaveAll(repo, es[..Reach(es, c.weathers[0])]),
                    SyncEntity(NextSync(c.source, Get(repo.syncs, c.source), OutcomeOf(c)).value))
  {
    var es := Entities(c.collector.value);
    var w := c.weathers[0];
    assert Reaches(es, c.weathers)[..0] == [];
    assert es[..|es|] == es;
    if w.Clear? {
      assert Failures(c.weathers) == 0;
    } else {
      assert Failures(c.weathers) == 1 && c.weathers[..1] == c.weathers;
      assert AfterAttempts(repo, es, Reaches(es, c.weathers)) == SaveAll(repo, es[..Reach(es, w)]);
    }
  }

  lemma SavedSyncSameUpToText(l: Repo, r: Repo, was: SourceSync, now: SourceSync)
    requires SameUpToText(l, r) && was.source == now.source && PollerText(was) == PollerText(now)
    ensures SameUpToText(Save(l, SyncEntity(was)), Save(r, SyncEntity(now)))
  {
  }

  lemma LegacySyncMatches(c: Collector, was: Option<SourceSync>, now: Option<SourceSync>, startedAt: int)
    requires was.Some? == now.Some? && (was.Some? ==> PollerText(was.value) == PollerText(now.value))
    ensures var cycle := Cycle(c.source, Some(c.batch), [c.weather], startedAt);
            var next := NextSync(c.source, now, OutcomeOf(cycle)).value;
            PollerText(LegacySync(c, was, startedAt)) == PollerText(next) && next.source == c.source
  {
    assert Failures([c.weather]) == if c.weather.Clear? then 0 else 1;
  }

  lemma LegacyStepMatches(l: Repo, r: Repo, c: Collector, startedAt: int)
    requires SameUpToText(l, r)
    ensures var es := Entities(c.batch);
            SameUpToText(
              Save(SaveAll(l, es[..Reach(es, c.weather)]),
                   SyncEntity(LegacySync(c, Get(l.syncs, c.source), startedAt))),
              AfterCycle(r, Cycle(c.source, Some(c.batch), [c.weather], startedAt)))
  {
    var es, cycle := Entities(c.batch), Cycle(c.source, Some(c.batch), [c.weather], startedAt);
    var part := es[..Reach(es, c.weather)];
    SaveAllSameUpToText(l, r, part);
    OneAttempt(r, cycle);
    LegacySyncMatches(c, Get(l.syncs, c.source), Get(r.syncs, c.source), startedAt);
    SavedSyncSameUpToText(SaveAll(l, part), SaveAll(r, part), LegacySync(c, Get(l.syncs, c.source), startedAt),
                          NextSync(c.source, Get(r.syncs, c.source), OutcomeOf(cycle)).value);
  }

  /** The legacy cycle leaves what the pollers leave with zero retries: the same entities and
      the same syncs, up to the words "failed after 1 attempt(s)" in an error text. */
  lemma {:induction false} LegacyMatchesPollers(legacy: Repo, current: Repo, collectors: seq<Collector>, startedAt: int)
    requires SameUpToText(legacy, current)
    ensures SameUpToText(AfterLegacy(legacy, collectors, startedAt),
                         AfterCycles(current, AsCycles(collectors, startedAt)))
  {
    if collectors != [] {
      var front, c := collectors[..|collectors| - 1], collectors[|collectors| - 1];
      var cycles := AsCycles(collectors, startedAt);
      assert cycles[..|cycles| - 1] == AsCycles(front, startedAt);
      LegacyMatchesPollers(legacy, current, front, startedAt);
      LegacyStepMatches(AfterLegacy(legacy, front, startedAt), AfterCycles(current, AsCycles(front, startedAt)),
                        c, startedAt);
    }
  }
}
