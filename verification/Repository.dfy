/** The normalized entity store: `InMemoryRepository.save` and what saving a stream of
    entities, in full or in part and more than once, leaves behind. */
module Repository {
  import opened Wrappers
  import opened OrderedDict
  import opened Hosts

  datatype SyncStatus = Success | Error

  /** The texts the cycles write; an error text arrives already truncated. */
  datatype Message = OkRecords(records: nat) | FailedAfter(attempts: nat, error: string) | Raised(error: string)

  datatype SourceSync = SourceSync(
    source: string, status: SyncStatus, lastSync: int, lastSuccess: Option<int>, lastError: Option<int>,
    message: Message, records: nat, envelopes: nat, entities: nat)

  /** The entity types that `save` stores whole under their own id. */
  datatype Table =
    | HostAliases | Alerts | Vulnerabilities | QueryResults | Observations | ControlChecks
    | DirectoryAccounts | PrivilegeBindings | GroupMemberships | AccountObservations

  datatype Entity =
    | HostEntity(host: Host)
    | SyncEntity(sync: SourceSync)
    | RowEntity(table: Table, id: string, body: string)

  /** `rows` keys the ten dictionaries of plain entities by (type, id); the order inside each
      type is the order among its keys. */
  datatype Repo = Repo(hosts: Dict<string, Host>, syncs: Dict<string, SourceSync>, rows: Dict<(Table, string), string>)

  function Save(repo: Repo, entity: Entity): Repo {
    match entity
    case HostEntity(host) => repo.(hosts := OrderedDict.Merge(repo.hosts, host.hostId, host, Hosts.Merge))
    case SyncEntity(sync) => repo.(syncs := Put(repo.syncs, sync.source, sync))
    case RowEntity(table, id, body) => repo.(rows := Put(repo.rows, (table, id), body))
  }

  function SaveAll(repo: Repo, entities: seq<Entity>): Repo {
    if entities == [] then repo
    else Save(SaveAll(repo, entities[..|entities| - 1]), entities[|entities| - 1])
  }

  class InMemoryRepository {
    var hosts: Dict<string, Host>
    var syncs: Dict<string, SourceSync>
    var rows: Dict<(Table, string), string>

    function Contents(): Repo
      reads this
    {
      Repo(hosts, syncs, rows)
    }

    constructor ()
      ensures Contents() == Repo(Empty(), Empty(), Empty())
    {
      hosts, syncs, rows := Empty(), Empty(), Empty();
    }

    method SaveEntity(entity: Entity)
      modifies this
      ensures Contents() == Save(old(Contents()), entity)
    {
      match entity {
        case HostEntity(host) => MergeHost(host);
        case SyncEntity(sync) => syncs := Put(syncs, sync.source, sync);
        case RowEntity(table, id, body) => rows := Put(rows, (table, id), body);
      }
    }

    method MergeHost(incoming: Host)
      modifies this
      ensures Contents() == Save(old(Contents()), HostEntity(incoming))
    {
      var existing := Get(hosts, incoming.hostId);
      if existing.None? {
        hosts := Put(hosts, incoming.hostId, incoming);
        return;
      }
      hosts := Put(hosts, incoming.hostId, Hosts.Merge(existing.value, incoming));
    }
  }

  /** The dictionary of hosts is the memory side of the backend comparison. */
  lemma {:induction false} HostsAreMemory(saves: seq<Host>)
    ensures var entities := seq(|saves|, i requires 0 <= i < |saves| => HostEntity(saves[i]));
            SaveAll(Repo(Empty(), Empty(), Empty()), entities).hosts.items
            == MemoryAfter(saves)
  {
    if saves != [] {
      var front := saves[..|saves| - 1];
      var es := seq(|saves|, i requires 0 <= i < |saves| => HostEntity(saves[i]));
      assert es[..|es| - 1] == seq(|front|, i requires 0 <= i < |front| => HostEntity(front[i]));
      HostsAreMemory(front);
    }
  }

  // ----- replaying a stream

  function HostSaves(entities: seq<Entity>): seq<(string, Host)> {
    if entities == [] then []
    else
      var e := entities[|entities| - 1];
      HostSaves(entities[..|entities| - 1]) + if e.HostEntity? then [(e.host.hostId, e.host)] else []
  }

  function SyncSaves(entities: seq<Entity>): seq<(string, SourceSync)> {
    if entities == [] then []
    else
      var e := entities[|entities| - 1];
      SyncSaves(entities[..|entities| - 1]) + if e.SyncEntity? then [(e.sync.source, e.sync)] else []
  }

  function RowSaves(entities: seq<Entity>): seq<((Table, string), string)> {
    if entities == [] then []
    else
      var e := entities[|entities| - 1];
      RowSaves(entities[..|entities| - 1]) + if e.RowEntity? then [((e.table, e.id), e.body)] else []
  }

  function Overwrite<V>(existing: V, incoming: V): V {
    incoming
  }

  lemma {:induction false} HostsOfSaveAll(repo: Repo, es: seq<Entity>)
    ensures SaveAll(repo, es).hosts == MergeAll(repo.hosts, HostSaves(es), Hosts.Merge)
  {
    if es != [] {
      var front, e := es[..|es| - 1], es[|es| - 1];
      HostsOfSaveAll(repo, front);
      if e.HostEntity? {
        assert HostSaves(es)[..|HostSaves(front)|] == HostSaves(front);
      } else {
        assert HostSaves(es) == HostSaves(front);
      }
    }
  }

  lemma {:induction false} SyncsOfSaveAll(repo: Repo, es: seq<Entity>)
    ensures SaveAll(repo, es).syncs == MergeAll(repo.syncs, SyncSaves(es), Overwrite)
  {
    if es != [] {
      var front, e := es[..|es| - 1], es[|es| - 1];
      SyncsOfSaveAll(repo, front);
      if e.SyncEntity? {
        assert SyncSaves(es)[..|SyncSaves(front)|] == SyncSaves(front);
      } else {
        assert SyncSaves(es) == SyncSaves(front);
      }
    }
  }

  lemma {:induction false} RowsOfSaveAll(repo: Repo, es: seq<Entity>)
    ensures SaveAll(repo, es).rows == MergeAll(repo.rows, RowSaves(es), Overwrite)
  {
    if es != [] {
      var front, e := es[..|es| - 1], es[|es| - 1];
      RowsOfSaveAll(repo, front);
      if e.RowEntity? {
        assert RowSaves(es)[..|RowSaves(front)|] == RowSaves(front);
      } else {
        assert RowSaves(es) == RowSaves(front);
      }
    }
  }

  lemma HostMergeLaterCopyWins()
    ensures LaterCopyWins(Hosts.Merge)
  {
  }

  lemma ReplayAbsorbed(repo: Repo, es: seq<Entity>)
    ensures SaveAll(SaveAll(repo, es), es) == SaveAll(repo, es)
  {
    var once := SaveAll(repo, es);
    HostReplay(repo, es);
    SyncsOfSaveAll(repo, es);
    SyncsOfSaveAll(once, es);
    RowsOfSaveAll(repo, es);
    RowsOfSaveAll(once, es);
    ReplayChangesNothing(repo.syncs, SyncSaves(es), Overwrite);
    ReplayChangesNothing(repo.rows, RowSaves(es), Overwrite);
  }

  lemma HostReplay(repo: Repo, es: seq<Entity>)
    ensures SaveAll(SaveAll(repo, es), es).hosts == SaveAll(repo, es).hosts
  {
    HostsOfSaveAll(repo, es);
    HostsOfSaveAll(SaveAll(repo, es), es);
    HostMergeLaterCopyWins();
    ReplayChangesNothing(repo.hosts, HostSaves(es), Hosts.Merge);
  }

  lemma {:induction false} SaveAllAppend(repo: Repo, p: seq<Entity>, q: seq<Entity>)
    ensures SaveAll(repo, p + q) == SaveAll(SaveAll(repo, p), q)
  {
    if q == [] {
      assert p + q == p;
    } else {
      assert (p + q)[..|p + q| - 1] == p + q[..|q| - 1];
      SaveAllAppend(repo, p, q[..|q| - 1]);
    }
  }

  /** A stream saved after one of its own prefixes leaves what a clean run leaves: the same
      hosts, rows and insertion order. */
  lemma PrefixAbsorbed(repo: Repo, es: seq<Entity>, k: nat)
    requires k <= |es|
    ensures SaveAll(SaveAll(repo, es[..k]), es) == SaveAll(repo, es)
  {
    var p, q := es[..k], es[k..];
    assert es == p + q;
    SaveAllAppend(SaveAll(repo, p), p, q);
    ReplayAbsorbed(repo, p);
    SaveAllAppend(repo, p, q);
  }

  /** The repository after attempts that saved prefixes of lengths `reached`. */
  function AfterAttempts(repo: Repo, es: seq<Entity>, reached: seq<nat>): Repo
    requires forall i :: 0 <= i < |reached| ==> reached[i] <= |es|
  {
    if reached == [] then repo
    else SaveAll(AfterAttempts(repo, es, reached[..|reached| - 1]), es[..reached[|reached| - 1]])
  }

  /** Any number of failed attempts, wherever each stopped, is absorbed by a complete one. */
  lemma {:induction false} FailedAttemptsAbsorbed(repo: Repo, es: seq<Entity>, reached: seq<nat>)
    requires forall i :: 0 <= i < |reached| ==> reached[i] <= |es|
    ensures SaveAll(AfterAttempts(repo, es, reached), es) == SaveAll(repo, es)
  {
    if reached != [] {
      var front := reached[..|reached| - 1];
      PrefixAbsorbed(AfterAttempts(repo, es, front), es, reached[|reached| - 1]);
      FailedAttemptsAbsorbed(repo, es, front);
    }
  }

  lemma {:induction false} AttemptsOfPrefix(repo: Repo, es: seq<Entity>, k: nat, reached: seq<nat>)
    requires k <= |es| && forall i :: 0 <= i < |reached| ==> reached[i] <= k
    ensures AfterAttempts(repo, es, reached) == AfterAttempts(repo, es[..k], reached)
  {
    if reached != [] {
      var last := reached[|reached| - 1];
      AttemptsOfPrefix(repo, es, k, reached[..|reached| - 1]);
      assert es[..k][..last] == es[..last];
    }
  }

  /** When every attempt fails but the last one came at least as far as the others, they leave
      what that last one alone would have left. */
  lemma FurthestLastAbsorbs(repo: Repo, es: seq<Entity>, reached: seq<nat>)
    requires reached != [] && forall i :: 0 <= i < |reached| ==> reached[i] <= reached[|reached| - 1] <= |es|
    ensures AfterAttempts(repo, es, reached) == SaveAll(repo, es[..reached[|reached| - 1]])
  {
    var front, last := reached[..|reached| - 1], reached[|reached| - 1];
    AttemptsOfPrefix(repo, es, last, front);
    FailedAttemptsAbsorbed(repo, es[..last], front);
  }

  /** The last value that a stream saves under a key of the plain entities. */
  function LastSaved(es: seq<Entity>, key: (Table, string)): Option<string> {
    if es == [] then None
    else
      var e := es[|es| - 1];
      if e.RowEntity? && (e.table, e.id) == key then Some(e.body) else LastSaved(es[..|es| - 1], key)
  }

  /** The last value that attempts saved under a key: that of the latest one that reached it. */
  function LastReached(es: seq<Entity>, reached: seq<nat>, key: (Table, string)): Option<string>
    requires forall i :: 0 <= i < |reached| ==> reached[i] <= |es|
  {
    if reached == [] then None
    else
      var saved := LastSaved(es[..reached[|reached| - 1]], key);
      if saved.Some? then saved else LastReached(es, reached[..|reached| - 1], key)
  }

  lemma {:induction false} RowAfterSaves(repo: Repo, es: seq<Entity>, key: (Table, string))
    ensures Get(SaveAll(repo, es).rows, key)
            == if LastSaved(es, key).Some? then LastSaved(es, key) else Get(repo.rows, key)
  {
    if es != [] {
      RowAfterSaves(repo, es[..|es| - 1], key);
    }
  }

  lemma {:induction false} RowAfterAttempts(repo: Repo, es: seq<Entity>, reached: seq<nat>, key: (Table, string))
    requires forall i :: 0 <= i < |reached| ==> reached[i] <= |es|
    ensures Get(AfterAttempts(repo, es, reached).rows, key)
            == if LastReached(es, reached, key).Some? then LastReached(es, reached, key) else Get(repo.rows, key)
  {
    if reached != [] {
      var front, last := reached[..|reached| - 1], reached[|reached| - 1];
      RowAfterAttempts(repo, es, front, key);
      RowAfterSaves(AfterAttempts(repo, es, front), es[..last], key);
    }
  }

  lemma {:induction false} LongerSavesMore(es: seq<Entity>, k: nat, m: nat, key: (Table, string))
    requires k <= m <= |es| && LastSaved(es[..k], key).Some?
    ensures LastSaved(es[..m], key).Some?
    decreases m
  {
    if k < m {
      LongerSavesMore(es, k, m - 1, key);
      assert es[..m][..m - 1] == es[..m - 1];
    }
  }

  lemma {:induction false} ReachedIsSaved(es: seq<Entity>, reached: seq<nat>, m: nat, key: (Table, string))
    requires m <= |es| && m in reached && forall i :: 0 <= i < |reached| ==> reached[i] <= m
    ensures LastReached(es, reached, key).Some? <==> LastSaved(es[..m], key).Some?
  {
    var front, last := reached[..|reached| - 1], reached[|reached| - 1];
    if LastSaved(es[..last], key).Some? {
      LongerSavesMore(es, last, m, key);
    } else if m in front {
      ReachedIsSaved(es, front, m, key);
    } else {
      NothingReached(es, front, m, key);
    }
  }

  lemma {:induction false} NothingReached(es: seq<Entity>, reached: seq<nat>, m: nat, key: (Table, string))
    requires m <= |es| && LastSaved(es[..m], key).None? && forall i :: 0 <= i < |reached| ==> reached[i] <= m
    ensures LastReached(es, reached, key).None?
  {
    if reached != [] {
      var last := reached[|reached| - 1];
      if LastSaved(es[..last], key).Some? {
        LongerSavesMore(es, last, m, key);
      }
      NothingReached(es, reached[..|reached| - 1], m, key);
    }
  }

  /** When every attempt fails, a plain entity ends as after the furthest attempt alone exactly when
      the value that attempt saves last under its key is the one that the latest attempt to reach
      the key saves last: it is rolled back just when that one stopped at an older value. */
  lemma RolledBackIff(repo: Repo, es: seq<Entity>, reached: seq<nat>, m: nat, key: (Table, string))
    requires m <= |es| && m in reached && forall i :: 0 <= i < |reached| ==> reached[i] <= m
    ensures Get(AfterAttempts(repo, es, reached).rows, key) == Get(SaveAll(repo, es[..m]).rows, key)
            <==> LastReached(es, reached, key) == LastSaved(es[..m], key)
  {
    RowAfterAttempts(repo, es, reached, key);
    RowAfterSaves(repo, es[..m], key);
    ReachedIsSaved(es, reached, m, key);
  }

  /** The complete attempt matters: when every attempt fails, one that stops earlier can put
      back a value that an attempt before it had already replaced. */
  lemma ShorterFailureRollsBack(repo: Repo, table: Table, id: string)
    ensures var es := [RowEntity(table, id, "old"), RowEntity(table, id, "new")];
            && SaveAll(repo, es).rows.items[(table, id)] == "new"
            && AfterAttempts(repo, es, [2, 1]).rows.items[(table, id)] == "old"
  {
    var es := [RowEntity(table, id, "old"), RowEntity(table, id, "new")];
    assert es[..2] == es && es[..1] == [es[0]] && es[..1][..0] == [];
    assert [2, 1][..1] == [2];
    assert AfterAttempts(repo, es, [2]) == SaveAll(repo, es);
  }
}
