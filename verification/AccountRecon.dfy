/** Cross-checking local accounts against the directory and the approval list: `reconcile`. */
module AccountRecon {
  import opened Wrappers

  /** A missing `host_type` is None; other missing fields read as the source's defaults. */
  datatype Account = Account(
    username: string, hostType: Option<string>, privileged: bool, sudo: bool, disabled: bool,
    lastLogin: Option<string>, uid: Option<string>, passwordChange: Option<string>, groups: seq<string>)

  datatype Host = Host(key: string, accounts: seq<Account>)
  datatype Person = Person(username: string, status: string)
  datatype Approval = Approval(username: string, scope: string, hostKey: string, kind: string)

  datatype Kind = Leaver | OrphanPriv | UnapprovedSudo | Dormant

  datatype Row = Row(hostKey: string, hostType: string, account: Account, inDirectory: bool,
                     loginAge: Option<nat>, tags: seq<Kind>)

  datatype Finding = Finding(hostKey: string, hostType: string, username: string, privileged: bool, sudo: bool,
                             loginAge: Option<nat>)

  datatype Summary = Summary(hosts: nat, servers: nat, pcs: nat, accounts: nat, privileged: nat, directory: nat,
                             flagged: nat)

  /** `fold` strips and lower-cases, `lower` lower-cases, `parse` reads an ISO time in seconds. */
  datatype Inputs = Inputs(
    fold: string -> string, lower: string -> string, parse: string -> Option<real>,
    directory: seq<Person>, approvals: seq<Approval>, now: real, dormantDays: int)

  const DISABLED := {"disabled", "locked", "deleted", "inactive", "expired"}
  const FINDING_LIMIT := 200
  const DAY := 86400.0

  // ----- the hosts in key order

  predicate AtMost(a: string, b: string) {
    a == "" || (b != "" && (a[0] < b[0] || (a[0] == b[0] && AtMost(a[1..], b[1..]))))
  }

  function Insert(host: Host, hosts: seq<Host>): seq<Host> {
    if hosts == [] || AtMost(host.key, hosts[0].key) then [host] + hosts
    else [hosts[0]] + Insert(host, hosts[1..])
  }

  function SortByKey(hosts: seq<Host>): seq<Host> {
    if hosts == [] then [] else Insert(hosts[0], SortByKey(hosts[1..]))
  }

  /** The accounts of the hosts, each with the key of its host. */
  function Entries(hosts: seq<Host>): seq<(string, Account)> {
    if hosts == [] then [] else Entries(hosts[..|hosts| - 1]) + EntriesOf(hosts[|hosts| - 1])
  }

  function EntriesOf(host: Host): seq<(string, Account)> {
    seq(|host.accounts|, i requires 0 <= i < |host.accounts| => (host.key, host.accounts[i]))
  }

  // ----- directory and approvals

  /** The directory by folded user name; a later entry replaces an earlier one. */
  function ByUser(people: seq<Person>, fold: string -> string): map<string, Person> {
    if people == [] then map[]
    else
      var last := people[|people| - 1];
      var earlier := ByUser(people[..|people| - 1], fold);
      if fold(last.username) == "" then earlier else earlier[fold(last.username) := last]
  }

  /** Entry `i` is the last one for the folded name. */
  ghost predicate LastFor(people: seq<Person>, fold: string -> string, user: string, i: nat)
    requires i < |people|
  {
    fold(people[i].username) == user && forall j :: i < j < |people| ==> fold(people[j].username) != user
  }

  lemma {:induction false} ByUserMeaning(people: seq<Person>, fold: string -> string, user: string)
    ensures user in ByUser(people, fold)
            <==> user != "" && exists i :: 0 <= i < |people| && LastFor(people, fold, user, i)
    ensures forall i :: 0 <= i < |people| && user != "" && LastFor(people, fold, user, i)
              ==> user in ByUser(people, fold) && ByUser(people, fold)[user] == people[i]
  {
    if people != [] {
      var front, n := people[..|people| - 1], |people| - 1;
      ByUserMeaning(front, fold, user);
      if fold(people[n].username) == user {
        assert LastFor(people, fold, user, n);
      } else {
        assert forall i :: 0 <= i < n ==> (LastFor(front, fold, user, i) <==> LastFor(people, fold, user, i));
      }
    }
  }

  function Disabled(inputs: Inputs): set<string> {
    var people := ByUser(inputs.directory, inputs.fold);
    set user | user in people && inputs.lower(people[user].status) in DISABLED
  }

  predicate Covers(a: Approval, user: string, hostKey: string, kind: string, fold: string -> string) {
    && fold(a.username) == user
    && (a.scope == "host" ==> a.hostKey == hostKey)
    && (kind == "sudo" ==> a.kind == "sudo")
  }

  predicate Approved(approvals: seq<Approval>, username: string, hostKey: string, kind: string,
                     fold: string -> string) {
    exists i :: 0 <= i < |approvals| && Covers(approvals[i], fold(username), hostKey, kind, fold)
  }

  method IsApproved(approvals: seq<Approval>, username: string, hostKey: string, kind: string, fold: string -> string)
    returns (approved: bool)
    ensures approved == Approved(approvals, username, hostKey, kind, fold)
    ensures approved <==> exists i :: 0 <= i < |approvals| && fold(approvals[i].username) == fold(username)
                                      && (approvals[i].scope != "host" || approvals[i].hostKey == hostKey)
                                      && (kind != "sudo" || approvals[i].kind == "sudo")
  {
    var user := fold(username);
    for i := 0 to |approvals|
      invariant forall k :: 0 <= k < i ==> !Covers(approvals[k], user, hostKey, kind, fold)
    {
      var a := approvals[i];
      if fold(a.username) != user {
        continue;
      }
      if a.scope == "host" && a.hostKey != hostKey {
        continue;
      }
      if kind == "sudo" && a.kind != "sudo" {
        continue;
      }
      assert Covers(a, user, hostKey, kind, fold);
      return true;
    }
    return false;
  }

  // ----- one row

  function AgeDays(inputs: Inputs, lastLogin: Option<string>): Option<nat> {
    if lastLogin.None? || inputs.parse(lastLogin.value).None? then None
    else
      var days := ((inputs.now - inputs.parse(lastLogin.value).value) / DAY).Floor;
      Some(if days < 0 then 0 else days)
  }

  function Tags(inputs: Inputs, hostKey: string, a: Account): seq<Kind> {
    var user, age := inputs.fold(a.username), AgeDays(inputs, a.lastLogin);
    (if user in Disabled(inputs) then [Leaver] else [])
    + (if a.privileged && user !in ByUser(inputs.directory, inputs.fold)
          && !Approved(inputs.approvals, a.username, hostKey, "account", inputs.fold) then [OrphanPriv] else [])
    + (if a.sudo && !Approved(inputs.approvals, a.username, hostKey, "sudo", inputs.fold) then [UnapprovedSudo] else [])
    + (if age.Some? && age.value > inputs.dormantDays then [Dormant] else [])
  }

  function RowOf(inputs: Inputs, entry: (string, Account)): Row {
    var a := entry.1;
    Row(entry.0, a.hostType.GetOr("server"), a, inputs.fold(a.username) in ByUser(inputs.directory, inputs.fold),
        AgeDays(inputs, a.lastLogin), Tags(inputs, entry.0, a))
  }

  function Rows(inputs: Inputs, entries: seq<(string, Account)>): seq<Row> {
    seq(|entries|, i requires 0 <= i < |entries| => RowOf(inputs, entries[i]))
  }

  function FindingOf(row: Row): Finding {
    Finding(row.hostKey, row.hostType, row.account.username, row.account.privileged, row.account.sudo, row.loginAge)
  }

  /** The findings of one kind, in row order. */
  function Flagged(rows: seq<Row>, kind: Kind): seq<Finding> {
    if rows == [] then []
    else
      var last := rows[|rows| - 1];
      Flagged(rows[..|rows| - 1], kind) + if kind in last.tags then [FindingOf(last)] else []
  }

  function Capped(findings: seq<Finding>): (kept: seq<Finding>)
    ensures kept <= findings && |kept| == if |findings| < 200 then |findings| else 200
  {
    if |findings| <= FINDING_LIMIT then findings else findings[..FINDING_LIMIT]
  }

  // ----- the tables

  /** The tables hold the findings `all` of one kind. */
  ghost predicate Holds(counts: map<Kind, nat>, findings: map<Kind, seq<Finding>>, kind: Kind, all: seq<Finding>) {
    && kind in counts && counts[kind] == |all|
    && kind in findings && findings[kind] == Capped(all)
  }

  ghost predicate Tallied(rows: seq<Row>, counts: map<Kind, nat>, findings: map<Kind, seq<Finding>>) {
    forall kind: Kind :: Holds(counts, findings, kind, Flagged(rows, kind))
  }

  predicate Once(tags: seq<Kind>) {
    forall i, j :: 0 <= i < j < |tags| ==> tags[i] != tags[j]
  }

  function With(all: seq<Finding>, row: Row, tags: seq<Kind>, kind: Kind): seq<Finding> {
    if kind in tags then all + [FindingOf(row)] else all
  }

  lemma FlaggedSnoc(rows: seq<Row>, row: Row, kind: Kind)
    ensures Flagged(rows + [row], kind) == With(Flagged(rows, kind), row, row.tags, kind)
  {
    assert (rows + [row])[..|rows|] == rows;
  }

  method Tally(rows: seq<Row>, row: Row, counts: map<Kind, nat>, findings: map<Kind, seq<Finding>>)
    returns (counted: map<Kind, nat>, found: map<Kind, seq<Finding>>)
    requires Tallied(rows, counts, findings) && Once(row.tags)
    ensures Tallied(rows + [row], counted, found)
  {
    counted, found := counts, findings;
    for i := 0 to |row.tags|
      invariant forall kind: Kind :: Holds(counted, found, kind, With(Flagged(rows, kind), row, row.tags[..i], kind))
    {
      var t := row.tags[i];
      assert row.tags[..i + 1] == row.tags[..i] + [t];
      assert Holds(counted, found, t, Flagged(rows, t)) by {
        assert t !in row.tags[..i];
        assert Holds(counted, found, t, With(Flagged(rows, t), row, row.tags[..i], t));
      }
      counted, found := Record(counted, found, t, FindingOf(row), Flagged(rows, t));
    }
    assert row.tags[..|row.tags|] == row.tags;
    forall kind: Kind
      ensures Holds(counted, found, kind, Flagged(rows + [row], kind))
    {
      FlaggedSnoc(rows, row, kind);
      assert Holds(counted, found, kind, With(Flagged(rows, kind), row, row.tags, kind));
    }
  }

  method Record(counts: map<Kind, nat>, findings: map<Kind, seq<Finding>>, t: Kind, f: Finding, ghost all: seq<Finding>)
    returns (counted: map<Kind, nat>, found: map<Kind, seq<Finding>>)
    requires Holds(counts, findings, t, all)
    ensures Holds(counted, found, t, all + [f])
    ensures forall kind: Kind, others :: kind != t && Holds(counts, findings, kind, others)
                                         ==> Holds(counted, found, kind, others)
  {
    counted, found := counts[t := counts[t] + 1], findings;
    if |found[t]| < FINDING_LIMIT {
      found := found[t := found[t] + [f]];
    }
  }

  function Count(rows: seq<Row>, p: Row -> bool): nat {
    if rows == [] then 0 else Count(rows[..|rows| - 1], p) + if p(rows[|rows| - 1]) then 1 else 0
  }

  predicate IsPrivileged(r: Row) {
    r.account.privileged
  }

  predicate IsFlagged(r: Row) {
    r.tags != []
  }

  function HostsSaying(hosts: seq<Host>, hostType: string): set<string> {
    set h, i | h in hosts && 0 <= i < |h.accounts| && h.accounts[i].hostType == Some(hostType) :: h.key
  }

  method TagAccount(inputs: Inputs, hostKey: string, a: Account, people: map<string, Person>, disabled: set<string>)
    returns (tags: seq<Kind>)
    requires people == ByUser(inputs.directory, inputs.fold) && disabled == Disabled(inputs)
    ensures tags == Tags(inputs, hostKey, a) && Once(tags)
  {
    var user, age := inputs.fold(a.username), AgeDays(inputs, a.lastLogin);
    tags := [];
    if user in disabled {
      tags := tags + [Leaver];
    }
    if a.privileged && user !in people {
      var approved := IsApproved(inputs.approvals, a.username, hostKey, "account", inputs.fold);
      if !approved {
        tags := tags + [OrphanPriv];
      }
    }
    if a.sudo {
      var approved := IsApproved(inputs.approvals, a.username, hostKey, "sudo", inputs.fold);
      if !approved {
        tags := tags + [UnapprovedSudo];
      }
    }
    if age.Some? && age.value > inputs.dormantDays {
      tags := tags + [Dormant];
    }
  }

  function Summarize(inputs: Inputs, hosts: seq<Host>, rows: seq<Row>): Summary {
    Summary(|hosts|, |HostsSaying(hosts, "server")|, |HostsSaying(hosts, "pc")|, |rows|,
            Count(rows, IsPrivileged), |ByUser(inputs.directory, inputs.fold)|,
            Count(rows, IsFlagged))
  }

  lemma NothingTallied(counts: map<Kind, nat>, findings: map<Kind, seq<Finding>>)
    requires counts == map[Leaver := 0, OrphanPriv := 0, UnapprovedSudo := 0, Dormant := 0]
    requires findings == map[Leaver := [], OrphanPriv := [], UnapprovedSudo := [], Dormant := []]
    ensures Tallied([], counts, findings)
  {
    forall kind: Kind
      ensures Holds(counts, findings, kind, Flagged([], kind))
    {
      match kind case Leaver => case OrphanPriv => case UnapprovedSudo => case Dormant =>
    }
  }

  lemma RowsSnoc(inputs: Inputs, done: seq<(string, Account)>, host: Host, i: nat)
    requires i < |host.accounts|
    ensures Rows(inputs, done + EntriesOf(host)[..i + 1])
            == Rows(inputs, done + EntriesOf(host)[..i]) + [RowOf(inputs, (host.key, host.accounts[i]))]
  {
    assert done + EntriesOf(host)[..i + 1] == done + EntriesOf(host)[..i] + [EntriesOf(host)[i]];
  }

  method Reconcile(hosts: seq<Host>, inputs: Inputs)
    returns (rows: seq<Row>, findings: map<Kind, seq<Finding>>, counts: map<Kind, nat>, summary: Summary)
    ensures rows == Rows(inputs, Entries(SortByKey(hosts)))
    ensures Tallied(rows, counts, findings)
    ensures summary == Summarize(inputs, hosts, rows)
  {
    var people := ByUser(inputs.directory, inputs.fold);
    var disabled := Disabled(inputs);
    var sorted := SortByKey(hosts);
    rows := [];
    counts := map[Leaver := 0, OrphanPriv := 0, UnapprovedSudo := 0, Dormant := 0];
    findings := map[Leaver := [], OrphanPriv := [], UnapprovedSudo := [], Dormant := []];
    NothingTallied(counts, findings);
    for h := 0 to |sorted|
      invariant rows == Rows(inputs, Entries(sorted[..h]))
      invariant Tallied(rows, counts, findings)
    {
      var host := sorted[h];
      ghost var done := Entries(sorted[..h]);
      assert sorted[..h + 1][..h] == sorted[..h];
      for i := 0 to |host.accounts|
        invariant rows == Rows(inputs, done + EntriesOf(host)[..i])
        invariant Tallied(rows, counts, findings)
      {
        var a := host.accounts[i];
        var tags := TagAccount(inputs, host.key, a, people, disabled);
        var row := Row(host.key, a.hostType.GetOr("server"), a, inputs.fold(a.username) in people,
                       AgeDays(inputs, a.lastLogin), tags);
        RowsSnoc(inputs, done, host, i);
        counts, findings := Tally(rows, row, counts, findings);
        rows := rows + [row];
      }
      assert EntriesOf(host)[..|host.accounts|] == EntriesOf(host);
    }
    assert sorted[..|sorted|] == sorted;
    summary := Summarize(inputs, hosts, rows);
  }

  // ----- every account once, in an order that does not depend on the dict

  ghost predicate Ordered(hosts: seq<Host>) {
    forall i, j :: 0 <= i < j < |hosts| ==> AtMost(hosts[i].key, hosts[j].key)
  }

  lemma {:induction false} AtMostTotal(a: string, b: string)
    ensures AtMost(a, b) || AtMost(b, a)
  {
    if a != "" && b != "" {
      AtMostTotal(a[1..], b[1..]);
    }
  }

  lemma {:induction false} AtMostAntisymmetric(a: string, b: string)
    requires AtMost(a, b) && AtMost(b, a)
    ensures a == b
  {
    if a != "" {
      AtMostAntisymmetric(a[1..], b[1..]);
      assert a == [a[0]] + a[1..] && b == [b[0]] + b[1..];
    }
  }

  lemma {:induction false} AtMostTransitive(a: string, b: string, c: string)
    requires AtMost(a, b) && AtMost(b, c)
    ensures AtMost(a, c)
  {
    if a != "" && a[0] == c[0] {
      AtMostTransitive(a[1..], b[1..], c[1..]);
    }
  }

  lemma TailsOrdered(hosts: seq<Host>)
    requires hosts != [] && Ordered(hosts)
    ensures Ordered(hosts[1..])
  {
    forall i, j | 0 <= i < j < |hosts[1..]|
      ensures AtMost(hosts[1..][i].key, hosts[1..][j].key)
    {
      assert hosts[1..][i] == hosts[i + 1] && hosts[1..][j] == hosts[j + 1];
    }
  }

  lemma OrderedCons(host: Host, hosts: seq<Host>)
    requires Ordered(hosts) && forall h :: h in hosts ==> AtMost(host.key, h.key)
    ensures Ordered([host] + hosts)
  {
  }

  lemma {:induction false} InsertOrders(host: Host, hosts: seq<Host>)
    requires Ordered(hosts)
    ensures Ordered(Insert(host, hosts)) && multiset(Insert(host, hosts)) == multiset(hosts) + multiset{host}
  {
    if hosts != [] {
      assert hosts == [hosts[0]] + hosts[1..];
      if AtMost(host.key, hosts[0].key) {
        forall h | h in hosts
          ensures AtMost(host.key, h.key)
        {
          if h != hosts[0] {
            AtMostTransitive(host.key, hosts[0].key, h.key);
          }
        }
        OrderedCons(host, hosts);
      } else {
        var rest := Insert(host, hosts[1..]);
        TailsOrdered(hosts);
        InsertOrders(host, hosts[1..]);
        AtMostTotal(host.key, hosts[0].key);
        forall h | h in rest
          ensures AtMost(hosts[0].key, h.key)
        {
          assert h in multiset(rest);
          assert h == host || h in hosts[1..];
        }
        OrderedCons(hosts[0], rest);
      }
    }
  }

  lemma {:induction false} SortOrders(hosts: seq<Host>)
    ensures Ordered(SortByKey(hosts)) && multiset(SortByKey(hosts)) == multiset(hosts)
  {
    if hosts != [] {
      SortOrders(hosts[1..]);
      InsertOrders(hosts[0], SortByKey(hosts[1..]));
      assert hosts == [hosts[0]] + hosts[1..];
    }
  }

  lemma {:induction false} EntriesJoin(a: seq<Host>, b: seq<Host>)
    ensures Entries(a + b) == Entries(a) + Entries(b)
  {
    if b == [] {
      assert a + b == a;
    } else {
      assert (a + b)[..|a + b| - 1] == a + b[..|b| - 1];
      EntriesJoin(a, b[..|b| - 1]);
    }
  }

  lemma EntriesHead(hosts: seq<Host>)
    requires hosts != []
    ensures Entries(hosts) == EntriesOf(hosts[0]) + Entries(hosts[1..])
  {
    assert hosts == [hosts[0]] + hosts[1..];
    EntriesJoin([hosts[0]], hosts[1..]);
    assert [hosts[0]][..0] == [];
    assert Entries([hosts[0]]) == Entries([]) + EntriesOf(hosts[0]) == EntriesOf(hosts[0]);
  }

  lemma {:induction false} InsertKeepsEntries(host: Host, hosts: seq<Host>)
    ensures multiset(Entries(Insert(host, hosts))) == multiset(EntriesOf(host)) + multiset(Entries(hosts))
  {
    EntriesHead(Insert(host, hosts));
    if hosts == [] || AtMost(host.key, hosts[0].key) {
      assert Insert(host, hosts)[1..] == hosts;
    } else {
      assert Insert(host, hosts)[1..] == Insert(host, hosts[1..]);
      InsertKeepsEntries(host, hosts[1..]);
      EntriesHead(hosts);
    }
  }

  /** No account is lost, repeated or moved to another host. */
  lemma {:induction false} EveryAccountOnce(hosts: seq<Host>)
    ensures multiset(Entries(SortByKey(hosts))) == multiset(Entries(hosts))
  {
    if hosts != [] {
      EveryAccountOnce(hosts[1..]);
      InsertKeepsEntries(hosts[0], SortByKey(hosts[1..]));
      EntriesHead(hosts);
    }
  }

  /** The keys of a dict: no two hosts share one. */
  ghost predicate KeysDetermine(hosts: seq<Host>) {
    forall a, b :: a in hosts && b in hosts && a.key == b.key ==> a == b
  }

  lemma LeastHost(a: seq<Host>, b: seq<Host>)
    requires a != [] && b != [] && Ordered(a) && a[0] in b && b[0] in a
    ensures AtMost(a[0].key, b[0].key)
  {
    var j :| 0 <= j < |a| && a[j] == b[0];
    AtMostTotal(a[0].key, a[0].key);
  }

  lemma DropHead(a: seq<Host>)
    requires a != []
    ensures multiset(a[1..]) == multiset(a) - multiset{a[0]}
  {
    assert a == [a[0]] + a[1..];
  }

  lemma SameLeast(a: seq<Host>, b: seq<Host>)
    requires a != [] && b != [] && Ordered(a) && Ordered(b) && multiset(a) == multiset(b) && KeysDetermine(a)
    ensures a[0] == b[0]
  {
    assert a[0] in multiset(b) && b[0] in multiset(a);
    LeastHost(a, b);
    LeastHost(b, a);
    AtMostAntisymmetric(a[0].key, b[0].key);
  }

  lemma {:induction false} OrderedUnique(a: seq<Host>, b: seq<Host>)
    requires Ordered(a) && Ordered(b) && multiset(a) == multiset(b) && KeysDetermine(a)
    ensures a == b
  {
    assert |multiset(a)| == |multiset(b)|;
    if a != [] {
      SameLeast(a, b);
      DropHead(a);
      DropHead(b);
      TailsOrdered(a);
      TailsOrdered(b);
      assert KeysDetermine(a[1..]) by {
        assert forall h :: h in a[1..] ==> h in a;
      }
      OrderedUnique(a[1..], b[1..]);
      assert a == [a[0]] + a[1..] && b == [b[0]] + b[1..];
    }
  }

  /** The order in which the hosts were stored does not matter. */
  lemma HostOrderIrrelevant(hosts: seq<Host>, others: seq<Host>, inputs: Inputs)
    requires multiset(hosts) == multiset(others) && KeysDetermine(hosts)
    ensures Rows(inputs, Entries(SortByKey(hosts))) == Rows(inputs, Entries(SortByKey(others)))
  {
    SortOrders(hosts);
    SortOrders(others);
    forall a, b | a in SortByKey(hosts) && b in SortByKey(hosts) && a.key == b.key
      ensures a == b
    {
      assert a in multiset(hosts) && b in multiset(hosts);
    }
    OrderedUnique(SortByKey(hosts), SortByKey(others));
  }

  // ----- what the tags say

  /** Some directory entry is the last for the user, and `p` holds of it. */
  ghost predicate InDirectory(inputs: Inputs, user: string, p: Person -> bool) {
    user != "" && exists i :: 0 <= i < |inputs.directory| && LastFor(inputs.directory, inputs.fold, user, i)
                              && p(inputs.directory[i])
  }

  /** Some approval of the user, not tied to another host, allows the account; `sudo` asks for one
      that allows sudo. */
  ghost predicate Allowed(inputs: Inputs, user: string, hostKey: string, sudo: bool) {
    exists i :: 0 <= i < |inputs.approvals| && inputs.fold(inputs.approvals[i].username) == user
                && (inputs.approvals[i].scope == "host" ==> inputs.approvals[i].hostKey == hostKey)
                && (sudo ==> inputs.approvals[i].kind == "sudo")
  }

  /** The rule for each kind of finding. */
  ghost predicate Due(inputs: Inputs, hostKey: string, a: Account, kind: Kind) {
    var user := inputs.fold(a.username);
    match kind
    case Leaver =>
      InDirectory(inputs, user, (p: Person) =>
        inputs.lower(p.status) in {"disabled", "locked", "deleted", "inactive", "expired"})
    case OrphanPriv =>
      a.privileged && !InDirectory(inputs, user, p => true) && !Allowed(inputs, user, hostKey, false)
    case UnapprovedSudo => a.sudo && !Allowed(inputs, user, hostKey, true)
    case Dormant =>
      a.lastLogin.Some? && inputs.parse(a.lastLogin.value).Some?
      && (inputs.dormantDays < 0
          || inputs.now - inputs.parse(a.lastLogin.value).value >= (inputs.dormantDays + 1) as real * 86400.0)
  }

  lemma ApprovedIsAllowed(inputs: Inputs, username: string, hostKey: string)
    ensures Approved(inputs.approvals, username, hostKey, "account", inputs.fold)
            <==> Allowed(inputs, inputs.fold(username), hostKey, false)
    ensures Approved(inputs.approvals, username, hostKey, "sudo", inputs.fold)
            <==> Allowed(inputs, inputs.fold(username), hostKey, true)
  {
    var user := inputs.fold(username);
    forall i | 0 <= i < |inputs.approvals|
      ensures Covers(inputs.approvals[i], user, hostKey, "account", inputs.fold)
              <==> inputs.fold(inputs.approvals[i].username) == user
                   && (inputs.approvals[i].scope == "host" ==> inputs.approvals[i].hostKey == hostKey)
      ensures Covers(inputs.approvals[i], user, hostKey, "sudo", inputs.fold)
              <==> inputs.fold(inputs.approvals[i].username) == user
                   && (inputs.approvals[i].scope == "host" ==> inputs.approvals[i].hostKey == hostKey)
                   && inputs.approvals[i].kind == "sudo"
    {
    }
  }

  lemma InDirectoryExact(inputs: Inputs, user: string, p: Person -> bool)
    ensures InDirectory(inputs, user, p) <==>
              var people := ByUser(inputs.directory, inputs.fold); user in people && p(people[user])
  {
    ByUserMeaning(inputs.directory, inputs.fold, user);
  }

  lemma DormantExact(inputs: Inputs, lastLogin: Option<string>)
    ensures var age := AgeDays(inputs, lastLogin);
            age.Some? && age.value > inputs.dormantDays
            <==> lastLogin.Some? && inputs.parse(lastLogin.value).Some?
                 && (inputs.dormantDays < 0
                     || inputs.now - inputs.parse(lastLogin.value).value >= (inputs.dormantDays + 1) as real * DAY)
  {
    if lastLogin.Some? && inputs.parse(lastLogin.value).Some? {
      var days := (inputs.now - inputs.parse(lastLogin.value).value) / DAY;
      assert days >= (inputs.dormantDays + 1) as real <==> days.Floor >= inputs.dormantDays + 1;
    }
  }

  /** An account carries exactly the tags that are due, each once and in the fixed order. */
  lemma TagsMeaning(inputs: Inputs, hostKey: string, a: Account)
    ensures forall kind: Kind :: kind in Tags(inputs, hostKey, a) <==> Due(inputs, hostKey, a, kind)
    ensures forall i, j :: 0 <= i < j < |Tags(inputs, hostKey, a)|
              ==> Rank(Tags(inputs, hostKey, a)[i]) < Rank(Tags(inputs, hostKey, a)[j])
  {
    var user := inputs.fold(a.username);
    InDirectoryExact(inputs, user, (p: Person) => inputs.lower(p.status) in DISABLED);
    InDirectoryExact(inputs, user, p => true);
    DormantExact(inputs, a.lastLogin);
    ApprovedIsAllowed(inputs, a.username, hostKey);
  }

  // ----- what approvals do and do not cover

  predicate Unlisted(inputs: Inputs, username: string) {
    forall i :: 0 <= i < |inputs.directory| ==> inputs.fold(inputs.directory[i].username) != inputs.fold(username)
  }

  /** Approvals for other hosts clear nothing here. */
  lemma OtherHostsDoNotClear(inputs: Inputs, hostKey: string, a: Account)
    requires forall i :: 0 <= i < |inputs.approvals|
                         && inputs.fold(inputs.approvals[i].username) == inputs.fold(a.username) ==>
               inputs.approvals[i].scope == "host" && inputs.approvals[i].hostKey != hostKey
    ensures a.sudo ==> UnapprovedSudo in Tags(inputs, hostKey, a)
    ensures a.privileged && Unlisted(inputs, a.username) ==> OrphanPriv in Tags(inputs, hostKey, a)
  {
    TagsMeaning(inputs, hostKey, a);
    assert Due(inputs, hostKey, a, UnapprovedSudo) <==> UnapprovedSudo in Tags(inputs, hostKey, a);
    assert Due(inputs, hostKey, a, OrphanPriv) <==> OrphanPriv in Tags(inputs, hostKey, a);
  }

  /** Approvals of another kind do not clear sudo. */
  lemma OtherKindsDoNotClearSudo(inputs: Inputs, hostKey: string, a: Account)
    requires forall i :: 0 <= i < |inputs.approvals|
                         && inputs.fold(inputs.approvals[i].username) == inputs.fold(a.username) ==>
               inputs.approvals[i].kind != "sudo"
    ensures a.sudo ==> UnapprovedSudo in Tags(inputs, hostKey, a)
  {
    TagsMeaning(inputs, hostKey, a);
    assert Due(inputs, hostKey, a, UnapprovedSudo) <==> UnapprovedSudo in Tags(inputs, hostKey, a);
  }

  /** One approval that is for every host or for this one clears the account, and sudo when it is
      a sudo approval. */
  lemma ApprovalClears(inputs: Inputs, hostKey: string, a: Account, i: nat)
    requires i < |inputs.approvals| && inputs.fold(inputs.approvals[i].username) == inputs.fold(a.username)
    requires inputs.approvals[i].scope != "host" || inputs.approvals[i].hostKey == hostKey
    ensures OrphanPriv !in Tags(inputs, hostKey, a)
    ensures inputs.approvals[i].kind == "sudo" ==> UnapprovedSudo !in Tags(inputs, hostKey, a)
  {
    TagsMeaning(inputs, hostKey, a);
    assert Due(inputs, hostKey, a, UnapprovedSudo) <==> UnapprovedSudo in Tags(inputs, hostKey, a);
    assert Due(inputs, hostKey, a, OrphanPriv) <==> OrphanPriv in Tags(inputs, hostKey, a);
  }

  function Rank(kind: Kind): nat {
    match kind case Leaver => 0 case OrphanPriv => 1 case UnapprovedSudo => 2 case Dormant => 3
  }

  // ----- approvals

  predicate Within(few: seq<Approval>, many: seq<Approval>) {
    forall i :: 0 <= i < |few| ==> few[i] in many
  }

  lemma ApprovedGrows(few: seq<Approval>, many: seq<Approval>, username: string, hostKey: string, kind: string,
                      fold: string -> string)
    requires Within(few, many) && Approved(few, username, hostKey, kind, fold)
    ensures Approved(many, username, hostKey, kind, fold)
  {
    var i :| 0 <= i < |few| && Covers(few[i], fold(username), hostKey, kind, fold);
    var k :| 0 <= k < |many| && many[k] == few[i];
  }

  /** A longer approval list adds no tag and clears no other than these two. */
  lemma ApprovalsOnlyClear(inputs: Inputs, more: seq<Approval>, hostKey: string, a: Account, kind: Kind)
    requires Within(inputs.approvals, more)
    ensures kind in Tags(inputs.(approvals := more), hostKey, a) ==> kind in Tags(inputs, hostKey, a)
    ensures kind in Tags(inputs, hostKey, a) && kind !in Tags(inputs.(approvals := more), hostKey, a)
            ==> kind == OrphanPriv || kind == UnapprovedSudo
  {
    if Approved(inputs.approvals, a.username, hostKey, "account", inputs.fold) {
      ApprovedGrows(inputs.approvals, more, a.username, hostKey, "account", inputs.fold);
    }
    if Approved(inputs.approvals, a.username, hostKey, "sudo", inputs.fold) {
      ApprovedGrows(inputs.approvals, more, a.username, hostKey, "sudo", inputs.fold);
    }
  }

  /** Approving sudo approves the account too. */
  lemma SudoApprovalCoversAccount(inputs: Inputs, hostKey: string, a: Account)
    requires Approved(inputs.approvals, a.username, hostKey, "sudo", inputs.fold)
    ensures OrphanPriv !in Tags(inputs, hostKey, a) && UnapprovedSudo !in Tags(inputs, hostKey, a)
  {
    var i :| 0 <= i < |inputs.approvals|
             && Covers(inputs.approvals[i], inputs.fold(a.username), hostKey, "sudo", inputs.fold);
    assert Covers(inputs.approvals[i], inputs.fold(a.username), hostKey, "account", inputs.fold);
  }

  /** The whole view depends only on which approvals there are: not on their order or repetition. */
  lemma ApprovalOrderIrrelevant(inputs: Inputs, others: seq<Approval>, entries: seq<(string, Account)>)
    requires Within(inputs.approvals, others) && Within(others, inputs.approvals)
    ensures Rows(inputs.(approvals := others), entries) == Rows(inputs, entries)
  {
    forall hostKey: string, a: Account
      ensures Tags(inputs.(approvals := others), hostKey, a) == Tags(inputs, hostKey, a)
    {
      SameApproval(inputs, others, a.username, hostKey, "account");
      SameApproval(inputs, others, a.username, hostKey, "sudo");
    }
  }

  lemma SameApproval(inputs: Inputs, others: seq<Approval>, username: string, hostKey: string, kind: string)
    requires Within(inputs.approvals, others) && Within(others, inputs.approvals)
    ensures Approved(others, username, hostKey, kind, inputs.fold)
            == Approved(inputs.approvals, username, hostKey, kind, inputs.fold)
  {
    if Approved(others, username, hostKey, kind, inputs.fold) {
      ApprovedGrows(others, inputs.approvals, username, hostKey, kind, inputs.fold);
    } else if Approved(inputs.approvals, username, hostKey, kind, inputs.fold) {
      ApprovedGrows(inputs.approvals, others, username, hostKey, kind, inputs.fold);
    }
  }

  /** Every row tagged in `others` is tagged in `rows`. */
  ghost predicate Fewer(others: seq<Row>, rows: seq<Row>, kind: Kind) {
    |rows| == |others| && forall i :: 0 <= i < |rows| ==> kind in others[i].tags ==> kind in rows[i].tags
  }

  ghost predicate SameDetails(others: seq<Row>, rows: seq<Row>) {
    |rows| == |others| && forall i :: 0 <= i < |rows| ==> FindingOf(others[i]) == FindingOf(rows[i])
  }

  lemma {:induction false} FewerFlagged(others: seq<Row>, rows: seq<Row>, kind: Kind)
    requires Fewer(others, rows, kind)
    ensures |Flagged(others, kind)| <= |Flagged(rows, kind)|
  {
    if rows != [] {
      FewerFlagged(others[..|rows| - 1], rows[..|rows| - 1], kind);
    }
  }

  lemma {:induction false} SameFlagged(others: seq<Row>, rows: seq<Row>, kind: Kind)
    requires Fewer(others, rows, kind) && Fewer(rows, others, kind) && SameDetails(others, rows)
    ensures Flagged(others, kind) == Flagged(rows, kind)
  {
    if rows != [] {
      SameFlagged(others[..|rows| - 1], rows[..|rows| - 1], kind);
    }
  }

  lemma RowsFewer(inputs: Inputs, more: seq<Approval>, entries: seq<(string, Account)>, kind: Kind)
    requires Within(inputs.approvals, more)
    ensures Fewer(Rows(inputs.(approvals := more), entries), Rows(inputs, entries), kind)
    ensures kind == Leaver || kind == Dormant
            ==> Fewer(Rows(inputs, entries), Rows(inputs.(approvals := more), entries), kind)
  {
    forall i | 0 <= i < |entries|
      ensures kind in Rows(inputs.(approvals := more), entries)[i].tags ==> kind in Rows(inputs, entries)[i].tags
      ensures (kind == Leaver || kind == Dormant) && kind in Rows(inputs, entries)[i].tags
              ==> kind in Rows(inputs.(approvals := more), entries)[i].tags
    {
      ApprovalsOnlyClear(inputs, more, entries[i].0, entries[i].1, kind);
    }
  }

  lemma RowsSameDetails(inputs: Inputs, more: seq<Approval>, entries: seq<(string, Account)>)
    ensures SameDetails(Rows(inputs.(approvals := more), entries), Rows(inputs, entries))
  {
  }

  /** So more approvals never raise a count, and leave two of the four alone. */
  lemma MoreApprovalsFewerFindings(inputs: Inputs, more: seq<Approval>, entries: seq<(string, Account)>, kind: Kind)
    requires Within(inputs.approvals, more)
    ensures |Flagged(Rows(inputs.(approvals := more), entries), kind)| <= |Flagged(Rows(inputs, entries), kind)|
    ensures kind == Leaver || kind == Dormant
            ==> Flagged(Rows(inputs.(approvals := more), entries), kind) == Flagged(Rows(inputs, entries), kind)
  {
    RowsFewer(inputs, more, entries, kind);
    FewerFlagged(Rows(inputs.(approvals := more), entries), Rows(inputs, entries), kind);
    if kind == Leaver || kind == Dormant {
      RowsSameDetails(inputs, more, entries);
      SameFlagged(Rows(inputs.(approvals := more), entries), Rows(inputs, entries), kind);
    }
  }

  // ----- the summary

  function HostsShowing(rows: seq<Row>, hostType: string): set<string> {
    set i | 0 <= i < |rows| && rows[i].hostType == hostType :: rows[i].hostKey
  }

  ghost predicate Owns(host: Host, entry: (string, Account)) {
    host.key == entry.0 && entry.1 in host.accounts
  }

  lemma {:induction false} EntryOwned(hosts: seq<Host>, entry: (string, Account))
    ensures entry in Entries(hosts) <==> exists h :: h in hosts && Owns(h, entry)
  {
    if hosts != [] {
      var last := hosts[|hosts| - 1];
      EntryOwned(hosts[..|hosts| - 1], entry);
      assert entry in EntriesOf(last) <==> Owns(last, entry) by {
        if Owns(last, entry) {
          var i :| 0 <= i < |last.accounts| && last.accounts[i] == entry.1;
          assert EntriesOf(last)[i] == entry;
        }
      }
      assert forall h :: h in hosts <==> h == last || h in hosts[..|hosts| - 1];
    }
  }

  /** The host has an account that does not say what type of host it is on. */
  ghost predicate Untyped(host: Host) {
    exists i :: 0 <= i < |host.accounts| && host.accounts[i].hostType.None?
  }

  lemma SameRowsShow(entries: seq<(string, Account)>, others: seq<(string, Account)>, inputs: Inputs, hostType: string)
    requires multiset(entries) == multiset(others)
    ensures HostsShowing(Rows(inputs, entries), hostType) <= HostsShowing(Rows(inputs, others), hostType)
  {
    forall key | key in HostsShowing(Rows(inputs, entries), hostType)
      ensures key in HostsShowing(Rows(inputs, others), hostType)
    {
      var i :| 0 <= i < |entries| && RowOf(inputs, entries[i]).hostType == hostType
               && RowOf(inputs, entries[i]).hostKey == key;
      assert entries[i] in multiset(others);
      var k :| 0 <= k < |others| && others[k] == entries[i];
      assert Rows(inputs, others)[k] == RowOf(inputs, entries[i]);
    }
  }

  /** The rows show an account without a type as being on a server, but the summary does not count
      its host as one: the two agree exactly if each such host has another account that says so. */
  lemma ServersShownIff(hosts: seq<Host>, inputs: Inputs)
    ensures var rows := Rows(inputs, Entries(SortByKey(hosts)));
            && HostsSaying(hosts, "pc") == HostsShowing(rows, "pc")
            && (HostsSaying(hosts, "server") == HostsShowing(rows, "server")
                <==> forall h :: h in hosts && Untyped(h) ==> h.key in HostsSaying(hosts, "server"))
  {
    ShownInAnyOrder(hosts, inputs, "pc");
    ShownInAnyOrder(hosts, inputs, "server");
    ShownExactly(hosts, inputs, "pc");
    ShownExactly(hosts, inputs, "server");
  }

  lemma ShownInAnyOrder(hosts: seq<Host>, inputs: Inputs, hostType: string)
    ensures HostsShowing(Rows(inputs, Entries(SortByKey(hosts))), hostType)
            == HostsShowing(Rows(inputs, Entries(hosts)), hostType)
  {
    EveryAccountOnce(hosts);
    SameRowsShow(Entries(SortByKey(hosts)), Entries(hosts), inputs, hostType);
    SameRowsShow(Entries(hosts), Entries(SortByKey(hosts)), inputs, hostType);
  }

  lemma ShownExactly(hosts: seq<Host>, inputs: Inputs, hostType: string)
    ensures forall key :: key in HostsShowing(Rows(inputs, Entries(hosts)), hostType)
              <==> key in HostsSaying(hosts, hostType)
                   || (hostType == "server" && exists h :: h in hosts && h.key == key && Untyped(h))
  {
    var entries := Entries(hosts);
    var rows := Rows(inputs, entries);
    forall key
      ensures key in HostsShowing(rows, hostType)
              <==> key in HostsSaying(hosts, hostType)
                   || (hostType == "server" && exists h :: h in hosts && h.key == key && Untyped(h))
    {
      if key in HostsShowing(rows, hostType) {
        var i :| 0 <= i < |rows| && rows[i].hostType == hostType && rows[i].hostKey == key;
        EntryOwned(hosts, entries[i]);
        var h :| h in hosts && Owns(h, entries[i]);
        var k :| 0 <= k < |h.accounts| && h.accounts[k] == entries[i].1;
      }
      if h, k :| h in hosts && 0 <= k < |h.accounts| && h.key == key
                 && h.accounts[k].hostType.GetOr("server") == hostType {
        EntryOwned(hosts, (key, h.accounts[k]));
        assert Owns(h, (key, h.accounts[k]));
        var i :| 0 <= i < |entries| && entries[i] == (key, h.accounts[k]);
        assert rows[i].hostType == hostType && rows[i].hostKey == key;
      }
    }
  }

  // ----- what the rows, the findings and the summary say

  /** Every row shows its account on its host, as the directory and the clock have it. */
  lemma RowsMeaning(inputs: Inputs, entries: seq<(string, Account)>, i: nat)
    requires i < |entries|
    ensures |Rows(inputs, entries)| == |entries|
    ensures var row, a := Rows(inputs, entries)[i], entries[i].1;
            && row.hostKey == entries[i].0 && row.account == a
            && row.hostType == (if a.hostType.Some? then a.hostType.value else "server")
            && (row.inDirectory <==> InDirectory(inputs, inputs.fold(a.username), p => true))
            && (row.loginAge.Some? <==> a.lastLogin.Some? && inputs.parse(a.lastLogin.value).Some?)
            && (row.loginAge.Some? ==>
                  var seconds := inputs.now - inputs.parse(a.lastLogin.value).value;
                  if seconds < 0.0 then row.loginAge.value == 0
                  else row.loginAge.value as real * 86400.0 <= seconds
                       < (row.loginAge.value + 1) as real * 86400.0)
            && forall kind: Kind :: kind in row.tags <==> Due(inputs, entries[i].0, a, kind)
  {
    InDirectoryExact(inputs, inputs.fold(entries[i].1.username), p => true);
    TagsMeaning(inputs, entries[i].0, entries[i].1);
    var lastLogin := entries[i].1.lastLogin;
    if lastLogin.Some? && inputs.parse(lastLogin.value).Some? {
      AgeMeaning(inputs, lastLogin);
    }
  }

  lemma AgeMeaning(inputs: Inputs, lastLogin: Option<string>)
    requires lastLogin.Some? && inputs.parse(lastLogin.value).Some?
    ensures var age, seconds := AgeDays(inputs, lastLogin), inputs.now - inputs.parse(lastLogin.value).value;
            && age.Some?
            && if seconds < 0.0 then age.value == 0
               else age.value as real * 86400.0 <= seconds < (age.value + 1) as real * 86400.0
  {
    var seconds := inputs.now - inputs.parse(lastLogin.value).value;
    var days := (seconds / DAY).Floor;
    assert days as real <= seconds / DAY < (days + 1) as real;
    assert seconds / DAY * DAY == seconds;
  }

  /** The rows tagged with a kind, by their positions. */
  ghost predicate Picks(rows: seq<Row>, kind: Kind, at: seq<nat>) {
    && (forall j :: 0 <= j < |at| ==> at[j] < |rows| && kind in rows[at[j]].tags)
    && (forall j, k :: 0 <= j < k < |at| ==> at[j] < at[k])
    && (forall i :: 0 <= i < |rows| && kind in rows[i].tags ==> i in at)
  }

  /** The finding shows what the row shows. */
  predicate Shows(f: Finding, row: Row) {
    && f.hostKey == row.hostKey && f.hostType == row.hostType && f.username == row.account.username
    && f.privileged == row.account.privileged && f.sudo == row.account.sudo && f.loginAge == row.loginAge
  }

  ghost predicate AllShown(findings: seq<Finding>, rows: seq<Row>, at: seq<nat>)
    requires forall j :: 0 <= j < |at| ==> at[j] < |rows|
  {
    |findings| == |at| && forall j :: 0 <= j < |at| ==> Shows(findings[j], rows[at[j]])
  }

  lemma PicksSnoc(rows: seq<Row>, row: Row, kind: Kind, at: seq<nat>)
    requires Picks(rows, kind, at)
    ensures Picks(rows + [row], kind, if kind in row.tags then at + [|rows|] else at)
  {
    var longer, more := rows + [row], if kind in row.tags then at + [|rows|] else at;
    forall i | 0 <= i < |longer| && kind in longer[i].tags
      ensures i in more
    {
      if i < |rows| {
        assert kind in rows[i].tags;
        var j :| 0 <= j < |at| && at[j] == i;
        assert more[j] == i;
      } else {
        assert more[|at|] == i;
      }
    }
  }

  lemma ShownSnoc(findings: seq<Finding>, rows: seq<Row>, row: Row, at: seq<nat>)
    requires (forall j :: 0 <= j < |at| ==> at[j] < |rows|) && AllShown(findings, rows, at)
    ensures AllShown(findings, rows + [row], at)
    ensures AllShown(findings + [FindingOf(row)], rows + [row], at + [|rows|])
  {
  }

  /** The findings of a kind are those of the rows tagged with it, each once and in row order. */
  lemma {:induction false} FlaggedMeaning(rows: seq<Row>, kind: Kind) returns (at: seq<nat>)
    ensures Picks(rows, kind, at) && AllShown(Flagged(rows, kind), rows, at)
  {
    if rows == [] {
      at := [];
    } else {
      var front, last := rows[..|rows| - 1], rows[|rows| - 1];
      at := FlaggedMeaning(front, kind);
      assert rows == front + [last];
      PicksSnoc(front, last, kind, at);
      ShownSnoc(Flagged(front, kind), front, last, at);
      at := if kind in last.tags then at + [|front|] else at;
    }
  }

  function PrivilegedAt(rows: seq<Row>): set<nat> {
    set i: nat | i < |rows| && rows[i].account.privileged
  }

  function TaggedAt(rows: seq<Row>): set<nat> {
    set i: nat | i < |rows| && rows[i].tags != []
  }

  lemma {:induction false} PrivilegedCount(rows: seq<Row>)
    ensures Count(rows, IsPrivileged) == |PrivilegedAt(rows)|
  {
    if rows != [] {
      var n := |rows| - 1;
      PrivilegedCount(rows[..n]);
      var earlier := PrivilegedAt(rows[..n]);
      assert PrivilegedAt(rows) == if IsPrivileged(rows[n]) then earlier + {n} else earlier;
    }
  }

  lemma {:induction false} TaggedCount(rows: seq<Row>)
    ensures Count(rows, IsFlagged) == |TaggedAt(rows)|
  {
    if rows != [] {
      var n := |rows| - 1;
      TaggedCount(rows[..n]);
      var earlier := TaggedAt(rows[..n]);
      assert TaggedAt(rows) == if IsFlagged(rows[n]) then earlier + {n} else earlier;
    }
  }

  /** What the summary counts. */
  lemma SummaryMeaning(inputs: Inputs, hosts: seq<Host>, rows: seq<Row>)
    ensures var s := Summarize(inputs, hosts, rows);
            && s.hosts == |hosts| && s.accounts == |rows|
            && s.privileged == |PrivilegedAt(rows)|
            && s.flagged == |TaggedAt(rows)|
            && s.servers == |set h, i | h in hosts && 0 <= i < |h.accounts|
                                        && h.accounts[i].hostType == Some("server") :: h.key|
            && s.pcs == |set h, i | h in hosts && 0 <= i < |h.accounts|
                                    && h.accounts[i].hostType == Some("pc") :: h.key|
            && s.directory == |DirectoryNames(inputs)|
  {
    PrivilegedCount(rows);
    TaggedCount(rows);
    forall user
      ensures user in DirectoryNames(inputs) <==> user in ByUser(inputs.directory, inputs.fold)
    {
      NamesListed(inputs.directory, inputs.fold, user);
    }
    assert DirectoryNames(inputs) == ByUser(inputs.directory, inputs.fold).Keys;
    KeysSize(ByUser(inputs.directory, inputs.fold));
  }

  /** The different folded names in the directory. */
  function DirectoryNames(inputs: Inputs): set<string> {
    set i | 0 <= i < |inputs.directory| && inputs.fold(inputs.directory[i].username) != ""
      :: inputs.fold(inputs.directory[i].username)
  }

  lemma {:induction false} NamesListed(people: seq<Person>, fold: string -> string, user: string)
    ensures user in ByUser(people, fold)
            <==> user != "" && exists i :: 0 <= i < |people| && fold(people[i].username) == user
  {
    if people != [] {
      var front := people[..|people| - 1];
      NamesListed(front, fold, user);
      assert forall i :: 0 <= i < |front| ==> front[i] == people[i];
      if i :| 0 <= i < |people| && fold(people[i].username) == user {
        assert i < |front| ==> fold(front[i].username) == user;
      }
    }
  }

  lemma {:induction false} KeysSize(m: map<string, Person>)
    ensures |m.Keys| == |m|
  {
  }

  /** The order of host keys: a prefix first, else by the first character that differs. */
  lemma {:induction false} AtMostMeaning(a: string, b: string)
    ensures AtMost(a, b) <==> a <= b || exists k :: 0 <= k < |a| && k < |b| && a[..k] == b[..k] && a[k] < b[k]
  {
    if a != "" && b != "" {
      AtMostMeaning(a[1..], b[1..]);
      if a[0] == b[0] {
        SameHead(a, b);
      } else {
        assert a[0] < b[0] ==> a[..0] == b[..0];
        assert forall k :: 0 < k < |a| && k < |b| && a[..k] == b[..k] ==> a[..k][0] == a[0] && b[..k][0] == b[0];
      }
    }
  }

  lemma SameHead(a: string, b: string)
    requires a != "" && b != "" && a[0] == b[0]
    ensures a <= b <==> a[1..] <= b[1..]
    ensures (exists k :: 0 <= k < |a| && k < |b| && a[..k] == b[..k] && a[k] < b[k])
            <==> exists k :: 0 <= k < |a| - 1 && k < |b| - 1 && a[1..][..k] == b[1..][..k] && a[1..][k] < b[1..][k]
  {
    assert a == [a[0]] + a[1..] && b == [b[0]] + b[1..];
    if k :| 0 <= k < |a| && k < |b| && a[..k] == b[..k] && a[k] < b[k] {
      var j := k - 1;
      assert a[1..][..j] == a[..k][1..] == b[..k][1..] == b[1..][..j];
      assert a[1..][j] < b[1..][j];
    }
    if k :| 0 <= k < |a| - 1 && k < |b| - 1 && a[1..][..k] == b[1..][..k] && a[1..][k] < b[1..][k] {
      var j := k + 1;
      assert a[..j] == [a[0]] + a[1..][..k] && b[..j] == [b[0]] + b[1..][..k];
      assert a[j] < b[j];
    }
  }
}
