/** Merging observations of a host: `InMemoryRepository._save_host` and the Postgres upsert. */
module Hosts {
  import opened Wrappers

  datatype Status = Online | Offline | Unknown

  /** `datetime` values are instants on one line; `str | None` is an optional string. */
  datatype Host = Host(
    hostId: string, hostname: string, platform: Option<string>, primaryIp: Option<string>,
    status: Status, riskScore: int, firstSeen: Option<int>, lastSeen: Option<int>)

  // ----- in memory

  /** Python's `a or b` on an optional string. */
  function OrText(a: Option<string>, b: Option<string>): Option<string> {
    if a.Some? && a.value != "" then a else b
  }

  function Max(a: int, b: int): int {
    if a >= b then a else b
  }

  function MinInstant(left: Option<int>, right: Option<int>): Option<int> {
    if left.None? then right
    else if right.None? then left
    else if left.value <= right.value then left else right
  }

  function MaxInstant(left: Option<int>, right: Option<int>): Option<int> {
    if left.None? then right
    else if right.None? then left
    else if left.value >= right.value then left else right
  }

  function Merge(existing: Host, incoming: Host): Host {
    existing.(hostname := if incoming.hostname != "" then incoming.hostname else existing.hostname,
              platform := OrText(incoming.platform, existing.platform),
              primaryIp := OrText(incoming.primaryIp, existing.primaryIp),
              status := if incoming.status != Unknown then incoming.status else existing.status,
              riskScore := Max(existing.riskScore, incoming.riskScore),
              firstSeen := MinInstant(existing.firstSeen, incoming.firstSeen),
              lastSeen := MaxInstant(existing.lastSeen, incoming.lastSeen))
  }

  function SaveHost(hosts: map<string, Host>, incoming: Host): map<string, Host> {
    if incoming.hostId in hosts
    then hosts[incoming.hostId := Merge(hosts[incoming.hostId], incoming)]
    else hosts[incoming.hostId := incoming]
  }

  // ----- in Postgres

  function Coalesce(a: Option<string>, b: Option<string>): Option<string> {
    if a.Some? then a else b
  }

  /** ON CONFLICT (host_id) DO UPDATE; `hostname` is NOT NULL, so COALESCE keeps the incoming one. */
  function Upsert(existing: Host, excluded: Host): Host {
    Host(existing.hostId, excluded.hostname,
         Coalesce(excluded.platform, existing.platform),
         Coalesce(excluded.primaryIp, existing.primaryIp),
         if excluded.status == Unknown then existing.status else excluded.status,
         if existing.riskScore > excluded.riskScore then existing.riskScore else excluded.riskScore,
         match (existing.firstSeen, excluded.firstSeen)
         case (None, seen) => seen
         case (seen, None) => seen
         case (Some(a), Some(b)) => Some(if b < a then b else a),
         match (existing.lastSeen, excluded.lastSeen)
         case (None, seen) => seen
         case (seen, None) => seen
         case (Some(a), Some(b)) => Some(if b > a then b else a))
  }

  /** The `hosts` table. */
  class HostTable {
    var rows: map<string, Host>

    constructor ()
      ensures rows == map[]
    {
      rows := map[];
    }

    method Save(entity: Host)
      modifies this
      ensures rows == SaveRow(old(rows), entity)
    {
      if entity.hostId in rows {
        rows := rows[entity.hostId := Upsert(rows[entity.hostId], entity)];
      } else {
        rows := rows[entity.hostId := entity];
      }
    }
  }

  function SaveRow(rows: map<string, Host>, excluded: Host): map<string, Host> {
    if excluded.hostId in rows
    then rows[excluded.hostId := Upsert(rows[excluded.hostId], excluded)]
    else rows[excluded.hostId := excluded]
  }

  // ----- the two agree, and exactly when

  /** An incoming empty string never meets a different stored value. */
  predicate NoEmptyOverwrite(existing: Host, incoming: Host) {
    && (incoming.hostname == "" ==> existing.hostname == "")
    && (incoming.platform == Some("") ==> existing.platform == Some(""))
    && (incoming.primaryIp == Some("") ==> existing.primaryIp == Some(""))
  }

  lemma MergeIsUpsertIff(existing: Host, incoming: Host)
    ensures Merge(existing, incoming) == Upsert(existing, incoming) <==> NoEmptyOverwrite(existing, incoming)
  {
  }

  function MemoryAfter(saves: seq<Host>): map<string, Host> {
    if saves == [] then map[] else SaveHost(MemoryAfter(saves[..|saves| - 1]), saves[|saves| - 1])
  }

  function TableAfter(saves: seq<Host>): map<string, Host> {
    if saves == [] then map[] else SaveRow(TableAfter(saves[..|saves| - 1]), saves[|saves| - 1])
  }

  /** Save `i` does not overwrite a stored value with an empty string. */
  predicate CleanAt(saves: seq<Host>, i: nat)
    requires i < |saves|
  {
    var memory := MemoryAfter(saves[..i]);
    saves[i].hostId in memory ==> NoEmptyOverwrite(memory[saves[i].hostId], saves[i])
  }

  predicate AgreeAfter(saves: seq<Host>, i: nat)
    requires i <= |saves|
  {
    MemoryAfter(saves[..i]) == TableAfter(saves[..i])
  }

  lemma AgreeStep(saves: seq<Host>, i: nat)
    requires i < |saves| && AgreeAfter(saves, i)
    ensures AgreeAfter(saves, i + 1) <==> CleanAt(saves, i)
  {
    var before, h := saves[..i], saves[i];
    assert saves[..i + 1][..i] == before;
    var memory := MemoryAfter(before);
    if h.hostId in memory {
      MergeIsUpsertIff(memory[h.hostId], h);
      assert MemoryAfter(saves[..i + 1])[h.hostId] == Merge(memory[h.hostId], h);
      assert TableAfter(saves[..i + 1])[h.hostId] == Upsert(memory[h.hostId], h);
    }
  }

  /** The backends agree after every save exactly when no save overwrites a stored value
      with an empty string. */
  lemma {:induction false} BackendsAgreeIff(saves: seq<Host>, n: nat)
    requires n <= |saves|
    ensures (forall i: nat :: i <= n ==> AgreeAfter(saves, i)) <==> (forall i: nat :: i < n ==> CleanAt(saves, i))
  {
    if n > 0 {
      BackendsAgreeIff(saves, n - 1);
      if AgreeAfter(saves, n - 1) {
        AgreeStep(saves, n - 1);
      }
    }
  }

  predicate NoEmptyStrings(h: Host) {
    h.hostname != "" && h.platform != Some("") && h.primaryIp != Some("")
  }

  /** With every string absent or non-empty, both backends hold the same hosts. */
  lemma BackendsAgree(saves: seq<Host>)
    requires forall i :: 0 <= i < |saves| ==> NoEmptyStrings(saves[i])
    ensures MemoryAfter(saves) == TableAfter(saves)
  {
    forall i: nat | i < |saves|
      ensures CleanAt(saves, i)
    {
      assert NoEmptyStrings(saves[i]);
    }
    BackendsAgreeIff(saves, |saves|);
    assert AgreeAfter(saves, |saves|);
    assert saves[..|saves|] == saves;
  }

  // ----- what does not depend on the order of saves

  predicate LeastInstant(found: Option<int>, saves: seq<Host>, id: string) {
    && (found.Some? ==> exists i :: 0 <= i < |saves| && saves[i].hostId == id && saves[i].firstSeen == found)
    && (forall i :: 0 <= i < |saves| && saves[i].hostId == id && saves[i].firstSeen.Some? ==>
          found.Some? && found.value <= saves[i].firstSeen.value)
  }

  predicate GreatestInstant(found: Option<int>, saves: seq<Host>, id: string) {
    && (found.Some? ==> exists i :: 0 <= i < |saves| && saves[i].hostId == id && saves[i].lastSeen == found)
    && (forall i :: 0 <= i < |saves| && saves[i].hostId == id && saves[i].lastSeen.Some? ==>
          found.Some? && found.value >= saves[i].lastSeen.value)
  }

  predicate GreatestRisk(found: int, saves: seq<Host>, id: string) {
    && (exists i :: 0 <= i < |saves| && saves[i].hostId == id && saves[i].riskScore == found)
    && (forall i :: 0 <= i < |saves| && saves[i].hostId == id ==> found >= saves[i].riskScore)
  }

  ghost predicate Summarizes(hosts: map<string, Host>, saves: seq<Host>, id: string) {
    && (id in hosts <==> exists i :: 0 <= i < |saves| && saves[i].hostId == id)
    && (id in hosts ==>
          && LeastInstant(hosts[id].firstSeen, saves, id)
          && GreatestInstant(hosts[id].lastSeen, saves, id)
          && GreatestRisk(hosts[id].riskScore, saves, id))
  }

  /** Whatever the order of saves, a host is known when it was saved; then first-seen is the
      least, last-seen and the risk score the greatest of what was saved for it. */
  lemma {:induction false} MergeIsExtremes(saves: seq<Host>, id: string)
    ensures Summarizes(MemoryAfter(saves), saves, id)
  {
    if saves != [] {
      var n := |saves| - 1;
      var before, h := saves[..n], saves[n];
      MergeIsExtremes(before, id);
      assert forall i :: 0 <= i < n ==> saves[i] == before[i];
      if h.hostId == id {
        assert saves[n].hostId == id;
      }
    }
  }

  ghost predicate Covered(a: seq<Host>, b: seq<Host>) {
    forall i :: 0 <= i < |a| ==> a[i] in b
  }

  lemma LeastUnique(f: Option<int>, g: Option<int>, a: seq<Host>, b: seq<Host>, id: string)
    requires Covered(a, b) && LeastInstant(f, a, id) && LeastInstant(g, b, id)
    ensures f.Some? ==> g.Some? && g.value <= f.value
  {
    if f.Some? {
      var i :| 0 <= i < |a| && a[i].hostId == id && a[i].firstSeen == f;
      assert a[i] in b;
    }
  }

  lemma GreatestUnique(f: Option<int>, g: Option<int>, a: seq<Host>, b: seq<Host>, id: string)
    requires Covered(a, b) && GreatestInstant(f, a, id) && GreatestInstant(g, b, id)
    ensures f.Some? ==> g.Some? && g.value >= f.value
  {
    if f.Some? {
      var i :| 0 <= i < |a| && a[i].hostId == id && a[i].lastSeen == f;
      assert a[i] in b;
    }
  }

  lemma RiskUnique(f: int, g: int, a: seq<Host>, b: seq<Host>, id: string)
    requires Covered(a, b) && GreatestRisk(f, a, id) && GreatestRisk(g, b, id)
    ensures g >= f
  {
    var i :| 0 <= i < |a| && a[i].hostId == id && a[i].riskScore == f;
    assert a[i] in b;
  }

  lemma KnownInBoth(a: seq<Host>, b: seq<Host>, id: string)
    requires Covered(a, b) && id in MemoryAfter(a)
    ensures id in MemoryAfter(b)
  {
    MergeIsExtremes(a, id);
    MergeIsExtremes(b, id);
    var i :| 0 <= i < |a| && a[i].hostId == id;
    assert a[i] in b;
    var j :| 0 <= j < |b| && b[j] == a[i];
    assert b[j].hostId == id;
  }

  /** Two lists with the same saves, in any order and repeated at will, leave the same hosts
      with the same first-seen, last-seen and risk score. */
  lemma OrderIrrelevant(a: seq<Host>, b: seq<Host>, id: string)
    requires Covered(a, b) && Covered(b, a)
    ensures id in MemoryAfter(a) <==> id in MemoryAfter(b)
    ensures id in MemoryAfter(a) ==>
              var x, y := MemoryAfter(a)[id], MemoryAfter(b)[id];
              x.firstSeen == y.firstSeen && x.lastSeen == y.lastSeen && x.riskScore == y.riskScore
  {
    if id in MemoryAfter(b) {
      KnownInBoth(b, a, id);
    }
    if id in MemoryAfter(a) {
      KnownInBoth(a, b, id);
      MergeIsExtremes(a, id);
      MergeIsExtremes(b, id);
      var x, y := MemoryAfter(a)[id], MemoryAfter(b)[id];
      LeastUnique(x.firstSeen, y.firstSeen, a, b, id);
      LeastUnique(y.firstSeen, x.firstSeen, b, a, id);
      GreatestUnique(x.lastSeen, y.lastSeen, a, b, id);
      GreatestUnique(y.lastSeen, x.lastSeen, b, a, id);
      RiskUnique(x.riskScore, y.riskScore, a, b, id);
      RiskUnique(y.riskScore, x.riskScore, b, a, id);
    }
  }

  // ----- what a host is called

  predicate SavedAt(saves: seq<Host>, i: int, id: string) {
    0 <= i < |saves| && saves[i].hostId == id
  }

  /** A field of which a merge keeps the incoming value when it is known, and else the existing one. */
  ghost predicate Prefers<T(!new)>(get: Host -> T, known: T -> bool) {
    forall e: Host, x: Host :: get(Merge(e, x)) == if known(get(x)) then get(x) else get(e)
  }

  /** The value of the latest save that knows it; of the first save when none does. */
  ghost predicate LatestKnown<T>(found: T, saves: seq<Host>, id: string, get: Host -> T, known: T -> bool) {
    || (exists i :: SavedAt(saves, i, id) && known(get(saves[i])) && found == get(saves[i])
                    && forall j :: i < j && SavedAt(saves, j, id) ==> !known(get(saves[j])))
    || ((forall i :: SavedAt(saves, i, id) ==> !known(get(saves[i])))
        && exists i :: SavedAt(saves, i, id) && found == get(saves[i]) && forall j :: j < i ==> !SavedAt(saves, j, id))
  }

  lemma SavedSnoc(before: seq<Host>, h: Host, i: int, id: string)
    ensures SavedAt(before + [h], i, id) <==> SavedAt(before, i, id) || (i == |before| && h.hostId == id)
  {
  }

  lemma {:induction false} LatestKnownWins<T(!new)>(saves: seq<Host>, id: string, get: Host -> T, known: T -> bool)
    requires Prefers(get, known)
    ensures id in MemoryAfter(saves) <==> exists i :: SavedAt(saves, i, id)
    ensures id in MemoryAfter(saves) ==> LatestKnown(get(MemoryAfter(saves)[id]), saves, id, get, known)
  {
    if saves != [] {
      var before, h := saves[..|saves| - 1], saves[|saves| - 1];
      assert saves == before + [h];
      LatestKnownWins(before, id, get, known);
      forall i
        ensures SavedAt(saves, i, id) <==> SavedAt(before, i, id) || (i == |before| && h.hostId == id)
      {
        SavedSnoc(before, h, i, id);
      }
      if id in MemoryAfter(saves) {
        LatestStep(before, h, id, get, known);
      }
    }
  }

  lemma LatestStep<T(!new)>(before: seq<Host>, h: Host, id: string, get: Host -> T, known: T -> bool)
    requires Prefers(get, known) && (id in MemoryAfter(before) <==> exists i :: SavedAt(before, i, id))
    requires id in MemoryAfter(before) ==> LatestKnown(get(MemoryAfter(before)[id]), before, id, get, known)
    requires id in MemoryAfter(before) || h.hostId == id
    ensures LatestKnown(get(SaveHost(MemoryAfter(before), h)[id]), before + [h], id, get, known)
  {
    var saves, found := before + [h], get(SaveHost(MemoryAfter(before), h)[id]);
    forall i
      ensures SavedAt(saves, i, id) <==> SavedAt(before, i, id) || (i == |before| && h.hostId == id)
      ensures SavedAt(before, i, id) ==> saves[i] == before[i]
    {
      SavedSnoc(before, h, i, id);
    }
    if h.hostId == id && (known(get(h)) || id !in MemoryAfter(before)) {
      assert SavedAt(saves, |before|, id) && found == get(saves[|before|]);
    } else if i :| SavedAt(before, i, id) && known(get(before[i])) && found == get(before[i])
                   && forall j :: i < j && SavedAt(before, j, id) ==> !known(get(before[j])) {
      assert SavedAt(saves, i, id) && found == get(saves[i]);
    } else {
      var i :| SavedAt(before, i, id) && found == get(before[i]) && forall j :: j < i ==> !SavedAt(before, j, id);
      assert SavedAt(saves, i, id) && found == get(saves[i]);
    }
  }

  /** Name, platform and address of a host are those of the latest save that had one, its status
      that of the latest save that knew it. */
  lemma LatestObservationWins(saves: seq<Host>, id: string)
    requires id in MemoryAfter(saves)
    ensures var host := MemoryAfter(saves)[id];
            && LatestKnown(host.hostname, saves, id, (h: Host) => h.hostname, (name: string) => name != "")
            && LatestKnown(host.platform, saves, id, (h: Host) => h.platform,
                           (text: Option<string>) => text.Some? && text.value != "")
            && LatestKnown(host.primaryIp, saves, id, (h: Host) => h.primaryIp,
                           (text: Option<string>) => text.Some? && text.value != "")
            && LatestKnown(host.status, saves, id, (h: Host) => h.status, (status: Status) => status != Unknown)
  {
    LatestKnownWins(saves, id, (h: Host) => h.hostname, (name: string) => name != "");
    LatestKnownWins(saves, id, (h: Host) => h.platform, (text: Option<string>) => text.Some? && text.value != "");
    LatestKnownWins(saves, id, (h: Host) => h.primaryIp, (text: Option<string>) => text.Some? && text.value != "");
    LatestKnownWins(saves, id, (h: Host) => h.status, (status: Status) => status != Unknown);
  }
}
