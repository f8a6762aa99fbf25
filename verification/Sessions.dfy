/** Login sessions: the dict that writes through to a table, the expiry rule of the
    middleware, and what holds across failed writes and restarts. */
module Sessions {
  import opened Wrappers

  /** A timestamp text as the expiry rule reads it. */
  datatype Stamp = Missing | Malformed | At(time: real)

  datatype Session = Session(username: string, createdAt: Stamp, lastSeen: Stamp)

  /** Seconds of inactivity and of life, both at least 1. */
  datatype Ttls = Ttls(idle: real, absolute: real)

  function Age(stamp: Stamp, now: real): real {
    if stamp.At? then now - stamp.time else 0.0
  }

  predicate Expired(s: Session, now: real, ttls: Ttls) {
    var createdAge := Age(s.createdAt, now);
    var lastAge := if s.lastSeen.Missing? then createdAge else Age(s.lastSeen, now);
    createdAge > ttls.absolute || lastAge > ttls.idle
  }

  /** The rule for every session: a creation time that can be read counts against the absolute
      lifetime; the last use counts against the idle one, the creation when there was none; a stamp
      that cannot be read never ages. */
  lemma ExpiredMeaning(s: Session, now: real, ttls: Ttls)
    requires 0.0 < ttls.idle && 0.0 < ttls.absolute
    ensures Expired(s, now, ttls)
            <==> || (s.createdAt.At? && now - s.createdAt.time > ttls.absolute)
                 || (s.lastSeen.At? && now - s.lastSeen.time > ttls.idle)
                 || (s.lastSeen.Missing? && s.createdAt.At? && now - s.createdAt.time > ttls.idle)
  {
  }

  // ----- one process and its table, as a state machine

  /** A row of the table: the record as it was saved, and when loading stops returning it. */
  datatype Row = Row(record: Session, expiresAt: real)

  /** 30 days. */
  const ROW_LIFE := 2592000.0

  /** `live` is the dict of the process; `stored` is the table. */
  datatype State = State(live: map<string, Session>, stored: map<string, Row>)

  datatype Event =
    | Login(now: real, token: string, username: string, saved: bool)
    | Request(now: real, token: string, deleted: bool)     // `deleted`: a delete would reach the table
    | Logout(now: real, token: string, deleted: bool)
    | Restart(now: real, loaded: bool)                     // `loaded`: the table could be read

  function SetItem(s: State, token: string, record: Session, now: real, saved: bool): State {
    State(s.live[token := record], if saved then s.stored[token := Row(record, now + ROW_LIFE)] else s.stored)
  }

  /** SELECT ... WHERE expires_at > now() */
  function Loaded(stored: map<string, Row>, now: real): map<string, Session> {
    map t | t in stored && stored[t].expiresAt > now :: stored[t].record
  }

  function Pop(s: State, token: string, deleted: bool): State {
    if token !in s.live then s
    else State(s.live - {token}, if deleted then s.stored - {token} else s.stored)
  }

  predicate Accepts(s: State, token: string, now: real, ttls: Ttls) {
    token != "" && token in s.live && !Expired(s.live[token], now, ttls)
  }

  function Next(s: State, e: Event, ttls: Ttls): State {
    match e
    case Login(now, token, username, saved) => SetItem(s, token, Session(username, At(now), At(now)), now, saved)
    case Request(now, token, deleted) =>
      if token == "" || token !in s.live then s
      else if Expired(s.live[token], now, ttls) then Pop(s, token, deleted)
      else s.(live := s.live[token := s.live[token].(lastSeen := At(now))])   // in place: not written through
    case Logout(now, token, deleted) => Pop(s, token, deleted)
    case Restart(now, loaded) => s.(live := if loaded then Loaded(s.stored, now) else map[])
  }

  function Run(s: State, events: seq<Event>, ttls: Ttls): State
    decreases |events|
  {
    if events == [] then s else Run(Next(s, events[0], ttls), events[1..], ttls)
  }

  lemma RunTwo(s: State, a: Event, b: Event, ttls: Ttls)
    ensures Run(s, [a, b], ttls) == Next(Next(s, a, ttls), b, ttls)
  {
    assert [a, b][1..] == [b] && [b][1..] == [];
    assert Run(Next(s, a, ttls), [b], ttls) == Run(Next(Next(s, a, ttls), b, ttls), [], ttls);
  }

  const Empty := State(map[], map[])

  // ----- the code, as it mutates its state

  class SessionTable {
    var rows: map<string, Row>

    constructor ()
      ensures rows == map[]
    {
      rows := map[];
    }

    /** A token is returned, with the record of its row, while the row has not run out. */
    method LoadSessions(now: real, available: bool) returns (records: Option<map<string, Session>>)
      ensures records.Some? <==> available
      ensures records.Some? ==> forall t :: t in records.value <==> t in rows && now < rows[t].expiresAt
      ensures records.Some? ==> forall t :: t in records.value ==> records.value[t] == rows[t].record
    {
      records := if available then Some(Loaded(rows, now)) else None;
    }

    method SaveSession(token: string, record: Session, now: real, available: bool)
      modifies this
      ensures rows == if available then old(rows)[token := Row(record, now + ROW_LIFE)] else old(rows)
    {
      if available {
        rows := rows[token := Row(record, now + ROW_LIFE)];
      }
    }

    method DeleteSession(token: string, available: bool)
      modifies this
      ensures rows == if available then old(rows) - {token} else old(rows)
    {
      if available {
        rows := rows - {token};
      }
    }
  }

  class PersistentSessionDict {
    const repo: SessionTable
    var items: map<string, Session>

    function AsState(): State
      reads this, repo
    {
      State(items, repo.rows)
    }

    /** A failed load is swallowed and leaves the dict empty. */
    constructor (repo: SessionTable, now: real, loaded: bool)
      ensures this.repo == repo
      ensures forall live, ttls :: AsState() == Next(State(live, repo.rows), Restart(now, loaded), ttls)
    {
      this.repo := repo;
      items := map[];
      new;
      var records := repo.LoadSessions(now, loaded);
      if records.Some? {
        assert records.value == Loaded(repo.rows, now);
        items := records.value;
      }
    }

    method Put(token: string, record: Session, now: real, available: bool)
      modifies this, repo
      ensures AsState() == SetItem(old(AsState()), token, record, now, available)
    {
      items := items[token := record];
      repo.SaveSession(token, record, now, available);
    }

    method Remove(token: string, available: bool) returns (removed: Option<Session>)
      modifies this, repo
      ensures AsState() == Pop(old(AsState()), token, available)
      ensures removed == if token in old(items) then Some(old(items)[token]) else None
    {
      var existed := token in items;
      removed := if existed then Some(items[token]) else None;
      if existed {
        items := items - {token};
        repo.DeleteSession(token, available);
      }
    }

    /** The session part of the middleware: is this request authenticated? */
    method Authenticate(token: string, now: real, ttls: Ttls, available: bool) returns (ok: bool)
      modifies this, repo
      ensures ok == old(Accepts(AsState(), token, now, ttls))
      ensures AsState() == Next(old(AsState()), Request(now, token, available), ttls)
    {
      var current := token;
      if current != "" && current in items {
        if Expired(items[current], now, ttls) {
          var _ := Remove(current, available);
        } else {
          items := items[current := items[current].(lastSeen := At(now))];
        }
        if current !in items {
          current := "";
        }
      }
      ok := current != "" && current in items;
    }
  }

  // ----- the invariant: a stored session never outlasts the live one

  predicate WellFormed(s: Session) {
    s.createdAt.At? && !s.lastSeen.Malformed?
  }

  function LastActive(s: Session): real
    requires WellFormed(s)
  {
    if s.lastSeen.At? then s.lastSeen.time else s.createdAt.time
  }

  function Deadline(s: Session, ttls: Ttls): real
    requires WellFormed(s)
  {
    var byAge, byIdle := s.createdAt.time + ttls.absolute, LastActive(s) + ttls.idle;
    if byAge < byIdle then byAge else byIdle
  }

  lemma ExpiredIsPastDeadline(s: Session, now: real, ttls: Ttls)
    requires WellFormed(s)
    ensures Expired(s, now, ttls) <==> now > Deadline(s, ttls)
  {
  }

  predicate UpTo(s: Session, now: real) {
    WellFormed(s) && s.createdAt.time <= now && LastActive(s) <= now
  }

  predicate LiveGood(s: State, t: string, now: real) {
    t in s.live ==> UpTo(s.live[t], now)
  }

  predicate StoredGood(s: State, t: string, now: real) {
    t in s.stored ==> UpTo(s.stored[t].record, now) && AsLoggedIn(s.stored[t])
  }

  /** A stored session is no younger than the live one and was seen no later. */
  predicate PairGood(s: State, t: string) {
    t in s.live && t in s.stored && WellFormed(s.live[t]) && WellFormed(s.stored[t].record) ==>
      && s.stored[t].record.createdAt.time <= s.live[t].createdAt.time
      && LastActive(s.stored[t].record) <= LastActive(s.live[t])
  }

  predicate TokenGood(s: State, t: string, now: real) {
    LiveGood(s, t, now) && StoredGood(s, t, now) && PairGood(s, t)
  }

  ghost predicate StateGood(s: State, now: real) {
    forall t :: TokenGood(s, t, now)
  }

  /** Rows are written at login only, so what they say was last seen is the login itself. */
  predicate AsLoggedIn(row: Row) {
    && row.record.createdAt.At?
    && row.record.lastSeen == row.record.createdAt
    && row.expiresAt == row.record.createdAt.time + ROW_LIFE
  }

  ghost predicate ClockFrom(now: real, events: seq<Event>)
    decreases |events|
  {
    events != [] ==> now <= events[0].now && ClockFrom(events[0].now, events[1..])
  }

  lemma NextKeepsToken(s: State, e: Event, t: string, now: real, ttls: Ttls)
    requires TokenGood(s, t, now) && now <= e.now
    ensures TokenGood(Next(s, e, ttls), t, e.now)
  {
  }

  lemma NextKeepsGood(s: State, e: Event, now: real, ttls: Ttls)
    requires StateGood(s, now) && now <= e.now
    ensures StateGood(Next(s, e, ttls), e.now)
  {
    forall t: string
      ensures TokenGood(Next(s, e, ttls), t, e.now)
    {
      assert TokenGood(s, t, now);
      NextKeepsToken(s, e, t, now, ttls);
    }
  }

  function LatestTime(now: real, events: seq<Event>): real
    decreases |events|
  {
    if events == [] then now else LatestTime(events[0].now, events[1..])
  }

  lemma {:induction false} RunKeepsGood(s: State, events: seq<Event>, now: real, ttls: Ttls)
    requires StateGood(s, now) && ClockFrom(now, events)
    ensures StateGood(Run(s, events, ttls), LatestTime(now, events))
    decreases |events|
  {
    if events != [] {
      NextKeepsGood(s, events[0], now, ttls);
      RunKeepsGood(Next(s, events[0], ttls), events[1..], events[0].now, ttls);
    }
  }

  lemma ReachableToken(events: seq<Event>, start: real, token: string, ttls: Ttls)
    requires ClockFrom(start, events)
    ensures TokenGood(Run(Empty, events, ttls), token, LatestTime(start, events))
  {
    forall t: string
      ensures TokenGood(Empty, t, start)
    {
    }
    RunKeepsGood(Empty, events, start, ttls);
  }

  /** In every reachable state a session that a restart would restore ends no later than the
      live one, so a restart can shorten it but never lengthen it. */
  lemma RestartNeverLengthens(events: seq<Event>, restart: Event, token: string, start: real, ttls: Ttls)
    requires ClockFrom(start, events) && restart.Restart?
    requires token in Run(Empty, events, ttls).live
    requires token in Next(Run(Empty, events, ttls), restart, ttls).live
    ensures var before, after := Run(Empty, events, ttls), Next(Run(Empty, events, ttls), restart, ttls);
            && WellFormed(before.live[token]) && WellFormed(after.live[token])
            && Deadline(after.live[token], ttls) <= Deadline(before.live[token], ttls)
            && forall now :: Accepts(after, token, now, ttls) ==> Accepts(before, token, now, ttls)
  {
    ReachableToken(events, start, token, ttls);
    var before, after := Run(Empty, events, ttls), Next(Run(Empty, events, ttls), restart, ttls);
    forall now
      ensures Expired(before.live[token], now, ttls) <==> now > Deadline(before.live[token], ttls)
      ensures Expired(after.live[token], now, ttls) <==> now > Deadline(after.live[token], ttls)
    {
      ExpiredIsPastDeadline(before.live[token], now, ttls);
      ExpiredIsPastDeadline(after.live[token], now, ttls);
    }
  }

  /** What a restart does to a session: afterwards it is accepted exactly when the table could
      be read and still returns its row, and the login is no longer ago than both lifetimes,
      however active the session has been since. */
  lemma RestartKeepsIff(events: seq<Event>, restart: Event, token: string, now: real, start: real, ttls: Ttls)
    requires ClockFrom(start, events) && restart.Restart? && token != ""
    ensures var s := Run(Empty, events, ttls);
            Accepts(Next(s, restart, ttls), token, now, ttls)
            <==> && restart.loaded && token in s.stored && s.stored[token].record.createdAt.At?
                 && var login := s.stored[token].record.createdAt.time;
                    restart.now < login + 30.0 * 86400.0 && now - login <= ttls.idle && now - login <= ttls.absolute
  {
    ReachableToken(events, start, token, ttls);
  }

  /** So an active session ends early: used after one idle lifetime, it is good for another one
      without a restart, and over at once with it. */
  lemma RestartCutsShort(token: string, username: string, now: real, ttls: Ttls)
    requires token != "" && 0.0 < ttls.idle < now <= 2.0 * ttls.idle && now <= ttls.absolute
    ensures var events := [Login(0.0, token, username, true), Request(ttls.idle, token, true)];
            var s := Run(Empty, events, ttls);
            && Accepts(s, token, now, ttls)
            && !Accepts(Next(s, Restart(ttls.idle, true), ttls), token, now, ttls)
  {
    var login, use := Login(0.0, token, username, true), Request(ttls.idle, token, true);
    RunTwo(Empty, login, use, ttls);
    var s := Run(Empty, [login, use], ttls);
    assert s.live[token] == Session(username, At(0.0), At(ttls.idle));
  }

  // ----- what is over stays over

  /** No copy of the session, live or stored, is unexpired at `now`. */
  ghost predicate Dead(s: State, token: string, now: real, ttls: Ttls) {
    && (token in s.live ==> WellFormed(s.live[token]) && Expired(s.live[token], now, ttls))
    && (token in s.stored ==>
          && WellFormed(s.stored[token].record)
          && (Expired(s.stored[token].record, now, ttls) || s.stored[token].expiresAt <= now))
  }

  ghost predicate NoLogin(events: seq<Event>, token: string) {
    forall i :: 0 <= i < |events| && events[i].Login? ==> events[i].token != token
  }

  /** Whatever happens in `events`, no request with the token gets through. */
  ghost predicate NeverAccepted(s: State, events: seq<Event>, token: string, ttls: Ttls)
    decreases |events|
  {
    events != [] ==>
      && (events[0].Request? && events[0].token == token ==> !Accepts(s, token, events[0].now, ttls))
      && NeverAccepted(Next(s, events[0], ttls), events[1..], token, ttls)
  }

  lemma DeadStaysDead(s: State, e: Event, token: string, now: real, ttls: Ttls)
    requires Dead(s, token, now, ttls) && now <= e.now
    requires e.Login? ==> e.token != token
    ensures Dead(Next(s, e, ttls), token, e.now, ttls) && !Accepts(s, token, e.now, ttls)
  {
  }

  lemma {:induction false} DeadNeverAccepted(s: State, events: seq<Event>, token: string, now: real, ttls: Ttls)
    requires Dead(s, token, now, ttls) && ClockFrom(now, events) && NoLogin(events, token)
    ensures NeverAccepted(s, events, token, ttls)
    decreases |events|
  {
    if events != [] {
      DeadStaysDead(s, events[0], token, now, ttls);
      assert NoLogin(events[1..], token);
      DeadNeverAccepted(Next(s, events[0], ttls), events[1..], token, events[0].now, ttls);
    }
  }

  /** Expiry is permanent: once a request finds its session expired, no later request with
      that token is accepted before a new login with it, even if deleting the row failed and
      restarts reloaded it. */
  lemma ExpiryIsPermanent(before: seq<Event>, request: Event, later: seq<Event>, start: real, ttls: Ttls)
    requires request.Request? && ClockFrom(start, before) && ClockFrom(LatestTime(start, before), [request] + later)
    requires var s := Run(Empty, before, ttls);
             request.token in s.live && Expired(s.live[request.token], request.now, ttls)
    requires NoLogin(later, request.token)
    ensures NeverAccepted(Next(Run(Empty, before, ttls), request, ttls), later, request.token, ttls)
  {
    var s, token := Run(Empty, before, ttls), request.token;
    ReachableToken(before, start, token, ttls);
    assert ([request] + later)[1..] == later;
    ExpiredIsPastDeadline(s.live[token], request.now, ttls);
    if token in s.stored {
      ExpiredIsPastDeadline(s.stored[token].record, request.now, ttls);
    }
    assert Dead(Next(s, request, ttls), token, request.now, ttls);
    DeadNeverAccepted(Next(s, request, ttls), later, token, request.now, ttls);
  }

  /** A logout will leave a row that a restart can load and that is unexpired: there is one, and
      the delete does not reach it, because it fails or because the process does not know the
      token and so does not try. */
  predicate Survives(s: State, logout: Event, ttls: Ttls)
    requires logout.Logout?
  {
    && logout.token in s.stored
    && logout.now < s.stored[logout.token].expiresAt
    && !Expired(s.stored[logout.token].record, logout.now, ttls)
    && (logout.token !in s.live || !logout.deleted)
  }

  /** Logout is final exactly when no such row survives it. */
  lemma LogoutIsFinalIff(before: seq<Event>, logout: Event, start: real, ttls: Ttls)
    requires logout.Logout? && logout.token != ""
    requires ClockFrom(start, before) && LatestTime(start, before) <= logout.now
    ensures var s := Run(Empty, before, ttls);
            (forall later :: ClockFrom(logout.now, later) && NoLogin(later, logout.token) ==>
               NeverAccepted(Next(s, logout, ttls), later, logout.token, ttls))
            <==> !Survives(s, logout, ttls)
  {
    var s, token := Run(Empty, before, ttls), logout.token;
    var after := Next(s, logout, ttls);
    ReachableToken(before, start, token, ttls);
    assert token !in after.live;
    if Survives(s, logout, ttls) {
      var restart, retry := Restart(logout.now, true), Request(logout.now, token, true);
      var later := [restart, retry];
      assert later[1..] == [retry] && later[1..][1..] == [];
      assert ClockFrom(logout.now, later) && NoLogin(later, token);
      assert Accepts(Next(after, restart, ttls), token, logout.now, ttls);
      assert !NeverAccepted(Next(after, restart, ttls), [retry], token, ttls);
      assert !NeverAccepted(after, later, token, ttls);
    } else {
      forall later | ClockFrom(logout.now, later) && NoLogin(later, token)
        ensures NeverAccepted(after, later, token, ttls)
      {
        DeadNeverAccepted(after, later, token, logout.now, ttls);
      }
    }
  }

  /** The delete need not even fail: after a boot that could not read the table the token is
      unknown, and the logout leaves its row alone. */
  lemma UnknownTokenLogout(token: string, username: string, now: real, ttls: Ttls)
    requires token != "" && 0.0 <= now <= ttls.idle && now <= ttls.absolute && now < ROW_LIFE
    ensures var before := [Login(0.0, token, username, true), Restart(0.0, false)];
            Survives(Run(Empty, before, ttls), Logout(now, token, true), ttls)
  {
    var login, restart := Login(0.0, token, username, true), Restart(0.0, false);
    RunTwo(Empty, login, restart, ttls);
  }

  // ----- whose session it is

  /** The session comes from that login: its user and its time of creation. */
  predicate From(s: Session, e: Event, token: string) {
    e.Login? && e.token == token && s.username == e.username && s.createdAt == At(e.now)
  }

  ghost predicate FromSome(s: Session, events: seq<Event>, token: string) {
    exists i :: 0 <= i < |events| && From(s, events[i], token)
  }

  lemma FromLonger(s: Session, events: seq<Event>, e: Event, token: string)
    requires FromSome(s, events, token)
    ensures FromSome(s, events + [e], token)
  {
    var i :| 0 <= i < |events| && From(s, events[i], token);
    assert From(s, (events + [e])[i], token);
  }

  lemma {:induction false} RunSnoc(s: State, events: seq<Event>, e: Event, ttls: Ttls)
    ensures Run(s, events + [e], ttls) == Next(Run(s, events, ttls), e, ttls)
    decreases |events|
  {
    if events == [] {
      assert [] + [e] == [e] && [e][1..] == [];
    } else {
      RunSnoc(Next(s, events[0], ttls), events[1..], e, ttls);
      assert (events + [e])[1..] == events[1..] + [e];
    }
  }

  /** Over every run, through failed writes and restarts, whoever holds a session, live or stored,
      is a user who logged in with its token, at the time the session says. */
  lemma {:induction false} SessionsComeFromLogins(events: seq<Event>, token: string, ttls: Ttls)
    ensures var s := Run(Empty, events, ttls);
            && (token in s.live ==> FromSome(s.live[token], events, token))
            && (token in s.stored ==> FromSome(s.stored[token].record, events, token))
    decreases |events|
  {
    if events != [] {
      var before, e := events[..|events| - 1], events[|events| - 1];
      assert events == before + [e];
      SessionsComeFromLogins(before, token, ttls);
      RunSnoc(Empty, before, e, ttls);
      OneStepFromLogins(Run(Empty, before, ttls), before, e, token, ttls);
    }
  }

  lemma OneStepFromLogins(s: State, before: seq<Event>, e: Event, token: string, ttls: Ttls)
    requires token in s.live ==> FromSome(s.live[token], before, token)
    requires token in s.stored ==> FromSome(s.stored[token].record, before, token)
    ensures var r := Next(s, e, ttls);
            && (token in r.live ==> FromSome(r.live[token], before + [e], token))
            && (token in r.stored ==> FromSome(r.stored[token].record, before + [e], token))
  {
    if token in s.live {
      FromLonger(s.live[token], before, e, token);
      if e.Request? && e.token == token {
        var i :| 0 <= i < |before| && From(s.live[token], before[i], token);
        assert From(s.live[token].(lastSeen := At(e.now)), (before + [e])[i], token);
      }
    }
    if token in s.stored {
      FromLonger(s.stored[token].record, before, e, token);
    }
    if e.Login? && e.token == token {
      assert From(Session(e.username, At(e.now), At(e.now)), (before + [e])[|before|], token);
    }
  }
}
