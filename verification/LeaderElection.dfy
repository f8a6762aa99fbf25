/** Leader election among worker processes: one PostgreSQL advisory lock, held by a
    database session. Every interleaving of starts, lock attempts, exits, session ends and
    lock failures is a sequence of `Step`s. */
module LeaderElection {
  import opened Wrappers

  /** `conn` is the session of the connection object the process keeps; the process never
      asks again whether that session still lives. */
  datatype Worker = Worker(alive: bool, lockNeeded: bool, conn: Option<nat>)

  /** `holder` is the session the database has granted the lock to. */
  datatype World = World(workers: seq<Worker>, holder: Option<nat>, nextSession: nat)

  datatype Step =
    | Start(w: nat, singleton: bool)            // the process starts, with or without the lock switched on
    | TryLock(w: nat)                           // pg_try_advisory_lock answered
    | LockUnavailable(w: nat, granted: bool)    // the attempt raised, before or after the lock was granted
    | Exit(w: nat)                              // crash or return
    | SessionEnds(session: nat)                 // the database drops a session and its lock

  const Off := Worker(false, true, None)

  function Initial(n: nat): World {
    World(seq(n, _ => Off), None, 0)
  }

  function SetWorker(world: World, w: nat, worker: Worker): World
    requires w < |world.workers|
  {
    world.(workers := world.workers[w := worker])
  }

  /** A worker without a lock connection asks for one at the top of its loop. */
  predicate Asks(world: World, w: nat) {
    w < |world.workers| && world.workers[w].alive && world.workers[w].lockNeeded && world.workers[w].conn.None?
  }

  /** One step; a step that is not enabled changes nothing. */
  function Next(world: World, step: Step): World {
    match step
    case Start(w, singleton) =>
      if w < |world.workers| && !world.workers[w].alive
      then SetWorker(world, w, Worker(true, singleton, None)) else world
    case TryLock(w) =>
      if !Asks(world, w) then world
      else
        var asked := world.(nextSession := world.nextSession + 1);
        if world.holder.Some? then asked
        else SetWorker(asked, w, world.workers[w].(conn := Some(world.nextSession)))
             .(holder := Some(world.nextSession))
    case LockUnavailable(w, granted) =>
      if !Asks(world, w) then world
      else
        SetWorker(world, w, world.workers[w].(lockNeeded := false))
        .(nextSession := world.nextSession + 1,
          holder := if granted && world.holder.None? then Some(world.nextSession) else world.holder)
    case Exit(w) =>
      if w < |world.workers| then SetWorker(world, w, Off) else world
    case SessionEnds(session) =>
      if world.holder == Some(session) then world.(holder := None) else world
  }

  function Run(world: World, steps: seq<Step>): World {
    if steps == [] then world else Next(Run(world, steps[..|steps| - 1]), steps[|steps| - 1])
  }

  // ----- who may poll

  predicate MayPoll(worker: Worker) {
    worker.alive && (!worker.lockNeeded || worker.conn.Some?)
  }

  predicate Lockless(worker: Worker) {
    worker.alive && !worker.lockNeeded
  }

  /** Holds a connection whose session the database has since dropped. */
  predicate Stale(world: World, worker: Worker) {
    worker.alive && worker.lockNeeded && worker.conn.Some? && worker.conn != world.holder
  }

  predicate Leads(world: World, worker: Worker) {
    worker.alive && worker.lockNeeded && worker.conn.Some? && worker.conn == world.holder
  }

  function Pollers(world: World): set<nat> {
    set w: nat | w < |world.workers| && MayPoll(world.workers[w])
  }

  function LocklessOnes(world: World): set<nat> {
    set w: nat | w < |world.workers| && Lockless(world.workers[w])
  }

  function StaleOnes(world: World): set<nat> {
    set w: nat | w < |world.workers| && Stale(world, world.workers[w])
  }

  function Leaders(world: World): set<nat> {
    set w: nat | w < |world.workers| && Leads(world, world.workers[w])
  }

  // ----- the invariant

  ghost predicate SessionsDistinct(world: World) {
    && (world.holder.Some? ==> world.holder.value < world.nextSession)
    && (forall w :: 0 <= w < |world.workers| && world.workers[w].conn.Some? ==>
          world.workers[w].conn.value < world.nextSession)
    && (forall v, w :: 0 <= v < w < |world.workers| && world.workers[v].conn.Some? ==>
          world.workers[v].conn != world.workers[w].conn)
  }

  lemma {:induction false} ReachableDistinct(world: World, steps: seq<Step>)
    requires SessionsDistinct(world)
    ensures SessionsDistinct(Run(world, steps))
  {
    if steps != [] {
      ReachableDistinct(world, steps[..|steps| - 1]);
    }
  }

  lemma AtMostOne(s: set<nat>)
    requires forall v, w :: v in s && w in s ==> v == w
    ensures |s| <= 1
  {
    if w :| w in s {
      assert s == {w};
    }
  }

  lemma OneLeader(world: World)
    requires SessionsDistinct(world)
    ensures |Leaders(world)| <= 1
  {
    AtMostOne(Leaders(world));
  }

  lemma PollersPartition(world: World)
    ensures |Pollers(world)| == |Leaders(world)| + |StaleOnes(world)| + |LocklessOnes(world)|
  {
    var a, b, c := Leaders(world), StaleOnes(world), LocklessOnes(world);
    assert Pollers(world) == a + b + c;
    assert a !! b && (a + b) !! c;
    assert |a + b| == |a| + |b|;
  }

  /** In every reachable state the pollers are the leader, the winners whose session died
      and the workers that gave up on the lock, and there is at most one leader. */
  lemma PollersBounded(n: nat, steps: seq<Step>)
    ensures var world := Run(Initial(n), steps);
            && |Pollers(world)| == |Leaders(world)| + |StaleOnes(world)| + |LocklessOnes(world)|
            && |Leaders(world)| <= 1
            && |Pollers(world)| <= 1 + |StaleOnes(world)| + |LocklessOnes(world)|
  {
    ReachableDistinct(Initial(n), steps);
    OneLeader(Run(Initial(n), steps));
    PollersPartition(Run(Initial(n), steps));
  }

  /** The step neither runs a worker without the lock nor ends the session of a live winner. */
  ghost predicate Benign(world: World, step: Step) {
    match step
    case Start(_, singleton) => singleton
    case LockUnavailable(_, _) => false
    case SessionEnds(session) => forall w :: 0 <= w < |world.workers| ==> world.workers[w].conn != Some(session)
    case _ => true
  }

  ghost predicate AllBenign(world: World, steps: seq<Step>) {
    forall i :: 0 <= i < |steps| ==> Benign(Run(world, steps[..i]), steps[i])
  }

  ghost predicate LockRespected(world: World) {
    forall w :: 0 <= w < |world.workers| ==>
      world.workers[w].lockNeeded && (world.workers[w].conn.Some? ==> world.workers[w].conn == world.holder)
  }

  lemma {:induction false} BenignRunsRespectLock(world: World, steps: seq<Step>)
    requires LockRespected(world) && AllBenign(world, steps)
    ensures LockRespected(Run(world, steps))
  {
    if steps != [] {
      var before := steps[..|steps| - 1];
      assert forall i :: 0 <= i < |before| ==> before[i] == steps[i] && before[..i] == steps[..i];
      BenignRunsRespectLock(world, before);
      assert Benign(Run(world, before), steps[|steps| - 1]);
    }
  }

  /** Without session loss and without fallback, at most one worker may poll. */
  lemma SingleLeader(n: nat, steps: seq<Step>)
    requires AllBenign(Initial(n), steps)
    ensures |Pollers(Run(Initial(n), steps))| <= 1
  {
    var world := Run(Initial(n), steps);
    BenignRunsRespectLock(Initial(n), steps);
    PollersBounded(n, steps);
    assert StaleOnes(world) == {} && LocklessOnes(world) == {};
  }

  // ----- when one poller is all there can be

  /** Further facts of every reachable world: a process that is off holds nothing, and one that
      gave up on the lock holds no connection. */
  ghost predicate Tidy(world: World) {
    && SessionsDistinct(world)
    && (forall w :: 0 <= w < |world.workers| && !world.workers[w].alive ==> world.workers[w] == Off)
    && (forall w :: 0 <= w < |world.workers| && !world.workers[w].lockNeeded ==> world.workers[w].conn.None?)
  }

  lemma {:induction false} ReachableTidy(world: World, steps: seq<Step>)
    requires Tidy(world)
    ensures Tidy(Run(world, steps)) && |Run(world, steps).workers| == |world.workers|
  {
    if steps != [] {
      ReachableTidy(world, steps[..|steps| - 1]);
      NextTidy(Run(world, steps[..|steps| - 1]), steps[|steps| - 1]);
    }
  }

  lemma NextTidy(world: World, step: Step)
    requires Tidy(world)
    ensures Tidy(Next(world, step)) && |Next(world, step).workers| == |world.workers|
  {
  }

  /** Whatever benign steps follow, at most one worker may poll. */
  ghost predicate OnePollerAhead(world: World) {
    forall steps :: AllBenign(world, steps) ==> |Pollers(Run(world, steps))| <= 1
  }

  lemma TwoAreTooMany(world: World, v: nat, w: nat)
    requires v != w && v in Pollers(world) && w in Pollers(world)
    ensures |Pollers(world)| >= 2
  {
    assert {v, w} <= Pollers(world);
    SubsetSmaller({v, w}, Pollers(world));
  }

  lemma SubsetSmaller(a: set<nat>, b: set<nat>)
    requires a <= b
    ensures |a| <= |b|
  {
    assert b == a + (b - a);
  }

  /** Once nobody leads, the lock can be had again by ending the session that holds it, if any. */
  function Freeing(world: World, u: nat): seq<Step> {
    [SessionEnds(world.holder.GetOr(world.nextSession)), Exit(u), Start(u, true), TryLock(u)]
  }

  lemma NobodyHolds(world: World)
    requires Tidy(world) && Leaders(world) == {}
    ensures forall w :: 0 <= w < |world.workers| && world.workers[w].conn.Some? ==>
              world.workers[w].conn != world.holder
  {
    forall w: nat | w < |world.workers| && world.workers[w].conn.Some?
      ensures world.workers[w].conn != world.holder
    {
      assert w !in Leaders(world);
    }
  }

  lemma FreeingBenign(world: World, u: nat)
    requires Tidy(world) && Leaders(world) == {} && u < |world.workers|
    ensures AllBenign(world, Freeing(world, u))
    ensures u in Pollers(Run(world, Freeing(world, u)))
    ensures forall v :: v in Pollers(world) && v != u ==> v in Pollers(Run(world, Freeing(world, u)))
  {
    var steps := Freeing(world, u);
    var freed := Next(world, steps[0]);
    NobodyHolds(world);
    assert Benign(world, steps[0]);
    assert freed.holder.None? && freed.workers == world.workers;
    var off := Next(freed, steps[1]);
    var on := Next(off, steps[2]);
    var end := Next(on, steps[3]);
    assert on.holder.None? && on.workers == world.workers[u := Worker(true, true, None)];
    assert end.workers == world.workers[u := Worker(true, true, Some(on.nextSession))];
    PrefixesOfFour(world, steps[0], steps[1], steps[2], steps[3]);
    forall i | 0 <= i < 4
      ensures Benign(Run(world, steps[..i]), steps[i])
    {
      assert i == 0 || i == 1 || i == 2 || i == 3;
    }
  }

  lemma PrefixesOfFour(world: World, a: Step, b: Step, c: Step, d: Step)
    ensures var s := [a, b, c, d];
            && Run(world, s[..0]) == world
            && Run(world, s[..1]) == Next(world, a)
            && Run(world, s[..2]) == Next(Next(world, a), b)
            && Run(world, s[..3]) == Next(Next(Next(world, a), b), c)
            && Run(world, s) == Next(Next(Next(Next(world, a), b), c), d)
  {
    var s := [a, b, c, d];
    RunSnoc(world, [], a);
    RunSnoc(world, [a], b);
    RunSnoc(world, [a, b], c);
    RunSnoc(world, [a, b, c], d);
    assert s[..0] == [] && s[..1] == [] + [a] == [a] && s[..2] == [a] + [b] == [a, b];
    assert s[..3] == [a, b] + [c] == [a, b, c] && s == [a, b, c] + [d];
  }

  lemma OtherWorker(world: World, v: nat) returns (u: nat)
    requires |world.workers| >= 2
    ensures u < |world.workers| && u != v
  {
    u := if v == 0 then 1 else 0;
  }

  lemma NoneStaleOrLockless(world: World)
    requires Tidy(world) && StaleOnes(world) == {} && LocklessOnes(world) == {}
    ensures LockRespected(world)
  {
    forall w: nat | w < |world.workers|
      ensures world.workers[w].lockNeeded
      ensures world.workers[w].conn.Some? ==> world.workers[w].conn == world.holder
    {
      assert w !in StaleOnes(world) && w !in LocklessOnes(world);
    }
  }

  lemma RespectedMeansOne(world: World, more: seq<Step>)
    requires LockRespected(world) && AllBenign(world, more) && SessionsDistinct(world)
    ensures |Pollers(Run(world, more))| <= 1
  {
    var end := Run(world, more);
    BenignRunsRespectLock(world, more);
    ReachableDistinct(world, more);
    OneLeader(end);
    PollersPartition(end);
    assert StaleOnes(end) == {} && LocklessOnes(end) == {};
  }

  lemma OneNow(world: World)
    requires OnePollerAhead(world)
    ensures |Pollers(world)| <= 1
  {
    assert Run(world, []) == world && AllBenign(world, []);
  }

  lemma TwoPollersAhead(world: World, v: nat)
    requires Tidy(world) && |world.workers| >= 2 && v in StaleOnes(world) + LocklessOnes(world)
    ensures !OnePollerAhead(world)
  {
    assert v in Pollers(world);
    if OnePollerAhead(world) {
      OneNow(world);
      if w :| w in Leaders(world) {
        TwoAreTooMany(world, v, w);
      } else {
        var u := OtherWorker(world, v);
        FreeingBenign(world, u);
        TwoAreTooMany(Run(world, Freeing(world, u)), u, v);
      }
    }
  }

  /** Among two or more workers, every benign continuation of a reachable world has at most one
      poller exactly when no session of a live winner is lost and nobody runs without the lock. */
  lemma OnePollerAheadIff(n: nat, steps: seq<Step>)
    requires n >= 2
    ensures var world := Run(Initial(n), steps);
            OnePollerAhead(world) <==> StaleOnes(world) == {} && LocklessOnes(world) == {}
  {
    var world := Run(Initial(n), steps);
    ReachableTidy(Initial(n), steps);
    if StaleOnes(world) + LocklessOnes(world) == {} {
      NoneStaleOrLockless(world);
      forall more | AllBenign(world, more)
        ensures |Pollers(Run(world, more))| <= 1
      {
        RespectedMeansOne(world, more);
      }
    } else {
      var v :| v in StaleOnes(world) + LocklessOnes(world);
      TwoPollersAhead(world, v);
    }
  }

  /** The bound is reached: a leader that loses its session keeps polling beside its successor. */
  lemma SessionLossGivesTwoPollers()
    ensures var steps := [Start(0, true), Start(1, true), TryLock(0), SessionEnds(0), TryLock(1)];
            Pollers(Run(Initial(2), steps)) == {0, 1} && StaleOnes(Run(Initial(2), steps)) == {0}
  {
    var w0 := Initial(2);
    var w1 := Next(w0, Start(0, true));
    var w2 := Next(w1, Start(1, true));
    var w3 := Next(w2, TryLock(0));
    var w4 := Next(w3, SessionEnds(0));
    var w5 := Next(w4, TryLock(1));
    RunFive(w0, Start(0, true), Start(1, true), TryLock(0), SessionEnds(0), TryLock(1));
    assert w5.workers == [Worker(true, true, Some(0)), Worker(true, true, Some(1))] && w5.holder == Some(1);
  }

  lemma RunSnoc(world: World, steps: seq<Step>, step: Step)
    ensures Run(world, steps + [step]) == Next(Run(world, steps), step)
  {
    assert (steps + [step])[..|steps|] == steps;
  }

  lemma RunFive(world: World, a: Step, b: Step, c: Step, d: Step, e: Step)
    ensures Run(world, [a, b, c, d, e]) == Next(Next(Next(Next(Next(world, a), b), c), d), e)
  {
    RunSnoc(world, [], a);
    RunSnoc(world, [a], b);
    RunSnoc(world, [a, b], c);
    RunSnoc(world, [a, b, c], d);
    RunSnoc(world, [a, b, c, d], e);
    assert [] + [a] == [a] && [a] + [b] == [a, b] && [a, b] + [c] == [a, b, c];
    assert [a, b, c] + [d] == [a, b, c, d] && [a, b, c, d] + [e] == [a, b, c, d, e];
  }

  ghost predicate NobodyAsks(world: World, steps: seq<Step>) {
    forall i :: 0 <= i < |steps| && (steps[i].TryLock? || steps[i].LockUnavailable?)
                ==> !Asks(Run(world, steps[..i]), steps[i].w)
  }

  lemma {:induction false} LockStaysFree(world: World, steps: seq<Step>)
    requires world.holder.None? && NobodyAsks(world, steps)
    ensures Run(world, steps).holder.None?
  {
    if steps != [] {
      var front := steps[..|steps| - 1];
      assert forall i :: 0 <= i < |front| ==> front[i] == steps[i] && front[..i] == steps[..i];
      LockStaysFree(world, front);
    }
  }

  /** Takeover: once the holding session is gone nobody leads until some standby asks, and the
      first one to be answered is then the leader; while the session is there, asking changes
      no poller. */
  lemma StandbyTakesOver(world: World, between: seq<Step>, w: nat)
    requires Tidy(world) && NobodyAsks(world, between) && Asks(Run(world, between), w)
    ensures world.holder.None? ==>
              Leaders(Run(world, between)) == {} && Leaders(Next(Run(world, between), TryLock(w))) == {w}
    ensures Run(world, between).holder.Some? ==>
              Pollers(Next(Run(world, between), TryLock(w))) == Pollers(Run(world, between))
  {
    ReachableTidy(world, between);
    if world.holder.None? {
      LockStaysFree(world, between);
    }
  }

  // ----- the worker process, as it mutates its own variables

  /** How the attempt to take the lock came out for the process that made it. */
  datatype Answer = Granted(session: nat) | Refused | Raised

  function AfterAnswer(worker: Worker, answer: Answer): Worker {
    match answer
    case Granted(session) => worker.(conn := Some(session))
    case Refused => worker
    case Raised => worker.(lockNeeded := false)
  }

  class WorkerProcess {
    var lockNeeded: bool
    var leaderConn: Option<nat>

    function AsWorker(): Worker
      reads this
    {
      Worker(true, lockNeeded, leaderConn)
    }

    constructor (singleton: bool)
      ensures AsWorker() == Worker(true, singleton, None)
    {
      lockNeeded, leaderConn := singleton, None;
    }

    /** The election part of one turn of the main loop; `polls` says whether the turn goes
        on to poll. `answer` is looked at only when the process asks. */
    method Turn(answer: Answer) returns (polls: bool)
      modifies this
      ensures AsWorker() == if old(lockNeeded && leaderConn.None?) then AfterAnswer(old(AsWorker()), answer)
                            else old(AsWorker())
      ensures polls <==> MayPoll(AsWorker())
      ensures old(!lockNeeded || leaderConn.Some?) ==>
                polls && lockNeeded == old(lockNeeded) && leaderConn == old(leaderConn)
      ensures old(lockNeeded && leaderConn.None?) ==>
                match answer
                case Granted(session) => polls && lockNeeded && leaderConn == Some(session)
                case Refused => !polls && lockNeeded && leaderConn.None?
                case Raised => polls && !lockNeeded && leaderConn.None?
    {
      if lockNeeded && leaderConn.None? {
        match answer {
          case Granted(session) => leaderConn := Some(session);
          case Refused => return false;
          case Raised => lockNeeded := false;
        }
      }
      return true;
    }
  }

  /** The protocol steps are turns of the process: the world moves the asking worker exactly
      as the process moves itself on the answer the lock gives, and no other worker. */
  lemma StepsAreTurns(world: World, w: nat, granted: bool)
    requires Asks(world, w)
    ensures var answer := if world.holder.None? then Granted(world.nextSession) else Refused;
            Next(world, TryLock(w)).workers == world.workers[w := AfterAnswer(world.workers[w], answer)]
    ensures Next(world, LockUnavailable(w, granted)).workers
            == world.workers[w := AfterAnswer(world.workers[w], Raised)]
  {
    assert world.workers[w := world.workers[w]] == world.workers;
  }
}
