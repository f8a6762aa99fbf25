/** The query-service cache: a time-to-live cache checked under a lock, with the slow
    snapshot taken outside it. Times are exact reals of one non-decreasing clock. */
module QueryCache {
  import opened Wrappers

  /** A query service over a repository snapshot, and when that snapshot was taken. */
  datatype Service = Service(id: nat, takenAt: real)

  /** `ts` is the clock value read by the call that stored `svc`, before its snapshot. */
  datatype Slot = Slot(svc: Service, ts: real)

  /** The check made under the first lock. */
  function Lookup(slot: Option<Slot>, now: real, ttl: real): Option<Service> {
    if slot.Some? && now - slot.value.ts < ttl then Some(slot.value.svc) else None
  }

  // ----- any number of threads

  datatype Phase =
    | Idle
    | Bypassing(called: real)                               // ttl <= 0: straight to the factory
    | Reading(now: real, ttl: real)                         // clock read, first lock not yet taken
    | Missed(now: real, ttl: real)                          // checked, snapshot not yet taken
    | Holding(now: real, ttl: real, snap: Service)         // snapshot taken, not yet stored
    | Returned(now: real, ttl: real, svc: Service)

  datatype System = System(time: real, slot: Option<Slot>, threads: map<nat, Phase>, taken: nat)

  datatype Step =
    | Tick(passed: real)
    | Call(thread: nat, ttl: real)
    | Check(thread: nat)
    | Snapshot(thread: nat)
    | Store(thread: nat)

  function PhaseOf(sys: System, thread: nat): Phase {
    if thread in sys.threads then sys.threads[thread] else Idle
  }

  function Move(sys: System, thread: nat, phase: Phase): System {
    sys.(threads := sys.threads[thread := phase])
  }

  /** One step of one thread; a step that is not enabled changes nothing. */
  function Next(sys: System, step: Step): System {
    match step
    case Tick(passed) => if passed >= 0.0 then sys.(time := sys.time + passed) else sys
    case Call(t, ttl) =>
      if PhaseOf(sys, t).Idle? || PhaseOf(sys, t).Returned?
      then Move(sys, t, if ttl <= 0.0 then Bypassing(sys.time) else Reading(sys.time, ttl)) else sys
    case Check(t) =>
      (match PhaseOf(sys, t)
       case Reading(now, ttl) =>
         var found := Lookup(sys.slot, now, ttl);
         Move(sys, t, if found.Some? then Returned(now, ttl, found.value) else Missed(now, ttl))
       case _ => sys)
    case Snapshot(t) =>
      (match PhaseOf(sys, t)
       case Bypassing(called) =>
         Move(sys, t, Returned(called, 0.0, Service(sys.taken, sys.time))).(taken := sys.taken + 1)
       case Missed(now, ttl) =>
         Move(sys, t, Holding(now, ttl, Service(sys.taken, sys.time))).(taken := sys.taken + 1)
       case _ => sys)
    case Store(t) =>
      (match PhaseOf(sys, t)
       case Holding(now, ttl, snap) =>
         Move(sys, t, Returned(now, ttl, snap)).(slot := Some(Slot(snap, now)))
       case _ => sys)
  }

  function Run(sys: System, steps: seq<Step>): System {
    if steps == [] then sys else Next(Run(sys, steps[..|steps| - 1]), steps[|steps| - 1])
  }

  const Start := System(0.0, None, map[], 0)

  /** What a thread may rely on in each phase. */
  predicate PhaseGood(phase: Phase, time: real) {
    match phase
    case Idle => true
    case Bypassing(called) => called <= time
    case Reading(now, ttl) => now <= time && ttl > 0.0
    case Missed(now, ttl) => now <= time && ttl > 0.0
    case Holding(now, ttl, snap) => now <= snap.takenAt <= time && ttl > 0.0
    case Returned(now, ttl, svc) =>
      now <= time && svc.takenAt <= time && if ttl > 0.0 then svc.takenAt > now - ttl else svc.takenAt >= now
  }

  ghost predicate SystemGood(sys: System) {
    && (sys.slot.Some? ==> sys.slot.value.ts <= sys.slot.value.svc.takenAt <= sys.time)
    && (forall t :: t in sys.threads ==> PhaseGood(sys.threads[t], sys.time))
  }

  lemma StepKeepsGood(sys: System, step: Step)
    requires SystemGood(sys)
    ensures SystemGood(Next(sys, step))
  {
    if !step.Tick? {
      assert PhaseGood(PhaseOf(sys, step.thread), sys.time);
    }
  }

  lemma {:induction false} ReachableGood(sys: System, steps: seq<Step>)
    requires SystemGood(sys)
    ensures SystemGood(Run(sys, steps))
  {
    if steps != [] {
      ReachableGood(sys, steps[..|steps| - 1]);
      StepKeepsGood(Run(sys, steps[..|steps| - 1]), steps[|steps| - 1]);
    }
  }

  /** Bounded staleness under every interleaving: a call that read the clock at `now` returns
      a snapshot taken later than now - ttl, each call with its own ttl; with the cache
      switched off, one taken after the call. */
  lemma StalenessBounded(steps: seq<Step>, thread: nat)
    requires PhaseOf(Run(Start, steps), thread).Returned?
    ensures var r := PhaseOf(Run(Start, steps), thread);
            if r.ttl > 0.0 then r.svc.takenAt > r.now - r.ttl else r.svc.takenAt >= r.now
  {
    ReachableGood(Start, steps);
    assert PhaseGood(Run(Start, steps).threads[thread], Run(Start, steps).time);
  }

  lemma {:induction false} RunAppend(sys: System, p: seq<Step>, q: seq<Step>)
    ensures Run(sys, p + q) == Run(Run(sys, p), q)
  {
    if q == [] {
      assert p + q == p;
    } else {
      assert (p + q)[..|p + q| - 1] == p + q[..|q| - 1];
      RunAppend(sys, p, q[..|q| - 1]);
    }
  }

  lemma RunFour(sys: System, a: Step, b: Step, c: Step, d: Step)
    ensures Run(sys, [a, b, c, d]) == Next(Next(Next(Next(sys, a), b), c), d)
  {
    RunOne(sys, a);
    RunAppend(sys, [a], [b]);
    RunOne(Run(sys, [a]), b);
    RunAppend(sys, [a, b], [c]);
    RunOne(Run(sys, [a, b]), c);
    RunAppend(sys, [a, b, c], [d]);
    RunOne(Run(sys, [a, b, c]), d);
    assert [a] + [b] == [a, b] && [a, b] + [c] == [a, b, c] && [a, b, c] + [d] == [a, b, c, d];
  }

  lemma RunOne(sys: System, step: Step)
    ensures Run(sys, [step]) == Next(sys, step)
  {
    assert [step][..0] == [];
  }

  /** Several threads may still see time run backwards: a slow thread stores an older
      snapshot over a newer one, and a later call returns it. */
  lemma OlderSnapshotMayReturn()
    ensures var slow := [Call(0, 10.0), Check(0), Snapshot(0), Tick(1.0)];
            var quick := [Call(1, 10.0), Check(1), Snapshot(1), Store(1)];
            var after := [Store(0), Tick(1.0), Call(1, 10.0), Check(1)];
            && PhaseOf(Run(Start, slow + quick), 1) == Returned(1.0, 10.0, Service(1, 1.0))
            && PhaseOf(Run(Start, slow + quick + after), 1) == Returned(2.0, 10.0, Service(0, 0.0))
  {
    var slow := [Call(0, 10.0), Check(0), Snapshot(0), Tick(1.0)];
    var quick := [Call(1, 10.0), Check(1), Snapshot(1), Store(1)];
    RunFour(Start, Call(0, 10.0), Check(0), Snapshot(0), Tick(1.0));
    var s := Run(Start, slow);
    assert s.slot == None && s.time == 1.0 && s.taken == 1 && PhaseOf(s, 0) == Holding(0.0, 10.0, Service(0, 0.0));
    QuickCall(s);
    RunAppend(Start, slow, quick);
    SlowStore(Run(s, quick));
    RunAppend(Start, slow + quick, [Store(0), Tick(1.0), Call(1, 10.0), Check(1)]);
  }

  lemma QuickCall(s: System)
    requires s.slot == None && s.time == 1.0 && s.taken == 1
    requires PhaseOf(s, 0) == Holding(0.0, 10.0, Service(0, 0.0)) && PhaseOf(s, 1) == Idle
    ensures var r := Run(s, [Call(1, 10.0), Check(1), Snapshot(1), Store(1)]);
            && PhaseOf(r, 0) == PhaseOf(s, 0) && PhaseOf(r, 1) == Returned(1.0, 10.0, Service(1, 1.0)) && r.time == 1.0
  {
    RunFour(s, Call(1, 10.0), Check(1), Snapshot(1), Store(1));
  }

  lemma SlowStore(s: System)
    requires s.time == 1.0 && PhaseOf(s, 1).Returned? && PhaseOf(s, 0) == Holding(0.0, 10.0, Service(0, 0.0))
    ensures PhaseOf(Run(s, [Store(0), Tick(1.0), Call(1, 10.0), Check(1)]), 1) == Returned(2.0, 10.0, Service(0, 0.0))
  {
    RunFour(s, Store(0), Tick(1.0), Call(1, 10.0), Check(1));
  }

  // ----- exactly when time runs backwards

  /** The step stores a snapshot that is older than the one in the slot. */
  predicate StaleStore(sys: System, step: Step) {
    step.Store? && sys.slot.Some?
    && match PhaseOf(sys, step.thread)
       case Holding(_, _, snap) => snap.takenAt < sys.slot.value.svc.takenAt
       case _ => false
  }

  /** The snapshot in the slot does not get older from one state to the other. */
  predicate SlotForward(before: System, after: System) {
    before.slot.Some? ==> after.slot.Some? && before.slot.value.svc.takenAt <= after.slot.value.svc.takenAt
  }

  ghost predicate NoStaleStore(sys: System, steps: seq<Step>) {
    forall i: nat :: i < |steps| ==> !StaleStore(Run(sys, steps[..i]), steps[i])
  }

  ghost predicate ForwardAt(sys: System, steps: seq<Step>, i: nat)
    requires i < |steps|
  {
    SlotForward(Run(sys, steps[..i]), Next(Run(sys, steps[..i]), steps[i]))
  }

  lemma StepForwardIff(sys: System, step: Step)
    ensures SlotForward(sys, Next(sys, step)) <==> !StaleStore(sys, step)
  {
  }

  /** Over any run the slot goes forward at every step exactly when no thread stores a snapshot
      that is older than the one it finds. */
  lemma SlotForwardIff(sys: System, steps: seq<Step>)
    ensures (forall i: nat :: i < |steps| ==> ForwardAt(sys, steps, i)) <==> NoStaleStore(sys, steps)
  {
    forall i: nat | i < |steps|
      ensures ForwardAt(sys, steps, i) <==> !StaleStore(Run(sys, steps[..i]), steps[i])
    {
      StepForwardIff(Run(sys, steps[..i]), steps[i]);
    }
  }

  /** Nothing a thread can still return from this call is older than `least`. */
  predicate AtLeast(sys: System, thread: nat, least: real) {
    && sys.time >= least
    && sys.slot.Some? && sys.slot.value.svc.takenAt >= least
    && match PhaseOf(sys, thread)
       case Holding(_, _, snap) => snap.takenAt >= least
       case Returned(_, _, svc) => svc.takenAt >= least
       case _ => true
  }

  lemma StepAtLeast(sys: System, step: Step, thread: nat, least: real)
    requires AtLeast(sys, thread, least) && !StaleStore(sys, step)
    ensures AtLeast(Next(sys, step), thread, least)
  {
  }

  lemma {:induction false} RunAtLeast(sys: System, steps: seq<Step>, thread: nat, least: real)
    requires AtLeast(sys, thread, least) && NoStaleStore(sys, steps)
    ensures AtLeast(Run(sys, steps), thread, least)
  {
    if steps != [] {
      var front := steps[..|steps| - 1];
      assert forall i: nat :: i < |front| ==> front[..i] == steps[..i] && front[i] == steps[i];
      RunAtLeast(sys, front, thread, least);
      StepAtLeast(Run(sys, front), steps[|steps| - 1], thread, least);
    }
  }

  /** A thread that gets its answer through the cache leaves that answer in the slot. */
  lemma AnswerIsInSlot(sys: System, step: Step)
    requires step.Check? || step.Store?
    requires !PhaseOf(sys, step.thread).Returned? && PhaseOf(Next(sys, step), step.thread).Returned?
    ensures var r := PhaseOf(Next(sys, step), step.thread);
            Next(sys, step).slot.Some? && Next(sys, step).slot.value.svc == r.svc
  {
  }

  /** While no thread stores over a newer snapshot, a call that starts after another call got
      its answer through the cache never returns an older one, whatever the interleaving:
      `answer` is the step that ended the one call, `Call(later, ttl)` the start of the other. */
  lemma LaterCallsNoOlder(
    before: seq<Step>, answer: Step, between: seq<Step>, later: nat, ttl: real, rest: seq<Step>)
    requires answer.Check? || answer.Store?
    requires !PhaseOf(Run(Start, before), answer.thread).Returned?
    requires PhaseOf(Run(Start, before + [answer]), answer.thread).Returned?
    requires var sys := Run(Start, before + [answer]);
             && NoStaleStore(sys, between)
             && (PhaseOf(Run(sys, between), later).Idle? || PhaseOf(Run(sys, between), later).Returned?)
             && NoStaleStore(Next(Run(sys, between), Call(later, ttl)), rest)
             && PhaseOf(Run(Next(Run(sys, between), Call(later, ttl)), rest), later).Returned?
    ensures var sys := Run(Start, before + [answer]);
            PhaseOf(Run(Next(Run(sys, between), Call(later, ttl)), rest), later).svc.takenAt
            >= PhaseOf(sys, answer.thread).svc.takenAt
  {
    var sys, least := Run(Start, before + [answer]), PhaseOf(Run(Start, before + [answer]), answer.thread).svc.takenAt;
    RunOne(Run(Start, before), answer);
    RunAppend(Start, before, [answer]);
    AnswerIsInSlot(Run(Start, before), answer);
    ReachableGood(Start, before + [answer]);
    RunAtLeast(sys, between, answer.thread, least);
    var called := Next(Run(sys, between), Call(later, ttl));
    assert AtLeast(called, later, least);
    RunAtLeast(called, rest, later, least);
  }

  // ----- when no store can be stale

  /** Between its miss and its store. */
  predicate Busy(sys: System, thread: nat) {
    PhaseOf(sys, thread).Missed? || PhaseOf(sys, thread).Holding?
  }

  ghost predicate OneBusy(sys: System) {
    forall t, u :: Busy(sys, t) && Busy(sys, u) ==> t == u
  }

  ghost predicate NeverOverlapping(sys: System, steps: seq<Step>) {
    forall i: nat :: i <= |steps| ==> OneBusy(Run(sys, steps[..i]))
  }

  /** Whoever holds a snapshot took it after the one in the slot was taken. */
  predicate HolderNewer(sys: System, t: nat) {
    PhaseOf(sys, t).Holding? && sys.slot.Some? ==> sys.slot.value.svc.takenAt <= PhaseOf(sys, t).snap.takenAt
  }

  ghost predicate HoldersNewer(sys: System) {
    forall t :: HolderNewer(sys, t)
  }

  lemma StepHolderNewer(sys: System, step: Step, t: nat)
    requires SystemGood(sys) && HolderNewer(sys, t)
    requires !step.Tick? && Busy(sys, t) && Busy(sys, step.thread) ==> t == step.thread
    ensures HolderNewer(Next(sys, step), t)
  {
    if !step.Tick? && step.thread != t {
      assert PhaseOf(Next(sys, step), t) == PhaseOf(sys, t);
    }
  }

  lemma StepHoldersNewer(sys: System, step: Step)
    requires SystemGood(sys) && OneBusy(sys) && HoldersNewer(sys)
    ensures HoldersNewer(Next(sys, step)) && !StaleStore(sys, step)
  {
    forall t: nat
      ensures HolderNewer(Next(sys, step), t)
    {
      assert HolderNewer(sys, t);
      StepHolderNewer(sys, step, t);
    }
    if step.Store? {
      assert HolderNewer(sys, step.thread);
    }
  }

  lemma {:induction false} RunHoldersNewer(steps: seq<Step>)
    requires NeverOverlapping(Start, steps)
    ensures HoldersNewer(Run(Start, steps)) && NoStaleStore(Start, steps)
  {
    if steps != [] {
      var front, last := steps[..|steps| - 1], steps[|steps| - 1];
      assert forall i: nat :: i <= |front| ==> front[..i] == steps[..i];
      RunHoldersNewer(front);
      ReachableGood(Start, front);
      assert OneBusy(Run(Start, steps[..|front|]));
      StepHoldersNewer(Run(Start, front), last);
      forall i: nat | i < |steps|
        ensures !StaleStore(Run(Start, steps[..i]), steps[i])
      {
        assert i < |front| ==> front[i] == steps[i];
      }
    }
  }

  /** While no two calls are between miss and store at the same time, the cached snapshot never
      goes back: overlapping misses are what it takes. */
  lemma SeparateMissesNeverGoBack(steps: seq<Step>)
    requires NeverOverlapping(Start, steps)
    ensures NoStaleStore(Start, steps)
    ensures forall i: nat :: i < |steps| ==> ForwardAt(Start, steps, i)
  {
    RunHoldersNewer(steps);
    SlotForwardIff(Start, steps);
  }

  /** A call with the cache switched off is no part of this: it returns a snapshot of the moment,
      and a cached call after it may still return the older one. */
  lemma BypassOutrunsCache(sys: System, t: nat, ttl: real)
    requires sys.slot.Some? && sys.slot.value.svc.takenAt < sys.time
    requires PhaseOf(sys, t).Idle? || PhaseOf(sys, t).Returned?
    requires ttl > 0.0 && sys.time - sys.slot.value.ts < ttl
    ensures var first := Next(Next(sys, Call(t, 0.0)), Snapshot(t));
            var second := Next(Next(first, Call(t, ttl)), Check(t));
            && PhaseOf(first, t).Returned? && PhaseOf(first, t).svc.takenAt == sys.time
            && PhaseOf(second, t).Returned? && PhaseOf(second, t).svc == sys.slot.value.svc
  {
  }

  // ----- when one is

  /** And the condition is needed: once a thread has stored over a newer snapshot, the next call
      of any free thread returns the older one if its ttl allows. */
  lemma StaleStoreIsSeen(sys: System, store: Step, u: nat, ttl: real)
    requires StaleStore(sys, store) && SystemGood(sys) && u != store.thread
    requires PhaseOf(sys, u).Idle? || PhaseOf(sys, u).Returned?
    requires ttl > sys.time - PhaseOf(sys, store.thread).now && ttl > 0.0
    ensures var end := Next(Next(Next(sys, store), Call(u, ttl)), Check(u));
            PhaseOf(end, u).Returned? && PhaseOf(end, u).svc.takenAt < sys.slot.value.svc.takenAt
  {
  }

  // ----- one thread

  /** One call: the clock value it reads, and the service the factory would return to it. */
  datatype Request = Request(now: real, snap: Service)

  datatype Reply = Reply(slot: Option<Slot>, svc: Service, factoryCalled: bool)

  function Answer(slot: Option<Slot>, ttl: real, r: Request): Reply {
    var found := Lookup(slot, r.now, ttl);
    if found.Some? then Reply(slot, found.value, false) else Reply(Some(Slot(r.snap, r.now)), r.snap, true)
  }

  class ServiceGetter {
    const fixed: Option<Service>
    const hasFactory: bool
    var cache: Option<Slot>

    constructor (fixed: Option<Service>, hasFactory: bool)
      ensures this.fixed == fixed && this.hasFactory == hasFactory && cache == None
    {
      this.fixed, this.hasFactory := fixed, hasFactory;
      cache := None;
    }

    /** `fallback` is what `create_default` would return. */
    method Get(ttl: real, r: Request, fallback: Service) returns (svc: Service)
      modifies this
      ensures fixed.Some? ==> svc == fixed.value && cache == old(cache)
      ensures fixed.None? && !hasFactory ==> svc == fallback && cache == old(cache)
      ensures fixed.None? && hasFactory && ttl <= 0.0 ==> svc == r.snap && cache == old(cache)
      ensures fixed.None? && hasFactory && ttl > 0.0 ==>
                svc == Answer(old(cache), ttl, r).svc && cache == Answer(old(cache), ttl, r).slot
    {
      if fixed.Some? {
        return fixed.value;
      }
      if !hasFactory {
        return fallback;
      }
      if ttl <= 0.0 {
        return r.snap;
      }
      if cache.Some? && r.now - cache.value.ts < ttl {
        return cache.value.svc;
      }
      cache := Some(Slot(r.snap, r.now));
      return r.snap;
    }
  }

  /** An uninterrupted call through the phases is one `Answer`. */
  lemma UninterruptedCall(sys: System, t: nat, ttl: real)
    requires PhaseOf(sys, t).Idle? && ttl > 0.0
    ensures var end := Next(Next(Next(Next(sys, Call(t, ttl)), Check(t)), Snapshot(t)), Store(t));
            var reply := Answer(sys.slot, ttl, Request(sys.time, Service(sys.taken, sys.time)));
            PhaseOf(end, t) == Returned(sys.time, ttl, reply.svc) && end.slot == reply.slot
  {
  }

  function SlotAfter(ttl: real, calls: seq<Request>): Option<Slot> {
    if calls == [] then None
    else Answer(SlotAfter(ttl, calls[..|calls| - 1]), ttl, calls[|calls| - 1]).slot
  }

  function ReplyTo(ttl: real, calls: seq<Request>, i: nat): Reply
    requires i < |calls|
  {
    Answer(SlotAfter(ttl, calls[..i]), ttl, calls[i])
  }

  /** One thread: a call reads the clock, snapshots no earlier than that, and ends before the next call. */
  ghost predicate Sequential(calls: seq<Request>) {
    && (forall i :: 0 <= i < |calls| ==> calls[i].now <= calls[i].snap.takenAt)
    && (forall i, j :: 0 <= i < j < |calls| ==> calls[i].snap.takenAt <= calls[j].now)
  }

  /** The slot is what the latest factory call stored. */
  ghost predicate StoredBy(ttl: real, calls: seq<Request>, n: nat, i: nat)
    requires i < n <= |calls|
  {
    && ReplyTo(ttl, calls, i).factoryCalled
    && (forall k :: i < k < n ==> !ReplyTo(ttl, calls, k).factoryCalled)
    && SlotAfter(ttl, calls[..n]) == Some(Slot(calls[i].snap, calls[i].now))
  }

  lemma {:induction false} LatestFactoryCall(ttl: real, calls: seq<Request>, n: nat) returns (i: nat)
    requires 0 < n <= |calls|
    ensures i < n && StoredBy(ttl, calls, n, i)
  {
    assert calls[..n][..n - 1] == calls[..n - 1];
    if ReplyTo(ttl, calls, n - 1).factoryCalled {
      i := n - 1;
    } else {
      i := LatestFactoryCall(ttl, calls, n - 1);
    }
  }

  /** With one thread, the clock values read by consecutive factory calls are at least ttl
      apart, and no call returns an older snapshot than an earlier call did. */
  lemma FactoryCallsSpaced(ttl: real, calls: seq<Request>, i: nat, j: nat)
    requires ttl > 0.0 && Sequential(calls) && i < j < |calls|
    requires ReplyTo(ttl, calls, i).factoryCalled && ReplyTo(ttl, calls, j).factoryCalled
    requires forall k :: i < k < j ==> !ReplyTo(ttl, calls, k).factoryCalled
    ensures calls[j].now - calls[i].now >= ttl
  {
    var last := LatestFactoryCall(ttl, calls, j);
    assert last == i;
  }

  lemma SnapshotsNeverGoBack(ttl: real, calls: seq<Request>, i: nat, j: nat)
    requires ttl > 0.0 && Sequential(calls) && i < j < |calls|
    ensures ReplyTo(ttl, calls, i).svc.takenAt <= ReplyTo(ttl, calls, j).svc.takenAt
  {
    var a := LatestFactoryCall(ttl, calls, i + 1);
    var b := LatestFactoryCall(ttl, calls, j + 1);
    assert calls[..i + 1][..i] == calls[..i] && calls[..j + 1][..j] == calls[..j];
    assert ReplyTo(ttl, calls, i).svc == calls[a].snap;
    assert ReplyTo(ttl, calls, j).svc == calls[b].snap;
    assert a <= b;
  }

  /** The spacing is in clock values read, not in snapshots: a slow factory call and a quick
      one after it can be closer together than ttl. */
  lemma SnapshotsMayBeCloser()
    ensures var calls := [Request(0.0, Service(0, 5.0)), Request(10.0, Service(1, 10.0))];
            && Sequential(calls)
            && ReplyTo(10.0, calls, 0).factoryCalled && ReplyTo(10.0, calls, 1).factoryCalled
            && calls[1].snap.takenAt - calls[0].snap.takenAt < 10.0
  {
    var calls := [Request(0.0, Service(0, 5.0)), Request(10.0, Service(1, 10.0))];
    assert calls[..1] == [calls[0]] && calls[..1][..0] == [] && calls[..0] == [];
    assert SlotAfter(10.0, calls[..1]) == Some(Slot(calls[0].snap, 0.0));
  }
}
