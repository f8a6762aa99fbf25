/** The due-time scheduler of the unified worker: one thread, one clock reading per pass,
    each due poller runs in turn and is due again its interval after its cycle ended.
    Times are seconds of the monotonic clock, as exact reals. */
module Scheduler {
  import opened Wrappers

  datatype Poller = Poller(name: string, interval: real)

  /** One executed cycle of `active[poller]`. */
  datatype Cycle = Cycle(poller: nat, due: real, start: real, end: real)

  datatype Sched = Sched(clock: real, nextRun: map<string, real>, log: seq<Cycle>)

  /** What a pass meets: how long each poller's cycle takes if it runs, and the final sleep. */
  datatype Load = Load(cycles: seq<real>, pause: real)

  ghost predicate Distinct(active: seq<Poller>) {
    && (forall i, j :: 0 <= i < j < |active| ==> active[i].name != active[j].name)
    && (forall i :: 0 <= i < |active| ==> active[i].interval >= 1.0)
  }

  predicate Covers(active: seq<Poller>, nextRun: map<string, real>) {
    forall i :: 0 <= i < |active| ==> active[i].name in nextRun
  }

  /** Every poller may run. */
  predicate AllDue(s: Sched, active: seq<Poller>) {
    forall i :: 0 <= i < |active| ==> active[i].name in s.nextRun && s.nextRun[active[i].name] <= s.clock
  }

  // ----- one pass, as a function

  function Boot(active: seq<Poller>, clock: real): (s: Sched)
    ensures Covers(active, s.nextRun)
  {
    Sched(clock, map p | p in active :: p.name := 0.0, [])
  }

  function Visit(s: Sched, active: seq<Poller>, i: nat, now: real, took: real): (r: Sched)
    requires i < |active| && Covers(active, s.nextRun)
    ensures Covers(active, r.nextRun)
  {
    var due := s.nextRun[active[i].name];
    if now >= due
    then Sched(s.clock + took, s.nextRun[active[i].name := s.clock + took + active[i].interval],
               s.log + [Cycle(i, due, s.clock, s.clock + took)])
    else s
  }

  /** The state after the first `i` pollers of a pass. */
  function PassTo(s: Sched, active: seq<Poller>, load: Load, i: nat): (r: Sched)
    requires i <= |active| == |load.cycles| && Covers(active, s.nextRun)
    ensures Covers(active, r.nextRun)
  {
    if i == 0 then s else Visit(PassTo(s, active, load, i - 1), active, i - 1, s.clock, load.cycles[i - 1])
  }

  function Pass(s: Sched, active: seq<Poller>, load: Load): (r: Sched)
    requires |active| == |load.cycles| && Covers(active, s.nextRun)
    ensures Covers(active, r.nextRun)
  {
    var done := PassTo(s, active, load, |active|);
    done.(clock := done.clock + load.pause)
  }

  function Passes(s: Sched, active: seq<Poller>, loads: seq<Load>): (r: Sched)
    requires Covers(active, s.nextRun)
    requires forall k :: 0 <= k < |loads| ==> |loads[k].cycles| == |active|
    ensures Covers(active, r.nextRun)
  {
    if loads == [] then s else Pass(Passes(s, active, loads[..|loads| - 1]), active, loads[|loads| - 1])
  }

  // ----- one pass, as the loop runs it

  class Worker {
    const active: seq<Poller>
    var nextRun: map<string, real>
    var clock: real
    ghost var log: seq<Cycle>

    ghost function State(): Sched
      reads this
    {
      Sched(clock, nextRun, log)
    }

    constructor (active: seq<Poller>, now: real)
      ensures this.active == active && State() == Boot(active, now)
      ensures clock == now && log == []
      ensures now >= 0.0 ==> AllDue(State(), active)
    {
      this.active := active;
      nextRun := map p | p in active :: p.name := 0.0;
      clock := now;
      log := [];
    }

    method RunPass(load: Load)
      requires |load.cycles| == |active| && Covers(active, nextRun)
      modifies this
      ensures State() == Pass(old(State()), active, load)
    {
      var now := clock;
      for i := 0 to |active|
        invariant State() == PassTo(old(State()), active, load, i)
      {
        var poller := active[i];
        var due := nextRun[poller.name];
        if now >= due {
          var start := clock;
          clock := clock + load.cycles[i];
          log := log + [Cycle(i, due, start, clock)];
          nextRun := nextRun[poller.name := clock + poller.interval];
        }
      }
      clock := clock + load.pause;
    }
  }

  // ----- timing

  /** The end of the latest logged cycle of a poller. */
  function LastEnd(log: seq<Cycle>, poller: nat): Option<real> {
    if log == [] then None
    else if log[|log| - 1].poller == poller then Some(log[|log| - 1].end)
    else LastEnd(log[..|log| - 1], poller)
  }

  /** `k` cycles of length `d`: their product (TimesIsProduct). */
  function Times(k: nat, d: real): real {
    if k == 0 then 0.0 else Times(k - 1, d) + d
  }

  lemma {:induction false} TimesIsProduct(k: nat, d: real)
    ensures Times(k, d) == (k as real) * d
  {
    if k > 0 {
      TimesIsProduct(k - 1, d);
      assert (k as real) == ((k - 1) as real) + 1.0;
      assert (((k - 1) as real) + 1.0) * d == ((k - 1) as real) * d + d;
    }
  }

  lemma {:induction false} TimesMonotone(j: nat, k: nat, d: real)
    requires j <= k && d >= 0.0
    ensures Times(j, d) <= Times(k, d)
    decreases k
  {
    if j < k {
      TimesMonotone(j, k - 1, d);
    }
  }

  lemma {:induction false} TimesAdd(j: nat, k: nat, d: real)
    ensures Times(j + k, d) == Times(j, d) + Times(k, d)
    decreases k
  {
    if k > 0 {
      TimesAdd(j, k - 1, d);
    }
  }

  ghost predicate LoadBounded(load: Load, n: nat, d: real, s: real) {
    && |load.cycles| == n
    && (forall i :: 0 <= i < n ==> 0.0 <= load.cycles[i] <= d)
    && 0.0 <= load.pause <= s
  }

  /** At the top of a pass no poller that has run before is overdue by (n-1) cycles and a sleep. */
  ghost predicate OnTime(st: Sched, active: seq<Poller>, d: real, s: real) {
    forall i :: 0 <= i < |active| && LastEnd(st.log, i).Some? ==>
      && active[i].name in st.nextRun
      && st.nextRun[active[i].name] == LastEnd(st.log, i).value + active[i].interval
      && st.clock < st.nextRun[active[i].name] + Times(|active| - 1, d) + s
  }

  /** Logged cycle `b`, when its due time was set by an earlier cycle, respects the interval
      and starts within (n-1+i) cycles and a sleep of that time, `i` being its position. */
  ghost predicate CycleTimely(log: seq<Cycle>, b: nat, active: seq<Poller>, d: real, s: real)
    requires b < |log|
  {
    var c := log[b];
    && c.poller < |active|
    && (LastEnd(log[..b], c.poller).Some? ==>
          && c.due == LastEnd(log[..b], c.poller).value + active[c.poller].interval
          && c.due <= c.start < c.due + Times(|active| - 1 + c.poller, d) + s)
  }

  ghost predicate LogTimely(log: seq<Cycle>, active: seq<Poller>, d: real, s: real) {
    forall b :: 0 <= b < |log| ==> CycleTimely(log, b, active, d, s)
  }

  /** Where a pass stands after its first `i` pollers. */
  ghost predicate Midway(s0: Sched, st: Sched, active: seq<Poller>, i: nat, d: real)
    requires i <= |active| && Covers(active, s0.nextRun) && Covers(active, st.nextRun)
  {
    && st.clock <= s0.clock + Times(i, d)
    && s0.clock <= st.clock
    && (forall j :: 0 <= j < |active| ==> VisitedOrNot(s0, st, active, i, j, d))
  }

  ghost predicate VisitedOrNot(s0: Sched, st: Sched, active: seq<Poller>, i: nat, j: nat, d: real)
    requires i <= |active| && j < |active| && Covers(active, s0.nextRun) && Covers(active, st.nextRun)
  {
    var name := active[j].name;
    if j < i && s0.clock >= s0.nextRun[name] then
      && LastEnd(st.log, j).Some?
      && st.nextRun[name] == LastEnd(st.log, j).value + active[j].interval
      && st.clock <= LastEnd(st.log, j).value + Times(i - 1 - j, d)
    else
      && st.nextRun[name] == s0.nextRun[name]
      && LastEnd(st.log, j) == LastEnd(s0.log, j)
      && (j < i ==> st.clock <= s0.clock + Times(i - 1, d))
  }

  lemma LastEndSnoc(log: seq<Cycle>, c: Cycle, j: nat)
    ensures LastEnd(log + [c], j) == if c.poller == j then Some(c.end) else LastEnd(log, j)
  {
    assert (log + [c])[..|log|] == log;
  }

  lemma MidwayStep(s0: Sched, st: Sched, active: seq<Poller>, load: Load, i: nat, d: real, s: real)
    requires Distinct(active) && LoadBounded(load, |active|, d, s) && d >= 0.0 && i < |active|
    requires Covers(active, s0.nextRun) && Covers(active, st.nextRun)
    requires Midway(s0, st, active, i, d)
    ensures Midway(s0, Visit(st, active, i, s0.clock, load.cycles[i]), active, i + 1, d)
  {
    var r := Visit(st, active, i, s0.clock, load.cycles[i]);
    var next := i + 1;
    assert VisitedOrNot(s0, st, active, i, i, d);
    forall j | 0 <= j < |active|
      ensures VisitedOrNot(s0, r, active, next, j, d)
    {
      assert VisitedOrNot(s0, st, active, i, j, d);
      LastEndSnoc(st.log, Cycle(i, st.nextRun[active[i].name], st.clock, st.clock + load.cycles[i]), j);
    }
  }

  lemma LogTimelySnoc(log: seq<Cycle>, c: Cycle, active: seq<Poller>, d: real, s: real)
    requires LogTimely(log, active, d, s) && CycleTimely(log + [c], |log|, active, d, s)
    ensures LogTimely(log + [c], active, d, s)
  {
    var longer := log + [c];
    forall b | 0 <= b < |longer|
      ensures CycleTimely(longer, b, active, d, s)
    {
      if b < |log| {
        assert CycleTimely(log, b, active, d, s);
        assert longer[..b] == log[..b];
      }
    }
  }

  lemma VisitTimely(s0: Sched, st: Sched, active: seq<Poller>, load: Load, i: nat, d: real, s: real)
    requires Distinct(active) && LoadBounded(load, |active|, d, s) && d >= 0.0 && i < |active|
    requires Covers(active, s0.nextRun) && Covers(active, st.nextRun)
    requires Midway(s0, st, active, i, d) && OnTime(s0, active, d, s) && LogTimely(st.log, active, d, s)
    ensures LogTimely(Visit(st, active, i, s0.clock, load.cycles[i]).log, active, d, s)
  {
    var due := st.nextRun[active[i].name];
    assert VisitedOrNot(s0, st, active, i, i, d);
    if s0.clock >= due {
      var c := Cycle(i, due, st.clock, st.clock + load.cycles[i]);
      assert (st.log + [c])[..|st.log|] == st.log;
      TimesAdd(|active| - 1, i, d);
      assert CycleTimely(st.log + [c], |st.log|, active, d, s);
      LogTimelySnoc(st.log, c, active, d, s);
    }
  }

  lemma {:induction false} PassToTimely(s0: Sched, active: seq<Poller>, load: Load, i: nat, d: real, s: real)
    requires Distinct(active) && LoadBounded(load, |active|, d, s) && d >= 0.0 && i <= |active|
    requires Covers(active, s0.nextRun) && OnTime(s0, active, d, s) && LogTimely(s0.log, active, d, s)
    ensures Midway(s0, PassTo(s0, active, load, i), active, i, d)
    ensures LogTimely(PassTo(s0, active, load, i).log, active, d, s)
  {
    if i > 0 {
      PassToTimely(s0, active, load, i - 1, d, s);
      var st := PassTo(s0, active, load, i - 1);
      MidwayStep(s0, st, active, load, i - 1, d, s);
      VisitTimely(s0, st, active, load, i - 1, d, s);
    }
  }

  lemma PassKeepsOnTime(s0: Sched, active: seq<Poller>, load: Load, d: real, s: real)
    requires Distinct(active) && LoadBounded(load, |active|, d, s) && d >= 0.0
    requires Covers(active, s0.nextRun) && OnTime(s0, active, d, s) && LogTimely(s0.log, active, d, s)
    ensures OnTime(Pass(s0, active, load), active, d, s)
    ensures LogTimely(Pass(s0, active, load).log, active, d, s)
  {
    var n := |active|;
    PassToTimely(s0, active, load, n, d, s);
    var st := PassTo(s0, active, load, n);
    forall j | 0 <= j < n && LastEnd(st.log, j).Some?
      ensures st.nextRun[active[j].name] == LastEnd(st.log, j).value + active[j].interval
      ensures st.clock + load.pause < st.nextRun[active[j].name] + Times(n - 1, d) + s
    {
      assert VisitedOrNot(s0, st, active, n, j, d);
      TimesMonotone(n - 1 - j, n - 1, d);
    }
  }

  ghost predicate LoadsBounded(loads: seq<Load>, n: nat, d: real, s: real) {
    forall k :: 0 <= k < |loads| ==> LoadBounded(loads[k], n, d, s)
  }

  lemma {:induction false} PassesOnTime(active: seq<Poller>, clock: real, loads: seq<Load>, d: real, s: real)
    requires Distinct(active) && LoadsBounded(loads, |active|, d, s) && d >= 0.0
    ensures OnTime(Passes(Boot(active, clock), active, loads), active, d, s)
    ensures LogTimely(Passes(Boot(active, clock), active, loads).log, active, d, s)
  {
    if loads != [] {
      PassesOnTime(active, clock, loads[..|loads| - 1], d, s);
      PassKeepsOnTime(Passes(Boot(active, clock), active, loads[..|loads| - 1]), active, loads[|loads| - 1], d, s);
    }
  }

  /** The log of a run from the start of the process. */
  function RunLog(active: seq<Poller>, clock: real, loads: seq<Load>): seq<Cycle>
    requires forall k :: 0 <= k < |loads| ==> |loads[k].cycles| == |active|
  {
    Passes(Boot(active, clock), active, loads).log
  }

  /** Over every run of n pollers with distinct names, cycles of at most D and sleeps of at
      most S: a cycle whose due time an earlier cycle set starts no sooner than one interval
      after that cycle ended, and less than (n-1+i)*D + S after it was due, `i` being the
      poller's position; in particular less than (2n-1)*D + S. */
  lemma BoundedLateness(active: seq<Poller>, clock: real, loads: seq<Load>, d: real, s: real, b: nat)
    requires Distinct(active) && LoadsBounded(loads, |active|, d, s) && d >= 0.0
    requires var log := RunLog(active, clock, loads); b < |log| && LastEnd(log[..b], log[b].poller).Some?
    ensures var log := RunLog(active, clock, loads);
            var c := log[b];
            && c.poller < |active|
            && c.due == LastEnd(log[..b], c.poller).value + active[c.poller].interval
            && c.due <= c.start < c.due + Times(|active| - 1 + c.poller, d) + s
            && c.start < c.due + Times(2 * |active| - 1, d) + s
  {
    var log := RunLog(active, clock, loads);
    PassesOnTime(active, clock, loads, d, s);
    assert CycleTimely(log, b, active, d, s);
    TimesMonotone(|active| - 1 + log[b].poller, 2 * |active| - 1, d);
  }

  /** A pass leaves no poller behind: it runs exactly those due at its clock reading, and
      afterwards every due time lies beyond that reading. So a poller due at t has started
      by the end of the first pass whose reading reaches t. */
  lemma PassServesExactlyTheDue(s0: Sched, active: seq<Poller>, load: Load, d: real, s: real, j: nat)
    requires Distinct(active) && LoadBounded(load, |active|, d, s) && d >= 0.0 && j < |active|
    requires Covers(active, s0.nextRun) && OnTime(s0, active, d, s) && LogTimely(s0.log, active, d, s)
    ensures var r := Pass(s0, active, load);
            && r.nextRun[active[j].name] > s0.clock
            && (r.nextRun[active[j].name] == s0.nextRun[active[j].name] <==> s0.clock < s0.nextRun[active[j].name])
            && (s0.clock >= s0.nextRun[active[j].name] ==>
                  LastEnd(r.log, j).Some? && r.nextRun[active[j].name] == LastEnd(r.log, j).value + active[j].interval)
  {
    PassToTimely(s0, active, load, |active|, d, s);
    var st := PassTo(s0, active, load, |active|);
    assert VisitedOrNot(s0, st, active, |active|, j, d);
    if s0.clock >= s0.nextRun[active[j].name] {
      EndsAfterStart(s0, active, load, |active|, d, s, j);
    }
  }

  lemma {:induction false} EndsAfterStart(s0: Sched, active: seq<Poller>, load: Load, i: nat, d: real, s: real, j: nat)
    requires Distinct(active) && LoadBounded(load, |active|, d, s) && d >= 0.0 && j < i <= |active|
    requires Covers(active, s0.nextRun) && OnTime(s0, active, d, s) && LogTimely(s0.log, active, d, s)
    requires s0.clock >= s0.nextRun[active[j].name]
    ensures LastEnd(PassTo(s0, active, load, i).log, j).Some?
    ensures LastEnd(PassTo(s0, active, load, i).log, j).value >= s0.clock
  {
    PassToTimely(s0, active, load, i - 1, d, s);
    var st := PassTo(s0, active, load, i - 1);
    LastEndSnoc(st.log, Cycle(i - 1, st.nextRun[active[i - 1].name], st.clock, st.clock + load.cycles[i - 1]), j);
    if j < i - 1 {
      EndsAfterStart(s0, active, load, i - 1, d, s, j);
    } else {
      assert VisitedOrNot(s0, st, active, i - 1, j, d);
    }
  }

  // ----- the start

  /** The first `j + 1` pollers have run, in list order and one after the other. */
  ghost predicate RanAt(log: seq<Cycle>, j: nat, active: seq<Poller>, clock: real, load: Load, d: real)
    requires j < |load.cycles|
  {
    && j < |log| && log[j].poller == j
    && clock <= log[j].start <= clock + Times(j, d)
    && log[j].end == log[j].start + load.cycles[j]
  }

  ghost predicate Started(s0: Sched, st: Sched, active: seq<Poller>, load: Load, i: nat, d: real)
    requires i <= |active| == |load.cycles|
  {
    && |st.log| == i
    && s0.clock <= st.clock <= s0.clock + Times(i, d)
    && (forall j: nat :: j < i ==> RanAt(st.log, j, active, s0.clock, load, d))
    && (forall j: nat :: i <= j < |active| ==>
          active[j].name in st.nextRun && st.nextRun[active[j].name] <= s0.clock)
  }

  lemma StartStep(s0: Sched, st: Sched, active: seq<Poller>, load: Load, i: nat, d: real, s: real)
    requires Distinct(active) && LoadBounded(load, |active|, d, s) && i < |active|
    requires Covers(active, st.nextRun) && Started(s0, st, active, load, i, d)
    ensures Started(s0, Visit(st, active, i, s0.clock, load.cycles[i]), active, load, i + 1, d)
  {
    var r := Visit(st, active, i, s0.clock, load.cycles[i]);
    forall j: nat | j < i + 1
      ensures RanAt(r.log, j, active, s0.clock, load, d)
    {
      if j < i {
        assert RanAt(st.log, j, active, s0.clock, load, d);
      }
    }
  }

  lemma {:induction false} StartTo(s0: Sched, active: seq<Poller>, load: Load, i: nat, d: real, s: real)
    requires Distinct(active) && LoadBounded(load, |active|, d, s) && i <= |active|
    requires Covers(active, s0.nextRun) && AllDue(s0, active) && s0.log == []
    ensures Started(s0, PassTo(s0, active, load, i), active, load, i, d)
  {
    if i > 0 {
      StartTo(s0, active, load, i - 1, d, s);
      StartStep(s0, PassTo(s0, active, load, i - 1), active, load, i - 1, d, s);
    }
  }

  /** From a state in which all are due, which is how a worker starts, the first pass runs every
      poller exactly once, in list order, the j-th after at most j cycles. */
  lemma FirstPassRunsEveryPoller(s0: Sched, active: seq<Poller>, load: Load, d: real, s: real)
    requires Distinct(active) && LoadBounded(load, |active|, d, s)
    requires Covers(active, s0.nextRun) && AllDue(s0, active) && s0.log == []
    ensures var log := Pass(s0, active, load).log;
            |log| == |active| && forall j: nat :: j < |active| ==> RanAt(log, j, active, s0.clock, load, d)
  {
    StartTo(s0, active, load, |active|, d, s);
  }

  lemma {:induction false} PassToGrows(s0: Sched, active: seq<Poller>, load: Load, i: nat)
    requires i <= |active| == |load.cycles| && Covers(active, s0.nextRun)
    ensures s0.log <= PassTo(s0, active, load, i).log
  {
    if i > 0 {
      PassToGrows(s0, active, load, i - 1);
    }
  }

  lemma {:induction false} FirstPassStays(s0: Sched, active: seq<Poller>, loads: seq<Load>)
    requires loads != [] && Covers(active, s0.nextRun)
    requires forall k :: 0 <= k < |loads| ==> |loads[k].cycles| == |active|
    ensures Pass(s0, active, loads[0]).log <= Passes(s0, active, loads).log
  {
    var front := loads[..|loads| - 1];
    if front == [] {
      assert Passes(s0, active, front) == s0;
    } else {
      FirstPassStays(s0, active, front);
      PassToGrows(Passes(s0, active, front), active, loads[|loads| - 1], |active|);
    }
  }

  /** So over every run from a clock of at least 0 the first n cycles are one of each poller, in
      list order, the j-th starting at most j cycles of D after the process. */
  lemma EveryPollerStarts(active: seq<Poller>, clock: real, loads: seq<Load>, d: real, s: real, j: nat)
    requires Distinct(active) && LoadsBounded(loads, |active|, d, s) && loads != [] && clock >= 0.0
    requires j < |active|
    ensures RanAt(RunLog(active, clock, loads), j, active, clock, loads[0], d)
  {
    var s0 := Boot(active, clock);
    assert LoadBounded(loads[0], |active|, d, s);
    FirstPassRunsEveryPoller(s0, active, loads[0], d, s);
    FirstPassStays(s0, active, loads);
    assert RanAt(Pass(s0, active, loads[0]).log, j, active, clock, loads[0], d);
  }
}
