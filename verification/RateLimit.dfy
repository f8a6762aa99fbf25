/** The per-client sliding-window rate limiter. Times are exact reals of a clock that does
    not run backwards; cap and window are fixed while a theorem looks at them. */
module RateLimit {
  import opened Wrappers

  /** What the environment variables resolve to; window and caps are at least 1. */
  datatype Config = Config(enabled: bool, maxBytes: int, window: int, ingestMax: int, loginMax: int)

  datatype Request = Request(contentLength: Option<nat>, path: string, ip: string)

  datatype Outcome =
    | TooLarge                        // 413
    | Unlimited                       // passed on, not counted
    | Admitted                        // passed on and counted
    | RateLimited(retryAfter: int)    // 429, counted as well

  const INGEST := "/ingest/"
  const LOGIN := "/auth/login"

  predicate StartsWith(path: string, prefix: string) {
    prefix <= path
  }

  /** The matching prefix and its cap. */
  function LimitFor(path: string, config: Config): Option<(string, int)> {
    if StartsWith(path, INGEST) then Some((INGEST, config.ingestMax))
    else if StartsWith(path, LOGIN) then Some((LOGIN, config.loginMax))
    else None
  }

  function KeyOf(prefix: string, ip: string): string {
    prefix + "|" + ip
  }

  /** The hits still inside the window at `now`. */
  function Prune(hits: seq<real>, now: real, window: real): seq<real> {
    if hits == [] then []
    else
      var t := hits[|hits| - 1];
      Prune(hits[..|hits| - 1], now, window) + if now - t < window then [t] else []
  }

  function MinOf(hits: seq<real>): (m: real)
    requires hits != []
    ensures m in hits && forall i :: 0 <= i < |hits| ==> m <= hits[i]
  {
    var last := hits[|hits| - 1];
    if |hits| == 1 then last
    else
      var m := MinOf(hits[..|hits| - 1]);
      assert m in hits;
      if m <= last then m else last
  }

  /** The verdict on a request that finds `hits` recorded under its key. */
  function Judge(hits: seq<real>, cap: int, now: real, window: int): Outcome {
    var recent := Prune(hits, now, window as real);
    if |recent| < cap then Admitted
    else
      var retry := ((window as real) - (now - MinOf(recent + [now]))).Floor + 1;
      RateLimited(if retry >= 1 then retry else 1)
  }

  function Recorded(hits: seq<real>, now: real, window: int): seq<real> {
    Prune(hits, now, window as real) + [now]
  }

  function HitsOf(hits: map<string, seq<real>>, key: string): seq<real> {
    if key in hits then hits[key] else []
  }

  /** The limiter is on and lets the body pass. */
  predicate Examined(config: Config, r: Request) {
    config.enabled && (r.contentLength.None? || config.maxBytes <= 0 || r.contentLength.value <= config.maxBytes)
  }

  /** How many hits under the key lie in the window that ends now. */
  function RecentHits(hits: map<string, seq<real>>, key: string, now: real, window: int): nat {
    if key in hits then |set i | 0 <= i < |hits[key]| && now - hits[key][i] < window as real| else 0
  }

  lemma {:induction false} PruneSize(hits: seq<real>, now: real, window: real)
    ensures |Prune(hits, now, window)| == |set i | 0 <= i < |hits| && now - hits[i] < window|
  {
    if hits != [] {
      var n := |hits| - 1;
      PruneSize(hits[..n], now, window);
      var earlier := set i | 0 <= i < n && now - hits[..n][i] < window;
      var all := set i | 0 <= i < |hits| && now - hits[i] < window;
      assert all == if now - hits[n] < window then earlier + {n} else earlier;
    }
  }

  lemma RecentAreKept(hits: map<string, seq<real>>, key: string, now: real, window: int)
    ensures RecentHits(hits, key, now, window) == |Prune(HitsOf(hits, key), now, window as real)|
  {
    PruneSize(HitsOf(hits, key), now, window as real);
  }

  /** Which cap and which key belong to which route. */
  lemma RouteCaps(path: string, ip: string, config: Config)
    ensures "/ingest/" <= path ==> LimitFor(path, config) == Some(("/ingest/", config.ingestMax))
    ensures "/auth/login" <= path ==> LimitFor(path, config) == Some(("/auth/login", config.loginMax))
    ensures !("/ingest/" <= path) && !("/auth/login" <= path) ==> LimitFor(path, config) == None
    ensures KeyOf("/ingest/", ip) == "/ingest/|" + ip && KeyOf("/auth/login", ip) == "/auth/login|" + ip
  {
    assert "/ingest/" <= path ==> path[1] == 'i';
    assert "/auth/login" <= path ==> path[1] == 'a';
    assert "/ingest/" + "|" == "/ingest/|" && "/auth/login" + "|" == "/auth/login|";
  }

  class RateLimiter {
    var hits: map<string, seq<real>>

    constructor ()
      ensures hits == map[]
    {
      hits := map[];
    }

    method Dispatch(config: Config, r: Request, now: real) returns (outcome: Outcome)
      modifies this
      ensures r.contentLength.Some? && 0 < config.maxBytes < r.contentLength.value
              ==> outcome == TooLarge && hits == old(hits)
      ensures !(r.contentLength.Some? && 0 < config.maxBytes < r.contentLength.value)
              && (!config.enabled || LimitFor(r.path, config).None?)
              ==> outcome == Unlimited && hits == old(hits)
      ensures !(r.contentLength.Some? && 0 < config.maxBytes < r.contentLength.value)
              && config.enabled && LimitFor(r.path, config).Some?
              ==> var (prefix, cap) := LimitFor(r.path, config).value;
                  var key := KeyOf(prefix, r.ip);
                  var before := HitsOf(old(hits), key);
                  && outcome == Judge(before, cap, now, config.window)
                  && hits == old(hits)[key := Recorded(before, now, config.window)]
      ensures "/ingest/" <= r.path && Examined(config, r) ==>
                && (outcome.Admitted? || outcome.RateLimited?)
                && (outcome.Admitted? <==>
                      RecentHits(old(hits), "/ingest/|" + r.ip, now, config.window) < config.ingestMax)
      ensures "/auth/login" <= r.path && Examined(config, r) ==>
                && (outcome.Admitted? || outcome.RateLimited?)
                && (outcome.Admitted? <==>
                      RecentHits(old(hits), "/auth/login|" + r.ip, now, config.window) < config.loginMax)
      ensures !("/ingest/" <= r.path) && !("/auth/login" <= r.path) && Examined(config, r) ==>
                outcome == Unlimited && hits == old(hits)
    {
      if config.maxBytes > 0 && r.contentLength.Some? && r.contentLength.value > config.maxBytes {
        return TooLarge;
      }
      if !config.enabled {
        return Unlimited;
      }
      RouteCaps(r.path, r.ip, config);
      var limit := LimitFor(r.path, config);
      if limit.None? {
        return Unlimited;
      }
      var (prefix, cap) := limit.value;
      var key := KeyOf(prefix, r.ip);
      RecentAreKept(hits, key, now, config.window);
      var recent := Prune(HitsOf(hits, key), now, config.window as real);
      if |recent| >= cap {
        recent := recent + [now];
        hits := hits[key := recent];
        var retry := ((config.window as real) - (now - MinOf(recent))).Floor + 1;
        return RateLimited(if retry >= 1 then retry else 1);
      }
      hits := hits[key := recent + [now]];
      return Admitted;
    }
  }

  /** The two prefixes never share a key, whatever the client addresses are. */
  lemma KeysSeparate(p: string, q: string, a: string, b: string)
    requires p in {INGEST, LOGIN} && q in {INGEST, LOGIN} && KeyOf(p, a) == KeyOf(q, b)
    ensures p == q && a == b
  {
    assert KeyOf(p, a)[1] == p[1] && KeyOf(q, b)[1] == q[1];
    assert KeyOf(p, a)[|p| + 1..] == a && KeyOf(q, b)[|q| + 1..] == b;
  }

  // ----- the window against the full history of one key

  ghost predicate NonDecreasing(times: seq<real>) {
    forall i, j :: 0 <= i < j < |times| ==> times[i] <= times[j]
  }

  /** What is recorded after requests at `times`, admitted or not. */
  function HitsAfter(times: seq<real>, window: int): seq<real> {
    if times == [] then []
    else Recorded(HitsAfter(times[..|times| - 1], window), times[|times| - 1], window)
  }

  datatype Arrival = Arrival(key: string, at: real)

  /** The whole dictionary after counted requests from any number of clients. */
  function TableAfter(arrivals: seq<Arrival>, window: int): map<string, seq<real>> {
    if arrivals == [] then map[]
    else
      var before, a := TableAfter(arrivals[..|arrivals| - 1], window), arrivals[|arrivals| - 1];
      before[a.key := Recorded(HitsOf(before, a.key), a.at, window)]
  }

  function TimesOf(arrivals: seq<Arrival>, key: string): seq<real> {
    if arrivals == [] then []
    else
      var a := arrivals[|arrivals| - 1];
      TimesOf(arrivals[..|arrivals| - 1], key) + if a.key == key then [a.at] else []
  }

  /** Clients do not interfere: under each key lies what that key's own requests put there. */
  lemma {:induction false} KeysIndependent(arrivals: seq<Arrival>, key: string, window: int)
    ensures HitsOf(TableAfter(arrivals, window), key) == HitsAfter(TimesOf(arrivals, key), window)
  {
    if arrivals != [] {
      var front, a := arrivals[..|arrivals| - 1], arrivals[|arrivals| - 1];
      KeysIndependent(front, key, window);
      if a.key == key {
        assert (TimesOf(front, key) + [a.at])[..|TimesOf(front, key)|] == TimesOf(front, key);
      } else {
        assert TimesOf(arrivals, key) == TimesOf(front, key);
      }
    }
  }

  /** The verdict on request `i`. */
  function VerdictAt(times: seq<real>, cap: int, window: int, i: nat): Outcome
    requires i < |times|
  {
    Judge(HitsAfter(times[..i], window), cap, times[i], window)
  }

  lemma {:induction false} PruneTwice(hits: seq<real>, early: real, late: real, window: real)
    requires early <= late
    ensures Prune(Prune(hits, early, window), late, window) == Prune(hits, late, window)
  {
    if hits != [] {
      var front, t := hits[..|hits| - 1], hits[|hits| - 1];
      PruneTwice(front, early, late, window);
      if early - t < window {
        PruneSnoc(Prune(front, early, window), t, late, window);
      } else {
        assert Prune(front, early, window) + [] == Prune(front, early, window);
      }
    }
  }

  lemma PruneSnoc(hits: seq<real>, t: real, now: real, window: real)
    ensures Prune(hits + [t], now, window) == Prune(hits, now, window) + if now - t < window then [t] else []
  {
    assert (hits + [t])[..|hits|] == hits;
  }

  /** The list kept per key, pruned, is the whole request history of the key, filtered to
      the window: nothing that still counts was ever dropped. */
  lemma {:induction false} WindowIsFilteredHistory(times: seq<real>, window: int, now: real)
    requires NonDecreasing(times) && window >= 1
    requires times != [] ==> times[|times| - 1] <= now
    ensures Prune(HitsAfter(times, window), now, window as real) == Prune(times, now, window as real)
  {
    if times != [] {
      var front, last, w := times[..|times| - 1], times[|times| - 1], window as real;
      WindowIsFilteredHistory(front, window, last);
      PruneSnoc(Prune(front, last, w), last, now, w);
      PruneTwice(front, last, now, w);
      assert HitsAfter(times, window) == Prune(front, last, w) + [last];
    }
  }

  /** The requests before `n` that still count at time `now`. */
  function Counted(times: seq<real>, n: nat, now: real, window: int): set<nat>
    requires n <= |times|
  {
    set i: nat | i < n && now - times[i] < window as real
  }

  lemma {:induction false} PruneCounts(times: seq<real>, n: nat, now: real, window: int)
    requires n <= |times|
    ensures |Prune(times[..n], now, window as real)| == |Counted(times, n, now, window)|
  {
    if n > 0 {
      PruneCounts(times, n - 1, now, window);
      assert times[..n][..n - 1] == times[..n - 1];
      if now - times[n - 1] < window as real {
        assert Counted(times, n, now, window) == Counted(times, n - 1, now, window) + {n - 1};
      } else {
        assert Counted(times, n, now, window) == Counted(times, n - 1, now, window);
      }
    }
  }

  /** A request is admitted exactly when fewer than `cap` requests of its key, admitted or
      rejected, lie in the window that ends with it. */
  lemma AdmittedIff(times: seq<real>, cap: int, window: int, i: nat)
    requires NonDecreasing(times) && window >= 1 && i < |times|
    ensures VerdictAt(times, cap, window, i).Admitted? <==> |Counted(times, i, times[i], window)| < cap
  {
    WindowIsFilteredHistory(times[..i], window, times[i]);
    PruneCounts(times, i, times[i], window);
  }

  lemma {:induction false} Greatest(s: set<nat>) returns (m: nat)
    requires s != {}
    ensures m in s && forall i :: i in s ==> i <= m
    decreases s
  {
    m :| m in s;
    if k :| k in s && k > m {
      var rest := s - {m};
      assert k in rest;
      var g := Greatest(rest);
      assert forall i :: i in s ==> i == m || i in rest;
      m := g;
    }
  }

  /** Any admitted requests that lie pairwise less than a window apart number at most `cap`. */
  lemma AtMostCapAdmitted(times: seq<real>, cap: int, window: int, chosen: set<nat>)
    requires NonDecreasing(times) && window >= 1 && cap >= 1
    requires forall i :: i in chosen ==> i < |times| && VerdictAt(times, cap, window, i).Admitted?
    requires forall i, j :: i in chosen && j in chosen ==> times[i] - times[j] < window as real
    ensures |chosen| <= cap
  {
    if chosen != {} {
      var m := Greatest(chosen);
      AdmittedIff(times, cap, window, m);
      var counted := Counted(times, m, times[m], window);
      assert chosen - {m} <= counted;
      CardinalityMonotone(chosen - {m}, counted);
      assert |chosen| == |chosen - {m}| + 1;
    }
  }

  lemma {:induction false} CardinalityMonotone(a: set<nat>, b: set<nat>)
    requires a <= b
    ensures |a| <= |b|
  {
    assert |b| == |a| + |b - a| by { assert b == a + (b - a); }
  }

  /** So no half-open interval of length `window` holds more than `cap` admitted requests. */
  lemma IntervalHoldsAtMostCap(times: seq<real>, cap: int, window: int, from: real)
    requires NonDecreasing(times) && window >= 1 && cap >= 1
    ensures |set i: nat | i < |times| && from <= times[i] < from + (window as real)
                          && VerdictAt(times, cap, window, i).Admitted?| <= cap
    ensures |set i: nat | i < |times| && from < times[i] <= from + (window as real)
                          && VerdictAt(times, cap, window, i).Admitted?| <= cap
  {
    AtMostCapAdmitted(times, cap, window,
      set i: nat | i < |times| && from <= times[i] < from + (window as real)
                   && VerdictAt(times, cap, window, i).Admitted?);
    AtMostCapAdmitted(times, cap, window,
      set i: nat | i < |times| && from < times[i] <= from + (window as real)
                   && VerdictAt(times, cap, window, i).Admitted?);
  }

  // ----- Retry-After

  /** Until the oldest hit counted at request `i` leaves the window. */
  function Remaining(times: seq<real>, window: int, i: nat): real
    requires i < |times|
  {
    (window as real) - (times[i] - MinOf(Recorded(HitsAfter(times[..i], window), times[i], window)))
  }

  lemma {:induction false} PrunedInWindow(hits: seq<real>, now: real, window: real)
    ensures forall i :: 0 <= i < |Prune(hits, now, window)| ==> now - Prune(hits, now, window)[i] < window
  {
    if hits != [] {
      PrunedInWindow(hits[..|hits| - 1], now, window);
    }
  }

  /** The header is the remaining time rounded up to the next whole second. */
  lemma RetryAfterRounds(times: seq<real>, cap: int, window: int, i: nat)
    requires window >= 1 && i < |times| && VerdictAt(times, cap, window, i).RateLimited?
    ensures var r := VerdictAt(times, cap, window, i).retryAfter as real;
            r - 1.0 <= Remaining(times, window, i) < r
    ensures Remaining(times, window, i) > 0.0
  {
    var hits := HitsAfter(times[..i], window);
    PrunedInWindow(hits, times[i], window as real);
    var recent := Recorded(hits, times[i], window);
    var k :| 0 <= k < |recent| && recent[k] == MinOf(recent);
    assert times[i] - recent[k] < window as real;
  }

  lemma {:induction false} PrunedMembers(hits: seq<real>, now: real, window: real, k: nat)
    requires k < |hits| && now - hits[k] < window
    ensures hits[k] in Prune(hits, now, window)
  {
    if k < |hits| - 1 {
      PrunedMembers(hits[..|hits| - 1], now, window, k);
    }
  }

  /** No counted hit is older than the one that `Remaining` waits for. */
  lemma OldestCounted(times: seq<real>, window: int, i: nat, k: nat)
    requires NonDecreasing(times) && window >= 1 && i < |times| && k in Counted(times, i, times[i], window)
    ensures times[i] - times[k] <= (window as real) - Remaining(times, window, i)
  {
    WindowIsFilteredHistory(times[..i], window, times[i]);
    PrunedMembers(times[..i], times[i], window as real, k);
    assert times[k] in Recorded(HitsAfter(times[..i], window), times[i], window);
  }

  /** What counted at a rejected request still counts until `Remaining` has elapsed. */
  lemma StillCounted(times: seq<real>, window: int, i: nat, j: nat)
    requires NonDecreasing(times) && window >= 1 && i < j < |times|
    requires times[j] - times[i] < Remaining(times, window, i)
    ensures Counted(times, i, times[i], window) <= Counted(times, j, times[j], window)
  {
    forall k | k in Counted(times, i, times[i], window)
      ensures k in Counted(times, j, times[j], window)
    {
      OldestCounted(times, window, i, k);
    }
  }

  /** A request that comes before `Remaining` has elapsed since a rejected one is rejected
      too, whatever arrived in between. */
  lemma EarlyRetryRejected(times: seq<real>, cap: int, window: int, i: nat, j: nat)
    requires NonDecreasing(times) && window >= 1 && i < j < |times|
    requires VerdictAt(times, cap, window, i).RateLimited?
    requires times[j] - times[i] < Remaining(times, window, i)
    ensures VerdictAt(times, cap, window, j).RateLimited?
  {
    AdmittedIff(times, cap, window, i);
    AdmittedIff(times, cap, window, j);
    StillCounted(times, window, i, j);
    CardinalityMonotone(Counted(times, i, times[i], window), Counted(times, j, times[j], window));
  }

  /** Waiting out Retry-After does not ensure admission, since rejected requests count:
      with cap 1 and a window of 10 seconds, a client that is told 6 at second 5 is
      rejected again at second 11. */
  lemma PunctualRetryMayBeRejected()
    ensures var times := [0.0, 5.0, 11.0];
            && VerdictAt(times, 1, 10, 0).Admitted?
            && VerdictAt(times, 1, 10, 1) == RateLimited(6)
            && times[2] >= times[1] + 6.0
            && VerdictAt(times, 1, 10, 2).RateLimited?
  {
    var times := [0.0, 5.0, 11.0];
    assert times[..0] == [] && times[..1] == [0.0] && times[..2] == [0.0, 5.0];
    assert times[..2][..1] == [0.0] && [0.0][..0] == [];
    assert Recorded([], 0.0, 10) == [0.0];
    assert Prune([0.0], 5.0, 10.0) == [0.0];
    assert HitsAfter(times[..2], 10) == [0.0, 5.0];
    assert MinOf([0.0, 5.0]) == 0.0;
    assert [0.0, 5.0][..1] == [0.0];
    assert Prune([0.0], 11.0, 10.0) == [];
    assert Prune([0.0, 5.0], 11.0, 10.0) == [5.0];
  }
}
