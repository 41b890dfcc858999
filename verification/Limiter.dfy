/** The in-memory sliding-window rate limiter (backend/app/security.py).

    `Check` and `Sweep` are the values the methods of the class compute: the stored state,
    with lazy eviction and the throttled sweep. `RefCheck` is the limiter one would write
    without worrying about memory: it keeps every admitted hit forever and counts the ones
    inside the window. The lemmas show that nobody can tell the two apart. */
module Limiter {

  type pos = n: int | n >= 1 witness 1

  /** How many hits a key may make per window of that many seconds. */
  datatype Limit = Limit(max: pos, window: int)

  datatype Verdict = Verdict(allowed: bool, retryAfter: int)

  datatype State = State(hits: map<string, seq<real>>, lastCleanup: real, maxWindow: real)

  const CLEANUP_INTERVAL: real := 300.0

  const INIT: State := State(map[], 0.0, 0.0)

  function Bucket(hits: map<string, seq<real>>, key: string): seq<real> {
    if key in hits then hits[key] else []
  }

  /** Python's `int(x)`: truncation toward zero. */
  function Truncate(x: real): int {
    if x >= 0.0 then x.Floor else -((-x).Floor)
  }

  function RetryAfter(oldest: real, window: int, now: real): int {
    var r := Truncate(oldest + window as real - now) + 1;
    if r < 1 then 1 else r
  }

  /** Pop from the left while the front is at or before the cutoff. */
  function Evict(h: seq<real>, cutoff: real): seq<real> {
    if h != [] && h[0] <= cutoff then Evict(h[1..], cutoff) else h
  }

  predicate Idle(h: seq<real>, boundary: real) {
    h == [] || h[|h| - 1] <= boundary
  }

  function Sweep(s: State, now: real): State {
    if now - s.lastCleanup < CLEANUP_INTERVAL then s
    else
      var boundary := now - s.maxWindow;
      State(map k | k in s.hits && !Idle(s.hits[k], boundary) :: s.hits[k], now, s.maxWindow)
  }

  function Check(s: State, key: string, limit: Limit, now: real): (State, Verdict) {
    var window := limit.window as real;
    var maxWindow := if s.maxWindow < window then window else s.maxWindow;
    var live := Evict(Bucket(s.hits, key), now - window);
    if |live| >= limit.max then
      (State(s.hits[key := live], s.lastCleanup, maxWindow),
       Verdict(false, RetryAfter(live[0], limit.window, now)))
    else
      (Sweep(State(s.hits[key := live + [now]], s.lastCleanup, maxWindow), now), Verdict(true, 0))
  }

  // ---- The class ----------------------------------------------------------------

  class SlidingWindowLimiter {
    var hits: map<string, seq<real>>
    var lastCleanup: real
    var maxWindow: real

    ghost function View(): State
      reads this
    {
      State(hits, lastCleanup, maxWindow)
    }

    constructor ()
      ensures View() == INIT
    {
      hits, lastCleanup, maxWindow := map[], 0.0, 0.0;
    }

    /** Record a hit for `key` and report whether it is allowed. */
    method CheckHit(key: string, limit: Limit, now: real) returns (v: Verdict)
      modifies this
      ensures (View(), v) == Check(old(View()), key, limit, now)
    {
      var window := limit.window as real;
      if maxWindow < window { maxWindow := window; }
      PopExpired(key, now - window);
      var live := hits[key];
      if |live| >= limit.max {
        v := Verdict(false, RetryAfter(live[0], limit.window, now));
        return;
      }
      hits := hits[key := live + [now]];
      assert hits == old(hits)[key := live + [now]];
      SweepIdle(now);
      v := Verdict(true, 0);
    }

    /** `self._hits[key]` (created when missing) loses its front hits up to the cutoff. */
    method PopExpired(key: string, cutoff: real)
      modifies this`hits
      ensures hits == old(hits)[key := Evict(Bucket(old(hits), key), cutoff)]
    {
      if key !in hits { hits := hits[key := []]; }
      while hits[key] != [] && hits[key][0] <= cutoff
        invariant key in hits && hits == old(hits)[key := hits[key]]
        invariant Evict(hits[key], cutoff) == Evict(Bucket(old(hits), key), cutoff)
        decreases |hits[key]|
      {
        hits := hits[key := hits[key][1..]];
      }
    }

    /** Drop idle buckets, at most once per interval. */
    method SweepIdle(now: real)
      modifies this
      ensures View() == Sweep(old(View()), now)
    {
      if now - lastCleanup < CLEANUP_INTERVAL { return; }
      lastCleanup := now;
      var boundary := now - maxWindow;
      var stale := set k | k in hits && Idle(hits[k], boundary);
      ghost var all := stale;
      while stale != {}
        invariant stale <= all
        invariant hits == map k | k in old(hits) && k !in all - stale :: old(hits)[k]
        invariant lastCleanup == now && maxWindow == old(maxWindow)
        decreases stale
      {
        var k :| k in stale;
        hits := hits - {k};
        stale := stale - {k};
      }
    }
  }

  // ---- The reference limiter ------------------------------------------------------

  /** The hits later than the cutoff, in order. */
  function Live(h: seq<real>, cutoff: real): seq<real> {
    if h == [] then []
    else if h[0] > cutoff then [h[0]] + Live(h[1..], cutoff)
    else Live(h[1..], cutoff)
  }

  function RefCheck(log: map<string, seq<real>>, key: string, limit: Limit, now: real)
    : (map<string, seq<real>>, Verdict)
  {
    var live := Live(Bucket(log, key), now - limit.window as real);
    if |live| >= limit.max then (log, Verdict(false, RetryAfter(live[0], limit.window, now)))
    else (log[key := Bucket(log, key) + [now]], Verdict(true, 0))
  }

  // ---- Runs -------------------------------------------------------------------------

  datatype Call = Call(key: string, now: real)

  /** The clock is read before the lock and never goes back. */
  predicate Chronological(calls: seq<Call>) {
    forall i, j | 0 <= i <= j < |calls| :: calls[i].now <= calls[j].now
  }

  /** The stored state after a run in which every key is always checked against its own limit. */
  function StateAfter(limits: string -> Limit, calls: seq<Call>): State {
    if calls == [] then INIT
    else
      var n := |calls| - 1;
      Check(StateAfter(limits, calls[..n]), calls[n].key, limits(calls[n].key), calls[n].now).0
  }

  /** What call i of a run is answered. */
  function VerdictAt(limits: string -> Limit, calls: seq<Call>, i: nat): Verdict
    requires i < |calls|
  {
    Check(StateAfter(limits, calls[..i]), calls[i].key, limits(calls[i].key), calls[i].now).1
  }

  function LogAfter(limits: string -> Limit, calls: seq<Call>): map<string, seq<real>> {
    if calls == [] then map[]
    else
      var n := |calls| - 1;
      RefCheck(LogAfter(limits, calls[..n]), calls[n].key, limits(calls[n].key), calls[n].now).0
  }

  function RefVerdictAt(limits: string -> Limit, calls: seq<Call>, i: nat): Verdict
    requires i < |calls|
  {
    RefCheck(LogAfter(limits, calls[..i]), calls[i].key, limits(calls[i].key), calls[i].now).1
  }

  // ---- Refinement ----------------------------------------------------------------------

  predicate Ordered(h: seq<real>, upTo: real) {
    (forall i, j | 0 <= i <= j < |h| :: h[i] <= h[j]) && (forall i | 0 <= i < |h| :: h[i] <= upTo)
  }

  /** `kept` is `all` without some leading hits that are at or before the cutoff. */
  predicate Tail(kept: seq<real>, all: seq<real>, cutoff: real) {
    kept == all || (all != [] && all[0] <= cutoff && Tail(kept, all[1..], cutoff))
  }

  ghost predicate CoupledKey(kept: seq<real>, all: seq<real>, window: int, maxWindow: real, t: real) {
    window as real <= maxWindow && Ordered(all, t) && Tail(kept, all, t - window as real)
  }

  /** What the stored state knows of the full log at time `t`. */
  ghost predicate Coupled(s: State, log: map<string, seq<real>>, limits: string -> Limit, t: real) {
    s.hits.Keys <= log.Keys &&
    forall k | k in log :: CoupledKey(Bucket(s.hits, k), log[k], limits(k).window, s.maxWindow, t)
  }

  lemma {:induction false} LiveOfOrdered(h: seq<real>, upTo: real, cutoff: real)
    requires Ordered(h, upTo)
    ensures Live(h, cutoff) == Evict(h, cutoff)
  {
    if h != [] {
      LiveOfOrdered(h[1..], upTo, cutoff);
      if h[0] > cutoff {
        LiveAll(h[1..], cutoff);
      }
    }
  }

  lemma {:induction false} LiveAll(h: seq<real>, cutoff: real)
    requires forall i | 0 <= i < |h| :: h[i] > cutoff
    ensures Live(h, cutoff) == h
  {
    if h != [] {
      LiveAll(h[1..], cutoff);
    }
  }

  /** Evicting from the kept tail gives what evicting from the whole log would. */
  lemma {:induction false} EvictTail(kept: seq<real>, all: seq<real>, earlier: real, cutoff: real, upTo: real)
    requires Tail(kept, all, earlier) && earlier <= cutoff && Ordered(all, upTo)
    ensures Evict(kept, cutoff) == Live(all, cutoff)
    ensures Tail(Evict(kept, cutoff), all, cutoff)
  {
    if kept == all {
      LiveOfOrdered(all, upTo, cutoff);
      EvictIsTail(all, cutoff);
    } else {
      EvictTail(kept, all[1..], earlier, cutoff, upTo);
    }
  }

  lemma {:induction false} EvictIsTail(h: seq<real>, cutoff: real)
    ensures Tail(Evict(h, cutoff), h, cutoff)
  {
    if h != [] && h[0] <= cutoff {
      EvictIsTail(h[1..], cutoff);
    }
  }

  lemma {:induction false} TailLater(kept: seq<real>, all: seq<real>, earlier: real, cutoff: real)
    requires Tail(kept, all, earlier) && earlier <= cutoff
    ensures Tail(kept, all, cutoff)
  {
    if kept != all {
      TailLater(kept, all[1..], earlier, cutoff);
    }
  }

  lemma {:induction false} TailAppend(kept: seq<real>, all: seq<real>, cutoff: real, x: real)
    requires Tail(kept, all, cutoff)
    ensures Tail(kept + [x], all + [x], cutoff)
  {
    if kept != all {
      assert (all + [x])[1..] == all[1..] + [x];
      TailAppend(kept, all[1..], cutoff, x);
    }
  }

  /** A tail whose newest hit is dead can be dropped altogether. */
  lemma {:induction false} TailAllDead(kept: seq<real>, all: seq<real>, cutoff: real, upTo: real)
    requires Tail(kept, all, cutoff) && kept != [] && kept[|kept| - 1] <= cutoff && Ordered(all, upTo)
    ensures Tail([], all, cutoff)
  {
    if kept == all && |all| == 1 {
      assert Tail([], all[1..], cutoff);
    } else {
      TailAllDead(if kept == all then all[1..] else kept, all[1..], cutoff, upTo);
    }
  }

  lemma CoupledCheck(s: State, log: map<string, seq<real>>, limits: string -> Limit, t: real, key: string, now: real)
    requires Coupled(s, log, limits, t) && t <= now
    ensures Check(s, key, limits(key), now).1 == RefCheck(log, key, limits(key), now).1
    ensures Coupled(Check(s, key, limits(key), now).0, RefCheck(log, key, limits(key), now).0, limits, now)
  {
    var limit := limits(key);
    var maxWindow := if s.maxWindow < limit.window as real then limit.window as real else s.maxWindow;
    var kept, all := Bucket(s.hits, key), Bucket(log, key);
    var live := Evict(kept, now - limit.window as real);
    EvictCoupled(s, log, limits, t, key, now);
    if |live| >= limit.max {
      CoupledUpdate(s, log, limits, t, now, key, live, all, maxWindow);
      assert key in log && log[key := all] == log;
    } else {
      var s1 := Check(s, key, limit, now).0;
      assert RefCheck(log, key, limit, now).0 == log[key := all + [now]];
      CoupledAllowed(s, log, limits, t, key, now, live, all, maxWindow, s1);
    }
  }

  lemma EvictCoupled(s: State, log: map<string, seq<real>>, limits: string -> Limit, t: real, key: string, now: real)
    requires Coupled(s, log, limits, t) && t <= now
    ensures var window := limits(key).window;
      var live := Evict(Bucket(s.hits, key), now - window as real);
      live == Live(Bucket(log, key), now - window as real) && (live != [] ==> key in log) &&
      CoupledKey(live, Bucket(log, key), window, if s.maxWindow < window as real then window as real else s.maxWindow, now)
  {
    var window := limits(key).window as real;
    var kept, all := Bucket(s.hits, key), Bucket(log, key);
    assert key in log ==> CoupledKey(kept, log[key], limits(key).window, s.maxWindow, t);
    assert Ordered(all, t) && Tail(kept, all, t - window);
    EvictTail(kept, all, t - window, now - window, t);
  }

  lemma CoupledAllowed(s: State, log: map<string, seq<real>>, limits: string -> Limit, t: real, key: string, now: real,
                       live: seq<real>, all: seq<real>, maxWindow: real, s1: State)
    requires Coupled(s, log, limits, t) && t <= now && s.maxWindow <= maxWindow
    requires CoupledKey(live, all, limits(key).window, maxWindow, now)
    requires s1 == Sweep(State(s.hits[key := live + [now]], s.lastCleanup, maxWindow), now)
    ensures Coupled(s1, log[key := all + [now]], limits, now)
  {
    TailAppend(live, all, now - limits(key).window as real, now);
    assert Ordered(all + [now], now);
    CoupledUpdate(s, log, limits, t, now, key, live + [now], all + [now], maxWindow);
    CoupledSweep(State(s.hits[key := live + [now]], s.lastCleanup, maxWindow), log[key := all + [now]], limits, now);
  }

  /** Touching one key keeps every other key coupled as time passes. */
  lemma CoupledUpdate(s: State, log: map<string, seq<real>>, limits: string -> Limit, t: real, now: real,
                      key: string, kept: seq<real>, all: seq<real>, maxWindow: real)
    requires Coupled(s, log, limits, t) && t <= now && s.maxWindow <= maxWindow
    requires CoupledKey(kept, all, limits(key).window, maxWindow, now)
    ensures Coupled(State(s.hits[key := kept], s.lastCleanup, maxWindow), log[key := all], limits, now)
  {
    var s1, log1 := State(s.hits[key := kept], s.lastCleanup, maxWindow), log[key := all];
    forall k | k in log1
      ensures CoupledKey(Bucket(s1.hits, k), log1[k], limits(k).window, maxWindow, now) {
      if k != key {
        assert CoupledKey(Bucket(s.hits, k), log[k], limits(k).window, s.maxWindow, t);
        TailLater(Bucket(s.hits, k), log[k], t - limits(k).window as real, now - limits(k).window as real);
      }
    }
  }

  /** The sweep only drops buckets whose hits are all dead: the horizon is the largest window. */
  lemma CoupledSweep(s: State, log: map<string, seq<real>>, limits: string -> Limit, now: real)
    requires Coupled(s, log, limits, now)
    ensures Coupled(Sweep(s, now), log, limits, now)
  {
    var s1 := Sweep(s, now);
    forall k | k in log
      ensures CoupledKey(Bucket(s1.hits, k), log[k], limits(k).window, s.maxWindow, now) {
      var kept, all := Bucket(s.hits, k), log[k];
      assert CoupledKey(kept, all, limits(k).window, s.maxWindow, now);
      if k in s.hits && k !in s1.hits && kept != [] {
        TailAllDead(kept, all, now - limits(k).window as real, now);
      }
    }
  }

  lemma {:induction false} RunCoupled(limits: string -> Limit, calls: seq<Call>, t: real)
    requires Chronological(calls) && forall c | c in calls :: c.now <= t
    ensures Coupled(StateAfter(limits, calls), LogAfter(limits, calls), limits, t)
  {
    if calls != [] {
      var n := |calls| - 1;
      var c := calls[n];
      assert c in calls;
      RunCoupled(limits, calls[..n], c.now);
      CoupledCheck(StateAfter(limits, calls[..n]), LogAfter(limits, calls[..n]), limits, c.now, c.key, c.now);
      CoupledLater(StateAfter(limits, calls), LogAfter(limits, calls), limits, c.now, t);
    }
  }

  lemma CoupledLater(s: State, log: map<string, seq<real>>, limits: string -> Limit, t: real, now: real)
    requires Coupled(s, log, limits, t) && t <= now
    ensures Coupled(s, log, limits, now)
  {
    forall k | k in log ensures CoupledKey(Bucket(s.hits, k), log[k], limits(k).window, s.maxWindow, now) {
      assert CoupledKey(Bucket(s.hits, k), log[k], limits(k).window, s.maxWindow, t);
      TailLater(Bucket(s.hits, k), log[k], t - limits(k).window as real, now - limits(k).window as real);
    }
  }

  /** MAIN: over every run, eviction and the sweep are unobservable. */
  lemma LimiterRefinesReference(limits: string -> Limit, calls: seq<Call>, i: nat)
    requires Chronological(calls) && i < |calls|
    ensures VerdictAt(limits, calls, i) == RefVerdictAt(limits, calls, i)
  {
    var c := calls[i];
    RunCoupled(limits, calls[..i], c.now);
    CoupledCheck(StateAfter(limits, calls[..i]), LogAfter(limits, calls[..i]), limits, c.now, c.key, c.now);
  }

  // ---- Memory -----------------------------------------------------------------------------

  /** No stored bucket is empty or older than the horizon of the last sweep. */
  ghost predicate NoStaleBucket(s: State) {
    forall k | k in s.hits :: !Idle(s.hits[k], s.lastCleanup - s.maxWindow)
  }

  lemma {:induction false} EvictKeepsNewest(h: seq<real>, cutoff: real)
    ensures var r := Evict(h, cutoff); r != [] ==> h != [] && r[|r| - 1] == h[|h| - 1]
  {
    if h != [] && h[0] <= cutoff {
      EvictKeepsNewest(h[1..], cutoff);
    }
  }

  lemma CheckLeavesNoStaleBucket(s: State, key: string, limit: Limit, now: real, s1: State)
    requires NoStaleBucket(s) && s.lastCleanup <= now && limit.window > 0
    requires s1 == Check(s, key, limit, now).0
    ensures NoStaleBucket(s1) && s1.lastCleanup <= now
  {
    EvictKeepsNewest(Bucket(s.hits, key), now - limit.window as real);
  }

  /** Over every run with positive windows, memory holds only buckets with a recent hit. */
  lemma {:induction false} BucketsStayFresh(limits: string -> Limit, calls: seq<Call>)
    requires Chronological(calls) && (calls != [] ==> calls[0].now >= 0.0)
    requires forall c | c in calls :: limits(c.key).window > 0
    ensures NoStaleBucket(StateAfter(limits, calls))
    ensures calls != [] ==> StateAfter(limits, calls).lastCleanup <= calls[|calls| - 1].now
  {
    if calls != [] {
      var n := |calls| - 1;
      var c := calls[n];
      BucketsStayFresh(limits, calls[..n]);
      assert c in calls;
      CheckLeavesNoStaleBucket(StateAfter(limits, calls[..n]), c.key, limits(c.key), c.now, StateAfter(limits, calls));
    }
  }

  // ---- The rate bound ------------------------------------------------------------------------

  /** The hit `max` places after any hit comes at least a window later. */
  predicate Spaced(h: seq<real>, limit: Limit) {
    forall i | 0 <= i < |h| - limit.max :: h[i] + limit.window as real <= h[i + limit.max]
  }

  ghost predicate WellSpaced(log: map<string, seq<real>>, limits: string -> Limit, t: real) {
    forall k | k in log :: Ordered(log[k], t) && Spaced(log[k], limits(k))
  }

  /** On an ordered log the live hits are exactly the last few. */
  lemma {:induction false} LiveIsSuffix(h: seq<real>, upTo: real, cutoff: real)
    requires Ordered(h, upTo)
    ensures var n := |h| - |Live(h, cutoff)|;
      n >= 0 && Live(h, cutoff) == h[n..] &&
      (forall i | 0 <= i < n :: h[i] <= cutoff) && (forall i | n <= i < |h| :: h[i] > cutoff)
  {
    if h != [] {
      LiveIsSuffix(h[1..], upTo, cutoff);
      if h[0] > cutoff {
        LiveAll(h, cutoff);
      } else {
        var n := |h| - |Live(h, cutoff)|;
        assert forall i | 0 <= i < n :: h[i] <= cutoff by {
          forall i | 0 <= i < n ensures h[i] <= cutoff {
            if i > 0 { assert h[i] == h[1..][i - 1]; }
          }
        }
        assert forall i | n <= i < |h| :: h[i] == h[1..][i - 1];
      }
    }
  }

  lemma SpacedAppend(h: seq<real>, limit: Limit, t: real, now: real)
    requires Ordered(h, t) && Spaced(h, limit) && t <= now
    requires |Live(h, now - limit.window as real)| < limit.max
    ensures Ordered(h + [now], now) && Spaced(h + [now], limit)
  {
    LiveIsSuffix(h, t, now - limit.window as real);
  }

  lemma NothingIsSpaced(limit: Limit, t: real)
    ensures Ordered([], t) && Spaced([], limit)
  {}

  lemma OrderedLater(h: seq<real>, t: real, now: real)
    requires Ordered(h, t) && t <= now
    ensures Ordered(h, now)
  {}

  lemma RefCheckSpaced(log: map<string, seq<real>>, limits: string -> Limit, t: real, key: string, now: real,
                       log1: map<string, seq<real>>)
    requires WellSpaced(log, limits, t) && t <= now
    requires log1 == RefCheck(log, key, limits(key), now).0
    ensures WellSpaced(log1, limits, now)
  {
    hide Ordered, Spaced, Live, RetryAfter;
    var h := Bucket(log, key);
    assert Ordered(h, t) && Spaced(h, limits(key)) by { NothingIsSpaced(limits(key), t); }
    if |Live(h, now - limits(key).window as real)| < limits(key).max { SpacedAppend(h, limits(key), t, now); }
    forall k | k in log ensures Ordered(log[k], now) { OrderedLater(log[k], t, now); }
  }

  lemma {:induction false} LogSpaced(limits: string -> Limit, calls: seq<Call>, t: real)
    requires Chronological(calls) && forall c | c in calls :: c.now <= t
    ensures WellSpaced(LogAfter(limits, calls), limits, t)
  {
    if calls != [] {
      var n := |calls| - 1;
      var c := calls[n];
      assert c in calls;
      LogSpaced(limits, calls[..n], c.now);
      RefCheckSpaced(LogAfter(limits, calls[..n]), limits, c.now, c.key, c.now, LogAfter(limits, calls));
      var log := LogAfter(limits, calls);
      forall k | k in log ensures Ordered(log[k], t) && Spaced(log[k], limits(k)) {
        assert Ordered(log[k], c.now) && Spaced(log[k], limits(k));
      }
    }
  }

  /** The times at which `key` was let through. */
  function Admitted(limits: string -> Limit, calls: seq<Call>, key: string): seq<real> {
    if calls == [] then []
    else
      var n := |calls| - 1;
      var before := Admitted(limits, calls[..n], key);
      if calls[n].key == key && VerdictAt(limits, calls, n).allowed then before + [calls[n].now] else before
  }

  lemma {:induction false} LogIsAdmitted(limits: string -> Limit, calls: seq<Call>, key: string)
    requires Chronological(calls)
    ensures Bucket(LogAfter(limits, calls), key) == Admitted(limits, calls, key)
  {
    if calls != [] {
      var n := |calls| - 1;
      LogIsAdmitted(limits, calls[..n], key);
      LimiterRefinesReference(limits, calls, n);
    }
  }

  /** How many of the times lie in the half-open window (lo, hi]. */
  function CountIn(h: seq<real>, lo: real, hi: real): nat {
    if h == [] then 0
    else (if lo < h[0] <= hi then 1 else 0) + CountIn(h[1..], lo, hi)
  }

  lemma {:induction false} CountInPrefix(h: seq<real>, lo: real, hi: real, m: nat)
    requires forall i | m <= i < |h| :: h[i] > hi
    ensures CountIn(h, lo, hi) <= m
  {
    if h != [] {
      CountInPrefix(h[1..], lo, hi, if m == 0 then 0 else m - 1);
    }
  }

  lemma {:induction false} SpacedCount(h: seq<real>, upTo: real, limit: Limit, lo: real)
    requires Ordered(h, upTo) && Spaced(h, limit)
    ensures CountIn(h, lo, lo + limit.window as real) <= limit.max
  {
    if h != [] {
      var hi := lo + limit.window as real;
      if h[0] > lo {
        forall i | limit.max <= i < |h| ensures h[i] > hi {
          assert h[0] + limit.window as real <= h[0 + limit.max];
        }
        CountInPrefix(h, lo, hi, limit.max);
      } else {
        SpacedCount(h[1..], upTo, limit, lo);
      }
    }
  }

  /** MAIN: over every run no window of any key ever holds more admitted hits than its limit. */
  lemma RateBound(limits: string -> Limit, calls: seq<Call>, key: string, lo: real)
    requires Chronological(calls)
    ensures var admitted := Admitted(limits, calls, key);
      Spaced(admitted, limits(key)) &&
      CountIn(admitted, lo, lo + limits(key).window as real) <= limits(key).max
  {
    hide StateAfter, LogAfter, VerdictAt, Check;
    if calls != [] {
      var t := calls[|calls| - 1].now;
      LogSpaced(limits, calls, t);
      LogIsAdmitted(limits, calls, key);
      var admitted := Admitted(limits, calls, key);
      assert Ordered(admitted, t) && Spaced(admitted, limits(key));
      SpacedCount(admitted, t, limits(key), lo);
    }
  }

  // ---- Keys do not interfere -------------------------------------------------------------------

  function Only(calls: seq<Call>, key: string): (r: seq<Call>)
    ensures forall c | c in r :: c in calls && c.key == key
  {
    if calls == [] then []
    else
      var n := |calls| - 1;
      if calls[n].key == key then Only(calls[..n], key) + [calls[n]] else Only(calls[..n], key)
  }

  lemma {:induction false} OnlyChronological(calls: seq<Call>, key: string)
    requires Chronological(calls)
    ensures Chronological(Only(calls, key))
  {
    if calls != [] {
      var n := |calls| - 1;
      OnlyChronological(calls[..n], key);
      var rest := Only(calls[..n], key);
      forall i | 0 <= i < |rest| ensures rest[i].now <= calls[n].now { assert rest[i] in calls[..n]; }
    }
  }

  /** A check changes the log of its own key only, and that as a function of that log alone. */
  lemma RefCheckLocal(log: map<string, seq<real>>, alone: map<string, seq<real>>, key: string, limit: Limit, now: real, other: string)
    requires Bucket(log, key) == Bucket(alone, key)
    ensures Bucket(RefCheck(log, key, limit, now).0, key) == Bucket(RefCheck(alone, key, limit, now).0, key)
    ensures RefCheck(log, key, limit, now).1 == RefCheck(alone, key, limit, now).1
    ensures other != key ==> Bucket(RefCheck(log, key, limit, now).0, other) == Bucket(log, other)
  {
    hide Live, RetryAfter;
  }

  lemma {:induction false} BucketOfOnly(limits: string -> Limit, calls: seq<Call>, key: string)
    ensures Bucket(LogAfter(limits, calls), key) == Bucket(LogAfter(limits, Only(calls, key)), key)
  {
    hide RefCheck, Bucket;
    if calls != [] {
      var n := |calls| - 1;
      var c := calls[n];
      BucketOfOnly(limits, calls[..n], key);
      var only := Only(calls[..n], key);
      var log, alone := LogAfter(limits, calls[..n]), LogAfter(limits, only);
      if c.key == key {
        RefCheckLocal(log, alone, key, limits(key), c.now, key);
        assert (only + [c])[..|only|] == only;
      } else {
        RefCheckLocal(log, log, c.key, limits(c.key), c.now, key);
      }
    }
  }

  /** MAIN: a call is answered as if only the calls for its own key had ever been made. */
  lemma KeysDoNotInterfere(limits: string -> Limit, calls: seq<Call>, i: nat)
    requires Chronological(calls) && i < |calls|
    ensures var alone := Only(calls[..i], calls[i].key) + [calls[i]];
      VerdictAt(limits, calls, i) == VerdictAt(limits, alone, |alone| - 1)
  {
    hide StateAfter, LogAfter, Check, Live;
    var c := calls[i];
    var only := Only(calls[..i], c.key);
    var alone := only + [c];
    assert calls[..i + 1][..i] == calls[..i];
    assert alone == Only(calls[..i + 1], c.key);
    OnlyChronological(calls[..i + 1], c.key);
    LimiterRefinesReference(limits, calls, i);
    LimiterRefinesReference(limits, alone, |only|);
    assert alone[..|only|] == only;
    BucketOfOnly(limits, calls[..i], c.key);
  }

  // ---- Retry-After --------------------------------------------------------------------------------

  /** On a well-spaced log a refused key is let in again exactly when its oldest live hit expires. */
  lemma RefRetry(h: seq<real>, limit: Limit, now: real, later: real)
    requires Ordered(h, now) && Spaced(h, limit) && now <= later
    requires |Live(h, now - limit.window as real)| >= limit.max
    ensures var window := limit.window as real;
      var oldest := Live(h, now - window)[0];
      var r := RetryAfter(oldest, limit.window, now);
      1 <= r <= limit.window + 1 && oldest + window - now < r as real <= oldest + window - now + 1.0 &&
      (|Live(h, later - window)| < limit.max <==> later >= oldest + window)
  {
    var window := limit.window as real;
    LiveIsSuffix(h, now, now - window);
    LiveIsSuffix(h, now, later - window);
    var n := |h| - |Live(h, now - window)|;
    forall m | 0 <= m < |h| - limit.max ensures h[m] <= now - window {
      assert h[m] + window <= h[m + limit.max];
    }
    assert h[n] > now - window;
    assert Live(h, now - window)[0] == h[n];
  }

  /** While nothing is admitted for a key its log does not move. */
  lemma {:induction false} LogUnmoved(limits: string -> Limit, calls: seq<Call>, key: string, i: nat, j: nat)
    requires i <= j <= |calls|
    requires forall m | i <= m < j && calls[m].key == key :: !RefVerdictAt(limits, calls, m).allowed
    ensures Bucket(LogAfter(limits, calls[..j]), key) == Bucket(LogAfter(limits, calls[..i]), key)
  {
    if i < j {
      LogUnmoved(limits, calls, key, i, j - 1);
      assert calls[..j][..j - 1] == calls[..j - 1];
      assert calls[j - 1].key == key ==> !RefVerdictAt(limits, calls, j - 1).allowed;
    }
  }

  /** After a refusal the stored bucket is exactly the live part of the full log. */
  lemma RefusedBucket(limits: string -> Limit, calls: seq<Call>, i: nat)
    requires Chronological(calls) && i < |calls| && !VerdictAt(limits, calls, i).allowed
    ensures var c := calls[i];
      Bucket(StateAfter(limits, calls[..i + 1]).hits, c.key)
      == Live(Bucket(LogAfter(limits, calls[..i]), c.key), c.now - limits(c.key).window as real)
  {
    hide Sweep, Evict, Live;
    var c := calls[i];
    RunCoupled(limits, calls[..i], c.now);
    EvictCoupled(StateAfter(limits, calls[..i]), LogAfter(limits, calls[..i]), limits, c.now, c.key, c.now);
    assert calls[..i + 1][..i] == calls[..i];
  }

  /** A refusal alone: the wait answered lies within a second above the time until the oldest stored hit
      expires. */
  lemma RefusalBounds(limits: string -> Limit, calls: seq<Call>, i: nat)
    requires Chronological(calls) && i < |calls| && !VerdictAt(limits, calls, i).allowed
    ensures var key := calls[i].key;
      var window := limits(key).window as real;
      var bucket := Bucket(StateAfter(limits, calls[..i + 1]).hits, key);
      var r := VerdictAt(limits, calls, i).retryAfter;
      bucket != [] && 1 <= r <= limits(key).window + 1 &&
      bucket[0] + window - calls[i].now < r as real <= bucket[0] + window - calls[i].now + 1.0
  {
    hide StateAfter, LogAfter, Check, Live, Coupled;
    var key, now := calls[i].key, calls[i].now;
    RefusedBucket(limits, calls, i);
    LimiterRefinesReference(limits, calls, i);
    var h := Bucket(LogAfter(limits, calls[..i]), key);
    LogSpaced(limits, calls[..i], now);
    assert Ordered(h, now) && Spaced(h, limits(key));
    RefRetry(h, limits(key), now, now);
  }

  /** MAIN: the Retry-After answered to a refused check is sound and tight. As long as nothing was
      admitted for the key since, a later check of it is admitted exactly when the oldest hit stored
      at the refusal has left the window, whatever refused checks and other keys came in between. */
  lemma RetryAfterExact(limits: string -> Limit, calls: seq<Call>, i: nat, j: nat)
    requires Chronological(calls) && i < j < |calls| && calls[i].key == calls[j].key
    requires forall m | i <= m < j && calls[m].key == calls[i].key :: !VerdictAt(limits, calls, m).allowed
    ensures var key := calls[i].key;
      var window := limits(key).window as real;
      var bucket := Bucket(StateAfter(limits, calls[..i + 1]).hits, key);
      var r := VerdictAt(limits, calls, i).retryAfter;
      bucket != [] && 1 <= r <= limits(key).window + 1 &&
      bucket[0] + window - calls[i].now < r as real <= bucket[0] + window - calls[i].now + 1.0 &&
      (VerdictAt(limits, calls, j).allowed <==> calls[j].now >= bucket[0] + window) &&
      (calls[j].now >= calls[i].now + r as real ==> VerdictAt(limits, calls, j).allowed)
  {
    hide StateAfter, LogAfter, Check, Live, Coupled;
    var key, now, later := calls[i].key, calls[i].now, calls[j].now;
    assert !VerdictAt(limits, calls, i).allowed;
    RefusalBounds(limits, calls, i);
    RefusedBucket(limits, calls, i);
    forall m | i <= m < j && calls[m].key == key ensures !RefVerdictAt(limits, calls, m).allowed {
      LimiterRefinesReference(limits, calls, m);
    }
    LogUnmoved(limits, calls, key, i, j);
    LimiterRefinesReference(limits, calls, i);
    LimiterRefinesReference(limits, calls, j);
    var h := Bucket(LogAfter(limits, calls[..i]), key);
    LogSpaced(limits, calls[..i], now);
    assert Ordered(h, now) && Spaced(h, limits(key));
    RefRetry(h, limits(key), now, later);
  }
  // ---- What a check answers, in terms of the hits admitted before --------------------------------------

  lemma {:induction false} LiveCount(h: seq<real>, lo: real, hi: real)
    requires Ordered(h, hi)
    ensures |Live(h, lo)| == CountIn(h, lo, hi)
  {
    if h != [] { LiveCount(h[1..], lo, hi); }
  }

  /** The first hit inside the window. */
  predicate OldestIn(h: seq<real>, m: nat, lo: real) { m < |h| && h[m] > lo && forall j | 0 <= j < m :: h[j] <= lo }

  /** The whole number of seconds, rounded up past the end, until the oldest hit of the window leaves it. */
  ghost predicate Waits(h: seq<real>, window: real, now: real, r: int) {
    exists m: nat :: OldestIn(h, m, now - window) && h[m] + window - now < r as real <= h[m] + window - now + 1.0
  }

  /** MAIN: over every run a check is admitted if and only if fewer hits of its key than the limit were admitted
      in the window before it; an admitted one is answered 0 and a refused one the whole number of seconds until
      the oldest of those hits leaves the window. */
  lemma AdmittedIff(limits: string -> Limit, calls: seq<Call>, i: nat)
    requires Chronological(calls) && i < |calls|
    ensures var c := calls[i];
      var window := limits(c.key).window as real;
      var hits := Admitted(limits, calls[..i], c.key);
      var v := VerdictAt(limits, calls, i);
      (v.allowed <==> CountIn(hits, c.now - window, c.now) < limits(c.key).max) &&
      (v.allowed ==> v.retryAfter == 0) &&
      (!v.allowed ==> Waits(hits, window, c.now, v.retryAfter))
  {
    hide Admitted, LogAfter, StateAfter, Check, Live, CountIn;
    var c := calls[i];
    var window := limits(c.key).window as real;
    var hits := Admitted(limits, calls[..i], c.key);
    LimiterRefinesReference(limits, calls, i);
    LogIsAdmitted(limits, calls[..i], c.key);
    AdmittedOrdered(limits, calls[..i], c.key, c.now);
    LiveCount(hits, c.now - window, c.now);
    if !VerdictAt(limits, calls, i).allowed {
      RefusalBounds(limits, calls, i);
      RefusedBucket(limits, calls, i);
      LiveIsSuffix(hits, c.now, c.now - window);
      assert OldestIn(hits, |hits| - |Live(hits, c.now - window)|, c.now - window);
    }
  }

  lemma AdmittedOrdered(limits: string -> Limit, calls: seq<Call>, key: string, t: real)
    requires Chronological(calls) && forall c | c in calls :: c.now <= t
    ensures Ordered(Admitted(limits, calls, key), t)
  {
    hide Admitted, LogAfter, Spaced;
    LogIsAdmitted(limits, calls, key);
    LogSpaced(limits, calls, t);
  }

  lemma CheckWindow(s: State, key: string, limit: Limit, now: real)
    ensures var (s1, v) := Check(s, key, limit, now);
      s1.maxWindow == (if s.maxWindow < limit.window as real then limit.window as real else s.maxWindow) &&
      (v.allowed ==> now - s1.lastCleanup < 300.0)
  {
    hide Evict, Idle;
  }

  lemma {:induction false} MaxWindowAtMost(limits: string -> Limit, calls: seq<Call>, w: real)
    requires w >= 0.0 && forall c | c in calls :: limits(c.key).window as real <= w
    ensures StateAfter(limits, calls).maxWindow <= w
  {
    hide Check;
    if calls != [] {
      var n := |calls| - 1;
      var c := calls[n];
      assert c in calls;
      MaxWindowAtMost(limits, calls[..n], w);
      CheckWindow(StateAfter(limits, calls[..n]), c.key, limits(c.key), c.now);
    }
  }

  /** MAIN: whenever a check has just been admitted, memory holds no bucket whose newest hit is older than the widest
      window by five minutes. */
  lemma MemoryIsRecent(limits: string -> Limit, calls: seq<Call>, w: real)
    requires calls != [] && Chronological(calls) && calls[0].now >= 0.0
    requires forall c | c in calls :: 0.0 < limits(c.key).window as real <= w
    requires VerdictAt(limits, calls, |calls| - 1).allowed
    ensures var hits := StateAfter(limits, calls).hits;
      forall k | k in hits :: hits[k] != [] && hits[k][|hits[k]| - 1] > calls[|calls| - 1].now - w - 300.0
  {
    hide Check;
    var n := |calls| - 1;
    var c := calls[n];
    assert calls[n] in calls;
    BucketsStayFresh(limits, calls);
    MaxWindowAtMost(limits, calls, w);
    CheckWindow(StateAfter(limits, calls[..n]), c.key, limits(c.key), c.now);
  }
}
