/**
 * Admission control in front of the upstream API: a module-level map from a
 * tracker key to the timestamps of past calls. A check first drops every
 * timestamp at least a minute old (and every key left with none), then admits
 * a call while fewer than 30 timestamps remain. An admitted call records the
 * current time under the key "global".
 */
module RateLimiter {
  import opened Model

  const MAX_CALLS_PER_MINUTE: nat := 30
  const WINDOW_MS: int := 60000
  const GLOBAL_KEY: string := "global"

  type Tracker = map<string, seq<int>>

  /** `calls.filter(t => t > minuteAgo)`. */
  function Recent(calls: seq<int>, minuteAgo: int): (r: seq<int>)
    ensures |r| <= |calls|
    ensures forall t :: t in r <==> t in calls && t > minuteAgo
  {
    if calls == [] then []
    else Recent(calls[..|calls| - 1], minuteAgo) + (if calls[|calls| - 1] > minuteAgo then [calls[|calls| - 1]] else [])
  }

  /** The tracker after the clean-up pass: stale timestamps dropped, emptied keys deleted. */
  function Prune(m: Tracker, minuteAgo: int): (r: Tracker)
    ensures forall k :: k in r <==> k in m && Recent(m[k], minuteAgo) != []
    ensures forall k :: k in r ==> r[k] == Recent(m[k], minuteAgo)
  {
    map k | k in m && Recent(m[k], minuteAgo) != [] :: Recent(m[k], minuteAgo)
  }

  /** Every timestamp held under any key. */
  ghost function Total(m: Tracker): nat
    decreases |m|
  {
    if m == map[] then 0
    else
      var k :| k in m;
      assert |m - {k}| < |m| by { assert m.Keys == (m - {k}).Keys + {k}; }
      |m[k]| + Total(m - {k})
  }

  /** The sub-map on the keys in `ks`. */
  function Restrict(m: Tracker, ks: set<string>): (r: Tracker)
    ensures r.Keys == m.Keys * ks
  {
    map k | k in m && k in ks :: m[k]
  }

  /** The timestamps under "global", or none. */
  function Tracked(m: Tracker): seq<int> {
    if GLOBAL_KEY in m then m[GLOBAL_KEY] else []
  }

  /** `recordApiCall`: appends `now` under "global" and touches no other key. */
  function Record(m: Tracker, now: int): (r: Tracker)
    ensures r.Keys == m.Keys + {GLOBAL_KEY}
    ensures Tracked(r) == Tracked(m) + [now]
    ensures forall k :: k in m && k != GLOBAL_KEY ==> r[k] == m[k]
  {
    m[GLOBAL_KEY := Tracked(m) + [now]]
  }

  /** The check: the cleaned tracker and whether a call may proceed. */
  ghost function Admit(m: Tracker, now: int): (Tracker, bool) {
    var p := Prune(m, now - WINDOW_MS);
    (p, Total(p) < MAX_CALLS_PER_MINUTE)
  }

  /** The tracker after one `getTodayDetections` at time `now`: checked, then recorded when admitted. */
  ghost function Step(m: Tracker, now: int): Tracker {
    var (p, ok) := Admit(m, now);
    if ok then Record(p, now) else p
  }

  // ---------------------------------------------------------------------------
  // Lemmas about the tracker

  /** Removing one key takes away exactly its timestamps, whichever key the sum picked first. */
  lemma {:induction false} TotalRemove(m: Tracker, k: string)
    requires k in m
    ensures Total(m) == |m[k]| + Total(m - {k})
    decreases |m|
  {
    var j :| j in m && Total(m) == |m[j]| + Total(m - {j});
    if j != k {
      assert m.Keys == (m - {j}).Keys + {j};
      TotalRemove(m - {j}, k);
      assert m.Keys == (m - {k}).Keys + {k};
      TotalRemove(m - {k}, j);
      assert m - {j} - {k} == m - {k} - {j};
    }
  }

  /** Filtering twice against the same bound is filtering once. */
  lemma {:induction false} RecentIdempotent(calls: seq<int>, minuteAgo: int)
    ensures Recent(Recent(calls, minuteAgo), minuteAgo) == Recent(calls, minuteAgo)
  {
    RecentAbove(Recent(calls, minuteAgo), minuteAgo);
  }

  /** A list whose timestamps are all recent is left as it is. */
  lemma {:induction false} RecentAbove(calls: seq<int>, minuteAgo: int)
    requires forall t :: t in calls ==> t > minuteAgo
    ensures Recent(calls, minuteAgo) == calls
  {
    if calls != [] {
      var init := calls[..|calls| - 1];
      assert calls == init + [calls[|calls| - 1]];
      assert forall t :: t in init ==> t in calls;
      assert calls[|calls| - 1] in calls;
      RecentAbove(init, minuteAgo);
    }
  }

  /** Filtering against a bound and then a later one is filtering against the later one. */
  lemma {:induction false} RecentTwice(calls: seq<int>, a: int, b: int)
    requires a <= b
    ensures Recent(Recent(calls, a), b) == Recent(calls, b)
  {
    if calls != [] {
      var init := calls[..|calls| - 1];
      var last := calls[|calls| - 1];
      RecentTwice(init, a, b);
      RecentAppend(Recent(init, a), if last > a then [last] else [], b);
    }
  }

  lemma {:induction false} RecentAppend(xs: seq<int>, ys: seq<int>, b: int)
    ensures Recent(xs + ys, b) == Recent(xs, b) + Recent(ys, b)
    decreases |ys|
  {
    if ys != [] {
      var init := ys[..|ys| - 1];
      assert (xs + ys)[..|xs + ys| - 1] == xs + init;
      assert (xs + ys)[|xs + ys| - 1] == ys[|ys| - 1];
      RecentAppend(xs, init, b);
    } else {
      assert xs + ys == xs;
    }
  }

  /** After pruning, every timestamp is within the minute and no key is left empty. */
  lemma PruneFresh(m: Tracker, minuteAgo: int)
    ensures forall k :: k in Prune(m, minuteAgo) ==> Prune(m, minuteAgo)[k] != []
    ensures forall k, t :: k in Prune(m, minuteAgo) && t in Prune(m, minuteAgo)[k] ==> t > minuteAgo
  {
  }

  // ---------------------------------------------------------------------------
  // The sliding-window bound over a run of calls

  /** Number of `log` entries inside the trailing minute that ends at `t`: (t - 60 s, t]. */
  function InWindow(log: seq<int>, t: int): nat {
    if log == [] then 0
    else InWindow(log[..|log| - 1], t) + (if t - WINDOW_MS < log[|log| - 1] <= t then 1 else 0)
  }

  predicate NonDecreasing(s: seq<int>) {
    forall i, j :: 0 <= i < j < |s| ==> s[i] <= s[j]
  }

  /** The tracker after a run of `getTodayDetections` calls at the times `nows`, from an empty tracker. */
  ghost function Run(nows: seq<int>): Tracker {
    if nows == [] then map[] else Step(Run(nows[..|nows| - 1]), nows[|nows| - 1])
  }

  /** The times at which that run actually called the upstream API. */
  ghost function Log(nows: seq<int>): seq<int> {
    if nows == [] then []
    else
      var prev := nows[..|nows| - 1];
      Log(prev) + (if Admit(Run(prev), nows[|nows| - 1]).1 then [nows[|nows| - 1]] else [])
  }

  /** What the tracker holds after a run that ended at `clock`, and the bound on every minute. */
  ghost predicate Inv(m: Tracker, log: seq<int>, clock: int) {
    && m.Keys <= {GLOBAL_KEY}
    && (forall x :: x in log ==> x <= clock)
    && Tracked(m) == Recent(log, clock - WINDOW_MS)
    && forall t :: InWindow(log, t) <= MAX_CALLS_PER_MINUTE
  }

  lemma TotalOfGlobal(m: Tracker)
    requires m.Keys <= {GLOBAL_KEY}
    ensures Total(m) == |Tracked(m)|
  {
    if GLOBAL_KEY in m {
      TotalRemove(m, GLOBAL_KEY);
      assert m - {GLOBAL_KEY} == map[];
    } else {
      assert m == map[];
    }
  }

  lemma PruneGlobal(m: Tracker, minuteAgo: int)
    requires m.Keys <= {GLOBAL_KEY}
    ensures Prune(m, minuteAgo).Keys <= {GLOBAL_KEY}
    ensures Tracked(Prune(m, minuteAgo)) == Recent(Tracked(m), minuteAgo)
  {
  }

  /** When all of `log` is at or before `now`, the recent part of it is the window ending at `now`. */
  lemma {:induction false} RecentIsWindow(log: seq<int>, now: int)
    requires forall x :: x in log ==> x <= now
    ensures |Recent(log, now - WINDOW_MS)| == InWindow(log, now)
  {
    if log != [] {
      var init := log[..|log| - 1];
      assert log == init + [log[|log| - 1]];
      assert forall x :: x in init ==> x in log;
      assert log[|log| - 1] in log;
      RecentIsWindow(init, now);
    }
  }

  /** A window ending at or after the last entry holds no more than the window ending at `now`. */
  lemma {:induction false} LaterWindowSmaller(log: seq<int>, now: int, t: int)
    requires forall x :: x in log ==> x <= now
    requires now <= t
    ensures InWindow(log, t) <= InWindow(log, now)
  {
    if log != [] {
      var init := log[..|log| - 1];
      assert log == init + [log[|log| - 1]];
      assert forall x :: x in init ==> x in log;
      assert log[|log| - 1] in log;
      LaterWindowSmaller(init, now, t);
    }
  }

  /** The check at `now` sees exactly the calls of the trailing minute that ends at `now`. */
  lemma AdmitSeesWindow(m: Tracker, log: seq<int>, clock: int, now: int)
    requires Inv(m, log, clock)
    requires clock <= now
    ensures Admit(m, now).0.Keys <= {GLOBAL_KEY}
    ensures Tracked(Admit(m, now).0) == Recent(log, now - WINDOW_MS)
    ensures Total(Admit(m, now).0) == InWindow(log, now)
  {
    var p := Prune(m, now - WINDOW_MS);
    PruneGlobal(m, now - WINDOW_MS);
    RecentTwice(log, clock - WINDOW_MS, now - WINDOW_MS);
    TotalOfGlobal(p);
    RecentIsWindow(log, now);
  }

  /** Appending a call made while the window ending at `now` held fewer than 30 keeps every window within 30. */
  lemma WindowAfterAdmit(log: seq<int>, now: int)
    requires forall x :: x in log ==> x <= now
    requires InWindow(log, now) < MAX_CALLS_PER_MINUTE
    requires forall t :: InWindow(log, t) <= MAX_CALLS_PER_MINUTE
    ensures forall t :: InWindow(log + [now], t) <= MAX_CALLS_PER_MINUTE
  {
    var log' := log + [now];
    assert log'[..|log'| - 1] == log;
    forall t ensures InWindow(log', t) <= MAX_CALLS_PER_MINUTE {
      if t - WINDOW_MS < now <= t {
        LaterWindowSmaller(log, now, t);
      }
    }
  }

  /** One call at a time no earlier than the last keeps the invariant. */
  lemma {:induction false} StepKeepsInv(m: Tracker, log: seq<int>, clock: int, now: int)
    requires Inv(m, log, clock)
    requires clock <= now
    ensures var ok := Admit(m, now).1;
      Inv(Step(m, now), if ok then log + [now] else log, now)
  {
    AdmitSeesWindow(m, log, clock, now);
    if Admit(m, now).1 {
      AdmittedKeepsInv(m, log, clock, now);
    } else {
      assert Step(m, now) == Admit(m, now).0;
    }
  }

  /** An admitted call is recorded, and the log gains its time. */
  lemma AdmittedKeepsInv(m: Tracker, log: seq<int>, clock: int, now: int)
    requires Inv(m, log, clock)
    requires clock <= now
    requires Admit(m, now).1
    ensures Inv(Step(m, now), log + [now], now)
  {
    var p := Admit(m, now).0;
    AdmitSeesWindow(m, log, clock, now);
    assert Step(m, now) == Record(p, now);
    RecordKeepsInv(p, log, now);
  }

  /** Recording `now` on a cleaned tracker that admitted it keeps the invariant. */
  lemma RecordKeepsInv(p: Tracker, log: seq<int>, now: int)
    requires p.Keys <= {GLOBAL_KEY}
    requires forall x :: x in log ==> x <= now
    requires Tracked(p) == Recent(log, now - WINDOW_MS)
    requires InWindow(log, now) < MAX_CALLS_PER_MINUTE
    requires forall t :: InWindow(log, t) <= MAX_CALLS_PER_MINUTE
    ensures Inv(Record(p, now), log + [now], now)
  {
    var r := Record(p, now);
    var log' := log + [now];
    assert Recent([now], now - WINDOW_MS) == [now];
    RecentAppend(log, [now], now - WINDOW_MS);
    assert Tracked(r) == Recent(log', now - WINDOW_MS);
    assert forall x :: x in log' ==> x <= now by {
      forall x | x in log' ensures x <= now {
        assert x in log || x == now;
      }
    }
    WindowAfterAdmit(log, now);
  }

  lemma InitialInv(clock: int)
    ensures Inv(map[], [], clock)
  {
    assert Tracked(map[]) == [];
  }

  /**
   * Over any run of calls whose clock never goes backwards, no trailing
   * minute ever holds more than 30 upstream calls.
   */
  lemma {:induction false} RunNeverExceedsLimit(nows: seq<int>)
    requires NonDecreasing(nows)
    ensures forall t :: InWindow(Log(nows), t) <= MAX_CALLS_PER_MINUTE
    ensures nows != [] ==> Inv(Run(nows), Log(nows), nows[|nows| - 1])
  {
    if nows != [] {
      var prev := nows[..|nows| - 1];
      var now := nows[|nows| - 1];
      var m := Run(prev);
      var log := Log(prev);
      var clock := if prev == [] then now else prev[|prev| - 1];
      assert Inv(m, log, clock) by {
        if prev == [] {
          InitialInv(now);
        } else {
          assert NonDecreasing(prev);
          RunNeverExceedsLimit(prev);
        }
      }
      StepKeepsInv(m, log, clock, now);
      assert Run(nows) == Step(m, now);
      assert Log(nows) == (if Admit(m, now).1 then log + [now] else log);
    }
  }

  // ---------------------------------------------------------------------------
  // The tracker object

  /** The module-level `apiCallTracker` map with the two helpers that update it. */
  class ApiCallTracker {
    var calls: Tracker

    constructor ()
      ensures calls == map[]
    {
      calls := map[];
    }

    /** `checkRateLimit`: cleans every key, then answers whether fewer than 30 timestamps remain. */
    method CheckRateLimit(now: int) returns (allowed: bool)
      modifies this
      ensures calls == Prune(old(calls), now - WINDOW_MS)
      ensures allowed <==> Total(calls) < MAX_CALLS_PER_MINUTE
      ensures (calls, allowed) == Admit(old(calls), now)
    {
      var minuteAgo := now - WINDOW_MS;
      DropStale(minuteAgo);
      PruneFresh(old(calls), minuteAgo);
      var total := CountRecent(minuteAgo);
      allowed := total < MAX_CALLS_PER_MINUTE;
    }

    /** The clean-up pass of `checkRateLimit`, key by key. */
    method DropStale(minuteAgo: int)
      modifies this
      ensures calls == Prune(old(calls), minuteAgo)
    {
      ghost var m0 := calls;
      var pending := calls.Keys;
      while pending != {}
        invariant pending <= m0.Keys
        invariant forall k :: k in calls <==> k in m0 && (k in pending || Recent(m0[k], minuteAgo) != [])
        invariant forall k :: k in calls ==> calls[k] == if k in pending then m0[k] else Recent(m0[k], minuteAgo)
        decreases pending
      {
        var k :| k in pending;
        var recent := Recent(calls[k], minuteAgo);
        if recent == [] {
          calls := calls - {k};
        } else {
          calls := calls[k := recent];
        }
        pending := pending - {k};
      }
      assert calls == Prune(m0, minuteAgo);
    }

    /** The count of `checkRateLimit`: timestamps after `minuteAgo`, over all keys. */
    method CountRecent(minuteAgo: int) returns (total: nat)
      requires forall k, t :: k in calls && t in calls[k] ==> t > minuteAgo
      ensures total == Total(calls)
    {
      var keys := calls.Keys;
      total := 0;
      assert Restrict(calls, keys) == calls;
      while keys != {}
        invariant keys <= calls.Keys
        invariant total + Total(Restrict(calls, keys)) == Total(calls)
        decreases keys
      {
        var k :| k in keys;
        RecentAbove(calls[k], minuteAgo);
        TotalRemove(Restrict(calls, keys), k);
        assert Restrict(calls, keys) - {k} == Restrict(calls, keys - {k});
        total := total + |Recent(calls[k], minuteAgo)|;
        keys := keys - {k};
      }
      assert Restrict(calls, {}) == map[];
    }

    /** `recordApiCall`. */
    method RecordApiCall(now: int)
      modifies this
      ensures calls == Record(old(calls), now)
    {
      var prev := if GLOBAL_KEY in calls then calls[GLOBAL_KEY] else [];
      calls := calls[GLOBAL_KEY := prev + [now]];
    }

    /**
     * `getTodayDetections`: a denied call returns nothing and records nothing;
     * an admitted call is recorded before the request. `upstream` is what the
     * request yields, `None` when it throws.
     */
    method GetTodayDetections(now: int, upstream: Option<seq<Detection>>) returns (ds: seq<Detection>)
      modifies this
      ensures calls == Step(old(calls), now)
      ensures Admit(old(calls), now).1 && upstream.Some? ==> ds == upstream.value
      ensures !Admit(old(calls), now).1 || upstream.None? ==> ds == []
    {
      var allowed := CheckRateLimit(now);
      if !allowed {
        return [];
      }
      RecordApiCall(now);
      match upstream
      case Some(nodes) => ds := nodes;
      case None => ds := [];
    }
  }
}
