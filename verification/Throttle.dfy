/**
 The sliding-window limiters (internal/connector/irc/ratelimit.go) and the
 store deduplication window (internal/runtime/runtime.go), against their full
 unpruned histories. Times are integers on a clock that never runs back.
 */
module Throttle {
  import opened Options
  import opened Windows

  // ----- one key of the throttle -----

  // Allowed exactly when fewer than `max` allowed events lie in [now - window, now].
  predicate Allows(h: seq<int>, now: int, window: int, max: nat) {
    |Keep(h, now - window)| < max
  }

  // A call is denied for no other reason than `max` allowed ones within the window.
  lemma AllowsExactly(h: seq<int>, now: int, window: int, max: nat)
    ensures Allows(h, now, window, max) <==> |set i | 0 <= i < |h| && h[i] >= now - window| < max
  {
    KeepCount(h, now - window);
  }

  function After(h: seq<int>, now: int, window: int, max: nat): seq<int> {
    if Allows(h, now, window, max) then h + [now] else h
  }

  // The allowed events of a sequence of calls.
  function History(calls: seq<int>, window: int, max: nat): seq<int> {
    if calls == [] then []
    else After(History(calls[..|calls| - 1], window, max), calls[|calls| - 1], window, max)
  }

  ghost predicate GoodHistory(h: seq<int>, window: int, max: nat, now: int) {
    Ordered(h) && Paced(h, window, max) && AtMost(h, now)
  }

  lemma OneMoreCall(h: seq<int>, window: int, max: nat, at: int, now: int)
    requires GoodHistory(h, window, max, at) && at <= now
    ensures GoodHistory(After(h, at, window, max), window, max, now)
  {
    hide Keep, Paced, Ordered, AtMost;
    if Allows(h, at, window, max) {
      PacedExtends(h, at, window, max);
      OrderedAppend(h, at);
      AtMostLater(h + [at], at, now);
    } else {
      AtMostLater(h, at, now);
    }
  }

  lemma {:induction false} HistoryPaced(calls: seq<int>, window: int, max: nat, now: int)
    requires Ordered(calls) && AtMost(calls, now)
    ensures GoodHistory(History(calls, window, max), window, max, now)
  {
    if calls != [] {
      var front, last := calls[..|calls| - 1], calls[|calls| - 1];
      OrderedFront(calls);
      assert last <= now;
      assert History(calls, window, max) == After(History(front, window, max), last, window, max);
      hide *;
      HistoryPaced(front, window, max, last);
      OneMoreCall(History(front, window, max), window, max, last, now);
    } else {
      assert History(calls, window, max) == [];
    }
  }

  // Over any run of calls no closed interval of the window's length holds more
  // than `max` allowed events.
  lemma EveryWindowBounded(calls: seq<int>, window: int, max: nat, a: int)
    requires Ordered(calls)
    ensures CountIn(History(calls, window, max), a, a + window) <= max
  {
    if calls != [] {
      OrderedFront(calls);
      HistoryPaced(calls, window, max, calls[|calls| - 1]);
    }
    PacedWindows(History(calls, window, max), window, max, a);
  }

  function RetryAfter(h: seq<int>, now: int, window: int, max: nat): int
    requires max > 0 && !Allows(h, now, window, max)
  {
    Keep(h, now - window)[0] + window - now
  }

  // After a denial calls stay denied up to and including now + RetryAfter, and
  // the first later one is allowed; RetryAfter can be zero.
  lemma RetryAfterExact(calls: seq<int>, now: int, window: int, max: nat, t: int)
    requires Ordered(calls) && AtMost(calls, now) && max > 0 && window >= 0
    requires !Allows(History(calls, window, max), now, window, max)
    requires t >= now
    ensures var h := History(calls, window, max);
            && RetryAfter(h, now, window, max) >= 0
            && (Allows(h, t, window, max) <==> t > now + RetryAfter(h, now, window, max))
  {
    HistoryPaced(calls, window, max, now);
    hide History;
    RetryExact(History(calls, window, max), now, window, max, t);
  }

  lemma RetryExact(h: seq<int>, now: int, window: int, max: nat, t: int)
    requires Ordered(h) && Paced(h, window, max)
    requires AtMost(h, now)
    requires t >= now && max > 0 && !Allows(h, now, window, max)
    ensures RetryAfter(h, now, window, max) >= 0
    ensures Allows(h, t, window, max) <==> t > now + RetryAfter(h, now, window, max)
  {
    hide Paced, Keep, AtMost, Ordered;
    FullBucket(h, now, window, max);
    KeepKeep(h, now - window, t - window);
    KeepShrinks(h, now - window, t - window);
    OrderedSuffix(h, now - window);
    FirstKept(Keep(h, now - window), t - window);
  }

  lemma OrderedSuffix(h: seq<int>, cutoff: int)
    requires Ordered(h)
    ensures Ordered(Keep(h, cutoff))
  {
    KeepIsSuffix(h, cutoff);
    hide Keep;
  }

  // All of an ordered bucket is kept exactly when its first event is.
  lemma FirstKept(bucket: seq<int>, cutoff: int)
    requires bucket != [] && Ordered(bucket)
    ensures |Keep(bucket, cutoff)| == |bucket| <==> bucket[0] >= cutoff
  {
    hide Keep;
    KeepIsSuffix(bucket, cutoff);
    var n := |bucket| - |Keep(bucket, cutoff)|;
    assert n > 0 ==> bucket[0] <= bucket[n - 1];
    assert n == 0 ==> Keep(bucket, cutoff)[0] == bucket[0];
  }

  // A denied call sees exactly `max` events.
  lemma FullBucket(h: seq<int>, now: int, window: int, max: nat)
    requires Ordered(h) && Paced(h, window, max)
    requires AtMost(h, now)
    ensures |Keep(h, now - window)| <= max
  {
    CountIsKeep(h, now - window, now);
    PacedWindows(h, window, max, now - window);
  }

  // A denied call is told to retry at once exactly when an allowed event lies
  // on the far edge of the window.
  lemma ZeroRetryExactly(h: seq<int>, now: int, window: int, max: nat)
    requires Ordered(h) && max > 0 && !Allows(h, now, window, max)
    ensures RetryAfter(h, now, window, max) == 0 <==> (now - window) in h
  {
    hide Keep, Ordered;
    KeepIsSuffix(h, now - window);
    var kept := Keep(h, now - window);
    var n := |h| - |kept|;
    assert kept[0] == h[n];
    if (now - window) in h {
      var i :| 0 <= i < |h| && h[i] == now - window;
      InOrder(h, i, n);
      if i < n {
        InOrder(h, i, n - 1);
      }
    }
  }

  lemma InOrder(h: seq<int>, i: nat, j: nat)
    requires Ordered(h) && i < |h| && j < |h|
    ensures i <= j ==> h[i] <= h[j]
    ensures j <= i ==> h[j] <= h[i]
  {
  }

  // RetryAfter zero does not mean that a retry at once succeeds.
  lemma ZeroRetryAfterDenied()
    ensures var h := History([0, 10], 10, 1);
            h == [0] && !Allows(h, 10, 10, 1) && RetryAfter(h, 10, 10, 1) == 0
  {
    assert [0, 10][..1] == [0] && [0][..0] == [];
    assert History([0], 10, 1) == [0];
    assert Keep([0], 0) == [0];
  }

  // ----- the throttle object -----

  datatype Result = Result(allow: bool, retryAfter: int)

  class Limiter {
    const max: nat
    const window: int
    var events: map<string, seq<int>>

    ghost var history: map<string, seq<int>>  // every allowed event
    ghost var clock: int                      // time of the last call

    ghost predicate Valid()
      reads this
    {
      && max >= 1 && window > 0
      && events.Keys == history.Keys
      && (forall k | k in events :: Agrees(events[k], history[k], clock - window))
    }

    ghost function Of(key: string): seq<int>
      reads this
    {
      if key in history then history[key] else []
    }

    constructor (max: nat, window: int)
      requires max >= 1 && window > 0
      ensures Valid() && history == map[] && this.max == max && this.window == window
    {
      this.max, this.window := max, window;
      events, history := map[], map[];
    }

    method AllowWithReason(key: string, now: int) returns (r: Result)
      requires Valid() && (history == map[] || clock <= now)
      modifies this
      ensures Valid() && clock == now
      ensures r.allow <==> Allows(old(Of(key)), now, window, max)
      ensures r.retryAfter == if r.allow then 0 else RetryAfter(old(Of(key)), now, window, max)
      ensures history == old(history)[key := After(old(Of(key)), now, window, max)]
    {
      hide Keep, Agrees, Ordered, AtMost;
      var cutoff := now - window;
      var bucket := if key in events then events[key] else [];
      ghost var h := Of(key);
      var pruned := Prune(bucket, cutoff);
      NewBucket(cutoff);
      forall k | k in events
        ensures Keep(events[k], cutoff) == Keep(history[k], cutoff)
        ensures Agrees(events[k], history[k], cutoff) && Agrees(Keep(history[k], cutoff), history[k], cutoff)
      {
        AgreesAt(events[k], history[k], clock - window, cutoff);
      }
      assert pruned == Keep(h, cutoff) && Agrees(pruned, h, cutoff);
      clock := now;
      if |pruned| >= max {
        events := events[key := pruned];
        history := history[key := h];
        return Result(false, pruned[0] + window - now);
      }
      AddNow(h, now, cutoff);
      pruned := pruned + [now];
      events := events[key := pruned];
      history := history[key := h + [now]];
      return Result(true, 0);
    }
  }

  method NewThrottle(max: int, window: int) returns (t: Option<Limiter>)
    ensures t.Some? <==> max >= 1 && window > 0
    ensures t.Some? ==> fresh(t.value) && t.value.Valid() && t.value.history == map[]
    ensures t.Some? ==> t.value.max == max && t.value.window == window
  {
    if max < 1 || window <= 0 {
      return None;
    }
    var limiter := new Limiter(max, window);
    return Some(limiter);
  }

  lemma NewBucket(cutoff: int)
    ensures Keep([], cutoff) == [] && Agrees([], [], cutoff)
  {
    assert Keep([], cutoff) == [];
  }

  lemma AddNow(h: seq<int>, now: int, cutoff: int)
    requires now >= cutoff
    ensures Agrees(Keep(h, cutoff) + [now], h + [now], cutoff)
  {
    KeepAppend(h, now, cutoff);
  }

  // ----- authentication failures -----

  // The failure that completes `max` of them in the window, counting itself, locks.
  predicate Locks(h: seq<int>, now: int, window: int, max: nat) {
    |Keep(h, now - window)| + 1 >= max
  }

  // A lock needs all of them: the failure itself and max - 1 others in the window.
  lemma LocksExactly(h: seq<int>, now: int, window: int, max: nat)
    ensures Locks(h, now, window, max) <==> |set i | 0 <= i < |h| && h[i] >= now - window| + 1 >= max
  {
    KeepCount(h, now - window);
  }

  // While no failure locks, every window holds fewer than `max` failures.
  ghost predicate Unlocked(h: seq<int>, window: int, max: nat) {
    forall i | 0 <= i < |h| :: !Locks(h[..i], h[i], window, max)
  }

  lemma UnlockedWindows(h: seq<int>, window: int, max: nat, a: int)
    requires Ordered(h) && Unlocked(h, window, max) && max >= 1
    ensures CountIn(h, a, a + window) < max
  {
    if h == [] {
    } else {
      assert !Locks(h[..0], h[0], window, max);
      hide Keep;
      assert Paced(h, window, max - 1);
      PacedWindows(h, window, max - 1, a);
    }
  }

  datatype FailureResult = FailureResult(count: nat, locked: bool)

  class RateLimiter {
    const max: nat
    const window: int
    const lockout: int
    var failures: map<string, seq<int>>
    var lockedUntil: map<string, int>

    ghost var history: map<string, seq<int>>  // failures since the last lock or success
    ghost var clock: int

    ghost predicate Valid()
      reads this
    {
      && max >= 1 && window > 0 && lockout > 0
      && failures.Keys == history.Keys
      && (forall k | k in failures :: Entry(failures[k], history[k], clock - window))
    }

    ghost predicate Entry(bucket: seq<int>, h: seq<int>, bound: int) {
      Agrees(bucket, h, bound) && Unlocked(h, window, max)
    }

    ghost function Of(ip: string): seq<int>
      reads this
    {
      if ip in history then history[ip] else []
    }

    constructor (max: nat, window: int, lockout: int)
      requires max >= 1 && window > 0 && lockout > 0
      ensures Valid() && history == map[] && lockedUntil == map[]
      ensures this.max == max && this.window == window && this.lockout == lockout
    {
      this.max, this.window, this.lockout := max, window, lockout;
      failures, lockedUntil, history := map[], map[], map[];
    }

    lemma EntryAt(bucket: seq<int>, h: seq<int>, bound: int, cutoff: int)
      requires Entry(bucket, h, bound) && bound <= cutoff
      ensures Entry(bucket, h, cutoff) && Keep(bucket, cutoff) == Keep(h, cutoff)
    {
      AgreesAt(bucket, h, bound, cutoff);
    }

    lemma EntryAdd(h: seq<int>, now: int)
      requires h == [] || Unlocked(h, window, max)
      requires window > 0 && !Locks(h, now, window, max)
      ensures Entry(Keep(h, now - window) + [now], h + [now], now - window)
    {
      AddNow(h, now, now - window);
      UnlockedExtends(h, now, window, max);
    }

    method RecordFailure(ip: string, now: int) returns (r: FailureResult)
      requires Valid() && (history == map[] || clock <= now)
      modifies this
      ensures Valid() && clock == now
      ensures r.locked <==> Locks(old(Of(ip)), now, window, max)
      ensures r.count == |Keep(old(Of(ip)), now - window)| + 1
      ensures lockedUntil == if r.locked then old(lockedUntil)[ip := now + lockout] else old(lockedUntil)
      ensures history == if r.locked then old(history) - {ip} else old(history)[ip := old(Of(ip)) + [now]]
    {
      hide Keep, Agrees, Unlocked;
      var cutoff := now - window;
      var bucket := if ip in failures then failures[ip] else [];
      var pruned := Prune(bucket, cutoff);
      NewBucket(cutoff);
      if ip in failures {
        EntryAt(failures[ip], history[ip], clock - window, cutoff);
      }
      assert pruned == Keep(Of(ip), cutoff);
      Advance(now);
      pruned := pruned + [now];
      if |pruned| >= max {
        lockedUntil := lockedUntil[ip := now + lockout];
        Forget(ip);
        return FailureResult(|pruned|, true);
      }
      assert Of(ip) == [] || Unlocked(Of(ip), window, max) by {
        assert ip in failures ==> Entry(failures[ip], history[ip], clock - window);
      }
      EntryAdd(Of(ip), now);
      Remember(ip, pruned);
      return FailureResult(|pruned|, false);
    }

    // The clock moves on; every bucket still agrees with its history.
    ghost method Advance(now: int)
      requires Valid() && (history == map[] || clock <= now)
      modifies this`clock
      ensures Valid() && clock == now
    {
      forall k | k in failures
        ensures Entry(failures[k], history[k], now - window)
      {
        EntryAt(failures[k], history[k], clock - window, now - window);
      }
      clock := now;
    }

    method Forget(ip: string)
      requires Valid()
      modifies this`failures, this`history
      ensures Valid() && history == old(history) - {ip}
    {
      hide Entry;
      failures, history := failures - {ip}, history - {ip};
    }

    method Remember(ip: string, bucket: seq<int>)
      requires Valid() && Entry(bucket, Of(ip) + [clock], clock - window)
      modifies this`failures, this`history
      ensures Valid() && history == old(history)[ip := old(Of(ip)) + [clock]]
    {
      hide Entry;
      ghost var h := Of(ip) + [clock];
      failures := failures[ip := bucket];
      history := history[ip := h];
    }

    method RecordSuccess(ip: string)
      requires Valid()
      modifies this
      ensures Valid() && clock == old(clock)
      ensures history == old(history) - {ip} && lockedUntil == old(lockedUntil) - {ip}
    {
      Forget(ip);
      lockedUntil := lockedUntil - {ip};
    }

    // The rest of the lockout; an expired entry is forgotten, which no later call can tell.
    method TimeUntilUnlock(ip: string, now: int) returns (d: int)
      requires Valid()
      modifies this`lockedUntil
      ensures Valid()
      ensures d == if ip in old(lockedUntil) && old(lockedUntil)[ip] > now then old(lockedUntil)[ip] - now else 0
      ensures lockedUntil == if d == 0 then old(lockedUntil) - {ip} else old(lockedUntil)
    {
      if ip !in lockedUntil {
        assert lockedUntil - {ip} == lockedUntil;
        return 0;
      }
      var remaining := lockedUntil[ip] - now;
      if remaining <= 0 {
        lockedUntil := lockedUntil - {ip};
        return 0;
      }
      return remaining;
    }
  }

  method NewRateLimiter(max: int, window: int, lockout: int) returns (r: Option<RateLimiter>)
    ensures r.Some? <==> max >= 1 && window > 0 && lockout > 0
    ensures r.Some? ==> fresh(r.value) && r.value.Valid() && r.value.history == map[] && r.value.lockedUntil == map[]
    ensures r.Some? ==> r.value.max == max && r.value.window == window && r.value.lockout == lockout
  {
    if max < 1 || window <= 0 || lockout <= 0 {
      return None;
    }
    var limiter := new RateLimiter(max, window, lockout);
    return Some(limiter);
  }

  lemma UnlockedExtends(h: seq<int>, t: int, window: int, max: nat)
    requires (h == [] || Unlocked(h, window, max)) && !Locks(h, t, window, max)
    ensures Unlocked(h + [t], window, max)
  {
    hide Keep;
    var g := h + [t];
    forall i | 0 <= i < |g|
      ensures !Locks(g[..i], g[i], window, max)
    {
      if i < |h| {
        assert g[..i] == h[..i];
      } else {
        assert g[..i] == h;
      }
    }
  }

  // ----- deduplicated sightings -----

  const GC_THRESHOLD := 512

  class Dedupe {
    const window: int
    var seen: map<string, int>

    ghost var sightings: map<string, int>  // last sighting of every key, never collected
    ghost var clock: int

    ghost predicate Valid()
      reads this
    {
      && window > 0
      && (forall k | k in seen :: k in sightings && seen[k] == sightings[k])
      && (forall k | k in sightings && k !in seen :: clock - sightings[k] >= window)
    }

    constructor (window: int)
      requires window > 0
      ensures Valid() && sightings == map[] && this.window == window
    {
      this.window := window;
      seen, sightings := map[], map[];
    }

    // True exactly when the key was not sighted within the window; collecting
    // stale keys, in any order, cannot be told from keeping them.
    method FirstSight(key: string, now: int) returns (first: bool)
      requires Valid() && (sightings == map[] || clock <= now)
      modifies this
      ensures Valid() && clock == now
      ensures first <==> !(key in old(sightings) && now - old(sightings)[key] < window)
      ensures sightings == old(sightings)[key := now]
    {
      clock := now;
      sightings := sightings[key := now];
      if key in seen && now - seen[key] < window {
        seen := seen[key := now];
        return false;
      }
      seen := seen[key := now];
      if |seen| > GC_THRESHOLD {
        var todo := seen.Keys;
        while todo != {}
          invariant Valid() && clock == now && sightings == old(sightings)[key := now]
          decreases |todo|
        {
          var k :| k in todo;
          if k in seen && now - seen[k] >= window {
            seen := seen - {k};
          }
          todo := todo - {k};
        }
      }
      return true;
    }
  }
}
