/**
 The reconnect loop's pacing: backoff schedule (internal/connector/irc/backoff.go),
 storm breaker (reconnect_storm.go) and their combination (connector.go).
 */
module Reconnect {
  import opened Windows

  // ----- backoff -----

  const SECOND := 1_000_000_000

  const DEFAULT_BASE := [1 * SECOND, 2 * SECOND, 4 * SECOND, 8 * SECOND, 16 * SECOND, 30 * SECOND, 60 * SECOND]

  // Conversion of a float to an integer duration.
  function Truncate(x: real): int {
    if x >= 0.0 then x.Floor else -((-x).Floor)
  }

  // In [1 - jitter, 1 + jitter); u is what the random source returns, in [0, 1).
  function Multiplier(jitter: real, u: real): real {
    1.0 + jitter * (2.0 * u - 1.0)
  }

  function Scale(d: int, m: real): int {
    Truncate(d as real * m)
  }

  function Jittered(d: int, jitter: real, u: real): int {
    if jitter > 0.0 then Scale(d, Multiplier(jitter, u)) else d
  }

  class BackoffSchedule {
    const base: seq<int>
    const jitter: real
    var idx: nat

    ghost var calls: nat  // calls of Next since the last reset

    ghost predicate Valid()
      reads this
    {
      base != [] && idx == if calls < |base| then calls else |base|
    }

    // An empty schedule stands for the default one.
    constructor (base: seq<int>, jitter: real)
      ensures Valid() && calls == 0
      ensures base != [] ==> this.base == base
      ensures base == [] ==> |this.base| == 7 && forall i | 0 <= i < 7 :: this.base[i] == [1, 2, 4, 8, 16, 30, 60][i] * 1_000_000_000
      ensures this.jitter == if jitter < 0.0 then 0.0 else jitter
    {
      this.base := if base == [] then DEFAULT_BASE else base;
      this.jitter := if jitter < 0.0 then 0.0 else jitter;
      idx, calls := 0, 0;
    }

    method Next(u: real) returns (d: int)
      requires Valid() && 0.0 <= u < 1.0
      modifies this
      ensures Valid() && calls == old(calls) + 1
      ensures old(calls) < |base| ==> d == Jittered(base[old(calls)], jitter, u)
      ensures old(calls) >= |base| ==> d == Jittered(base[|base| - 1], jitter, u)
    {
      var i := idx;
      if i >= |base| {
        i := |base| - 1;
      } else {
        idx := idx + 1;
      }
      hide Jittered;
      d := Jittered(base[i], jitter, u);
      calls := calls + 1;
    }

    method Reset()
      requires Valid()
      modifies this
      ensures Valid() && calls == 0
    {
      idx, calls := 0, 0;
    }
  }

  // Jitter stays within its fraction of the base delay, whatever the source
  // returns; a fraction above one can make the delay negative.
  lemma JitterBounds(d: int, jitter: real, u: real)
    requires d >= 0 && 0.0 <= jitter && 0.0 <= u < 1.0
    ensures var r := Jittered(d, jitter, u) as real;
            d as real * (1.0 - jitter) - 1.0 < r <= d as real * (1.0 + jitter)
    ensures jitter <= 1.0 ==> Jittered(d, jitter, u) >= 0
  {
    var x := d as real;
    if jitter == 0.0 {
      Unscaled(x, 1.0 - jitter);
      Unscaled(x, 1.0 + jitter);
    } else {
      hide Multiplier, Scale;
      MultiplierBounds(jitter, u);
      var m := Multiplier(jitter, u);
      ScaledBetween(d, 1.0 - jitter, m, 1.0 + jitter);
    }
  }

  // A draw from the middle gives the base delay, the least draw the lower end.
  lemma JitterSpread(d: int, jitter: real)
    requires d >= 0 && 0.0 <= jitter <= 1.0
    ensures Jittered(d, jitter, 0.5) == d
    ensures d as real * (1.0 - jitter) - 1.0 < Jittered(d, jitter, 0.0) as real <= d as real * (1.0 - jitter)
  {
    assert 2.0 * 0.5 - 1.0 == 0.0 && 2.0 * 0.0 - 1.0 == -1.0;
    assert jitter * 0.0 == 0.0 && jitter * -1.0 == -jitter;
    NonNegative(d as real, 1.0 - jitter);
    TruncateBounds(d as real * (1.0 - jitter));
  }

  lemma MultiplierBounds(jitter: real, u: real)
    requires 0.0 <= jitter && 0.0 <= u < 1.0
    ensures 1.0 - jitter <= Multiplier(jitter, u) <= 1.0 + jitter
  {
    ScaleBounds(jitter, 2.0 * u - 1.0, 1.0);
    assert jitter * 1.0 == jitter;
  }

  lemma ScaledBetween(d: int, lo: real, m: real, hi: real)
    requires d >= 0 && lo <= m <= hi && 0.0 <= hi
    ensures m >= 0.0 ==> Scale(d, m) >= 0
    ensures d as real * lo - 1.0 < Scale(d, m) as real <= d as real * hi
  {
    var x := d as real;
    Between(x, lo, m, hi);
    NonNegative(x, hi);
    TruncateBounds(x * m);
    if m >= 0.0 {
      NonNegative(x, m);
    }
  }

  lemma Unscaled(x: real, m: real)
    requires m == 1.0
    ensures x * m == x
  {
  }

  lemma NonNegative(x: real, m: real)
    requires x >= 0.0 && m >= 0.0
    ensures x * m >= 0.0
  {
  }

  lemma TruncateBounds(x: real)
    ensures x >= 0.0 ==> Truncate(x) >= 0 && x - 1.0 < Truncate(x) as real <= x
    ensures x < 0.0 ==> Truncate(x) <= 0 && x <= Truncate(x) as real < x + 1.0
  {
  }

  lemma ScaleBounds(a: real, w: real, bound: real)
    requires a >= 0.0 && -bound <= w <= bound
    ensures -(a * bound) <= a * w <= a * bound
  {
    assert a * (bound - w) >= 0.0 && a * (bound + w) >= 0.0;
  }

  lemma Between(x: real, lo: real, m: real, hi: real)
    requires x >= 0.0 && lo <= m <= hi
    ensures x * lo <= x * m <= x * hi
  {
    assert x * (m - lo) >= 0.0 && x * (hi - m) >= 0.0;
  }

  // ----- storm breaker -----

  // More than `max` attempts, this one included, lie in (now - window, now].
  predicate Trips(h: seq<int>, now: int, window: int, max: int) {
    |Keep(h, now - window + 1)| + 1 > max
  }

  lemma TripsExactly(h: seq<int>, now: int, window: int, max: int)
    ensures Trips(h, now, window, max) <==> |set i | 0 <= i < |h| && h[i] > now - window| + 1 > max
  {
    KeepCount(h, now - window + 1);
    assert (set i | 0 <= i < |h| && h[i] > now - window) == set i | 0 <= i < |h| && h[i] >= now - window + 1;
  }

  lemma TripsCount(h: seq<int>, now: int, window: int, max: int)
    ensures Trips(h, now, window, max) <==> |Keep(h, now - window + 1)| + 1 > max
  {
  }

  // From the bound on the pruned attempts agree with all of them.
  ghost predicate Tracks(attempts: seq<int>, history: seq<int>, bound: int) {
    if history == [] then attempts == [] else Keep(attempts, bound) == Keep(history, bound)
  }

  lemma TracksAt(attempts: seq<int>, history: seq<int>, bound: int, cutoff: int)
    requires Tracks(attempts, history, bound) && (history == [] || bound <= cutoff)
    ensures Keep(attempts, cutoff) == Keep(history, cutoff)
  {
    hide Keep;
    if history != [] {
      KeepKeep(attempts, bound, cutoff);
      KeepKeep(history, bound, cutoff);
    }
  }

  lemma TracksAdd(history: seq<int>, now: int, cutoff: int)
    ensures Tracks(Keep(history, cutoff) + [now], history + [now], cutoff)
  {
    hide Keep;
    KeepAppend(history, now, cutoff);
    KeepAppend(Keep(history, cutoff), now, cutoff);
    KeepKeep(history, cutoff, cutoff);
  }

  class ReconnectStorm {
    const window: int
    const maxAttempts: int
    const cooldown: int
    var attempts: seq<int>

    ghost var history: seq<int>  // every recorded attempt
    ghost var clock: int

    ghost predicate Valid()
      reads this
    {
      Tracks(attempts, history, clock - window + 1)
    }

    constructor (window: int, maxAttempts: int, cooldown: int)
      ensures Valid() && history == []
      ensures this.window == window && this.maxAttempts == maxAttempts && this.cooldown == cooldown
    {
      this.window, this.maxAttempts, this.cooldown := window, maxAttempts, cooldown;
      attempts, history := [], [];
    }

    // A non-positive threshold disables the breaker.
    method Record(now: int) returns (storm: bool)
      requires Valid() && (history == [] || clock <= now)
      modifies this
      ensures Valid()
      ensures storm <==> maxAttempts > 0 && Trips(old(history), now, window, maxAttempts)
      ensures history == if maxAttempts > 0 then old(history) + [now] else old(history)
      ensures maxAttempts > 0 ==> clock == now
    {
      hide Keep, Tracks, Trips;
      if maxAttempts <= 0 {
        return false;
      }
      TripsCount(history, now, window, maxAttempts);
      TracksAt(attempts, history, clock - window + 1, now - window + 1);
      TracksAdd(history, now, now - window + 1);
      var kept := Prune(attempts, now - window + 1);
      attempts := kept + [now];
      history := history + [now];
      clock := now;
      return |attempts| > maxAttempts;
    }

    method NextDelay(now: int, backoff: int) returns (d: int)
      requires Valid() && (history == [] || clock <= now)
      modifies this
      ensures Valid()
      ensures history == if maxAttempts > 0 then old(history) + [now] else old(history)
      ensures d == StormDelay(old(history), now, backoff, window, maxAttempts, cooldown)
    {
      var storm := Record(now);
      d := if storm then cooldown else backoff;
    }
  }

  function StormDelay(h: seq<int>, now: int, backoff: int, window: int, max: int, cooldown: int): int {
    if max > 0 && Trips(h, now, window, max) then cooldown else backoff
  }

  method ReconnectDelay(storm: ReconnectStorm, now: int, backoff: int, floor: int) returns (d: int)
    requires storm.Valid() && (storm.history == [] || storm.clock <= now)
    modifies storm
    ensures storm.Valid()
    ensures storm.history == if storm.maxAttempts > 0 then old(storm.history) + [now] else old(storm.history)
    ensures d == PacedDelay(old(storm.history), now, backoff,
                            Pacing(storm.window, storm.maxAttempts, storm.cooldown, floor))
  {
    d := storm.NextDelay(now, backoff);
    if floor > 0 && d < floor {
      d := floor;
    }
  }

  // ----- whole runs -----

  datatype Pacing = Pacing(window: int, max: int, cooldown: int, floor: int)

  function PacedDelay(h: seq<int>, now: int, backoff: int, p: Pacing): int {
    var d := StormDelay(h, now, backoff, p.window, p.max, p.cooldown);
    if p.floor > 0 && d < p.floor then p.floor else d
  }

  // The delay before the next attempt: the cooldown in a storm and the backoff
  // otherwise, raised to a positive floor.
  lemma PacedDelayExact(h: seq<int>, now: int, backoff: int, p: Pacing)
    ensures var d := PacedDelay(h, now, backoff, p);
            var chosen := if p.max > 0 && |set i | 0 <= i < |h| && h[i] > now - p.window| >= p.max then p.cooldown else backoff;
            && (d == chosen || (d == p.floor && p.floor > 0))
            && d >= chosen && (p.floor > 0 ==> d >= p.floor)
  {
    TripsExactly(h, now, p.window, p.max);
    hide Trips;
  }

  // Attempts recorded by a run that never cuts a sleep short: each one waits
  // at least the delay computed at the one before, whatever the backoffs are.
  ghost predicate Run(times: seq<int>, backoffs: seq<int>, p: Pacing) {
    && |backoffs| == |times|
    && (forall i | 0 <= i < |backoffs| :: backoffs[i] >= 0)
    && forall i | 0 <= i < |times| - 1 :: times[i + 1] >= times[i] + PacedDelay(times[..i], times[i], backoffs[i], p)
  }

  lemma RunFront(times: seq<int>, backoffs: seq<int>, p: Pacing)
    requires Run(times, backoffs, p) && times != []
    ensures Run(times[..|times| - 1], backoffs[..|times| - 1], p)
    ensures |times| > 1 ==>
              var n := |times| - 2;
              times[n + 1] >= times[n] + PacedDelay(times[..|times| - 1][..n], times[n], backoffs[n], p)
  {
    hide PacedDelay;
    var front := times[..|times| - 1];
    assert forall i | 0 <= i < |front| :: front[..i] == times[..i];
  }

  // Consecutive attempts are at least the floor apart.
  lemma FloorRespected(times: seq<int>, backoffs: seq<int>, p: Pacing, i: nat)
    requires Run(times, backoffs, p) && p.cooldown >= 0 && i + 1 < |times|
    ensures times[i + 1] - times[i] >= p.floor
  {
    hide Trips;
    assert times[i + 1] >= times[i] + PacedDelay(times[..i], times[i], backoffs[i], p);
  }

  // With the cooldown at least as long as the window, every attempt sees at
  // most `max` earlier ones in its window.
  lemma {:induction false} RunPaced(times: seq<int>, backoffs: seq<int>, p: Pacing)
    requires Run(times, backoffs, p)
    requires p.window > 0 && p.max > 0 && p.cooldown >= p.window
    ensures Ordered(times) && Paced(times, p.window - 1, p.max + 1)
    ensures times != [] ==> AtMost(times, times[|times| - 1])
  {
    if times != [] {
      var front, last := times[..|times| - 1], times[|times| - 1];
      RunFront(times, backoffs, p);
      hide Run, Ordered, Paced, AtMost, PacedDelay;
      RunPaced(front, backoffs[..|front|], p);
      assert times == front + [last];
      if front == [] {
        EmptyPaced(last, p);
      } else {
        OneMoreAttempt(front, last, backoffs[|front| - 1], p);
      }
    }
  }

  lemma OneMoreAttempt(front: seq<int>, next: int, backoff: int, p: Pacing)
    requires p.window > 0 && p.max > 0 && p.cooldown >= p.window
    requires front != [] && Ordered(front) && Paced(front, p.window - 1, p.max + 1) && backoff >= 0
    requires var n := |front| - 1; next >= front[n] + PacedDelay(front[..n], front[n], backoff, p)
    ensures Ordered(front + [next]) && Paced(front + [next], p.window - 1, p.max + 1) && AtMost(front + [next], next)
  {
    NextAttempt(front, next, backoff, p);
    hide Paced, Ordered, AtMost, Keep, PacedDelay;
    OrderedAppend(front, next);
    PacedExtends(front, next, p.window - 1, p.max + 1);
  }

  lemma EmptyPaced(t: int, p: Pacing)
    requires p.max > 0
    ensures Ordered([] + [t]) && Paced([] + [t], p.window - 1, p.max + 1) && AtMost([] + [t], t)
  {
    assert Keep([], t - (p.window - 1)) == [];
    PacedExtends([], t, p.window - 1, p.max + 1);
  }

  // One more attempt after the delay: either the last one tripped the breaker
  // and everything is out of the window, or there is still room for one.
  lemma NextAttempt(front: seq<int>, next: int, backoff: int, p: Pacing)
    requires front != [] && Ordered(front) && backoff >= 0
    requires p.window > 0 && p.max > 0 && p.cooldown >= p.window
    requires var n := |front| - 1; next >= front[n] + PacedDelay(front[..n], front[n], backoff, p)
    ensures front[|front| - 1] <= next && AtMost(front, next)
    ensures |Keep(front, next - (p.window - 1))| < p.max + 1
  {
    hide Keep, Trips;
    var n := |front| - 1;
    var last := front[n];
    OrderedFront(front);
    assert front == front[..n] + [last];
    var cut := last - p.window + 1;
    assert AtMost(front, last);
    TripsCount(front[..n], last, p.window, p.max);
    hide Ordered, Keep, Trips;
    if Trips(front[..n], last, p.window, p.max) {
      assert AtMost(front, next - p.window);
      KeepNothing(front, next - (p.window - 1));
    } else {
      assert |Keep(front[..n], cut)| < p.max;
      hide AtMost;
      KeepAppend(front[..n], last, cut);
      KeepShrinks(front, cut, next - (p.window - 1));
    }
  }

  lemma {:induction false} KeepNothing(h: seq<int>, cutoff: int)
    requires AtMost(h, cutoff - 1)
    ensures Keep(h, cutoff) == []
  {
    if h != [] {
      KeepNothing(h[..|h| - 1], cutoff);
    }
  }

  // No half-open window (t - window, t] of any run holds more than max + 1
  // recorded attempts.
  lemma ReconnectBound(times: seq<int>, backoffs: seq<int>, p: Pacing, t: int)
    requires Run(times, backoffs, p)
    requires p.window > 0 && p.max > 0 && p.cooldown >= p.window
    ensures CountIn(times, t - p.window + 1, t) <= p.max + 1
  {
    hide *;
    RunPaced(times, backoffs, p);
    var a := t - p.window + 1;
    assert a + (p.window - 1) == t;
    PacedWindows(times, p.window - 1, p.max + 1, a);
  }

  // The most attempts a window can hold: the breaker's bound, or what the floor
  // leaves room for.
  function SharpBound(p: Pacing): int
    requires p.window > 0 && p.max > 0
  {
    if p.floor > 0 && (p.window - 1) / p.floor < p.max then (p.window - 1) / p.floor + 1 else p.max + 1
  }

  lemma FitsInto(n: int, step: int, width: int)
    requires step > 0 && width >= 0
    ensures n * step <= width <==> n <= width / step
  {
    var q, r := width / step, width % step;
    assert width == q * step + r && 0 <= r < step;
    Multiples(n, q, step);
    Multiples(q + 1, n, step);
    assert (q + 1) * step == q * step + step;
  }

  lemma Multiples(a: int, b: int, step: int)
    requires step >= 0
    ensures a <= b ==> a * step <= b * step
  {
    if a <= b {
      assert (b - a) * step >= 0;
      assert (b - a) * step == b * step - a * step;
    }
  }

  // Events at least `step` apart: n of them take n - 1 steps.
  lemma {:induction false} SpacedCount(h: seq<int>, step: int, a: int, b: int)
    requires step > 0 && forall i | 0 <= i < |h| - 1 :: h[i + 1] - h[i] >= step
    ensures var n := CountIn(h, a, b);
            n > 0 ==> (n - 1) * step <= b - a && (n - 1) * step <= h[|h| - 1] - a
  {
    if h != [] {
      var front, last := h[..|h| - 1], h[|h| - 1];
      SpacedCount(front, step, a, b);
      var n := CountIn(front, a, b);
      assert front != [] ==> last - front[|front| - 1] >= step;
      assert n > 0 ==> front != [];
      assert n * step == (n - 1) * step + step;
    }
  }

  lemma SharpReconnectBound(times: seq<int>, backoffs: seq<int>, p: Pacing, t: int)
    requires Run(times, backoffs, p)
    requires p.window > 0 && p.max > 0 && p.cooldown >= p.window
    ensures CountIn(times, t - p.window + 1, t) <= SharpBound(p)
  {
    ReconnectBound(times, backoffs, p, t);
    var n := CountIn(times, t - p.window + 1, t);
    if p.floor > 0 && n > 0 {
      forall i | 0 <= i < |times| - 1
        ensures times[i + 1] - times[i] >= p.floor
      {
        FloorRespected(times, backoffs, p, i);
      }
      hide Run, CountIn;
      SpacedCount(times, p.floor, t - p.window + 1, t);
      FitsInto(n - 1, p.floor, p.window - 1);
    }
  }

  function Evenly(n: nat, step: int): (s: seq<int>)
    ensures |s| == n && forall i | 0 <= i < n :: s[i] == i * step
  {
    seq(n, i => i * step)
  }

  lemma {:induction false} AllCounted(h: seq<int>, a: int, b: int)
    requires forall i | 0 <= i < |h| :: a <= h[i] <= b
    ensures CountIn(h, a, b) == |h|
  {
    if h != [] {
      AllCounted(h[..|h| - 1], a, b);
    }
  }

  // The sharp bound is attained for every pacing, by attempts as early as the
  // floor lets them be: the attempt that trips the breaker is still made.
  lemma BoundReached(p: Pacing) returns (times: seq<int>, backoffs: seq<int>, t: int)
    requires p.window > 0 && p.max > 0
    ensures Run(times, backoffs, p) && CountIn(times, t - p.window + 1, t) == SharpBound(p)
  {
    var step := if p.floor > 0 then p.floor else 0;
    var n := SharpBound(p);
    SharpFits(p);
    times, backoffs := Evenly(n, step), seq(n, _ => 0);
    t := (n - 1) * step;
    EvenlyRuns(n, step, p);
    EvenlyWithin(n, step, p.window);
    hide *;
    AllCounted(times, t - p.window + 1, t);
  }

  lemma EvenlyRuns(n: nat, step: nat, p: Pacing)
    requires n <= p.max + 1 && step == if p.floor > 0 then p.floor else 0
    ensures Run(Evenly(n, step), seq(n, _ => 0), p)
  {
    var times := Evenly(n, step);
    hide PacedDelay;
    forall i | 0 <= i < n - 1
      ensures times[i + 1] >= times[i] + PacedDelay(times[..i], times[i], 0, p)
    {
      NoTripDelay(times[..i], times[i], p);
      OneMoreStep(i, step);
    }
  }

  lemma EvenlyWithin(n: nat, step: nat, window: int)
    requires n > 0 && (n - 1) * step <= window - 1
    ensures var t := (n - 1) * step;
            forall i | 0 <= i < |Evenly(n, step)| :: t - window + 1 <= Evenly(n, step)[i] <= t
  {
    forall i | 0 <= i < n
      ensures 0 <= i * step <= (n - 1) * step
    {
      Multiples(0, i, step);
      Multiples(i, n - 1, step);
    }
  }

  lemma OneMoreStep(i: int, step: int)
    ensures (i + 1) * step == i * step + step
  {
  }

  // Too few earlier attempts to trip: only the floor holds the next one back.
  lemma NoTripDelay(h: seq<int>, now: int, p: Pacing)
    requires |h| < p.max
    ensures PacedDelay(h, now, 0, p) == if p.floor > 0 then p.floor else 0
  {
    hide Keep;
    TripsCount(h, now, p.window, p.max);
  }

  lemma SharpFits(p: Pacing)
    requires p.window > 0 && p.max > 0
    ensures 0 < SharpBound(p) <= p.max + 1
    ensures (SharpBound(p) - 1) * (if p.floor > 0 then p.floor else 0) <= p.window - 1
  {
    if p.floor > 0 {
      FitsInto(0, p.floor, p.window - 1);
      FitsInto(SharpBound(p) - 1, p.floor, p.window - 1);
    }
  }
}
