/**
 The upstream states (internal/connector/irc/upstream_state.go) and the
 long-outage watchdog (internal/connector/irc/connector.go). A transition and its
 notification are one step; the decision to pause and the pause itself are two.
 */
module Outage {
  import opened Options

  datatype Upstream =
    | Idle | Connecting | Registering | Registered
    | Transient | NickUnavailable | NickInvalid | ByUser
    | AuthFailed | Banned | PausedIdle | Stopped

  predicate IsTerminal(u: Upstream) {
    u.AuthFailed? || u.Banned? || u.PausedIdle? || u.Stopped?
  }

  predicate IsParkable(u: Upstream) {
    u.ByUser? || u.NickInvalid?
  }

  predicate IsOutage(u: Upstream) {
    u != Registered && !IsParkable(u)
  }

  // The clock runs in every state but these three, and the watchdog watches in
  // every state but those four.
  lemma OutageStates(u: Upstream)
    ensures IsOutage(u) <==> u !in {Registered, ByUser, NickInvalid}
    ensures IsTerminal(u) <==> u in {AuthFailed, Banned, PausedIdle, Stopped}
  {
  }

  // One effective transition.
  datatype Entry = Entry(at: int, to: Upstream)

  // A warning: the history index at which its outage began, its time, and how
  // many transitions had been made by then.
  datatype Warning = Warning(onset: nat, at: int, seen: nat)

  datatype Phase = Running | Pausing | Exited

  // When a pause was decided, and about which outage.
  datatype Decision = Decision(onset: nat, at: int, seen: nat)

  datatype Settings = Settings(warnAfter: int, pauseAfter: int)

  datatype State = State(
    upstream: Upstream, since: Option<int>, warned: bool, phase: Phase, clock: int,
    history: seq<Entry>, warnings: seq<Warning>, decision: Option<Decision>)

  datatype Step =
    | Transition(to: Upstream)
    | Tick
    | Pause
    | Wait(nanos: nat)

  // Where the outage that ends the history began.
  function Onset(h: seq<Entry>): (k: nat)
    requires h != []
    ensures k < |h|
  {
    if |h| >= 2 && IsOutage(h[|h| - 2].to) then Onset(h[..|h| - 1]) else |h| - 1
  }

  function Start(c: Settings, upstream: Upstream, clock: int): State {
    State(upstream, if IsOutage(upstream) then Some(clock) else None, false,
          if c.warnAfter <= 0 && c.pauseAfter <= 0 then Exited else Running,
          clock, [Entry(clock, upstream)], [], None)
  }

  // The watchdog runs exactly when one of its two limits is set, and its clock
  // starts at once in an outage.
  lemma WatchesExactly(c: Settings, upstream: Upstream, clock: int)
    ensures Start(c, upstream, clock).phase == (if c.warnAfter > 0 || c.pauseAfter > 0 then Running else Exited)
    ensures Start(c, upstream, clock).since == if IsOutage(upstream) then Some(clock) else None
  {
  }

  predicate Enabled(s: State, step: Step) {
    match step
    case Transition(_) => true
    case Tick => s.phase.Running?
    case Pause => s.phase.Pausing?
    case Wait(_) => true
  }

  function Dwell(s: State): int {
    if s.since.None? then 0 else s.clock - s.since.value
  }

  function Move(s: State, to: Upstream): State {
    if to == s.upstream then s
    else
      s.(upstream := to, history := s.history + [Entry(s.clock, to)],
         since := if s.phase.Exited? then s.since
                  else if !IsOutage(to) then None
                  else if s.since.None? then Some(s.clock) else s.since)
  }

  predicate Warns(s: State, c: Settings) {
    !s.warned && c.warnAfter > 0 && Dwell(s) >= c.warnAfter
  }

  function Do(s: State, c: Settings, step: Step): State
    requires Enabled(s, step) && s.history != []
  {
    match step
    case Transition(to) => Move(s, to)
    case Tick =>
      if IsTerminal(s.upstream) then s.(phase := Exited)
      else if Dwell(s) == 0 then s.(warned := false)
      else
        var onset := Onset(s.history);
        var pauses := c.pauseAfter > 0 && Dwell(s) >= c.pauseAfter;
        s.(warned := s.warned || Warns(s, c),
           warnings := if Warns(s, c) then s.warnings + [Warning(onset, s.clock, |s.history|)] else s.warnings,
           phase := if pauses then Pausing else Running,
           decision := if pauses then Some(Decision(onset, s.clock, |s.history|)) else s.decision)
    case Pause => Move(s, PausedIdle).(phase := Exited)
    case Wait(n) => s.(clock := s.clock + n)
  }

  predicate Run(s: State, c: Settings, steps: seq<Step>)
    requires s.history != []
    decreases |steps|
  {
    steps == [] || (Enabled(s, steps[0]) && Run(Do(s, c, steps[0]), c, steps[1..]))
  }

  function After(s: State, c: Settings, steps: seq<Step>): (t: State)
    requires s.history != [] && Run(s, c, steps)
    ensures t.history != []
    decreases |steps|
  {
    if steps == [] then s else After(Do(s, c, steps[0]), c, steps[1..])
  }

  // ----- the outage clock -----

  // Transitions lo up to hi form one unbroken outage that began at lo.
  ghost predicate Unbroken(h: seq<Entry>, lo: int, hi: int) {
    && 0 <= lo < hi <= |h|
    && (lo > 0 ==> !IsOutage(h[lo - 1].to))
    && forall i | lo <= i < hi :: IsOutage(h[i].to)
  }

  lemma {:induction false} OnsetUnbroken(h: seq<Entry>)
    requires h != [] && IsOutage(h[|h| - 1].to)
    ensures Unbroken(h, Onset(h), |h|)
  {
    if |h| >= 2 && IsOutage(h[|h| - 2].to) {
      OnsetUnbroken(h[..|h| - 1]);
    }
  }

  lemma {:induction false} OnsetAppend(h: seq<Entry>, e: Entry)
    requires h != []
    ensures Onset(h + [e]) == if IsOutage(h[|h| - 1].to) then Onset(h) else |h|
  {
    var g := h + [e];
    assert g[|g| - 2] == h[|h| - 1] && g[..|g| - 1] == h;
  }

  ghost predicate ClockInv(s: State) {
    && s.history != []
    && s.history[|s.history| - 1].to == s.upstream
    && (forall i | 0 <= i < |s.history| :: s.history[i].at <= s.clock)
    && (!s.phase.Exited? ==>
          s.since == if IsOutage(s.upstream) then Some(s.history[Onset(s.history)].at) else None)
  }

  lemma ClockStep(s: State, c: Settings, step: Step)
    requires ClockInv(s) && Enabled(s, step)
    ensures ClockInv(Do(s, c, step))
  {
    hide Onset, IsOutage;
    match step
    case Transition(to) => MoveClock(s, to);
    case Tick =>
    case Pause => MoveClock(s, PausedIdle);
    case Wait(_) =>
  }

  lemma MoveClock(s: State, to: Upstream)
    requires ClockInv(s)
    ensures ClockInv(Move(s, to))
  {
    if to != s.upstream {
      var h := s.history + [Entry(s.clock, to)];
      OnsetAppend(s.history, Entry(s.clock, to));
      assert h[|h| - 1] == Entry(s.clock, to);
      assert IsOutage(s.upstream) ==> h[Onset(s.history)] == s.history[Onset(s.history)];
      hide Onset, IsOutage;
    }
  }

  lemma {:induction false} ClockAlways(s: State, c: Settings, steps: seq<Step>)
    requires ClockInv(s) && Run(s, c, steps)
    ensures ClockInv(After(s, c, steps))
    decreases |steps|
  {
    if steps != [] {
      ClockStep(s, c, steps[0]);
      hide ClockInv, Do, Enabled;
      ClockAlways(Do(s, c, steps[0]), c, steps[1..]);
    }
  }

  // While the watchdog runs, its clock is unset exactly outside outages and
  // otherwise stands at the first transition of the unbroken outage, however
  // often the supervisor has cycled since.
  lemma OutageClock(c: Settings, u: Upstream, clock: int, steps: seq<Step>)
    requires Run(Start(c, u, clock), c, steps) && !After(Start(c, u, clock), c, steps).phase.Exited?
    ensures var s := After(Start(c, u, clock), c, steps);
            && (s.since.None? <==> !IsOutage(s.upstream))
            && (s.since.Some? ==> exists k ::
                  Unbroken(s.history, k, |s.history|) && s.since.value == s.history[k].at)
  {
    ClockAlways(Start(c, u, clock), c, steps);
    var s := After(Start(c, u, clock), c, steps);
    hide Run, After;
    if IsOutage(s.upstream) {
      OnsetUnbroken(s.history);
    }
  }

  // ----- warnings -----

  // A warning came warnAfter into an outage that was unbroken until then.
  ghost predicate Justified(w: Warning, h: seq<Entry>, c: Settings) {
    && Unbroken(h, w.onset, w.seen)
    && c.warnAfter > 0 && w.at - h[w.onset].at >= c.warnAfter
  }

  ghost predicate WarnInv(s: State, c: Settings) {
    && (forall i, j | 0 <= i < j < |s.warnings| :: s.warnings[i].onset < s.warnings[j].onset)
    && (forall w | w in s.warnings :: Justified(w, s.history, c) && w.at <= s.clock)
    && (IsOutage(s.upstream) ==>
          forall w | w in s.warnings :: w.onset <= Onset(s.history) && (w.onset == Onset(s.history) ==> s.warned))
  }

  lemma JustifiedStays(w: Warning, h: seq<Entry>, e: Entry, c: Settings)
    requires Justified(w, h, c)
    ensures Justified(w, h + [e], c)
  {
    assert forall i | 0 <= i < |h| :: (h + [e])[i] == h[i];
  }

  lemma MoveWarn(s: State, c: Settings, to: Upstream)
    requires ClockInv(s) && WarnInv(s, c)
    ensures WarnInv(Move(s, to), c)
  {
    var t := Move(s, to);
    if to != s.upstream {
      OnsetAppend(s.history, Entry(s.clock, to));
      forall w | w in s.warnings
        ensures Justified(w, t.history, c) && w.onset < |s.history|
      {
        JustifiedStays(w, s.history, Entry(s.clock, to), c);
      }
      hide Justified, Onset;
    }
  }

  lemma TickWarn(s: State, c: Settings)
    requires ClockInv(s) && WarnInv(s, c) && s.phase.Running?
    ensures WarnInv(Do(s, c, Tick), c)
  {
    var t := Do(s, c, Tick);
    if !IsTerminal(s.upstream) && IsOutage(s.upstream) {
      var k := Onset(s.history);
      OnsetUnbroken(s.history);
      hide Onset;
      forall w | w in s.warnings
        ensures w.onset == k ==> Dwell(s) > 0
      {
        assert Justified(w, s.history, c);
      }
      if Dwell(s) == 0 {
      } else if Warns(s, c) {
        assert Justified(Warning(k, s.clock, |s.history|), s.history, c);
        hide Justified;
        assert forall w | w in s.warnings :: w.onset < k;
        assert forall w | w in t.warnings :: w in s.warnings || w == Warning(k, s.clock, |s.history|);
      }
    }
  }

  lemma {:induction false} WarnAlways(s: State, c: Settings, steps: seq<Step>)
    requires ClockInv(s) && WarnInv(s, c) && Run(s, c, steps)
    ensures WarnInv(After(s, c, steps), c)
    decreases |steps|
  {
    if steps != [] {
      var step := steps[0];
      ClockStep(s, c, step);
      WarnStep(s, c, step);
      hide ClockInv, WarnInv, Do, Enabled;
      WarnAlways(Do(s, c, step), c, steps[1..]);
    }
  }

  lemma WarnStep(s: State, c: Settings, step: Step)
    requires ClockInv(s) && WarnInv(s, c) && Enabled(s, step)
    ensures WarnInv(Do(s, c, step), c)
  {
    match step
    case Transition(to) => MoveWarn(s, c, to);
    case Tick => TickWarn(s, c);
    case Pause => MoveWarn(s, c, PausedIdle);
    case Wait(_) => hide Justified, Onset;
  }

  // Every warning came warnAfter into an unbroken outage, and no outage is
  // warned about twice.
  lemma WarnOncePerOutage(c: Settings, u: Upstream, clock: int, steps: seq<Step>)
    requires Run(Start(c, u, clock), c, steps)
    ensures var s := After(Start(c, u, clock), c, steps);
            && (forall w | w in s.warnings :: Justified(w, s.history, c))
            && forall i, j | 0 <= i < j < |s.warnings| :: s.warnings[i].onset != s.warnings[j].onset
  {
    WarnAlways(Start(c, u, clock), c, steps);
    hide Justified, Run, After;
  }

  ghost predicate WarnedAbout(s: State, k: nat) {
    exists w | w in s.warnings :: w.onset == k
  }

  lemma {:induction false} RunPrefix(s: State, c: Settings, steps: seq<Step>, i: nat)
    requires s.history != [] && Run(s, c, steps) && i <= |steps|
    ensures Run(s, c, steps[..i])
    decreases i
  {
    if i > 0 {
      assert steps[..i][1..] == steps[1..][..i - 1];
      RunPrefix(Do(s, c, steps[0]), c, steps[1..], i - 1);
    }
  }

  // The state before the i-th step.
  ghost function StateAt(s: State, c: Settings, steps: seq<Step>, i: nat): (t: State)
    requires s.history != [] && Run(s, c, steps) && i <= |steps|
    ensures t.history != []
  {
    RunPrefix(s, c, steps, i);
    After(s, c, steps[..i])
  }

  lemma {:induction false} LastStep(s: State, c: Settings, steps: seq<Step>)
    requires s.history != [] && Run(s, c, steps) && steps != []
    ensures var n := |steps| - 1;
            Enabled(StateAt(s, c, steps, n), steps[n]) && After(s, c, steps) == Do(StateAt(s, c, steps, n), c, steps[n])
    decreases |steps|
  {
    var n := |steps| - 1;
    RunPrefix(s, c, steps, n);
    if n == 0 {
      assert steps[..0] == [];
      assert steps == [steps[0]];
    } else {
      assert steps[..n][1..] == steps[1..][..n - 1];
      LastStep(Do(s, c, steps[0]), c, steps[1..]);
    }
  }

  // The i-th step is a poll that fires the warn callback.
  ghost predicate WarnsAt(s: State, c: Settings, steps: seq<Step>, i: nat)
    requires s.history != [] && Run(s, c, steps)
  {
    i < |steps| && steps[i].Tick? && !IsTerminal(StateAt(s, c, steps, i).upstream) && Warns(StateAt(s, c, steps, i), c)
  }

  // The i-th step is a poll that finds no outage.
  ghost predicate QuietAt(s: State, c: Settings, steps: seq<Step>, i: nat)
    requires s.history != [] && Run(s, c, steps)
  {
    i < |steps| && steps[i].Tick? && !IsTerminal(StateAt(s, c, steps, i).upstream) && Dwell(StateAt(s, c, steps, i)) == 0
  }

  // The i-th step warns and no later poll finds no outage.
  ghost predicate Raised(s: State, c: Settings, steps: seq<Step>, i: nat)
    requires s.history != [] && Run(s, c, steps)
  {
    WarnsAt(s, c, steps, i) && forall j: nat | i < j < |steps| :: !QuietAt(s, c, steps, j)
  }

  // What a prefix of a run says about its steps is what the run says.
  lemma PrefixAgrees(s: State, c: Settings, steps: seq<Step>, n: nat)
    requires s.history != [] && Run(s, c, steps) && n <= |steps|
    ensures Run(s, c, steps[..n])
    ensures forall i: nat | i < n ::
              && StateAt(s, c, steps[..n], i) == StateAt(s, c, steps, i)
              && (WarnsAt(s, c, steps[..n], i) <==> WarnsAt(s, c, steps, i))
              && (QuietAt(s, c, steps[..n], i) <==> QuietAt(s, c, steps, i))
  {
    RunPrefix(s, c, steps, n);
    forall i: nat | i < n
      ensures StateAt(s, c, steps[..n], i) == StateAt(s, c, steps, i)
    {
      assert steps[..n][..i] == steps[..i];
    }
  }

  // The flag is up exactly when some poll raised it and none has lowered it since.
  lemma {:induction false} FlagMeans(s: State, c: Settings, steps: seq<Step>)
    requires s.history != [] && !s.warned && Run(s, c, steps)
    ensures After(s, c, steps).warned <==> exists i: nat :: Raised(s, c, steps, i)
    decreases |steps|
  {
    if steps == [] {
      assert !After(s, c, steps).warned;
    } else {
      var n := |steps| - 1;
      PrefixAgrees(s, c, steps, n);
      FlagMeans(s, c, steps[..n]);
      LastStep(s, c, steps);
      var before := StateAt(s, c, steps, n);
      assert before == After(s, c, steps[..n]);
      var after := After(s, c, steps);
      assert after.warned <==> WarnsAt(s, c, steps, n) || (before.warned && !QuietAt(s, c, steps, n));
      hide Run, After, StateAt, WarnsAt, QuietAt, Do, Enabled;
      RaisedStep(s, c, steps);
    }
  }

  lemma RaisedStep(s: State, c: Settings, steps: seq<Step>)
    requires s.history != [] && Run(s, c, steps) && steps != []
    ensures var n := |steps| - 1;
            && Run(s, c, steps[..n])
            && ((exists i: nat :: Raised(s, c, steps, i)) <==>
                  WarnsAt(s, c, steps, n) || ((exists i: nat :: Raised(s, c, steps[..n], i)) && !QuietAt(s, c, steps, n)))
  {
    var n := |steps| - 1;
    PrefixAgrees(s, c, steps, n);
    assert forall i: nat :: WarnsAt(s, c, steps, i) ==> i <= n by {
      assert forall i: nat :: WarnsAt(s, c, steps, i) ==> i < |steps|;
    }
    assert forall i: nat :: WarnsAt(s, c, steps[..n], i) ==> i < n by {
      assert forall i: nat :: WarnsAt(s, c, steps[..n], i) ==> i < |steps[..n]|;
    }
    assert Raised(s, c, steps, n) <==> WarnsAt(s, c, steps, n) by {
      hide Run, StateAt, WarnsAt, QuietAt;
    }
    assert forall i: nat :: (Raised(s, c, steps, i) ==> i <= n) && (Raised(s, c, steps[..n], i) ==> i < n);
    hide Run, StateAt, WarnsAt, QuietAt, Raised;
    forall i: nat | i < n
      ensures Raised(s, c, steps, i) <==> Raised(s, c, steps[..n], i) && !QuietAt(s, c, steps, n)
    {
      RaisedBefore(s, c, steps, i);
    }
  }

  lemma RaisedBefore(s: State, c: Settings, steps: seq<Step>, i: nat)
    requires s.history != [] && Run(s, c, steps) && i + 1 < |steps|
    ensures var n := |steps| - 1;
            && Run(s, c, steps[..n])
            && (Raised(s, c, steps, i) <==> Raised(s, c, steps[..n], i) && !QuietAt(s, c, steps, n))
  {
    PrefixAgrees(s, c, steps, |steps| - 1);
    hide Run, StateAt, WarnsAt, QuietAt;
  }

  // Every warning was issued by a poll of the run.
  lemma {:induction false} WarningsMean(s: State, c: Settings, steps: seq<Step>, w: Warning)
    requires s.history != [] && s.warnings == [] && Run(s, c, steps) && w in After(s, c, steps).warnings
    ensures exists j: nat :: WarnsAt(s, c, steps, j) &&
                             w.onset == Onset(StateAt(s, c, steps, j).history) && w.seen == |StateAt(s, c, steps, j).history|
    decreases |steps|
  {
    if steps != [] {
      var n := |steps| - 1;
      PrefixAgrees(s, c, steps, n);
      LastStep(s, c, steps);
      var before := StateAt(s, c, steps, n);
      assert before == After(s, c, steps[..n]);
      hide Onset;
      if w in before.warnings {
        WarningsMean(s, c, steps[..n], w);
        var j: nat :| WarnsAt(s, c, steps[..n], j) &&
                      w.onset == Onset(StateAt(s, c, steps[..n], j).history) && w.seen == |StateAt(s, c, steps[..n], j).history|;
        assert WarnsAt(s, c, steps, j);
      } else {
        assert WarnsAt(s, c, steps, n);
      }
    }
  }

  lemma {:induction false} HistoryGrows(s: State, c: Settings, steps: seq<Step>, i: nat)
    requires s.history != [] && Run(s, c, steps) && i <= |steps|
    ensures |StateAt(s, c, steps, i).history| <= |After(s, c, steps).history|
    decreases |steps|
  {
    if i == |steps| {
      assert steps[..i] == steps;
    } else {
      var n := |steps| - 1;
      LastStep(s, c, steps);
      RunPrefix(s, c, steps, n);
      assert steps[..n][..i] == steps[..i];
      HistoryGrows(s, c, steps[..n], i);
    }
  }

  // A poll that finds the outage warnAfter long leaves it warned about unless
  // and only unless some poll warned in an earlier outage and no poll since
  // then has found the link up.
  lemma WarnedExactly(c: Settings, u: Upstream, clock: int, steps: seq<Step>)
    requires Run(Start(c, u, clock), c, steps)
    requires var s := After(Start(c, u, clock), c, steps);
             s.phase.Running? && !IsTerminal(s.upstream) && c.warnAfter > 0 && Dwell(s) >= c.warnAfter
    ensures var s0 := Start(c, u, clock);
            var s := After(s0, c, steps);
            var k := Onset(s.history);
            WarnedAbout(Do(s, c, Tick), k) <==>
              !exists i: nat :: Raised(s0, c, steps, i) && |StateAt(s0, c, steps, i).history| <= k
  {
    var s0 := Start(c, u, clock);
    var s := After(s0, c, steps);
    var k := Onset(s.history);
    ClockAlways(s0, c, steps);
    WarnAlways(s0, c, steps);
    OnsetUnbroken(s.history);
    FlagMeans(s0, c, steps);
    FlagDecides(s, c);
    hide Run, After, StateAt, Onset, Do, Raised, WarnsAt, ClockInv;
    if exists i: nat :: Raised(s0, c, steps, i) && |StateAt(s0, c, steps, i).history| <= k {
      var i: nat :| Raised(s0, c, steps, i) && |StateAt(s0, c, steps, i).history| <= k;
      forall w | w in s.warnings
        ensures w.onset < k
      {
        WarnedByThen(s0, c, steps, i, w);
      }
    } else if s.warned {
      var i: nat :| Raised(s0, c, steps, i);
      RaisedWarning(s0, c, steps, i);
    }
  }

  // What the poll leaves, by the flag and the warnings before it.
  lemma FlagDecides(s: State, c: Settings)
    requires ClockInv(s) && WarnInv(s, c) && s.phase.Running?
    requires !IsTerminal(s.upstream) && c.warnAfter > 0 && Dwell(s) >= c.warnAfter
    ensures WarnedAbout(Do(s, c, Tick), Onset(s.history)) <==>
              !(s.warned && forall w | w in s.warnings :: w.onset < Onset(s.history))
  {
    hide Justified, Onset;
    var k := Onset(s.history);
    var t := Do(s, c, Tick);
    if Warns(s, c) {
      assert t.warnings[|s.warnings|].onset == k;
      assert t.warnings[|s.warnings|] in t.warnings;
    } else {
      assert t.warnings == s.warnings;
    }
  }

  // A poll that raised the flag issued a warning that is still recorded.
  lemma {:induction false} RaisedWarning(s: State, c: Settings, steps: seq<Step>, i: nat)
    requires s.history != [] && Run(s, c, steps) && WarnsAt(s, c, steps, i)
    ensures exists w | w in After(s, c, steps).warnings ::
              w.onset == Onset(StateAt(s, c, steps, i).history) && w.seen == |StateAt(s, c, steps, i).history|
    decreases |steps|
  {
    var n := |steps| - 1;
    PrefixAgrees(s, c, steps, n);
    LastStep(s, c, steps);
    var before := StateAt(s, c, steps, n);
    var after := After(s, c, steps);
    assert before == After(s, c, steps[..n]);
    hide Onset;
    if i == n {
      var w := Warning(Onset(before.history), before.clock, |before.history|);
      assert after.warnings == before.warnings + [w];
      assert w in after.warnings;
    } else {
      RaisedWarning(s, c, steps[..n], i);
      assert forall w | w in before.warnings :: w in after.warnings;
    }
  }

  lemma FlagStaysUp(s: State, c: Settings, steps: seq<Step>, i: nat, j: nat)
    requires s.history != [] && !s.warned && Run(s, c, steps)
    requires Raised(s, c, steps, i) && i < j <= |steps|
    ensures StateAt(s, c, steps, j).warned
  {
    PrefixAgrees(s, c, steps, j);
    assert Raised(s, c, steps[..j], i);
    FlagMeans(s, c, steps[..j]);
  }

  // A raised flag comes from the last warning.
  lemma WarnedByThen(s: State, c: Settings, steps: seq<Step>, i: nat, w: Warning)
    requires s.history != [] && !s.warned && s.warnings == [] && Run(s, c, steps)
    requires Raised(s, c, steps, i) && w in After(s, c, steps).warnings
    ensures w.seen <= |StateAt(s, c, steps, i).history|
  {
    WarningsMean(s, c, steps, w);
    var j: nat :| WarnsAt(s, c, steps, j) &&
                  w.onset == Onset(StateAt(s, c, steps, j).history) && w.seen == |StateAt(s, c, steps, j).history|;
    hide Onset;
    if i < j {
      FlagStaysUp(s, c, steps, i, j);
    }
    assert j <= i;
    PrefixAgrees(s, c, steps, i);
    HistoryGrows(s, c, steps[..i], j);
    assert steps[..i][..j] == steps[..j];
  }

  // An outage that no poll warns about although one finds it long enough: the
  // link comes back and drops again between two polls.
  lemma MissedWarning(clock: int)
    ensures var c, s0 := Settings(10, 0), Start(Settings(10, 0), Connecting, clock);
            var steps := [Wait(10), Tick, Transition(Registered), Transition(Transient), Wait(10), Tick];
            && Run(s0, c, steps)
            && var s := After(s0, c, steps);
            && Dwell(s) == 10 && s.phase.Running? && Onset(s.history) == 2
            && |s.warnings| == 1 && !WarnedAbout(s, 2)
  {
    var c, s0 := Settings(10, 0), Start(Settings(10, 0), Connecting, clock);
    var steps := [Wait(10), Tick, Transition(Registered), Transition(Transient), Wait(10), Tick];
    hide Run, After;
    FirstOutageWarned(clock, steps);
    SecondOutageMissed(clock, steps[3..]);
    hide BackUp, Start, Do;
    var s := Missed(clock);
    assert s.history[1].to == Registered;
    assert Onset(s.history) == 2;
  }

  function Missed(clock: int): State {
    State(Transient, Some(clock + 10), true, Running, clock + 20,
          [Entry(clock, Connecting), Entry(clock + 10, Registered), Entry(clock + 10, Transient)],
          [Warning(0, clock + 10, 1)], None)
  }

  lemma SecondOutageMissed(clock: int, steps: seq<Step>)
    requires steps == [Transition(Transient), Wait(10), Tick]
    ensures var c := Settings(10, 0);
            Run(BackUp(clock), c, steps) && After(BackUp(clock), c, steps) == Missed(clock)
  {
    hide Run, After, Onset;
    var c := Settings(10, 0);
    assert steps[1..][1..] == [Tick] && steps[1..][1..][1..] == [];
    var s4 := Do(BackUp(clock), c, Transition(Transient));
    var s5 := Do(s4, c, Wait(10));
    Unfold(BackUp(clock), c, steps);
    Unfold(s4, c, steps[1..]);
    Unfold(s5, c, steps[1..][1..]);
    RunNone(Do(s5, c, Tick), c);
    assert s4.history == [Entry(clock, Connecting), Entry(clock + 10, Registered), Entry(clock + 10, Transient)];
    assert Do(s5, c, Tick) == Missed(clock);
  }

  function BackUp(clock: int): State {
    State(Registered, None, true, Running, clock + 10,
          [Entry(clock, Connecting), Entry(clock + 10, Registered)], [Warning(0, clock + 10, 1)], None)
  }

  lemma FirstOutageWarned(clock: int, steps: seq<Step>)
    requires |steps| >= 3 && steps[0] == Wait(10) && steps[1] == Tick && steps[2] == Transition(Registered)
    ensures var c, s0 := Settings(10, 0), Start(Settings(10, 0), Connecting, clock);
            && (Run(s0, c, steps) <==> Run(BackUp(clock), c, steps[3..]))
            && (Run(s0, c, steps) ==> After(s0, c, steps) == After(BackUp(clock), c, steps[3..]))
  {
    hide Run, After;
    var c, s0 := Settings(10, 0), Start(Settings(10, 0), Connecting, clock);
    assert steps[1..][1..] == steps[2..] && steps[2..][1..] == steps[3..];
    var s1 := Do(s0, c, Wait(10));
    var s2 := Do(s1, c, Tick);
    Unfold(s0, c, steps);
    Unfold(s1, c, steps[1..]);
    Unfold(s2, c, steps[2..]);
    assert Do(s2, c, Transition(Registered)) == BackUp(clock);
  }

  lemma RunNone(s: State, c: Settings)
    requires s.history != []
    ensures Run(s, c, []) && After(s, c, []) == s
  {
  }

  // ----- pausing -----

  // The pause was decided pauseAfter into an outage unbroken until then.
  ghost predicate PauseInv(s: State, c: Settings) {
    && (s.phase.Pausing? ==> s.decision.Some?)
    && (s.decision.Some? ==>
          var d := s.decision.value;
          && c.pauseAfter > 0
          && Unbroken(s.history, d.onset, d.seen)
          && d.at <= s.clock && d.at - s.history[d.onset].at >= c.pauseAfter)
  }

  lemma PauseStep(s: State, c: Settings, step: Step)
    requires ClockInv(s) && PauseInv(s, c) && Enabled(s, step)
    ensures PauseInv(Do(s, c, step), c)
  {
    if step.Tick? && IsOutage(s.upstream) {
      OnsetUnbroken(s.history);
    }
    hide Onset;
  }

  lemma {:induction false} PauseAlways(s: State, c: Settings, steps: seq<Step>)
    requires ClockInv(s) && PauseInv(s, c) && Run(s, c, steps)
    ensures PauseInv(After(s, c, steps), c)
    decreases |steps|
  {
    if steps != [] {
      ClockStep(s, c, steps[0]);
      PauseStep(s, c, steps[0]);
      hide ClockInv, PauseInv, Do, Enabled;
      PauseAlways(Do(s, c, steps[0]), c, steps[1..]);
    }
  }

  // In every run a pause is decided only after pauseAfter of unbroken outage.
  lemma PausedOnlyAfter(c: Settings, u: Upstream, clock: int, steps: seq<Step>)
    requires Run(Start(c, u, clock), c, steps)
    ensures PauseInv(After(Start(c, u, clock), c, steps), c)
  {
    PauseAlways(Start(c, u, clock), c, steps);
  }

  // Between the decision and the pause the link may come back. The outage is
  // still unbroken, before and after the transition to paused_idle, if and
  // only if no transition since the decision has left it; its length then is
  // at least pauseAfter.
  lemma PausedUnbrokenExactly(c: Settings, u: Upstream, clock: int, steps: seq<Step>)
    requires Run(Start(c, u, clock), c, steps) && After(Start(c, u, clock), c, steps).phase.Pausing?
    ensures var s := After(Start(c, u, clock), c, steps);
            var t := Do(s, c, Pause);
            && s.decision.Some? && t.upstream == PausedIdle
            && var d := s.decision.value;
            && d.onset < d.seen <= |s.history| <= |t.history|
            && (Unbroken(s.history, d.onset, |s.history|) <==> forall i | d.seen <= i < |s.history| :: IsOutage(s.history[i].to))
            && (Unbroken(t.history, d.onset, |t.history|) <==> forall i | d.seen <= i < |s.history| :: IsOutage(s.history[i].to))
            && t.clock - t.history[d.onset].at >= c.pauseAfter > 0
  {
    PausedOnlyAfter(c, u, clock, steps);
    var s := After(Start(c, u, clock), c, steps);
    hide Run, After;
    var t := Do(s, c, Pause);
    var d := s.decision.value;
    assert |s.history| <= |t.history| <= |s.history| + 1;
    assert forall i | 0 <= i < |s.history| :: t.history[i] == s.history[i];
    assert |t.history| > |s.history| ==> t.history[|s.history|].to == PausedIdle;
  }

  // And a tick decides it whenever that much outage has passed.
  lemma PausesExactly(c: Settings, u: Upstream, clock: int, steps: seq<Step>)
    requires Run(Start(c, u, clock), c, steps)
    requires After(Start(c, u, clock), c, steps).phase.Running?
    ensures var s := After(Start(c, u, clock), c, steps);
            Do(s, c, Tick).phase.Pausing? <==>
              && !IsTerminal(s.upstream) && IsOutage(s.upstream)
              && c.pauseAfter > 0
              && exists k :: Unbroken(s.history, k, |s.history|) && s.clock - s.history[k].at >= c.pauseAfter
  {
    ClockAlways(Start(c, u, clock), c, steps);
    var s := After(Start(c, u, clock), c, steps);
    hide Run, After;
    if IsOutage(s.upstream) {
      OnsetUnbroken(s.history);
      forall k | Unbroken(s.history, k, |s.history|)
        ensures k == Onset(s.history)
      {
        NoLaterOnset(s.history, k);
        NoLaterOnset(s.history, Onset(s.history));
      }
    }
    hide Onset;
  }

  lemma NoLaterOnset(h: seq<Entry>, a: int)
    requires Unbroken(h, a, |h|)
    ensures forall b | a < b :: !Unbroken(h, b, |h|)
  {
    forall b | a < b < |h|
      ensures !Unbroken(h, b, |h|)
    {
      assert IsOutage(h[b - 1].to);
    }
  }

  // The decision and the pause are not one step: a link that registers in
  // between is paused all the same, whatever the thresholds.
  lemma PauseRace(c: Settings, clock: int)
    requires c.pauseAfter > 0
    ensures var s := Start(c, Connecting, clock);
            var late := [Wait(c.pauseAfter), Tick, Transition(Registered)];
            && Run(s, c, late)
            && After(s, c, late).upstream == Registered
            && Enabled(After(s, c, late), Pause)
            && Do(After(s, c, late), c, Pause).upstream == PausedIdle
  {
    var s := Start(c, Connecting, clock);
    var late := [Wait(c.pauseAfter), Tick, Transition(Registered)];
    assert late[1..][1..] == late[2..] && late[2..][1..] == [];
    var s1 := Do(s, c, late[0]);
    var s2 := Do(s1, c, late[1]);
    Unfold(s, c, late);
    Unfold(s1, c, late[1..]);
    Unfold(s2, c, late[2..]);
    var s3 := Do(s2, c, late[2]);
    assert Run(s3, c, []) && After(s3, c, []) == s3;
  }

  lemma Unfold(s: State, c: Settings, steps: seq<Step>)
    requires s.history != [] && steps != [] && Enabled(s, steps[0])
    ensures Run(s, c, steps) <==> Run(Do(s, c, steps[0]), c, steps[1..])
    ensures Run(s, c, steps) ==> After(s, c, steps) == After(Do(s, c, steps[0]), c, steps[1..])
  {
  }

  // ----- the watchdog's code -----

  class Watchdog {
    var upstream: Upstream
    var since: Option<int>
    var warned: bool
    var phase: Phase
    const settings: Settings
    ghost var history: seq<Entry>
    ghost var warnings: seq<Warning>
    ghost var decision: Option<Decision>

    ghost function View(clock: int): State
      reads this
    {
      State(upstream, since, warned, phase, clock, history, warnings, decision)
    }

    constructor (c: Settings, u: Upstream, now: int)
      ensures View(now) == Start(c, u, now) && settings == c
    {
      settings := c;
      upstream := u;
      since := None;
      warned := false;
      phase := if c.warnAfter <= 0 && c.pauseAfter <= 0 then Exited else Running;
      history := [Entry(now, u)];
      warnings := [];
      decision := None;
      new;
      if IsOutage(u) {
        since := Some(now);
      }
    }

    // A transition to the current state is a no-op; others reach the watchdog.
    method Transition(to: Upstream, now: int)
      modifies this`upstream, this`since, this`history
      requires history != []
      ensures View(now) == Move(old(View(now)), to)
      ensures to == old(upstream) ==> View(now) == old(View(now))
    {
      if upstream == to {
        return;
      }
      upstream := to;
      history := history + [Entry(now, to)];
      if phase.Exited? {
        return;
      }
      if IsOutage(to) {
        if since.None? {
          since := Some(now);
        }
      } else {
        since := None;
      }
    }

    // One poll; `warn` says whether the warn callback fired.
    method Tick(now: int) returns (warn: bool)
      requires phase.Running? && history != []
      modifies this
      ensures View(now) == Do(old(View(now)), settings, Step.Tick)
      ensures warn <==> |warnings| > |old(warnings)|
    {
      hide Onset;
      warn := false;
      if IsTerminal(upstream) {
        phase := Exited;
        return;
      }
      var dwell := if since.None? then 0 else now - since.value;
      if dwell == 0 {
        warned := false;
        return;
      }
      ghost var onset := Onset(history);
      if !warned && settings.warnAfter > 0 && dwell >= settings.warnAfter {
        warned := true;
        warn := true;
        warnings := warnings + [Warning(onset, now, |history|)];
      }
      if settings.pauseAfter > 0 && dwell >= settings.pauseAfter {
        phase := Pausing;
        decision := Some(Decision(onset, now, |history|));
      }
    }

    method Pause(now: int)
      requires phase.Pausing? && history != []
      modifies this
      ensures View(now) == Do(old(View(now)), settings, Step.Pause)
    {
      Transition(PausedIdle, now);
      phase := Exited;
    }
  }
}
