/**
 Timed mode reversals (internal/skill/engine.go): scheduled lifts are kept in
 memory and in the store, claimed by a sweep once due and issued afterwards. The
 process may crash and restart between any two steps.
 */
module Lifts {
  import opened Options

  datatype Lift = Lift(channel: string, modes: string, arg: string, due: int)

  // Unix seconds of a time in nanoseconds.
  function Unix(nanos: int): int {
    nanos / 1_000_000_000
  }

  function DueBy(s: seq<Lift>, cutoff: int): seq<Lift> {
    if s == [] then []
    else DueBy(s[..|s| - 1], cutoff) + if s[|s| - 1].due <= cutoff then [s[|s| - 1]] else []
  }

  function DueAfter(s: seq<Lift>, cutoff: int): seq<Lift> {
    if s == [] then []
    else DueAfter(s[..|s| - 1], cutoff) + if s[|s| - 1].due <= cutoff then [] else [s[|s| - 1]]
  }

  lemma {:induction false} SplitConserves(s: seq<Lift>, cutoff: int)
    ensures multiset(DueBy(s, cutoff)) + multiset(DueAfter(s, cutoff)) == multiset(s)
    ensures forall l | l in DueBy(s, cutoff) :: l.due <= cutoff
    ensures forall l | l in DueAfter(s, cutoff) :: l.due > cutoff
  {
    if s != [] {
      var front, last := s[..|s| - 1], s[|s| - 1];
      SplitConserves(front, cutoff);
      assert s == front + [last];
    }
  }

  // Both parts keep the order.
  lemma SplitInOrder(a: seq<Lift>, l: Lift, b: seq<Lift>, cutoff: int)
    ensures DueBy(a + [l] + b, cutoff) == DueBy(a, cutoff) + (if l.due <= cutoff then [l] else []) + DueBy(b, cutoff)
    ensures DueAfter(a + [l] + b, cutoff) == DueAfter(a, cutoff) + (if l.due > cutoff then [l] else []) + DueAfter(b, cutoff)
  {
    SplitConcat(a, [l], cutoff);
    SplitConcat(a + [l], b, cutoff);
    assert [l][..0] == [];
  }

  lemma {:induction false} SplitConcat(a: seq<Lift>, b: seq<Lift>, cutoff: int)
    ensures DueBy(a + b, cutoff) == DueBy(a, cutoff) + DueBy(b, cutoff)
    ensures DueAfter(a + b, cutoff) == DueAfter(a, cutoff) + DueAfter(b, cutoff)
    decreases |b|
  {
    if b == [] {
      assert a + b == a;
    } else {
      assert (a + b)[..|a + b| - 1] == a + b[..|b| - 1];
      SplitConcat(a, b[..|b| - 1], cutoff);
    }
  }

  // Where every lift ever scheduled has gone, besides the pending ones.
  datatype Ledger = Ledger(
    scheduled: multiset<Lift>,
    inflight: multiset<Lift>,  // claimed by a sweep, not yet issued
    issued: multiset<Lift>,    // SetMode called
    lost: multiset<Lift>,      // in flight when the process crashed
    dropped: multiset<Lift>)   // claimed by a sweep without an actor

  datatype State = State(store: Option<seq<Lift>>, lifts: seq<Lift>, loaded: bool, actor: bool, ledger: Ledger, clock: int)

  datatype Step =
    | Schedule(channel: string, modes: string, arg: string, secs: int)
    | Sweep
    | Issue(lift: Lift)
    | Restart(actor: bool)  // a crash, and a process with or without an actor
    | Wait(nanos: nat)

  function Stored(store: Option<seq<Lift>>): seq<Lift> {
    if store.None? then [] else store.value
  }

  function Load(s: State): State {
    if s.loaded then s else s.(loaded := true, lifts := Stored(s.store))
  }

  function Pending(s: State): seq<Lift> {
    Load(s).lifts
  }

  predicate Enabled(s: State, step: Step) {
    match step
    // Timed effects are applied, hence reversed, only through an actor.
    case Schedule(_, _, _, _) => s.actor
    case Issue(l) => l in s.ledger.inflight
    case _ => true
  }

  function Do(s: State, step: Step): State
    requires Enabled(s, step)
  {
    match step
    case Schedule(channel, modes, arg, secs) =>
      var l := Lift(channel, modes, arg, Unix(s.clock + secs * 1_000_000_000));
      var lifts := Pending(s) + [l];
      s.(loaded := true, lifts := lifts, store := Some(lifts),
         ledger := s.ledger.(scheduled := s.ledger.scheduled + multiset{l}))
    case Sweep =>
      var due, keep := DueBy(Pending(s), Unix(s.clock)), DueAfter(Pending(s), Unix(s.clock));
      if due == [] then Load(s)
      else
        s.(loaded := true, lifts := keep, store := Some(keep),
           ledger := if s.actor then s.ledger.(inflight := s.ledger.inflight + multiset(due))
                     else s.ledger.(dropped := s.ledger.dropped + multiset(due)))
    case Issue(l) =>
      s.(ledger := s.ledger.(inflight := s.ledger.inflight - multiset{l}, issued := s.ledger.issued + multiset{l}))
    case Restart(actor) =>
      s.(loaded := false, lifts := [], actor := actor,
         ledger := s.ledger.(lost := s.ledger.lost + s.ledger.inflight, inflight := multiset{}))
    case Wait(n) => s.(clock := s.clock + n)
  }

  predicate Run(s: State, steps: seq<Step>)
    decreases |steps|
  {
    steps == [] || (Enabled(s, steps[0]) && Run(Do(s, steps[0]), steps[1..]))
  }

  function After(s: State, steps: seq<Step>): State
    requires Run(s, steps)
    decreases |steps|
  {
    if steps == [] then s else After(Do(s, steps[0]), steps[1..])
  }

  function Initial(clock: int, actor: bool): State {
    State(None, [], false, actor, Ledger(multiset{}, multiset{}, multiset{}, multiset{}, multiset{}), clock)
  }

  // ----- conservation -----

  function Gone(l: Ledger): multiset<Lift> {
    l.inflight + l.issued + l.lost + l.dropped
  }

  ghost predicate Conserved(s: State) {
    s.ledger.scheduled == multiset(Stored(s.store)) + Gone(s.ledger)
  }

  // What has left the pending set was due.
  ghost predicate NoneEarly(s: State) {
    forall l | l in Gone(s.ledger) :: l.due <= Unix(s.clock)
  }

  ghost predicate Inv(s: State) {
    && (s.loaded ==> s.lifts == Stored(s.store))
    && Conserved(s)
    && NoneEarly(s)
    && (!s.actor ==> s.ledger.inflight == multiset{})
  }

  // Claimed lifts move from the pending set to the ones gone.
  lemma Moved(l: Ledger, t: Ledger, pending: multiset<Lift>, keep: multiset<Lift>, due: multiset<Lift>)
    requires l.scheduled == pending + Gone(l) && due + keep == pending
    requires t == l.(inflight := l.inflight + due) || t == l.(dropped := l.dropped + due)
    ensures Gone(t) == Gone(l) + due
    ensures t.scheduled == keep + Gone(t)
  {
  }

  lemma SweepStep(s: State)
    requires Inv(s)
    ensures Inv(Do(s, Sweep))
  {
    var pending := Pending(s);
    var due, keep := DueBy(pending, Unix(s.clock)), DueAfter(pending, Unix(s.clock));
    var t := Do(s, Sweep);
    assert pending == Stored(s.store);
    SplitConserves(pending, Unix(s.clock));
    hide DueBy, DueAfter, Unix;
    if due == [] {
      assert t.ledger == s.ledger && Stored(t.store) == Stored(s.store);
    } else {
      assert Stored(t.store) == keep;
      Moved(s.ledger, t.ledger, multiset(pending), multiset(keep), multiset(due));
      hide Gone;
      assert NoneEarly(t) by {
        forall l | l in Gone(t.ledger)
          ensures l.due <= Unix(s.clock)
        {
          assert l in Gone(s.ledger) || l in due;
        }
      }
    }
  }

  lemma ScheduleStep(s: State, channel: string, modes: string, arg: string, secs: int)
    requires Inv(s) && s.actor
    ensures Inv(Do(s, Schedule(channel, modes, arg, secs)))
  {
    var t := Do(s, Schedule(channel, modes, arg, secs));
    assert Pending(s) == Stored(s.store);
    assert Gone(t.ledger) == Gone(s.ledger);
    hide Gone, Unix;
  }

  lemma IssueStep(s: State, l: Lift)
    requires Inv(s) && l in s.ledger.inflight
    ensures Inv(Do(s, Issue(l)))
  {
    var t := Do(s, Issue(l));
    assert Gone(t.ledger) == Gone(s.ledger) by {
      assert s.ledger.inflight == (s.ledger.inflight - multiset{l}) + multiset{l};
    }
    hide Gone, Unix;
  }

  lemma RestartStep(s: State, actor: bool)
    requires Inv(s)
    ensures Inv(Do(s, Restart(actor)))
  {
    var t := Do(s, Restart(actor));
    assert Gone(t.ledger) == Gone(s.ledger);
    hide Gone, Unix;
  }

  lemma WaitStep(s: State, n: nat)
    requires Inv(s)
    ensures Inv(Do(s, Wait(n)))
  {
    assert Unix(s.clock) <= Unix(s.clock + n);
    hide Gone, Unix;
  }

  lemma InvStep(s: State, step: Step)
    requires Inv(s) && Enabled(s, step)
    ensures Inv(Do(s, step))
  {
    assert step.Schedule? ==> s.actor;
    hide Inv, Do;
    match step
    case Schedule(channel, modes, arg, secs) => ScheduleStep(s, channel, modes, arg, secs);
    case Sweep => SweepStep(s);
    case Issue(l) => IssueStep(s, l);
    case Restart(actor) => RestartStep(s, actor);
    case Wait(n) => WaitStep(s, n);
  }

  lemma {:induction false} InvAlways(s: State, steps: seq<Step>)
    requires Inv(s) && Run(s, steps)
    ensures Inv(After(s, steps))
    decreases |steps|
  {
    if steps != [] {
      InvStep(s, steps[0]);
      hide Inv, Do, Enabled;
      InvAlways(Do(s, steps[0]), steps[1..]);
    }
  }

  // Over every run, whatever its restarts: each scheduled lift is pending, in
  // flight, issued, lost in a crash between claim and issue or dropped for want
  // of an actor, each exactly once; and none left the pending set before its second.
  lemma EveryLiftAccounted(clock: int, actor: bool, steps: seq<Step>)
    requires Run(Initial(clock, actor), steps)
    ensures var s := After(Initial(clock, actor), steps);
            && s.ledger.scheduled == multiset(Pending(s)) + s.ledger.inflight + s.ledger.issued + s.ledger.lost + s.ledger.dropped
            && forall l | l in s.ledger.issued :: l.due <= Unix(s.clock)
  {
    InvAlways(Initial(clock, actor), steps);
    var s := After(Initial(clock, actor), steps);
    hide Run, After;
    assert Pending(s) == Stored(s.store);
    assert forall l | l in s.ledger.issued :: l in Gone(s.ledger);
  }

  // No lift is issued more often than it was scheduled.
  lemma NeverTwice(clock: int, actor: bool, steps: seq<Step>, l: Lift)
    requires Run(Initial(clock, actor), steps)
    ensures After(Initial(clock, actor), steps).ledger.issued[l] <= After(Initial(clock, actor), steps).ledger.scheduled[l]
  {
    EveryLiftAccounted(clock, actor, steps);
  }

  // After a sweep whatever is still pending is due strictly later.
  lemma SweepLeavesOnlyLater(s: State)
    ensures forall l | l in Pending(Do(s, Sweep)) :: l.due > Unix(s.clock)
  {
    SplitConserves(Pending(s), Unix(s.clock));
    var due, keep := DueBy(Pending(s), Unix(s.clock)), DueAfter(Pending(s), Unix(s.clock));
    hide DueBy, DueAfter;
    if due == [] {
      forall l | l in Pending(s)
        ensures l.due > Unix(s.clock)
      {
        assert multiset(due) + multiset(keep) == multiset(keep);
        assert l in multiset(Pending(s));
      }
    }
  }

  // What a sweep does with a due lift: every pending copy is claimed for
  // issuing if the sweeping process has an actor, and dropped otherwise.
  lemma SweepDecides(s: State, l: Lift)
    requires l.due <= Unix(s.clock)
    ensures var t := Do(s, Sweep);
            var copies := multiset(Pending(s))[l];
            && multiset(Pending(t))[l] == 0
            && t.ledger.inflight[l] == s.ledger.inflight[l] + (if s.actor then copies else 0)
            && t.ledger.dropped[l] == s.ledger.dropped[l] + (if s.actor then 0 else copies)
            && t.ledger.issued == s.ledger.issued && t.ledger.lost == s.ledger.lost && t.ledger.scheduled == s.ledger.scheduled
  {
    SweepLeavesOnlyLater(s);
    SplitConserves(Pending(s), Unix(s.clock));
    var due, keep := DueBy(Pending(s), Unix(s.clock)), DueAfter(Pending(s), Unix(s.clock));
    var t := Do(s, Sweep);
    assert l !in Pending(t);
    hide DueBy, DueAfter, Unix;
    assert multiset(due)[l] + multiset(keep)[l] == multiset(Pending(s))[l];
    assert l !in keep;
  }

  // So over a whole run: after a sweep each due lift is issued, in flight or
  // lost if the sweeping process has an actor and no process before it dropped
  // the lift; and if no process before it claimed the lift and the sweeping one
  // has no actor, every scheduling of it is dropped.
  lemma DueAfterSweep(clock: int, actor: bool, steps: seq<Step>, l: Lift)
    requires Run(Initial(clock, actor), steps)
    requires l.due <= Unix(After(Initial(clock, actor), steps).clock)
    ensures var s := After(Initial(clock, actor), steps);
            var t := Do(s, Sweep).ledger;
            && t.scheduled[l] == t.inflight[l] + t.issued[l] + t.lost[l] + t.dropped[l]
            && (s.actor && s.ledger.dropped[l] == 0 ==> t.scheduled[l] == t.inflight[l] + t.issued[l] + t.lost[l])
            && (!s.actor && s.ledger.issued[l] + s.ledger.lost[l] == 0 ==> t.dropped[l] == t.scheduled[l] && t.issued[l] == 0)
  {
    var s := After(Initial(clock, actor), steps);
    InvAlways(Initial(clock, actor), steps);
    SweepStep(s);
    SweepDecides(s, l);
    var t := Do(s, Sweep);
    assert Pending(t) == Stored(t.store);
    hide Do, Run, After, Unix;
  }

  lemma {:induction false} NothingLost(s: State, steps: seq<Step>)
    requires s.actor && Run(s, steps) && forall step | step in steps :: !step.Restart?
    ensures After(s, steps).actor
    ensures After(s, steps).ledger.lost == s.ledger.lost && After(s, steps).ledger.dropped == s.ledger.dropped
    decreases |steps|
  {
    if steps != [] {
      assert !steps[0].Restart?;
      NothingLost(Do(s, steps[0]), steps[1..]);
    }
  }

  // With an actor and no restart, a sweep leaves every due lift claimed: all
  // its schedulings are in flight or issued.
  lemma DueMeansClaimed(clock: int, steps: seq<Step>, l: Lift)
    requires Run(Initial(clock, true), steps) && forall step | step in steps :: !step.Restart?
    requires l.due <= Unix(After(Initial(clock, true), steps).clock)
    ensures var t := Do(After(Initial(clock, true), steps), Sweep);
            t.ledger.inflight[l] + t.ledger.issued[l] == t.ledger.scheduled[l]
  {
    NothingLost(Initial(clock, true), steps);
    DueAfterSweep(clock, true, steps, l);
    SweepDecides(After(Initial(clock, true), steps), l);
  }

  // ----- lifts without an actor -----

  lemma {:induction false} RunPrefix(s: State, steps: seq<Step>, i: nat)
    requires Run(s, steps) && i <= |steps|
    ensures Run(s, steps[..i])
    decreases i
  {
    if i > 0 {
      assert steps[..i][1..] == steps[1..][..i - 1];
      RunPrefix(Do(s, steps[0]), steps[1..], i - 1);
    }
  }

  // The state before the i-th step.
  ghost function StateAt(s: State, steps: seq<Step>, i: nat): State
    requires Run(s, steps) && i <= |steps|
  {
    RunPrefix(s, steps, i);
    After(s, steps[..i])
  }

  lemma {:induction false} LastStep(s: State, steps: seq<Step>)
    requires Run(s, steps) && steps != []
    ensures var n := |steps| - 1;
            Enabled(StateAt(s, steps, n), steps[n]) && After(s, steps) == Do(StateAt(s, steps, n), steps[n])
    decreases |steps|
  {
    var n := |steps| - 1;
    RunPrefix(s, steps, n);
    if n == 0 {
      assert steps[..0] == [] && steps == [steps[0]];
    } else {
      assert steps[..n][1..] == steps[1..][..n - 1];
      LastStep(Do(s, steps[0]), steps[1..]);
    }
  }

  // The i-th step is a sweep by a process without an actor that finds a lift due.
  ghost predicate DropsAt(s: State, steps: seq<Step>, i: nat)
    requires Run(s, steps)
  {
    i < |steps| && steps[i].Sweep? && !StateAt(s, steps, i).actor &&
    DueBy(Pending(StateAt(s, steps, i)), Unix(StateAt(s, steps, i).clock)) != []
  }

  // A run drops a lift if and only if some sweep without an actor finds one due.
  lemma {:induction false} DroppedExactly(s: State, steps: seq<Step>)
    requires Run(s, steps) && s.ledger.dropped == multiset{}
    ensures After(s, steps).ledger.dropped != multiset{} <==> exists i: nat :: DropsAt(s, steps, i)
    decreases |steps|
  {
    if steps == [] {
      assert forall i: nat :: !DropsAt(s, steps, i);
    } else {
      var n := |steps| - 1;
      LastStep(s, steps);
      DropsPrefix(s, steps, n);
      DroppedExactly(s, steps[..n]);
      var before := StateAt(s, steps, n);
      DropsStep(before, steps[n]);
      assert DropsAt(s, steps, n) <==> Drops(before, steps[n]);
      hide Run, After, Do, DropsAt, Drops, StateAt, Enabled;
      if After(s, steps).ledger.dropped != multiset{} && !Drops(before, steps[n]) {
        var i: nat :| DropsAt(s, steps[..n], i);
        assert DropsAt(s, steps, i);
      }
      if i: nat :| DropsAt(s, steps, i) {
        assert i < n ==> DropsAt(s, steps[..n], i);
      }
    }
  }

  ghost predicate Drops(s: State, step: Step) {
    step.Sweep? && !s.actor && DueBy(Pending(s), Unix(s.clock)) != []
  }

  lemma DropsStep(s: State, step: Step)
    requires Enabled(s, step)
    ensures s.ledger.dropped <= Do(s, step).ledger.dropped
    ensures Drops(s, step) ==> Do(s, step).ledger.dropped != multiset{}
    ensures !Drops(s, step) ==> Do(s, step).ledger.dropped == s.ledger.dropped
  {
    if Drops(s, step) {
      var due := DueBy(Pending(s), Unix(s.clock));
      assert due[0] in multiset(due);
      assert due[0] in Do(s, step).ledger.dropped;
    }
  }

  lemma DropsPrefix(s: State, steps: seq<Step>, n: nat)
    requires Run(s, steps) && n == |steps| - 1
    ensures Run(s, steps[..n]) && After(s, steps[..n]) == StateAt(s, steps, n)
    ensures forall i: nat | i < n :: DropsAt(s, steps[..n], i) <==> DropsAt(s, steps, i)
    ensures forall i: nat :: (DropsAt(s, steps[..n], i) ==> i < n) && (DropsAt(s, steps, i) ==> i <= n)
  {
    RunPrefix(s, steps, n);
    forall i: nat | i < n
      ensures StateAt(s, steps[..n], i) == StateAt(s, steps, i) && steps[..n][i] == steps[i]
    {
      assert steps[..n][..i] == steps[..i];
    }
    hide Run, After, StateAt;
    assert |steps[..n]| == n;
  }

  lemma {:induction false} DroppedStays(s: State, steps: seq<Step>)
    requires Run(s, steps)
    ensures s.ledger.dropped <= After(s, steps).ledger.dropped
    decreases |steps|
  {
    if steps != [] {
      DropsStep(s, steps[0]);
      hide Do, Enabled, Drops;
      DroppedStays(Do(s, steps[0]), steps[1..]);
    }
  }

  // A dropped lift is not issued by any later process either.
  lemma DroppedForGood(clock: int, actor: bool, past: seq<Step>, future: seq<Step>, l: Lift)
    requires Run(Initial(clock, actor), past)
    requires Run(After(Initial(clock, actor), past), future)
    ensures var s := After(Initial(clock, actor), past);
            var t := After(s, future);
            t.ledger.issued[l] + s.ledger.dropped[l] <= t.ledger.scheduled[l]
  {
    var s := After(Initial(clock, actor), past);
    InvAlways(Initial(clock, actor), past);
    InvAlways(s, future);
    DroppedStays(s, future);
    hide Run, After;
  }

  // Such a run: a lift is scheduled through an actor, the process restarts
  // without one, and the first sweep after the deadline drops the lift.
  lemma DroppedRun(clock: int, step: Step)
    requires step.Schedule? && step.secs > 0
    ensures var s := Initial(clock, true);
            var l := Scheduled(s, step);
            var steps := [step, Restart(false), Wait(step.secs * 1_000_000_000), Sweep];
            && Run(s, steps)
            && var t := After(s, steps);
            && t.ledger.scheduled == multiset{l} && t.ledger.dropped == multiset{l}
            && t.ledger.issued == multiset{} && Pending(t) == []
  {
    var s := Initial(clock, true);
    var l := Scheduled(s, step);
    var n: nat := step.secs * 1_000_000_000;
    DueAt(clock, step, n);
    hide Unix, Scheduled;
    var s3 := StoredAlone(clock, step, n, l);
    var t := DroppedAlone(s3, l);
    hide Do, Initial, DueBy, DueAfter;
    var end := FourSteps(s, step, Restart(false), Wait(n), Sweep, s3);
  }

  lemma DueAt(clock: int, step: Step, n: int)
    requires step.Schedule? && n == step.secs * 1_000_000_000
    ensures Scheduled(Initial(clock, true), step).due == Unix(clock + n)
  {
    hide Unix;
  }

  lemma StoredAlone(clock: int, step: Step, n: nat, l: Lift) returns (s3: State)
    requires step.Schedule? && l == Scheduled(Initial(clock, true), step)
    ensures s3 == Do(Do(Do(Initial(clock, true), step), Restart(false)), Wait(n))
    ensures Pending(s3) == [l] && !s3.actor && s3.clock == clock + n
    ensures s3.ledger == Initial(clock, true).ledger.(scheduled := multiset{l})
  {
    hide Unix;
    var s1 := Do(Initial(clock, true), step);
    assert Pending(Initial(clock, true)) == [];
    assert [] + [l] == [l] && s1.store == Some([l]);
    assert multiset{} + multiset{l} == multiset{l};
    var s2 := Do(s1, Restart(false));
    assert s2.ledger.lost == multiset{} && s2.ledger == s1.ledger;
    s3 := Do(s2, Wait(n));
  }

  lemma DroppedAlone(s: State, l: Lift) returns (t: State)
    requires Pending(s) == [l] && !s.actor && l.due <= Unix(s.clock) && s.ledger.dropped == multiset{}
    ensures t == Do(s, Sweep) && Pending(t) == [] && t.ledger == s.ledger.(dropped := multiset{l})
  {
    OneDue(l, Unix(s.clock));
    SplitConserves([l], Unix(s.clock));
    assert multiset([l]) == multiset{l};
    t := Do(s, Sweep);
    hide DueBy;
    var keep := DueAfter([l], Unix(s.clock));
    assert [l][..0] == [];
    assert keep == [];
  }

  // ----- lifts before their deadline -----

  // Whole seconds are compared, so over every run an issued lift comes less
  // than a second before the deadline of any scheduling it stems from.
  lemma EarlyByLessThanASecond(clock: int, actor: bool, steps: seq<Step>, i: nat, j: nat)
    requires Run(Initial(clock, actor), steps) && i < |steps| && j < |steps|
    requires steps[i].Issue? && steps[j].Schedule?
    requires Scheduled(StateAt(Initial(clock, actor), steps, j), steps[j]) == steps[i].lift
    ensures var s0 := Initial(clock, actor);
            StateAt(s0, steps, i).clock > StateAt(s0, steps, j).clock + steps[j].secs * 1_000_000_000 - 1_000_000_000
  {
    var s0 := Initial(clock, actor);
    IssuedWhenDue(clock, actor, steps, i);
    var issuing, scheduling := StateAt(s0, steps, i), StateAt(s0, steps, j);
    hide Run, After, StateAt, Do, Unix;
    NotMuchEarlier(scheduling.clock + steps[j].secs * 1_000_000_000, issuing.clock);
  }

  lemma IssuedWhenDue(clock: int, actor: bool, steps: seq<Step>, i: nat)
    requires Run(Initial(clock, actor), steps) && i < |steps| && steps[i].Issue?
    ensures steps[i].lift.due <= Unix(StateAt(Initial(clock, actor), steps, i).clock)
  {
    hide Unix, Do;
    var s0 := Initial(clock, actor);
    RunPrefix(s0, steps, i);
    InvAlways(s0, steps[..i]);
    RunPrefix(s0, steps, i + 1);
    LastStep(s0, steps[..i + 1]);
    assert steps[..i + 1][..i] == steps[..i];
    var issuing := StateAt(s0, steps, i);
    hide Run, After, StateAt;
    assert Enabled(issuing, steps[i]);
    assert steps[i].lift in Gone(issuing.ledger);
  }

  lemma NotMuchEarlier(deadline: int, at: int)
    requires Unix(deadline) <= Unix(at)
    ensures at > deadline - 1_000_000_000
  {
  }

  // The times that count as due although they lie before the deadline.
  predicate EarlyButDue(deadline: int, at: int) {
    at < deadline && Unix(deadline) <= Unix(at)
  }

  // There are such times exactly when the deadline is no whole second, and
  // then the whole second itself is one.
  lemma EarlyTimes(deadline: int)
    ensures (exists at :: EarlyButDue(deadline, at)) <==> deadline % 1_000_000_000 != 0
    ensures deadline % 1_000_000_000 != 0 ==> EarlyButDue(deadline, deadline - deadline % 1_000_000_000)
  {
    var q, r := deadline / 1_000_000_000, deadline % 1_000_000_000;
    assert deadline == q * 1_000_000_000 + r;
    if r != 0 {
      assert (deadline - r) / 1_000_000_000 == q;
      assert EarlyButDue(deadline, deadline - r);
    } else {
      forall at | at < deadline
        ensures !EarlyButDue(deadline, at)
      {
        assert at / 1_000_000_000 < q;
      }
    }
  }

  // The state in which a sweep n nanoseconds after a scheduling starts.
  function Later(s: State, step: Step, n: nat): State
    requires step.Schedule? && s.actor
  {
    Do(Do(s, step), Wait(n))
  }

  // The sweep n nanoseconds after the scheduling claims the new lift, before its deadline.
  ghost predicate ClaimedEarly(s: State, step: Step, n: nat)
    requires step.Schedule? && s.actor
  {
    var t := Later(s, step, n);
    && Scheduled(s, step) in DueBy(Pending(t), Unix(t.clock))
    && t.clock < s.clock + step.secs * 1_000_000_000
  }

  function Scheduled(s: State, step: Step): Lift
    requires step.Schedule?
  {
    Lift(step.channel, step.modes, step.arg, Unix(s.clock + step.secs * 1_000_000_000))
  }

  // From any state with an actor a newly scheduled lift can be claimed before its deadline
  // if and only if it lies in the future and the scheduling does not fall on a
  // whole second.
  lemma EarlyExactly(s: State, step: Step)
    requires step.Schedule? && s.actor
    ensures (exists n: nat :: ClaimedEarly(s, step, n)) <==> step.secs > 0 && s.clock % 1_000_000_000 != 0
  {
    var deadline := s.clock + step.secs * 1_000_000_000;
    WholeSeconds(s.clock, step.secs);
    EarlyTimes(deadline);
    hide ClaimedEarly, Later, Scheduled;
    if step.secs > 0 && s.clock % 1_000_000_000 != 0 {
      var n: nat := deadline - deadline % 1_000_000_000 - s.clock;
      ClaimsWhenDue(s, step, n);
      assert ClaimedEarly(s, step, n);
    }
    if exists n: nat :: ClaimedEarly(s, step, n) {
      var n: nat :| ClaimedEarly(s, step, n);
      ClaimsWhenDue(s, step, n);
      assert EarlyButDue(deadline, s.clock + n);
    }
  }

  lemma WholeSeconds(clock: int, secs: int)
    ensures (clock + secs * 1_000_000_000) % 1_000_000_000 == clock % 1_000_000_000
  {
  }

  lemma ClaimsWhenDue(s: State, step: Step, n: nat)
    requires step.Schedule? && s.actor
    ensures ClaimedEarly(s, step, n) <==>
              EarlyButDue(s.clock + step.secs * 1_000_000_000, s.clock + n)
  {
    var t := Later(s, step, n);
    var l := Scheduled(s, step);
    assert Pending(t) == Pending(s) + [l];
    DueByMember(Pending(s), l, Unix(t.clock));
    SplitConserves(Pending(t), Unix(t.clock));
  }

  lemma DueByMember(s: seq<Lift>, l: Lift, cutoff: int)
    ensures l.due <= cutoff ==> l in DueBy(s + [l], cutoff)
  {
    assert (s + [l])[..|s|] == s;
  }

  // And then it is issued early in a whole run.
  lemma EarlyIssue(clock: int, step: Step) returns (n: nat)
    requires step.Schedule? && step.secs > 0 && clock % 1_000_000_000 != 0
    ensures var s := Initial(clock, true);
            var l := Scheduled(s, step);
            var steps := [step, Wait(n), Sweep, Issue(l)];
            && Run(s, steps)
            && l in After(s, steps).ledger.issued
            && After(s, steps).clock < clock + step.secs * 1_000_000_000
  {
    var deadline := clock + step.secs * 1_000_000_000;
    WholeSeconds(clock, step.secs);
    EarlyTimes(deadline);
    n := deadline - deadline % 1_000_000_000 - clock;
    var l := Scheduled(Initial(clock, true), step);
    assert l.due == Unix(deadline) <= Unix(clock + n);
    hide Unix, Scheduled;
    var s3 := ClaimedAlone(clock, step, n, l);
    hide Do, Initial;
    var t := FourSteps(Initial(clock, true), step, Wait(n), Sweep, Issue(l), s3);
  }

  // The lift is claimed by the sweep, and ready to be issued.
  lemma ClaimedAlone(clock: int, step: Step, n: nat, l: Lift) returns (s3: State)
    requires step.Schedule? && l == Scheduled(Initial(clock, true), step) && l.due <= Unix(clock + n)
    ensures s3 == Do(Do(Do(Initial(clock, true), step), Wait(n)), Sweep)
    ensures s3.clock == clock + n && s3.ledger.inflight == multiset{l} && l in Do(s3, Issue(l)).ledger.issued
    ensures Do(s3, Issue(l)).clock == clock + n
  {
    hide Unix, DueBy, DueAfter;
    var s2 := Do(Do(Initial(clock, true), step), Wait(n));
    assert s2.loaded && s2.lifts == [l] && s2.ledger.inflight == multiset{} && s2.clock == clock + n;
    OneDue(l, Unix(s2.clock));
    s3 := Do(s2, Sweep);
    assert multiset([l]) == multiset{l};
  }

  lemma FourSteps(s: State, a: Step, b: Step, c: Step, d: Step, s3: State) returns (t: State)
    requires Enabled(s, a) && Enabled(Do(s, a), b) && Enabled(Do(Do(s, a), b), c)
    requires s3 == Do(Do(Do(s, a), b), c) && Enabled(s3, d)
    ensures t == Do(s3, d)
    ensures Run(s, [a, b, c, d]) && After(s, [a, b, c, d]) == t
  {
    hide Run, After, Do, Enabled;
    t := Do(s3, d);
    assert [a, b, c, d][1..] == [b, c, d] && [b, c, d][1..] == [c, d] && [c, d][1..] == [d] && [d][1..] == [];
    Unfold(s, [a, b, c, d]);
    Unfold(Do(s, a), [b, c, d]);
    Unfold(Do(Do(s, a), b), [c, d]);
    Unfold(s3, [d]);
    RunNone(t);
  }

  lemma OneDue(l: Lift, cutoff: int)
    requires l.due <= cutoff
    ensures DueBy([l], cutoff) == [l]
  {
    assert [l][..0] == [];
  }

  lemma Unfold(s: State, steps: seq<Step>)
    requires steps != [] && Enabled(s, steps[0])
    ensures Run(s, steps) <==> Run(Do(s, steps[0]), steps[1..])
    ensures Run(s, steps) ==> After(s, steps) == After(Do(s, steps[0]), steps[1..])
  {
  }

  lemma RunNone(s: State)
    ensures Run(s, []) && After(s, []) == s
  {
  }

  // ----- the engine's code -----

  class Engine {
    var store: Option<seq<Lift>>
    var lifts: seq<Lift>
    var loaded: bool
    const hasActor: bool
    ghost var ledger: Ledger

    ghost function View(clock: int): State
      reads this
    {
      State(store, lifts, loaded, hasActor, ledger, clock)
    }

    // A fresh process over whatever the store holds.
    constructor (hasActor: bool, store: Option<seq<Lift>>, ghost ledger: Ledger)
      ensures this.hasActor == hasActor
      ensures forall clock :: View(clock) == State(store, [], false, hasActor, ledger, clock)
    {
      this.hasActor := hasActor;
      this.store := store;
      this.ledger := ledger;
      lifts := [];
      loaded := false;
    }

    method EnsureLiftsLoaded(ghost clock: int)
      modifies this`lifts, this`loaded
      requires !loaded ==> lifts == []
      ensures loaded && View(clock) == Load(old(View(clock)))
    {
      if loaded {
        return;
      }
      loaded := true;
      if store.None? {
        return;
      }
      lifts := store.value;
    }

    // Reached only through an actor.
    method ScheduleLift(channel: string, modes: string, arg: string, secs: int, now: int)
      requires hasActor && (!loaded ==> lifts == [])
      modifies this
      ensures View(now) == Do(old(View(now)), Schedule(channel, modes, arg, secs))
    {
      EnsureLiftsLoaded(now);
      var l := Lift(channel, modes, arg, Unix(now + secs * 1_000_000_000));
      lifts := lifts + [l];
      store := Some(lifts);
      ledger := ledger.(scheduled := ledger.scheduled + multiset{l});
    }

    // The locked part of a sweep: claims and persists before anything is issued.
    method Claim(now: int) returns (due: seq<Lift>)
      requires !loaded ==> lifts == []
      modifies this
      ensures View(now) == Do(old(View(now)), Sweep)
      ensures due == DueBy(Pending(old(View(now))), Unix(now))
    {
      EnsureLiftsLoaded(now);
      due := [];
      if |lifts| == 0 {
        return;
      }
      var keep;
      due, keep := Split(lifts, Unix(now));
      if |due| == 0 {
        return;
      }
      lifts := keep;
      store := Some(keep);
      ledger := if hasActor then ledger.(inflight := ledger.inflight + multiset(due))
                else ledger.(dropped := ledger.dropped + multiset(due));
    }

    // Claims, then issues every claimed lift in order; errors are only logged.
    method SweepLifts(now: int) returns (calls: seq<Call>)
      requires !loaded ==> lifts == []
      modifies this
      ensures hasActor ==> Issues(calls, DueBy(Pending(old(View(now))), Unix(now)))
      ensures !hasActor ==> calls == []
      ensures View(now).(ledger := old(ledger)) == Do(old(View(now)), Sweep).(ledger := old(ledger))
      ensures var due := multiset(DueBy(Pending(old(View(now))), Unix(now)));
              ledger == if hasActor then old(ledger).(issued := old(ledger.issued) + due)
                        else old(ledger).(dropped := old(ledger.dropped) + due)
    {
      hide DueBy, DueAfter, Issues;
      var due := Claim(now);
      if !hasActor {
        calls := [];
        return;
      }
      ghost var before := old(ledger.inflight);
      assert due == [] ==> multiset(due) == multiset{};
      calls := IssueAll(due);
      assert (before + multiset(due)) - multiset(due) == before;
    }

    method IssueAll(due: seq<Lift>) returns (calls: seq<Call>)
      requires multiset(due) <= ledger.inflight
      modifies this`ledger
      ensures Issues(calls, due)
      ensures ledger == old(ledger).(issued := old(ledger.issued) + multiset(due), inflight := old(ledger.inflight) - multiset(due))
    {
      calls := [];
      for i := 0 to |due|
        invariant Issues(calls, due[..i])
      {
        var l := due[i];
        assert due[..i + 1] == due[..i] + [l];
        if l.arg != "" {
          calls := calls + [SetMode(l.channel, l.modes, [l.arg])];
        } else {
          calls := calls + [SetMode(l.channel, l.modes, [])];
        }
      }
      assert due[..|due|] == due;
      ledger := ledger.(issued := ledger.issued + multiset(due), inflight := ledger.inflight - multiset(due));
    }
  }

  datatype Call = SetMode(channel: string, modes: string, args: seq<string>)

  // One mode change per lift, in order; an empty argument is left out.
  ghost predicate Issues(calls: seq<Call>, due: seq<Lift>) {
    && |calls| == |due|
    && forall i | 0 <= i < |due| ::
         && calls[i].channel == due[i].channel && calls[i].modes == due[i].modes
         && (due[i].arg == "" ==> calls[i].args == [])
         && (due[i].arg != "" ==> calls[i].args == [due[i].arg])
  }

  method Split(s: seq<Lift>, cutoff: int) returns (due: seq<Lift>, keep: seq<Lift>)
    ensures due == DueBy(s, cutoff) && keep == DueAfter(s, cutoff)
  {
    due, keep := [], [];
    for i := 0 to |s|
      invariant due == DueBy(s[..i], cutoff) && keep == DueAfter(s[..i], cutoff)
    {
      assert s[..i + 1][..i] == s[..i];
      if s[i].due <= cutoff {
        due := due + [s[i]];
      } else {
        keep := keep + [s[i]];
      }
    }
    assert s[..|s|] == s;
  }
}
