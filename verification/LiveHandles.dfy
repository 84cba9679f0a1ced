/**
 The connection handle that in-place updates use (internal/server/tenant.go): a
 run reads the spec, builds a connection and publishes its handle; a run that
 ends clears the handle, one that panics does not. Updates come one at a time,
 because the server holds its lock over each. One live facet, say the nick, is
 followed; a version counts its changes.
 */
module LiveHandles {
  import opened Options

  datatype Phase =
    | Idle
    | Building(read: Option<nat>)  // the version buildConnectors has read
    | Up(told: nat)                // the version the connection follows

  datatype State = State(
    version: nat,             // of the stored spec
    phase: Phase,             // of the current run
    conn: nat,                // the connection of the current run
    handle: Option<nat>,      // the published connection
    update: Option<nat>,      // an update that has stored its version and not yet applied it
    restart: bool)            // a restart has been asked for and not begun

  datatype Step =
    | Begin
    | Read
    | Publish
    | End
    | Panic
    | Write
    | Apply

  function Initial(): State {
    State(0, Idle, 0, None, None, false)
  }

  predicate Enabled(s: State, step: Step) {
    match step
    case Begin => s.phase.Idle?
    case Read => s.phase.Building? && s.phase.read.None?
    case Publish => s.phase.Building? && s.phase.read.Some?
    case End => s.phase.Up?
    case Panic => !s.phase.Idle?
    case Write => s.update.None?
    case Apply => s.update.Some?
  }

  function Do(s: State, step: Step): State
    requires Enabled(s, step)
  {
    match step
    case Begin => s.(phase := Building(None), conn := s.conn + 1, restart := false)
    case Read => s.(phase := Building(Some(s.version)))
    case Publish => s.(phase := Up(s.phase.read.value), handle := Some(s.conn))
    case End => s.(phase := Idle, handle := None)
    // The clean-up after the run is not deferred.
    case Panic => s.(phase := Idle)
    case Write => s.(version := s.version + 1, update := Some(s.version + 1))
    case Apply =>
      if s.handle.None? then s.(update := None, restart := true)
      else if s.phase.Up? && s.handle.value == s.conn then s.(update := None, phase := Up(s.update.value))
      else s.(update := None)
  }

  // An update starts and ends no run, and tells only a connection that is up and
  // that the handle names.
  lemma UpdatesLeaveRun(s: State, step: Step)
    requires (step.Write? || step.Apply?) && Enabled(s, step)
    ensures var t := Do(s, step);
            && t.conn == s.conn && t.handle == s.handle
            && (t.phase == s.phase || (step.Apply? && s.phase.Up? && s.handle == Some(s.conn) && t.phase == Up(s.update.value)))
  {
  }

  predicate Run(s: State, steps: seq<Step>)
    decreases |steps|
  {
    steps == [] || (Enabled(s, steps[0]) && Run(Do(s, steps[0]), steps[1..]))
  }

  function After(s: State, steps: seq<Step>): State
    requires Run(s, steps)
    decreases |steps|
  {
    if steps == [] then s else After(Do(s, steps[0]), steps[1..])
  }

  lemma {:induction false} RunPrefix(s: State, steps: seq<Step>, i: nat)
    requires Run(s, steps) && i <= |steps|
    ensures Run(s, steps[..i])
    decreases i
  {
    if i > 0 {
      assert steps[..i][1..] == steps[1..][..i - 1];
      RunPrefix(Do(s, steps[0]), steps[1..], i - 1);
    }
  }

  // The state before the i-th step.
  ghost function StateAt(s: State, steps: seq<Step>, i: nat): State
    requires Run(s, steps) && i <= |steps|
  {
    RunPrefix(s, steps, i);
    After(s, steps[..i])
  }

  lemma {:induction false} LastStep(s: State, steps: seq<Step>)
    requires Run(s, steps) && steps != []
    ensures var n := |steps| - 1;
            Enabled(StateAt(s, steps, n), steps[n]) && After(s, steps) == Do(StateAt(s, steps, n), steps[n])
    decreases |steps|
  {
    var n := |steps| - 1;
    RunPrefix(s, steps, n);
    if n == 0 {
      assert steps[..0] == [] && steps == [steps[0]];
    } else {
      assert steps[..n][1..] == steps[1..][..n - 1];
      LastStep(Do(s, steps[0]), steps[1..]);
    }
  }

  // ----- updates that miss -----

  // The update would go to the connection of a dead run, while the current run
  // has already read an older spec.
  predicate Misdirected(s: State) {
    && s.update.Some? && s.handle.Some?
    && s.phase.Building? && s.phase.read.Some? && s.phase.read.value < s.update.value
  }

  // The i-th step is such an apply, and no apply and no new run follows it.
  ghost predicate MissedAt(s: State, steps: seq<Step>, i: nat)
    requires Run(s, steps)
  {
    i < |steps| && steps[i].Apply? && Misdirected(StateAt(s, steps, i)) && NoneAfter(steps, i)
  }

  predicate NoneAfter(steps: seq<Step>, i: nat) {
    forall j | i < j < |steps| :: !steps[j].Begin? && !steps[j].Apply?
  }

  // `missed` says whether the last apply missed and no run has begun since.
  ghost predicate Inv(s: State, missed: bool) {
    && (s.update.Some? ==> s.update.value == s.version)
    && (s.phase.Up? ==> s.handle == Some(s.conn))
    && (s.handle.Some? ==> s.handle.value <= s.conn)
    && (s.handle.Some? && !s.phase.Up? ==> s.phase.Idle? || s.handle.value < s.conn)
    && (s.phase.Building? && s.phase.read.Some? ==> s.phase.read.value <= s.version)
    && (s.phase.Up? ==> s.phase.told <= s.version)
    && (s.phase.Building? && s.phase.read.Some? && s.phase.read.value < s.version ==> s.update.Some? || s.restart || missed)
    && (s.phase.Up? && s.phase.told < s.version ==> s.update.Some? || s.restart || missed)
    && (missed && s.phase.Up? ==> s.phase.told < s.version)
    && (missed && s.phase.Building? ==> s.phase.read.Some? && s.phase.read.value < s.version)
  }

  function Missed(s: State, step: Step, missed: bool): bool {
    if step.Begin? then false
    else if step.Apply? then Misdirected(s)
    else missed
  }

  lemma InvStep(s: State, missed: bool, step: Step)
    requires Inv(s, missed) && Enabled(s, step)
    ensures Inv(Do(s, step), Missed(s, step, missed))
  {
  }

  // Every run keeps the invariant, `missed` read off its steps.
  lemma {:induction false} InvAlways(s: State, steps: seq<Step>)
    requires Inv(s, false) && Run(s, steps)
    ensures Inv(After(s, steps), exists i: nat :: MissedAt(s, steps, i))
    decreases |steps|
  {
    if steps == [] {
      assert forall i: nat :: !MissedAt(s, steps, i);
    } else {
      var n := |steps| - 1;
      RunPrefix(s, steps, n);
      LastStep(s, steps);
      InvAlways(s, steps[..n]);
      MissedStep(s, steps);
      var before := StateAt(s, steps, n);
      InvStep(before, exists i: nat :: MissedAt(s, steps[..n], i), steps[n]);
      hide Inv, MissedAt, Do, Missed, Enabled;
    }
  }

  lemma PrefixAgrees(s: State, steps: seq<Step>, n: nat, i: nat)
    requires Run(s, steps) && i <= n <= |steps|
    ensures Run(s, steps[..n]) && StateAt(s, steps[..n], i) == StateAt(s, steps, i)
  {
    hide Do, Enabled;
    RunPrefix(s, steps, n);
    assert steps[..n][..i] == steps[..i];
  }

  lemma NoneBefore(steps: seq<Step>, i: nat)
    requires i + 1 < |steps|
    ensures var n := |steps| - 1;
            NoneAfter(steps, i) <==> NoneAfter(steps[..n], i) && !steps[n].Begin? && !steps[n].Apply?
  {
    var n := |steps| - 1;
    assert forall j | 0 <= j < n :: steps[..n][j] == steps[j];
  }

  lemma MissedBefore(s: State, steps: seq<Step>, i: nat)
    requires Run(s, steps) && i + 1 < |steps|
    ensures var n := |steps| - 1;
            && Run(s, steps[..n])
            && (MissedAt(s, steps, i) <==> MissedAt(s, steps[..n], i) && !steps[n].Begin? && !steps[n].Apply?)
  {
    PrefixAgrees(s, steps, |steps| - 1, i);
    NoneBefore(steps, i);
    hide Run, StateAt, Misdirected, NoneAfter;
  }

  lemma MissedStep(s: State, steps: seq<Step>)
    requires Run(s, steps) && steps != []
    ensures var n := |steps| - 1;
            && Run(s, steps[..n]) && StateAt(s, steps, n) == After(s, steps[..n])
            && ((exists i: nat :: MissedAt(s, steps, i)) <==>
                  Missed(StateAt(s, steps, n), steps[n], exists i: nat :: MissedAt(s, steps[..n], i)))
  {
    var n := |steps| - 1;
    RunPrefix(s, steps, n);
    assert forall i: nat :: (MissedAt(s, steps, i) ==> i <= n) && (MissedAt(s, steps[..n], i) ==> i < n);
    assert MissedAt(s, steps, n) <==> steps[n].Apply? && Misdirected(StateAt(s, steps, n));
    hide MissedAt, Run, After, StateAt, Misdirected;
    forall i: nat | i < n
      ensures MissedAt(s, steps, i) <==> MissedAt(s, steps[..n], i) && !steps[n].Begin? && !steps[n].Apply?
    {
      MissedBefore(s, steps, i);
    }
  }

  // In every run, when no update is in flight and no restart is asked for: the
  // connection follows the stored spec unless, and only unless, the last apply
  // went to a dead connection after the current run had read an older spec.
  lemma FacetLostExactly(steps: seq<Step>)
    requires Run(Initial(), steps)
    requires var s := After(Initial(), steps); s.phase.Up? && s.update.None? && !s.restart
    ensures After(Initial(), steps).phase.told == After(Initial(), steps).version <==>
            !exists i: nat :: MissedAt(Initial(), steps, i)
  {
    InvAlways(Initial(), steps);
  }

  // A published handle belongs to the live connection as long as no run panics.
  ghost predicate Tidy(s: State) {
    (s.handle.Some? ==> s.phase.Up?)
  }

  lemma {:induction false} TidyAlways(s: State, steps: seq<Step>)
    requires Tidy(s) && Run(s, steps) && forall step | step in steps :: !step.Panic?
    ensures Tidy(After(s, steps))
    decreases |steps|
  {
    if steps != [] {
      assert !steps[0].Panic?;
      TidyAlways(Do(s, steps[0]), steps[1..]);
    }
  }

  // So without a panic no live update is lost.
  lemma NoPanicNoLoss(steps: seq<Step>)
    requires Run(Initial(), steps) && forall step | step in steps :: !step.Panic?
    requires var s := After(Initial(), steps); s.phase.Up? && s.update.None? && !s.restart
    ensures After(Initial(), steps).phase.told == After(Initial(), steps).version
  {
    FacetLostExactly(steps);
    forall i: nat
      ensures !MissedAt(Initial(), steps, i)
    {
      if i < |steps| {
        RunPrefix(Initial(), steps, i);
        assert forall step | step in steps[..i] :: step in steps;
        TidyAlways(Initial(), steps[..i]);
      }
    }
  }

  // After a panic the handle still names the dead connection: an update during
  // the next build, after it has read the spec, reports success and is lost.
  lemma LostAfterPanic()
    ensures var steps := [Begin, Read, Publish, Panic, Begin, Read, Write, Apply, Publish];
            && Run(Initial(), steps)
            && After(Initial(), steps) == State(1, Up(0), 2, Some(2), None, false)
  {
    var steps := [Begin, Read, Publish, Panic, Begin, Read, Write, Apply, Publish];
    var mid := State(0, Building(None), 2, Some(1), None, false);
    FirstRunPanics(steps);
    assert steps[5..] == [Read, Write, Apply, Publish];
    assert steps[5..][1..] == [Write, Apply, Publish] && steps[5..][1..][1..] == [Apply, Publish];
    assert steps[5..][1..][1..][1..] == [Publish] && [Publish][1..] == [];
    hide Run, After;
    var s6 := Do(mid, Read);
    var s7 := Do(s6, Write);
    var s8 := Do(s7, Apply);
    Unfold(mid, steps[5..]);
    Unfold(s6, [Write, Apply, Publish]);
    Unfold(s7, [Apply, Publish]);
    Unfold(s8, [Publish]);
    RunNone(Do(s8, Publish));
  }

  lemma FirstRunPanics(steps: seq<Step>)
    requires |steps| >= 5 && steps[..5] == [Begin, Read, Publish, Panic, Begin]
    ensures var mid := State(0, Building(None), 2, Some(1), None, false);
            && (Run(Initial(), steps) <==> Run(mid, steps[5..]))
            && (Run(Initial(), steps) ==> After(Initial(), steps) == After(mid, steps[5..]))
  {
    hide Run, After;
    assert forall i | 0 <= i < 5 :: steps[i] == steps[..5][i];
    assert steps[1..][1..] == steps[2..] && steps[2..][1..] == steps[3..];
    assert steps[3..][1..] == steps[4..] && steps[4..][1..] == steps[5..];
    var s1 := Do(Initial(), Begin);
    var s2 := Do(s1, Read);
    var s3 := Do(s2, Publish);
    var s4 := Do(s3, Panic);
    Unfold(Initial(), steps);
    Unfold(s1, steps[1..]);
    Unfold(s2, steps[2..]);
    Unfold(s3, steps[3..]);
    Unfold(s4, steps[4..]);
  }

  lemma Unfold(s: State, steps: seq<Step>)
    requires steps != [] && Enabled(s, steps[0])
    ensures Run(s, steps) <==> Run(Do(s, steps[0]), steps[1..])
    ensures Run(s, steps) ==> After(s, steps) == After(Do(s, steps[0]), steps[1..])
  {
  }

  lemma RunNone(s: State)
    ensures Run(s, []) && After(s, []) == s
  {
  }
}
