/**
 The debounced snapshot emitter (internal/statepush/state_emitter.go) as
 interleaved steps: changes and their notifications from any goroutine, the
 one-slot channel, the background goroutine, and Flush calls.

 A build reads live state while it runs, so all that is certain is that it
 includes the changes made before it started; its version at the start stands
 for it.
 */
module Emitter {

  datatype Phase =
    | Idle
    | Collecting(deadline: int)
    | Building(floor: nat)
    | Putting(floor: nat)
    | Exited

  datatype State = State(
    version: nat,         // changes made so far
    notifying: nat,       // changes whose NotifyChange has not sent yet
    token: bool,          // the one-slot channel
    phase: Phase,         // the background goroutine
    flushes: seq<nat>,    // Flush calls in flight, by their start version
    stopped: bool,
    built: nat,           // newest version a finished build started from
    delivered: nat,       // version of the last successful PUT
    clock: int,
    lastStart: int)       // when the goroutine last started a build

  datatype Step =
    | Change
    | Notify
    | Take
    | Eat
    | Fire(late: nat)
    | Build
    | Put(ok: bool)
    | FlushStart
    | FlushEnd(i: nat, sent: bool)
    | Wait(nanos: nat)
    | Stop
    | Exit

  function Initial(clock: int, debounce: nat): State {
    State(0, 0, false, Idle, [], false, 0, 0, clock, clock - debounce)
  }

  predicate Enabled(s: State, step: Step) {
    match step
    case Change => true
    case Notify => s.notifying > 0
    case Take => s.phase.Idle? && s.token
    case Eat => s.phase.Collecting? && s.token
    case Fire(_) => s.phase.Collecting?
    case Build => s.phase.Building?
    case Put(_) => s.phase.Putting?
    case FlushStart => true
    case FlushEnd(i, _) => i < |s.flushes|
    case Wait(_) => true
    case Stop => true
    case Exit => s.stopped && (s.phase.Idle? || s.phase.Collecting?)
  }

  function Max(a: int, b: int): int {
    if a < b then b else a
  }

  function Do(s: State, debounce: nat, step: Step): State
    requires Enabled(s, step)
  {
    match step
    case Change => s.(version := s.version + 1, notifying := s.notifying + 1)
    // A send on a full channel is dropped.
    case Notify => s.(notifying := s.notifying - 1, token := true)
    case Take =>
      if debounce == 0 then s.(token := false, phase := Building(s.version), lastStart := s.clock)
      else s.(token := false, phase := Collecting(s.clock + debounce))
    case Eat => s.(token := false, phase := Collecting(s.clock + debounce))
    case Fire(late) =>
      var at := Max(s.clock, s.phase.deadline) + late;
      s.(phase := Building(s.version), clock := at, lastStart := at)
    case Build => s.(phase := Putting(s.phase.floor), built := Max(s.built, s.phase.floor))
    case Put(ok) => s.(phase := Idle, delivered := if ok then s.phase.floor else s.delivered)
    case FlushStart => s.(flushes := s.flushes + [s.version])
    case FlushEnd(i, ok) =>
      s.(flushes := s.flushes[..i] + s.flushes[i + 1..], built := Max(s.built, s.flushes[i]),
         delivered := if ok then s.flushes[i] else s.delivered)
    case Wait(n) => s.(clock := s.clock + n)
    case Stop => s.(stopped := true)
    case Exit => s.(phase := Exited)
  }

  predicate Run(s: State, debounce: nat, steps: seq<Step>)
    decreases |steps|
  {
    steps == [] || (Enabled(s, steps[0]) && Run(Do(s, debounce, steps[0]), debounce, steps[1..]))
  }

  function After(s: State, debounce: nat, steps: seq<Step>): State
    requires Run(s, debounce, steps)
    decreases |steps|
  {
    if steps == [] then s else After(Do(s, debounce, steps[0]), debounce, steps[1..])
  }

  // Only a successful PUT delivers.
  lemma {:induction false} FailuresDeliverNothing(s: State, debounce: nat, steps: seq<Step>)
    requires Run(s, debounce, steps)
    requires forall step | step in steps :: (step.Put? ==> !step.ok) && (step.FlushEnd? ==> !step.sent)
    ensures After(s, debounce, steps).delivered == s.delivered
    decreases |steps|
  {
    if steps != [] {
      assert steps[0] in steps;
      FailuresDeliverNothing(Do(s, debounce, steps[0]), debounce, steps[1..]);
    }
  }

  // The goroutine can be stopped from wherever it is, after at most one build
  // and its PUT.
  lemma {:induction false} StopExits(s: State, debounce: nat) returns (steps: seq<Step>)
    requires !s.phase.Exited?
    ensures |steps| <= if s.phase.Building? then 4 else if s.phase.Putting? then 3 else 2
    ensures Run(s, debounce, steps) && After(s, debounce, steps).phase.Exited?
    decreases if s.phase.Building? then 2 else if s.phase.Putting? then 1 else 0
  {
    if s.phase.Building? || s.phase.Putting? {
      var first := if s.phase.Building? then Build else Put(false);
      var rest := StopExits(Do(s, debounce, first), debounce);
      steps := [first] + rest;
      assert steps[1..] == rest;
    } else {
      steps := [Stop, Exit];
      assert steps[1..] == [Exit] && [Exit][1..] == [];
      var t := Do(s, debounce, Stop);
      assert Run(t, debounce, [Exit]) && After(t, debounce, [Exit]) == Do(t, debounce, Exit);
    }
  }

  // ----- no change is lost -----

  ghost predicate Sound(s: State) {
    && s.built <= s.version && s.delivered <= s.built
    && (forall f | f in s.flushes :: f <= s.version)
    && (s.phase.Building? ==> s.phase.floor <= s.version)
    && (s.phase.Putting? ==> s.phase.floor <= s.built)
  }

  // A change not yet built is on its way: its notification is pending, the
  // token is queued, the goroutine is collecting or its build started after it.
  ghost predicate Covered(s: State) {
    || s.built == s.version
    || s.notifying > 0
    || s.token
    || s.phase.Collecting?
    || (s.phase.Building? && s.phase.floor == s.version)
    || s.phase.Exited?
  }

  // A timer deadline lies a full debounce after the previous build started.
  ghost predicate Spaced(s: State, debounce: nat) {
    && s.lastStart <= s.clock
    && (s.phase.Collecting? ==> s.phase.deadline >= s.lastStart + debounce)
  }

  ghost predicate Inv(s: State, debounce: nat) {
    Sound(s) && Covered(s) && Spaced(s, debounce)
  }

  lemma SoundStep(s: State, debounce: nat, step: Step)
    requires Sound(s) && Enabled(s, step)
    ensures Sound(Do(s, debounce, step))
  {
    var t := Do(s, debounce, step);
    if step.FlushEnd? {
      assert s.flushes[step.i] in s.flushes;
      assert forall f | f in t.flushes :: f in s.flushes;
    } else if step.FlushStart? {
      assert forall f | f in t.flushes :: f in s.flushes || f == s.version;
    }
  }

  lemma CoveredStep(s: State, debounce: nat, step: Step)
    requires Sound(s) && Covered(s) && Enabled(s, step)
    ensures Covered(Do(s, debounce, step))
  {
    match step
    case FlushEnd(i, _) =>
      assert s.flushes[i] in s.flushes;
      assert Do(s, debounce, step).built == Max(s.built, s.flushes[i]) <= s.version;
    case Build =>
      assert Do(s, debounce, step).built == Max(s.built, s.phase.floor);
    case Take =>
    case _ =>
  }

  lemma InvStep(s: State, debounce: nat, step: Step)
    requires Inv(s, debounce) && Enabled(s, step)
    ensures Inv(Do(s, debounce, step), debounce)
  {
    SoundStep(s, debounce, step);
    CoveredStep(s, debounce, step);
    assert Spaced(Do(s, debounce, step), debounce);
    hide Sound, Covered, Spaced, Do;
  }

  lemma {:induction false} InvAlways(s: State, debounce: nat, steps: seq<Step>)
    requires Inv(s, debounce) && Run(s, debounce, steps)
    ensures Inv(After(s, debounce, steps), debounce)
    decreases |steps|
  {
    if steps != [] {
      InvStep(s, debounce, steps[0]);
      InvAlways(Do(s, debounce, steps[0]), debounce, steps[1..]);
    }
  }

  ghost predicate Quiescent(s: State) {
    s.notifying == 0 && !s.token && s.phase.Idle?
  }

  // In every interleaving: once no notification is pending, the channel is
  // empty and the goroutine is idle, the newest build includes every change.
  lemma NoLostChange(clock: int, debounce: nat, steps: seq<Step>)
    requires Run(Initial(clock, debounce), debounce, steps)
    ensures var s := After(Initial(clock, debounce), debounce, steps);
            Quiescent(s) ==> s.built == s.version
  {
    InvAlways(Initial(clock, debounce), debounce, steps);
  }

  // A Flush that started after the last change leaves nothing unbuilt, even
  // when the goroutine has already exited.
  lemma FlushCatchesUp(clock: int, debounce: nat, steps: seq<Step>, i: nat, ok: bool)
    requires Run(Initial(clock, debounce), debounce, steps)
    requires var s := After(Initial(clock, debounce), debounce, steps);
             i < |s.flushes| && s.flushes[i] == s.version
    ensures var s := After(Initial(clock, debounce), debounce, steps);
            Do(s, debounce, FlushEnd(i, ok)).built == s.version
  {
    InvAlways(Initial(clock, debounce), debounce, steps);
  }

  // Builds of the goroutine start at least one debounce apart.
  lemma BuildsSpaced(clock: int, debounce: nat, steps: seq<Step>, late: nat)
    requires Run(Initial(clock, debounce), debounce, steps)
    requires After(Initial(clock, debounce), debounce, steps).phase.Collecting?
    ensures var s := After(Initial(clock, debounce), debounce, steps);
            Do(s, debounce, Fire(late)).lastStart >= s.lastStart + debounce
  {
    InvAlways(Initial(clock, debounce), debounce, steps);
  }

  // ----- progress -----

  // Steps the pending notifiers and the goroutine take by themselves.
  predicate Internal(step: Step) {
    step.Notify? || step.Take? || step.Eat? || step.Fire? || step.Build? || step.Put?
  }

  function Work(s: State): nat {
    6 * s.notifying + (if s.token then 5 else 0) +
    match s.phase
    case Idle => 0
    case Collecting(_) => 3
    case Building(_) => 2
    case Putting(_) => 1
    case Exited => 0
  }

  // A notification taken, first or later, holds back every build that the
  // goroutine starts afterwards for a full debounce.
  lemma FullDebounce(s: State, debounce: nat, step: Step, steps: seq<Step>, late: nat)
    requires (step.Take? || step.Eat?) && Enabled(s, step) && (step.Take? ==> debounce > 0)
    requires Run(Do(s, debounce, step), debounce, steps) && Enabled(After(Do(s, debounce, step), debounce, steps), Fire(late))
    ensures Do(After(Do(s, debounce, step), debounce, steps), debounce, Fire(late)).lastStart >= s.clock + debounce
  {
    HeldBackAlways(Do(s, debounce, step), debounce, steps, s.clock + debounce);
  }

  ghost predicate HeldBack(s: State, until: int) {
    s.clock >= until || s.phase.Exited? || (s.phase.Collecting? && s.phase.deadline >= until)
  }

  lemma {:induction false} HeldBackAlways(s: State, debounce: nat, steps: seq<Step>, until: int)
    requires Run(s, debounce, steps) && HeldBack(s, until) && until <= s.clock + debounce
    ensures HeldBack(After(s, debounce, steps), until)
    decreases |steps|
  {
    if steps != [] {
      HeldBackAlways(Do(s, debounce, steps[0]), debounce, steps[1..], until);
    }
  }

  // Without new changes the machine comes to rest after at most Work steps.
  lemma {:induction false} ComesToRest(s: State, debounce: nat, steps: seq<Step>)
    requires Run(s, debounce, steps) && forall step | step in steps :: Internal(step)
    ensures |steps| + Work(After(s, debounce, steps)) <= Work(s)
    decreases |steps|
  {
    if steps != [] {
      assert Internal(steps[0]);
      ComesToRest(Do(s, debounce, steps[0]), debounce, steps[1..]);
    }
  }

  // And where it cannot move on its own and has not exited, it is quiescent.
  lemma RestIsQuiescent(s: State)
    requires forall step | Internal(step) :: !Enabled(s, step)
    requires !s.phase.Exited?
    ensures Quiescent(s)
  {
    assert !Enabled(s, Notify) && !Enabled(s, Take) && !Enabled(s, Fire(0)) && !Enabled(s, Build) && !Enabled(s, Put(true));
  }

  // ----- delivery -----

  // Every PUT of the step reaches the receiver.
  predicate Succeeds(step: Step) {
    (step.Put? ==> step.ok) && (step.FlushEnd? ==> step.sent)
  }

  // What is being built or delivered is current, or a newer build is on its way.
  ghost predicate Announced(s: State) {
    && (s.phase.Building? && s.phase.floor != s.version ==> s.notifying > 0 || s.token)
    && (s.phase.Putting? && s.phase.floor != s.version ==> s.notifying > 0 || s.token)
  }

  // A delivery by the goroutine is still coming.
  predicate Busy(s: State) {
    s.notifying > 0 || s.token || !s.phase.Idle?
  }

  // A delivery by the goroutine or a Flush is still coming.
  predicate Pending(s: State) {
    Busy(s) || s.flushes != []
  }

  predicate AllCurrent(s: State) {
    forall f | f in s.flushes :: f == s.version
  }

  // The last delivery will be the current version; `quiet` says that the
  // goroutine alone sees to that.
  ghost predicate OnCourse(s: State, quiet: bool) {
    Announced(s) && AllCurrent(s) && (s.delivered == s.version || Busy(s) || (!quiet && s.flushes != []))
  }

  lemma AnnouncedStep(s: State, debounce: nat, step: Step)
    requires Announced(s) && Enabled(s, step)
    ensures Announced(Do(s, debounce, step))
  {
  }

  lemma {:induction false} AnnouncedAlways(s: State, debounce: nat, steps: seq<Step>)
    requires Announced(s) && Run(s, debounce, steps)
    ensures Announced(After(s, debounce, steps))
    decreases |steps|
  {
    if steps != [] {
      AnnouncedStep(s, debounce, steps[0]);
      hide Announced, Do, Enabled;
      AnnouncedAlways(Do(s, debounce, steps[0]), debounce, steps[1..]);
    }
  }

  // A change made while no Flush is in flight, and every other successful
  // step, leaves the emitter on course.
  lemma OnCourseStep(s: State, quiet: bool, debounce: nat, step: Step)
    requires OnCourse(s, quiet) && Enabled(s, step) && Succeeds(step)
    requires step.Change? ==> s.flushes == []
    ensures OnCourse(Do(s, debounce, step), quiet)
  {
    AnnouncedStep(s, debounce, step);
    var t := Do(s, debounce, step);
    match step
    case FlushStart =>
      assert forall f | f in t.flushes :: f in s.flushes || f == s.version;
    case FlushEnd(i, _) =>
      assert s.flushes[i] in s.flushes;
      assert forall f | f in t.flushes :: f in s.flushes;
    case Put(_) =>
    case _ =>
  }

  // A run in which every PUT succeeds and no change falls into a Flush.
  ghost predicate Apart(s: State, debounce: nat, steps: seq<Step>)
    requires Run(s, debounce, steps)
    decreases |steps|
  {
    steps == [] ||
    (Succeeds(steps[0]) && (steps[0].Change? ==> s.flushes == []) && Apart(Do(s, debounce, steps[0]), debounce, steps[1..]))
  }

  lemma {:induction false} OnCourseAlways(s: State, quiet: bool, debounce: nat, steps: seq<Step>)
    requires OnCourse(s, quiet) && Run(s, debounce, steps) && Apart(s, debounce, steps)
    ensures OnCourse(After(s, debounce, steps), quiet)
    decreases |steps|
  {
    if steps != [] {
      OnCourseStep(s, quiet, debounce, steps[0]);
      hide OnCourse, Do, Enabled, Succeeds;
      OnCourseAlways(Do(s, debounce, steps[0]), quiet, debounce, steps[1..]);
    }
  }

  // As long as no change falls into a Flush, the last delivery at rest
  // includes every change, however many flushes there were.
  lemma DeliveredInOrder(clock: int, debounce: nat, steps: seq<Step>)
    requires Run(Initial(clock, debounce), debounce, steps) && Apart(Initial(clock, debounce), debounce, steps)
    ensures var s := After(Initial(clock, debounce), debounce, steps);
            Quiescent(s) ==> s.delivered == s.version
  {
    OnCourseAlways(Initial(clock, debounce), true, debounce, steps);
  }

  // Steps that make no change, deliver whatever they put, and end at rest.
  ghost predicate Settles(s: State, debounce: nat, steps: seq<Step>) {
    && Run(s, debounce, steps)
    && (forall step | step in steps :: !step.Change? && Succeeds(step))
    && Quiescent(After(s, debounce, steps))
    && After(s, debounce, steps).flushes == []
  }

  // What settling delivers last is the current version.
  ghost predicate SettlesCurrent(s: State, debounce: nat, steps: seq<Step>) {
    Settles(s, debounce, steps) ==> After(s, debounce, steps).delivered == After(s, debounce, steps).version
  }

  lemma {:induction false} UnchangedIsApart(s: State, debounce: nat, steps: seq<Step>)
    requires Run(s, debounce, steps) && forall step | step in steps :: !step.Change? && Succeeds(step)
    ensures Apart(s, debounce, steps)
    decreases |steps|
  {
    if steps != [] {
      assert steps[0] in steps;
      hide Do, Enabled, Succeeds;
      UnchangedIsApart(Do(s, debounce, steps[0]), debounce, steps[1..]);
    }
  }

  // The goroutine and the pending notifications run to rest, leaving the
  // flushes in flight where they are.
  lemma {:induction false} DrainToRest(s: State, debounce: nat) returns (steps: seq<Step>, end: State)
    requires !s.phase.Exited?
    ensures Reaches(s, debounce, steps, end)
    ensures Quiescent(end) && end.flushes == s.flushes && end.version == s.version
    decreases Work(s)
  {
    if Quiescent(s) {
      ReachesNone(s, debounce);
      return [], s;
    }
    var step :=
      if s.notifying > 0 then Notify
      else if s.phase.Idle? then Take
      else if s.phase.Collecting? then Fire(0)
      else if s.phase.Building? then Build
      else Put(true);
    var rest;
    rest, end := DrainToRest(Do(s, debounce, step), debounce);
    ReachesCons(s, debounce, step, rest, end);
    steps := [step] + rest;
  }

  // A settling sequence that has not yet to be at rest.
  ghost predicate Reaches(s: State, debounce: nat, steps: seq<Step>, end: State) {
    && Run(s, debounce, steps) && After(s, debounce, steps) == end
    && forall step | step in steps :: !step.Change? && Succeeds(step)
  }

  lemma ReachesNone(s: State, debounce: nat)
    ensures Reaches(s, debounce, [], s)
  {
  }

  lemma ReachesCons(s: State, debounce: nat, step: Step, rest: seq<Step>, end: State)
    requires Enabled(s, step) && !step.Change? && Succeeds(step)
    requires Reaches(Do(s, debounce, step), debounce, rest, end)
    ensures Reaches(s, debounce, [step] + rest, end)
  {
    var steps := [step] + rest;
    assert steps[1..] == rest;
    assert forall x | x in steps :: x == step || x in rest;
  }

  lemma {:induction false} ReachesThen(s: State, debounce: nat, first: seq<Step>, middle: State, second: seq<Step>, end: State)
    requires Reaches(s, debounce, first, middle) && Reaches(middle, debounce, second, end)
    ensures Reaches(s, debounce, first + second, end)
    decreases |first|
  {
    if first == [] {
      assert first + second == second;
    } else {
      assert first[0] in first;
      ReachesThen(Do(s, debounce, first[0]), debounce, first[1..], middle, second, end);
      ReachesCons(s, debounce, first[0], first[1..] + second, end);
      assert first + second == [first[0]] + (first[1..] + second);
    }
  }

  // All flushes in flight end, the i-th one last.
  lemma {:induction false} FinishLast(s: State, debounce: nat, i: nat) returns (steps: seq<Step>, end: State)
    requires Quiescent(s) && i < |s.flushes|
    ensures Reaches(s, debounce, steps, end)
    ensures Quiescent(end) && end.flushes == [] && end.version == s.version && end.delivered == s.flushes[i]
    decreases |s.flushes|
  {
    var j := if |s.flushes| == 1 then 0 else if i == 0 then 1 else 0;
    var step := FlushEnd(j, true);
    var t := Do(s, debounce, step);
    if |s.flushes| == 1 {
      ReachesNone(t, debounce);
      ReachesCons(s, debounce, step, [], t);
      return [step] + [], t;
    }
    var rest;
    rest, end := FinishLast(t, debounce, if i == 0 then 0 else i - 1);
    ReachesCons(s, debounce, step, rest, end);
    steps := [step] + rest;
  }

  // Whatever happened before: every way of settling without a further change
  // delivers the current version last if and only if every Flush in flight
  // started after the last change, and the emitter is not already at rest on
  // an older delivery.
  lemma SettlesCurrentExactly(clock: int, debounce: nat, past: seq<Step>)
    requires Run(Initial(clock, debounce), debounce, past)
    requires !After(Initial(clock, debounce), debounce, past).phase.Exited?
    ensures var s := After(Initial(clock, debounce), debounce, past);
            (forall steps :: SettlesCurrent(s, debounce, steps)) <==>
            AllCurrent(s) && (s.delivered == s.version || Pending(s))
  {
    var s := After(Initial(clock, debounce), debounce, past);
    AnnouncedAlways(Initial(clock, debounce), debounce, past);
    hide Run, After;
    if AllCurrent(s) && (s.delivered == s.version || Pending(s)) {
      forall steps
        ensures SettlesCurrent(s, debounce, steps)
      {
        if Settles(s, debounce, steps) {
          UnchangedIsApart(s, debounce, steps);
          OnCourseAlways(s, false, debounce, steps);
        }
      }
    } else {
      var steps := StaleSettling(s, debounce);
      assert !SettlesCurrent(s, debounce, steps);
    }
  }

  // The other half: run to rest, then end the stale Flush last.
  lemma StaleSettling(s: State, debounce: nat) returns (steps: seq<Step>)
    requires !s.phase.Exited?
    requires !AllCurrent(s) || (s.delivered != s.version && !Pending(s))
    ensures Settles(s, debounce, steps) && !SettlesCurrent(s, debounce, steps)
  {
    if AllCurrent(s) {
      steps := [];
      ReachesNone(s, debounce);
    } else {
      var i: nat :| i < |s.flushes| && s.flushes[i] != s.version;
      var first, middle := DrainToRest(s, debounce);
      var second, end := FinishLast(middle, debounce, i);
      ReachesThen(s, debounce, first, middle, second, end);
      steps := first + second;
    }
  }

  // A Flush that overlaps a change may deliver last what it read first.
  lemma StaleFlush(clock: int)
    ensures var steps := [FlushStart, Change, Notify, Take, Build, Put(true), FlushEnd(0, true)];
            && Run(Initial(clock, 0), 0, steps)
            && Quiescent(After(Initial(clock, 0), 0, steps)) && After(Initial(clock, 0), 0, steps).flushes == []
            && After(Initial(clock, 0), 0, steps).delivered < After(Initial(clock, 0), 0, steps).version
  {
    var steps := [FlushStart, Change, Notify, Take, Build, Put(true), FlushEnd(0, true)];
    var s := Initial(clock, 0);
    var s4 := State(1, 0, false, Building(1), [0], false, 0, 0, clock, clock);
    StaleFlushStarts(clock, steps);
    assert steps[4..][1..] == steps[5..] && steps[5..][1..] == steps[6..] && steps[6..][1..] == [];
    var s5 := Do(s4, 0, Build);
    var s6 := Do(s5, 0, Put(true));
    hide Run, After;
    Unfold(s4, 0, steps[4..]);
    Unfold(s5, 0, steps[5..]);
    Unfold(s6, 0, steps[6..]);
    Done(Do(s6, 0, FlushEnd(0, true)), 0);
  }

  // The Flush reads, then a change starts a build of the goroutine.
  lemma StaleFlushStarts(clock: int, steps: seq<Step>)
    requires |steps| >= 4 && steps[..4] == [FlushStart, Change, Notify, Take]
    ensures var s := Initial(clock, 0);
            var s4 := State(1, 0, false, Building(1), [0], false, 0, 0, clock, clock);
            && (Run(s, 0, steps) <==> Run(s4, 0, steps[4..]))
            && (Run(s, 0, steps) ==> After(s, 0, steps) == After(s4, 0, steps[4..]))
  {
    hide Run, After;
    var s := Initial(clock, 0);
    assert steps[0] == steps[..4][0] && steps[1] == steps[..4][1] && steps[2] == steps[..4][2] && steps[3] == steps[..4][3];
    assert steps[1..][1..] == steps[2..] && steps[2..][1..] == steps[3..] && steps[3..][1..] == steps[4..];
    var s1 := Do(s, 0, FlushStart);
    var s2 := Do(s1, 0, Change);
    var s3 := Do(s2, 0, Notify);
    Unfold(s, 0, steps);
    Unfold(s1, 0, steps[1..]);
    Unfold(s2, 0, steps[2..]);
    Unfold(s3, 0, steps[3..]);
    assert Do(s3, 0, Take) == State(1, 0, false, Building(1), [0], false, 0, 0, clock, clock);
  }

  lemma Done(s: State, debounce: nat)
    ensures Run(s, debounce, []) && After(s, debounce, []) == s
  {
  }

  lemma Unfold(s: State, debounce: nat, steps: seq<Step>)
    requires steps != [] && Enabled(s, steps[0])
    ensures Run(s, debounce, steps) <==> Run(Do(s, debounce, steps[0]), debounce, steps[1..])
    ensures Run(s, debounce, steps) ==> After(s, debounce, steps) == After(Do(s, debounce, steps[0]), debounce, steps[1..])
  {
  }
}
