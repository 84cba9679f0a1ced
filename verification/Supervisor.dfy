/**
 The tenant supervisor and its concurrent updaters (internal/server/tenant.go),
 as interleaved atomic steps: every mutex section, channel operation and
 context cancellation is one step.
 */
module Supervisor {

  import opened Options

  datatype Status = StatusRunning | StatusQuarantined

  // The fields of Tenant that the steps share. `written` lists every
  // restart-relevant spec ever stored, the current one last; a version is an
  // index into it.
  datatype Shared<S> = Shared(
    written: seq<S>,
    runCancel: Option<nat>,
    status: Status,
    failures: nat,
    token: bool)

  // An update call in flight, after its critical section.
  datatype Updater =
    | Wrote(cancel: Option<nat>, liveOnly: bool)  // about to apply in place or to cancel
    | Cancelled                                   // about to signal a restart

  // `seen` are the versions the run has read so far.
  datatype Phase =
    | Top
    | Created(run: nat)
    | Running(run: nat, seen: set<nat>)
    | Panicked(seen: set<nat>)
    | Quarantined(seen: set<nat>)
    | Woken
    | Waiting(seen: set<nat>)
    | Stopped

  datatype State<S> = State(
    shared: Shared<S>,
    phase: Phase,
    nextRun: nat,
    cancelled: set<nat>,
    updaters: map<nat, Updater>,
    parentDone: bool,
    writes: nat,    // update calls that changed the spec
    restarts: nat)  // restart tokens taken

  datatype Action<S> =
    | Write(u: nat, spec: S)      // update: store a spec with a restart-relevant change
    | WriteLive(u: nat)           // update: store a spec that differs only in live facets
    | ApplyLive(u: nat)           // update: every changed facet was applied in place
    | CancelRun(u: nat)           // update: cancel the run it captured
    | Signal(u: nat)              // update: non-blocking send on the restart channel
    | StartRun
    | RegisterRun                 // setRunCancel
    | ReadSpec                    // one critical section that reads spec fields
    | FinishRun
    | PanicRun
    | EnterQuarantine
    | TakeToken
    | Revive                      // the quarantine backoff elapsed
    | MarkRunning
    | CancelParent
    | Stop

  // ----- the critical sections, as functions of the shared fields -----

  function Store<S>(sh: Shared<S>, spec: S): Shared<S> {
    sh.(written := sh.written + [spec])
  }

  function EnterQuarantineIn<S>(sh: Shared<S>): Shared<S> {
    sh.(failures := sh.failures + 1, status := StatusQuarantined)
  }

  function Enabled<S>(s: State<S>, a: Action<S>): bool {
    match a
    case Write(u, _) => u !in s.updaters
    case WriteLive(u) => u !in s.updaters
    case ApplyLive(u) => u in s.updaters && s.updaters[u].Wrote? && s.updaters[u].liveOnly
    case CancelRun(u) => u in s.updaters && s.updaters[u].Wrote?
    case Signal(u) => u in s.updaters && s.updaters[u].Cancelled?
    case StartRun => s.phase.Top? && !s.parentDone
    case RegisterRun => s.phase.Created?
    case ReadSpec => s.phase.Running? && s.shared.written != []
    case FinishRun => s.phase.Running?
    case PanicRun => s.phase.Running?
    case EnterQuarantine => s.phase.Panicked?
    case TakeToken => (s.phase.Waiting? || s.phase.Quarantined?) && s.shared.token
    case Revive => s.phase.Quarantined?
    case MarkRunning => s.phase.Woken?
    case CancelParent => true
    case Stop => s.parentDone && (s.phase.Top? || s.phase.Panicked? || s.phase.Waiting? || s.phase.Quarantined?)
  }

  function Do<S>(s: State<S>, a: Action<S>): State<S>
    requires Enabled(s, a)
  {
    match a
    case Write(u, spec) =>
      s.(shared := Store(s.shared, spec),
         updaters := s.updaters[u := Wrote(s.shared.runCancel, false)],
         writes := s.writes + 1)
    case WriteLive(u) =>
      s.(updaters := s.updaters[u := Wrote(s.shared.runCancel, true)], writes := s.writes + 1)
    case ApplyLive(u) =>
      s.(updaters := s.updaters - {u})
    case CancelRun(u) =>
      var c := s.updaters[u].cancel;
      s.(cancelled := s.cancelled + (if c.Some? then {c.value} else {}),
         updaters := s.updaters[u := Cancelled])
    case Signal(u) =>
      s.(shared := s.shared.(token := true), updaters := s.updaters - {u})
    case StartRun =>
      s.(phase := Created(s.nextRun), nextRun := s.nextRun + 1)
    case RegisterRun =>
      s.(shared := s.shared.(runCancel := Some(s.phase.run)), phase := Running(s.phase.run, {}))
    case ReadSpec =>
      s.(phase := Running(s.phase.run, s.phase.seen + {|s.shared.written| - 1}))
    case FinishRun =>
      s.(phase := Waiting(s.phase.seen), cancelled := s.cancelled + {s.phase.run})
    case PanicRun =>
      s.(phase := Panicked(s.phase.seen), cancelled := s.cancelled + {s.phase.run})
    case EnterQuarantine =>
      s.(shared := EnterQuarantineIn(s.shared), phase := Quarantined(s.phase.seen))
    case TakeToken =>
      s.(shared := s.shared.(token := false),
         phase := if s.phase.Quarantined? then Woken else Top,
         restarts := s.restarts + 1)
    case Revive =>
      s.(phase := Woken)
    case MarkRunning =>
      s.(shared := s.shared.(status := StatusRunning), phase := Top)
    case CancelParent =>
      s.(parentDone := true)
    case Stop =>
      s.(phase := Stopped)
  }

  function Init<S>(spec: S): State<S> {
    State(Shared([spec], None, StatusRunning, 0, false), Top, 0, {}, map[], false, 0, 0)
  }

  // One interleaving: the actions in order, each enabled when it is taken.
  ghost predicate Execution<S>(s: State<S>, actions: seq<Action<S>>, end: State<S>)
    decreases |actions|
  {
    if actions == [] then end == s
    else Enabled(s, actions[0]) && Execution(Do(s, actions[0]), actions[1..], end)
  }

  ghost predicate Reachable<S(!new)>(s: State<S>) {
    exists spec, actions :: Execution(Init(spec), actions, s)
  }

  // ----- what every interleaving keeps -----

  function Reads(p: Phase): set<nat> {
    match p
    case Running(_, seen) => seen
    case Panicked(seen) => seen
    case Quarantined(seen) => seen
    case Waiting(seen) => seen
    case _ => {}
  }

  // Every read saw the spec that is current now.
  predicate Fresh<S>(s: State<S>) {
    forall v | v in Reads(s.phase) :: v == |s.shared.written| - 1
  }

  // An update call that will still signal the supervisor.
  predicate WillSignal(u: Updater) {
    u.Cancelled? || !u.liveOnly
  }

  ghost predicate SignalComing<S>(s: State<S>) {
    s.shared.token || exists u :: u in s.updaters && WillSignal(s.updaters[u])
  }

  ghost predicate CancelComing<S>(s: State<S>, run: nat) {
    run in s.cancelled ||
    exists u :: u in s.updaters && s.updaters[u] == Wrote(Some(run), false)
  }

  ghost predicate Inv<S>(s: State<S>) {
    && s.shared.written != []
    && (forall v | v in Reads(s.phase) :: v < |s.shared.written|)
    && (s.phase.Running? ==> s.shared.runCancel == Some(s.phase.run))
    // no lost spec
    && (!Fresh(s) ==> SignalComing(s))
    && (!Fresh(s) && s.phase.Running? ==> CancelComing(s, s.phase.run))
    // coalescing
    && s.restarts + (if s.shared.token then 1 else 0) + |s.updaters| <= s.writes
    // status
    && (!s.phase.Stopped? ==>
          (s.shared.status == StatusQuarantined <==> s.phase.Quarantined? || s.phase.Woken?))
  }

  lemma InvInit<S>(spec: S)
    ensures Inv(Init(spec))
  {
  }

  lemma InvUpdaterStep<S>(s: State<S>, a: Action<S>)
    requires Inv(s) && Enabled(s, a)
    requires a.Write? || a.WriteLive? || a.ApplyLive? || a.CancelRun? || a.Signal?
    ensures Inv(Do(s, a))
  {
    var t := Do(s, a);
    assert t.updaters.Keys == if a.ApplyLive? || a.Signal? then s.updaters.Keys - {a.u} else s.updaters.Keys + {a.u};
    assert |t.updaters| == |t.updaters.Keys| && |s.updaters| == |s.updaters.Keys|;
    if !Fresh(t) {
      if !a.Write? {
        SignalKept(s, a);
      } else {
        assert a.u in t.updaters && WillSignal(t.updaters[a.u]);
      }
      if t.phase.Running? {
        if a.Write? {
          assert t.updaters[a.u] == Wrote(Some(t.phase.run), false);
        } else {
          CancelKept(s, a, t.phase.run);
        }
      }
    }
  }

  lemma SignalKept<S>(s: State<S>, a: Action<S>)
    requires Enabled(s, a) && SignalComing(s)
    requires a.WriteLive? || a.ApplyLive? || a.CancelRun? || a.Signal?
    ensures SignalComing(Do(s, a))
  {
    var t := Do(s, a);
    if !t.shared.token {
      var u :| u in s.updaters && WillSignal(s.updaters[u]);
      assert u in t.updaters && WillSignal(t.updaters[u]);
    }
  }

  lemma CancelKept<S>(s: State<S>, a: Action<S>, run: nat)
    requires Enabled(s, a) && CancelComing(s, run)
    requires a.WriteLive? || a.ApplyLive? || a.CancelRun? || a.Signal?
    ensures CancelComing(Do(s, a), run)
  {
    var t := Do(s, a);
    if run !in t.cancelled {
      var u :| u in s.updaters && s.updaters[u] == Wrote(Some(run), false);
      assert u in t.updaters && t.updaters[u] == Wrote(Some(run), false);
    }
  }

  lemma InvSupervisorStep<S>(s: State<S>, a: Action<S>)
    requires Inv(s) && Enabled(s, a)
    requires !(a.Write? || a.WriteLive? || a.ApplyLive? || a.CancelRun? || a.Signal?)
    ensures Inv(Do(s, a))
  {
    var t := Do(s, a);
    assert t.updaters == s.updaters && t.writes == s.writes && t.shared.written == s.shared.written;
    assert SignalComing(s) && !a.TakeToken? ==> SignalComing(t);
    match a
    case StartRun =>
    case RegisterRun =>
    case ReadSpec =>
      assert !Fresh(t) ==> !Fresh(s);
    case FinishRun =>
    case PanicRun =>
    case EnterQuarantine =>
    case TakeToken =>
    case Revive =>
    case MarkRunning =>
    case CancelParent =>
    case Stop =>
    case _ =>
  }

  lemma {:induction false} InvAlways<S>(s: State<S>, actions: seq<Action<S>>, end: State<S>)
    requires Inv(s) && Execution(s, actions, end)
    ensures Inv(end)
    decreases |actions|
  {
    if actions != [] {
      var a := actions[0];
      if a.Write? || a.WriteLive? || a.ApplyLive? || a.CancelRun? || a.Signal? {
        InvUpdaterStep(s, a);
      } else {
        InvSupervisorStep(s, a);
      }
      InvAlways(Do(s, a), actions[1..], end);
    }
  }

  // No spec update is lost. A run that has read anything but the current spec
  // is cancelled or about to be; a supervisor that waits after such a run has
  // a restart token or one on the way; and restarts never outnumber the
  // updates that ask for them.
  lemma NoLostSpec<S(!new)>(s: State<S>)
    requires Reachable(s)
    ensures !Fresh(s) && s.phase.Running? ==> CancelComing(s, s.phase.run)
    ensures !Fresh(s) ==> SignalComing(s)
    ensures s.restarts <= s.writes
  {
    var spec, actions :| Execution(Init(spec), actions, s);
    InvInit(spec);
    InvAlways(Init(spec), actions, s);
  }

  // Once every update call has returned: an uncancelled run has only read the
  // final spec, and so has the last run of a supervisor left waiting.
  lemma QuiescentIsFresh<S(!new)>(s: State<S>)
    requires Reachable(s) && s.updaters == map[]
    ensures s.phase.Running? && s.phase.run !in s.cancelled ==> Fresh(s)
    ensures (s.phase.Waiting? || s.phase.Quarantined?) && !s.shared.token ==> Fresh(s)
  {
    NoLostSpec(s);
  }

  // A waiting supervisor with a stale last run is restarted by at most three
  // steps of the pending calls, none of them a new write.
  lemma StaleWaitRestarts<S(!new)>(s: State<S>) returns (actions: seq<Action<S>>, end: State<S>)
    requires Reachable(s) && s.phase.Waiting? && !Fresh(s)
    ensures |actions| <= 3 && Execution(s, actions, end) && end.phase.Top?
    ensures forall i | 0 <= i < |actions| :: actions[i].CancelRun? || actions[i].Signal? || actions[i].TakeToken?
  {
    NoLostSpec(s);
    if s.shared.token {
      actions, end := TakeRestart(s);
    } else {
      var u :| u in s.updaters && WillSignal(s.updaters[u]);
      if s.updaters[u].Cancelled? {
        actions, end := SignalAndRestart(s, u);
      } else {
        var s1 := Do(s, CancelRun(u));
        var rest: seq<Action<S>>;
        rest, end := SignalAndRestart(s1, u);
        actions := [CancelRun(u)] + rest;
        assert actions[1..] == rest;
      }
    }
  }

  // The steps that pending update calls and the restart take by themselves.
  predicate Settling<S>(a: Action<S>) {
    a.ApplyLive? || a.CancelRun? || a.Signal? || a.TakeToken?
  }

  // The updaters that have still to cancel or to apply in place.
  ghost function NotCancelled<S>(s: State<S>): set<nat> {
    set u | u in s.updaters && s.updaters[u].Wrote?
  }

  ghost function PendingWork<S>(s: State<S>): nat {
    |s.updaters.Keys| + |NotCancelled(s)|
  }

  lemma SettlingStep<S>(s: State<S>, a: Action<S>)
    requires Enabled(s, a) && Settling(a) && !a.TakeToken?
    ensures PendingWork(Do(s, a)) < PendingWork(s)
    ensures Do(s, a).phase == s.phase && Do(s, a).shared.written == s.shared.written
  {
    var t := Do(s, a);
    if a.CancelRun? {
      assert t.updaters.Keys == s.updaters.Keys;
      assert NotCancelled(t) == NotCancelled(s) - {a.u} && a.u in NotCancelled(s);
    } else {
      assert t.updaters.Keys == s.updaters.Keys - {a.u};
      assert NotCancelled(t) == NotCancelled(s) - {a.u};
    }
  }

  // No schedule leaves a supervisor waiting after a stale run: without a new
  // write the pending calls take boundedly many steps, and as long as the
  // restart has not been taken some such step is possible.
  lemma {:induction false} CannotWaitForever<S(!new)>(s: State<S>, actions: seq<Action<S>>, end: State<S>)
    requires Inv(s) && s.phase.Waiting? && !Fresh(s) && Execution(s, actions, end)
    requires forall a | a in actions :: Settling(a) && !a.TakeToken?
    ensures |actions| + PendingWork(end) <= PendingWork(s)
    ensures end.phase == s.phase && !Fresh(end)
    ensures exists a :: Settling(a) && Enabled(end, a)
    decreases |actions|
  {
    if actions == [] {
      SomethingToDo(s);
    } else {
      var a := actions[0];
      assert Settling(a) && !a.TakeToken?;
      SettlingStep(s, a);
      InvUpdaterStep(s, a);
      hide Inv, PendingWork;
      CannotWaitForever(Do(s, a), actions[1..], end);
    }
  }

  lemma SomethingToDo<S(!new)>(s: State<S>)
    requires Inv(s) && s.phase.Waiting? && !Fresh(s)
    ensures exists a :: Settling(a) && Enabled(s, a)
  {
    if s.shared.token {
      assert Settling<S>(TakeToken) && Enabled(s, TakeToken);
    } else {
      var u :| u in s.updaters && WillSignal(s.updaters[u]);
      if s.updaters[u].Cancelled? {
        assert Settling<S>(Signal(u)) && Enabled(s, Signal(u));
      } else {
        assert Settling<S>(CancelRun(u)) && Enabled(s, CancelRun(u));
      }
    }
  }

  // In particular in every reachable state.
  lemma EveryScheduleRestarts<S(!new)>(s: State<S>, actions: seq<Action<S>>, end: State<S>)
    requires Reachable(s) && s.phase.Waiting? && !Fresh(s) && Execution(s, actions, end)
    requires forall a | a in actions :: Settling(a) && !a.TakeToken?
    ensures |actions| <= 2 * |s.updaters|
    ensures exists a :: Settling(a) && Enabled(end, a)
  {
    var spec, past :| Execution(Init(spec), past, s);
    InvInit(spec);
    InvAlways(Init(spec), past, s);
    hide Inv, Execution, Enabled, Do, Fresh;
    CannotWaitForever(s, actions, end);
    assert NotCancelled(s) <= s.updaters.Keys;
    Subset(NotCancelled(s), s.updaters.Keys);
    assert |s.updaters.Keys| == |s.updaters|;
  }

  lemma {:induction false} Subset(a: set<nat>, b: set<nat>)
    requires a <= b
    ensures |a| <= |b|
  {
    assert b == a + (b - a);
  }

  lemma SignalAndRestart<S>(s: State<S>, u: nat) returns (actions: seq<Action<S>>, end: State<S>)
    requires s.phase.Waiting? && u in s.updaters && s.updaters[u].Cancelled?
    ensures |actions| == 2 && Execution(s, actions, end) && end.phase.Top?
    ensures actions == [Signal(u), TakeToken]
  {
    var rest: seq<Action<S>>;
    rest, end := TakeRestart(Do(s, Signal(u)));
    actions := [Signal(u)] + rest;
    assert actions[1..] == rest;
  }

  lemma TakeRestart<S>(s: State<S>) returns (actions: seq<Action<S>>, end: State<S>)
    requires s.phase.Waiting? && s.shared.token
    ensures actions == [TakeToken] && Execution(s, actions, end) && end.phase.Top?
  {
    actions, end := [TakeToken], Do(s, TakeToken);
    assert Execution(end, actions[1..], end);
  }

  // ----- quarantine backoff -----

  function Pow2(n: nat): nat {
    if n == 0 then 1 else 2 * Pow2(n - 1)
  }

  function Backoff(base: nat, failures: nat): nat
    requires failures >= 1
  {
    base * Pow2(if failures - 1 < 5 then failures - 1 else 5)
  }

  // The backoff starts at the base, doubles with each further panic and stops at 32 bases.
  lemma BackoffShape(base: nat, failures: nat)
    requires failures >= 1
    ensures Backoff(base, 1) == base
    ensures failures < 6 ==> Backoff(base, failures + 1) == 2 * Backoff(base, failures)
    ensures failures >= 6 ==> Backoff(base, failures) == 32 * base
    ensures Backoff(base, failures) <= Backoff(base, failures + 1) <= 32 * base
  {
    assert Pow2(1) == 2 && Pow2(2) == 4 && Pow2(3) == 8 && Pow2(4) == 16 && Pow2(5) == 32;
  }

  // ----- the tenant object -----

  // A tenant's spec is its restart-relevant part and its live facets.
  class Tenant<S(==), L(==)> {
    const quarantineBase: nat
    var spec: S
    var live: L
    var runCancel: Option<nat>
    var status: Status
    var failures: nat
    var token: bool  // the one-slot restart channel
    var quarantineUntil: int

    ghost var written: seq<S>

    ghost predicate Valid()
      reads this
    {
      written != [] && written[|written| - 1] == spec
    }

    ghost function View(): Shared<S>
      reads this
    {
      Shared(written, runCancel, status, failures, token)
    }

    constructor (spec: S, live: L, quarantineBase: nat)
      ensures Valid() && View() == Init(spec).shared && this.live == live
    {
      this.quarantineBase := quarantineBase;
      this.spec, this.live := spec, live;
      runCancel, status, failures, token := None, StatusRunning, 0, false;
      written := [spec];
    }

    // The critical section of update: an equal spec changes nothing, any other
    // is stored whole and the run to cancel captured; only a change of the
    // restart-relevant part is a new version.
    method BeginUpdate(next: S, nextLive: L) returns (changed: bool, cancel: Option<nat>)
      requires Valid()
      modifies this
      ensures Valid() && spec == next && live == nextLive
      ensures changed <==> old(spec) != next || old(live) != nextLive
      ensures cancel == old(runCancel)
      ensures View() == if old(spec) != next then Store(old(View()), next) else old(View())
    {
      cancel := runCancel;
      changed := spec != next || live != nextLive;
      if !changed {
        return;
      }
      if spec != next {
        written := written + [next];
      }
      spec, live := next, nextLive;
    }

    // Non-blocking send: an already pending token absorbs this one.
    method SignalRestart()
      requires Valid()
      modifies this`token
      ensures Valid() && View() == old(View()).(token := true)
    {
      if !token {
        token := true;
      }
    }

    method TakeRestart() returns (ok: bool)
      requires Valid()
      modifies this`token
      ensures Valid() && ok == old(token) && View() == old(View()).(token := false)
    {
      ok := token;
      token := false;
    }

    method SetRunCancel(run: nat)
      requires Valid()
      modifies this`runCancel
      ensures Valid() && View() == old(View()).(runCancel := Some(run))
    {
      runCancel := Some(run);
    }

    method RecordPanic(now: int) returns (backoff: nat)
      requires Valid()
      modifies this`failures, this`status, this`quarantineUntil
      ensures Valid() && View() == EnterQuarantineIn(old(View()))
      ensures failures == old(failures) + 1 && status == StatusQuarantined
      ensures backoff == Backoff(quarantineBase, failures)
      ensures quarantineUntil == now + backoff
    {
      failures := failures + 1;
      var shift := if failures - 1 < 5 then failures - 1 else 5;
      backoff := quarantineBase;
      var i := 0;
      while i < shift
        invariant 0 <= i <= shift
        invariant backoff == quarantineBase * Pow2(i)
      {
        backoff := 2 * backoff;
        i := i + 1;
      }
      status := StatusQuarantined;
      quarantineUntil := now + backoff;
    }

    method MarkRunning()
      requires Valid()
      modifies this`status
      ensures Valid() && View() == old(View()).(status := StatusRunning)
    {
      status := StatusRunning;
    }
  }
}
