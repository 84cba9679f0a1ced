/**
 The rolling token budget (internal/llm/budget.go) and the provider that checks
 it before a call and records after it (internal/llm/budgeted.go).
 */
module Budget {

  // 24 hours in nanoseconds.
  const DEFAULT_WINDOW := 86_400_000_000_000

  datatype Entry = Entry(ts: int, input: int, output: int)

  datatype Dimension = Input | Output

  function Amount(e: Entry, d: Dimension): int {
    if d.Input? then e.input else e.output
  }

  // The entries not older than the cutoff.
  function Since(s: seq<Entry>, cutoff: int): (r: seq<Entry>)
    ensures |r| <= |s|
  {
    if s == [] then []
    else Since(s[..|s| - 1], cutoff) + if s[|s| - 1].ts >= cutoff then [s[|s| - 1]] else []
  }

  function Sum(s: seq<Entry>, d: Dimension): int {
    if s == [] then 0 else Sum(s[..|s| - 1], d) + Amount(s[|s| - 1], d)
  }

  lemma {:induction false} SinceSince(s: seq<Entry>, early: int, late: int)
    requires early <= late
    ensures Since(Since(s, early), late) == Since(s, late)
  {
    if s != [] {
      var front, last := s[..|s| - 1], s[|s| - 1];
      SinceSince(front, early, late);
      if last.ts >= early {
        SinceAppend(Since(front, early), last, late);
      } else {
        assert Since(s, early) == Since(front, early);
      }
    }
  }

  lemma SinceAppend(s: seq<Entry>, e: Entry, cutoff: int)
    ensures Since(s + [e], cutoff) == if e.ts >= cutoff then Since(s, cutoff) + [e] else Since(s, cutoff)
  {
    assert (s + [e])[..|s|] == s;
  }

  // Entries equal to the history's from an early cutoff on stay equal from a later one.
  lemma PruneKeeps(kept: seq<Entry>, history: seq<Entry>, early: int, late: int)
    requires early <= late && Since(kept, early) == Since(history, early)
    ensures Since(kept, late) == Since(history, late)
    ensures Since(Since(history, late), late) == Since(history, late)
  {
    hide Since;
    SinceSince(kept, early, late);
    SinceSince(history, early, late);
    SinceSince(history, late, late);
  }

  lemma PrunedAppend(history: seq<Entry>, e: Entry, cutoff: int)
    requires e.ts >= cutoff
    ensures Since(Since(history, cutoff) + [e], cutoff) == Since(history + [e], cutoff)
  {
    SinceAppend(Since(history, cutoff), e, cutoff);
    SinceAppend(history, e, cutoff);
    SinceSince(history, cutoff, cutoff);
  }

  lemma SumAppend(s: seq<Entry>, e: Entry, d: Dimension)
    ensures Sum(s + [e], d) == Sum(s, d) + Amount(e, d)
  {
    assert (s + [e])[..|s|] == s;
  }

  // One more entry inside the window raises each total by its own number.
  lemma RecordCounts(history: seq<Entry>, e: Entry, cutoff: int)
    requires e.ts >= cutoff
    ensures forall baseline :: Total(history + [e], baseline, cutoff, Input) == Total(history, baseline, cutoff, Input) + e.input
    ensures forall baseline :: Total(history + [e], baseline, cutoff, Output) == Total(history, baseline, cutoff, Output) + e.output
  {
    SinceAppend(history, e, cutoff);
    SumAppend(Since(history, cutoff), e, Input);
    SumAppend(Since(history, cutoff), e, Output);
  }

  // The window keeps every recent entry as often as it was recorded.
  lemma {:induction false} SinceExact(s: seq<Entry>, cutoff: int, e: Entry)
    ensures multiset(Since(s, cutoff))[e] == if e.ts >= cutoff then multiset(s)[e] else 0
  {
    if s != [] {
      var front, last := s[..|s| - 1], s[|s| - 1];
      SinceExact(front, cutoff, e);
      assert s == front + [last];
      assert multiset(s)[e] == multiset(front)[e] + multiset([last])[e];
      assert multiset(Since(s, cutoff))[e] == multiset(Since(front, cutoff))[e] + if last.ts >= cutoff then multiset([last])[e] else 0;
    }
  }

  // What the budget reports in one dimension: the baseline plus every entry
  // ever recorded that lies inside the window.
  function Total(history: seq<Entry>, baseline: int, cutoff: int, d: Dimension): int {
    baseline + Sum(Since(history, cutoff), d)
  }

  predicate Allowed(input: int, output: int, inputCap: int, outputCap: int) {
    !(inputCap > 0 && input >= inputCap) && !(outputCap > 0 && output >= outputCap)
  }

  // Moves the first len entries that are not older than the cutoff to the front.
  method Compact(a: array<Entry>, len: nat, cutoff: int) returns (n: nat)
    requires len <= a.Length
    modifies a
    ensures n <= len
    ensures a[..n] == Since(old(a[..len]), cutoff)
  {
    hide Since;
    n := 0;
    ghost var was := a[..len];
    for i := 0 to len
      invariant 0 <= n <= i <= len
      invariant a[..n] == Since(was[..i], cutoff)
      invariant forall k | i <= k < len :: a[k] == was[k]
    {
      var e := a[i];
      assert was[..i + 1] == was[..i] + [e];
      SinceAppend(was[..i], e, cutoff);
      if !(e.ts < cutoff) {
        ghost var kept := a[..n];
        a[n] := e;
        n := n + 1;
        assert a[..n] == kept + [e];
      }
    }
    assert was[..len] == was;
  }

  // A larger array with the same first n entries.
  method Grown(a: array<Entry>, n: nat, filler: Entry) returns (b: array<Entry>)
    requires n <= a.Length
    ensures fresh(b) && b.Length > n && b[..n] == a[..n]
  {
    b := new Entry[2 * n + 1](_ => filler);
    for i := 0 to n
      modifies b
      invariant b[..i] == a[..i]
    {
      b[i] := a[i];
    }
  }

  // Appends in place, or to a grown copy when the array is full.
  method Push(a: array<Entry>, n: nat, e: Entry) returns (b: array<Entry>)
    requires n <= a.Length
    modifies a
    ensures b == a || fresh(b)
    ensures b.Length > n && b[..n + 1] == old(a[..n]) + [e]
  {
    b := a;
    if n == a.Length {
      b := Grown(a, n, e);
    }
    b[n] := e;
  }

  method SumFirst(a: array<Entry>, n: nat) returns (input: int, output: int)
    requires n <= a.Length
    ensures input == Sum(a[..n], Input) && output == Sum(a[..n], Output)
  {
    input, output := 0, 0;
    for i := 0 to n
      invariant input == Sum(a[..i], Input)
      invariant output == Sum(a[..i], Output)
    {
      assert a[..i + 1] == a[..i] + [a[i]];
      SumAppend(a[..i], a[i], Input);
      SumAppend(a[..i], a[i], Output);
      input := input + a[i].input;
      output := output + a[i].output;
      hide Sum;
    }
  }

  class TokenBudget {
    var entries: array<Entry>
    var len: nat
    var baselineInput: int
    var baselineOutput: int
    const window: int
    ghost var history: seq<Entry>
    ghost var clock: int

    ghost predicate Valid()
      reads this, entries
    {
      && len <= entries.Length
      && window >= 0
      && baselineInput >= 0
      && baselineOutput >= 0
      && Since(entries[..len], clock - window) == Since(history, clock - window)
    }

    constructor (now: int)
      ensures Valid() && fresh(entries)
      ensures history == [] && clock == now && window == 24 * 3600 * 1_000_000_000
      ensures baselineInput == 0 && baselineOutput == 0
    {
      entries := new Entry[0];
      len := 0;
      baselineInput := 0;
      baselineOutput := 0;
      window := DEFAULT_WINDOW;
      history := [];
      clock := now;
    }

    // Compacts the kept entries to the front of the array.
    method Prune(now: int)
      requires Valid() && now >= clock
      modifies this`len, this`clock, entries
      ensures Valid() && clock == now
      ensures entries[..len] == Since(old(entries[..len]), now - window)
      ensures entries[..len] == Since(history, now - window)
    {
      hide Since;
      PruneKeeps(entries[..len], history, clock - window, now - window);
      len := Compact(entries, len, now - window);
      clock := now;
    }

    method Record(input: int, output: int, now: int)
      requires Valid() && now >= clock
      modifies this`entries, this`len, this`history, this`clock, entries
      ensures Valid() && clock == now
      ensures entries == old(entries) || fresh(entries)
      ensures history == old(history) + [Entry(now, input, output)]
      ensures Total(history, baselineInput, now - window, Input) == old(Total(history, baselineInput, now - window, Input)) + input
      ensures Total(history, baselineOutput, now - window, Output) == old(Total(history, baselineOutput, now - window, Output)) + output
      ensures forall l, n: nat | Enabled(old(Shared(now, n)), l, Step.Record(input, output)) ::
                Do(old(Shared(now, n)), l, Step.Record(input, output)) == Shared(now, n - 1)
    {
      hide Since, Total, Do, Enabled;
      var e := Entry(now, input, output);
      RecordCounts(history, e, now - window);
      forall l, n: nat | Enabled(Shared(now, n), l, Step.Record(input, output))
        ensures n > 0 && Do(Shared(now, n), l, Step.Record(input, output)) == Shared(now, n - 1).(history := history + [e])
      {
        RecordStep(Shared(now, n), l, input, output);
      }
      Prune(now);
      PrunedAppend(history, e, now - window);
      entries := Push(entries, len, e);
      len := len + 1;
      history := history + [e];
    }

    // What overlapping calls share, `inflight` of them being past the check.
    ghost function Shared(now: int, inflight: nat): State
      reads this
    {
      State(history, baselineInput, baselineOutput, now, inflight)
    }

    // Negative values are clamped to zero; the local entries are untouched.
    method SetBaseline(input: int, output: int)
      requires Valid()
      modifies this`baselineInput, this`baselineOutput
      ensures Valid()
      ensures baselineInput >= 0 && (input >= 0 ==> baselineInput == input) && (input < 0 ==> baselineInput == 0)
      ensures baselineOutput >= 0 && (output >= 0 ==> baselineOutput == output) && (output < 0 ==> baselineOutput == 0)
      ensures forall l, now, n: nat :: Do(old(Shared(now, n)), l, Refresh(input, output)) == Shared(now, n)
    {
      baselineInput := if input > 0 then input else 0;
      baselineOutput := if output > 0 then output else 0;
    }

    method Totals(now: int) returns (input: int, output: int)
      requires Valid() && now >= clock
      modifies this`len, this`clock, entries
      ensures Valid() && clock == now
      ensures input == Total(history, baselineInput, now - window, Input)
      ensures output == Total(history, baselineOutput, now - window, Output)
    {
      Prune(now);
      hide Since;
      var i, o := SumFirst(entries, len);
      return baselineInput + i, baselineOutput + o;
    }

    method Allow(inputCap: int, outputCap: int, now: int) returns (ok: bool)
      requires Valid() && now >= clock
      modifies this`len, this`clock, entries
      ensures Valid() && clock == now
      ensures ok <==> && (inputCap <= 0 || Total(history, baselineInput, now - window, Input) < inputCap)
                      && (outputCap <= 0 || Total(history, baselineOutput, now - window, Output) < outputCap)
      ensures forall l: Limits, n: nat | n < l.overlap && l.inputCap == inputCap && l.outputCap == outputCap && l.window == window ::
                Do(Shared(now, n), l, Check) == Shared(now, if ok then n + 1 else n)
    {
      var input, output := Totals(now);
      hide Total, Do, Reported;
      forall l: Limits, n: nat | n < l.overlap && l.inputCap == inputCap && l.outputCap == outputCap && l.window == window
        ensures Do(Shared(now, n), l, Check) == Shared(now, if Allowed(input, output, inputCap, outputCap) then n + 1 else n)
      {
        CheckStep(Shared(now, n), l);
      }
      if inputCap > 0 && input >= inputCap {
        return false;
      }
      if outputCap > 0 && output >= outputCap {
        return false;
      }
      return true;
    }
  }

  function Clamped(n: int): nat {
    if n > 0 then n else 0
  }

  // ----- overlapping calls -----

  // Shared state of any number of overlapping calls; `inflight` counts those
  // past the check that have not yet recorded or failed.
  datatype State = State(history: seq<Entry>, baselineInput: int, baselineOutput: int, clock: int, inflight: nat)

  datatype Step =
    | Check
    | Fail
    | Record(input: int, output: int)
    | Refresh(newInput: int, newOutput: int)
    | Wait(nanos: nat)

  // Caps, window, the largest number of overlapping calls and the most input and
  // output tokens that one call uses.
  datatype Limits = Limits(inputCap: int, outputCap: int, window: nat, overlap: nat, inputUsage: nat, outputUsage: nat)

  function Cap(l: Limits, d: Dimension): int {
    if d.Input? then l.inputCap else l.outputCap
  }

  function Usage(l: Limits, d: Dimension): nat {
    if d.Input? then l.inputUsage else l.outputUsage
  }

  function Baseline(s: State, d: Dimension): int {
    if d.Input? then s.baselineInput else s.baselineOutput
  }

  function Local(s: State, l: Limits, d: Dimension): int {
    Sum(Since(s.history, s.clock - l.window), d)
  }

  function Reported(s: State, l: Limits, d: Dimension): int {
    Total(s.history, Baseline(s, d), s.clock - l.window, d)
  }

  predicate Enabled(s: State, l: Limits, step: Step) {
    match step
    case Check => s.inflight < l.overlap
    case Fail => s.inflight > 0
    case Record(i, o) => s.inflight > 0 && 0 <= i <= l.inputUsage && 0 <= o <= l.outputUsage
    case Refresh(_, _) => true
    case Wait(_) => true
  }

  function Do(s: State, l: Limits, step: Step): State
    requires Enabled(s, l, step)
  {
    match step
    case Check =>
      if Allowed(Reported(s, l, Input), Reported(s, l, Output), l.inputCap, l.outputCap)
      then s.(inflight := s.inflight + 1) else s
    case Fail => s.(inflight := s.inflight - 1)
    case Record(i, o) => s.(history := s.history + [Entry(s.clock, i, o)], inflight := s.inflight - 1)
    case Refresh(i, o) => s.(baselineInput := Clamped(i), baselineOutput := Clamped(o))
    case Wait(n) => s.(clock := s.clock + n)
  }

  lemma CheckStep(s: State, l: Limits)
    requires s.inflight < l.overlap
    ensures var ok := Allowed(Total(s.history, s.baselineInput, s.clock - l.window, Input),
                              Total(s.history, s.baselineOutput, s.clock - l.window, Output), l.inputCap, l.outputCap);
            Do(s, l, Check) == s.(inflight := if ok then s.inflight + 1 else s.inflight)
  {
    hide Total, Allowed;
  }

  lemma RecordStep(s: State, l: Limits, input: int, output: int)
    requires Enabled(s, l, Record(input, output))
    ensures s.inflight > 0
    ensures Do(s, l, Record(input, output)) == s.(history := s.history + [Entry(s.clock, input, output)], inflight := s.inflight - 1)
  {
  }

  predicate Run(s: State, l: Limits, steps: seq<Step>)
    decreases |steps|
  {
    steps == [] || (Enabled(s, l, steps[0]) && Run(Do(s, l, steps[0]), l, steps[1..]))
  }

  function After(s: State, l: Limits, steps: seq<Step>): State
    requires Run(s, l, steps)
    decreases |steps|
  {
    if steps == [] then s else After(Do(s, l, steps[0]), l, steps[1..])
  }

  ghost predicate NonNegative(s: seq<Entry>) {
    forall e | e in s :: e.input >= 0 && e.output >= 0
  }

  lemma {:induction false} SinceOnlyShrinks(s: seq<Entry>, early: int, late: int, d: Dimension)
    requires NonNegative(s) && early <= late
    ensures 0 <= Sum(Since(s, late), d) <= Sum(Since(s, early), d)
  {
    if s != [] {
      var front, last := s[..|s| - 1], s[|s| - 1];
      assert s == front + [last];
      assert last in s && NonNegative(front);
      SinceOnlyShrinks(front, early, late, d);
      SinceAppend(front, last, early);
      SinceAppend(front, last, late);
      SumAppend(Since(front, early), last, d);
      SumAppend(Since(front, late), last, d);
    }
  }

  // Inside every step: what is recorded plus what the calls in flight can still
  // record stays below the cap plus one full usage per overlapping call.
  ghost predicate Bounded(s: State, l: Limits, d: Dimension, baseline: int) {
    && NonNegative(s.history)
    && s.baselineInput >= 0 && s.baselineOutput >= 0
    && s.inflight <= l.overlap
    && baseline + Local(s, l, d) + s.inflight * Usage(l, d) <= Cap(l, d) - 1 + l.overlap * Usage(l, d)
  }

  lemma BoundedStep(s: State, l: Limits, d: Dimension, baseline: int, step: Step)
    requires Enabled(s, l, step) && Bounded(s, l, d, baseline) && Cap(l, d) > 0
    requires baseline == 0 || (baseline == Baseline(s, d) && !step.Refresh?)
    ensures Bounded(Do(s, l, step), l, d, baseline)
  {
    hide Since, Sum, Usage, Cap, Amount;
    var t := Do(s, l, step);
    match step
    case Check =>
      if t != s {
        CheckBelow(s, l, d);
        assert Baseline(s, d) + Local(s, l, d) <= Cap(l, d) - 1;
        Scaled(t.inflight, l.overlap, Usage(l, d));
      }
    case Fail =>
      Scaled(t.inflight, s.inflight, Usage(l, d));
    case Record(i, o) =>
      var e := Entry(s.clock, i, o);
      RecordedAtMost(l, i, o, d, s.clock);
      OneLess(s.inflight, Usage(l, d));
      SinceAppend(s.history, e, s.clock - l.window);
      SumAppend(Since(s.history, s.clock - l.window), e, d);
      assert Local(t, l, d) == Local(s, l, d) + Amount(e, d);
    case Refresh(_, _) =>
    case Wait(n) =>
      SinceOnlyShrinks(s.history, s.clock - l.window, t.clock - l.window, d);
  }

  lemma OneLess(a: nat, u: nat)
    requires a > 0
    ensures (a - 1) * u == a * u - u
  {
  }

  lemma CheckBelow(s: State, l: Limits, d: Dimension)
    requires Allowed(Reported(s, l, Input), Reported(s, l, Output), l.inputCap, l.outputCap) && Cap(l, d) > 0
    ensures Reported(s, l, d) <= Cap(l, d) - 1
  {
  }

  lemma RecordedAtMost(l: Limits, input: int, output: int, d: Dimension, clock: int)
    requires 0 <= input <= l.inputUsage && 0 <= output <= l.outputUsage
    ensures Amount(Entry(clock, input, output), d) <= Usage(l, d)
  {
  }

  lemma Scaled(a: nat, b: nat, u: nat)
    requires a <= b
    ensures a * u <= b * u
  {
  }

  lemma {:induction false} BoundedRun(s: State, l: Limits, d: Dimension, baseline: int, steps: seq<Step>)
    requires Run(s, l, steps) && Bounded(s, l, d, baseline) && Cap(l, d) > 0
    requires baseline == 0 || (baseline == Baseline(s, d) && forall step | step in steps :: !step.Refresh?)
    ensures Bounded(After(s, l, steps), l, d, baseline)
    ensures baseline == 0 || baseline == Baseline(After(s, l, steps), d)
    decreases |steps|
  {
    if steps != [] {
      BoundedStep(s, l, d, baseline, steps[0]);
      BoundedRun(Do(s, l, steps[0]), l, d, baseline, steps[1..]);
    }
  }

  function Fresh(input: nat, output: nat, clock: int): State {
    State([], input, output, clock, 0)
  }

  // With a fixed baseline below the cap, no interleaving of calls drives the
  // reported total above cap - 1 by more than one full usage per overlapping call.
  lemma OvershootBounded(l: Limits, input: nat, output: nat, clock: int, steps: seq<Step>, d: Dimension)
    requires Run(Fresh(input, output, clock), l, steps)
    requires forall step | step in steps :: !step.Refresh?
    requires 0 < Cap(l, d) && Baseline(Fresh(input, output, clock), d) < Cap(l, d)
    ensures Reported(After(Fresh(input, output, clock), l, steps), l, d) <= Cap(l, d) - 1 + l.overlap * Usage(l, d)
  {
    var s := Fresh(input, output, clock);
    Scaled(0, l.overlap, Usage(l, d));
    var t := After(s, l, steps);
    BoundedRun(s, l, d, Baseline(s, d), steps);
    Scaled(0, t.inflight, Usage(l, d));
    if Baseline(s, d) == 0 {
      FixedBaseline(s, l, steps, d);
    }
  }

  lemma {:induction false} FixedBaseline(s: State, l: Limits, steps: seq<Step>, d: Dimension)
    requires Run(s, l, steps) && forall step | step in steps :: !step.Refresh?
    ensures Baseline(After(s, l, steps), d) == Baseline(s, d)
    decreases |steps|
  {
    if steps != [] {
      FixedBaseline(Do(s, l, steps[0]), l, steps[1..], d);
    }
  }

  // Whatever baselines are pushed meanwhile, the locally recorded part obeys
  // the same bound.
  lemma LocalOvershootBounded(l: Limits, input: nat, output: nat, clock: int, steps: seq<Step>, d: Dimension)
    requires Run(Fresh(input, output, clock), l, steps)
    requires 0 < Cap(l, d)
    ensures Local(After(Fresh(input, output, clock), l, steps), l, d) <= Cap(l, d) - 1 + l.overlap * Usage(l, d)
  {
    var s := Fresh(input, output, clock);
    Scaled(0, l.overlap, Usage(l, d));
    BoundedRun(s, l, d, 0, steps);
    Scaled(0, After(s, l, steps).inflight, Usage(l, d));
  }

  // ----- the bound is attained -----

  function Repeat(step: Step, n: nat): seq<Step> {
    seq(n, _ => step)
  }

  lemma {:induction false} AllPass(s: State, l: Limits, n: nat)
    requires s.inflight + n <= l.overlap
    requires Allowed(Reported(s, l, Input), Reported(s, l, Output), l.inputCap, l.outputCap)
    ensures Run(s, l, Repeat(Check, n))
    ensures After(s, l, Repeat(Check, n)) == s.(inflight := s.inflight + n)
    decreases n
  {
    if n > 0 {
      var t := Do(s, l, Check);
      assert Reported(t, l, Input) == Reported(s, l, Input) && Reported(t, l, Output) == Reported(s, l, Output);
      hide Reported, Allowed;
      AllPass(t, l, n - 1);
      assert Repeat(Check, n)[1..] == Repeat(Check, n - 1);
    }
  }

  lemma {:induction false} AllRecord(s: State, l: Limits, n: nat, d: Dimension)
    requires n <= s.inflight
    ensures var steps := Repeat(Record(l.inputUsage, l.outputUsage), n);
            Run(s, l, steps) && Reported(After(s, l, steps), l, d) == Reported(s, l, d) + n * Usage(l, d)
    decreases n
  {
    hide *;
    var step := Record(l.inputUsage, l.outputUsage);
    RepeatCons(step, n);
    if n > 0 {
      RecordRaises(s, l, d);
      AllRecord(Do(s, l, step), l, n - 1, d);
      RunCons(s, l, Repeat(step, n));
      assert n * Usage(l, d) == (n - 1) * Usage(l, d) + Usage(l, d);
    } else {
      RunNil(s, l);
    }
  }

  lemma RepeatCons(step: Step, n: nat)
    ensures if n == 0 then Repeat(step, n) == []
            else Repeat(step, n) != [] && Repeat(step, n)[0] == step && Repeat(step, n)[1..] == Repeat(step, n - 1)
  {
  }

  lemma RunNil(s: State, l: Limits)
    ensures Run(s, l, []) && After(s, l, []) == s
  {
  }

  lemma RunCons(s: State, l: Limits, steps: seq<Step>)
    requires steps != [] && Enabled(s, l, steps[0]) && Run(Do(s, l, steps[0]), l, steps[1..])
    ensures Run(s, l, steps) && After(s, l, steps) == After(Do(s, l, steps[0]), l, steps[1..])
  {
  }

  lemma RecordRaises(s: State, l: Limits, d: Dimension)
    requires s.inflight > 0
    ensures Enabled(s, l, Record(l.inputUsage, l.outputUsage))
    ensures Do(s, l, Record(l.inputUsage, l.outputUsage)).inflight == s.inflight - 1
    ensures Reported(Do(s, l, Record(l.inputUsage, l.outputUsage)), l, d) == Reported(s, l, d) + Usage(l, d)
  {
    var e := Entry(s.clock, l.inputUsage, l.outputUsage);
    SinceAppend(s.history, e, s.clock - l.window);
    SumAppend(Since(s.history, s.clock - l.window), e, d);
    hide Since, Sum;
  }

  lemma {:induction false} RunThen(s: State, l: Limits, first: seq<Step>, second: seq<Step>)
    requires Run(s, l, first) && Run(After(s, l, first), l, second)
    ensures Run(s, l, first + second) && After(s, l, first + second) == After(After(s, l, first), l, second)
    decreases |first|
  {
    if first == [] {
      assert first + second == second;
    } else {
      assert (first + second)[1..] == first[1..] + second;
      RunThen(Do(s, l, first[0]), l, first[1..], second);
    }
  }

  function BelowCap(cap: int): nat {
    if cap > 0 then cap - 1 else 0
  }

  // All calls check just below the caps before any of them records: the bound
  // is reached in every capped dimension, for every overlap and usage.
  lemma OvershootAttained(l: Limits, clock: int, d: Dimension)
    requires Cap(l, d) > 0
    ensures var s := Fresh(BelowCap(l.inputCap), BelowCap(l.outputCap), clock);
            var steps := Repeat(Check, l.overlap) + Repeat(Record(l.inputUsage, l.outputUsage), l.overlap);
            Run(s, l, steps) && Reported(After(s, l, steps), l, d) == Cap(l, d) - 1 + l.overlap * Usage(l, d)
  {
    var s := Fresh(BelowCap(l.inputCap), BelowCap(l.outputCap), clock);
    assert Reported(s, l, Input) == BelowCap(l.inputCap) && Reported(s, l, Output) == BelowCap(l.outputCap);
    assert Reported(s, l, d) == Cap(l, d) - 1;
    AllPass(s, l, l.overlap);
    var t := After(s, l, Repeat(Check, l.overlap));
    assert Reported(t, l, d) == Reported(s, l, d);
    AllRecord(t, l, l.overlap, d);
    hide Reported;
    RunThen(s, l, Repeat(Check, l.overlap), Repeat(Record(l.inputUsage, l.outputUsage), l.overlap));
  }

  // ----- one call -----

  datatype Reply = Answer(input: int, output: int) | ProviderError

  datatype AskResult = Exhausted | Answered(input: int, output: int) | Errored

  // One call run alone: nothing reaches the provider once a cap is spent, and
  // only an answered call is charged.
  method Ask(b: TokenBudget, inputCap: int, outputCap: int, checkedAt: int, reply: Reply, recordedAt: int) returns (r: AskResult)
    requires b.Valid() && b.clock <= checkedAt <= recordedAt
    modifies b, b.entries
    ensures b.Valid()
    ensures b.baselineInput == old(b.baselineInput) && b.baselineOutput == old(b.baselineOutput)
    ensures r.Exhausted? <==> !Allowed(Total(old(b.history), b.baselineInput, checkedAt - b.window, Input),
                                       Total(old(b.history), b.baselineOutput, checkedAt - b.window, Output), inputCap, outputCap)
    ensures !r.Exhausted? ==> (r.Answered? <==> reply.Answer?)
    ensures b.history == old(b.history) + if r.Answered? then [Entry(recordedAt, r.input, r.output)] else []
    ensures r.Answered? ==> r.input == reply.input && r.output == reply.output
  {
    hide Total, Since;
    var ok := b.Allow(inputCap, outputCap, checkedAt);
    if !ok {
      return Exhausted;
    }
    match reply
    case ProviderError => return Errored;
    case Answer(i, o) =>
      b.Record(i, o, recordedAt);
      return Answered(i, o);
  }
}
