/**
 The schedule loop (internal/skill/scheduler.go): which minutes fire over a
 whole run of evaluations. Times are nanoseconds, due times of cron skills are
 minutes.
 */
module Scheduler {
  import opened Options
  import opened Text
  import opened Cron
  import CronField
  import Calendar

  datatype Cadence = Interval(period: int) | OnCron(spec: CronSpec)

  // A skill as ReplaceSkills sees it: NoCadence when it is not a schedule
  // skill or its schedule does not parse.
  datatype Skill = Skill(name: string, cadence: Parsed)
  datatype Parsed = HasCadence(value: Cadence) | NoCadence

  // The first due time strictly after an evaluation at `now`.
  function Advance(c: Cadence, now: int): int {
    match c
    case Interval(period) => now + period
    case OnCron(spec) => NextDue(spec, now) * 60_000_000_000
  }

  // `duration` is what time.ParseDuration makes of the trimmed text. One below
  // a minute is no interval; the text is then read as a cron expression.
  method ParseSchedule(schedule: string, duration: Option<int>) returns (r: Parsed)
    ensures TrimSpace(schedule) == "" ==> r == NoCadence
    ensures TrimSpace(schedule) != "" && duration.Some? && duration.value >= 60_000_000_000 ==>
              r == HasCadence(Interval(duration.value))
    ensures TrimSpace(schedule) != "" && (duration.None? || duration.value < 60_000_000_000) ==>
              if r.HasCadence? then r.value.OnCron? && ParsesTo(TrimSpace(schedule), CronField.Ok(r.value.spec))
              else exists e :: ParsesTo(TrimSpace(schedule), CronField.Err(e))
    ensures r.HasCadence? && r.value.OnCron? ==> Usable(r.value.spec)
    ensures r.HasCadence? && r.value.Interval? ==> r.value.period >= 60_000_000_000
  {
    hide ParsesTo, TrimSpace, Usable;
    var spec := TrimSpace(schedule);
    if spec == "" {
      return NoCadence;
    }
    if duration.Some? && !(duration.value < 60_000_000_000) {
      return HasCadence(Interval(duration.value));
    }
    var cron := ParseCron(spec);
    if cron.Err? {
      return NoCadence;
    }
    return HasCadence(OnCron(cron.value));
  }

  class Scheduled {
    const skill: string
    const cadence: Cadence
    var nextDue: int

    constructor (skill: string, cadence: Cadence, now: int)
      ensures this.skill == skill && this.cadence == cadence
      ensures nextDue == Advance(cadence, now)
    {
      this.skill := skill;
      this.cadence := cadence;
      this.nextDue := Advance(cadence, now);
    }
  }

  function Kept(skills: seq<Skill>): (kept: seq<Skill>)
    ensures forall i | 0 <= i < |kept| :: kept[i].cadence.HasCadence?
  {
    if skills == [] then []
    else
      var front := Kept(skills[..|skills| - 1]);
      var last := skills[|skills| - 1];
      if last.cadence.HasCadence? then front + [last] else front
  }

  // Every skill with a cadence is kept, in order, and no other.
  lemma KeptInOrder(before: seq<Skill>, sk: Skill, later: seq<Skill>)
    ensures Kept(before + [sk] + later) == Kept(before) + (if sk.cadence.HasCadence? then [sk] else []) + Kept(later)
  {
    KeptConcat(before, [sk]);
    KeptConcat(before + [sk], later);
    assert [sk][..0] == [];
  }

  lemma {:induction false} KeptConcat(a: seq<Skill>, b: seq<Skill>)
    ensures Kept(a + b) == Kept(a) + Kept(b)
    decreases |b|
  {
    if b == [] {
      assert a + b == a;
    } else {
      assert (a + b)[..|a + b| - 1] == a + b[..|b| - 1];
      KeptConcat(a, b[..|b| - 1]);
    }
  }

  // The item that installing the skill at `now` gives.
  ghost predicate Fits(it: Scheduled, sk: Skill, now: int)
    reads it
  {
    sk.cadence.HasCadence? && it.skill == sk.name && it.cadence == sk.cadence.value && it.nextDue == Advance(it.cadence, now)
  }

  lemma FitsNew(it: Scheduled, sk: Skill, now: int)
    requires sk.cadence.HasCadence? && it.skill == sk.name && it.cadence == sk.cadence.value && it.nextDue == Advance(it.cadence, now)
    ensures Fits(it, sk, now)
  {
  }

  class Scheduler {
    var items: seq<Scheduled>

    ghost predicate Valid()
      reads this
    {
      forall i, j | 0 <= i < j < |items| :: items[i] != items[j]
    }

    constructor ()
      ensures Valid() && items == []
    {
      items := [];
    }

    // Keeps the schedule skills, in order, each due at its first time after now.
    method ReplaceSkills(skills: seq<Skill>, now: int)
      modifies this
      ensures Valid()
      ensures |items| == |Kept(skills)|
      ensures forall i | 0 <= i < |items| :: fresh(items[i]) && Fits(items[i], Kept(skills)[i], now)
    {
      var kept: seq<Scheduled> := [];
      var k := 0;
      while k < |skills|
        invariant 0 <= k <= |skills|
        invariant |kept| == |Kept(skills[..k])|
        invariant forall i, j | 0 <= i < j < |kept| :: kept[i] != kept[j]
        invariant forall i | 0 <= i < |kept| :: fresh(kept[i]) && Fits(kept[i], Kept(skills[..k])[i], now)
      {
        assert skills[..k + 1][..k] == skills[..k];
        assert Kept(skills[..k + 1]) == if skills[k].cadence.HasCadence? then Kept(skills[..k]) + [skills[k]] else Kept(skills[..k]);
        hide Kept, Advance, Fits;
        if skills[k].cadence.HasCadence? {
          var item := new Scheduled(skills[k].name, skills[k].cadence.value, now);
          FitsNew(item, skills[k], now);
          kept := kept + [item];
        }
        k := k + 1;
      }
      assert skills[..k] == skills;
      items := kept;
    }

    // One evaluation: the due skills in order, each due again after now, the
    // others untouched.
    method Tick(now: int) returns (due: seq<string>)
      requires Valid()
      modifies items
      ensures Valid() && items == old(items)
      ensures forall i | 0 <= i < |items| ::
                items[i].nextDue ==
                if now < old(items[i].nextDue) then old(items[i].nextDue) else Advance(items[i].cadence, now)
      ensures due == old(DueNames(items, now))
    {
      due := [];
      var k := 0;
      while k < |items|
        invariant 0 <= k <= |items| && items == old(items)
        invariant forall i | k <= i < |items| :: items[i].nextDue == old(items[i].nextDue)
        invariant forall i | 0 <= i < k ::
                    items[i].nextDue ==
                    if now < old(items[i].nextDue) then old(items[i].nextDue) else Advance(items[i].cadence, now)
        invariant due == old(DueNames(items[..k], now))
      {
        var it := items[k];
        assert items[..k + 1][..k] == items[..k];
        if !(now < it.nextDue) {
          due := due + [it.skill];
          it.nextDue := Advance(it.cadence, now);
        }
        k := k + 1;
      }
      assert items[..k] == items;
    }

    // All evaluations of a run: what fires at each of them is determined by
    // every skill's cadence and first due time alone.
    method Run(ticks: seq<int>) returns (log: seq<seq<string>>)
      requires Valid()
      modifies items
      ensures Valid() && items == old(items)
      ensures forall i | 0 <= i < |items| ::
                items[i].nextDue == DueAfter(items[i].cadence, old(items[i].nextDue), ticks)
      ensures |log| == |ticks|
      ensures forall k | 0 <= k < |ticks| :: log[k] == DueList(old(Snapshot(items)), ticks[..k], ticks[k])
    {
      hide DueList, DueNames, Advance;
      log := [];
      ghost var installed := Snapshot(items);
      for n := 0 to |ticks|
        invariant Valid() && items == old(items)
        invariant forall i | 0 <= i < |items| :: items[i].nextDue == DueAfter(items[i].cadence, installed[i].due, ticks[..n])
        invariant |log| == n
        invariant forall k | 0 <= k < n :: log[k] == DueList(installed, ticks[..k], ticks[k])
      {
        DueNamesAre(items, installed, ticks[..n], ticks[n]);
        assert ticks[..n + 1][..n] == ticks[..n];
        var due := Tick(ticks[n]);
        log := log + [due];
      }
      assert ticks[..|ticks|] == ticks;
    }
  }

  // An installed skill: what it is and when it is first due.
  datatype Installed = Installed(skill: string, cadence: Cadence, due: int)

  function Snapshot(items: seq<Scheduled>): (r: seq<Installed>)
    reads items
    ensures |r| == |items|
    ensures forall i | 0 <= i < |items| :: r[i] == Installed(items[i].skill, items[i].cadence, items[i].nextDue)
  {
    if items == [] then []
    else
      var last := items[|items| - 1];
      Snapshot(items[..|items| - 1]) + [Installed(last.skill, last.cadence, last.nextDue)]
  }

  // The due time of a skill after some evaluations.
  function DueAfter(c: Cadence, due: int, ticks: seq<int>): int {
    if ticks == [] then due
    else
      var d := DueAfter(c, due, ticks[..|ticks| - 1]);
      if ticks[|ticks| - 1] < d then d else Advance(c, ticks[|ticks| - 1])
  }

  // The skills due at an evaluation, in installation order.
  function DueList(installed: seq<Installed>, before: seq<int>, now: int): seq<string> {
    if installed == [] then []
    else
      var last := installed[|installed| - 1];
      DueList(installed[..|installed| - 1], before, now) +
      if now < DueAfter(last.cadence, last.due, before) then [] else [last.skill]
  }

  lemma {:induction false} DueNamesAre(items: seq<Scheduled>, installed: seq<Installed>, before: seq<int>, now: int)
    requires |installed| == |items|
    requires forall i | 0 <= i < |items| ::
               items[i].skill == installed[i].skill && items[i].nextDue == DueAfter(installed[i].cadence, installed[i].due, before)
    ensures DueNames(items, now) == DueList(installed, before, now)
  {
    hide DueAfter;
    if items != [] {
      DueNamesAre(items[..|items| - 1], installed[..|items| - 1], before, now);
    }
  }

  function DueNames(items: seq<Scheduled>, now: int): seq<string>
    reads items
  {
    if items == [] then []
    else
      var last := items[|items| - 1];
      DueNames(items[..|items| - 1], now) + if now < last.nextDue then [] else [last.skill]
  }

  // ----- runs of one skill -----

  // Evaluation times in order, the installation being `start`.
  ghost predicate Clock(start: int, ticks: seq<int>)
    decreases |ticks|
  {
    ticks == [] || (start <= ticks[0] && Clock(ticks[0], ticks[1..]))
  }

  ghost predicate Gaps(start: int, ticks: seq<int>, gap: int)
    decreases |ticks|
  {
    ticks == [] || (ticks[0] - start <= gap && Gaps(ticks[0], ticks[1..], gap))
  }

  function Last(start: int, ticks: seq<int>): int {
    if ticks == [] then start else ticks[|ticks| - 1]
  }

  // The due times at which one skill fires; the skill's due time follows Tick.
  function Fires(c: Cadence, due: int, ticks: seq<int>): seq<int>
    decreases |ticks|
  {
    if ticks == [] then []
    else if ticks[0] < due then Fires(c, due, ticks[1..])
    else [due] + Fires(c, Advance(c, ticks[0]), ticks[1..])
  }

  // An evaluation adds the due time to the firings exactly when it has passed.
  lemma {:induction false} FiresAppend(c: Cadence, due: int, ticks: seq<int>, now: int)
    ensures Fires(c, due, ticks + [now]) ==
            Fires(c, due, ticks) + if now < DueAfter(c, due, ticks) then [] else [DueAfter(c, due, ticks)]
    decreases |ticks|
  {
    hide Advance;
    if ticks == [] {
      assert (ticks + [now])[1..] == [];
    } else {
      var next := if ticks[0] < due then due else Advance(c, ticks[0]);
      assert (ticks + [now])[1..] == ticks[1..] + [now];
      FiresAppend(c, next, ticks[1..], now);
      DueAfterFirst(c, due, ticks);
    }
  }

  lemma {:induction false} DueAfterFirst(c: Cadence, due: int, ticks: seq<int>)
    requires ticks != []
    ensures DueAfter(c, due, ticks) == DueAfter(c, if ticks[0] < due then due else Advance(c, ticks[0]), ticks[1..])
    decreases |ticks|
  {
    hide Advance;
    if |ticks| > 1 {
      DueAfterFirst(c, due, ticks[..|ticks| - 1]);
      assert ticks[1..][..|ticks| - 2] == ticks[..|ticks| - 1][1..];
    }
  }

  // The matching minutes in [a, b), in order.
  function MatchingMinutes(c: CronSpec, a: int, b: int): seq<int>
    decreases b - a
  {
    if a >= b then []
    else if Matches(c, a) then [a] + MatchingMinutes(c, a + 1, b)
    else MatchingMinutes(c, a + 1, b)
  }

  function AsTimes(minutes: seq<int>): seq<int> {
    seq(|minutes|, i requires 0 <= i < |minutes| => minutes[i] * 60_000_000_000)
  }

  // A skill whose due time was set at `prev` fires at an evaluation exactly when
  // a matching minute lies in (prev, now], or when none lies before the horizon
  // and that has passed; several minutes are fired once, for the earliest.
  lemma FiresExactlyWhenDue(c: CronSpec, prev: int, now: int)
    requires prev <= now
    ensures now >= NextDue(c, prev) * 60_000_000_000 <==>
            || (exists m | prev < m * 60_000_000_000 <= now :: Matches(c, m))
            || (!Genuine(c, prev) && now >= Horizon(prev) * 60_000_000_000)
  {
    NextIsEarliest(c, prev);
    var r := NextDue(c, prev);
    hide Matches, Scan, Horizon, NextDue;
    if Genuine(c, prev) {
      assert Matches(c, r);
    } else {
      NoEarlyMatch(c, prev);
      hide Genuine, FirstCandidate;
      assert r == Horizon(prev);
      if exists m | prev < m * 60_000_000_000 <= now :: Matches(c, m) {
        var m :| prev < m * 60_000_000_000 <= now && Matches(c, m);
        assert m >= r;
      }
    }
  }

  lemma NoEarlyMatch(c: CronSpec, prev: int)
    requires !Genuine(c, prev)
    ensures forall m | prev < m * 60_000_000_000 && m < Horizon(prev) :: !Matches(c, m)
  {
    hide Matches, Horizon;
  }

  // From every evaluation on, a match lies before the horizon.
  ghost predicate GenuineRun(c: CronSpec, start: int, ticks: seq<int>)
    decreases |ticks|
  {
    Genuine(c, start) && (ticks == [] || GenuineRun(c, ticks[0], ticks[1..]))
  }

  // With evaluations at most a minute apart, and matches never further apart
  // than the horizon, the skill fires once for every matching minute after its
  // installation, in order, and for nothing else.
  lemma {:induction false} ExactlyOnce(c: CronSpec, start: int, ticks: seq<int>)
    requires Clock(start, ticks) && Gaps(start, ticks, 60_000_000_000)
    requires GenuineRun(c, start, ticks)
    ensures Fires(OnCron(c), Advance(OnCron(c), start), ticks) ==
            AsTimes(MatchingMinutes(c, FirstCandidate(start), FirstCandidate(Last(start, ticks))))
    decreases |ticks|
  {
    hide Matches, Genuine, Scan, Horizon;
    if ticks == [] {
    } else {
      var now := ticks[0];
      var a, b := FirstCandidate(start), FirstCandidate(now);
      var z := FirstCandidate(Last(start, ticks));
      assert Last(start, ticks) == Last(now, ticks[1..]);
      ClockEnd(now, ticks[1..]);
      assert a <= b <= a + 1 && b <= z;
      OneMinute(c, start, now);
      ExactlyOnce(c, now, ticks[1..]);
      if now < Advance(OnCron(c), start) {
        SameDue(c, start, now);
        SkipMinutes(c, a, b, z);
      } else {
        assert a < b && Matches(c, a);
        assert MatchingMinutes(c, a, z) == [a] + MatchingMinutes(c, b, z);
        assert AsTimes([a] + MatchingMinutes(c, b, z)) == [a * 60_000_000_000] + AsTimes(MatchingMinutes(c, b, z));
      }
    }
  }

  // In particular over every such run of an expression that always recurs.
  lemma {:induction false} RecurringExactlyOnce(c: CronSpec, start: int, ticks: seq<int>)
    requires Clock(start, ticks) && Gaps(start, ticks, 60_000_000_000)
    requires Usable(c) && AlwaysRecurs(c)
    ensures Fires(OnCron(c), Advance(OnCron(c), start), ticks) ==
            AsTimes(MatchingMinutes(c, FirstCandidate(start), FirstCandidate(Last(start, ticks))))
  {
    hide *;
    RecurringRun(c, start, ticks);
    ExactlyOnce(c, start, ticks);
  }

  lemma {:induction false} RecurringRun(c: CronSpec, start: int, ticks: seq<int>)
    requires Usable(c) && AlwaysRecurs(c)
    ensures GenuineRun(c, start, ticks)
    decreases |ticks|
  {
    hide Genuine, Usable, AlwaysRecurs;
    RecursIsGenuine(c, start);
    if ticks != [] {
      RecurringRun(c, ticks[0], ticks[1..]);
    }
  }

  lemma {:induction false} ClockEnd(start: int, ticks: seq<int>)
    requires Clock(start, ticks)
    ensures start <= Last(start, ticks)
    decreases |ticks|
  {
    if ticks != [] {
      ClockEnd(ticks[0], ticks[1..]);
      assert Last(start, ticks) == Last(ticks[0], ticks[1..]);
    }
  }

  // Between two evaluations at most a minute apart there is at most one
  // candidate minute, and the skill fires exactly when that one matches.
  lemma OneMinute(c: CronSpec, prev: int, now: int)
    requires prev <= now <= prev + 60_000_000_000 && Genuine(c, prev)
    ensures var a := FirstCandidate(prev);
            && FirstCandidate(now) <= a + 1
            && (now >= Advance(OnCron(c), prev) ==>
                  FirstCandidate(now) == a + 1 && NextDue(c, prev) == a && Matches(c, a))
            && (now < Advance(OnCron(c), prev) ==> forall m | a <= m < FirstCandidate(now) :: !Matches(c, m))
  {
    hide Matches, Scan, Horizon;
    NextIsEarliest(c, prev);
  }

  // An evaluation that does not fire leaves the due time what it would compute.
  lemma SameDue(c: CronSpec, prev: int, now: int)
    requires prev <= now < Advance(OnCron(c), prev)
    requires Genuine(c, prev) && Genuine(c, now)
    ensures NextDue(c, prev) == NextDue(c, now)
  {
    hide Matches, Scan, Horizon, Genuine;
    NextIsEarliest(c, prev);
    NextIsEarliest(c, now);
  }

  lemma {:induction false} SkipMinutes(c: CronSpec, a: int, b: int, z: int)
    requires a <= b <= z
    requires forall m | a <= m < b :: !Matches(c, m)
    ensures MatchingMinutes(c, a, z) == MatchingMinutes(c, b, z)
    decreases b - a
  {
    hide Matches;
    if a < b {
      SkipMinutes(c, a + 1, b, z);
    }
  }

  predicate Increasing(s: seq<int>) {
    forall i, j | 0 <= i < j < |s| :: s[i] < s[j]
  }

  // The listed minutes are the matching ones, each once and in order.
  lemma {:induction false} MatchingMinutesExact(c: CronSpec, a: int, b: int)
    ensures var s := MatchingMinutes(c, a, b);
            && (forall m :: m in s <==> a <= m < b && Matches(c, m))
            && Increasing(s)
    decreases b - a
  {
    hide Matches;
    if a < b {
      MatchingMinutesExact(c, a + 1, b);
      var t := MatchingMinutes(c, a + 1, b);
      assert forall k | 0 <= k < |t| :: t[k] in t;
      assert MatchingMinutes(c, a, b) == if Matches(c, a) then [a] + t else t;
    }
  }

  // ----- evaluations that fire -----

  // The evaluation times at which one skill fires.
  function FireTimes(c: Cadence, due: int, ticks: seq<int>): seq<int>
    decreases |ticks|
  {
    if ticks == [] then []
    else if ticks[0] < due then FireTimes(c, due, ticks[1..])
    else [ticks[0]] + FireTimes(c, Advance(c, ticks[0]), ticks[1..])
  }

  lemma {:induction false} FireTimesAppend(c: Cadence, due: int, ticks: seq<int>, now: int)
    ensures FireTimes(c, due, ticks + [now]) ==
            FireTimes(c, due, ticks) + if now < DueAfter(c, due, ticks) then [] else [now]
    decreases |ticks|
  {
    hide Advance;
    if ticks == [] {
      assert (ticks + [now])[1..] == [];
    } else {
      var next := if ticks[0] < due then due else Advance(c, ticks[0]);
      assert (ticks + [now])[1..] == ticks[1..] + [now];
      FireTimesAppend(c, next, ticks[1..], now);
      DueAfterFirst(c, due, ticks);
    }
  }

  // Every due time lies after the evaluation that sets it.
  ghost predicate Ahead(c: Cadence) {
    forall t :: t < Advance(c, t)
  }

  lemma CronAhead(c: CronSpec)
    ensures Ahead(OnCron(c))
  {
    hide Scan, Horizon, Matches;
    forall t
      ensures t < Advance(OnCron(c), t)
    {
      NextIsEarliest(c, t);
    }
  }

  // Each firing is the due time its predecessor set, and comes less than one
  // gap late.
  ghost predicate Paired(c: Cadence, due: int, gap: int, fires: seq<int>, times: seq<int>) {
    && |fires| == |times|
    && (fires != [] ==> fires[0] == due)
    && (forall i | 0 <= i < |fires| - 1 :: fires[i + 1] == Advance(c, times[i]))
    && (forall i | 0 <= i < |fires| :: fires[i] <= times[i] < fires[i] + gap)
  }

  lemma {:induction false} FiresPaired(c: Cadence, due: int, gap: int, start: int, ticks: seq<int>)
    requires Ahead(c) && start < due && Clock(start, ticks) && Gaps(start, ticks, gap)
    ensures Paired(c, due, gap, Fires(c, due, ticks), FireTimes(c, due, ticks))
    decreases |ticks|
  {
    hide Advance;
    if ticks != [] {
      var now := ticks[0];
      if now < due {
        FiresPaired(c, due, gap, now, ticks[1..]);
      } else {
        var next := Advance(c, now);
        assert now < next;
        FiresPaired(c, next, gap, now, ticks[1..]);
        var fires, times := Fires(c, next, ticks[1..]), FireTimes(c, next, ticks[1..]);
        hide Fires, FireTimes, Ahead;
        PairedCons(c, due, gap, now, fires, times);
      }
    }
  }

  lemma PairedCons(c: Cadence, due: int, gap: int, now: int, fires: seq<int>, times: seq<int>)
    requires Paired(c, Advance(c, now), gap, fires, times) && due <= now < due + gap
    ensures Paired(c, due, gap, [due] + fires, [now] + times)
  {
    hide Advance;
    forall i | 0 <= i < |fires|
      ensures ([due] + fires)[i + 1] == Advance(c, ([now] + times)[i])
    {
    }
  }

  // What the log of a run lists for a name.
  function Listed(log: seq<seq<string>>, ticks: seq<int>, name: string): seq<int>
    requires |log| == |ticks|
  {
    if ticks == [] then []
    else
      var n := |ticks| - 1;
      Listed(log[..n], ticks[..n], name) + if name in log[n] then [ticks[n]] else []
  }

  lemma {:induction false} DueListMember(installed: seq<Installed>, before: seq<int>, now: int, name: string)
    ensures name in DueList(installed, before, now) <==>
            exists i | 0 <= i < |installed| ::
              installed[i].skill == name && now >= DueAfter(installed[i].cadence, installed[i].due, before)
  {
    hide DueAfter;
    if installed != [] {
      DueListMember(installed[..|installed| - 1], before, now, name);
      assert forall i | 0 <= i < |installed| - 1 :: installed[..|installed| - 1][i] == installed[i];
    }
  }

  // The log of `Run` lists a skill at exactly the evaluations at which it fires.
  lemma {:induction false} LogListsFires(installed: seq<Installed>, i: nat, ticks: seq<int>, log: seq<seq<string>>)
    requires i < |installed| && |log| == |ticks|
    requires forall k | 0 <= k < |ticks| :: log[k] == DueList(installed, ticks[..k], ticks[k])
    requires forall j | 0 <= j < |installed| && j != i :: installed[j].skill != installed[i].skill
    ensures Listed(log, ticks, installed[i].skill) == FireTimes(installed[i].cadence, installed[i].due, ticks)
    decreases |ticks|
  {
    hide DueAfter, DueList, Advance;
    if ticks != [] {
      var n := |ticks| - 1;
      var skill := installed[i];
      forall k | 0 <= k < n
        ensures log[..n][k] == DueList(installed, ticks[..n][..k], ticks[..n][k])
      {
        assert ticks[..n][..k] == ticks[..k];
      }
      LogListsFires(installed, i, ticks[..n], log[..n]);
      DueListMember(installed, ticks[..n], ticks[n], skill.skill);
      FireTimesAppend(skill.cadence, skill.due, ticks[..n], ticks[n]);
      assert ticks[..n] + [ticks[n]] == ticks;
    }
  }

  // Whole runs of the scheduler, end to end: with evaluations at most a minute
  // apart the log lists a recurring cron skill once for every matching minute
  // since its installation, in order, less than a minute late, and never else.
  lemma EveryMatchListed(installed: seq<Installed>, i: nat, c: CronSpec, start: int, ticks: seq<int>, log: seq<seq<string>>)
    requires i < |installed| && |log| == |ticks|
    requires forall k | 0 <= k < |ticks| :: log[k] == DueList(installed, ticks[..k], ticks[k])
    requires forall j | 0 <= j < |installed| && j != i :: installed[j].skill != installed[i].skill
    requires installed[i].cadence == OnCron(c) && installed[i].due == Advance(OnCron(c), start)
    requires Clock(start, ticks) && Gaps(start, ticks, 60_000_000_000) && Usable(c) && AlwaysRecurs(c)
    ensures var listed := Listed(log, ticks, installed[i].skill);
            var minutes := MatchingMinutes(c, FirstCandidate(start), FirstCandidate(Last(start, ticks)));
            && |listed| == |minutes|
            && forall k | 0 <= k < |listed| :: minutes[k] * 60_000_000_000 <= listed[k] < minutes[k] * 60_000_000_000 + 60_000_000_000
  {
    hide DueList, Usable, AlwaysRecurs, Advance, Fires, FireTimes, Listed, MatchingMinutes, Clock, Gaps;
    var due := installed[i].due;
    LogListsFires(installed, i, ticks, log);
    RecurringExactlyOnce(c, start, ticks);
    CronAhead(c);
    assert start < due;
    FiresPaired(OnCron(c), due, 60_000_000_000, start, ticks);
  }

  // ----- several installations -----

  // What happens to one skill: an evaluation, or a ReplaceSkills that installs
  // it once more and so sets its due time anew.
  datatype Event = Evaluate(at: int) | Install(at: int)

  function EventFires(c: Cadence, due: int, events: seq<Event>): seq<int>
    decreases |events|
  {
    if events == [] then []
    else
      var now := events[0].at;
      if events[0].Evaluate? && now < due then EventFires(c, due, events[1..])
      else (if events[0].Install? then [] else [due]) + EventFires(c, Advance(c, now), events[1..])
  }

  // In order, and at most a minute apart.
  ghost predicate Steady(start: int, events: seq<Event>)
    decreases |events|
  {
    events == [] || (start <= events[0].at <= start + 60_000_000_000 && Steady(events[0].at, events[1..]))
  }

  // The first event at or after minute m.
  predicate Follows(events: seq<Event>, m: int, i: nat) {
    && i < |events| && m * 60_000_000_000 <= events[i].at
    && forall j | 0 <= j < i :: events[j].at < m * 60_000_000_000
  }

  // The matching minutes whose next event is an evaluation.
  function Answered(c: CronSpec, start: int, events: seq<Event>): seq<int>
    decreases |events|
  {
    if events == [] then [] else AnsweredBy(c, start, events[0]) + Answered(c, events[0].at, events[1..])
  }

  function AnsweredBy(c: CronSpec, start: int, event: Event): seq<int> {
    match event
    case Evaluate(now) => MatchingMinutes(c, FirstCandidate(start), FirstCandidate(now))
    case Install(_) => []
  }

  lemma AnsweredByExact(c: CronSpec, start: int, event: Event)
    ensures var s := AnsweredBy(c, start, event);
            && (forall m :: m in s <==> event.Evaluate? && start < m * 60_000_000_000 <= event.at && Matches(c, m))
            && Increasing(s)
  {
    hide Matches, MatchingMinutes, FirstCandidate;
    if event.Evaluate? {
      MatchingMinutesExact(c, FirstCandidate(start), FirstCandidate(event.at));
      forall m
        ensures FirstCandidate(start) <= m < FirstCandidate(event.at) <==> start < m * 60_000_000_000 <= event.at
      {
        CandidateAfter(start, m);
        CandidateAfter(event.at, m);
      }
    }
  }

  lemma {:induction false} FiresAnswered(c: CronSpec, start: int, events: seq<Event>)
    requires Steady(start, events) && Usable(c) && AlwaysRecurs(c)
    ensures EventFires(OnCron(c), Advance(OnCron(c), start), events) == AsTimes(Answered(c, start, events))
    decreases |events|
  {
    hide Usable, AlwaysRecurs, Advance, AnsweredBy, AsTimes;
    AsTimesJoin([], []);
    if events != [] {
      var now := events[0].at;
      FiresAnswered(c, now, events[1..]);
      AsTimesJoin(AnsweredBy(c, start, events[0]), Answered(c, now, events[1..]));
      OneEvent(c, start, events[0]);
    }
  }

  lemma AsTimesJoin(a: seq<int>, b: seq<int>)
    ensures AsTimes(a + b) == AsTimes(a) + AsTimes(b)
    ensures AsTimes([]) == []
  {
  }

  lemma OneEvent(c: CronSpec, start: int, event: Event)
    requires start <= event.at <= start + 60_000_000_000 && Usable(c) && AlwaysRecurs(c)
    ensures var due := Advance(OnCron(c), start);
            && AsTimes(AnsweredBy(c, start, event)) == (if event.Install? || event.at < due then [] else [due])
            && (event.at < due ==> due == Advance(OnCron(c), event.at) || event.Install?)
  {
    hide Usable, AlwaysRecurs, Advance, AsTimes, MatchingMinutes, FirstCandidate;
    AsTimesJoin([], []);
    if event.Evaluate? {
      OneEvaluation(c, start, event.at);
    }
  }

  lemma OneEvaluation(c: CronSpec, start: int, now: int)
    requires start <= now <= start + 60_000_000_000 && Usable(c) && AlwaysRecurs(c)
    ensures var due := Advance(OnCron(c), start);
            && AsTimes(MatchingMinutes(c, FirstCandidate(start), FirstCandidate(now))) == (if now < due then [] else [due])
            && (now < due ==> due == Advance(OnCron(c), now))
  {
    hide Matches, Genuine, Scan, Horizon, Usable, AlwaysRecurs;
    var a, b := FirstCandidate(start), FirstCandidate(now);
    RecursIsGenuine(c, start);
    RecursIsGenuine(c, now);
    OneMinute(c, start, now);
    assert MatchingMinutes(c, b, b) == [];
    if now < Advance(OnCron(c), start) {
      SameDue(c, start, now);
      SkipMinutes(c, a, b, b);
    }
  }

  // The first event at or after minute m is an evaluation.
  ghost predicate Evaluated(events: seq<Event>, m: int) {
    exists i: nat :: Follows(events, m, i) && events[i].Evaluate?
  }

  lemma {:induction false} AnsweredExact(c: CronSpec, start: int, events: seq<Event>)
    requires Steady(start, events)
    ensures var s := Answered(c, start, events);
            && (forall m :: m in s <==> start < m * 60_000_000_000 && Matches(c, m) && Evaluated(events, m))
            && Increasing(s)
    decreases |events|
  {
    hide Matches, AnsweredBy, Evaluated;
    if events == [] {
      NeverEvaluated();
    } else {
      var now := events[0].at;
      AnsweredExact(c, now, events[1..]);
      AnsweredByExact(c, start, events[0]);
      var s := Answered(c, start, events);
      var head := AnsweredBy(c, start, events[0]);
      var rest := Answered(c, now, events[1..]);
      assert s == head + rest && start <= now;
      hide Answered, Steady, Increasing;
      forall m
        ensures m in s <==> start < m * 60_000_000_000 && Matches(c, m) && Evaluated(events, m)
      {
        FollowsFirst(events, m);
        assert m in s <==> m in head || m in rest;
      }
      SortedJoin(head, rest, now);
    }
  }

  lemma CandidateAfter(t: int, m: int)
    ensures FirstCandidate(t) <= m <==> t < m * 60_000_000_000
  {
  }

  lemma SortedJoin(head: seq<int>, rest: seq<int>, now: int)
    requires Increasing(head) && Increasing(rest)
    requires forall m | m in head :: m * 60_000_000_000 <= now
    requires forall m | m in rest :: now < m * 60_000_000_000
    ensures Increasing(head + rest)
  {
    forall i, j | 0 <= i < |head| && 0 <= j < |rest|
      ensures head[i] < rest[j]
    {
      assert head[i] in head && rest[j] in rest;
    }
  }

  lemma NeverEvaluated()
    ensures forall m :: !Evaluated([], m)
  {
  }

  lemma FollowsFirst(events: seq<Event>, m: int)
    requires events != []
    ensures Evaluated(events, m) <==>
            if m * 60_000_000_000 <= events[0].at then events[0].Evaluate? else Evaluated(events[1..], m)
  {
    if m * 60_000_000_000 <= events[0].at {
      assert Follows(events, m, 0);
    } else {
      forall i: nat
        ensures Follows(events, m, i + 1) <==> Follows(events[1..], m, i)
      {
        assert forall j | 0 <= j < |events| - 1 :: events[1..][j] == events[j + 1];
      }
      assert !Follows(events, m, 0);
      if Evaluated(events, m) {
        var i: nat :| Follows(events, m, i) && events[i].Evaluate?;
        assert Follows(events[1..], m, i - 1);
      }
    }
  }

  // Over any run of evaluations and installations at most a minute apart: a
  // recurring skill fires for nothing but matching minutes, each at most once
  // and in order; a matching minute of the run is missed exactly when the first
  // event at or after it is an installation.
  lemma MissedExactly(c: CronSpec, start: int, events: seq<Event>)
    requires Steady(start, events) && Usable(c) && AlwaysRecurs(c)
    ensures var fires := EventFires(OnCron(c), Advance(OnCron(c), start), events);
            && Increasing(fires)
            && (forall t | t in fires :: exists m :: t == m * 60_000_000_000 && start < t && Matches(c, m))
            && (forall m, i: nat | start < m * 60_000_000_000 && Matches(c, m) && Follows(events, m, i) ::
                  m * 60_000_000_000 !in fires <==> events[i].Install?)
  {
    hide Matches, Usable, AlwaysRecurs, Answered, Steady, EventFires, Advance, Evaluated;
    FiresAnswered(c, start, events);
    AnsweredExact(c, start, events);
    var minutes := Answered(c, start, events);
    AsTimesExact(minutes);
    forall m, i: nat | Follows(events, m, i)
      ensures Evaluated(events, m) <==> events[i].Evaluate?
    {
      FollowsOnce(events, m, i);
    }
  }

  // An installation at a matching minute, before the evaluation that would have
  // fired it, leaves that minute out.
  lemma ReinstallMisses(c: CronSpec, m: int)
    requires Usable(c) && AlwaysRecurs(c) && Matches(c, m)
    ensures var t := m * 60_000_000_000;
            var events := [Install(t), Evaluate(t + 59_999_999_999)];
            && EventFires(OnCron(c), Advance(OnCron(c), t - 1), [Evaluate(t)]) == [t]
            && EventFires(OnCron(c), Advance(OnCron(c), t - 1), events) == []
  {
    hide Matches, Scan, Horizon, Genuine, Usable, AlwaysRecurs;
    var t := m * 60_000_000_000;
    RecursIsGenuine(c, t - 1);
    RecursIsGenuine(c, t);
    NextIsEarliest(c, t - 1);
    NextIsEarliest(c, t);
    assert [Evaluate(t)][1..] == [];
    var evaluate := [Evaluate(t + 59_999_999_999)];
    assert ([Install(t)] + evaluate)[1..] == evaluate && evaluate[1..] == [];
  }

  lemma FollowsOnce(events: seq<Event>, m: int, i: nat)
    requires Follows(events, m, i)
    ensures i < |events| && (Evaluated(events, m) <==> events[i].Evaluate?)
  {
    assert forall j: nat | Follows(events, m, j) :: j == i;
  }

  lemma AsTimesExact(minutes: seq<int>)
    ensures forall m :: m * 60_000_000_000 in AsTimes(minutes) <==> m in minutes
    ensures forall t | t in AsTimes(minutes) :: exists m :: t == m * 60_000_000_000 && m in minutes
    ensures Increasing(minutes) ==> Increasing(AsTimes(minutes))
  {
    var times := AsTimes(minutes);
    forall m | m in minutes
      ensures m * 60_000_000_000 in times
    {
      var i :| 0 <= i < |minutes| && minutes[i] == m;
      assert times[i] == m * 60_000_000_000;
    }
  }

  // ----- what happens when nothing matches before the horizon -----

  // The horizon is fired although it is no match.
  lemma HorizonFires(c: CronSpec, start: int, now: int)
    requires !Genuine(c, start) && now >= Horizon(start) * 60_000_000_000
    ensures Fires(OnCron(c), Advance(OnCron(c), start), [now]) == [Horizon(start) * 60_000_000_000]
  {
    hide Matches, Scan, Horizon;
    NextIsEarliest(c, start);
  }

  // Over a whole run an expression that never matches fires about once a year:
  // each firing is the horizon of the evaluation that fired before it, between
  // 366 days and 367 days, a minute and the evaluation gap later.
  lemma NeverMatchingFiresYearly(c: CronSpec, gap: int, start: int, ticks: seq<int>)
    requires forall m :: !Matches(c, m)
    requires Clock(start, ticks) && Gaps(start, ticks, gap)
    ensures var due := Horizon(start) * 60_000_000_000;
            var fires, times := Fires(OnCron(c), due, ticks), FireTimes(OnCron(c), due, ticks);
            && Advance(OnCron(c), start) == due && |fires| == |times|
            && (fires != [] ==> fires[0] == due)
            && (forall i | 0 <= i < |fires| - 1 :: fires[i + 1] == Horizon(times[i]) * 60_000_000_000)
            && (forall i | 0 <= i < |times| - 1 ::
                  366 * 1440 * 60_000_000_000 < times[i + 1] - times[i] < (367 * 1440 + 1) * 60_000_000_000 + gap)
  {
    hide Matches, Fires, FireTimes, Clock, Gaps, Paired;
    forall t
      ensures Advance(OnCron(c), t) == Horizon(t) * 60_000_000_000
      ensures t + 366 * 1440 * 60_000_000_000 < Horizon(t) * 60_000_000_000 <= t + (367 * 1440 + 1) * 60_000_000_000
    {
      NeverMatchingAdvance(c, t);
    }
    CronAhead(c);
    hide Horizon, Advance;
    var due := Horizon(start) * 60_000_000_000;
    FiresPaired(OnCron(c), due, gap, start, ticks);
    YearlySpacing(c, gap, due, Fires(OnCron(c), due, ticks), FireTimes(OnCron(c), due, ticks));
  }

  lemma YearlySpacing(c: CronSpec, gap: int, due: int, fires: seq<int>, times: seq<int>)
    requires Paired(OnCron(c), due, gap, fires, times)
    requires forall t :: Advance(OnCron(c), t) == Horizon(t) * 60_000_000_000
    requires forall t :: t + 366 * 1440 * 60_000_000_000 < Horizon(t) * 60_000_000_000 <= t + (367 * 1440 + 1) * 60_000_000_000
    ensures |fires| == |times| && (fires != [] ==> fires[0] == due)
    ensures forall i | 0 <= i < |fires| - 1 :: fires[i + 1] == Horizon(times[i]) * 60_000_000_000
    ensures forall i | 0 <= i < |times| - 1 ::
              366 * 1440 * 60_000_000_000 < times[i + 1] - times[i] < (367 * 1440 + 1) * 60_000_000_000 + gap
  {
    hide Horizon, Advance;
  }

  lemma NeverMatchingAdvance(c: CronSpec, t: int)
    requires forall m :: !Matches(c, m)
    ensures Advance(OnCron(c), t) == Horizon(t) * 60_000_000_000
    ensures t + 366 * 1440 * 60_000_000_000 < Horizon(t) * 60_000_000_000 <= t + (367 * 1440 + 1) * 60_000_000_000
  {
    NextIsEarliest(c, t);
    Calendar.AddYearAndDaySpan(FirstCandidate(t));
    hide Matches, Scan, Calendar.AddYearAndDay;
  }

  // "0 0 30 2 *"
  const FEBRUARY_30 := CronSpec({0}, {0}, {30}, {2}, {0, 1, 2, 3, 4, 5, 6}, false, true)

  lemma FebruaryFields()
    ensures Fields("0 0 30 2 *") == ["0", "0", "30", "2", "*"]
  {
    var words := ["0", "0", "30", "2", "*"];
    assert forall i | 0 <= i < 5 :: IsWord(words[i]);
    assert words[1..] == ["0", "30", "2", "*"] && words[1..][1..] == ["30", "2", "*"];
    assert ["30", "2", "*"][1..] == ["2", "*"] && ["2", "*"][1..] == ["*"];
    assert Join(["2", "*"], " ") == "2" + " " + "*" == "2 *";
    assert Join(["30", "2", "*"], " ") == "30" + " " + "2 *" == "30 2 *";
    assert Join(words[1..], " ") == "0" + " " + "30 2 *" == "0 30 2 *";
    assert Join(words, " ") == "0" + " " + "0 30 2 *" == "0 0 30 2 *";
    hide Join, Fields;
    FieldsJoin(words);
  }

  lemma FebruaryParses()
    ensures ParsesTo("0 0 30 2 *", CronField.Ok(FEBRUARY_30))
  {
    hide CronField.ParseParts, CronField.Atoi, Fields, Split;
    FebruaryFields();
    CronField.ShortNumbers();
    CronField.PlainNumber("0", 0, 0, 59);
    CronField.PlainNumber("0", 0, 0, 23);
    CronField.PlainNumber("30", 30, 1, 31);
    CronField.PlainNumber("2", 2, 1, 12);
    CronField.StarExact(0, 6);
    var r := CronField.ParseParts(Split("*", ','), 0, 6);
    assert forall v :: v in r.value <==> v in {0, 1, 2, 3, 4, 5, 6};
    assert r.value == {0, 1, 2, 3, 4, 5, 6};
  }

  // The expression parses, and no minute ever matches it.
  lemma ImpossibleDayNeverMatches(start: int)
    ensures ParsesTo("0 0 30 2 *", CronField.Ok(FEBRUARY_30)) && Usable(FEBRUARY_30)
    ensures !Genuine(FEBRUARY_30, start)
    ensures forall m :: !Matches(FEBRUARY_30, m)
  {
    FebruaryParses();
    hide ParsesTo;
    assert 0 in FEBRUARY_30.minute && 0 in FEBRUARY_30.hour && 30 in FEBRUARY_30.dom;
    assert 2 in FEBRUARY_30.month && 0 in FEBRUARY_30.dow;
  }

  // ----- interval cadences -----

  // With evaluations at most `gap` apart, firings are at least a period and
  // less than a period plus the gap apart, the first one counted from start.
  lemma {:induction false} IntervalSpacing(period: int, gap: int, due: int, start: int, ticks: seq<int>)
    requires period >= 0 && start <= due && Clock(start, ticks) && Gaps(start, ticks, gap)
    ensures var f := FireTimes(Interval(period), due, ticks);
            && (f != [] ==> due <= f[0] < due + gap + if due == start then 1 else 0)
            && (forall i | 0 <= i < |f| - 1 :: period <= f[i + 1] - f[i])
            && (period > 0 ==> forall i | 0 <= i < |f| - 1 :: f[i + 1] - f[i] < period + gap)
    decreases |ticks|
  {
    if ticks != [] {
      var now := ticks[0];
      if now < due {
        IntervalSpacing(period, gap, due, now, ticks[1..]);
      } else {
        IntervalSpacing(period, gap, now + period, now, ticks[1..]);
      }
    }
  }
}
