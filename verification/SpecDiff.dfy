/**
 Which spec changes need no reconnect (internal/server/tenant.go), and which of
 those the in-place path notices.
 */
module SpecDiff {

  import opened Options
  import opened Text

  // A decoded JSON value; Other stands for numbers, objects and null.
  datatype Value = Str(text: string) | Bool(bool) | List(items: seq<Value>) | Other(id: int)

  // None is a nil map.
  datatype Connector = Connector(kind: string, config: Option<map<string, Value>>, secrets: Option<map<string, Value>>)

  // `limits` stands for every capability except the two usage counters.
  datatype Caps = Caps(limits: string, inputUsed: int, outputUsed: int)

  // `identity` stands for the scalar fields of TenantSpec.
  datatype Spec = Spec(
    identity: seq<string>,
    connectors: seq<Connector>,
    caps: Option<Caps>,
    ignoredNicks: seq<string>,
    commands: seq<string>,
    flows: seq<string>)

  const LIVE_KEYS := {"nick", "channels", "suspended"}

  // ----- the comparison -----

  function StripLive(c: Connector): Connector {
    if c.kind != "irc" || c.config.None? then c
    else c.(config := Some(c.config.value - LIVE_KEYS))
  }

  function StripAll(cs: seq<Connector>): seq<Connector> {
    seq(|cs|, i requires 0 <= i < |cs| => StripLive(cs[i]))
  }

  method StripLiveConnectorFields(cs: seq<Connector>) returns (out: seq<Connector>)
    ensures out == StripAll(cs)
  {
    out := [];
    for i := 0 to |cs|
      invariant out == StripAll(cs)[..i]
    {
      out := out + [StripLive(cs[i])];
    }
  }

  function WithoutUsage(caps: Option<Caps>): Option<Caps> {
    if caps.None? then None else Some(caps.value.(inputUsed := 0, outputUsed := 0))
  }

  function RestartView(s: Spec): Spec {
    s.(connectors := StripAll(s.connectors), caps := WithoutUsage(s.caps), ignoredNicks := [], commands := [], flows := [])
  }

  function LiveUpdatableOnlyChange(a: Spec, b: Spec): bool {
    RestartView(a) == RestartView(b)
  }

  // Same connector up to the live keys of an IRC connector.
  predicate SameButLive(a: Connector, b: Connector) {
    && a.kind == b.kind && a.secrets == b.secrets && a.config.None? == b.config.None?
    && (a.config.Some? ==>
          forall k | k in a.config.value.Keys + b.config.value.Keys ::
            (a.kind == "irc" && (k == "nick" || k == "channels" || k == "suspended")) ||
            (k in a.config.value && k in b.config.value && a.config.value[k] == b.config.value[k]))
  }

  lemma StripLiveExact(a: Connector, b: Connector)
    ensures StripLive(a) == StripLive(b) <==> SameButLive(a, b)
  {
    if a.kind == b.kind && a.config.Some? && b.config.Some? {
      var p, q := a.config.value, b.config.value;
      if StripLive(a) == StripLive(b) {
        forall k | k in p.Keys + q.Keys && !(a.kind == "irc" && k in LIVE_KEYS)
          ensures k in p && k in q && p[k] == q[k]
        {
          if a.kind == "irc" {
            assert (k in p - LIVE_KEYS) == (k in q - LIVE_KEYS);
            assert (p - LIVE_KEYS)[k] == (q - LIVE_KEYS)[k];
          }
        }
      }
      if SameButLive(a, b) {
        if a.kind == "irc" {
          assert p - LIVE_KEYS == q - LIVE_KEYS;
        } else {
          assert p == q;
        }
      }
    }
  }

  // A change needs no restart exactly when it is confined to commands, flows,
  // the ignore list, the usage counters and the live keys of IRC connectors.
  lemma LiveOnlyExact(a: Spec, b: Spec)
    ensures LiveUpdatableOnlyChange(a, b) <==>
            && a.identity == b.identity
            && |a.connectors| == |b.connectors|
            && (forall i | 0 <= i < |a.connectors| :: SameButLive(a.connectors[i], b.connectors[i]))
            && (a.caps.None? <==> b.caps.None?)
            && (a.caps.Some? ==> a.caps.value.limits == b.caps.value.limits)
  {
    var p, q := StripAll(a.connectors), StripAll(b.connectors);
    if |p| == |q| {
      forall i | 0 <= i < |p|
        ensures p[i] == q[i] <==> SameButLive(a.connectors[i], b.connectors[i])
      {
        StripLiveExact(a.connectors[i], b.connectors[i]);
      }
      assert p == q <==> forall i | 0 <= i < |p| :: p[i] == q[i];
    }
  }

  // ----- what the in-place path notices -----

  function Lookup(c: Connector, key: string): Option<Value> {
    if c.config.Some? && key in c.config.value then Some(c.config.value[key]) else None
  }

  function TextField(c: Connector, key: string): string {
    var v := Lookup(c, key);
    if v.Some? && v.value.Str? then v.value.text else ""
  }

  function Texts(items: seq<Value>): seq<string> {
    if items == [] then []
    else (if items[0].Str? then [items[0].text] else []) + Texts(items[1..])
  }

  function TextList(c: Connector, key: string): Option<seq<string>> {
    var v := Lookup(c, key);
    if v.Some? && v.value.List? then Some(Texts(v.value.items)) else None
  }

  function BoolField(c: Connector, key: string, fallback: bool): bool {
    var v := Lookup(c, key);
    match v
    case Some(Bool(b)) => b
    case _ => fallback
  }

  // Everything a run takes from the live keys of an IRC connector.
  datatype LiveView = LiveView(nick: string, channels: Option<seq<string>>, suspended: bool)

  function LiveOf(c: Connector): LiveView {
    LiveView(TextField(c, "nick"), TextList(c, "channels"), BoolField(c, "suspended", false))
  }

  function Items(texts: seq<string>): seq<Value> {
    seq(|texts|, i requires 0 <= i < |texts| => Str(texts[i]))
  }

  // The config map with other live settings.
  function WithLive(config: map<string, Value>, v: LiveView): map<string, Value> {
    var base := config["nick" := Str(v.nick)]["suspended" := Bool(v.suspended)];
    if v.channels.None? then base - {"channels"} else base["channels" := List(Items(v.channels.value))]
  }

  // What is written into the config map is what a run takes from it.
  lemma LiveRoundTrip(c: Connector, v: LiveView)
    requires c.config.Some?
    ensures LiveOf(c.(config := Some(WithLive(c.config.value, v)))) == v
  {
    if v.channels.Some? {
      TextsOfItems(v.channels.value);
    }
  }

  lemma {:induction false} TextsOfItems(texts: seq<string>)
    ensures Texts(Items(texts)) == texts
  {
    if texts != [] {
      assert Items(texts)[1..] == Items(texts[1..]);
      TextsOfItems(texts[1..]);
    }
  }

  // A setting that is missing or of another type counts as unset.
  lemma OtherTypes(c: Connector)
    ensures (c.config.None? || !("nick" in c.config.value && c.config.value["nick"].Str?)) ==> LiveOf(c).nick == ""
    ensures (c.config.None? || !("channels" in c.config.value && c.config.value["channels"].List?)) ==> LiveOf(c).channels == None
    ensures (c.config.None? || !("suspended" in c.config.value && c.config.value["suspended"].Bool?)) ==> !LiveOf(c).suspended
  {
    hide Texts;
  }

  // Items that are no texts are skipped.
  lemma OtherItems(a: seq<Value>, x: Value, b: seq<Value>)
    requires !x.Str?
    ensures Texts(a + [x] + b) == Texts(a) + Texts(b)
  {
    TextsConcat(a, [x]);
    TextsConcat(a + [x], b);
    assert [x][1..] == [] && Texts([x]) == [];
  }

  lemma {:induction false} TextsConcat(a: seq<Value>, b: seq<Value>)
    ensures Texts(a + b) == Texts(a) + Texts(b)
    decreases |a|
  {
    if a == [] {
      assert a + b == b;
    } else {
      assert (a + b)[1..] == a[1..] + b;
      TextsConcat(a[1..], b);
    }
  }

  // Index of the first IRC connector, or the number of connectors.
  function FirstIrc(cs: seq<Connector>): (i: nat)
    ensures i <= |cs|
    ensures i < |cs| ==> cs[i].kind == "irc"
    ensures forall j | 0 <= j < i :: cs[j].kind != "irc"
  {
    if cs == [] || cs[0].kind == "irc" then 0 else 1 + FirstIrc(cs[1..])
  }

  // Index of the last IRC connector, or -1.
  function LastIrc(cs: seq<Connector>): (i: int)
    ensures -1 <= i < |cs|
    ensures i >= 0 ==> cs[i].kind == "irc"
    ensures forall j | i < j < |cs| :: cs[j].kind != "irc"
  {
    if cs == [] then -1
    else if cs[|cs| - 1].kind == "irc" then |cs| - 1
    else LastIrc(cs[..|cs| - 1])
  }

  function FirstIrcLive(cs: seq<Connector>): LiveView {
    var i := FirstIrc(cs);
    if i < |cs| then LiveOf(cs[i]) else LiveView("", None, false)
  }

  datatype Facets = Facets(commands: bool, flows: bool, ignores: bool, nick: bool, channels: bool, suspend: bool)

  function ChangedFacets(a: Spec, b: Spec): Facets {
    var p, q := FirstIrcLive(a.connectors), FirstIrcLive(b.connectors);
    Facets(a.commands != b.commands, a.flows != b.flows, a.ignoredNicks != b.ignoredNicks,
           p.nick != q.nick, p.channels != q.channels, p.suspended != q.suspended)
  }

  const NO_FACET := Facets(false, false, false, false, false, false)

  // Everything a run is built from, besides what a restart would be needed for.
  predicate SameLiveState(a: Spec, b: Spec) {
    && a.commands == b.commands && a.flows == b.flows && a.ignoredNicks == b.ignoredNicks
    && |a.connectors| == |b.connectors|
    && forall i | 0 <= i < |a.connectors| && a.connectors[i].kind == "irc" ::
         LiveOf(a.connectors[i]) == LiveOf(b.connectors[i])
  }

  // No IRC connector after the first has a config map.
  predicate LaterIrcBare(cs: seq<Connector>) {
    forall i | FirstIrc(cs) < i < |cs| :: cs[i].kind == "irc" ==> cs[i].config.None?
  }

  // The update takes the change from a to b as needing neither restart nor reload.
  predicate TakenAsNothing(a: Spec, b: Spec) {
    LiveUpdatableOnlyChange(a, b) && ChangedFacets(a, b) == NO_FACET
  }

  // Whether a change that is taken as needing nothing can leave the run out of
  // date is decided by the spec it runs on: it cannot if and only if no IRC
  // connector after the first has a config map.
  lemma UnnoticedExactly(a: Spec)
    ensures (forall b :: TakenAsNothing(a, b) ==> SameLiveState(a, b)) <==> LaterIrcBare(a.connectors)
  {
    hide TakenAsNothing, SameLiveState;
    if LaterIrcBare(a.connectors) {
      forall b | TakenAsNothing(a, b)
        ensures SameLiveState(a, b)
      {
        NothingUnnoticed(a, b);
      }
    } else {
      var i :| FirstIrc(a.connectors) < i < |a.connectors| && a.connectors[i].kind == "irc" && a.connectors[i].config.Some?;
      LaterNickUnnoticed(a, i);
    }
  }

  lemma NothingUnnoticed(a: Spec, b: Spec)
    requires TakenAsNothing(a, b) && LaterIrcBare(a.connectors)
    ensures SameLiveState(a, b)
  {
    SameShape(a, b);
    var p, q := a.connectors, b.connectors;
    forall i | 0 <= i < |p| && p[i].kind == "irc"
      ensures LiveOf(p[i]) == LiveOf(q[i])
    {
      assert SameButLive(p[i], q[i]);
      assert FirstIrc(p) <= i;
    }
  }

  // A live-only change keeps the kinds, hence the first IRC connector.
  lemma SameShape(a: Spec, b: Spec)
    requires LiveUpdatableOnlyChange(a, b)
    ensures |a.connectors| == |b.connectors|
    ensures forall i | 0 <= i < |a.connectors| :: a.connectors[i].kind == b.connectors[i].kind && SameButLive(a.connectors[i], b.connectors[i])
    ensures FirstIrc(a.connectors) == FirstIrc(b.connectors) && LastIrc(a.connectors) == LastIrc(b.connectors)
  {
    LiveOnlyExact(a, b);
    var p, q := a.connectors, b.connectors;
    forall i | 0 <= i < |p|
      ensures p[i].kind == q[i].kind
    {
      assert SameButLive(p[i], q[i]);
    }
    hide SameButLive, RestartView, LiveUpdatableOnlyChange;
    SameKindsSameFirst(p, q);
    SameKindsSameLast(p, q);
  }

  lemma SameKindsSameFirst(p: seq<Connector>, q: seq<Connector>)
    requires |p| == |q| && forall i | 0 <= i < |p| :: p[i].kind == q[i].kind
    ensures FirstIrc(p) == FirstIrc(q)
  {
    var i, j := FirstIrc(p), FirstIrc(q);
    assert i < |p| ==> q[i].kind == "irc";
    assert j < |q| ==> p[j].kind == "irc";
  }

  lemma {:induction false} SameKindsSameLast(p: seq<Connector>, q: seq<Connector>)
    requires |p| == |q| && forall i | 0 <= i < |p| :: p[i].kind == q[i].kind
    ensures LastIrc(p) == LastIrc(q)
  {
    if p != [] {
      assert p[|p| - 1].kind == q[|q| - 1].kind;
      SameKindsSameLast(p[..|p| - 1], q[..|q| - 1]);
    }
  }

  // The spec with another nick for one connector.
  function WithNick(a: Spec, i: nat, nick: string): Spec
    requires i < |a.connectors| && a.connectors[i].config.Some?
  {
    var c := a.connectors[i];
    a.(connectors := a.connectors[i := c.(config := Some(c.config.value["nick" := Str(nick)]))])
  }

  lemma WithNickIsLive(a: Spec, i: nat, nick: string)
    requires i < |a.connectors| && a.connectors[i].kind == "irc" && a.connectors[i].config.Some?
    ensures LiveUpdatableOnlyChange(a, WithNick(a, i, nick))
    ensures LiveOf(WithNick(a, i, nick).connectors[i]) == LiveOf(a.connectors[i]).(nick := nick)
  {
    var b := WithNick(a, i, nick);
    LiveOnlyExact(a, b);
    hide RestartView, LiveUpdatableOnlyChange;
    forall j | 0 <= j < |a.connectors|
      ensures SameButLive(a.connectors[j], b.connectors[j])
    {
    }
  }

  lemma LaterNickUnnoticed(a: Spec, i: nat)
    requires FirstIrc(a.connectors) < i < |a.connectors| && a.connectors[i].kind == "irc" && a.connectors[i].config.Some?
    ensures exists b :: TakenAsNothing(a, b) && !SameLiveState(a, b)
  {
    var nick := LiveOf(a.connectors[i]).nick + "_";
    var b := WithNick(a, i, nick);
    WithNickIsLive(a, i, nick);
    SameShape(a, b);
    hide LiveUpdatableOnlyChange, WithNick;
    assert b.connectors[FirstIrc(a.connectors)] == a.connectors[FirstIrc(a.connectors)] by {
      assert WithNick(a, i, nick).connectors == b.connectors;
    }
    assert TakenAsNothing(a, b);
  }

  // An edit of the first IRC connector's live settings needs no restart, and
  // each of the three is noticed exactly when it changes.
  lemma EditNoticed(a: Spec, v: LiveView)
    requires FirstIrc(a.connectors) < |a.connectors| && a.connectors[FirstIrc(a.connectors)].config.Some?
    ensures var i := FirstIrc(a.connectors);
            var c := a.connectors[i];
            var b := a.(connectors := a.connectors[i := c.(config := Some(WithLive(c.config.value, v)))]);
            && LiveUpdatableOnlyChange(a, b)
            && ChangedFacets(a, b) ==
               Facets(false, false, false, LiveOf(c).nick != v.nick, LiveOf(c).channels != v.channels, LiveOf(c).suspended != v.suspended)
  {
    var i := FirstIrc(a.connectors);
    var c := a.connectors[i];
    var b := a.(connectors := a.connectors[i := c.(config := Some(WithLive(c.config.value, v)))]);
    LiveRoundTrip(c, v);
    LiveOnlyExact(a, b);
    hide LiveUpdatableOnlyChange;
    assert b.connectors[i] == c.(config := Some(WithLive(c.config.value, v)));
    forall j | 0 <= j < |a.connectors|
      ensures SameButLive(a.connectors[j], b.connectors[j])
    {
    }
    hide WithLive, LiveOf;
    SameKindsSameFirst(a.connectors, b.connectors);
  }

  function Irc(nick: string): Connector {
    Connector("irc", Some(map["nick" := Str(nick)]), None)
  }

  // A new nick for the second of two IRC connectors is dropped silently.
  lemma SecondIrcNickDropped()
    ensures var a := Spec([], [Irc("a"), Irc("b")], None, [], [], []);
            var b := a.(connectors := [Irc("a"), Irc("c")]);
            TakenAsNothing(a, b) && !SameLiveState(a, b)
  {
    var a := Spec([], [Irc("a"), Irc("b")], None, [], [], []);
    var b := WithNick(a, 1, "c");
    WithNickIsLive(a, 1, "c");
    assert map["nick" := Str("b")]["nick" := Str("c")] == map["nick" := Str("c")];
    assert b == a.(connectors := [Irc("a"), Irc("c")]);
    assert FirstIrc(a.connectors) == 0 && FirstIrc(b.connectors) == 0;
    assert LiveOf(a.connectors[1]).nick == "b" && LiveOf(b.connectors[1]).nick == "c";
  }

  // ----- the in-place apply -----

  // What the running agent uses, and what each connection was last told;
  // entries of connectors that are no IRC connectors mean nothing.
  datatype Running = Running(commands: seq<string>, flows: seq<string>, ignoredNicks: seq<string>, live: seq<LiveView>)

  datatype Applied = InPlace(run: Running) | FallBack

  // A blank nick asks for nothing.
  function ToldNick(current: string, nick: string): string {
    if TrimSpace(nick) == "" then current else TrimSpace(nick)
  }

  // The changed facets of the first IRC connector, as a connection takes them.
  function Tell(current: LiveView, want: LiveView, facets: Facets): LiveView {
    var named := if facets.nick || facets.channels
                 then current.(nick := ToldNick(current.nick, want.nick), channels := want.channels) else current;
    if facets.suspend then named.(suspended := want.suspended) else named
  }

  // The agent after the in-place update from a to b: facets are compared on the
  // first IRC connector and applied to the connection that was built last.
  // `wired` says that some connector completed its wiring.
  function ApplyInPlace(run: Running, a: Spec, b: Spec, wired: bool): Applied
    requires |run.live| == |a.connectors|
  {
    var facets := ChangedFacets(a, b);
    var handle := LastIrc(a.connectors);
    var touched := facets.nick || facets.channels || facets.suspend;
    if (facets.commands && handle < 0) || (facets.flows && !wired) || (touched && handle < 0) then FallBack
    else
      InPlace(Running(
                if facets.commands then b.commands else run.commands,
                if facets.flows then b.flows else run.flows,
                if facets.ignores then b.ignoredNicks else run.ignoredNicks,
                if touched then run.live[handle := Tell(run.live[handle], FirstIrcLive(b.connectors), facets)] else run.live))
  }

  // The live objects of a running tenant.
  class LiveTenant {
    var commands: seq<string>
    var flows: seq<string>
    var ignoredNicks: seq<string>
    var live: seq<LiveView>
    const handle: int  // the connection built last, or -1
    const wired: bool

    ghost function View(): Running
      reads this
    {
      Running(commands, flows, ignoredNicks, live)
    }

    constructor (handle: int, wired: bool, run: Running)
      ensures this.handle == handle && this.wired == wired && View() == run
    {
      this.handle, this.wired := handle, wired;
      commands, flows, ignoredNicks, live := run.commands, run.flows, run.ignoredNicks, run.live;
    }

    // False asks for a restart, which rebuilds everything.
    method ApplyLiveUpdate(prev: Spec, spec: Spec) returns (ok: bool)
      requires |live| == |prev.connectors| && handle == LastIrc(prev.connectors)
      modifies this
      ensures ok <==> ApplyInPlace(old(View()), prev, spec, wired).InPlace?
      ensures ok ==> ApplyInPlace(old(View()), prev, spec, wired) == InPlace(View())
    {
      var facets := ChangedFacets(prev, spec);
      var want := FirstIrcLive(spec.connectors);
      hide ChangedFacets, FirstIrcLive, LastIrc, ToldNick;
      if facets == NO_FACET {
        return true;
      }
      ok := true;
      if facets.commands {
        if handle < 0 { ok := false; } else { commands := spec.commands; }
      }
      if facets.flows {
        if !wired { ok := false; } else { flows := spec.flows; }
      }
      if facets.ignores {
        ignoredNicks := spec.ignoredNicks;
      }
      if facets.nick || facets.channels {
        if handle < 0 {
          ok := false;
        } else {
          live := live[handle := live[handle].(nick := ToldNick(live[handle].nick, want.nick), channels := want.channels)];
        }
      }
      if facets.suspend {
        if handle < 0 {
          ok := false;
        } else {
          live := live[handle := live[handle].(suspended := want.suspended)];
        }
      }
    }
  }

  // A connection does what its spec asks.
  predicate Follows(told: LiveView, want: LiveView) {
    && (TrimSpace(want.nick) == "" || told.nick == TrimSpace(want.nick))
    && told.channels == want.channels && told.suspended == want.suspended
  }

  // The agent does what the spec asks of every live facet.
  predicate UpToDate(run: Running, s: Spec) {
    && run.commands == s.commands && run.flows == s.flows && run.ignoredNicks == s.ignoredNicks
    && |run.live| == |s.connectors|
    && forall i | 0 <= i < |s.connectors| && s.connectors[i].kind == "irc" :: Follows(run.live[i], LiveOf(s.connectors[i]))
  }

  // An IRC connector with a config map is the only IRC connector.
  predicate OneConfiguredIrc(cs: seq<Connector>) {
    forall i | 0 <= i < |cs| && cs[i].kind == "irc" && cs[i].config.Some? :: FirstIrc(cs) == i == LastIrc(cs)
  }

  // The update from a to b leaves an up-to-date run up to date, or restarts it.
  ghost predicate KeepsUp(run: Running, a: Spec, b: Spec, wired: bool) {
    LiveUpdatableOnlyChange(a, b) && UpToDate(run, a) ==>
      var r := ApplyInPlace(run, a, b, wired);
      r.FallBack? || UpToDate(r.run, b)
  }

  // Whether every live update of a spec reaches the run is decided by the spec
  // it runs on: it does if and only if an IRC connector with a config map is
  // the only IRC connector.
  lemma InPlaceExactly(a: Spec)
    ensures (forall run, b, wired :: KeepsUp(run, a, b, wired)) <==> OneConfiguredIrc(a.connectors)
  {
    hide KeepsUp;
    if OneConfiguredIrc(a.connectors) {
      forall run, b, wired
        ensures KeepsUp(run, a, b, wired)
      {
        OneIrcKeepsUp(run, a, b, wired);
      }
    } else {
      var i :| 0 <= i < |a.connectors| && a.connectors[i].kind == "irc" && a.connectors[i].config.Some? &&
               !(FirstIrc(a.connectors) == i == LastIrc(a.connectors));
      MissesNick(a, i);
    }
  }

  lemma OneIrcKeepsUp(run: Running, a: Spec, b: Spec, wired: bool)
    requires OneConfiguredIrc(a.connectors)
    ensures KeepsUp(run, a, b, wired)
  {
    if LiveUpdatableOnlyChange(a, b) && UpToDate(run, a) {
      SameShape(a, b);
      hide LiveUpdatableOnlyChange, TrimSpace;
      var r := ApplyInPlace(run, a, b, wired);
      if r.InPlace? {
        forall i | 0 <= i < |b.connectors| && b.connectors[i].kind == "irc"
          ensures Follows(r.run.live[i], LiveOf(b.connectors[i]))
        {
          OneConnectorFollows(run, a, b, wired, i);
        }
      }
    }
  }

  lemma OneConnectorFollows(run: Running, a: Spec, b: Spec, wired: bool, i: nat)
    requires OneConfiguredIrc(a.connectors) && LiveUpdatableOnlyChange(a, b) && UpToDate(run, a)
    requires ApplyInPlace(run, a, b, wired).InPlace? && i < |a.connectors| && a.connectors[i].kind == "irc"
    ensures var r := ApplyInPlace(run, a, b, wired);
            |b.connectors| == |a.connectors| == |r.run.live| && Follows(r.run.live[i], LiveOf(b.connectors[i]))
  {
    SameShape(a, b);
    assert SameButLive(a.connectors[i], b.connectors[i]);
    assert Follows(run.live[i], LiveOf(a.connectors[i]));
    hide TrimSpace, LiveUpdatableOnlyChange, UpToDate;
    if a.connectors[i].config.Some? {
      assert FirstIrcLive(a.connectors) == LiveOf(a.connectors[i]);
      assert FirstIrcLive(b.connectors) == LiveOf(b.connectors[i]);
    } else {
      BareUntouched(run, a, b, wired, i);
    }
  }

  // Without a config map on any IRC connector no facet of theirs can change.
  lemma BareUntouched(run: Running, a: Spec, b: Spec, wired: bool, i: nat)
    requires OneConfiguredIrc(a.connectors) && LiveUpdatableOnlyChange(a, b)
    requires |run.live| == |a.connectors| && ApplyInPlace(run, a, b, wired).InPlace?
    requires i < |a.connectors| && a.connectors[i].kind == "irc" && a.connectors[i].config.None?
    ensures |b.connectors| == |a.connectors|
    ensures ApplyInPlace(run, a, b, wired).run.live == run.live
    ensures LiveOf(b.connectors[i]) == LiveOf(a.connectors[i])
  {
    SameShape(a, b);
    var f := FirstIrc(a.connectors);
    assert f <= i;
    assert SameButLive(a.connectors[i], b.connectors[i]) && SameButLive(a.connectors[f], b.connectors[f]);
    hide SameButLive, LiveUpdatableOnlyChange;
    assert a.connectors[f].config.None?;
    assert LiveOf(a.connectors[f]) == LiveOf(b.connectors[f]);
  }

  // A live update falls back to a restart exactly when it changes commands or a
  // setting of the connection and there is none, or flows and nothing is wired.
  lemma RestartsExactly(run: Running, a: Spec, b: Spec, wired: bool)
    requires |run.live| == |a.connectors|
    ensures var f := ChangedFacets(a, b);
            var connected := exists i :: 0 <= i < |a.connectors| && a.connectors[i].kind == "irc";
            ApplyInPlace(run, a, b, wired).FallBack? <==>
            ((f.commands || f.nick || f.channels || f.suspend) && !connected) || (f.flows && !wired)
  {
    hide ChangedFacets, FirstIrcLive, Tell;
    assert LastIrc(a.connectors) >= 0 <==> exists i :: 0 <= i < |a.connectors| && a.connectors[i].kind == "irc";
  }

  // What the update does not change, the run keeps, whatever it is.
  lemma OnlyChangedFacets(run: Running, a: Spec, b: Spec, wired: bool, i: nat)
    requires |run.live| == |a.connectors| && i < |run.live| && ApplyInPlace(run, a, b, wired).InPlace?
    ensures var f := ChangedFacets(a, b);
            var r := ApplyInPlace(run, a, b, wired).run;
            && (!f.commands ==> r.commands == run.commands)
            && (!f.flows ==> r.flows == run.flows)
            && (!f.ignores ==> r.ignoredNicks == run.ignoredNicks)
            && |r.live| == |run.live|
            && (!f.nick && !f.channels ==> r.live[i].nick == run.live[i].nick && r.live[i].channels == run.live[i].channels)
            && (!f.suspend ==> r.live[i].suspended == run.live[i].suspended)
  {
    hide ChangedFacets, FirstIrcLive, ToldNick;
  }

  // A run that does what the spec asks.
  function FreshRun(a: Spec): (run: Running)
    ensures UpToDate(run, a)
  {
    Running(a.commands, a.flows, a.ignoredNicks,
            seq(|a.connectors|, i requires 0 <= i < |a.connectors| =>
              var v := LiveOf(a.connectors[i]); v.(nick := TrimSpace(v.nick))))
  }

  // With a second IRC connector, a new nick for a configured one misses its connection.
  lemma MissesNick(a: Spec, i: nat)
    requires i < |a.connectors| && a.connectors[i].kind == "irc" && a.connectors[i].config.Some?
    requires !(FirstIrc(a.connectors) == i == LastIrc(a.connectors))
    ensures exists run, b :: !KeepsUp(run, a, b, true)
  {
    hide LiveUpdatableOnlyChange, ApplyInPlace, WithNick, TrimSpace;
    var run := FreshRun(a);
    var nick := if run.live[i].nick == "a" then "b" else "a";
    TrimmedLetters();
    var b := WithNick(a, i, nick);
    WithNickIsLive(a, i, nick);
    SameShape(a, b);
    NickMissed(run, a, i, nick);
    assert !Follows(run.live[i], LiveOf(b.connectors[i]));
    hide Follows;
    assert !KeepsUp(run, a, b, true);
  }

  lemma TrimmedLetters()
    ensures TrimSpace("a") == "a" && TrimSpace("b") == "b"
  {
  }

  lemma NickMissed(run: Running, a: Spec, i: nat, nick: string)
    requires |run.live| == |a.connectors|
    requires i < |a.connectors| && a.connectors[i].kind == "irc" && a.connectors[i].config.Some?
    requires !(FirstIrc(a.connectors) == i == LastIrc(a.connectors))
    ensures var r := ApplyInPlace(run, a, WithNick(a, i, nick), true);
            r.InPlace? && |r.run.live| == |run.live| && r.run.live[i] == run.live[i]
  {
    var b := WithNick(a, i, nick);
    WithNickIsLive(a, i, nick);
    SameShape(a, b);
    hide LiveUpdatableOnlyChange, Tell;
    if i == FirstIrc(a.connectors) {
      assert i != LastIrc(a.connectors);
    } else {
      assert b.connectors[FirstIrc(a.connectors)] == a.connectors[FirstIrc(a.connectors)];
      assert FirstIrcLive(b.connectors) == FirstIrcLive(a.connectors);
    }
  }

  // What a change of the first IRC connector's nick does with several of them:
  // the last connection takes the nick, every other one keeps what it had.
  lemma LastTakesFirstNick(run: Running, a: Spec, b: Spec, wired: bool)
    requires |run.live| == |a.connectors| && FirstIrc(a.connectors) < LastIrc(a.connectors)
    requires ChangedFacets(a, b).nick && ApplyInPlace(run, a, b, wired).InPlace?
    ensures var r := ApplyInPlace(run, a, b, wired).run;
            var nick := FirstIrcLive(b.connectors).nick;
            && (forall i | 0 <= i < |run.live| && i != LastIrc(a.connectors) :: r.live[i] == run.live[i])
            && r.live[LastIrc(a.connectors)].nick ==
               if TrimSpace(nick) != "" then TrimSpace(nick) else run.live[LastIrc(a.connectors)].nick
  {
  }
}
