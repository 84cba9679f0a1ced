/**
 The tenant feed: the poller turns snapshots into events and updates its own
 copy (internal/server/http_source.go); the server folds the events into its
 tenant map (internal/server/server.go). An id is paired with the rest of its
 spec, compared by value.
 */
module Feed {
  datatype Spec<B> = Spec(id: string, body: B)

  datatype Event<B> = Upserted(spec: Spec<B>) | Removed(id: string)

  // One event applied to the server's tenants: a spec without an id is ignored.
  function Apply<B>(tenants: map<string, B>, e: Event<B>): map<string, B> {
    match e
    case Upserted(s) => if s.id == "" then tenants else tenants[s.id := s.body]
    case Removed(id) => tenants - {id}
  }

  function Fold<B>(tenants: map<string, B>, events: seq<Event<B>>): map<string, B> {
    if events == [] then tenants
    else Apply(Fold(tenants, events[..|events| - 1]), events[|events| - 1])
  }

  class Server<B> {
    var tenants: map<string, B>

    constructor ()
      ensures tenants == map[]
    {
      tenants := map[];
    }

    method Upsert(spec: Spec<B>)
      modifies this
      ensures tenants == Apply(old(tenants), Upserted(spec))
    {
      if spec.id == "" {
        return;
      }
      tenants := tenants[spec.id := spec.body];
    }

    method Remove(id: string)
      modifies this
      ensures tenants == Apply(old(tenants), Removed(id))
    {
      if id in tenants {
        tenants := tenants - {id};
      } else {
        assert tenants - {id} == tenants;
      }
    }

    method Consume(events: seq<Event<B>>)
      modifies this
      ensures tenants == Fold(old(tenants), events)
    {
      for i := 0 to |events|
        invariant tenants == Fold(old(tenants), events[..i])
      {
        assert events[..i + 1][..i] == events[..i];
        match events[i]
        case Upserted(s) => Upsert(s);
        case Removed(id) => Remove(id);
      }
      assert events[..|events|] == events;
    }

    // The boot sequence before the event stream starts.
    method Boot(initial: seq<Spec<B>>)
      modifies this
      ensures tenants == Fold(old(tenants), Upserts(initial))
    {
      for i := 0 to |initial|
        invariant tenants == Fold(old(tenants), Upserts(initial[..i]))
      {
        assert Upserts(initial[..i + 1]) == Upserts(initial[..i]) + [Upserted(initial[i])];
        assert (Upserts(initial[..i]) + [Upserted(initial[i])])[..i] == Upserts(initial[..i]);
        Upsert(initial[i]);
      }
      assert initial[..|initial|] == initial;
    }
  }

  function Upserts<B>(specs: seq<Spec<B>>): seq<Event<B>> {
    seq(|specs|, i requires 0 <= i < |specs| => Upserted(specs[i]))
  }

  // A snapshot as a map: the last of several specs with one id wins.
  function Snapshot<B>(specs: seq<Spec<B>>): map<string, B> {
    if specs == [] then map[]
    else Snapshot(specs[..|specs| - 1])[specs[|specs| - 1].id := specs[|specs| - 1].body]
  }

  ghost function Ids<B>(specs: seq<Spec<B>>): set<string> {
    set s | s in specs :: s.id
  }

  lemma IdsAppend<B>(specs: seq<Spec<B>>, s: Spec<B>)
    ensures Ids(specs + [s]) == Ids(specs) + {s.id}
  {
    assert forall x :: x in specs + [s] <==> x in specs || x == s;
    assert s in specs + [s];
  }

  lemma {:induction false} SnapshotKeys<B>(specs: seq<Spec<B>>)
    ensures Snapshot(specs).Keys == Ids(specs)
  {
    if specs != [] {
      var front, last := specs[..|specs| - 1], specs[|specs| - 1];
      SnapshotKeys(front);
      assert specs == front + [last];
      IdsAppend(front, last);
    }
  }

  function WithoutEmpty<B>(m: map<string, B>): map<string, B> {
    m - {""}
  }

  // Booting from a snapshot leaves the server with that snapshot.
  lemma {:induction false} BootAgrees<B>(specs: seq<Spec<B>>)
    ensures Fold(map[], Upserts(specs)) == WithoutEmpty(Snapshot(specs))
  {
    if specs != [] {
      var front, last := specs[..|specs| - 1], specs[|specs| - 1];
      BootAgrees(front);
      assert Upserts(specs)[..|front|] == Upserts(front);
    }
  }

  // Sending an event and updating the copy keep the copy and the server in step.
  lemma SyncUpsert<B>(known: map<string, B>, boot: map<string, B>, sent: seq<Event<B>>, s: Spec<B>)
    requires WithoutEmpty(known) == Fold(boot, sent)
    ensures WithoutEmpty(known[s.id := s.body]) == Fold(boot, sent + [Upserted(s)])
  {
    assert (sent + [Upserted(s)])[..|sent|] == sent;
  }

  lemma SyncRemove<B>(known: map<string, B>, boot: map<string, B>, sent: seq<Event<B>>, id: string)
    requires WithoutEmpty(known) == Fold(boot, sent)
    ensures WithoutEmpty(known - {id}) == Fold(boot, sent + [Removed(id)])
  {
    assert (sent + [Removed(id)])[..|sent|] == sent;
  }

  ghost predicate Matches<B>(known: map<string, B>, specs: seq<Spec<B>>) {
    forall s | s in specs :: s.id in known && known[s.id] == s.body
  }

  lemma MatchesAppend<B>(known: map<string, B>, specs: seq<Spec<B>>, s: Spec<B>)
    ensures Matches(known, specs + [s]) <==> Matches(known, specs) && s.id in known && known[s.id] == s.body
  {
    assert s in specs + [s];
    assert forall x :: x in specs + [s] <==> x in specs || x == s;
  }

  lemma UpsertStart<B>(known: map<string, B>)
    ensures known == known + Snapshot([]) && Ids<B>([]) == {} && Matches(known, [])
  {
  }

  lemma MatchesFront<B>(known: map<string, B>, specs: seq<Spec<B>>, i: nat)
    requires i <= |specs|
    ensures Matches(known, specs) ==> Matches(known, specs[..i])
  {
  }

  lemma MergeStep<B>(base: map<string, B>, known: map<string, B>, specs: seq<Spec<B>>, s: Spec<B>)
    requires known == base + Snapshot(specs)
    ensures known[s.id := s.body] == base + Snapshot(specs + [s])
  {
    assert (specs + [s])[..|specs|] == specs;
  }

  // The poller's copy already holds every spec of the snapshot and no other id.
  ghost predicate Settled<B>(known: map<string, B>, specs: seq<Spec<B>>) {
    && Matches(known, specs)
    && known.Keys <= Ids(specs)
  }

  // The copy while the ids of `todo` have still to be looked at.
  ghost function Remaining<B>(base: map<string, B>, seen: set<string>, todo: set<string>): map<string, B> {
    base - (base.Keys - seen - todo)
  }

  // No id has been removed so far.
  ghost predicate NoneGone<B>(base: map<string, B>, seen: set<string>, todo: set<string>) {
    base.Keys - seen <= todo
  }

  lemma RemovalEnds<B>(base: map<string, B>, seen: set<string>)
    ensures Remaining(base, seen, base.Keys) == base && NoneGone(base, seen, base.Keys)
    ensures Remaining(base, seen, {}) == base - (base.Keys - seen)
    ensures NoneGone(base, seen, {}) <==> base.Keys <= seen
  {
    assert base.Keys - seen - base.Keys == {};
    assert base.Keys - seen - {} == base.Keys - seen;
    assert forall id | id in base.Keys && id !in seen :: id in base.Keys - seen;
  }

  lemma RemovalStep<B>(base: map<string, B>, seen: set<string>, todo: set<string>, id: string)
    requires id in todo && todo <= Remaining(base, seen, todo).Keys
    ensures Remaining(base, seen, todo - {id}) ==
            if id in seen then Remaining(base, seen, todo) else Remaining(base, seen, todo) - {id}
    ensures NoneGone(base, seen, todo - {id}) <==> id in seen && NoneGone(base, seen, todo)
  {
    assert id in base.Keys;
    var gone := base.Keys - seen - todo;
    if id in seen {
      assert base.Keys - seen - (todo - {id}) == gone;
    } else {
      assert base.Keys - seen - (todo - {id}) == gone + {id};
      assert base - (gone + {id}) == (base - gone) - {id};
      assert id in base.Keys - seen;
    }
  }

  class HttpSource<B(==)> {
    var known: map<string, B>
    // The server's tenants when the stream started and every event sent since.
    ghost var boot: map<string, B>
    ghost var sent: seq<Event<B>>

    ghost predicate Synced()
      reads this
    {
      WithoutEmpty(known) == Fold(boot, sent)
    }

    constructor (specs: seq<Spec<B>>, ghost tenants: map<string, B>)
      ensures known == Snapshot(specs) && boot == tenants && sent == []
    {
      known := map[];
      boot := tenants;
      sent := [];
      new;
      for i := 0 to |specs|
        invariant known == Snapshot(specs[..i]) && boot == tenants && sent == []
      {
        assert specs[..i + 1][..i] == specs[..i];
        known := known[specs[i].id := specs[i].body];
      }
      assert specs[..|specs|] == specs;
    }

    // Sends unless cancelled; `left` sends remain before the cancellation.
    method Send(e: Event<B>, left: nat) returns (ok: bool)
      modifies this`sent
      ensures ok <==> left > 0
      ensures ok ==> sent == old(sent) + [e]
      ensures !ok ==> sent == old(sent)
    {
      if left == 0 {
        return false;
      }
      sent := sent + [e];
      return true;
    }

    // The first half of a diff: new and changed specs, in feed order.
    method EmitUpserts(specs: seq<Spec<B>>, budget: nat) returns (done: bool, seen: set<string>, left: nat)
      requires Synced()
      modifies this`known, this`sent
      ensures Synced()
      ensures old(sent) <= sent && |sent| - |old(sent)| == budget - left
      ensures !done ==> left == 0
      ensures done ==> known == old(known) + Snapshot(specs)
      ensures done ==> seen == Ids(specs)
      ensures budget > 0 ==> (sent == old(sent) <==> Matches(old(known), specs))
    {
      hide Snapshot, Fold, WithoutEmpty, Matches, Ids;
      left, seen := budget, {};
      ghost var base := known;
      UpsertStart(base);
      for i := 0 to |specs|
        invariant Synced()
        invariant left <= budget && old(sent) <= sent && |sent| - |old(sent)| == budget - left
        invariant known == base + Snapshot(specs[..i])
        invariant seen == Ids(specs[..i])
        invariant left == budget ==> known == base
        invariant left == budget <==> Matches(base, specs[..i])
      {
        var s := specs[i];
        assert specs[..i + 1] == specs[..i] + [s];
        MergeStep(base, known, specs[..i], s);
        MatchesAppend(base, specs[..i], s);
        IdsAppend(specs[..i], s);
        MatchesFront(base, specs, i + 1);
        SyncUpsert(known, boot, sent, s);
        seen := seen + {s.id};
        if s.id in known && known[s.id] == s.body {
          assert known[s.id := s.body] == known;
          continue;
        }
        var ok := Send(Upserted(s), left);
        if !ok {
          return false, seen, left;
        }
        left := left - 1;
        known := known[s.id := s.body];
      }
      assert specs[..|specs|] == specs;
      return true, seen, left;
    }

    // The second half: ids that disappeared, in any order.
    method EmitRemovals(seen: set<string>, budget: nat) returns (done: bool, left: nat)
      requires Synced()
      modifies this`known, this`sent
      ensures Synced()
      ensures old(sent) <= sent && |sent| - |old(sent)| == budget - left
      ensures !done ==> left == 0
      ensures done ==> known == old(known) - (old(known).Keys - seen)
      ensures budget > 0 ==> (sent == old(sent) <==> old(known).Keys <= seen)
    {
      left := budget;
      var todo := known.Keys;
      ghost var base := known;
      RemovalEnds(base, seen);
      hide Remaining, NoneGone, Fold, WithoutEmpty;
      while todo != {}
        invariant Synced()
        invariant todo <= known.Keys
        invariant left <= budget && old(sent) <= sent && |sent| - |old(sent)| == budget - left
        invariant known == Remaining(base, seen, todo)
        invariant left == budget <==> NoneGone(base, seen, todo)
      {
        var id :| id in todo;
        RemovalStep(base, seen, todo, id);
        SyncRemove(known, boot, sent, id);
        todo := todo - {id};
        if id in seen {
          continue;
        }
        var ok := Send(Removed(id), left);
        if !ok {
          return false, left;
        }
        left := left - 1;
        known := known - {id};
      }
      return true, left;
    }

    // Sends the events that turn the known copy into the snapshot, until
    // `budget` sends have succeeded.
    method Diff(specs: seq<Spec<B>>, budget: nat) returns (done: bool)
      requires Synced()
      modifies this`known, this`sent
      ensures Synced()
      ensures old(sent) <= sent
      ensures done ==> |sent| - |old(sent)| <= budget
      ensures !done ==> |sent| - |old(sent)| == budget
      ensures done ==> known == Snapshot(specs)
      ensures budget > 0 ==> (sent == old(sent) <==> Settled(old(known), specs))
    {
      var seen, left;
      done, seen, left := EmitUpserts(specs, budget);
      if !done {
        return;
      }
      SnapshotKeys(specs);
      done, left := EmitRemovals(seen, left);
    }
  }

  // ----- repeated polls -----

  // No id occurs with two different specs.
  ghost predicate Consistent<B>(specs: seq<Spec<B>>) {
    forall s, t | s in specs && t in specs && s.id == t.id :: s.body == t.body
  }

  lemma {:induction false} SnapshotPicks<B>(specs: seq<Spec<B>>, id: string)
    requires id in Snapshot(specs)
    ensures exists s | s in specs :: s.id == id && s.body == Snapshot(specs)[id]
  {
    var front, last := specs[..|specs| - 1], specs[|specs| - 1];
    assert specs == front + [last];
    if last.id == id {
      assert last in specs;
    } else {
      SnapshotPicks(front, id);
      var s :| s in front && s.id == id && s.body == Snapshot(front)[id];
      assert s in specs;
    }
  }

  // Polling an unchanged snapshot again is silent exactly when it is consistent;
  // otherwise every poll sends events, however often it repeats.
  lemma {:induction false} SilentExactly<B>(specs: seq<Spec<B>>)
    ensures Settled(Snapshot(specs), specs) <==> Consistent(specs)
  {
    SnapshotKeys(specs);
    var m := Snapshot(specs);
    hide Snapshot;
    if Consistent(specs) {
      forall s | s in specs
        ensures s.id in m && m[s.id] == s.body
      {
        assert s.id in m.Keys;
        SnapshotPicks(specs, s.id);
      }
    }
  }

  // A snapshot that is not: after polling it the copy does not match it.
  lemma TwoSpecsOneId()
    ensures var specs := [Spec("a", 1), Spec("a", 2)];
            !Consistent(specs) && !Settled(Snapshot(specs), specs)
  {
    var specs := [Spec("a", 1), Spec("a", 2)];
    assert specs[0] in specs && specs[1] in specs;
    assert !Consistent(specs);
    SilentExactly(specs);
  }
}
