/**
 The flow-graph walker (internal/flow/flow.go, engine.go): entry nodes,
 successors and the bounded queue execution of an arbitrary graph.
 */
module Flow {

  const MAX_STEPS := 256

  // The port a stop node returns.
  const STOP := "\0stop"

  datatype Node = Node(id: string, kind: string, config: string)
  datatype Edge = Edge(from: string, to: string, port: string)
  datatype Graph = Graph(nodes: seq<Node>, edges: seq<Edge>)

  // ----- entry nodes -----

  predicate IsEntryFrom(from: string) {
    from == "" || from == "start" || from == "trigger"
  }

  function EntryTargets(edges: seq<Edge>): seq<string> {
    if edges == [] then []
    else EntryTargets(edges[..|edges| - 1]) + if IsEntryFrom(edges[|edges| - 1].from) then [edges[|edges| - 1].to] else []
  }

  predicate HasIncoming(edges: seq<Edge>, id: string) {
    exists e | e in edges :: !IsEntryFrom(e.from) && e.to == id
  }

  // The ids of the list in order, without the empty id and without repeats.
  function AddAll(out: seq<string>, ids: seq<string>): seq<string>
    decreases |ids|
  {
    if ids == [] then out
    else
      var front := AddAll(out, ids[..|ids| - 1]);
      var id := ids[|ids| - 1];
      if id == "" || id in front then front else front + [id]
  }

  function Unreached(g: Graph, nodes: seq<Node>): seq<string> {
    if nodes == [] then []
    else
      var n := nodes[|nodes| - 1];
      Unreached(g, nodes[..|nodes| - 1]) + if HasIncoming(g.edges, n.id) then [] else [n.id]
  }

  function Entries(g: Graph): seq<string> {
    AddAll(AddAll([], EntryTargets(g.edges)), Unreached(g, g.nodes))
  }

  method Add(out: seq<string>, seen: set<string>, id: string) returns (out': seq<string>, seen': set<string>)
    requires SeenIs(seen, out)
    ensures out' == AddAll(out, [id])
    ensures SeenIs(seen', out')
  {
    out', seen' := out, seen;
    assert AddAll(out, [id][..0]) == out;
    if id == "" || id in seen {
      return;
    }
    out', seen' := out + [id], seen + {id};
  }

  ghost predicate SeenIs(seen: set<string>, out: seq<string>) {
    forall x :: x in seen <==> x in out
  }

  ghost predicate IncomingIs(incoming: set<string>, edges: seq<Edge>) {
    forall id :: id in incoming <==> HasIncoming(edges, id)
  }

  method SplitEdges(edges: seq<Edge>) returns (incoming: set<string>, explicit: seq<string>)
    ensures explicit == EntryTargets(edges)
    ensures IncomingIs(incoming, edges)
  {
    incoming, explicit := {}, [];
    for i := 0 to |edges|
      invariant explicit == EntryTargets(edges[..i])
      invariant IncomingIs(incoming, edges[..i])
    {
      var e := edges[i];
      assert edges[..i + 1] == edges[..i] + [e];
      IncomingAppend(incoming, edges[..i], e);
      assert EntryTargets(edges[..i] + [e]) == EntryTargets(edges[..i]) + if IsEntryFrom(e.from) then [e.to] else [] by {
        assert (edges[..i] + [e])[..i] == edges[..i];
      }
      if IsEntryFrom(e.from) {
        explicit := explicit + [e.to];
      } else {
        incoming := incoming + {e.to};
      }
      hide EntryTargets, IncomingIs;
    }
    assert edges[..|edges|] == edges;
  }

  method AddExplicit(explicit: seq<string>) returns (out: seq<string>, seen: set<string>)
    ensures out == AddAll([], explicit)
    ensures SeenIs(seen, out)
  {
    out, seen := [], {};
    for i := 0 to |explicit|
      invariant out == AddAll([], explicit[..i])
      invariant SeenIs(seen, out)
    {
      hide AddAll, SeenIs;
      AddAllAppend([], explicit[..i], explicit[i]);
      assert explicit[..i + 1] == explicit[..i] + [explicit[i]];
      out, seen := Add(out, seen, explicit[i]);
    }
    assert explicit[..|explicit|] == explicit;
  }

  method AddUnreached(g: Graph, incoming: set<string>, first: seq<string>, firstSeen: set<string>) returns (out: seq<string>)
    requires IncomingIs(incoming, g.edges) && SeenIs(firstSeen, first)
    ensures out == AddAll(first, Unreached(g, g.nodes))
  {
    out := first;
    var seen := firstSeen;
    for i := 0 to |g.nodes|
      invariant out == AddAll(first, Unreached(g, g.nodes[..i]))
      invariant SeenIs(seen, out)
    {
      var n := g.nodes[i];
      assert n.id in incoming <==> HasIncoming(g.edges, n.id);
      assert g.nodes[..i + 1][..i] == g.nodes[..i];
      ghost var before := Unreached(g, g.nodes[..i]);
      assert before + [] == before;
      assert Unreached(g, g.nodes[..i + 1]) == if HasIncoming(g.edges, n.id) then before else before + [n.id];
      hide AddAll, Unreached, HasIncoming, IncomingIs, SeenIs;
      if n.id !in incoming {
        AddAllAppend(first, before, n.id);
        out, seen := Add(out, seen, n.id);
      }
    }
    assert g.nodes[..|g.nodes|] == g.nodes;
  }

  method EntryNodes(g: Graph) returns (out: seq<string>)
    ensures out == Entries(g)
  {
    var incoming, explicit := SplitEdges(g.edges);
    var first, seen := AddExplicit(explicit);
    out := AddUnreached(g, incoming, first, seen);
  }

  lemma IncomingAppend(incoming: set<string>, edges: seq<Edge>, e: Edge)
    requires IncomingIs(incoming, edges)
    ensures IncomingIs(if IsEntryFrom(e.from) then incoming else incoming + {e.to}, edges + [e])
  {
    forall id
      ensures HasIncoming(edges + [e], id) <==> HasIncoming(edges, id) || (!IsEntryFrom(e.from) && e.to == id)
    {
      if HasIncoming(edges, id) {
        var x :| x in edges && !IsEntryFrom(x.from) && x.to == id;
        assert x in edges + [e];
      }
      if HasIncoming(edges + [e], id) {
        var x :| x in edges + [e] && !IsEntryFrom(x.from) && x.to == id;
        assert x in edges || x == e;
      }
      assert e in edges + [e];
    }
    hide HasIncoming, IsEntryFrom;
  }

  lemma AddAllAppend(out: seq<string>, ids: seq<string>, id: string)
    ensures AddAll(out, ids + [id]) == AddAll(AddAll(out, ids), [id])
  {
    assert (ids + [id])[..|ids|] == ids;
    assert AddAll(AddAll(out, ids), [id][..0]) == AddAll(out, ids);
  }

  ghost predicate NoRepeats(s: seq<string>) {
    forall i, j | 0 <= i < j < |s| :: s[i] != s[j]
  }

  lemma {:induction false} AddAllExact(out: seq<string>, ids: seq<string>)
    requires NoRepeats(out)
    ensures NoRepeats(AddAll(out, ids))
    ensures forall x :: x in AddAll(out, ids) <==> x in out || (x in ids && x != "")
    decreases |ids|
  {
    if ids != [] {
      var front, id := ids[..|ids| - 1], ids[|ids| - 1];
      AddAllExact(out, front);
      assert ids == front + [id];
    }
  }

  // Entry nodes are listed once each: the targets of entry edges and the nodes
  // no other edge points to.
  lemma EntriesExact(g: Graph)
    ensures NoRepeats(Entries(g))
    ensures forall x :: x in Entries(g) <==>
              x != "" && (x in EntryTargets(g.edges) || x in Unreached(g, g.nodes))
  {
    AddAllExact([], EntryTargets(g.edges));
    AddAllExact(AddAll([], EntryTargets(g.edges)), Unreached(g, g.nodes));
  }

  lemma {:induction false} EntryTargetsExact(edges: seq<Edge>)
    ensures forall x :: x in EntryTargets(edges) <==>
              exists e | e in edges :: (e.from == "" || e.from == "start" || e.from == "trigger") && e.to == x
  {
    if edges != [] {
      var front, e := edges[..|edges| - 1], edges[|edges| - 1];
      EntryTargetsExact(front);
      assert edges == front + [e];
      forall x
        ensures x in EntryTargets(edges) <==>
                exists d | d in edges :: (d.from == "" || d.from == "start" || d.from == "trigger") && d.to == x
      {
        assert e in edges && forall d | d in front :: d in edges;
        assert forall d | d in edges :: d in front || d == e;
      }
    }
  }

  lemma {:induction false} UnreachedExact(g: Graph, nodes: seq<Node>)
    ensures forall x :: x in Unreached(g, nodes) <==>
              && (exists n | n in nodes :: n.id == x)
              && forall e | e in g.edges && e.to == x :: e.from == "" || e.from == "start" || e.from == "trigger"
  {
    if nodes != [] {
      var front, n := nodes[..|nodes| - 1], nodes[|nodes| - 1];
      UnreachedExact(g, front);
      HasIncomingExact(g.edges, n.id);
      hide HasIncoming;
      assert nodes == front + [n];
      forall x
        ensures x in Unreached(g, nodes) <==>
                && (exists m | m in nodes :: m.id == x)
                && forall e | e in g.edges && e.to == x :: e.from == "" || e.from == "start" || e.from == "trigger"
      {
        assert n in nodes && forall m | m in front :: m in nodes;
        assert forall m | m in nodes :: m in front || m == n;
      }
    }
  }

  lemma HasIncomingExact(edges: seq<Edge>, id: string)
    ensures !HasIncoming(edges, id) <==> forall e | e in edges && e.to == id :: e.from == "" || e.from == "start" || e.from == "trigger"
  {
  }

  // Entry targets follow the order of the edges, unreached nodes that of the nodes.
  lemma CandidatesInOrder(g: Graph, edges: seq<Edge>, e: Edge, edges': seq<Edge>, nodes: seq<Node>, n: Node, nodes': seq<Node>)
    ensures EntryTargets(edges + [e] + edges') == EntryTargets(edges) + EntryTargets([e]) + EntryTargets(edges')
    ensures EntryTargets([e]) == if e.from == "" || e.from == "start" || e.from == "trigger" then [e.to] else []
    ensures Unreached(g, nodes + [n] + nodes') == Unreached(g, nodes) + Unreached(g, [n]) + Unreached(g, nodes')
    ensures Unreached(g, [n]) == if HasIncoming(g.edges, n.id) then [] else [n.id]
  {
    EntryTargetsConcat(edges, [e]);
    EntryTargetsConcat(edges + [e], edges');
    UnreachedConcat(g, nodes, [n]);
    UnreachedConcat(g, nodes + [n], nodes');
    assert [e][..0] == [] && [n][..0] == [];
  }

  lemma {:induction false} EntryTargetsConcat(a: seq<Edge>, b: seq<Edge>)
    ensures EntryTargets(a + b) == EntryTargets(a) + EntryTargets(b)
    decreases |b|
  {
    if b == [] {
      assert a + b == a;
    } else {
      assert (a + b)[..|a + b| - 1] == a + b[..|b| - 1];
      EntryTargetsConcat(a, b[..|b| - 1]);
    }
  }

  lemma {:induction false} UnreachedConcat(g: Graph, a: seq<Node>, b: seq<Node>)
    ensures Unreached(g, a + b) == Unreached(g, a) + Unreached(g, b)
    decreases |b|
  {
    hide HasIncoming;
    if b == [] {
      assert a + b == a;
    } else {
      assert (a + b)[..|a + b| - 1] == a + b[..|b| - 1];
      UnreachedConcat(g, a, b[..|b| - 1]);
    }
  }

  // x occurs in s, and y only after it.
  ghost predicate Precedes(s: seq<string>, x: string, y: string) {
    exists p :: 0 <= p < |s| && s[p] == x && y !in s[..p + 1]
  }

  // The entry ids are ordered by their first occurrence among the entry targets
  // followed by the unreached nodes.
  lemma EntriesInOrder(g: Graph, i: nat, j: nat)
    requires i < j < |Entries(g)|
    ensures Precedes(EntryTargets(g.edges) + Unreached(g, g.nodes), Entries(g)[i], Entries(g)[j])
  {
    var first, second := EntryTargets(g.edges), Unreached(g, g.nodes);
    AddAllOrdered([], [], first);
    AddAllExact([], first);
    assert [] + first == first;
    AddAllOrdered(first, AddAll([], first), second);
  }

  ghost predicate Ordered(s: seq<string>, out: seq<string>) {
    && (forall x | x in out :: x in s)
    && (forall x | x in s && x != "" :: x in out)
    && forall i, j | 0 <= i < j < |out| :: Precedes(s, out[i], out[j])
  }

  lemma {:induction false} AddAllOrdered(s: seq<string>, out: seq<string>, ids: seq<string>)
    requires Ordered(s, out)
    ensures Ordered(s + ids, AddAll(out, ids))
    decreases |ids|
  {
    if ids == [] {
      assert s + ids == s;
    } else {
      var front, id := ids[..|ids| - 1], ids[|ids| - 1];
      AddAllOrdered(s, out, front);
      assert s + ids == (s + front) + [id];
      OrderedAppend(s + front, AddAll(out, front), id);
    }
  }

  lemma OrderedAppend(s: seq<string>, out: seq<string>, id: string)
    requires Ordered(s, out)
    ensures Ordered(s + [id], if id == "" || id in out then out else out + [id])
  {
    forall x, y | Precedes(s, x, y)
      ensures Precedes(s + [id], x, y)
    {
      var p :| 0 <= p < |s| && s[p] == x && y !in s[..p + 1];
      assert (s + [id])[..p + 1] == s[..p + 1];
    }
    if id != "" && id !in out {
      forall x | x in out
        ensures Precedes(s + [id], x, id)
      {
        var p :| 0 <= p < |s| && s[p] == x;
        assert (s + [id])[p] == x && (s + [id])[..p + 1] == s[..p + 1];
        assert forall k | 0 <= k < |s| :: s[k] in s;
      }
    }
    hide Precedes;
  }

  // ----- successors -----

  function Targets(edges: seq<Edge>, from: string, port: string): seq<string> {
    if edges == [] then []
    else
      var e := edges[|edges| - 1];
      Targets(edges[..|edges| - 1], from, port) + if e.from == from && e.port == port then [e.to] else []
  }

  method Successors(g: Graph, from: string, port: string) returns (out: seq<string>)
    ensures out == Targets(g.edges, from, port)
  {
    out := [];
    for i := 0 to |g.edges|
      invariant out == Targets(g.edges[..i], from, port)
    {
      var e := g.edges[i];
      assert g.edges[..i + 1][..i] == g.edges[..i];
      if e.from == from {
        if e.port == port {
          out := out + [e.to];
        }
      }
    }
    assert g.edges[..|g.edges|] == g.edges;
  }

  // Successors follow the order of the edges.
  lemma TargetsInOrder(a: seq<Edge>, e: Edge, b: seq<Edge>, from: string, port: string)
    ensures Targets(a + [e] + b, from, port) == Targets(a, from, port) + Targets([e], from, port) + Targets(b, from, port)
    ensures Targets([e], from, port) == if e.from == from && e.port == port then [e.to] else []
  {
    assert [e][..0] == [];
    TargetsConcat(a, [e], from, port);
    TargetsConcat(a + [e], b, from, port);
  }

  lemma {:induction false} TargetsConcat(a: seq<Edge>, b: seq<Edge>, from: string, port: string)
    ensures Targets(a + b, from, port) == Targets(a, from, port) + Targets(b, from, port)
    decreases |b|
  {
    if b == [] {
      assert a + b == a;
    } else {
      assert (a + b)[..|a + b| - 1] == a + b[..|b| - 1];
      TargetsConcat(a, b[..|b| - 1], from, port);
    }
  }

  // Number of edges from `from` on `port` to `to`.
  function EdgeCount(edges: seq<Edge>, from: string, port: string, to: string): nat {
    if edges == [] then 0
    else
      EdgeCount(edges[..|edges| - 1], from, port, to) + if edges[|edges| - 1] == Edge(from, to, port) then 1 else 0
  }

  lemma {:induction false} TargetsCount(edges: seq<Edge>, from: string, port: string, to: string)
    ensures multiset(Targets(edges, from, port))[to] == EdgeCount(edges, from, port, to)
  {
    if edges != [] {
      TargetsCount(edges[..|edges| - 1], from, port, to);
    }
  }

  // ----- the walk -----

  datatype Outcome = Failed | Out(port: string)

  // One popped id and, when its node ran and was not a stop, the port followed.
  datatype Pop = Skipped(id: string) | Ran(id: string, port: string)

  datatype Walked<B> = Walked(pops: seq<Pop>, bag: B, rest: seq<string>)

  // The last node with an id is the one that runs.
  function IndexOf(nodes: seq<Node>): (m: map<string, Node>)
    ensures forall id | id in m :: m[id].id == id
  {
    if nodes == [] then map[]
    else IndexOf(nodes[..|nodes| - 1])[nodes[|nodes| - 1].id := nodes[|nodes| - 1]]
  }

  predicate Executable(g: Graph, known: set<string>, id: string) {
    id in IndexOf(g.nodes) && IndexOf(g.nodes)[id].kind in known
  }

  // What popping one id does: the record, the ids it appends, and the new bag.
  function Visit<B>(g: Graph, known: set<string>, handle: (Node, B) -> (Outcome, B), id: string, bag: B): (Pop, seq<string>, B) {
    if !Executable(g, known, id) then (Skipped(id), [], bag)
    else
      var (outcome, bag') := handle(IndexOf(g.nodes)[id], bag);
      if outcome.Failed? || outcome.port == STOP then (Skipped(id), [], bag')
      else (Ran(id, outcome.port), Targets(g.edges, id, outcome.port), bag')
  }

  // The walk with at most `steps` pops.
  function Walk<B>(g: Graph, known: set<string>, handle: (Node, B) -> (Outcome, B), queue: seq<string>, bag: B, steps: nat): (w: Walked<B>)
    ensures |w.pops| <= steps
    ensures w.rest != [] ==> |w.pops| == steps
    decreases steps
  {
    if queue == [] || steps == 0 then Walked([], bag, queue)
    else
      var (pop, next, bag') := Visit(g, known, handle, queue[0], bag);
      var w := Walk(g, known, handle, queue[1..] + next, bag', steps - 1);
      w.(pops := [pop] + w.pops)
  }

  method BuildIndex(nodes: seq<Node>) returns (index: map<string, Node>)
    ensures index == IndexOf(nodes)
  {
    index := map[];
    for i := 0 to |nodes|
      invariant index == IndexOf(nodes[..i])
    {
      assert nodes[..i + 1][..i] == nodes[..i];
      index := index[nodes[i].id := nodes[i]];
    }
    assert nodes[..|nodes|] == nodes;
  }

  // The executed pops, the final bag and what the step ceiling left unpopped.
  method Run<B>(g: Graph, known: set<string>, handle: (Node, B) -> (Outcome, B), start: B) returns (w: Walked<B>)
    ensures w == Walk(g, known, handle, Entries(g), start, 256)
  {
    var queue := EntryNodes(g);
    var index := BuildIndex(g.nodes);
    var steps, bag := 0, start;
    var pops: seq<Pop> := [];
    ghost var whole := Walk(g, known, handle, queue, bag, MAX_STEPS);
    while queue != []
      invariant 0 <= steps <= MAX_STEPS
      invariant Resumes(g, known, handle, pops, queue, bag, MAX_STEPS - steps, whole)
      decreases MAX_STEPS - steps
    {
      if steps >= MAX_STEPS {
        assert pops + [] == pops;
        return Walked(pops, bag, queue);
      }
      steps := steps + 1;
      var id := queue[0];
      ResumesStep(g, known, handle, pops, queue, bag, MAX_STEPS - steps, whole);
      ghost var visit := Visit(g, known, handle, id, bag);
      hide Resumes, Walk, IndexOf, Entries, Targets;
      queue := queue[1..];
      ghost var tail := queue;
      if id !in index {
        pops := pops + [Skipped(id)];
      } else if index[id].kind !in known {
        pops := pops + [Skipped(id)];
      } else {
        var (outcome, bag') := handle(index[id], bag);
        bag := bag';
        if outcome.Failed? || outcome.port == STOP {
          pops := pops + [Skipped(id)];
        } else {
          var next := Successors(g, id, outcome.port);
          queue := queue + next;
          pops := pops + [Ran(id, outcome.port)];
        }
      }
      assert queue == tail + visit.1 && bag == visit.2;
    }
    assert pops + [] == pops;
    return Walked(pops, bag, []);
  }

  // The records so far, continued by the walk of what is queued, make up the whole walk.
  ghost predicate Resumes<B>(g: Graph, known: set<string>, handle: (Node, B) -> (Outcome, B), pops: seq<Pop>, queue: seq<string>, bag: B, steps: nat, whole: Walked<B>) {
    var w := Walk(g, known, handle, queue, bag, steps);
    whole == w.(pops := pops + w.pops)
  }

  lemma ResumesStep<B>(g: Graph, known: set<string>, handle: (Node, B) -> (Outcome, B), pops: seq<Pop>, queue: seq<string>, bag: B, steps: nat, whole: Walked<B>)
    requires queue != [] && Resumes(g, known, handle, pops, queue, bag, steps + 1, whole)
    ensures var (pop, next, bag') := Visit(g, known, handle, queue[0], bag);
            Resumes(g, known, handle, pops + [pop], queue[1..] + next, bag', steps, whole)
  {
    hide Visit;
    var (pop, next, bag') := Visit(g, known, handle, queue[0], bag);
    var w := Walk(g, known, handle, queue[1..] + next, bag', steps);
    assert Walk(g, known, handle, queue, bag, steps + 1) == w.(pops := [pop] + w.pops);
    hide Walk;
    assert pops + ([pop] + w.pops) == (pops + [pop]) + w.pops;
  }

  // ----- activation accounting -----

  function Ids(pops: seq<Pop>): seq<string> {
    seq(|pops|, i requires 0 <= i < |pops| => pops[i].id)
  }

  // The ids appended by the pops, in order.
  function Followed(g: Graph, pops: seq<Pop>): seq<string> {
    if pops == [] then []
    else (if pops[0].Ran? then Targets(g.edges, pops[0].id, pops[0].port) else []) + Followed(g, pops[1..])
  }

  // First in, first out: the popped ids and what is left are the entry ids
  // followed by the successors of every executed pop, in that order.
  lemma {:induction false} WalkOrder<B>(g: Graph, known: set<string>, handle: (Node, B) -> (Outcome, B), queue: seq<string>, bag: B, steps: nat)
    ensures var w := Walk(g, known, handle, queue, bag, steps);
            Ids(w.pops) + w.rest == queue + Followed(g, w.pops)
    decreases steps
  {
    if queue != [] && steps > 0 {
      var (pop, next, bag') := Visit(g, known, handle, queue[0], bag);
      VisitFollows(g, known, handle, queue[0], bag);
      hide Visit, Targets;
      var tail := queue[1..] + next;
      WalkOrder(g, known, handle, tail, bag', steps - 1);
      var w := Walk(g, known, handle, tail, bag', steps - 1);
      assert Walk(g, known, handle, queue, bag, steps) == w.(pops := [pop] + w.pops);
      hide Walk;
      assert ([pop] + w.pops)[1..] == w.pops;
      assert Followed(g, [pop] + w.pops) == next + Followed(g, w.pops);
      hide Followed;
      assert Ids([pop] + w.pops) == [queue[0]] + Ids(w.pops);
      hide Ids;
      OrderStep(queue, next, Ids(w.pops), w.rest, Followed(g, w.pops));
    }
  }

  lemma VisitFollows<B>(g: Graph, known: set<string>, handle: (Node, B) -> (Outcome, B), id: string, bag: B)
    ensures var (pop, next, _) := Visit(g, known, handle, id, bag);
            pop.id == id && next == if pop.Ran? then Targets(g.edges, pop.id, pop.port) else []
  {
    hide Targets, IndexOf;
  }

  lemma OrderStep(queue: seq<string>, next: seq<string>, ids: seq<string>, rest: seq<string>, followed: seq<string>)
    requires queue != [] && ids + rest == (queue[1..] + next) + followed
    ensures ([queue[0]] + ids) + rest == queue + (next + followed)
  {
    assert ([queue[0]] + ids) + rest == [queue[0]] + (ids + rest);
    assert [queue[0]] + ((queue[1..] + next) + followed) == queue + (next + followed);
  }

  // Matching edges into `id` from all executed pops.
  function Activations(g: Graph, pops: seq<Pop>, id: string): nat {
    if pops == [] then 0
    else (if pops[0].Ran? then EdgeCount(g.edges, pops[0].id, pops[0].port, id) else 0) + Activations(g, pops[1..], id)
  }

  lemma {:induction false} FollowedCount(g: Graph, pops: seq<Pop>, id: string)
    ensures multiset(Followed(g, pops))[id] == Activations(g, pops, id)
  {
    if pops != [] {
      if pops[0].Ran? {
        TargetsCount(g.edges, pops[0].id, pops[0].port, id);
      }
      FollowedCount(g, pops[1..], id);
    }
  }

  // A run that empties its queue has popped every id once for being an entry
  // node and once for every matching edge of every execution.
  lemma ActivationAccounting<B>(g: Graph, known: set<string>, handle: (Node, B) -> (Outcome, B), start: B, id: string)
    ensures var w := Walk(g, known, handle, Entries(g), start, MAX_STEPS);
            && |w.pops| <= MAX_STEPS
            && (w.rest == [] ==>
                  multiset(Ids(w.pops))[id] == (if id in Entries(g) then 1 else 0) + Activations(g, w.pops, id))
  {
    var w := Walk(g, known, handle, Entries(g), start, MAX_STEPS);
    WalkOrder(g, known, handle, Entries(g), start, MAX_STEPS);
    FollowedCount(g, w.pops, id);
    EntriesExact(g);
    hide Walk, Entries, Followed, Activations;
    OnceEach(Entries(g), id);
    if w.rest == [] {
      assert Ids(w.pops) + [] == Ids(w.pops);
      assert multiset(Entries(g) + Followed(g, w.pops)) == multiset(Entries(g)) + multiset(Followed(g, w.pops));
    }
  }

  lemma {:induction false} OnceEach(s: seq<string>, id: string)
    requires NoRepeats(s)
    ensures multiset(s)[id] == if id in s then 1 else 0
  {
    if s != [] {
      var front, last := s[..|s| - 1], s[|s| - 1];
      OnceEach(front, id);
      assert s == front + [last];
      assert last !in front;
    }
  }

  // ----- the shared bag -----

  datatype Handler = NoHandler | Handler(node: Node)

  // The node that runs for an id: the last one listed with it, if its kind is known.
  function HandlerOf(nodes: seq<Node>, known: set<string>, id: string): Handler {
    if nodes == [] then NoHandler
    else
      var n := nodes[|nodes| - 1];
      if n.id != id then HandlerOf(nodes[..|nodes| - 1], known, id)
      else if n.kind in known then Handler(n)
      else NoHandler
  }

  // So whatever comes after the last node with the id does not matter.
  lemma {:induction false} LastListedRuns(before: seq<Node>, n: Node, later: seq<Node>, known: set<string>)
    requires forall m | m in later :: m.id != n.id
    ensures HandlerOf(before + [n] + later, known, n.id) == if n.kind in known then Handler(n) else NoHandler
    decreases |later|
  {
    var all := before + [n] + later;
    if later == [] {
      assert all == before + [n];
    } else {
      assert all[..|all| - 1] == before + [n] + later[..|later| - 1];
      assert later[|later| - 1] in later;
      LastListedRuns(before, n, later[..|later| - 1], known);
    }
  }

  // The bag before the k-th pop: every earlier handler has written to it in
  // turn, whether it then failed, stopped or went on.
  function BagBefore<B>(g: Graph, known: set<string>, handle: (Node, B) -> (Outcome, B), pops: seq<Pop>, start: B, k: nat): B
    requires k <= |pops|
  {
    if k == 0 then start
    else
      var bag := BagBefore(g, known, handle, pops, start, k - 1);
      match HandlerOf(g.nodes, known, pops[k - 1].id)
      case NoHandler => bag
      case Handler(n) => handle(n, bag).1
  }

  // The k-th pop records what its node answers on that bag.
  ghost predicate Answers<B>(g: Graph, known: set<string>, handle: (Node, B) -> (Outcome, B), pops: seq<Pop>, start: B, k: nat)
    requires k < |pops|
  {
    match HandlerOf(g.nodes, known, pops[k].id)
    case NoHandler => pops[k].Skipped?
    case Handler(n) =>
      var outcome := handle(n, BagBefore(g, known, handle, pops, start, k)).0;
      if outcome == Failed || outcome == Out("\0stop") then pops[k].Skipped? else pops[k].Ran? && outcome == Out(pops[k].port)
  }

  // Over a whole run every node sees all that the nodes before it wrote.
  lemma {:induction false} BagIsShared<B>(g: Graph, known: set<string>, handle: (Node, B) -> (Outcome, B), queue: seq<string>, bag: B, steps: nat)
    ensures var w := Walk(g, known, handle, queue, bag, steps);
            && w.bag == BagBefore(g, known, handle, w.pops, bag, |w.pops|)
            && forall k: nat | k < |w.pops| :: Answers(g, known, handle, w.pops, bag, k)
    decreases steps
  {
    if queue != [] && steps > 0 {
      var (pop, next, bag') := Visit(g, known, handle, queue[0], bag);
      VisitAnswers(g, known, handle, queue[0], bag);
      hide Visit, HandlerOf;
      var tail := queue[1..] + next;
      BagIsShared(g, known, handle, tail, bag', steps - 1);
      var w := Walk(g, known, handle, tail, bag', steps - 1);
      assert Walk(g, known, handle, queue, bag, steps) == w.(pops := [pop] + w.pops);
      hide Walk;
      BagAfterFirst(g, known, handle, pop, w.pops, bag, |w.pops|);
      forall k: nat | k < |w.pops| + 1
        ensures Answers(g, known, handle, [pop] + w.pops, bag, k)
      {
        if k > 0 {
          BagAfterFirst(g, known, handle, pop, w.pops, bag, k - 1);
          assert Answers(g, known, handle, w.pops, bag', k - 1);
          assert ([pop] + w.pops)[k] == w.pops[k - 1];
        }
      }
    }
  }

  lemma VisitAnswers<B>(g: Graph, known: set<string>, handle: (Node, B) -> (Outcome, B), id: string, bag: B)
    ensures var (pop, _, bag') := Visit(g, known, handle, id, bag);
            && pop.id == id
            && Answers(g, known, handle, [pop], bag, 0)
            && bag' == BagBefore(g, known, handle, [pop], bag, 1)
  {
    IndexIsHandler(g.nodes, known, id);
    hide IndexOf, HandlerOf;
  }

  lemma {:induction false} IndexIsHandler(nodes: seq<Node>, known: set<string>, id: string)
    ensures HandlerOf(nodes, known, id) ==
            if id in IndexOf(nodes) && IndexOf(nodes)[id].kind in known then Handler(IndexOf(nodes)[id]) else NoHandler
  {
    if nodes != [] {
      IndexIsHandler(nodes[..|nodes| - 1], known, id);
    }
  }

  lemma {:induction false} BagAfterFirst<B>(g: Graph, known: set<string>, handle: (Node, B) -> (Outcome, B), pop: Pop, pops: seq<Pop>, start: B, k: nat)
    requires k <= |pops|
    ensures BagBefore(g, known, handle, [pop] + pops, start, k + 1) ==
            BagBefore(g, known, handle, pops, BagBefore(g, known, handle, [pop], start, 1), k)
    decreases k
  {
    hide HandlerOf;
    if k > 0 {
      BagAfterFirst(g, known, handle, pop, pops, start, k - 1);
      assert ([pop] + pops)[k] == pops[k - 1];
    } else {
      assert BagBefore(g, known, handle, [pop] + pops, start, 0) == BagBefore(g, known, handle, [pop], start, 0);
    }
  }

  // ----- the step ceiling on acyclic graphs -----

  // Every edge leads to a smaller rank.
  ghost predicate Acyclic(g: Graph, rank: string -> nat) {
    forall e | e in g.edges :: rank(e.to) < rank(e.from)
  }

  // The most pops that visiting an id can lead to, itself included.
  ghost function Weight(g: Graph, known: set<string>, rank: string -> nat, id: string): (n: nat)
    requires Acyclic(g, rank)
    ensures n >= 1
    decreases rank(id), 2, 0
  {
    if Executable(g, known, id) then 1 + BestPort(g, known, rank, id, |g.edges|).1 else 1
  }

  // The heaviest port among the first k edges leaving id, and its weight; STOP if none.
  ghost function BestPort(g: Graph, known: set<string>, rank: string -> nat, id: string, k: nat): (string, nat)
    requires Acyclic(g, rank) && k <= |g.edges|
    decreases rank(id), 1, k
  {
    if k == 0 then (STOP, 0)
    else
      var best := BestPort(g, known, rank, id, k - 1);
      var e := g.edges[k - 1];
      if e.from == id && e.port != STOP && PortWeight(g, known, rank, id, e.port, |g.edges|) > best.1
      then (e.port, PortWeight(g, known, rank, id, e.port, |g.edges|))
      else best
  }

  // Total weight of the targets of the first k edges leaving id on a port.
  ghost function PortWeight(g: Graph, known: set<string>, rank: string -> nat, id: string, port: string, k: nat): nat
    requires Acyclic(g, rank) && k <= |g.edges|
    decreases rank(id), 0, k
  {
    if k == 0 then 0
    else
      var e := g.edges[k - 1];
      PortWeight(g, known, rank, id, port, k - 1) +
      if e.from == id && e.port == port then Weight(g, known, rank, e.to) else 0
  }

  ghost function TotalWeight(g: Graph, known: set<string>, rank: string -> nat, queue: seq<string>): nat
    requires Acyclic(g, rank)
  {
    if queue == [] then 0 else Weight(g, known, rank, queue[0]) + TotalWeight(g, known, rank, queue[1..])
  }

  lemma {:induction false} TotalWeightConcat(g: Graph, known: set<string>, rank: string -> nat, a: seq<string>, b: seq<string>)
    requires Acyclic(g, rank)
    ensures TotalWeight(g, known, rank, a + b) == TotalWeight(g, known, rank, a) + TotalWeight(g, known, rank, b)
    decreases |a|
  {
    hide Weight;
    if a == [] {
      assert a + b == b;
    } else {
      assert (a + b)[1..] == a[1..] + b;
      TotalWeightConcat(g, known, rank, a[1..], b);
    }
  }

  lemma {:induction false} TargetsWeight(g: Graph, known: set<string>, rank: string -> nat, id: string, port: string, k: nat)
    requires Acyclic(g, rank) && k <= |g.edges|
    ensures TotalWeight(g, known, rank, Targets(g.edges[..k], id, port)) == PortWeight(g, known, rank, id, port, k)
    decreases k
  {
    hide Weight, PortWeight, Targets, Acyclic;
    PortWeightStep(g, known, rank, id, port, k);
    if k == 0 {
      assert Targets(g.edges[..0], id, port) == [] by {
        TargetsStep(g.edges, id, port, 0);
      }
    } else {
      var e := g.edges[k - 1];
      var before := Targets(g.edges[..k - 1], id, port);
      TargetsStep(g.edges, id, port, k);
      TargetsWeight(g, known, rank, id, port, k - 1);
      if e.from == id && e.port == port {
        TotalWeightConcat(g, known, rank, before, [e.to]);
        assert TotalWeight(g, known, rank, [e.to]) == Weight(g, known, rank, e.to);
      }
    }
  }

  lemma TargetsStep(edges: seq<Edge>, id: string, port: string, k: nat)
    requires k <= |edges|
    ensures k == 0 ==> Targets(edges[..k], id, port) == []
    ensures k > 0 ==> var before := Targets(edges[..k - 1], id, port);
                      Targets(edges[..k], id, port) ==
                      if edges[k - 1].from == id && edges[k - 1].port == port then before + [edges[k - 1].to] else before
  {
    if k > 0 {
      assert edges[..k][..k - 1] == edges[..k - 1];
      assert Targets(edges[..k - 1], id, port) + [] == Targets(edges[..k - 1], id, port);
    }
  }

  lemma PortWeightStep(g: Graph, known: set<string>, rank: string -> nat, id: string, port: string, k: nat)
    requires Acyclic(g, rank) && k <= |g.edges|
    ensures k == 0 ==> PortWeight(g, known, rank, id, port, k) == 0
    ensures k > 0 ==> PortWeight(g, known, rank, id, port, k) == PortWeight(g, known, rank, id, port, k - 1) +
                      if g.edges[k - 1].from == id && g.edges[k - 1].port == port then Weight(g, known, rank, g.edges[k - 1].to) else 0
  {
    hide Weight;
  }

  // The best port is at least as heavy as any other, and attains its weight.
  lemma {:induction false} BestPortIsBest(g: Graph, known: set<string>, rank: string -> nat, id: string, k: nat)
    requires Acyclic(g, rank) && k <= |g.edges|
    ensures var best := BestPort(g, known, rank, id, k);
            && (forall i | 0 <= i < k && g.edges[i].from == id && g.edges[i].port != STOP ::
                  PortWeight(g, known, rank, id, g.edges[i].port, |g.edges|) <= best.1)
            && (best.0 == STOP ==> best.1 == 0)
            && (best.0 != STOP ==> best.1 == PortWeight(g, known, rank, id, best.0, |g.edges|))
    decreases k
  {
    hide PortWeight;
    if k > 0 {
      BestPortIsBest(g, known, rank, id, k - 1);
    }
  }

  lemma {:induction false} UnusedPort(g: Graph, known: set<string>, rank: string -> nat, id: string, port: string, k: nat)
    requires Acyclic(g, rank) && k <= |g.edges|
    requires forall i | 0 <= i < k :: !(g.edges[i].from == id && g.edges[i].port == port)
    ensures PortWeight(g, known, rank, id, port, k) == 0
    decreases k
  {
    if k > 0 {
      UnusedPort(g, known, rank, id, port, k - 1);
    }
  }

  // No port outweighs the best one.
  lemma PortAtMostBest(g: Graph, known: set<string>, rank: string -> nat, id: string, port: string)
    requires Acyclic(g, rank) && port != STOP
    ensures PortWeight(g, known, rank, id, port, |g.edges|) <= BestPort(g, known, rank, id, |g.edges|).1
  {
    BestPortIsBest(g, known, rank, id, |g.edges|);
    hide PortWeight, BestPort;
    if forall i | 0 <= i < |g.edges| :: !(g.edges[i].from == id && g.edges[i].port == port) {
      UnusedPort(g, known, rank, id, port, |g.edges|);
    }
  }

  // What a visit appends weighs at most one less than the visited id.
  lemma VisitWeight<B>(g: Graph, known: set<string>, rank: string -> nat, handle: (Node, B) -> (Outcome, B), id: string, bag: B)
    requires Acyclic(g, rank)
    ensures TotalWeight(g, known, rank, Visit(g, known, handle, id, bag).1) <= Weight(g, known, rank, id) - 1
  {
    var (pop, next, bag') := Visit(g, known, handle, id, bag);
    if pop.Ran? {
      assert g.edges[..|g.edges|] == g.edges;
      TargetsWeight(g, known, rank, id, pop.port, |g.edges|);
      PortAtMostBest(g, known, rank, id, pop.port);
    }
  }

  lemma {:induction false} WalkFinishes<B>(g: Graph, known: set<string>, rank: string -> nat, handle: (Node, B) -> (Outcome, B), queue: seq<string>, bag: B, steps: nat)
    requires Acyclic(g, rank) && TotalWeight(g, known, rank, queue) <= steps
    ensures Walk(g, known, handle, queue, bag, steps).rest == []
    decreases steps
  {
    if queue != [] {
      assert TotalWeight(g, known, rank, queue) == Weight(g, known, rank, queue[0]) + TotalWeight(g, known, rank, queue[1..]);
      hide Weight, TotalWeight;
      var (pop, next, bag') := Visit(g, known, handle, queue[0], bag);
      VisitWeight(g, known, rank, handle, queue[0], bag);
      TotalWeightConcat(g, known, rank, queue[1..], next);
      WalkFinishes(g, known, rank, handle, queue[1..] + next, bag', steps - 1);
    }
  }

  // On an acyclic graph whose entry nodes weigh at most the ceiling no run,
  // whatever its handlers do, is cut short.
  lemma CeilingNeverHit<B>(g: Graph, known: set<string>, rank: string -> nat, handle: (Node, B) -> (Outcome, B), start: B)
    requires Acyclic(g, rank) && TotalWeight(g, known, rank, Entries(g)) <= MAX_STEPS
    ensures Walk(g, known, handle, Entries(g), start, MAX_STEPS).rest == []
  {
    WalkFinishes(g, known, rank, handle, Entries(g), start, MAX_STEPS);
  }

  // The handlers that always take the heaviest port.
  ghost function Greediest<B>(g: Graph, known: set<string>, rank: string -> nat): (Node, B) -> (Outcome, B)
    requires Acyclic(g, rank)
  {
    (n: Node, b: B) => (Out(BestPort(g, known, rank, n.id, |g.edges|).0), b)
  }

  lemma GreediestVisit<B>(g: Graph, known: set<string>, rank: string -> nat, id: string, bag: B)
    requires Acyclic(g, rank)
    ensures TotalWeight(g, known, rank, Visit(g, known, Greediest(g, known, rank), id, bag).1) ==
            Weight(g, known, rank, id) - 1
  {
    if Executable(g, known, id) {
      BestPortIsBest(g, known, rank, id, |g.edges|);
      var best := BestPort(g, known, rank, id, |g.edges|);
      assert g.edges[..|g.edges|] == g.edges;
      if best.0 != STOP {
        TargetsWeight(g, known, rank, id, best.0, |g.edges|);
      }
    }
  }

  lemma {:induction false} GreediestWalk<B>(g: Graph, known: set<string>, rank: string -> nat, queue: seq<string>, bag: B, steps: nat)
    requires Acyclic(g, rank) && TotalWeight(g, known, rank, queue) > steps
    ensures Walk(g, known, Greediest(g, known, rank), queue, bag, steps).rest != []
    decreases steps
  {
    if steps > 0 {
      assert queue != [];
      assert TotalWeight(g, known, rank, queue) == Weight(g, known, rank, queue[0]) + TotalWeight(g, known, rank, queue[1..]);
      hide Weight, TotalWeight;
      var (pop, next, bag') := Visit(g, known, Greediest(g, known, rank), queue[0], bag);
      GreediestVisit(g, known, rank, queue[0], bag);
      TotalWeightConcat(g, known, rank, queue[1..], next);
      GreediestWalk(g, known, rank, queue[1..] + next, bag', steps - 1);
    }
  }

  // Any heavier acyclic graph has handlers that run into the ceiling: the
  // weight is the exact bound.
  lemma CeilingReached<B>(g: Graph, known: set<string>, rank: string -> nat, start: B)
    requires Acyclic(g, rank) && TotalWeight(g, known, rank, Entries(g)) > MAX_STEPS
    ensures Walk(g, known, Greediest(g, known, rank), Entries(g), start, MAX_STEPS).rest != []
  {
    GreediestWalk(g, known, rank, Entries(g), start, MAX_STEPS);
  }
}
