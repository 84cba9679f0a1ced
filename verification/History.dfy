/**
 The in-memory message history (internal/messages/messages.go) and the in-place
 reversal of its pages before a replay (internal/connector/irc/bouncer.go).
 The zero timestamp is 0.
 */
module History {

  const PER_CHANNEL_CAP := 200

  datatype Message = Message(channel: string, ts: int, text: string)

  function Reverse<T>(s: seq<T>): (r: seq<T>)
    ensures |r| == |s|
  {
    if s == [] then [] else Reverse(s[1..]) + [s[0]]
  }

  lemma {:induction false} ReverseAt<T>(s: seq<T>, k: nat)
    requires k < |s|
    ensures Reverse(s)[k] == s[|s| - 1 - k]
  {
    if k < |s| - 1 {
      ReverseAt(s[1..], k);
    }
  }

  lemma {:induction false} ReverseConcat<T>(a: seq<T>, b: seq<T>)
    ensures Reverse(a + b) == Reverse(b) + Reverse(a)
    decreases |a|
  {
    if a == [] {
      assert a + b == b;
    } else {
      ReverseConcat(a[1..], b);
      assert (a + b)[1..] == a[1..] + b;
    }
  }

  lemma {:induction false} ReverseReverse<T>(s: seq<T>)
    ensures Reverse(Reverse(s)) == s
  {
    if s != [] {
      ReverseReverse(s[1..]);
      ReverseConcat(Reverse(s[1..]), [s[0]]);
      assert Reverse([s[0]]) == [s[0]];
    }
  }

  // A zero `before` is no bound.
  predicate Older(m: Message, before: int) {
    before == 0 || m.ts < before
  }

  function AllOlder(s: seq<Message>, before: int): (r: seq<Message>)
    ensures |r| <= |s|
  {
    if s == [] then []
    else (if Older(s[0], before) then [s[0]] else []) + AllOlder(s[1..], before)
  }

  lemma {:induction false} AllOlderConcat(a: seq<Message>, b: seq<Message>, before: int)
    ensures AllOlder(a + b, before) == AllOlder(a, before) + AllOlder(b, before)
    decreases |a|
  {
    if a == [] {
      assert a + b == b;
    } else {
      AllOlderConcat(a[1..], b, before);
      assert (a + b)[0] == a[0] && (a + b)[1..] == a[1..] + b;
      var head := if Older(a[0], before) then [a[0]] else [];
      assert AllOlder(a + b, before) == head + AllOlder(a[1..] + b, before);
      assert AllOlder(a, before) == head + AllOlder(a[1..], before);
      hide AllOlder, Older;
    }
  }

  function Take<T>(s: seq<T>, n: int): seq<T> {
    if n <= 0 then [] else if n < |s| then s[..n] else s
  }

  function Last<T>(s: seq<T>, n: nat): (r: seq<T>)
    ensures |r| <= n
  {
    if |s| > n then s[|s| - n..] else s
  }

  // One page: at most `limit` messages older than `before`, newest first.
  function Page(bucket: seq<Message>, before: int, limit: int): seq<Message> {
    Take(Reverse(AllOlder(bucket, before)), limit)
  }

  // The submissions of one channel, oldest first.
  function Of(history: seq<Message>, channel: string): seq<Message> {
    if history == [] then []
    else
      var last := history[|history| - 1];
      Of(history[..|history| - 1], channel) + if last.channel == channel then [last] else []
  }

  lemma OfAppend(history: seq<Message>, m: Message, channel: string)
    ensures Of(history + [m], channel) == if m.channel == channel then Of(history, channel) + [m] else Of(history, channel)
  {
    assert (history + [m])[..|history|] == history;
  }

  // Appending to a ring of the newest n and dropping the overflow leaves the newest n.
  lemma RingStep(s: seq<Message>, m: Message, n: nat)
    requires n > 0
    ensures Trim(Last(s, n) + [m], n) == Last(s + [m], n)
  {
  }

  function Trim(bucket: seq<Message>, cap: nat): seq<Message> {
    if |bucket| > cap then bucket[|bucket| - cap..] else bucket
  }

  class MemoryStore {
    const cap: nat
    var channels: map<string, seq<Message>>
    ghost var history: seq<Message>

    // Each ring is the newest `cap` submissions of its channel.
    ghost predicate Valid()
      reads this
    {
      && cap > 0
      && forall c | c != "" :: Bucket(c) == Last(Of(history, c), cap)
    }

    function Bucket(channel: string): seq<Message>
      reads this
    {
      if channel in channels then channels[channel] else []
    }

    constructor (cap: int)
      ensures Valid() && history == []
      ensures this.cap == if cap <= 0 then 200 else cap
    {
      this.cap := if cap <= 0 then PER_CHANNEL_CAP else cap;
      channels := map[];
      history := [];
    }

    method Submit(m: Message)
      requires Valid()
      modifies this
      ensures Valid() && history == old(history) + [m]
    {
      ghost var was := history;
      forall c | c != ""
        ensures Of(was + [m], c) == if m.channel == c then Of(was, c) + [m] else Of(was, c)
      {
        OfAppend(was, m, c);
      }
      RingStep(Of(was, m.channel), m, cap);
      hide Of, Last;
      history := history + [m];
      if m.channel == "" {
        return;
      }
      var bucket := Trim(Bucket(m.channel) + [m], cap);
      channels := channels[m.channel := bucket];
    }

    method Recent(channel: string, before: int, limit: int) returns (out: seq<Message>)
      requires Valid()
      ensures out == if channel == "" then [] else Page(Last(Of(history, channel), cap), before, limit)
    {
      hide Of, Last;
      out := [];
      if channel == "" || limit <= 0 {
        return;
      }
      var bucket := Bucket(channel);
      if |bucket| == 0 {
        return;
      }
      out := Newest(bucket, before, limit);
    }
  }

  // Walks the ring from its newest message.
  method Newest(bucket: seq<Message>, before: int, limit: nat) returns (out: seq<Message>)
    requires limit > 0
    ensures out == Page(bucket, before, limit)
  {
    out := [];
    var i := |bucket| - 1;
    while i >= 0
      invariant -1 <= i < |bucket|
      invariant out == Reverse(AllOlder(bucket[i + 1..], before)) && |out| < limit
    {
      var m := bucket[i];
      assert bucket[i..][1..] == bucket[i + 1..];
      if before != 0 && !(m.ts < before) {
        assert AllOlder(bucket[i..], before) == AllOlder(bucket[i + 1..], before);
        i := i - 1;
        continue;
      }
      ghost var rest := AllOlder(bucket[i + 1..], before);
      assert AllOlder(bucket[i..], before) == [m] + rest;
      assert ([m] + rest)[1..] == rest;
      out := out + [m];
      if |out| >= limit {
        PageFound(bucket, before, limit, i);
        break;
      }
      i := i - 1;
    }
    if i < 0 {
      assert bucket[0..] == bucket;
    }
  }

  lemma PageFound(bucket: seq<Message>, before: int, limit: nat, i: nat)
    requires i <= |bucket| && |AllOlder(bucket[i..], before)| == limit
    ensures Page(bucket, before, limit) == Reverse(AllOlder(bucket[i..], before))
  {
    assert bucket[..i] + bucket[i..] == bucket;
    AllOlderConcat(bucket[..i], bucket[i..], before);
    ReverseConcat(AllOlder(bucket[..i], before), AllOlder(bucket[i..], before));
  }

  // ----- paging -----

  ghost predicate NonZero(s: seq<Message>) {
    forall m | m in s :: m.ts != 0
  }

  ghost predicate Increasing(s: seq<Message>) {
    forall i, j | 0 <= i < j < |s| :: s[i].ts < s[j].ts
  }

  function Bound(bucket: seq<Message>, before: int): nat {
    |AllOlder(bucket, before)| + if before == 0 then 1 else 0
  }

  lemma {:induction false} OlderMembers(s: seq<Message>, before: int)
    ensures forall m | m in AllOlder(s, before) :: m in s && Older(m, before)
  {
    if s != [] {
      OlderMembers(s[1..], before);
    }
  }

  lemma {:induction false} OlderShrinks(s: seq<Message>, early: int, late: int)
    requires early != 0 && (late == 0 || early <= late)
    ensures |AllOlder(s, early)| <= |AllOlder(s, late)|
    ensures (exists m | m in AllOlder(s, late) :: m.ts >= early) ==> |AllOlder(s, early)| < |AllOlder(s, late)|
  {
    if s != [] {
      OlderShrinks(s[1..], early, late);
      if exists m | m in AllOlder(s, late) :: m.ts >= early {
        var m :| m in AllOlder(s, late) && m.ts >= early;
        assert m == s[0] || m in AllOlder(s[1..], late);
      }
    }
  }

  lemma PageLast(bucket: seq<Message>, before: int, limit: int)
    requires Page(bucket, before, limit) != []
    ensures var p := Page(bucket, before, limit);
            p[|p| - 1] in bucket && p[|p| - 1] in AllOlder(bucket, before) && Older(p[|p| - 1], before)
  {
    var s := AllOlder(bucket, before);
    var p := Page(bucket, before, limit);
    ReverseAt(s, |p| - 1);
    OlderMembers(bucket, before);
  }

  lemma PageShrinks(bucket: seq<Message>, before: int, limit: int)
    requires NonZero(bucket) && Page(bucket, before, limit) != []
    ensures var p := Page(bucket, before, limit);
            Bound(bucket, p[|p| - 1].ts) < Bound(bucket, before)
  {
    var p := Page(bucket, before, limit);
    PageLast(bucket, before, limit);
    OlderShrinks(bucket, p[|p| - 1].ts, before);
  }

  // What a client collects that asks for page after page, each bounded by the
  // oldest timestamp it has seen, until a page is empty.
  ghost function Pages(bucket: seq<Message>, before: int, limit: nat): seq<Message>
    requires NonZero(bucket)
    decreases Bound(bucket, before)
  {
    var p := Page(bucket, before, limit);
    if p == [] then []
    else
      PageShrinks(bucket, before, limit);
      p + Pages(bucket, p[|p| - 1].ts, limit)
  }

  lemma {:induction false} OlderIsPrefix(bucket: seq<Message>, j: nat)
    requires Increasing(bucket) && NonZero(bucket) && j < |bucket|
    ensures AllOlder(bucket, bucket[j].ts) == bucket[..j]
  {
    var t := bucket[j].ts;
    assert bucket[..j] + bucket[j..] == bucket;
    AllOlderConcat(bucket[..j], bucket[j..], t);
    KeepAll(bucket[..j], t);
    DropAll(bucket[j..], t);
  }

  lemma {:induction false} KeepAll(s: seq<Message>, t: int)
    requires forall m | m in s :: Older(m, t)
    ensures AllOlder(s, t) == s
  {
    if s != [] {
      KeepAll(s[1..], t);
    }
  }

  lemma {:induction false} DropAll(s: seq<Message>, t: int)
    requires forall m | m in s :: !Older(m, t)
    ensures AllOlder(s, t) == []
  {
    if s != [] {
      DropAll(s[1..], t);
    }
  }

  lemma {:induction false} PagesOfPrefix(bucket: seq<Message>, before: int, limit: nat, k: nat)
    requires Increasing(bucket) && NonZero(bucket) && k <= |bucket| && limit > 0
    requires AllOlder(bucket, before) == bucket[..k]
    ensures Pages(bucket, before, limit) == Reverse(bucket[..k])
    decreases k
  {
    hide Page, AllOlder, Reverse, Take, Increasing;
    var p := Page(bucket, before, limit);
    PageOfPrefix(bucket, before, limit, k);
    assert Pages(bucket, before, limit) ==
           if p == [] then [] else (PageShrinks(bucket, before, limit); p + Pages(bucket, p[|p| - 1].ts, limit));
    hide Pages;
    if k > 0 {
      var n := if limit < k then limit else k;
      OlderIsPrefix(bucket, k - n);
      PagesOfPrefix(bucket, p[n - 1].ts, limit, k - n);
      assert bucket[..k] == bucket[..k - n] + bucket[k - n..k];
      ReverseConcat(bucket[..k - n], bucket[k - n..k]);
    }
  }

  lemma PageOfPrefix(bucket: seq<Message>, before: int, limit: nat, k: nat)
    requires k <= |bucket| && limit > 0
    requires AllOlder(bucket, before) == bucket[..k]
    ensures var n := if limit < k then limit else k;
            var p := Page(bucket, before, limit);
            p == Reverse(bucket[k - n..k]) && |p| == n && (k > 0 ==> p[n - 1] == bucket[k - n])
    ensures k == 0 ==> Reverse(bucket[..k]) == []
  {
    if k == 0 {
      return;
    }
    var n := if limit < k then limit else k;
    assert bucket[..k] == bucket[..k - n] + bucket[k - n..k];
    ReverseConcat(bucket[..k - n], bucket[k - n..k]);
    ReverseAt(bucket[k - n..k], n - 1);
  }

  ghost predicate Descending(s: seq<Message>) {
    forall i, j | 0 <= i < j < |s| :: s[i].ts > s[j].ts
  }

  ghost predicate AllBefore(s: seq<Message>, before: int) {
    forall i | 0 <= i < |s| :: Older(s[i], before)
  }

  lemma {:induction false} OnePerPage(bucket: seq<Message>, before: int)
    requires NonZero(bucket)
    ensures Descending(Pages(bucket, before, 1)) && AllBefore(Pages(bucket, before, 1), before)
    decreases Bound(bucket, before)
  {
    hide Page, AllOlder, Reverse, Take;
    var p := Page(bucket, before, 1);
    if p != [] {
      PageShrinks(bucket, before, 1);
      PageLast(bucket, before, 1);
      OneLong(bucket, before);
      assert p[0] in bucket && p == [p[0]];
      OnePerPage(bucket, p[0].ts);
      PrependNewer(p[0], Pages(bucket, p[0].ts, 1), before);
    }
  }

  lemma PrependNewer(m: Message, rest: seq<Message>, before: int)
    requires m.ts != 0 && Older(m, before) && Descending(rest) && AllBefore(rest, m.ts)
    ensures Descending([m] + rest) && AllBefore([m] + rest, before)
  {
    assert forall i | 0 <= i < |rest| :: Older(rest[i], m.ts);
  }

  lemma OneLong(bucket: seq<Message>, before: int)
    ensures |Page(bucket, before, 1)| <= 1
  {
  }

  // Paging with this page size collects the whole ring, newest first.
  ghost predicate Collects(bucket: seq<Message>, limit: nat)
    requires NonZero(bucket)
  {
    Pages(bucket, 0, limit) == Reverse(bucket)
  }

  lemma IncreasingCollects(bucket: seq<Message>, limit: nat)
    requires NonZero(bucket) && Increasing(bucket) && limit > 0
    ensures Collects(bucket, limit)
  {
    KeepAll(bucket, 0);
    assert bucket[..|bucket|] == bucket;
    PagesOfPrefix(bucket, 0, limit, |bucket|);
  }

  lemma CollectsIncreasing(bucket: seq<Message>)
    requires NonZero(bucket) && Collects(bucket, 1)
    ensures Increasing(bucket)
  {
    hide Reverse, Increasing, NonZero, Page, Descending;
    OnePerPage(bucket, 0);
    DescendingReverse(bucket);
  }

  lemma DescendingReverse(s: seq<Message>)
    requires Descending(Reverse(s))
    ensures Increasing(s)
  {
    hide Reverse;
    forall i, j | 0 <= i < j < |s|
      ensures s[i].ts < s[j].ts
    {
      ReverseAt(s, |s| - 1 - i);
      ReverseAt(s, |s| - 1 - j);
      assert Reverse(s)[|s| - 1 - j].ts > Reverse(s)[|s| - 1 - i].ts;
    }
  }

  // Every page size collects the whole ring exactly when its timestamps
  // strictly increase.
  lemma PagingComplete(bucket: seq<Message>)
    requires NonZero(bucket)
    ensures (forall limit: nat | limit > 0 :: Collects(bucket, limit)) <==> Increasing(bucket)
  {
    hide Collects, Increasing, NonZero;
    if Increasing(bucket) {
      forall limit: nat | limit > 0
        ensures Collects(bucket, limit)
      {
        IncreasingCollects(bucket, limit);
      }
    }
    if Collects(bucket, 1) {
      CollectsIncreasing(bucket);
    }
  }

  // So a client that pages a channel with increasing timestamps collects
  // exactly its last submissions, up to the cap, newest first.
  lemma PagingLastSubmissions(history: seq<Message>, channel: string, cap: nat, limit: nat)
    requires NonZero(Of(history, channel)) && Increasing(Of(history, channel)) && limit > 0
    ensures var ring := Last(Of(history, channel), cap);
            NonZero(ring) && Pages(ring, 0, limit) == Reverse(ring)
  {
    var all := Of(history, channel);
    var ring := Last(all, cap);
    hide Of;
    var n := |all| - |ring|;
    assert forall i | 0 <= i < |ring| :: ring[i] == all[n + i];
    assert NonZero(ring) && Increasing(ring);
    IncreasingCollects(ring, limit);
  }

  // ----- replay order -----

  method ReverseMessages(a: array<Message>)
    modifies a
    ensures a[..] == Reverse(old(a[..]))
  {
    ghost var was := a[..];
    var i, j := 0, a.Length - 1;
    while i < j
      invariant 0 <= i <= j + 1 && j == a.Length - 1 - i
      invariant forall k | 0 <= k < i || j < k < a.Length :: a[k] == was[a.Length - 1 - k]
      invariant forall k | i <= k <= j :: a[k] == was[k]
    {
      a[i], a[j] := a[j], a[i];
      i, j := i + 1, j - 1;
    }
    forall k | 0 <= k < a.Length
      ensures a[k] == Reverse(was)[k]
    {
      ReverseAt(was, k);
    }
  }

  // The reversed newest page is the tail of the ring in submission order.
  lemma ReplayIsTail(bucket: seq<Message>, limit: nat)
    ensures Reverse(Page(bucket, 0, limit)) == Last(bucket, limit)
  {
    KeepAll(bucket, 0);
    var n := if limit < |bucket| then limit else |bucket|;
    var front, tail := bucket[..|bucket| - n], bucket[|bucket| - n..];
    assert front + tail == bucket;
    ReverseConcat(front, tail);
    ReverseReverse(tail);
    assert Page(bucket, 0, limit) == Reverse(tail);
  }
}
