/**
 Joined channels and their members (internal/connector/irc/state.go). Infos never
 leave the lock except as copies, so they are values here.
 */
module Channels {
  import opened Options

  function Lower(c: char): char {
    if 'A' <= c <= 'Z' then c + 32 as char else c
  }

  function ToLower(s: string): (r: string)
    ensures |r| == |s|
    ensures forall i | 0 <= i < |s| ::
              if 'A' <= s[i] <= 'Z' then r[i] as int - 'a' as int == s[i] as int - 'A' as int else r[i] == s[i]
  {
    if s == "" then "" else [Lower(s[0])] + ToLower(s[1..])
  }

  datatype Info = Info(name: string, topic: string, topicSet: bool, topicSetBy: string, topicSetAt: int,
                       members: map<string, string>, namesComplete: bool)

  function NewInfo(name: string): Info {
    Info(name, "", false, "", 0, map[], false)
  }

  predicate IsPrefix(c: char) {
    c in "@+%&~"
  }

  function NickOf(entry: string): string {
    if entry != "" && IsPrefix(entry[0]) then entry[1..] else entry
  }

  function PrefixOf(entry: string): string {
    if entry != "" && IsPrefix(entry[0]) then entry[..1] else ""
  }

  // A mode prefix in front of a nick is taken off, and one is enough.
  lemma EntryReads(mark: char, nick: string)
    requires mark == '@' || mark == '+' || mark == '%' || mark == '&' || mark == '~'
    ensures NickOf([mark] + nick) == nick && PrefixOf([mark] + nick) == [mark]
    ensures nick == "" || nick[0] !in "@+%&~" ==> NickOf(nick) == nick && PrefixOf(nick) == ""
  {
    var entry := [mark] + nick;
    assert entry[1..] == nick && entry[..1] == [mark];
    assert "@+%&~"[0] == '@' && "@+%&~"[1] == '+' && "@+%&~"[2] == '%' && "@+%&~"[3] == '&' && "@+%&~"[4] == '~';
  }

  // ----- order -----

  ghost predicate NoRepeats(s: seq<string>) {
    forall i, j | 0 <= i < j < |s| :: s[i] != s[j]
  }

  ghost function Elements(s: seq<string>): set<string> {
    set x | x in s
  }

  lemma {:induction false} CountElements(s: seq<string>)
    requires NoRepeats(s)
    ensures |Elements(s)| == |s|
  {
    if s != [] {
      var front, last := s[..|s| - 1], s[|s| - 1];
      CountElements(front);
      assert s == front + [last];
      assert Elements(s) == Elements(front) + {last} && last !in front;
    }
  }

  // The sequence without its first occurrence of key.
  function Without(s: seq<string>, key: string): seq<string> {
    if s == [] then [] else if s[0] == key then s[1..] else [s[0]] + Without(s[1..], key)
  }

  lemma {:induction false} WithoutExact(s: seq<string>, key: string)
    requires NoRepeats(s)
    ensures NoRepeats(Without(s, key)) && Elements(Without(s, key)) == Elements(s) - {key}
  {
    if s == [] {
    } else if s[0] == key {
      assert s == [key] + s[1..];
      assert Elements(s) == {key} + Elements(s[1..]);
      assert key !in s[1..];
    } else {
      WithoutExact(s[1..], key);
      assert s == [s[0]] + s[1..];
      assert Elements(s) == {s[0]} + Elements(s[1..]);
      assert Elements([s[0]] + Without(s[1..], key)) == {s[0]} + Elements(Without(s[1..], key));
      assert s[0] !in s[1..];
      assert s[0] !in Elements(Without(s[1..], key));
    }
  }

  method RemoveFirst(s: seq<string>, key: string) returns (r: seq<string>)
    ensures r == Without(s, key)
  {
    for i := 0 to |s|
      invariant Without(s, key) == s[..i] + Without(s[i..], key)
    {
      assert s[i..] == [s[i]] + s[i + 1..];
      if s[i] == key {
        return s[..i] + s[i + 1..];
      }
      assert s[..i + 1] + Without(s[i + 1..], key) == s[..i] + ([s[i]] + Without(s[i + 1..], key));
    }
    assert s[..|s|] == s && Without(s[|s|..], key) == [];
    return s;
  }

  // ----- members -----

  function AddNames(members: map<string, string>, entries: seq<string>): map<string, string>
    decreases |entries|
  {
    if entries == [] then members
    else
      var front := AddNames(members, entries[..|entries| - 1]);
      var e := entries[|entries| - 1];
      if NickOf(e) == "" then front else front[NickOf(e) := PrefixOf(e)]
  }

  lemma {:induction false} AddNamesConcat(m: map<string, string>, a: seq<string>, b: seq<string>)
    ensures AddNames(m, a + b) == AddNames(AddNames(m, a), b)
    decreases |b|
  {
    if b == [] {
      assert a + b == a;
    } else {
      assert (a + b)[..|a + b| - 1] == a + b[..|b| - 1];
      AddNamesConcat(m, a, b[..|b| - 1]);
    }
  }

  ghost predicate Lists(entries: seq<string>, nick: string) {
    nick != "" && exists e | e in entries :: NickOf(e) == nick
  }

  // The members are those before and those listed; a listed nick shows the
  // prefix of its last listing.
  lemma {:induction false} AddNamesExact(m: map<string, string>, entries: seq<string>, nick: string)
    ensures nick in AddNames(m, entries) <==> nick in m || Lists(entries, nick)
    ensures Lists(entries, nick) ==> exists k :: 0 <= k < |entries| && LastListing(entries, nick, k) && AddNames(m, entries)[nick] == PrefixOf(entries[k])
    ensures !Lists(entries, nick) && nick in m ==> AddNames(m, entries)[nick] == m[nick]
    decreases |entries|
  {
    if entries != [] {
      var front, e := entries[..|entries| - 1], entries[|entries| - 1];
      assert entries == front + [e];
      AddNamesExact(m, front, nick);
      ListsAppend(front, e, nick);
      hide Lists, NickOf, PrefixOf;
      if NickOf(e) == nick && nick != "" {
        assert LastListing(entries, nick, |front|);
      } else if Lists(front, nick) {
        var k :| 0 <= k < |front| && LastListing(front, nick, k) && AddNames(m, front)[nick] == PrefixOf(front[k]);
        assert LastListing(entries, nick, k) && entries[k] == front[k];
      }
    }
  }

  ghost predicate LastListing(entries: seq<string>, nick: string, k: int) {
    0 <= k < |entries| && NickOf(entries[k]) == nick && forall i | k < i < |entries| :: NickOf(entries[i]) != nick
  }

  lemma ListsAppend(front: seq<string>, e: string, nick: string)
    ensures Lists(front + [e], nick) <==> Lists(front, nick) || (nick != "" && NickOf(e) == nick)
  {
    assert forall x :: x in front + [e] <==> x in front || x == e;
    assert e in front + [e];
  }

  // What one NAMES line makes of a channel: a line after a completed burst
  // starts from an empty member list.
  function Names(channel: string, info: Option<Info>, entries: seq<string>): Info {
    match info
    case None => NewInfo(channel).(members := AddNames(map[], entries))
    case Some(i) =>
      if i.namesComplete then i.(namesComplete := false, members := AddNames(map[], entries))
      else i.(members := AddNames(i.members, entries))
  }

  // The lines of one burst.
  function Burst(channel: string, info: Option<Info>, chunks: seq<seq<string>>): Option<Info> {
    if chunks == [] then info
    else Some(Names(channel, Burst(channel, info, chunks[..|chunks| - 1]), chunks[|chunks| - 1]))
  }

  function Flatten(chunks: seq<seq<string>>): seq<string> {
    if chunks == [] then [] else Flatten(chunks[..|chunks| - 1]) + chunks[|chunks| - 1]
  }

  // The member list a burst starts from.
  function Base(info: Option<Info>): map<string, string> {
    if info.None? || info.value.namesComplete then map[] else info.value.members
  }

  // However a burst is split into lines, it adds its entries to its base.
  lemma {:induction false} BurstIsFlat(channel: string, info: Option<Info>, chunks: seq<seq<string>>)
    requires chunks != []
    ensures Burst(channel, info, chunks).Some?
    ensures Burst(channel, info, chunks).value ==
            (if info.Some? then info.value else NewInfo(channel))
              .(members := AddNames(Base(info), Flatten(chunks)), namesComplete := false)
  {
    var front, last := chunks[..|chunks| - 1], chunks[|chunks| - 1];
    if front == [] {
      assert Flatten(chunks) == last;
    } else {
      BurstIsFlat(channel, info, front);
      AddNamesConcat(Base(info), Flatten(front), last);
    }
  }

  // A burst leaves exactly the listed members if and only if it follows a
  // completed one (or an unknown channel), or lists every member from before.
  lemma BurstExactly(channel: string, info: Option<Info>, chunks: seq<seq<string>>)
    requires chunks != []
    ensures Burst(channel, info, chunks).Some?
    ensures (forall nick :: nick in Burst(channel, info, chunks).value.members <==> Lists(Flatten(chunks), nick))
            <==> (info.None? || info.value.namesComplete || forall nick | nick in info.value.members :: Lists(Flatten(chunks), nick))
  {
    BurstIsFlat(channel, info, chunks);
    var entries := Flatten(chunks);
    var members := Burst(channel, info, chunks).value.members;
    hide Burst, Flatten, Lists, AddNames;
    forall nick
      ensures nick in members <==> nick in Base(info) || Lists(entries, nick)
    {
      AddNamesExact(Base(info), entries, nick);
    }
  }

  // ----- renames -----

  // Writes the new nick, then deletes the old one.
  function Rename(members: map<string, string>, old': string, new': string): map<string, string> {
    if old' in members then members[new' := members[old']] - {old'} else members
  }

  // A rename carries the prefix to the new nick exactly when it really changes
  // the nick: renaming a member to itself removes it.
  lemma RenameExact(members: map<string, string>, old': string, new': string)
    requires old' in members
    ensures (new' in Rename(members, old', new') && Rename(members, old', new')[new'] == members[old']) <==> old' != new'
    ensures forall n | n != old' && n != new' :: n in Rename(members, old', new') <==> n in members
  {
  }

  class ChannelState {
    var channels: map<string, Info>
    var order: seq<string>

    // Every joined channel is listed once, under its lower-cased name.
    ghost predicate Valid()
      reads this
    {
      && NoRepeats(order)
      && Elements(order) == channels.Keys
      && forall k | k in channels :: ToLower(channels[k].name) == k
    }

    constructor ()
      ensures Valid() && channels == map[] && order == []
    {
      channels, order := map[], [];
    }

    function Lookup(channel: string): Option<Info>
      reads this
    {
      if ToLower(channel) in channels then Some(channels[ToLower(channel)]) else None
    }

    method Count() returns (n: nat)
      requires Valid()
      ensures n == |channels|
    {
      CountElements(order);
      assert |channels| == |channels.Keys|;
      n := |order|;
    }

    // Every joined channel once, in join order.
    method JoinedChannels() returns (out: seq<Info>)
      requires Valid()
      ensures |out| == |channels|
      ensures forall i | 0 <= i < |out| :: i < |order| && order[i] in channels && out[i] == channels[order[i]]
    {
      out := [];
      for i := 0 to |order|
        invariant |out| == i
        invariant forall j | 0 <= j < i :: order[j] in channels && out[j] == channels[order[j]]
      {
        assert order[i] in Elements(order);
        if order[i] in channels {
          out := out + [channels[order[i]]];
        }
      }
      CountElements(order);
      assert |channels| == |channels.Keys|;
    }

    method OnSelfJoin(channel: string)
      requires Valid()
      modifies this
      ensures Valid()
      ensures var key := ToLower(channel);
              if key in old(channels) then channels == old(channels) && order == old(order)
              else channels == old(channels)[key := Info(channel, "", false, "", 0, map[], false)] && order == old(order) + [key]
    {
      hide ToLower;
      var key := ToLower(channel);
      if key in channels {
        return;
      }
      assert key !in Elements(order);
      channels := channels[key := NewInfo(channel)];
      assert Elements(order + [key]) == Elements(order) + {key};
      order := order + [key];
    }

    method OnSelfPart(channel: string)
      requires Valid()
      modifies this
      ensures Valid()
      ensures channels == old(channels) - {ToLower(channel)}
      ensures order == Without(old(order), ToLower(channel))
    {
      hide ToLower, NoRepeats, Elements;
      var key := ToLower(channel);
      WithoutExact(order, key);
      channels := channels - {key};
      order := RemoveFirst(order, key);
    }

    // Replaces the info of a known channel; the name stays.
    method Update(channel: string, info: Info)
      requires Valid() && ToLower(channel) in channels && info.name == channels[ToLower(channel)].name
      modifies this`channels
      ensures Valid() && channels == old(channels)[ToLower(channel) := info]
    {
      hide ToLower, NoRepeats;
      channels := channels[ToLower(channel) := info];
    }

    method SetTopic(channel: string, topic: string)
      requires Valid()
      modifies this`channels
      ensures Valid()
      ensures channels == if ToLower(channel) !in old(channels) then old(channels)
                          else old(channels)[ToLower(channel) := old(channels)[ToLower(channel)].(topic := topic, topicSet := true)]
    {
      if ToLower(channel) !in channels {
        return;
      }
      Update(channel, channels[ToLower(channel)].(topic := topic, topicSet := true));
    }

    method OnNamesReply(channel: string, members: seq<string>)
      requires Valid()
      modifies this
      ensures Valid()
      ensures channels == old(channels)[ToLower(channel) := Names(channel, old(Lookup(channel)), members)]
      ensures order == if ToLower(channel) in old(channels) then old(order) else old(order) + [ToLower(channel)]
    {
      hide ToLower;
      var key := ToLower(channel);
      var info := NewInfo(channel);
      if key !in channels {
        OnSelfJoin(channel);
      } else {
        info := channels[key];
        if info.namesComplete {
          info := info.(members := map[], namesComplete := false);
        }
      }
      ghost var base := info.members;
      for i := 0 to |members|
        modifies {}
        invariant info == info.(members := AddNames(base, members[..i]))
        invariant info.name == channels[key].name
        invariant info.(members := base) == Names(channel, old(Lookup(channel)), []).(members := base)
      {
        assert members[..i + 1][..i] == members[..i];
        if NickOf(members[i]) != "" {
          info := info.(members := info.members[NickOf(members[i]) := PrefixOf(members[i])]);
        }
      }
      assert members[..|members|] == members;
      Update(channel, info);
    }

    method OnNamesEnd(channel: string)
      requires Valid()
      modifies this`channels
      ensures Valid()
      ensures channels == if ToLower(channel) !in old(channels) then old(channels)
                          else old(channels)[ToLower(channel) := old(channels)[ToLower(channel)].(namesComplete := true)]
    {
      if ToLower(channel) in channels {
        Update(channel, channels[ToLower(channel)].(namesComplete := true));
      }
    }

    // A join of a known member keeps its prefix.
    method OnMemberJoin(channel: string, nick: string)
      requires Valid()
      modifies this`channels
      ensures Valid() && channels.Keys == old(channels.Keys)
      ensures forall k | k in channels && k != ToLower(channel) :: channels[k] == old(channels)[k]
      ensures ToLower(channel) in channels ==>
                var info := old(channels)[ToLower(channel)];
                channels[ToLower(channel)] ==
                if nick == "" || nick in info.members then info else info.(members := info.members[nick := ""])
    {
      if nick == "" || ToLower(channel) !in channels {
        return;
      }
      var info := channels[ToLower(channel)];
      if nick !in info.members {
        Update(channel, info.(members := info.members[nick := ""]));
      }
    }

    method OnMemberPart(channel: string, nick: string)
      requires Valid()
      modifies this`channels
      ensures Valid() && channels.Keys == old(channels.Keys)
      ensures forall k | k in channels && k != ToLower(channel) :: channels[k] == old(channels)[k]
      ensures ToLower(channel) in channels ==>
                channels[ToLower(channel)] == old(channels)[ToLower(channel)].(members := old(channels)[ToLower(channel)].members - {nick})
    {
      if ToLower(channel) in channels {
        var info := channels[ToLower(channel)];
        Update(channel, info.(members := info.members - {nick}));
      }
    }

    method SetMemberPrefix(channel: string, nick: string, prefix: string)
      requires Valid()
      modifies this`channels
      ensures Valid() && channels.Keys == old(channels.Keys)
      ensures forall k | k in channels && k != ToLower(channel) :: channels[k] == old(channels)[k]
      ensures ToLower(channel) in channels ==>
                var info := old(channels)[ToLower(channel)];
                channels[ToLower(channel)] ==
                if nick == "" || nick !in info.members then info else info.(members := info.members[nick := prefix])
    {
      if nick == "" || ToLower(channel) !in channels {
        return;
      }
      var info := channels[ToLower(channel)];
      if nick !in info.members {
        return;
      }
      Update(channel, info.(members := info.members[nick := prefix]));
    }

    // A quit removes the nick from every channel, in any order of the channels.
    method OnMemberQuit(nick: string)
      requires Valid()
      modifies this`channels
      ensures Valid() && channels.Keys == old(channels.Keys)
      ensures forall k | k in channels :: channels[k] == old(channels)[k].(members := old(channels)[k].members - {nick})
    {
      hide ToLower, NoRepeats, Elements;
      var todo := channels.Keys;
      while todo != {}
        invariant todo <= channels.Keys == old(channels.Keys) && Valid()
        invariant forall k | k in channels ::
                    channels[k] == if k in todo then old(channels)[k] else old(channels)[k].(members := old(channels)[k].members - {nick})
      {
        var k :| k in todo;
        todo := todo - {k};
        channels := channels[k := channels[k].(members := channels[k].members - {nick})];
      }
    }

    method OnNickChange(oldNick: string, newNick: string)
      requires Valid()
      modifies this`channels
      ensures Valid() && channels.Keys == old(channels.Keys)
      ensures forall k | k in channels ::
                channels[k] == old(channels)[k].(members := Rename(old(channels)[k].members, oldNick, newNick))
    {
      hide ToLower, NoRepeats, Elements;
      var todo := channels.Keys;
      while todo != {}
        invariant todo <= channels.Keys == old(channels.Keys) && Valid()
        invariant forall k | k in channels ::
                    channels[k] == if k in todo then old(channels)[k]
                                   else old(channels)[k].(members := Rename(old(channels)[k].members, oldNick, newNick))
      {
        var k :| k in todo;
        todo := todo - {k};
        var members := channels[k].members;
        if oldNick in members {
          var prefix := members[oldNick];
          members := members[newNick := prefix];
          members := members - {oldNick};
        }
        assert members == Rename(channels[k].members, oldNick, newNick);
        hide Rename;
        channels := channels[k := channels[k].(members := members)];
      }
    }
  }
}
