/**
 History replay (internal/connector/irc/bouncer.go): rebuilding a wire line
 from a stored message and decorating it for the attached client.
 */
module Replay {
  import opened Text
  import opened Protocol

  // ----- decoration -----

  function AddedTags(line: string, ts: string, tagTime: bool, batchID: string): seq<(string, string)> {
    (if batchID != "" then [("batch", batchID)] else []) +
    (if tagTime && !HasPrefix(line, "@") then [("time", ts)] else [])
  }

  // A tag as decorateReplayLine writes it: without escaping the value.
  function PlainTag(kv: (string, string)): string {
    kv.0 + "=" + kv.1
  }

  function PlainTags(kvs: seq<(string, string)>): seq<string> {
    seq(|kvs|, i requires 0 <= i < |kvs| => PlainTag(kvs[i]))
  }

  function Decorate(line: string, ts: string, tagTime: bool, batchID: string): string {
    var added := PlainTags(AddedTags(line, ts, tagTime, batchID));
    if added == [] then line
    else if !HasPrefix(line, "@") then "@" + Join(added, ";") + " " + line
    else
      var sp := IndexByte(line, SPACE);
      if sp < 0 then line
      else "@" + Join(added, ";") + ";" + line[1..sp] + " " + line[sp + 1..]
  }

  // Hex digits and ISO 8601 stamps: nothing that a tag value would have to escape.
  predicate TagSafe(v: string) {
    ';' !in v && ' ' !in v && '\\' !in v
  }

  // What a client acts on besides the tags.
  predicate SameMeaning(a: Message, b: Message) {
    a.prefix == b.prefix && a.command == b.command && a.params == b.params && a.trailing == b.trailing
  }

  // An untagged line of spaces, a colon and something more: the parser reads
  // a trailing argument, but after a tag list it reads a prefix.
  predicate Swallowed(line: string) {
    var raw := TrimLineEnd(line);
    HasPrefix(raw, " ") && HasPrefix(TrimLeft(raw, SPACE), ":") && |TrimLeft(raw, SPACE)| > 1
  }

  lemma AddedMap(line: string, ts: string, tagTime: bool, batchID: string)
    ensures MapOf(AddedTags(line, ts, tagTime, batchID)) ==
            (if batchID != "" then map["batch" := batchID] else map[]) +
            (if tagTime && !HasPrefix(line, "@") then map["time" := ts] else map[])
  {
    var time: seq<(string, string)> := if tagTime && !HasPrefix(line, "@") then [("time", ts)] else [];
    assert MapOf(time) == if tagTime && !HasPrefix(line, "@") then map["time" := ts] else map[] by {
      assert [("time", ts)][1..] == [];
      assert MapOf([]) == map[];
    }
    if batchID != "" {
      assert AddedTags(line, ts, tagTime, batchID) == [("batch", batchID)] + time;
      assert ([("batch", batchID)] + time)[1..] == time;
    } else {
      assert AddedTags(line, ts, tagTime, batchID) == time;
    }
  }

  lemma DecoratedTags(line: string, ts: string, tagTime: bool, batchID: string)
    requires TagSafe(ts) && TagSafe(batchID)
    ensures var kvs := AddedTags(line, ts, tagTime, batchID);
            var list := PlainTags(kvs);
            && (forall t | t in list :: t != "" && ';' !in t && ' ' !in t)
            && FoldTags(map[], list) == MapOf(kvs)
  {
    var kvs := AddedTags(line, ts, tagTime, batchID);
    forall i | 0 <= i < |kvs|
      ensures PlainTag(kvs[i]) != "" && ';' !in PlainTag(kvs[i]) && ' ' !in PlainTag(kvs[i])
      ensures forall tags :: WithTag(tags, PlainTag(kvs[i])) == tags[kvs[i].0 := kvs[i].1]
    {
      assert kvs[i].0 == "batch" || kvs[i].0 == "time";
      PlainTagReads(kvs[i]);
    }
    hide WithTag, PlainTag;
    PlainListReads(kvs);
  }

  lemma PlainTagReads(kv: (string, string))
    requires LegalKey(kv.0) && TagSafe(kv.1)
    ensures PlainTag(kv) != "" && ';' !in PlainTag(kv) && ' ' !in PlainTag(kv)
    ensures forall tags :: WithTag(tags, PlainTag(kv)) == tags[kv.0 := kv.1]
  {
    FirstSeparator(kv.0, '=', kv.1);
    UnescapePlain(kv.1);
  }

  lemma {:induction false} PlainListReads(kvs: seq<(string, string)>)
    requires forall i | 0 <= i < |kvs| :: forall tags :: WithTag(tags, PlainTag(kvs[i])) == tags[kvs[i].0 := kvs[i].1]
    ensures FoldTags(map[], PlainTags(kvs)) == MapOf(kvs)
  {
    if kvs != [] {
      var list := PlainTags(kvs);
      assert list[1..] == PlainTags(kvs[1..]);
      assert list[0] == PlainTag(kvs[0]);
      PlainListReads(kvs[1..]);
      FoldTagsOverrides(WithTag(map[], list[0]), list[1..]);
    }
  }

  // A line that already carries tags keeps its meaning; its own tags win over
  // the added ones, which a tag list without a line after it does not get.
  lemma DecorateTagged(line: string, ts: string, tagTime: bool, batchID: string)
    requires HasPrefix(line, "@")
    requires TagSafe(ts) && TagSafe(batchID)
    ensures var before := ParseLine(line);
            var after := ParseLine(Decorate(line, ts, tagTime, batchID));
            && SameMeaning(before, after)
            && (' ' !in line ==> after.tags == before.tags)
            && (' ' in line ==> after.tags == (if batchID != "" then map["batch" := batchID] else map[]) + before.tags)
  {
    var sp := IndexByte(line, SPACE);
    assert sp >= 0 <==> ' ' in line;
    assert batchID == "" ==> AddedTags(line, ts, tagTime, batchID) == [] && PlainTags([]) == [];
    if batchID == "" || sp < 0 {
      assert Decorate(line, ts, tagTime, batchID) == line;
      hide ParseLine;
      assert map[] + ParseLine(line).tags == ParseLine(line).tags;
    } else {
      hide *;
      DecorateMerged(line, ts, tagTime, batchID);
    }
  }

  lemma DecorateMerged(line: string, ts: string, tagTime: bool, batchID: string)
    requires HasPrefix(line, "@") && ' ' in line && batchID != ""
    requires TagSafe(ts) && TagSafe(batchID)
    ensures SameMeaning(ParseLine(line), ParseLine(Decorate(line, ts, tagTime, batchID)))
    ensures ParseLine(Decorate(line, ts, tagTime, batchID)).tags == map["batch" := batchID] + ParseLine(line).tags
  {
    var added := PlainTags(AddedTags(line, ts, tagTime, batchID));
    var sp := IndexByte(line, SPACE);
    var existing, rest := line[1..sp], line[sp + 1..];
    var merged := "@" + Join(added, ";") + ";" + existing + " " + rest;
    assert added != [] && Decorate(line, ts, tagTime, batchID) == merged;
    AddedMap(line, ts, tagTime, batchID);
    assert map["batch" := batchID] + map[] == map["batch" := batchID];
    DecoratedTags(line, ts, tagTime, batchID);
    CutAtSpace(line);
    hide AddedTags, PlainTags, Decorate, FoldTags, MapOf, SplitTags, ParseRest, TrimLineEnd, SameMeaning, Join, IndexByte, ParseLine;
    MergedTags(added, existing, rest);
    MeaningOfRest(line);
    MeaningOfRest(merged);
    SameMeaningJoins(ParseLine(line), ParseRest(SplitTags(TrimLineEnd(line)).1), ParseLine(merged));
  }

  lemma SameMeaningJoins(a: Message, b: Message, c: Message)
    requires SameMeaning(a, b) && SameMeaning(c, b)
    ensures SameMeaning(a, c)
  {
  }

  lemma CutAtSpace(line: string)
    requires HasPrefix(line, "@") && ' ' in line
    ensures var sp := IndexByte(line, SPACE);
            && sp >= 1 && ' ' !in line[1..sp]
            && line == "@" + line[1..sp] + " " + line[sp + 1..]
  {
    var sp := IndexByte(line, SPACE);
    assert forall i | 1 <= i < sp :: line[..sp][i] == line[i];
  }

  // What the parser sees of a line before and after a tag list is merged in.
  lemma MergedTags(added: seq<string>, existing: string, rest: string)
    requires added != [] && forall t | t in added :: ';' !in t && ' ' !in t
    requires ' ' !in existing
    ensures var before := SplitTags(TrimLineEnd("@" + existing + " " + rest));
            var after := SplitTags(TrimLineEnd("@" + Join(added, ";") + ";" + existing + " " + rest));
            after.1 == before.1 && after.0 == FoldTags(map[], added) + before.0
  {
    var own := Split(existing, ';');
    SpaceFree(existing);
    JoinSplit(existing, ';');
    TaggedLine(own, rest);
    JoinConcat(added, own);
    Regroup(Join(added, ";"), existing, rest);
    TaggedLine(added + own, rest);
    FoldTagsConcat(map[], added, own);
    FoldTagsOverrides(FoldTags(map[], added), own);
  }

  lemma Regroup(a: string, b: string, rest: string)
    ensures "@" + a + ";" + b + " " + rest == "@" + (a + ";" + b) + " " + rest
  {
  }

  // The pieces of a text without spaces have none.
  lemma {:induction false} SpaceFree(s: string)
    ensures ' ' !in s ==> forall t | t in Split(s, ';') :: ' ' !in t
  {
    var i := IndexByte(s, ';');
    if i >= 0 {
      SpaceFree(s[i + 1..]);
    }
  }

  lemma {:induction false} JoinConcat(a: seq<string>, b: seq<string>)
    requires a != [] && b != []
    ensures Join(a + b, ";") == Join(a, ";") + ";" + Join(b, ";")
  {
    if |a| == 1 {
      assert (a + b)[1..] == b;
    } else {
      assert (a + b)[1..] == a[1..] + b;
      JoinConcat(a[1..], b);
    }
  }

  lemma {:induction false} FoldTagsConcat(tags: map<string, string>, a: seq<string>, b: seq<string>)
    ensures FoldTags(tags, a + b) == FoldTags(FoldTags(tags, a), b)
    decreases |a|
  {
    if a == [] {
      assert a + b == b;
    } else {
      assert (a + b)[1..] == a[1..] + b;
      FoldTagsConcat(WithTag(tags, a[0]), a[1..], b);
    }
  }

  // An untagged line gets exactly the added tags, and keeps its meaning unless
  // it is swallowed.
  lemma DecorateUntagged(line: string, ts: string, tagTime: bool, batchID: string)
    requires !HasPrefix(line, "@")
    requires TagSafe(ts) && TagSafe(batchID)
    ensures var before := ParseLine(line);
            var after := ParseLine(Decorate(line, ts, tagTime, batchID));
            && before.tags == map[]
            && after.tags == (if batchID != "" then map["batch" := batchID] else map[]) + (if tagTime then map["time" := ts] else map[])
            && (batchID != "" || tagTime ==> (SameMeaning(before, after) <==> !Swallowed(line)))
  {
    var kvs := AddedTags(line, ts, tagTime, batchID);
    var added := PlainTags(kvs);
    var raw := TrimLineEnd(line);
    assert raw != "" ==> raw[0] == line[0];
    assert SplitTags(raw) == (map[], raw);
    AddedMap(line, ts, tagTime, batchID);
    assert added == [] <==> batchID == "" && !tagTime;
    DecoratedTags(line, ts, tagTime, batchID);
    if added == [] {
      assert ParseLine(line).tags == map[];
    } else {
      assert Decorate(line, ts, tagTime, batchID) == "@" + Join(added, ";") + " " + line;
      hide AddedTags, PlainTags, Decorate, FoldTags, MapOf, SplitTags, ParseRest, TrimLineEnd, SameMeaning, TrimLeft, Join;
      TaggedLine(added, line);
      BodyAfterSpaces(raw);
      MeaningOfRest(line);
      MeaningOfRest("@" + Join(added, ";") + " " + line);
    }
  }

  lemma MeaningOfRest(line: string)
    ensures SameMeaning(ParseLine(line), ParseRest(SplitTags(TrimLineEnd(line)).1))
    ensures ParseLine(line).tags == SplitTags(TrimLineEnd(line)).0
  {
    hide ParseRest, SplitTags, TrimLineEnd;
  }

  // A line that is swallowed: its trailing argument becomes a prefix.
  lemma SwallowedLine(ts: string)
    requires TagSafe(ts)
    ensures Swallowed(" :x") && !SameMeaning(ParseLine(" :x"), ParseLine(Decorate(" :x", ts, true, "")))
  {
    hide *;
    SwallowedText();
    DecorateUntagged(" :x", ts, true, "");
  }

  lemma SwallowedText()
    ensures Swallowed(" :x") && !HasPrefix(" :x", "@") && TagSafe("")
  {
    var line, u := " :x", ":x";
    assert line[|line| - 1] == 'x' && line[0] == ' ' && u[0] == ':';
    assert line[1..] == u;
    assert TrimLineEnd(line) == line;
    hide TrimLineEnd;
    assert TrimLeft(u, SPACE) == u;
    assert TrimLeft(line, SPACE) == TrimLeft(line[1..], SPACE);
    hide TrimLeft;
  }

  lemma BodyAfterSpaces(raw: string)
    ensures SameMeaning(ParseRest(raw), ParseRest(TrimLeft(raw, SPACE))) <==>
            !(HasPrefix(raw, " ") && HasPrefix(TrimLeft(raw, SPACE), ":") && |TrimLeft(raw, SPACE)| > 1)
  {
    hide WithBody;
    var u := TrimLeft(raw, SPACE);
    if !HasPrefix(raw, " ") {
      assert raw == u;
    } else if !HasPrefix(u, ":") {
      SkipSpaces(Message("", map[], "", "", [], ""), raw);
    } else {
      ColonAfterSpaces(raw);
    }
  }

  lemma {:induction false} SkipSpaces(m: Message, s: string)
    requires !HasPrefix(TrimLeft(s, SPACE), ":")
    ensures WithBody(m, s) == WithBody(m, TrimLeft(s, SPACE))
  {
    if s != "" && s[0] == SPACE {
      var v := s[1..];
      assert s == " " + v;
      calc {
        WithBody(m, s);
        { SkipOneSpace(m, v); }
        WithBody(m, v);
        { SkipSpaces(m, v); }
        WithBody(m, TrimLeft(v, SPACE));
      }
    }
  }

  lemma SkipOneSpace(m: Message, v: string)
    requires !HasPrefix(v, ":")
    ensures WithBody(m, " " + v) == WithBody(m, v)
  {
    IndexAfterSpace(v);
    var s := " " + v;
    var idx := Index(v, " :");
    if idx >= 0 {
      assert s[..idx + 1] == " " + v[..idx] && s[idx + 3..] == v[idx + 2..];
      FieldsSkipSpace(v[..idx]);
    } else {
      FieldsSkipSpace(v);
    }
  }

  // A space in front moves the start of the trailing argument by one.
  lemma IndexAfterSpace(v: string)
    requires v == "" || v[0] != ':'
    ensures Index(" " + v, " :") == if Index(v, " :") < 0 then -1 else Index(v, " :") + 1
  {
    var s := " " + v;
    assert s[0..] == s && (v != "" ==> s[1] == v[0]);
    assert !OccursAt(s, " :", 0);
    forall k: nat
      ensures OccursAt(s, " :", k + 1) <==> OccursAt(v, " :", k)
    {
      if k <= |v| {
        assert s[k + 1..] == v[k..];
      }
    }
    hide OccursAt, IndexFrom;
    var i, j := Index(s, " :"), Index(v, " :");
    assert j >= 0 ==> OccursAt(s, " :", j + 1);
    assert i >= 1 ==> OccursAt(v, " :", i - 1);
  }

  // Spaces, then a colon: one reading has a trailing argument, the other a prefix.
  lemma ColonAfterSpaces(raw: string)
    requires HasPrefix(raw, " ") && HasPrefix(TrimLeft(raw, SPACE), ":")
    ensures SameMeaning(ParseRest(raw), ParseRest(TrimLeft(raw, SPACE))) <==> |TrimLeft(raw, SPACE)| == 1
  {
    var u := TrimLeft(raw, SPACE);
    var n := |raw| - |u|;
    LeadingSpaces(raw);
    SpacesThenColon(raw, n);
    var (prefix, body) := SplitPrefix(u);
    var other := ParseRest(u);
    assert ParseRest(raw) == Message("", map[], "", "", [], u[1..]);
    if |u| > 1 && other.prefix == "" {
      assert |body| < |u[1..]|;
      TrailingIsShorter(Message("", map[], prefix, "", [], ""), body);
    }
  }

  lemma TrailingIsShorter(m: Message, body: string)
    requires m.trailing == ""
    ensures |WithBody(m, body).trailing| <= |body|
  {
  }

  lemma {:induction false} LeadingSpaces(s: string)
    ensures forall i | 0 <= i < |s| - |TrimLeft(s, SPACE)| :: s[i] == SPACE
  {
    if s != "" && s[0] == SPACE {
      LeadingSpaces(s[1..]);
      assert TrimLeft(s, SPACE) == TrimLeft(s[1..], SPACE);
    }
  }

  lemma SpacesThenColon(raw: string, n: nat)
    requires 0 < n < |raw| && raw[n] == ':'
    requires forall i | 0 <= i < n :: raw[i] == SPACE
    ensures Index(raw, " :") == n - 1
    ensures ParseRest(raw) == Message("", map[], "", "", [], raw[n + 1..])
  {
    assert raw[n - 1..][..2] == " :";
    assert OccursAt(raw, " :", n - 1);
    forall k: nat | k < n - 1
      ensures !OccursAt(raw, " :", k)
    {
      assert raw[k..][1] == raw[k + 1];
    }
    OnlySpaces(raw[..n - 1]);
  }

  lemma {:induction false} OnlySpaces(s: string)
    requires forall i | 0 <= i < |s| :: s[i] == SPACE
    ensures Fields(s) == []
  {
    if s != "" {
      OnlySpaces(s[1..]);
      FieldsSkipSpace(s[1..]);
      assert s == " " + s[1..];
    }
  }

  // ----- stored messages -----

  datatype Stored = Stored(channel: string, nick: string, text: string)

  // The bouncer's upstream identity.
  datatype Identity = Identity(nick: string, ident: string, host: string)

  // Own messages carry the identity the clients learned, others a synthetic host.
  function Source(m: Stored, self: Identity): string {
    m.nick + "!" +
    if m.nick == self.nick && self.nick != "" then self.ident + "@" + self.host else "~user@upstream"
  }

  function WireLine(source: string, command: string, channel: string, text: string): string {
    ":" + source + " " + command + " " + channel + " :" + text
  }

  function FormatForReplay(m: Stored, self: Identity): string {
    WireLine(Source(m, self), "PRIVMSG", m.channel, m.text)
  }

  predicate WellFormedStored(m: Stored) {
    && ' ' !in m.nick && '!' !in m.nick
    && IsMiddle(m.channel)
    && TrimLineEnd(m.text) == m.text
  }

  predicate WellFormedIdentity(self: Identity) {
    ' ' !in self.ident && ' ' !in self.host
  }

  // Own messages show the identity, others their nick at a synthetic host.
  predicate ShowsSender(prefix: string, m: Stored, self: Identity) {
    && Nick(prefix) == m.nick
    && (self.nick != "" && m.nick == self.nick ==> prefix == self.nick + "!" + self.ident + "@" + self.host)
    && (self.nick == "" || m.nick != self.nick ==> prefix == m.nick + "!~user@upstream")
  }

  // The undecorated line reads back as the stored message.
  lemma ReplayLineReads(m: Stored, self: Identity)
    requires WellFormedStored(m) && WellFormedIdentity(self)
    ensures var p := ParseLine(FormatForReplay(m, self));
            && p.tags == map[]
            && ShowsSender(p.prefix, m, self)
            && p.command == "PRIVMSG" && p.params == [m.channel] && p.trailing == m.text
  {
    SourceReads(m, self);
    SourceShows(m, self);
    PrivmsgIsCommand();
    WireLineReads(Source(m, self), "PRIVMSG", m.channel, m.text);
  }

  lemma PrivmsgIsCommand()
    ensures IsMiddle("PRIVMSG") && ToUpper("PRIVMSG") == "PRIVMSG"
  {
  }

  lemma SourceReads(m: Stored, self: Identity)
    requires WellFormedStored(m) && WellFormedIdentity(self)
    ensures ' ' !in Source(m, self) && Nick(Source(m, self)) == m.nick
  {
    var host := if m.nick == self.nick && self.nick != "" then self.ident + "@" + self.host else "~user@upstream";
    assert ' ' !in host;
    assert Source(m, self) == m.nick + "!" + host;
    hide Source;
    NickBefore(m.nick, host);
  }

  lemma NickBefore(nick: string, host: string)
    requires '!' !in nick
    ensures Nick(nick + "!" + host) == nick
  {
    FirstSeparator(nick, '!', host);
  }

  lemma SourceShows(m: Stored, self: Identity)
    requires WellFormedStored(m) && WellFormedIdentity(self)
    ensures ShowsSender(Source(m, self), m, self)
  {
    SourceReads(m, self);
    hide Nick;
    if m.nick == self.nick && self.nick != "" {
      Ungrouped(self.nick, self.ident, self.host);
    } else {
      assert m.nick + "!" + "~user@upstream" == m.nick + "!~user@upstream";
    }
  }

  lemma Ungrouped(nick: string, ident: string, host: string)
    ensures nick + "!" + (ident + "@" + host) == nick + "!" + ident + "@" + host
  {
  }

  lemma WireLineReads(source: string, command: string, channel: string, text: string)
    requires ' ' !in source && IsMiddle(command) && IsMiddle(channel) && TrimLineEnd(text) == text
    ensures var line := WireLine(source, command, channel, text);
            ParseLine(line) == Message(line, map[], source, ToUpper(command), [channel], text)
  {
    var line := WireLine(source, command, channel, text);
    TrimLineEndAppend(":" + source + " " + command + " " + channel + " :", text);
    CommandBodyReads(source, command, channel, text);
    PrefixReads(source, command, channel, text);
    assert line[0] == ':';
    assert SplitTags(line) == (map[], line);
  }

  lemma PrefixReads(source: string, command: string, channel: string, text: string)
    requires ' ' !in source && IsMiddle(command)
    ensures SplitPrefix(WireLine(source, command, channel, text)) == (source, command + " " + channel + " :" + text)
  {
    var body := command + " " + channel + " :" + text;
    var front := ":" + source;
    assert ' ' !in front;
    assert WireLine(source, command, channel, text) == front + [SPACE] + body;
    FirstSeparator(front, SPACE, body);
    assert body[0] == command[0];
    assert front[1..] == source;
  }

  lemma CommandBodyReads(source: string, command: string, channel: string, text: string)
    requires IsMiddle(command) && IsMiddle(channel)
    ensures WithBody(Message("", map[], source, "", [], ""), command + " " + channel + " :" + text) ==
            Message("", map[], source, ToUpper(command), [channel], text)
  {
    var words := [command, channel];
    assert words[1..] == [channel];
    assert Join([channel], " ") == channel;
    assert Join(words, " ") == command + " " + channel;
    var body := command + " " + channel + " :" + text;
    assert body == Join(words, " ") + (" :" + text);
    BodyOfWords(Message("", map[], source, "", [], ""), words, text, true, body);
  }

  // A replayed line recovers nick, channel and text, whatever was negotiated.
  lemma ReplayRoundTrip(m: Stored, self: Identity, ts: string, tagTime: bool, batchID: string)
    requires WellFormedStored(m) && WellFormedIdentity(self)
    requires TagSafe(ts) && TagSafe(batchID)
    ensures var line := FormatForReplay(m, self);
            var p := ParseLine(Decorate(line, ts, tagTime, batchID));
            && p.tags == (if batchID != "" then map["batch" := batchID] else map[]) + (if tagTime then map["time" := ts] else map[])
            && ShowsSender(p.prefix, m, self)
            && p.command == "PRIVMSG" && p.params == [m.channel] && p.trailing == m.text
  {
    var line := FormatForReplay(m, self);
    ReplayLineReads(m, self);
    assert line[0] == ':';
    assert !Swallowed(line);
    DecorateUntagged(line, ts, tagTime, batchID);
  }
}
