/**
 The IRC wire codec (internal/connector/irc/protocol.go): parsing, printing,
 message-tag values, and the round trips between them.
 */
module Protocol {
  import opened Text

  datatype Message = Message(
    raw: string,
    tags: map<string, string>,
    prefix: string,
    command: string,
    params: seq<string>,
    trailing: string)

  // ----- message-tag values -----

  // What a backslash followed by c stands for.
  function Unescaped(c: char): char {
    match c
    case ':' => ';'
    case 's' => ' '
    case 'r' => '\r'
    case 'n' => '\n'
    case _ => c
  }

  // A backslash pair is decoded; a lone trailing backslash is kept.
  function Unescape(s: string): string {
    if s == "" then ""
    else if s[0] == '\\' && |s| > 1 then [Unescaped(s[1])] + Unescape(s[2..])
    else [s[0]] + Unescape(s[1..])
  }

  // The "Escaping values" table of the IRCv3 message-tags specification.
  function EscapeByte(c: char): string {
    match c
    case ';' => "\\:"
    case ' ' => "\\s"
    case '\\' => "\\\\"
    case '\r' => "\\r"
    case '\n' => "\\n"
    case _ => [c]
  }

  function Escape(s: string): string {
    if s == "" then "" else EscapeByte(s[0]) + Escape(s[1..])
  }

  method UnescapeTagValue(value: string) returns (r: string)
    ensures r == Unescape(value)
  {
    if '\\' !in value {
      UnescapePlain(value);
      return value;
    }
    r := "";
    var i := 0;
    UnescapeNone(value);
    hide Unescape, Unescaped;
    while i < |value|
      invariant 0 <= i <= |value|
      invariant Unescape(value) == r + Unescape(value[i..])
    {
      UnescapeStep(value, i);
      if value[i] == '\\' && i + 1 < |value| {
        r := r + [Unescaped(value[i + 1])];
        i := i + 2;
      } else {
        r := r + [value[i]];
        i := i + 1;
      }
    }
  }

  lemma UnescapeNone(value: string)
    ensures value[0..] == value && value[|value|..] == "" && Unescape("") == ""
  {
  }

  lemma UnescapeStep(value: string, i: nat)
    requires i < |value|
    ensures Unescape(value[i..]) ==
            if value[i] == '\\' && i + 1 < |value| then [Unescaped(value[i + 1])] + Unescape(value[i + 2..])
            else [value[i]] + Unescape(value[i + 1..])
  {
    assert value[i..][1..] == value[i + 1..];
    if i + 1 < |value| {
      assert value[i..][2..] == value[i + 2..];
    }
  }

  lemma {:induction false} UnescapePlain(s: string)
    requires '\\' !in s
    ensures Unescape(s) == s
  {
    if s != "" {
      UnescapePlain(s[1..]);
    }
  }

  lemma UnescapeEscape(s: string)
    ensures Unescape(Escape(s)) == s
  {
    UnescapeBefore(s, "");
    assert Escape(s) + "" == Escape(s) && s + Unescape("") == s;
  }

  // What the table leaves open: any other escaped byte stands for itself, and a
  // backslash at the end is kept.
  lemma UnescapeOther(a: string, c: char, b: string)
    requires c !in ":srn"
    ensures Unescape(Escape(a) + ("\\" + [c] + Escape(b))) == a + ([c] + b)
    ensures Unescape(Escape(a) + "\\") == a + "\\"
  {
    UnescapeEscape(b);
    OtherEscape(c, Escape(b));
    LoneBackslash();
    hide Unescape, Escape;
    UnescapeBefore(a, "\\" + [c] + Escape(b));
    UnescapeBefore(a, "\\");
  }

  lemma OtherEscape(c: char, rest: string)
    requires c !in ":srn"
    ensures Unescape("\\" + [c] + rest) == [c] + Unescape(rest)
  {
    var s := "\\" + [c] + rest;
    assert s[2..] == rest;
    assert ':' in ":srn" && 's' in ":srn" && 'r' in ":srn" && 'n' in ":srn";
  }

  lemma LoneBackslash()
    ensures Unescape("\\") == "\\"
  {
  }

  lemma {:induction false} UnescapeBefore(a: string, tail: string)
    ensures Unescape(Escape(a) + tail) == a + Unescape(tail)
  {
    hide Unescape, EscapeByte;
    if a == "" {
      assert Escape(a) + tail == tail && a + Unescape(tail) == Unescape(tail);
    } else {
      var first, later := EscapeByte(a[0]), Escape(a[1..]);
      assert Escape(a) == first + later;
      hide Escape;
      assert (first + later) + tail == first + (later + tail);
      EscapedByte(a[0], later + tail);
      UnescapeBefore(a[1..], tail);
      assert [a[0]] + (a[1..] + Unescape(tail)) == a + Unescape(tail);
    }
  }

  lemma EscapedByte(c: char, rest: string)
    ensures Unescape(EscapeByte(c) + rest) == [c] + Unescape(rest)
  {
    var s := EscapeByte(c) + rest;
    assert s[|EscapeByte(c)|..] == rest;
  }

  // Escaped text cannot end a tag, the tag list or the line.
  lemma {:induction false} EscapeIsInert(s: string)
    ensures ';' !in Escape(s) && ' ' !in Escape(s) && '\r' !in Escape(s) && '\n' !in Escape(s)
  {
    if s != "" {
      EscapeIsInert(s[1..]);
    }
  }

  // ----- parsing -----

  // One tag of the list overrides an earlier one with the same key.
  function WithTag(tags: map<string, string>, tag: string): map<string, string> {
    if tag == "" then tags
    else
      var eq := IndexByte(tag, '=');
      if eq >= 0 then tags[tag[..eq] := Unescape(tag[eq + 1..])] else tags[tag := ""]
  }

  function FoldTags(tags: map<string, string>, list: seq<string>): map<string, string>
    decreases |list|
  {
    if list == [] then tags else FoldTags(WithTag(tags, list[0]), list[1..])
  }

  // The tag map and what follows the tags.
  function SplitTags(raw: string): (map<string, string>, string) {
    if !HasPrefix(raw, "@") then (map[], raw)
    else
      var sp := IndexByte(raw, SPACE);
      if sp >= 0 then (FoldTags(map[], Split(raw[..sp][1..], ';')), TrimLeft(raw[sp + 1..], SPACE))
      else (FoldTags(map[], Split(raw[1..], ';')), "")
  }

  // The prefix and what follows it.
  function SplitPrefix(s: string): (string, string) {
    if !HasPrefix(s, ":") then ("", s)
    else
      var sp := IndexByte(s, SPACE);
      if sp >= 0 then (s[1..sp], TrimLeft(s[sp + 1..], SPACE)) else (s[1..], "")
  }

  function WithBody(m: Message, body: string): Message {
    var idx := Index(body, " :");
    var head := if idx >= 0 then body[..idx] else body;
    var trailing := if idx >= 0 then body[idx + 2..] else "";
    var parts := Fields(head);
    if parts == [] then m.(trailing := trailing)
    else m.(command := ToUpper(parts[0]), params := parts[1..], trailing := trailing)
  }

  // Everything after the tags.
  function ParseRest(rest: string): Message {
    var (prefix, body) := SplitPrefix(rest);
    WithBody(Message("", map[], prefix, "", [], ""), body)
  }

  function ParseLine(line: string): Message {
    var raw := TrimLineEnd(line);
    var (tags, rest) := SplitTags(raw);
    ParseRest(rest).(raw := raw, tags := tags)
  }

  method ParseTagList(list: seq<string>) returns (tags: map<string, string>)
    ensures tags == FoldTags(map[], list)
  {
    tags := map[];
    var i := 0;
    while i < |list|
      invariant 0 <= i <= |list|
      invariant FoldTags(map[], list) == FoldTags(tags, list[i..])
    {
      assert list[i..][1..] == list[i + 1..];
      var tag := list[i];
      if tag != "" {
        var eq := IndexByte(tag, '=');
        if eq >= 0 {
          var value := UnescapeTagValue(tag[eq + 1..]);
          tags := tags[tag[..eq] := value];
        } else {
          tags := tags[tag := ""];
        }
      }
      i := i + 1;
    }
  }

  method TakeTags(raw: string) returns (tags: map<string, string>, remaining: string)
    ensures (tags, remaining) == SplitTags(raw)
  {
    tags, remaining := map[], raw;
    if HasPrefix(remaining, "@") {
      var tagSegment := remaining;
      var sp := IndexByte(remaining, SPACE);
      if sp >= 0 {
        tagSegment := remaining[..sp];
        remaining := TrimLeft(remaining[sp + 1..], SPACE);
      } else {
        remaining := "";
      }
      tags := ParseTagList(Split(tagSegment[1..], ';'));
    }
  }

  method TakePrefix(s: string) returns (prefix: string, remaining: string)
    ensures (prefix, remaining) == SplitPrefix(s)
  {
    prefix, remaining := "", s;
    if HasPrefix(remaining, ":") {
      var sp := IndexByte(remaining, SPACE);
      if sp >= 0 {
        prefix := remaining[1..sp];
        remaining := TrimLeft(remaining[sp + 1..], SPACE);
      } else {
        prefix := remaining[1..];
        remaining := "";
      }
    }
  }

  method Parse(line: string) returns (m: Message)
    ensures m == ParseLine(line)
  {
    var raw := TrimLineEnd(line);
    var tags, afterTags := TakeTags(raw);
    var prefix, remaining := TakePrefix(afterTags);
    m := ParseBody(Message(raw, tags, prefix, "", [], ""), remaining);
  }

  // The part of Parse after the prefix.
  method ParseBody(empty: Message, remaining: string) returns (m: Message)
    ensures m == WithBody(empty, remaining)
  {
    m := empty;
    if remaining == "" {
      return m.(trailing := "");
    }
    var head, trailing := remaining, "";
    var idx := Index(remaining, " :");
    if idx >= 0 {
      head := remaining[..idx];
      trailing := remaining[idx + 2..];
    }
    var parts := Fields(head);
    m := m.(trailing := trailing);
    if parts != [] {
      m := m.(command := ToUpper(parts[0]), params := parts[1..]);
    }
  }

  // ----- printing -----

  function FormatCommand(command: string, params: seq<string>, trailing: string, hasTrailing: bool): string {
    Join([command] + params + (if hasTrailing then [":" + trailing] else []), " ")
  }

  // A word that does not read as the start of a trailing argument.
  predicate IsMiddle(w: string) {
    IsWord(w) && w[0] != ':'
  }

  // What RFC 2812 section 2.3.1 asks of the fields of a line without tags or prefix.
  predicate WellFormed(command: string, params: seq<string>, trailing: string, hasTrailing: bool) {
    && IsMiddle(command) && command[0] != '@'
    && (forall p | p in params :: IsMiddle(p))
    && (hasTrailing ==> TrimLineEnd(trailing) == trailing)
  }

  lemma ParseFormat(command: string, params: seq<string>, trailing: string, hasTrailing: bool)
    requires WellFormed(command, params, trailing, hasTrailing)
    ensures var line := FormatCommand(command, params, trailing, hasTrailing);
            ParseLine(line) ==
            Message(line, map[], "", ToUpper(command), params, if hasTrailing then trailing else "")
  {
    hide WithBody, Join, TrimLineEnd, Fields;
    var words := [command] + params;
    var line := FormatCommand(command, params, trailing, hasTrailing);
    FormatShape(words, trailing, hasTrailing);
    FormatUntrimmed(words, trailing, hasTrailing);
    assert line == FormatCommand(words[0], words[1..], trailing, hasTrailing);
    BodyOfWords(Message("", map[], "", "", [], ""), words, trailing, hasTrailing, line);
  }

  // So does a printed command behind a prefix, as servers send it.
  lemma ParsePrefixed(prefix: string, command: string, params: seq<string>, trailing: string, hasTrailing: bool)
    requires WellFormed(command, params, trailing, hasTrailing) && ' ' !in prefix
    ensures var line := ":" + prefix + " " + FormatCommand(command, params, trailing, hasTrailing);
            ParseLine(line) ==
            Message(line, map[], prefix, ToUpper(command), params, if hasTrailing then trailing else "")
  {
    hide WithBody, Join, TrimLineEnd, Fields, ParseLine;
    var words := [command] + params;
    var body := FormatCommand(command, params, trailing, hasTrailing);
    assert words[0] == command && words[1..] == params;
    FormatShape(words, trailing, hasTrailing);
    FormatUntrimmed(words, trailing, hasTrailing);
    hide FormatCommand;
    PrefixedLine(prefix, body);
    BodyOfWords(Message("", map[], prefix, "", [], ""), words, trailing, hasTrailing, body);
  }

  lemma PrefixedLine(prefix: string, body: string)
    requires ' ' !in prefix && body != "" && body[0] != SPACE && TrimLineEnd(body) == body
    ensures var line := ":" + prefix + " " + body;
            ParseLine(line) == WithBody(Message("", map[], prefix, "", [], ""), body).(raw := line, tags := map[])
  {
    hide WithBody, TrimLineEnd, SplitPrefix;
    TrimLineEndAppend(":" + prefix + " ", body);
    PrefixBefore(prefix, body);
    assert !HasPrefix(":" + prefix + " " + body, "@");
  }

  lemma PrefixBefore(prefix: string, body: string)
    requires ' ' !in prefix && body != "" && body[0] != SPACE
    ensures SplitPrefix(":" + prefix + " " + body) == (prefix, body)
  {
    var front := ":" + prefix;
    assert ' ' !in front;
    FirstSeparator(front, SPACE, body);
    assert front[1..] == prefix;
  }

  lemma FormatShape(words: seq<string>, trailing: string, hasTrailing: bool)
    requires words != [] && forall w | w in words :: IsMiddle(w)
    ensures var line := FormatCommand(words[0], words[1..], trailing, hasTrailing);
            && line == Join(words, " ") + (if hasTrailing then " :" + trailing else "")
            && words[0] != "" && line != "" && line[0] == words[0][0]
  {
    hide Join, IsMiddle;
    HeadOfWords(words);
    assert [words[0]] + words[1..] == words;
    var parts := words + if hasTrailing then [":" + trailing] else [];
    assert FormatCommand(words[0], words[1..], trailing, hasTrailing) == Join(parts, " ");
    hide FormatCommand;
    if hasTrailing {
      JoinAppend(words, ":" + trailing);
      assert Join(words, " ") + " " + (":" + trailing) == Join(words, " ") + (" :" + trailing);
    } else {
      assert parts == words;
      assert Join(words, " ") + "" == Join(words, " ");
    }
  }

  lemma FormatUntrimmed(words: seq<string>, trailing: string, hasTrailing: bool)
    requires words != [] && forall w | w in words :: IsMiddle(w)
    requires hasTrailing ==> TrimLineEnd(trailing) == trailing
    ensures var line := FormatCommand(words[0], words[1..], trailing, hasTrailing);
            TrimLineEnd(line) == line
  {
    FormatShape(words, trailing, hasTrailing);
    HeadOfWords(words);
    var head := Join(words, " ");
    if hasTrailing {
      assert head + (" :" + trailing) == (head + " :") + trailing;
      TrimLineEndAppend(head + " :", trailing);
    } else {
      assert head + "" == head;
    }
  }

  // Words and an optional trailing argument read back from their wire form.
  lemma BodyOfWords(m: Message, words: seq<string>, trailing: string, hasTrailing: bool, line: string)
    requires words != [] && forall w | w in words :: IsMiddle(w)
    requires line == Join(words, " ") + if hasTrailing then " :" + trailing else ""
    ensures WithBody(m, line) ==
            m.(command := ToUpper(words[0]), params := words[1..], trailing := if hasTrailing then trailing else "")
  {
    var head := Join(words, " ");
    HeadOfWords(words);
    FieldsJoin(words);
    if hasTrailing {
      assert line == head + " :" + trailing;
      TrailingSplit(head, trailing);
      assert line[..|head|] == head && line[|head| + 2..] == trailing;
    } else {
      assert line == head;
      NoTrailing(head);
    }
  }

  lemma {:induction false} JoinAppend(words: seq<string>, last: string)
    requires words != []
    ensures Join(words + [last], " ") == Join(words, " ") + " " + last
  {
    if |words| > 1 {
      assert (words + [last])[1..] == words[1..] + [last];
      JoinAppend(words[1..], last);
    }
  }

  // No space of the joined words is followed by a colon, and the last byte is a word's.
  lemma {:induction false} HeadOfWords(words: seq<string>)
    requires words != [] && forall w | w in words :: IsMiddle(w)
    ensures var s := Join(words, " ");
            && words[0] != "" && s != "" && s[0] == words[0][0] && !IsSpace(s[|s| - 1])
            && forall i | 0 <= i < |s| - 1 :: s[i] == SPACE ==> s[i + 1] != ':'
  {
    assert IsMiddle(words[0]);
    if |words| > 1 {
      HeadOfWords(words[1..]);
      var w, rest := words[0], Join(words[1..], " ");
      var s := Join(words, " ");
      assert s == w + " " + rest;
      assert IsMiddle(words[1]) && rest[0] == words[1][0];
      forall i | 0 <= i < |s| - 1 && s[i] == SPACE
        ensures s[i + 1] != ':'
      {
        if i > |w| {
          var j := i - |w| - 1;
          assert rest[j] == SPACE && s[i + 1] == rest[j + 1];
        }
      }
    }
  }

  lemma NoTrailing(head: string)
    requires forall i | 0 <= i < |head| - 1 :: head[i] == SPACE ==> head[i + 1] != ':'
    ensures Index(head, " :") < 0
  {
    forall k: nat
      ensures !OccursAt(head, " :", k)
    {
      if k + 1 < |head| {
        assert head[k..][0] == head[k] && head[k..][1] == head[k + 1];
      }
    }
  }

  lemma TrailingSplit(head: string, trailing: string)
    requires head != "" && !IsSpace(head[|head| - 1])
    requires forall i | 0 <= i < |head| - 1 :: head[i] == SPACE ==> head[i + 1] != ':'
    ensures Index(head + " :" + trailing, " :") == |head|
  {
    var s := head + " :" + trailing;
    assert s[|head|..] == " :" + trailing;
    assert OccursAt(s, " :", |head|);
    forall k: nat | k < |head|
      ensures !OccursAt(s, " :", k)
    {
      assert s[k..][0] == head[k] && s[k..][1] == s[k + 1];
    }
  }

  // ----- tag lists -----

  predicate LegalKey(k: string) {
    k != "" && '=' !in k && ';' !in k && ' ' !in k
  }

  // What may stand between two semicolons: nothing, a bare key, or a key and a
  // value.
  datatype Tag = Blank | Flag(key: string) | Pair(key: string, value: string)

  // The key before an equals sign may be empty.
  predicate LegalTag(tag: Tag) {
    tag.Blank? || LegalKey(tag.key) || (tag.Pair? && tag.key == "")
  }

  function PrintTag(tag: Tag): string {
    match tag
    case Blank => ""
    case Flag(key) => key
    case Pair(key, value) => key + "=" + Escape(value)
  }

  function PrintTags(tags: seq<Tag>): seq<string> {
    seq(|tags|, i requires 0 <= i < |tags| => PrintTag(tags[i]))
  }

  // A bare key has the empty value.
  function Entries(tags: seq<Tag>): seq<(string, string)> {
    if tags == [] then []
    else
      (match tags[0]
       case Blank => []
       case Flag(key) => [(key, "")]
       case Pair(key, value) => [(key, value)]) + Entries(tags[1..])
  }

  // The map a tag list denotes: later entries override earlier ones.
  function MapOf(kvs: seq<(string, string)>): map<string, string> {
    if kvs == [] then map[] else map[kvs[0].0 := kvs[0].1] + MapOf(kvs[1..])
  }

  lemma PrintTagReads(tag: Tag, tags: map<string, string>)
    requires LegalTag(tag)
    ensures WithTag(tags, PrintTag(tag)) == tags + MapOf(Entries([tag]))
    ensures ';' !in PrintTag(tag) && ' ' !in PrintTag(tag)
  {
    assert [tag][1..] == [] && Entries([]) == [];
    match tag
    case Blank => assert tags + map[] == tags;
    case Flag(key) => OneEntry(tags, key, "");
    case Pair(key, value) =>
      OneEntry(tags, key, value);
      FirstSeparator(key, '=', Escape(value));
      UnescapeEscape(value);
      EscapeIsInert(value);
  }

  lemma OneEntry(tags: map<string, string>, key: string, value: string)
    ensures tags + MapOf([(key, value)]) == tags[key := value]
  {
    assert [(key, value)][1..] == [];
    assert MapOf([(key, value)]) == map[key := value];
  }

  lemma WithTagOverrides(tags: map<string, string>, tag: string)
    ensures WithTag(tags, tag) == tags + WithTag(map[], tag)
  {
  }

  // Parsing on top of a map is overriding that map.
  lemma {:induction false} FoldTagsOverrides(tags: map<string, string>, list: seq<string>)
    ensures FoldTags(tags, list) == tags + FoldTags(map[], list)
    decreases |list|
  {
    if list != [] {
      var first, rest := WithTag(map[], list[0]), FoldTags(map[], list[1..]);
      WithTagOverrides(tags, list[0]);
      FoldTagsOverrides(WithTag(tags, list[0]), list[1..]);
      FoldTagsOverrides(first, list[1..]);
      assert (tags + first) + rest == tags + (first + rest);
    }
  }

  lemma {:induction false} TagListRoundTrip(tags: seq<Tag>)
    requires forall tag | tag in tags :: LegalTag(tag)
    ensures FoldTags(map[], PrintTags(tags)) == MapOf(Entries(tags))
  {
    hide PrintTag, LegalTag, WithTag;
    if tags != [] {
      var list := PrintTags(tags);
      assert list[1..] == PrintTags(tags[1..]);
      PrintTagReads(tags[0], map[]);
      TagListRoundTrip(tags[1..]);
      EntriesStep(tags);
      var first := WithTag(map[], list[0]);
      assert FoldTags(map[], list) == FoldTags(first, list[1..]);
      hide PrintTags, FoldTags, Entries, MapOf;
      assert first == MapOf(Entries([tags[0]]));
      FoldTagsOverrides(first, list[1..]);
      MapOfConcat(Entries([tags[0]]), Entries(tags[1..]));
    }
  }

  lemma EntriesStep(tags: seq<Tag>)
    requires tags != []
    ensures Entries(tags) == Entries([tags[0]]) + Entries(tags[1..])
  {
    assert [tags[0]][1..] == [] && Entries([]) == [];
  }

  lemma {:induction false} MapOfConcat(a: seq<(string, string)>, b: seq<(string, string)>)
    ensures MapOf(a + b) == MapOf(a) + MapOf(b)
    decreases |a|
  {
    if a == [] {
      assert a + b == b && map[] + MapOf(b) == MapOf(b);
    } else {
      assert (a + b)[1..] == a[1..] + b && (a + b)[0] == a[0];
      MapOfConcat(a[1..], b);
      MapAssociates(map[a[0].0 := a[0].1], MapOf(a[1..]), MapOf(b));
    }
  }

  lemma MapAssociates(a: map<string, string>, b: map<string, string>, c: map<string, string>)
    ensures a + (b + c) == (a + b) + c
  {
  }

  // A key of a list without repeated keys maps to its own value.
  lemma {:induction false} MapOfDistinct(kvs: seq<(string, string)>, i: nat)
    requires i < |kvs|
    requires forall a, b | 0 <= a < b < |kvs| :: kvs[a].0 != kvs[b].0
    ensures kvs[i].0 in MapOf(kvs) && MapOf(kvs)[kvs[i].0] == kvs[i].1
  {
    if i > 0 {
      MapOfDistinct(kvs[1..], i - 1);
    } else {
      MapOfKeys(kvs[1..]);
    }
  }

  lemma {:induction false} MapOfKeys(kvs: seq<(string, string)>)
    ensures forall k | k in MapOf(kvs) :: exists j :: 0 <= j < |kvs| && kvs[j].0 == k
  {
    if kvs != [] {
      MapOfKeys(kvs[1..]);
      forall k | k in MapOf(kvs)
        ensures exists j :: 0 <= j < |kvs| && kvs[j].0 == k
      {
        if k != kvs[0].0 {
          assert k in MapOf(kvs[1..]);
          var j :| 0 <= j < |kvs[1..]| && kvs[1..][j].0 == k;
          assert kvs[j + 1].0 == k;
        }
      }
    }
  }

  // Putting a tag list in front of a line adds its tags and changes nothing
  // else; `rest` stands for the line after its own tags.
  lemma TaggedLine(list: seq<string>, rest: string)
    requires list != [] && forall t | t in list :: ';' !in t && ' ' !in t
    ensures var raw := TrimLineEnd(rest);
            && TrimLineEnd("@" + Join(list, ";") + " " + rest) == "@" + Join(list, ";") + " " + raw
            && SplitTags("@" + Join(list, ";") + " " + raw) == (FoldTags(map[], list), TrimLeft(raw, SPACE))
  {
    hide SplitTags, FoldTags, TrimLeft;
    var joined := Join(list, ";");
    JoinAvoids(list, ' ');
    TaggedTrim(joined, rest);
    TagSegment(joined, TrimLineEnd(rest));
    SplitJoin(list, ';');
  }

  lemma TaggedTrim(joined: string, rest: string)
    ensures TrimLineEnd("@" + joined + " " + rest) == "@" + joined + " " + TrimLineEnd(rest)
  {
    var front := "@" + joined + " ";
    assert front[|front| - 1] == ' ';
    TrimLineEndAppend(front, rest);
  }

  lemma TagSegment(joined: string, raw: string)
    requires ' ' !in joined
    ensures SplitTags("@" + joined + " " + raw) == (FoldTags(map[], Split(joined, ';')), TrimLeft(raw, SPACE))
  {
    var segment := "@" + joined;
    assert ' ' !in segment;
    FirstSeparator(segment, SPACE, raw);
    assert segment[1..] == joined;
  }

  lemma {:induction false} JoinAvoids(list: seq<string>, c: char)
    requires c != ';' && forall t | t in list :: c !in t
    ensures c !in Join(list, ";")
  {
    if |list| > 1 {
      JoinAvoids(list[1..], c);
    }
  }

  // A printed tag list in front of an untagged line parses to exactly that map.
  lemma TagsRoundTrip(tags: seq<Tag>, rest: string)
    requires tags != [] && forall tag | tag in tags :: LegalTag(tag)
    requires rest != "" && rest[0] != '@' && rest[0] != SPACE
    ensures var tagged := ParseLine("@" + Join(PrintTags(tags), ";") + " " + rest);
            tagged == ParseLine(rest).(raw := tagged.raw, tags := MapOf(Entries(tags)))
  {
    hide ParseRest, FoldTags, MapOf, Join, Entries, LegalTag;
    var list := PrintTags(tags);
    PrintedTagsInert(tags);
    TaggedLine(list, rest);
    TagListRoundTrip(tags);
    var raw := TrimLineEnd(rest);
    assert raw == "" || raw[0] == rest[0];
    hide TrimLineEnd;
    assert TrimLeft(raw, SPACE) == raw && SplitTags(raw) == (map[], raw);
    hide TrimLeft, SplitTags;
  }

  lemma PrintedTagsInert(tags: seq<Tag>)
    requires forall tag | tag in tags :: LegalTag(tag)
    ensures forall t | t in PrintTags(tags) :: ';' !in t && ' ' !in t
  {
    hide LegalTag, PrintTag;
    forall t | t in PrintTags(tags)
      ensures ';' !in t && ' ' !in t
    {
      var i :| 0 <= i < |tags| && t == PrintTags(tags)[i];
      PrintTagReads(tags[i], map[]);
    }
  }

  // ----- whole lines -----

  function Spaces(n: nat): string {
    seq(n, _ => SPACE)
  }

  lemma {:induction false} TrimSpaces(n: nat, s: string)
    requires s == "" || s[0] != SPACE
    ensures TrimLeft(Spaces(n) + s, SPACE) == s
  {
    if n > 0 {
      assert (Spaces(n) + s)[1..] == Spaces(n - 1) + s;
      TrimSpaces(n - 1, s);
    } else {
      assert Spaces(0) + s == s;
    }
  }

  lemma {:induction false} TrimEnding(s: string, ending: string)
    requires TrimLineEnd(s) == s && forall i | 0 <= i < |ending| :: ending[i] == '\r' || ending[i] == '\n'
    ensures TrimLineEnd(s + ending) == s
    decreases |ending|
  {
    if ending == "" {
      assert s + ending == s;
    } else {
      var shorter := ending[..|ending| - 1];
      assert (s + ending)[..|s + ending| - 1] == s + shorter;
      TrimEnding(s, shorter);
    }
  }

  // A line with everything, its parts set apart by any number of spaces and
  // ended by any carriage returns and line feeds, reads back as its parts.
  lemma FullLine(tags: seq<Tag>, j: nat, prefix: string, k: nat, command: string, params: seq<string>,
                 trailing: string, hasTrailing: bool, ending: string)
    requires tags != [] && (forall tag | tag in tags :: LegalTag(tag)) && ' ' !in prefix
    requires WellFormed(command, params, trailing, hasTrailing)
    requires forall i | 0 <= i < |ending| :: ending[i] == '\r' || ending[i] == '\n'
    ensures var body := Spaces(k) + FormatCommand(command, params, trailing, hasTrailing);
            var line := "@" + Join(PrintTags(tags), ";") + " " + (Spaces(j) + (":" + prefix + " " + body));
            ParseLine(line + ending) ==
            Message(line, MapOf(Entries(tags)), prefix, ToUpper(command), params, if hasTrailing then trailing else "")
  {
    var words := [command] + params;
    var text := FormatCommand(command, params, trailing, hasTrailing);
    assert words[0] == command && words[1..] == params;
    FormatShape(words, trailing, hasTrailing);
    FormatUntrimmed(words, trailing, hasTrailing);
    hide WithBody, Join, TrimLineEnd, Fields, FormatCommand, FoldTags, Entries, MapOf, LegalTag, SplitPrefix, SplitTags;
    BodyOfWords(Message("", map[], prefix, "", [], ""), words, trailing, hasTrailing, text);
    var front := ":" + prefix + " " + Spaces(k);
    var rest := Spaces(j) + (":" + prefix + " " + (Spaces(k) + text));
    assert rest == (Spaces(j) + front) + text;
    TrimLineEndAppend(Spaces(j) + front, text);
    PrefixSpaced(prefix, k, text);
    TrimSpaces(j, ":" + prefix + " " + (Spaces(k) + text));
    PrintedTagsInert(tags);
    TagListRoundTrip(tags);
    TaggedLine(PrintTags(tags), rest);
    TrimEnding("@" + Join(PrintTags(tags), ";") + " " + rest, ending);
  }

  lemma PrefixSpaced(prefix: string, k: nat, text: string)
    requires ' ' !in prefix && text != "" && text[0] != SPACE
    ensures SplitPrefix(":" + prefix + " " + (Spaces(k) + text)) == (prefix, text)
  {
    var front := ":" + prefix;
    assert ' ' !in front;
    FirstSeparator(front, SPACE, Spaces(k) + text);
    assert front[1..] == prefix;
    TrimSpaces(k, text);
  }

  // A line that ends with its tags has nothing else.
  lemma BareTags(tags: seq<Tag>)
    requires tags != [] && (forall tag | tag in tags :: LegalTag(tag))
    requires TrimLineEnd(Join(PrintTags(tags), ";")) == Join(PrintTags(tags), ";")
    ensures ParseLine("@" + Join(PrintTags(tags), ";")) ==
            Message("@" + Join(PrintTags(tags), ";"), MapOf(Entries(tags)), "", "", [], "")
  {
    var list := PrintTags(tags);
    var joined := Join(list, ";");
    PrintedTagsInert(tags);
    TagListRoundTrip(tags);
    SplitJoin(list, ';');
    JoinAvoids(list, ' ');
    hide Join, PrintTag, PrintTags, FoldTags, Split, Entries, MapOf, LegalTag;
    FrontKept("@", joined);
    assert IndexByte("@" + joined, SPACE) < 0 && ("@" + joined)[1..] == joined;
    hide IndexByte, TrimLineEnd;
    NoBody();
    hide WithBody;
  }

  // Nor has one that ends with its prefix.
  lemma BarePrefix(prefix: string)
    requires ' ' !in prefix && TrimLineEnd(prefix) == prefix
    ensures ParseLine(":" + prefix) == Message(":" + prefix, map[], prefix, "", [], "")
  {
    FrontKept(":", prefix);
    assert IndexByte(":" + prefix, SPACE) < 0 && (":" + prefix)[1..] == prefix;
    hide IndexByte, TrimLineEnd;
    NoBody();
    hide WithBody;
  }

  lemma FrontKept(mark: string, s: string)
    requires mark == "@" || mark == ":"
    requires TrimLineEnd(s) == s
    ensures TrimLineEnd(mark + s) == mark + s
  {
    TrimLineEndAppend(mark, s);
  }

  lemma NoBody()
    ensures forall m: Message :: WithBody(m, "") == m.(trailing := "")
    ensures SplitPrefix("") == ("", "")
  {
    assert Index("", " :") < 0;
  }

  // ----- prefixes -----

  function Nick(prefix: string): string {
    var i := IndexByte(prefix, '!');
    if i >= 0 then prefix[..i] else prefix
  }

  datatype IdentHost = IdentHost(ident: string, host: string) | NoIdentHost

  function SplitIdentHost(prefix: string): IdentHost {
    var bang := IndexByte(prefix, '!');
    if bang < 0 then NoIdentHost
    else
      var rest := prefix[bang + 1..];
      var at := IndexByte(rest, '@');
      if at < 0 then NoIdentHost else IdentHost(rest[..at], rest[at + 1..])
  }

  // The three parts of a full prefix come back, whatever the host contains.
  lemma PrefixParts(nick: string, ident: string, host: string)
    requires '!' !in nick && '@' !in ident
    ensures Nick(nick + "!" + ident + "@" + host) == nick
    ensures SplitIdentHost(nick + "!" + ident + "@" + host) == IdentHost(ident, host)
  {
    assert nick + "!" + ident + "@" + host == nick + "!" + (ident + "@" + host);
    FirstSeparator(nick, '!', ident + "@" + host);
    FirstSeparator(ident, '@', host);
  }
}
