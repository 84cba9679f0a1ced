/**
 The string helpers of the Go standard library that the modelled code calls,
 over byte strings: one char stands for one byte, and white space and letter
 case are the ASCII ones.
 */
module Text {

  const SPACE := ' '

  // The six ASCII white-space bytes: tab, line feed, vertical tab, form feed,
  // carriage return and space.
  predicate IsSpace(c: char)
    ensures IsSpace(c) <==> c as int in {9, 10, 11, 12, 13, 32}
  {
    c == ' ' || 9 <= c as int <= 13
  }

  // Index of the first byte equal to c, or -1.
  function IndexByte(s: string, c: char): (r: int)
    ensures -1 <= r < |s|
    ensures r >= 0 ==> s[r] == c && c !in s[..r]
    ensures r < 0 ==> c !in s
  {
    if s == "" then -1
    else if s[0] == c then 0
    else
      var r := IndexByte(s[1..], c);
      if r < 0 then -1 else
        assert s[..r + 1] == [s[0]] + s[1..][..r];
        r + 1
  }

  predicate OccursAt(s: string, sub: string, k: nat) {
    k <= |s| && sub <= s[k..]
  }

  // Index of the leftmost occurrence of sub in s, or -1.
  function Index(s: string, sub: string): (r: int)
    ensures -1 <= r <= |s|
    ensures r >= 0 ==> OccursAt(s, sub, r)
    ensures forall k: nat | OccursAt(s, sub, k) :: 0 <= r <= k
  {
    IndexFrom(s, sub, 0)
  }

  function IndexFrom(s: string, sub: string, from: nat): (r: int)
    requires from <= |s|
    ensures r == -1 || from <= r <= |s|
    ensures r >= 0 ==> OccursAt(s, sub, r)
    ensures forall k: nat | from <= k && OccursAt(s, sub, k) :: 0 <= r <= k
    decreases |s| - from
  {
    if sub <= s[from..] then from
    else if from == |s| then -1
    else IndexFrom(s, sub, from + 1)
  }

  predicate HasPrefix(s: string, t: string) {
    t <= s
  }

  predicate HasSuffix(s: string, t: string) {
    |t| <= |s| && s[|s| - |t|..] == t
  }

  // The pieces of s between the occurrences of sep.
  function Split(s: string, sep: char): (r: seq<string>)
    ensures r != []
    ensures forall p | p in r :: sep !in p
  {
    var i := IndexByte(s, sep);
    if i < 0 then [s] else [s[..i]] + Split(s[i + 1..], sep)
  }

  function Join(parts: seq<string>, sep: string): string {
    if parts == [] then ""
    else if |parts| == 1 then parts[0]
    else parts[0] + sep + Join(parts[1..], sep)
  }

  lemma JoinCons(first: string, rest: seq<string>, sep: char)
    requires rest != []
    ensures Join([first] + rest, [sep]) == first + [sep] + Join(rest, [sep])
  {
    assert ([first] + rest)[1..] == rest;
  }

  lemma SplitStep(s: string, sep: char)
    ensures var i := IndexByte(s, sep);
            Split(s, sep) == if i < 0 then [s] else [s[..i]] + Split(s[i + 1..], sep)
  {
    hide IndexByte;
  }

  lemma {:induction false} JoinSplit(s: string, sep: char)
    ensures Join(Split(s, sep), [sep]) == s
  {
    hide Join, Split, IndexByte;
    SplitStep(s, sep);
    var i := IndexByte(s, sep);
    if i >= 0 {
      JoinSplit(s[i + 1..], sep);
      JoinCons(s[..i], Split(s[i + 1..], sep), sep);
      assert s == s[..i] + [sep] + s[i + 1..];
    } else {
      JoinOne(s, sep);
    }
  }

  lemma JoinOne(s: string, sep: char)
    ensures Join([s], [sep]) == s
  {
  }

  lemma {:induction false} SplitJoin(parts: seq<string>, sep: char)
    requires parts != []
    requires forall p | p in parts :: sep !in p
    ensures Split(Join(parts, [sep]), sep) == parts
  {
    var s := Join(parts, [sep]);
    assert sep !in parts[0];
    if |parts| == 1 {
      assert s == parts[0];
      assert IndexByte(s, sep) < 0;
      assert parts == [parts[0]];
    } else {
      var rest := Join(parts[1..], [sep]);
      assert s == parts[0] + [sep] + rest;
      FirstSeparator(parts[0], sep, rest);
      SplitJoin(parts[1..], sep);
      assert parts == [parts[0]] + parts[1..];
    }
  }

  // In `a + sep + b` with no sep in a, the first sep is the one after a.
  lemma FirstSeparator(a: string, sep: char, b: string)
    requires sep !in a
    ensures IndexByte(a + [sep] + b, sep) == |a|
    ensures (a + [sep] + b)[..|a|] == a && (a + [sep] + b)[|a| + 1..] == b
  {
    var s := a + [sep] + b;
    var i := IndexByte(s, sep);
    assert s[|a|] == sep;
    assert forall k | 0 <= k < |a| :: s[k] == a[k];
    assert forall k | 0 <= k < i :: s[..i][k] == s[k];
  }

  // Strip every leading c.
  function TrimLeft(s: string, c: char): (r: string)
    ensures r == "" || r[0] != c
    ensures |r| <= |s| && r == s[|s| - |r|..]
  {
    if s != "" && s[0] == c then TrimLeft(s[1..], c) else s
  }

  predicate IsLineEnd(c: char) {
    c == '\r' || c == '\n'
  }

  // Strip every trailing carriage return and line feed.
  function TrimLineEnd(s: string): (r: string)
    ensures r <= s
    ensures r == "" || !IsLineEnd(r[|r| - 1])
    ensures forall i | |r| <= i < |s| :: IsLineEnd(s[i])
  {
    if s != "" && IsLineEnd(s[|s| - 1]) then TrimLineEnd(s[..|s| - 1]) else s
  }

  // A suffix that keeps a byte other than a line end shields everything before it.
  lemma {:induction false} TrimLineEndAppend(a: string, b: string)
    requires a != "" && !IsLineEnd(a[|a| - 1])
    ensures TrimLineEnd(a + b) == a + TrimLineEnd(b)
  {
    if b == "" {
      assert a + b == a;
    } else if IsLineEnd(b[|b| - 1]) {
      assert (a + b)[..|a + b| - 1] == a + b[..|b| - 1];
      TrimLineEndAppend(a, b[..|b| - 1]);
    }
  }

  function DropSpaces(s: string): (r: string)
    ensures r == "" || !IsSpace(r[0])
    ensures |r| <= |s|
  {
    if s != "" && IsSpace(s[0]) then DropSpaces(s[1..]) else s
  }

  function DropTrailingSpaces(s: string): (r: string)
    ensures |r| <= |s|
  {
    if s != "" && IsSpace(s[|s| - 1]) then DropTrailingSpaces(s[..|s| - 1]) else s
  }

  function TrimSpace(s: string): string {
    DropTrailingSpaces(DropSpaces(s))
  }

  // Length of the leading run of bytes that are not white space.
  function WordLength(s: string): (n: nat)
    ensures n <= |s|
    ensures forall i | 0 <= i < n :: !IsSpace(s[i])
    ensures n < |s| ==> IsSpace(s[n])
  {
    if s != "" && !IsSpace(s[0]) then 1 + WordLength(s[1..]) else 0
  }

  // The maximal runs of bytes that are not white space.
  function Fields(s: string): (r: seq<string>)
    ensures forall w | w in r :: IsWord(w)
    decreases |s|
  {
    var t := DropSpaces(s);
    if t == "" then []
    else
      var n := WordLength(t);
      [t[..n]] + Fields(t[n..])
  }

  predicate Blank(s: string) {
    forall i | 0 <= i < |s| :: s[i] as int in {9, 10, 11, 12, 13, 32}
  }

  // White space of any length and kind separates words and belongs to none.
  lemma FieldsStep(gap: string, w: string, rest: string)
    requires Blank(gap) && IsWord(w) && (rest == "" || Blank(rest[..1]))
    ensures Fields(gap + w + rest) == [w] + Fields(rest)
    ensures Fields(gap) == []
  {
    DropGap(gap, w + rest);
    DropGap(gap, "");
    assert gap + "" == gap && gap + (w + rest) == gap + w + rest;
    assert rest != "" ==> rest[..1][0] == rest[0];
    WordLengthAppend(w, rest);
    assert (w + rest)[..|w|] == w && (w + rest)[|w|..] == rest;
  }

  lemma {:induction false} DropGap(gap: string, s: string)
    requires Blank(gap) && (s == "" || !IsSpace(s[0]))
    ensures DropSpaces(gap + s) == s
  {
    if gap == "" {
      assert gap + s == s;
    } else {
      assert IsSpace(gap[0]);
      assert (gap + s)[1..] == gap[1..] + s;
      DropGap(gap[1..], s);
    }
  }

  // White space around a text is cut off and nothing else.
  lemma TrimSpaceExact(before: string, s: string, after: string)
    requires Blank(before) && Blank(after)
    requires s != "" ==> !IsSpace(s[0]) && !IsSpace(s[|s| - 1])
    ensures TrimSpace(before + s + after) == s
  {
    if s == "" {
      assert before + s + after == (before + after) + "";
      DropGap(before + after, "");
    } else {
      assert before + s + after == before + (s + after);
      DropGap(before, s + after);
      DropGapAfter(s, after);
    }
  }

  lemma {:induction false} DropGapAfter(s: string, gap: string)
    requires Blank(gap) && (s == "" || !IsSpace(s[|s| - 1]))
    ensures DropTrailingSpaces(s + gap) == s
    decreases |gap|
  {
    if gap == "" {
      assert s + gap == s;
    } else {
      assert IsSpace(gap[|gap| - 1]);
      assert (s + gap)[..|s + gap| - 1] == s + gap[..|gap| - 1];
      DropGapAfter(s, gap[..|gap| - 1]);
    }
  }

  predicate IsWord(w: string) {
    w != "" && forall i | 0 <= i < |w| :: !IsSpace(w[i])
  }

  lemma {:induction false} WordLengthAppend(w: string, rest: string)
    requires forall i | 0 <= i < |w| :: !IsSpace(w[i])
    requires rest == "" || IsSpace(rest[0])
    ensures WordLength(w + rest) == |w|
  {
    var n := WordLength(w + rest);
    assert forall k | 0 <= k < |w| :: (w + rest)[k] == w[k];
    assert rest != "" ==> (w + rest)[|w|] == rest[0];
  }

  // Words joined with single spaces come back as the same words.
  lemma {:induction false} FieldsJoin(words: seq<string>)
    requires forall w | w in words :: IsWord(w)
    ensures Fields(Join(words, " ")) == words
  {
    if words == [] {
    } else {
      var w := words[0];
      var s := Join(words, " ");
      var rest := if |words| == 1 then "" else " " + Join(words[1..], " ");
      assert s == w + rest;
      assert IsWord(w);
      assert DropSpaces(s) == s;
      WordLengthAppend(w, rest);
      assert s[..|w|] == w && s[|w|..] == rest;
      assert Fields(s) == [w] + Fields(rest);
      FieldsJoin(words[1..]);
      if |words| > 1 {
        assert DropSpaces(rest) == DropSpaces(rest[1..]);
        assert rest[1..] == Join(words[1..], " ");
        FieldsSkipSpace(Join(words[1..], " "));
      } else {
        assert words[1..] == [];
      }
      assert words == [w] + words[1..];
    }
  }

  lemma FieldsSkipSpace(s: string)
    ensures Fields(" " + s) == Fields(s)
  {
    assert (" " + s)[1..] == s;
  }

  function Upper(c: char): char {
    if 'a' <= c <= 'z' then (c as int - 32) as char else c
  }

  function ToUpper(s: string): (r: string)
    ensures |r| == |s|
    ensures forall i | 0 <= i < |s| ::
              if 'a' <= s[i] <= 'z' then r[i] as int - 'A' as int == s[i] as int - 'a' as int else r[i] == s[i]
  {
    seq(|s|, i requires 0 <= i < |s| => Upper(s[i]))
  }
}
