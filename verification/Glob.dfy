/**
 Owner hostmask patterns (internal/runtime/runtime.go): the greedy
 left-to-right matcher against the language of the pattern.
 */
module Glob {
  import opened Text

  // A '*' stands for any string, every other byte for itself.
  ghost predicate InLanguage(pattern: string, s: string)
    decreases |pattern|
  {
    if pattern == "" then s == ""
    else if pattern[0] == '*' then exists k: nat :: k <= |s| && InLanguage(pattern[1..], s[k..])
    else s != "" && s[0] == pattern[0] && InLanguage(pattern[1..], s[1..])
  }

  // One leading colon of the prefix is not part of the subject.
  method HostmaskMatches(prefix: string, pattern: string) returns (ok: bool)
    ensures prefix == "" || prefix[0] != ':' ==> (ok <==> pattern != "" && InLanguage(pattern, prefix))
    ensures prefix != "" && prefix[0] == ':' ==> (ok <==> pattern != "" && InLanguage(pattern, prefix[1..]))
  {
    if pattern == "" {
      return false;
    }
    var parts := Split(pattern, '*');
    JoinSplit(pattern, '*');
    var subject := if HasPrefix(prefix, ":") then prefix[1..] else prefix;
    ok := Greedy(subject, pattern, parts);
    GreedyIsLanguage(parts, subject);
  }

  // The matcher proper, on the pattern cut at its stars.
  method Greedy(subject: string, pattern: string, parts: seq<string>) returns (ok: bool)
    requires parts != [] && pattern == Join(parts, "*")
    ensures ok <==> GreedyMatch(parts, subject)
  {
    if |parts| == 1 {
      return subject == pattern;
    }
    hide Join, Walk;
    if !HasPrefix(subject, parts[0]) {
      return false;
    }
    ok := MiddleAndLast(parts, subject[|parts[0]|..]);
  }

  method MiddleAndLast(parts: seq<string>, subject: string) returns (ok: bool)
    requires |parts| > 1
    ensures ok <==> Walk(parts, 1, subject)
  {
    hide Walk, Index, HasSuffix;
    var s := subject;
    var i := 1;
    while i < |parts| - 1
      invariant 1 <= i <= |parts| - 1
      invariant Walk(parts, 1, subject) == Walk(parts, i, s)
    {
      WalkStep(parts, i, s);
      var idx := Index(s, parts[i]);
      if idx < 0 {
        return false;
      }
      s := s[idx + |parts[i]|..];
      i := i + 1;
    }
    WalkStep(parts, i, s);
    return HasSuffix(s, parts[|parts| - 1]);
  }

  lemma WalkStep(parts: seq<string>, i: nat, s: string)
    requires 0 < i < |parts|
    ensures Walk(parts, i, s) <==>
            if i == |parts| - 1 then HasSuffix(s, parts[i])
            else Index(s, parts[i]) >= 0 && Walk(parts, i + 1, s[Index(s, parts[i]) + |parts[i]|..])
  {
    hide Index, HasSuffix;
  }

  predicate GreedyMatch(parts: seq<string>, s: string)
    requires parts != []
  {
    if |parts| == 1 then s == parts[0]
    else HasPrefix(s, parts[0]) && Walk(parts, 1, s[|parts[0]|..])
  }

  // Each middle fragment takes its leftmost occurrence, the last one the end.
  predicate Walk(parts: seq<string>, i: nat, s: string)
    requires 0 < i < |parts|
    decreases |parts| - i
  {
    if i == |parts| - 1 then HasSuffix(s, parts[i])
    else
      var idx := Index(s, parts[i]);
      idx >= 0 && Walk(parts, i + 1, s[idx + |parts[i]|..])
  }

  lemma GreedyIsLanguage(parts: seq<string>, s: string)
    requires parts != [] && forall p | p in parts :: '*' !in p
    ensures GreedyMatch(parts, s) <==> InLanguage(Join(parts, "*"), s)
  {
    if |parts| == 1 {
      LiteralPrefix(parts[0], "", s);
      assert parts[0] + "" == parts[0];
    } else {
      WholePattern(parts, s);
      if HasPrefix(s, parts[0]) {
        WalkIsLanguage(parts, 1, s[|parts[0]|..]);
      }
    }
  }

  lemma {:induction false} WalkIsLanguage(parts: seq<string>, i: nat, s: string)
    requires 0 < i < |parts| && forall p | p in parts :: '*' !in p
    ensures Walk(parts, i, s) <==> InLanguage(Tail(parts, i), s)
    decreases |parts| - i
  {
    hide InLanguage;
    if i == |parts| - 1 {
      assert parts[i..] == [parts[i]];
      LastFragment(parts[i], s);
    } else {
      MiddleFragment(parts, i, s);
      var idx := Index(s, parts[i]);
      if idx >= 0 {
        WalkIsLanguage(parts, i + 1, s[idx + |parts[i]|..]);
      }
    }
  }

  // What is left of the pattern from the star before fragment i on.
  function Tail(parts: seq<string>, i: nat): (r: string)
    requires 0 < i < |parts|
    ensures r != "" && r[0] == '*'
  {
    "*" + Join(parts[i..], "*")
  }

  lemma WholePattern(parts: seq<string>, s: string)
    requires |parts| > 1 && '*' !in parts[0]
    ensures InLanguage(Join(parts, "*"), s) <==>
            parts[0] <= s && InLanguage(Tail(parts, 1), s[|parts[0]|..])
  {
    assert Join(parts, "*") == parts[0] + Tail(parts, 1);
    LiteralPrefix(parts[0], Tail(parts, 1), s);
  }

  lemma MiddleFragment(parts: seq<string>, i: nat, s: string)
    requires 0 < i < |parts| - 1 && '*' !in parts[i]
    ensures Index(s, parts[i]) < 0 ==> !InLanguage(Tail(parts, i), s)
    ensures Index(s, parts[i]) >= 0 ==>
              (InLanguage(Tail(parts, i), s) <==>
               InLanguage(Tail(parts, i + 1), s[Index(s, parts[i]) + |parts[i]|..]))
  {
    assert parts[i..][1..] == parts[i + 1..];
    assert Tail(parts, i) == "*" + (parts[i] + Tail(parts, i + 1));
    GreedyStep(parts[i], Tail(parts, i + 1), s);
  }

  // A leading literal has to be a prefix of the subject.
  lemma {:induction false} LiteralPrefix(lit: string, p: string, s: string)
    requires '*' !in lit
    ensures InLanguage(lit + p, s) <==> lit <= s && InLanguage(p, s[|lit|..])
  {
    if lit == "" {
      assert lit + p == p;
      assert s[0..] == s;
    } else {
      assert (lit + p)[1..] == lit[1..] + p;
      if s != "" && s[0] == lit[0] {
        LiteralPrefix(lit[1..], p, s[1..]);
        assert lit <= s <==> lit[1..] <= s[1..];
        if lit <= s {
          assert s[1..][|lit| - 1..] == s[|lit|..];
        }
      }
    }
  }

  // A star that matches the tail of a subject from j on matches it from i <= j on.
  lemma StarAbsorbs(p: string, s: string, i: nat, j: nat)
    requires p != "" && p[0] == '*'
    requires i <= j <= |s|
    requires InLanguage(p, s[j..])
    ensures InLanguage(p, s[i..])
  {
    var k: nat :| k <= |s[j..]| && InLanguage(p[1..], s[j..][k..]);
    assert s[j..][k..] == s[i..][(j - i) + k..];
  }

  // A star followed by a fragment needs an occurrence of the fragment.
  lemma StarFragment(part: string, rest: string, s: string) returns (k: nat)
    requires '*' !in part && InLanguage("*" + (part + rest), s)
    ensures OccursAt(s, part, k) && k + |part| <= |s| && InLanguage(rest, s[k + |part|..])
  {
    assert ("*" + (part + rest))[1..] == part + rest;
    k :| k <= |s| && InLanguage(part + rest, s[k..]);
    hide InLanguage;
    LiteralPrefix(part, rest, s[k..]);
    assert s[k..][|part|..] == s[k + |part|..];
  }

  // Any occurrence with a matching tail is a match.
  lemma FragmentFound(part: string, rest: string, s: string, k: nat)
    requires '*' !in part && OccursAt(s, part, k) && k + |part| <= |s| && InLanguage(rest, s[k + |part|..])
    ensures InLanguage("*" + (part + rest), s)
  {
    assert ("*" + (part + rest))[1..] == part + rest;
    assert s[k..][|part|..] == s[k + |part|..];
    LiteralPrefix(part, rest, s[k..]);
    assert InLanguage(part + rest, s[k..]);
  }

  // The leftmost occurrence of a middle fragment is always a right choice.
  lemma GreedyStep(part: string, rest: string, s: string)
    requires '*' !in part
    requires rest != "" && rest[0] == '*'
    ensures Index(s, part) < 0 ==> !InLanguage("*" + (part + rest), s)
    ensures Index(s, part) >= 0 ==>
              (InLanguage("*" + (part + rest), s) <==> InLanguage(rest, s[Index(s, part) + |part|..]))
  {
    hide InLanguage;
    var idx := Index(s, part);
    if InLanguage("*" + (part + rest), s) {
      var k := StarFragment(part, rest, s);
      StarAbsorbs(rest, s, idx + |part|, k + |part|);
    }
    if idx >= 0 && InLanguage(rest, s[idx + |part|..]) {
      FragmentFound(part, rest, s, idx);
    }
  }

  // The last fragment only has to end the subject.
  lemma LastFragment(part: string, s: string)
    requires '*' !in part
    ensures InLanguage("*" + part, s) <==> HasSuffix(s, part)
  {
    var p := "*" + part;
    assert p[1..] == part && part + "" == part;
    forall k: nat | k <= |s|
      ensures InLanguage(part, s[k..]) <==> s[k..] == part
    {
      LiteralPrefix(part, "", s[k..]);
    }
    if HasSuffix(s, part) {
      assert InLanguage(part, s[|s| - |part|..]);
    }
  }
}
