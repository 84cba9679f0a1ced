/**
 Member modes (internal/connector/irc/connector.go, internal/connector/irc/state.go):
 a MODE line is decided against a copy taken before it, while its writes go to
 the live members.
 */
module Modes {
  import opened Channels

  // The displayed prefix of a member-mode letter; empty for other letters.
  function PrefixFor(c: char): string {
    match c
    case 'q' => "~"
    case 'a' => "&"
    case 'o' => "@"
    case 'h' => "%"
    case 'v' => "+"
    case _ => ""
  }

  // Lower ranks higher; an unknown prefix reads as rank 0.
  function Rank(prefix: string): nat {
    if prefix == "&" then 1
    else if prefix == "@" then 2
    else if prefix == "%" then 3
    else if prefix == "+" then 4
    else if prefix == "" then 5
    else 0
  }

  predicate TakesArg(c: char, adding: bool) {
    c in "qaohvbeIkfj" || (adding && c == 'l')
  }

  datatype Change = Change(adding: bool, prefix: string, nick: string)

  // The member changes of a mode string: every letter that takes an argument
  // consumes the next one, whether or not it is a member mode.
  function Changes(modes: string, args: seq<string>, adding: bool): seq<Change>
    decreases |modes|
  {
    if modes == "" then []
    else if modes[0] == '+' then Changes(modes[1..], args, true)
    else if modes[0] == '-' then Changes(modes[1..], args, false)
    else if TakesArg(modes[0], adding) && args != [] then
      (if PrefixFor(modes[0]) != "" && args[0] != "" then [Change(adding, PrefixFor(modes[0]), args[0])] else [])
      + Changes(modes[1..], args[1..], adding)
    else Changes(modes[1..], args, adding)
  }

  // Granting shows the new prefix only if it outranks the shown one; removing
  // the shown prefix shows none.
  function Decide(current: string, c: Change): string {
    if c.adding then (if Rank(c.prefix) < Rank(current) then c.prefix else current)
    else if current == c.prefix then "" else current
  }

  function Writes(current: string, c: Change): bool {
    if c.adding then Rank(c.prefix) < Rank(current) else current == c.prefix
  }

  // One change decided on `seen` and written to `live`.
  function Apply(seen: map<string, string>, live: map<string, string>, c: Change): map<string, string> {
    if c.nick in seen && Writes(seen[c.nick], c) && c.nick in live
    then live[c.nick := Decide(seen[c.nick], c)]
    else live
  }

  // A change that alters nothing on the copy is not written at all.
  lemma OnlyChangesAreWritten(seen: map<string, string>, live: map<string, string>, c: Change)
    requires c.prefix != "" && (c.nick in seen ==> Decide(seen[c.nick], c) == seen[c.nick])
    ensures Apply(seen, live, c) == live
  {
  }

  // All changes decided on the one copy taken before the line.
  function OnCopy(seen: map<string, string>, live: map<string, string>, changes: seq<Change>): map<string, string>
    decreases |changes|
  {
    if changes == [] then live else OnCopy(seen, Apply(seen, live, changes[0]), changes[1..])
  }

  // Each change decided on the members the previous ones left.
  function OneByOne(members: map<string, string>, changes: seq<Change>): map<string, string>
    decreases |changes|
  {
    if changes == [] then members else OneByOne(Apply(members, members, changes[0]), changes[1..])
  }

  // ----- the code -----

  method ApplyPrefixModes(state: ChannelState, channel: string, modes: string, args: seq<string>)
    requires state.Valid()
    modifies state`channels
    ensures state.Valid() && state.channels.Keys == old(state.channels.Keys)
    ensures forall k | k in state.channels && k != ToLower(channel) :: state.channels[k] == old(state.channels)[k]
    ensures ToLower(channel) in state.channels ==>
              var info := old(state.channels)[ToLower(channel)];
              state.channels[ToLower(channel)] ==
              info.(members := OnCopy(info.members, info.members, Changes(modes, args, true)))
  {
    hide ToLower, OnCopy, Changes, Rank, TakesArg, PrefixFor;
    if ToLower(channel) !in state.channels {
      return;
    }
    var info := state.channels[ToLower(channel)];
    var argIdx, adding, i := 0, true, 0;
    ghost var target := OnCopy(info.members, info.members, Changes(modes, args, true));
    while i < |modes|
      invariant 0 <= i <= |modes| && 0 <= argIdx <= |args|
      invariant state.Valid() && state.channels.Keys == old(state.channels.Keys)
      invariant forall k | k in state.channels && k != ToLower(channel) :: state.channels[k] == old(state.channels)[k]
      invariant state.channels[ToLower(channel)] == info.(members := state.channels[ToLower(channel)].members)
      invariant OnCopy(info.members, state.channels[ToLower(channel)].members, Changes(modes[i..], args[argIdx..], adding)) == target
    {
      var c := modes[i];
      var live := state.channels[ToLower(channel)].members;
      ChangesStep(modes, args, i, argIdx, adding);
      i := i + 1;
      if c == '+' {
        adding := true;
        continue;
      }
      if c == '-' {
        adding := false;
        continue;
      }
      var arg := "";
      if TakesArg(c, adding) && argIdx < |args| {
        arg := args[argIdx];
        argIdx := argIdx + 1;
      }
      var prefix := PrefixFor(c);
      if prefix == "" || arg == "" {
        continue;
      }
      ghost var change := Change(adding, prefix, arg);
      ghost var rest := Changes(modes[i..], args[argIdx..], adding);
      OnCopyStep(info.members, live, change, rest);
      if arg !in info.members {
        continue;
      }
      var current := info.members[arg];
      if adding {
        if Rank(prefix) < Rank(current) {
          state.SetMemberPrefix(channel, arg, prefix);
        }
      } else if current == prefix {
        state.SetMemberPrefix(channel, arg, "");
      }
    }
    assert modes[|modes|..] == "";
    ChangesNone(args[argIdx..], adding);
    OnCopyNone(info.members, state.channels[ToLower(channel)].members);
  }

  lemma ChangesStep(modes: string, args: seq<string>, i: nat, a: nat, adding: bool)
    requires i < |modes| && a <= |args|
    ensures var c := modes[i];
            var rest := modes[i + 1..];
            Changes(modes[i..], args[a..], adding) ==
            if c == '+' then Changes(rest, args[a..], true)
            else if c == '-' then Changes(rest, args[a..], false)
            else if TakesArg(c, adding) && a < |args| then
              if PrefixFor(c) != "" && args[a] != "" then [Change(adding, PrefixFor(c), args[a])] + Changes(rest, args[a + 1..], adding)
              else Changes(rest, args[a + 1..], adding)
            else Changes(rest, args[a..], adding)
  {
    assert modes[i..][0] == modes[i] && modes[i..][1..] == modes[i + 1..];
    if a < |args| {
      assert args[a..][0] == args[a] && args[a..][1..] == args[a + 1..];
    }
  }

  lemma OnCopyStep(seen: map<string, string>, live: map<string, string>, c: Change, rest: seq<Change>)
    ensures OnCopy(seen, live, [c] + rest) == OnCopy(seen, Apply(seen, live, c), rest)
  {
    assert ([c] + rest)[1..] == rest;
  }

  lemma ChangesNone(args: seq<string>, adding: bool)
    ensures Changes("", args, adding) == []
  {
  }

  lemma OnCopyNone(seen: map<string, string>, live: map<string, string>)
    ensures OnCopy(seen, live, []) == live
  {
  }

  // ----- what a line means -----

  // Member-mode letters and the prefixes they show, highest first.
  const LETTERS := "qaohv"
  const SHOWN := "~&@%+"

  // The letters that come with an argument in both directions, and the one that
  // does so only when it is set.
  function ArgumentsBefore(letters: string, adding: bool): nat {
    if letters == "" then 0
    else
      var c := letters[|letters| - 1];
      ArgumentsBefore(letters[..|letters| - 1], adding) +
      if c in "qaohv" || c in "beI" || c in "kfj" || (c == 'l' && adding) then 1 else 0
  }

  // Granting a member mode shows the higher of the two prefixes; removing it
  // clears the prefix if it is the one shown. No other letter touches a member.
  lemma ModeMeans(i: nat, current: string, nick: string)
    requires i < 5 && nick != ""
    ensures var prefix := [SHOWN[i]];
            && OneByOne(map[nick := current], Changes("+" + [LETTERS[i]], [nick], true)) ==
               map[nick := if current == "" || exists j: nat :: i <= j < 5 && current == [SHOWN[j]] then prefix else current]
            && OneByOne(map[nick := current], Changes("-" + [LETTERS[i]], [nick], true)) ==
               map[nick := if current == prefix then "" else current]
    ensures forall c :: PrefixFor(c) != "" <==> c in LETTERS
  {
    var c := LETTERS[i];
    SignedLetter(c, nick);
    RankMeans(i, current);
    assert PrefixFor(c) == [SHOWN[i]];
    hide Changes, OneByOne, Rank, PrefixFor;
    ApplyOne(map[nick := current], Change(true, PrefixFor(c), nick));
    ApplyOne(map[nick := current], Change(false, PrefixFor(c), nick));
  }

  lemma ApplyOne(members: map<string, string>, c: Change)
    ensures OneByOne(members, [c]) == Apply(members, members, c)
  {
    assert [c] == [c] + [];
    OneByOneStep(members, c, []);
  }

  lemma SignedLetter(c: char, nick: string)
    requires c in LETTERS && nick != ""
    ensures Changes("+" + [c], [nick], true) == [Change(true, PrefixFor(c), nick)]
    ensures Changes("-" + [c], [nick], true) == [Change(false, PrefixFor(c), nick)]
  {
    assert PrefixFor(c) != "" && TakesArg(c, true) && TakesArg(c, false);
    hide PrefixFor, TakesArg;
    SignSwitches("", [c], [nick], true);
    assert "" + "+" + [c] == "+" + [c] && "" + "-" + [c] == "-" + [c] && [c] + "" == [c];
    LetterFirst(c, "", [nick], true);
    LetterFirst(c, "", [nick], false);
    ChangesNone([nick], true);
    ChangesNone([], true);
    ChangesNone([], false);
    hide Changes;
  }

  // A plus starts granting, a minus removing.
  lemma SignSwitches(a: string, b: string, args: seq<string>, adding: bool)
    requires '+' !in a && '-' !in a
    ensures var left := From(args, ArgumentsBefore(a, adding));
            && Changes(a + "+" + b, args, adding) == Changes(a, args, adding) + Changes(b, left, true)
            && Changes(a + "-" + b, args, adding) == Changes(a, args, adding) + Changes(b, left, false)
  {
    assert a + "+" + b == a + ("+" + b) && a + "-" + b == a + ("-" + b);
    ChangesConcat(a, "+" + b, args, adding);
    ChangesConcat(a, "-" + b, args, adding);
    assert ("+" + b)[1..] == b && ("-" + b)[1..] == b;
  }

  lemma RankMeans(i: nat, current: string)
    requires i < 5
    ensures Rank([SHOWN[i]]) < Rank(current) <==> current == "" || exists j: nat :: i < j < 5 && current == [SHOWN[j]]
  {
    assert [SHOWN[0]] == "~" && [SHOWN[1]] == "&" && [SHOWN[2]] == "@" && [SHOWN[3]] == "%" && [SHOWN[4]] == "+";
  }

  // The arguments of a line go to its letters from left to right.
  lemma LetterTakes(letters: string, c: char, args: seq<string>, adding: bool)
    requires '+' !in letters && '-' !in letters && c != '+' && c != '-'
    ensures var k := ArgumentsBefore(letters, adding);
            Changes(letters + [c], args, adding) ==
            Changes(letters, args, adding) +
            if c in LETTERS && k < |args| && args[k] != "" then [Change(adding, PrefixFor(c), args[k])] else []
  {
    ChangesConcat(letters, [c], args, adding);
    var left := From(args, ArgumentsBefore(letters, adding));
    assert [c][1..] == "" && Changes("", left, adding) == [];
    assert left != [] ==> Changes("", left[1..], adding) == [];
  }

  function From(args: seq<string>, k: nat): seq<string> {
    if k < |args| then args[k..] else []
  }

  lemma {:induction false} ChangesConcat(a: string, b: string, args: seq<string>, adding: bool)
    requires '+' !in a && '-' !in a
    ensures Changes(a + b, args, adding) == Changes(a, args, adding) + Changes(b, From(args, ArgumentsBefore(a, adding)), adding)
    decreases |a|
  {
    hide Changes, TakesArg, PrefixFor, LETTERS;
    if a == "" {
      assert a + b == b && From(args, 0) == args;
      ChangesNone(args, adding);
    } else {
      var front, x := a[..|a| - 1], a[|a| - 1];
      var k := ArgumentsBefore(front, adding);
      var left := From(args, k);
      ArgumentsStep(a, adding);
      hide ArgumentsBefore;
      assert a + b == front + ([x] + b) && a == front + [x];
      assert x in a;
      ChangesConcat(front, [x] + b, args, adding);
      ChangesConcat(front, [x], args, adding);
      LetterFirst(x, b, left, adding);
      LetterFirst(x, "", left, adding);
      assert [x] + "" == [x];
      var taken: nat := if TakesArg(x, adding) then 1 else 0;
      ChangesNone(From(left, taken), adding);
      FromTwice(args, k, taken);
      hide From, OwnChange;
      Regroup(Changes(front, args, adding), OwnChange(x, left, adding), Changes(b, From(left, taken), adding));
    }
  }

  lemma Regroup(a: seq<Change>, b: seq<Change>, c: seq<Change>)
    ensures a + (b + c) == (a + (b + [])) + c
  {
  }

  // The member change of one letter, if it is one and its argument names a nick.
  function OwnChange(x: char, args: seq<string>, adding: bool): seq<Change> {
    if TakesArg(x, adding) && args != [] && PrefixFor(x) != "" && args[0] != "" then [Change(adding, PrefixFor(x), args[0])] else []
  }

  lemma ArgumentsStep(a: string, adding: bool)
    requires a != ""
    ensures ArgumentsBefore(a, adding) == ArgumentsBefore(a[..|a| - 1], adding) + if TakesArg(a[|a| - 1], adding) then 1 else 0
  {
  }

  lemma FromTwice(args: seq<string>, i: nat, j: nat)
    ensures From(From(args, i), j) == From(args, i + j)
  {
  }

  lemma LetterFirst(x: char, b: string, args: seq<string>, adding: bool)
    requires x != '+' && x != '-'
    ensures Changes([x] + b, args, adding) ==
            OwnChange(x, args, adding) + Changes(b, From(args, if TakesArg(x, adding) then 1 else 0), adding)
  {
    hide TakesArg, PrefixFor;
    assert ([x] + b)[0] == x && ([x] + b)[1..] == b;
    assert args != [] ==> From(args, 1) == args[1..];
    assert From(args, 0) == args;
  }

  // ----- when the copy makes no difference -----

  ghost predicate DistinctNicks(changes: seq<Change>) {
    forall i, j | 0 <= i < j < |changes| :: changes[i].nick != changes[j].nick
  }

  ghost predicate AgreeOn(a: map<string, string>, b: map<string, string>, changes: seq<Change>) {
    forall i | 0 <= i < |changes| ::
      var n := changes[i].nick;
      (n in a <==> n in b) && (n in a ==> a[n] == b[n])
  }

  lemma {:induction false} DistinctAgree(seen: map<string, string>, live: map<string, string>, changes: seq<Change>)
    requires DistinctNicks(changes) && AgreeOn(seen, live, changes)
    ensures OnCopy(seen, live, changes) == OneByOne(live, changes)
    decreases |changes|
  {
    if changes != [] {
      var c, rest := changes[0], changes[1..];
      assert c.nick == changes[0].nick;
      assert Apply(seen, live, c) == Apply(live, live, c);
      forall i | 0 <= i < |rest|
        ensures rest[i].nick != c.nick && rest[i] == changes[i + 1]
      {
      }
      var next := Apply(live, live, c);
      assert AgreeOn(seen, next, rest);
      hide Apply;
      DistinctAgree(seen, next, rest);
    }
  }

  ghost predicate DistinctArgs(args: seq<string>) {
    forall i, j | 0 <= i < j < |args| && args[i] != "" :: args[i] != args[j]
  }

  // The nicks of a line's changes occur among its arguments, in order.
  lemma {:induction false} ChangeNicks(modes: string, args: seq<string>, adding: bool)
    requires DistinctArgs(args)
    ensures DistinctNicks(Changes(modes, args, adding))
    ensures forall c | c in Changes(modes, args, adding) :: c.nick != "" && c.nick in args
    decreases |modes|
  {
    if modes != "" {
      var rest := modes[1..];
      if modes[0] == '+' {
        ChangeNicks(rest, args, true);
      } else if modes[0] == '-' {
        ChangeNicks(rest, args, false);
      } else if TakesArg(modes[0], adding) && args != [] {
        assert args == [args[0]] + args[1..];
        ChangeNicks(rest, args[1..], adding);
        var tail := Changes(rest, args[1..], adding);
        hide Changes;
        forall i | 0 <= i < |tail|
          ensures tail[i].nick != args[0]
        {
          assert tail[i] in tail;
        }
      } else {
        ChangeNicks(rest, args, adding);
      }
    }
  }

  function Repeat(c: char, n: nat): string {
    if n == 0 then "" else [c] + Repeat(c, n - 1)
  }

  // Ban letters step over arguments without touching a member.
  lemma {:induction false} SkipArgs(n: nat, rest: string, args: seq<string>)
    requires n <= |args|
    ensures Changes(Repeat('b', n) + rest, args, true) == Changes(rest, args[n..], true)
    decreases n
  {
    assert TakesArg('b', true) && PrefixFor('b') == "";
    hide TakesArg, PrefixFor;
    if n == 0 {
      assert "" + rest == rest && args[0..] == args;
    } else {
      var modes := Repeat('b', n) + rest;
      assert modes[0] == 'b' && modes[1..] == Repeat('b', n - 1) + rest;
      SkipArgs(n - 1, rest, args[1..]);
      assert args[1..][n - 1..] == args[n..];
    }
  }

  // The line that ops and then voices a nick named by two arguments.
  function OpThenVoice(i: nat, j: nat): string
    requires i < j
  {
    Repeat('b', i) + ("o" + (Repeat('b', j - i - 1) + "v"))
  }

  lemma OpThenVoiceChanges(args: seq<string>, i: nat, j: nat)
    requires i < j < |args| && args[i] == args[j] != ""
    ensures Changes(OpThenVoice(i, j), args, true) == [Change(true, "@", args[i]), Change(true, "+", args[i])]
  {
    hide Changes, Repeat;
    var middle := Repeat('b', j - i - 1) + "v";
    SkipArgs(i, "o" + middle, args);
    MemberLetter('o', middle, args[i..]);
    assert args[i..][1..] == args[i + 1..];
    SkipArgs(j - i - 1, "v", args[i + 1..]);
    assert args[i + 1..][j - i - 1..] == args[j..];
    assert "v" + "" == "v";
    MemberLetter('v', "", args[j..]);
    ChangesNone(args[j..][1..], true);
  }

  lemma MemberLetter(c: char, rest: string, args: seq<string>)
    requires c in "ov" && args != [] && args[0] != ""
    ensures Changes([c] + rest, args, true) == [Change(true, PrefixFor(c), args[0])] + Changes(rest, args[1..], true)
  {
    assert ([c] + rest)[0] == c && ([c] + rest)[1..] == rest;
  }

  // On this line and these members the copy makes no difference.
  ghost predicate SameResult(args: seq<string>, modes: string, members: map<string, string>) {
    OnCopy(members, members, Changes(modes, args, true)) == OneByOne(members, Changes(modes, args, true))
  }

  lemma OpThenVoiceDiffers(args: seq<string>, i: nat, j: nat)
    requires i < j < |args| && args[i] == args[j] != ""
    ensures !SameResult(args, OpThenVoice(i, j), map[args[i] := ""])
  {
    OpThenVoiceChanges(args, i, j);
    OpVoice(args[i]);
    hide OnCopy, OneByOne, Changes, OpThenVoice;
  }

  lemma OpVoice(nick: string)
    ensures var members := map[nick := ""];
            var changes := [Change(true, "@", nick), Change(true, "+", nick)];
            OnCopy(members, members, changes) != OneByOne(members, changes)
  {
    var members, opped := map[nick := ""], map[nick := "@"];
    var op, voice := Change(true, "@", nick), Change(true, "+", nick);
    assert Apply(members, members, op) == opped;
    assert Apply(members, opped, voice) == map[nick := "+"];
    assert Apply(opped, opped, voice) == opped;
    assert [op, voice] == [op] + [voice] && [voice] == [voice] + [];
    hide Apply;
    OnCopyStep(members, members, op, [voice]);
    OnCopyStep(members, opped, voice, []);
    OneByOneStep(members, op, [voice]);
    OneByOneStep(opped, voice, []);
    OnCopyNone(members, map[nick := "+"]);
    assert OneByOne(opped, []) == opped;
    hide OnCopy, OneByOne;
    assert opped[nick] != map[nick := "+"][nick];
  }

  lemma OneByOneStep(members: map<string, string>, c: Change, rest: seq<Change>)
    ensures OneByOne(members, [c] + rest) == OneByOne(Apply(members, members, c), rest)
  {
    assert ([c] + rest)[1..] == rest;
  }

  lemma DistinctSame(args: seq<string>, modes: string, members: map<string, string>)
    requires DistinctArgs(args)
    ensures SameResult(args, modes, members)
  {
    hide OnCopy, OneByOne, Changes, DistinctArgs, DistinctNicks;
    ChangeNicks(modes, args, true);
    DistinctAgree(members, members, Changes(modes, args, true));
  }

  // For every mode string and every member list the copy gives the result of
  // applying the changes one by one exactly when no argument repeats.
  lemma CopyIsHarmless(args: seq<string>)
    ensures (forall modes, members :: SameResult(args, modes, members)) <==> DistinctArgs(args)
  {
    hide SameResult;
    if DistinctArgs(args) {
      forall modes, members
        ensures SameResult(args, modes, members)
      {
        DistinctSame(args, modes, members);
      }
    } else {
      var i, j :| 0 <= i < j < |args| && args[i] != "" && args[i] == args[j];
      OpThenVoiceDiffers(args, i, j);
    }
  }
}
