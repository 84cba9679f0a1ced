/**
 One field of a cron expression (internal/skill/cron.go, parseField), with the
 64-bit wrap-around of the counting loop.
 */
module CronField {
  import opened Text

  const MAX_INT := 0x7fff_ffff_ffff_ffff
  const TWO_64 := 0x1_0000_0000_0000_0000

  datatype Result<+T> = Ok(value: T) | Err(error: FieldError)
  datatype FieldError = BadStep | BadRange | BadValue | OutOfRange | WrongFieldCount

  // ----- numbers -----

  predicate IsDigit(c: char) {
    '0' <= c <= '9'
  }

  predicate AllDigits(s: string) {
    forall i | 0 <= i < |s| :: IsDigit(s[i])
  }

  function Decimal(digits: string): (n: int)
    requires AllDigits(digits)
    ensures n >= 0
  {
    if digits == "" then 0
    else
      assert IsDigit(digits[|digits| - 1]);
      10 * Decimal(digits[..|digits| - 1]) + (digits[|digits| - 1] as int - '0' as int)
  }

  datatype Parsed = Number(n: int) | NotANumber

  // strconv.Atoi: an optional sign, decimal digits, and the int64 range.
  function Atoi(s: string): (r: Parsed)
    ensures r.Number? ==> -MAX_INT - 1 <= r.n <= MAX_INT
  {
    var signed := s != "" && (s[0] == '+' || s[0] == '-');
    var digits := if signed then s[1..] else s;
    if digits == "" || !AllDigits(digits) then NotANumber
    else
      var n := if signed && s[0] == '-' then -Decimal(digits) else Decimal(digits);
      if -MAX_INT - 1 <= n <= MAX_INT then Number(n) else NotANumber
  }

  // ----- one part of the comma list -----

  datatype Span = Span(start: int, end: int, step: int)

  // The values between start and end that the step reaches.
  predicate Denotes(p: Span, v: int)
    requires p.step >= 1
  {
    OnProgression(p.start, p.end, p.step, v)
  }

  predicate InField(p: Span, lo: int, hi: int) {
    lo <= p.start <= p.end <= hi && 1 <= p.step <= MAX_INT
  }

  function PartSpan(part: string, lo: int, hi: int): (r: Result<Span>)
    ensures r.Ok? ==> InField(r.value, lo, hi)
  {
    var slash := IndexByte(part, '/');
    if slash < 0 then RangeSpan(part, 1, lo, hi)
    else
      var step := Atoi(part[slash + 1..]);
      if step.NotANumber? || step.n < 1 then Err(BadStep)
      else RangeSpan(part[..slash], step.n, lo, hi)
  }

  function RangeSpan(rng: string, step: int, lo: int, hi: int): (r: Result<Span>)
    requires 1 <= step <= MAX_INT
    ensures r.Ok? ==> InField(r.value, lo, hi)
  {
    var dash := IndexByte(rng, '-');
    if rng == "*" then Checked(Span(lo, hi, step), lo, hi)
    else if dash >= 0 then
      var a, b := Atoi(rng[..dash]), Atoi(rng[dash + 1..]);
      if a.NotANumber? || b.NotANumber? then Err(BadRange)
      else Checked(Span(a.n, b.n, step), lo, hi)
    else
      var v := Atoi(rng);
      if v.NotANumber? then Err(BadValue) else Checked(Span(v.n, v.n, step), lo, hi)
  }

  function Checked(p: Span, lo: int, hi: int): (r: Result<Span>)
    requires 1 <= p.step <= MAX_INT
    ensures r == if InField(p, lo, hi) then Ok(p) else Err(OutOfRange)
  {
    if p.start < lo || p.end > hi || p.start > p.end then Err(OutOfRange) else Ok(p)
  }

  // ----- the counting loop -----

  // int64 addition of a positive step.
  function AddStep(v: int, step: int): int {
    if v + step > MAX_INT then v + step - TWO_64 else v + step
  }

  predicate Small(end: int, step: int) {
    0 <= end < 1000 && 1 <= step <= MAX_INT
  }

  // The values the loop variable can take: after a wrap it is so negative that
  // one more step brings it close to zero.
  predicate LoopValue(v: int, end: int, step: int) {
    v >= 0 || (2 * step > MAX_INT && v + step >= -end)
  }

  ghost function StepsLeft(v: int, end: int, step: int): nat
    requires Small(end, step) && LoopValue(v, end, step)
  {
    if v > end then 0
    else if 2 * step <= MAX_INT then end - v + 1
    else if v >= 0 then 2 * v + 3
    else if v + step > end then 1
    else if v + step >= 0 then 2 * (v + step) + 4
    else 2
  }

  // What the loop collects from v on.
  function Collected(v: int, end: int, step: int): set<int>
    requires Small(end, step) && LoopValue(v, end, step)
    decreases StepsLeft(v, end, step)
  {
    if v > end then {} else {v} + Collected(AddStep(v, step), end, step)
  }

  predicate OnProgression(v: int, end: int, step: int, u: int)
    requires step >= 1
  {
    v <= u <= end && (u - v) % step == 0
  }

  // Without wrap-around the loop collects the progression it is meant to.
  lemma {:induction false} CollectedPlain(v: int, end: int, step: int)
    requires Small(end, step) && 0 <= v && end + step <= MAX_INT
    ensures forall u :: u in Collected(v, end, step) <==> OnProgression(v, end, step, u)
    decreases StepsLeft(v, end, step)
  {
    if v <= end {
      CollectedPlain(v + step, end, step);
      forall u
        ensures OnProgression(v, end, step, u) <==> u == v || OnProgression(v + step, end, step, u)
      {
        ProgressionStep(v, end, step, u);
      }
    }
  }

  lemma ProgressionStep(v: int, end: int, step: int, u: int)
    requires step >= 1 && v <= end
    ensures OnProgression(v, end, step, u) <==> u == v || OnProgression(v + step, end, step, u)
  {
    ModMinus(u - v, step);
    if v < u && (u - v) % step == 0 {
      StepAway(u - v, step);
    }
  }

  lemma StepAway(d: int, step: int)
    requires d > 0 && step >= 1 && d % step == 0
    ensures d >= step
  {
  }

  lemma ModMinus(d: int, step: int)
    requires step >= 1
    ensures (d - step) % step == d % step
  {
    var q, r := d / step, d % step;
    assert d - step == (q - 1) * step + r;
    ModUnique((q - 1) * step + r, step, q - 1, r);
  }

  lemma ModUnique(d: int, step: int, q: int, r: int)
    requires step >= 1 && d == q * step + r && 0 <= r < step
    ensures d % step == r
  {
    var q', r' := d / step, d % step;
    if q > q' {
      AtLeastOnce(q - q', step);
    } else if q < q' {
      AtLeastOnce(q' - q, step);
    }
  }

  lemma AtLeastOnce(k: int, step: int)
    requires k >= 1 && step >= 1
    ensures k * step >= step
  {
    assert (k - 1) * step >= 0;
  }

  lemma OnlyStart(p: Span, v: int)
    requires 1 <= p.step && p.start <= p.end < p.start + p.step
    ensures Denotes(p, v) <==> v == p.start
  {
    if p.start < v && (v - p.start) % p.step == 0 {
      StepAway(v - p.start, p.step);
    }
  }

  // What a doubly wrapping counter adds: each double wrap comes back this much
  // below where it was.
  predicate Stray(p: Span, v: int)
    requires p.step <= MAX_INT
  {
    var back := TWO_64 - 2 * p.step;
    v + back <= p.start && (p.start - v) % back == 0
  }

  lemma OneTurn(v: int, end: int, step: int)
    requires Small(end, step) && end + step > MAX_INT && 0 <= v <= end
    ensures var back := TWO_64 - 2 * step;
            && 2 <= back
            && (v < back ==> forall u | u >= 0 :: u in Collected(v, end, step) <==> u == v)
            && (v >= back ==> forall u | u >= 0 :: u in Collected(v, end, step) <==> u == v || u in Collected(v - back, end, step))
  {
    var v1 := AddStep(v, step);
    assert Collected(v, end, step) == {v} + Collected(v1, end, step);
    if v + step > MAX_INT {
      var again := AddStep(v1, step);
      assert Collected(v1, end, step) == {v1} + Collected(again, end, step);
      if again < 0 {
        assert Collected(again, end, step) == {again} + Collected(again + step, end, step);
      }
    }
  }

  // From v on, a step that passes the largest int collects exactly the values
  // that the double wrap reaches.
  lemma {:induction false} CollectedLarge(v: int, end: int, step: int)
    requires Small(end, step) && end + step > MAX_INT && 0 <= v <= end
    ensures forall u | u >= 0 :: u in Collected(v, end, step) <==> OnProgression(-v, 0, TWO_64 - 2 * step, -u)
    decreases v
  {
    var back := TWO_64 - 2 * step;
    OneTurn(v, end, step);
    if v >= back {
      CollectedLarge(v - back, end, step);
    }
    hide Collected;
    forall u | u >= 0
      ensures u in Collected(v, end, step) <==> OnProgression(-v, 0, back, -u)
    {
      ProgressionStep(-v, 0, back, -u);
    }
  }

  lemma BackFromStart(p: Span, v: int)
    requires 1 <= p.step <= MAX_INT
    ensures OnProgression(-p.start, 0, TWO_64 - 2 * p.step, -v) <==> v >= 0 && (v == p.start || Stray(p, v))
  {
    var back := TWO_64 - 2 * p.step;
    if v < p.start && (p.start - v) % back == 0 {
      StepAway(p.start - v, back);
    }
  }

  // What a part adds to a field: the values it denotes and its strays.
  lemma StrayExact(p: Span, lo: int, hi: int)
    requires 0 <= lo && hi < 1000 && InField(p, lo, hi)
    ensures forall v | v >= 0 :: v in Collected(p.start, p.end, p.step) <==> Denotes(p, v) || Stray(p, v)
  {
    if p.end + p.step <= MAX_INT {
      CollectedPlain(p.start, p.end, p.step);
      hide Collected, OnProgression;
    } else {
      CollectedLarge(p.start, p.end, p.step);
      hide Collected, OnProgression, Denotes, Stray;
      forall v | v >= 0
        ensures OnProgression(-p.start, 0, TWO_64 - 2 * p.step, -v) <==> Denotes(p, v) || Stray(p, v)
      {
        OnlyStart(p, v);
        BackFromStart(p, v);
      }
    }
  }

  // A span collects exactly what it denotes, as far as the field's own range
  // goes, unless the step is so large that the counter wraps twice and lands
  // back in the field.
  lemma SpanExact(p: Span, lo: int, hi: int)
    requires 0 <= lo && hi < 1000 && InField(p, lo, hi)
    ensures (forall v | lo <= v <= hi :: v in Collected(p.start, p.end, p.step) <==> Denotes(p, v)) <==>
            p.start + 2 * p.step - TWO_64 < lo
  {
    StrayExact(p, lo, hi);
    var again := p.start + 2 * p.step - TWO_64;
    if again >= lo {
      var back := TWO_64 - 2 * p.step;
      assert back % back == 0 && p.start - again == back;
      assert Stray(p, again) && !Denotes(p, again);
    }
  }

  // ----- the whole field -----

  function ParseParts(parts: seq<string>, lo: int, hi: int): (r: Result<set<int>>)
    requires 0 <= lo && hi < 1000
  {
    if parts == [] then Ok({})
    else
      var front := ParseParts(parts[..|parts| - 1], lo, hi);
      if front.Err? then front
      else
        var p := PartSpan(parts[|parts| - 1], lo, hi);
        if p.Err? then Err(p.error)
        else Ok(front.value + Collected(p.value.start, p.value.end, p.value.step))
  }

  // An error in a prefix of the list is the error of the list.
  lemma {:induction false} FirstErrorWins(parts: seq<string>, i: nat, lo: int, hi: int)
    requires 0 <= lo && hi < 1000 && i <= |parts|
    requires ParseParts(parts[..i], lo, hi).Err?
    ensures ParseParts(parts, lo, hi) == ParseParts(parts[..i], lo, hi)
    decreases |parts|
  {
    if i == |parts| {
      assert parts[..i] == parts;
    } else {
      var front := parts[..|parts| - 1];
      assert front[..i] == parts[..i];
      FirstErrorWins(front, i, lo, hi);
    }
  }

  lemma NoParts(parts: seq<string>, lo: int, hi: int)
    requires 0 <= lo && hi < 1000
    ensures ParseParts(parts[..0], lo, hi) == Ok({})
  {
  }

  lemma OneMorePart(parts: seq<string>, i: nat, lo: int, hi: int)
    requires 0 <= lo && hi < 1000 && i < |parts| && ParseParts(parts[..i], lo, hi).Ok?
    ensures var p := PartSpan(parts[i], lo, hi);
            ParseParts(parts[..i + 1], lo, hi) ==
            if p.Err? then Err(p.error)
            else Ok(ParseParts(parts[..i], lo, hi).value + Collected(p.value.start, p.value.end, p.value.step))
  {
    hide PartSpan, Collected;
    assert parts[..i + 1][..i] == parts[..i];
  }

  method ParseField(field: string, lo: int, hi: int) returns (r: Result<set<int>>)
    requires 0 <= lo && hi < 1000
    ensures r == ParseParts(Split(field, ','), lo, hi)
  {
    hide ParseParts, PartSpan, Collected, Split;
    var out: set<int> := {};
    var parts := Split(field, ',');
    var i := 0;
    NoParts(parts, lo, hi);
    while i < |parts|
      invariant 0 <= i <= |parts|
      invariant ParseParts(parts[..i], lo, hi) == Ok(out)
    {
      var p := PartSpan(parts[i], lo, hi);
      OneMorePart(parts, i, lo, hi);
      if p.Err? {
        FirstErrorWins(parts, i + 1, lo, hi);
        return Err(p.error);
      }
      out := AddSpan(out, p.value.start, p.value.end, p.value.step);
      i := i + 1;
    }
    assert parts[..i] == parts;
    // The source's last check, for an empty set, cannot fail: each part adds
    // at least its start.
    return Ok(out);
  }

  method AddSpan(known: set<int>, start: int, end: int, step: int) returns (out: set<int>)
    requires Small(end, step) && start >= 0
    ensures out == known + Collected(start, end, step)
  {
    out := known;
    var v := start;
    while v <= end
      invariant LoopValue(v, end, step)
      invariant known + Collected(start, end, step) == out + Collected(v, end, step)
      decreases StepsLeft(v, end, step)
    {
      out := out + {v};
      v := AddStep(v, step);
    }
  }

  ghost predicate SomePartDenotes(parts: seq<string>, lo: int, hi: int, v: int) {
    exists q | q in parts :: PartSpan(q, lo, hi).Ok? && Denotes(PartSpan(q, lo, hi).value, v)
  }

  lemma SomePartSplit(front: seq<string>, last: string, lo: int, hi: int, v: int)
    requires PartSpan(last, lo, hi).Ok?
    ensures SomePartDenotes(front + [last], lo, hi, v) <==>
            SomePartDenotes(front, lo, hi, v) || Denotes(PartSpan(last, lo, hi).value, v)
  {
    var parts := front + [last];
    if SomePartDenotes(parts, lo, hi, v) {
      var q :| q in parts && PartSpan(q, lo, hi).Ok? && Denotes(PartSpan(q, lo, hi).value, v);
      assert q in front || q == last;
    }
    assert last in parts && forall q | q in front :: q in parts;
  }

  ghost predicate SomePartStrays(parts: seq<string>, lo: int, hi: int, v: int) {
    exists q | q in parts :: PartSpan(q, lo, hi).Ok? && Stray(PartSpan(q, lo, hi).value, v)
  }

  // Whatever the steps, a field permits the values its parts denote and their
  // strays.
  lemma {:induction false} FieldAdds(parts: seq<string>, lo: int, hi: int)
    requires 0 <= lo && hi < 1000 && ParseParts(parts, lo, hi).Ok?
    ensures forall v | lo <= v <= hi ::
              v in ParseParts(parts, lo, hi).value <==> SomePartDenotes(parts, lo, hi, v) || SomePartStrays(parts, lo, hi, v)
  {
    hide ParseParts, PartSpan, Collected, Denotes, Stray;
    if parts == [] {
      NoParts(parts, lo, hi);
    } else {
      hide SomePartDenotes, SomePartStrays;
      var front, last := parts[..|parts| - 1], parts[|parts| - 1];
      assert parts == front + [last] && parts == parts[..|parts|];
      if ParseParts(front, lo, hi).Err? {
        FirstErrorWins(parts, |front|, lo, hi);
      }
      FieldAdds(front, lo, hi);
      OneMorePart(parts, |front|, lo, hi);
      StrayExact(PartSpan(last, lo, hi).value, lo, hi);
      forall v | lo <= v <= hi
        ensures v in ParseParts(parts, lo, hi).value <==> SomePartDenotes(parts, lo, hi, v) || SomePartStrays(parts, lo, hi, v)
      {
        SomePartSplit(front, last, lo, hi, v);
        SomeStraySplit(front, last, lo, hi, v);
      }
    }
  }

  lemma SomeStraySplit(front: seq<string>, last: string, lo: int, hi: int, v: int)
    requires PartSpan(last, lo, hi).Ok?
    ensures SomePartStrays(front + [last], lo, hi, v) <==>
            SomePartStrays(front, lo, hi, v) || Stray(PartSpan(last, lo, hi).value, v)
  {
    var parts := front + [last];
    if SomePartStrays(parts, lo, hi, v) {
      var q :| q in parts && PartSpan(q, lo, hi).Ok? && Stray(PartSpan(q, lo, hi).value, v);
      assert q in front || q == last;
    }
    assert last in parts && forall q | q in front :: q in parts;
  }

  // So a field means the union of its parts exactly when every stray of the
  // field is denoted by some part.
  lemma FieldExact(parts: seq<string>, lo: int, hi: int)
    requires 0 <= lo && hi < 1000 && ParseParts(parts, lo, hi).Ok?
    ensures (forall v | lo <= v <= hi :: v in ParseParts(parts, lo, hi).value <==> SomePartDenotes(parts, lo, hi, v)) <==>
            (forall v | lo <= v <= hi && SomePartStrays(parts, lo, hi, v) :: SomePartDenotes(parts, lo, hi, v))
  {
    FieldAdds(parts, lo, hi);
    hide ParseParts, SomePartDenotes, SomePartStrays;
  }

  // No part of the list wraps twice.
  predicate NoDoubleWrap(parts: seq<string>, lo: int, hi: int) {
    forall q | q in parts ::
      var p := PartSpan(q, lo, hi);
      p.Ok? ==> p.value.start + 2 * p.value.step - TWO_64 < lo
  }

  // The field means the union of its parts when no part wraps twice.
  lemma FieldMeaning(parts: seq<string>, lo: int, hi: int)
    requires 0 <= lo && hi < 1000
    requires ParseParts(parts, lo, hi).Ok? && NoDoubleWrap(parts, lo, hi)
    ensures forall v | lo <= v <= hi :: v in ParseParts(parts, lo, hi).value <==> SomePartDenotes(parts, lo, hi, v)
  {
    FieldAdds(parts, lo, hi);
    hide ParseParts, PartSpan, SomePartDenotes;
  }

  // A field that parses permits some value of its range.
  lemma FieldInhabited(parts: seq<string>, lo: int, hi: int) returns (v: int)
    requires 0 <= lo && hi < 1000 && parts != []
    requires ParseParts(parts, lo, hi).Ok?
    ensures lo <= v <= hi && v in ParseParts(parts, lo, hi).value
  {
    var p := PartSpan(parts[|parts| - 1], lo, hi).value;
    v := p.start;
    assert v in Collected(p.start, p.end, p.step);
  }

  // "*" permits the whole range.
  lemma StarField(lo: int, hi: int)
    requires 0 <= lo <= 1 && lo <= hi < 1000
    ensures ParseParts(["*"], lo, hi).Ok?
    ensures forall v | lo <= v <= hi :: v in ParseParts(["*"], lo, hi).value
  {
    var parts := ["*"];
    assert IndexByte("*", '/') < 0;
    assert PartSpan("*", lo, hi) == Ok(Span(lo, hi, 1));
    assert parts[..0] == [];
    CollectedPlain(lo, hi, 1);
  }

  // ----- literal fields -----

  lemma NoDigits()
    ensures AllDigits("") && Decimal("") == 0
  {
  }

  lemma AppendDigit(d: string, c: char, n: int, e: string)
    requires AllDigits(d) && Decimal(d) == n && IsDigit(c) && e == d + [c]
    ensures AllDigits(e) && Decimal(e) == 10 * n + (c as int - '0' as int)
  {
    assert e[..|e| - 1] == d;
  }

  lemma MaxIntHead()
    ensures AllDigits("9223372") && Decimal("9223372") == 9_223_372
  {
    NoDigits();
    hide Decimal, AllDigits;
    AppendDigit("", '9', 0, "9");
    AppendDigit("9", '2', 9, "92");
    AppendDigit("92", '2', 92, "922");
    AppendDigit("922", '3', 922, "9223");
    AppendDigit("9223", '3', 9_223, "92233");
    AppendDigit("92233", '7', 92_233, "922337");
    AppendDigit("922337", '2', 922_337, "9223372");
  }

  lemma MaxIntMiddle()
    ensures AllDigits("9223372036854") && Decimal("9223372036854") == 9_223_372_036_854
  {
    MaxIntHead();
    hide Decimal, AllDigits;
    AppendDigit("9223372", '0', 9_223_372, "92233720");
    AppendDigit("92233720", '3', 92_233_720, "922337203");
    AppendDigit("922337203", '6', 922_337_203, "9223372036");
    AppendDigit("9223372036", '8', 9_223_372_036, "92233720368");
    AppendDigit("92233720368", '5', 92_233_720_368, "922337203685");
    AppendDigit("922337203685", '4', 922_337_203_685, "9223372036854");
  }

  lemma MaxIntDigits()
    ensures AllDigits("9223372036854775807") && Decimal("9223372036854775807") == 9_223_372_036_854_775_807
  {
    MaxIntMiddle();
    hide Decimal, AllDigits;
    AppendDigit("9223372036854", '7', 9_223_372_036_854, "92233720368547");
    AppendDigit("92233720368547", '7', 92_233_720_368_547, "922337203685477");
    AppendDigit("922337203685477", '5', 922_337_203_685_477, "9223372036854775");
    AppendDigit("9223372036854775", '8', 9_223_372_036_854_775, "92233720368547758");
    AppendDigit("92233720368547758", '0', 92_233_720_368_547_758, "922337203685477580");
    AppendDigit("922337203685477580", '7', 922_337_203_685_477_580, "9223372036854775807");
  }

  lemma MaxIntText()
    ensures Atoi("9223372036854775807") == Number(MAX_INT)
  {
    MaxIntDigits();
    hide Decimal;
    assert AllDigits("9223372036854775807");
  }

  lemma ShortNumbers()
    ensures Atoi("0") == Number(0) && Atoi("2") == Number(2)
    ensures Atoi("30") == Number(30) && Atoi("59") == Number(59)
  {
    NoDigits();
    AppendDigit("", '0', 0, "0");
    AppendDigit("", '2', 0, "2");
    AppendDigit("", '3', 0, "3");
    AppendDigit("3", '0', 3, "30");
    AppendDigit("", '5', 0, "5");
    AppendDigit("5", '9', 5, "59");
    hide Decimal;
  }

  // The minute field "59/9223372036854775807" parses, names minute 59 alone
  // and permits every odd minute.
  lemma WrapAroundExample()
    ensures var text := "59/9223372036854775807";
            var r := ParseParts(Split(text, ','), 0, 59);
            && PartSpan(text, 0, 59) == Ok(Span(59, 59, MAX_INT))
            && r.Ok? && (forall v | 0 <= v <= 59 :: v in r.value <==> v % 2 == 1)
            && (forall v :: Denotes(Span(59, 59, MAX_INT), v) ==> v == 59)
  {
    WrapAroundSpan();
    hide PartSpan, Split, ParseParts, Collected;
    OnePart("59/9223372036854775807", 0, 59);
    StrayExact(Span(59, 59, MAX_INT), 0, 59);
  }

  lemma WrapAroundSpan()
    ensures PartSpan("59/9223372036854775807", 0, 59) == Ok(Span(59, 59, MAX_INT))
  {
    hide Decimal, Atoi, IndexByte;
    MaxIntText();
    assert "59/9223372036854775807" == "59" + ['/'] + "9223372036854775807";
    FirstSeparator("59", '/', "9223372036854775807");
    RangeOf59();
    hide RangeSpan;
  }

  lemma RangeOf59()
    ensures RangeSpan("59", MAX_INT, 0, 59) == Ok(Span(59, 59, MAX_INT))
  {
    hide Decimal, Atoi, IndexByte;
    ShortNumbers();
  }

  // A field without a comma is its one part.
  lemma OnePart(text: string, lo: int, hi: int)
    requires 0 <= lo && hi < 1000 && ',' !in text
    ensures var p := PartSpan(text, lo, hi);
            ParseParts(Split(text, ','), lo, hi) ==
            if p.Err? then Err(p.error) else Ok(Collected(p.value.start, p.value.end, p.value.step))
  {
    hide PartSpan, Collected, ParseParts;
    assert Split(text, ',') == [text];
    NoParts([text], lo, hi);
    OneMorePart([text], 0, lo, hi);
    assert [text][..1] == [text];
    var p := PartSpan(text, lo, hi);
    if p.Ok? {
      assert {} + Collected(p.value.start, p.value.end, p.value.step) == Collected(p.value.start, p.value.end, p.value.step);
    }
  }

  // A plain number permits itself.
  lemma PlainNumber(text: string, n: int, lo: int, hi: int)
    requires 0 <= lo <= n <= hi < 1000 && text != "*" && Atoi(text) == Number(n)
    requires ',' !in text && '/' !in text && '-' !in text
    ensures ParseParts(Split(text, ','), lo, hi) == Ok({n})
  {
    OnePart(text, lo, hi);
    hide ParseParts, Split, Atoi;
    assert PartSpan(text, lo, hi) == Ok(Span(n, n, 1));
    CollectedPlain(n, n, 1);
    assert Collected(n, n, 1) == {n};
  }

  // A star permits the whole range and nothing else.
  lemma StarExact(lo: int, hi: int)
    requires 0 <= lo <= hi < 1000
    ensures var r := ParseParts(Split("*", ','), lo, hi);
            r.Ok? && forall v :: v in r.value <==> lo <= v <= hi
  {
    OnePart("*", lo, hi);
    hide ParseParts, Split;
    assert PartSpan("*", lo, hi) == Ok(Span(lo, hi, 1));
    CollectedPlain(lo, hi, 1);
  }
}
