/**
 What the text of a cron expression means (internal/skill/cron.go): every
 accepted text is a printed list of stars, numbers and ranges with optional
 steps, and it permits what these say.
 */
module CronText {
  import opened Options
  import opened Text
  import opened CronField
  import opened Calendar
  import Cron

  // ----- numbers -----

  predicate Signed(s: string) {
    s != "" && (s[0] == '+' || s[0] == '-')
  }

  predicate DigitText(s: string) {
    s != "" && forall i | 0 <= i < |s| :: s[i] in "0123456789"
  }

  lemma DigitTexts(s: string)
    ensures DigitText(s) <==> s != "" && AllDigits(s)
  {
    var digits := "0123456789";
    assert forall c :: c in digits <==> IsDigit(c) by {
      forall c | IsDigit(c)
        ensures c in digits
      {
        assert digits[c as int - '0' as int] == c;
      }
    }
  }

  predicate NumberText(s: string): (r: bool)
    ensures r ==> AllDigits(if Signed(s) then s[1..] else s)
  {
    DigitTexts(if Signed(s) then s[1..] else s);
    if Signed(s) then DigitText(s[1..]) else DigitText(s)
  }

  function Value(s: string): int
    requires NumberText(s)
  {
    if !Signed(s) then Decimal(s) else if s[0] == '-' then -Decimal(s[1..]) else Decimal(s[1..])
  }

  // A number that fits in 64 bits.
  predicate IntText(s: string) {
    NumberText(s) && -MAX_INT - 1 <= Value(s) <= MAX_INT
  }

  lemma AtoiExact(s: string)
    ensures IntText(s) ==> Atoi(s) == Number(Value(s))
    ensures !IntText(s) ==> Atoi(s).NotANumber?
  {
    DigitTexts(if Signed(s) then s[1..] else s);
    hide Decimal, AllDigits, DigitText;
  }

  lemma PlainText(s: string)
    requires NumberText(s)
    ensures '/' !in s && ',' !in s && s != "*"
    ensures !Signed(s) || s[0] == '+' ==> '-' !in s
  {
    hide Decimal;
    if Signed(s) {
      assert s == [s[0]] + s[1..];
    }
  }

  // ----- printed parts -----

  datatype Base = Star | One(a: string) | Range(a: string, b: string)
  datatype Part = Part(base: Base, step: Option<string>)

  function BaseText(base: Base): string {
    match base
    case Star => "*"
    case One(a) => a
    case Range(a, b) => a + "-" + b
  }

  function PartText(p: Part): string {
    BaseText(p.base) + if p.step.Some? then "/" + p.step.value else ""
  }

  // The numbers are numbers; the first of a range is not negative.
  predicate Numbers(p: Part) {
    && (p.step.Some? ==> IntText(p.step.value))
    && match p.base
       case Star => true
       case One(a) => IntText(a) && '-' !in a
       case Range(a, b) => IntText(a) && '-' !in a && IntText(b)
  }

  function First(p: Part, lo: int): int
    requires Numbers(p)
  {
    match p.base
    case Star => lo
    case One(a) => Value(a)
    case Range(a, _) => Value(a)
  }

  function Last(p: Part, hi: int): int
    requires Numbers(p)
  {
    match p.base
    case Star => hi
    case One(a) => Value(a)
    case Range(_, b) => Value(b)
  }

  function Step(p: Part): int
    requires Numbers(p)
  {
    if p.step.Some? then Value(p.step.value) else 1
  }

  // What the code accepts.
  predicate Valid(p: Part, lo: int, hi: int) {
    Numbers(p) && Step(p) >= 1 && lo <= First(p, lo) <= Last(p, hi) <= hi
  }

  lemma BaseIsPlain(p: Part)
    requires Numbers(p)
    ensures '/' !in BaseText(p.base) && ',' !in PartText(p)
  {
    hide Value;
    if p.step.Some? {
      PlainText(p.step.value);
    }
    match p.base
    case Star =>
    case One(a) => PlainText(a);
    case Range(a, b) =>
      PlainText(a);
      PlainText(b);
  }

  // The text of a part is read as its first and last value and its step.
  lemma PartReads(p: Part, lo: int, hi: int)
    requires Numbers(p)
    ensures PartSpan(PartText(p), lo, hi) ==
            if Step(p) < 1 then Err(BadStep)
            else if lo <= First(p, lo) <= Last(p, hi) <= hi then Ok(Span(First(p, lo), Last(p, hi), Step(p)))
            else Err(OutOfRange)
  {
    BaseIsPlain(p);
    hide NumberText, Decimal, Atoi, BaseText, First, Last, RangeSpan, Value;
    if p.step.Some? {
      SteppedText(BaseText(p.base), p.step.value);
      AtoiExact(p.step.value);
      hide IndexByte, PartText;
      if Step(p) >= 1 {
        BaseReads(p, lo, hi);
      }
    } else {
      assert PartText(p) == BaseText(p.base);
      BaseReads(p, lo, hi);
    }
  }

  lemma SteppedText(base: string, step: string)
    requires '/' !in base
    ensures var text := base + ("/" + step);
            IndexByte(text, '/') == |base| && text[..|base|] == base && text[|base| + 1..] == step
  {
    FirstSeparator(base, '/', step);
    assert base + ("/" + step) == base + ['/'] + step;
  }

  lemma BaseReads(p: Part, lo: int, hi: int)
    requires Numbers(p) && 1 <= Step(p)
    ensures RangeSpan(BaseText(p.base), Step(p), lo, hi) ==
            if lo <= First(p, lo) <= Last(p, hi) <= hi then Ok(Span(First(p, lo), Last(p, hi), Step(p)))
            else Err(OutOfRange)
  {
    hide Decimal, Atoi;
    match p.base
    case Star =>
    case One(a) =>
      AtoiExact(a);
      PlainText(a);
    case Range(a, b) =>
      AtoiExact(a);
      AtoiExact(b);
      FirstSeparator(a, '-', b);
      assert BaseText(p.base) == a + ['-'] + b;
  }

  // Nothing else is accepted.
  lemma PartShape(text: string, lo: int, hi: int) returns (p: Part)
    requires PartSpan(text, lo, hi).Ok?
    ensures Valid(p, lo, hi) && PartText(p) == text
  {
    hide Decimal, Atoi, IndexByte, RangeSpan, NumberText, Value;
    var slash := IndexByte(text, '/');
    var base := if slash < 0 then text else text[..slash];
    var step := if slash < 0 then 1 else Atoi(text[slash + 1..]).n;
    BaseShape(base, step, lo, hi);
    p := Part(ShapeOfBase(base), if slash < 0 then None else Some(text[slash + 1..]));
    if slash >= 0 {
      AtoiExact(text[slash + 1..]);
      assert text == text[..slash] + ("/" + text[slash + 1..]);
    }
    hide ShapeOfBase, BaseText;
  }

  lemma BaseShape(base: string, step: int, lo: int, hi: int)
    requires 1 <= step <= MAX_INT && RangeSpan(base, step, lo, hi).Ok?
    ensures var p := Part(ShapeOfBase(base), None);
            Numbers(p) && lo <= First(p, lo) <= Last(p, hi) <= hi
  {
    hide Decimal, Atoi, NumberText, Value;
    match ShapeOfBase(base)
    case Star =>
    case One(a) => AtoiExact(a);
    case Range(a, b) =>
      AtoiExact(a);
      AtoiExact(b);
  }

  function ShapeOfBase(base: string): (b: Base)
    ensures BaseText(b) == base
    ensures b.Star? <==> base == "*"
    ensures b.Range? ==> '-' !in b.a
  {
    var dash := IndexByte(base, '-');
    if base == "*" then Star
    else if dash >= 0 then
      assert base == base[..dash] + "-" + base[dash + 1..];
      Range(base[..dash], base[dash + 1..])
    else One(base)
  }

  // ----- whole fields -----

  function Texts(parts: seq<Part>): seq<string> {
    seq(|parts|, i requires 0 <= i < |parts| => PartText(parts[i]))
  }

  function FieldText(parts: seq<Part>): string {
    Join(Texts(parts), ",")
  }

  predicate AllNumbers(parts: seq<Part>) {
    forall i | 0 <= i < |parts| :: Numbers(parts[i])
  }

  predicate AllValid(parts: seq<Part>, lo: int, hi: int) {
    forall i | 0 <= i < |parts| :: Valid(parts[i], lo, hi)
  }

  // What a part says: the values from its first to its last in steps.
  predicate Says(p: Part, lo: int, hi: int, v: int) {
    Valid(p, lo, hi) && First(p, lo) <= v <= Last(p, hi) && (v - First(p, lo)) % Step(p) == 0
  }

  ghost predicate SomePartSays(parts: seq<Part>, lo: int, hi: int, v: int) {
    exists i :: 0 <= i < |parts| && Says(parts[i], lo, hi, v)
  }

  predicate Tame(parts: seq<Part>, lo: int) {
    forall i | 0 <= i < |parts| :: Numbers(parts[i]) && First(parts[i], lo) + 2 * Step(parts[i]) - TWO_64 < lo
  }

  predicate RefusedFor(p: Part, e: FieldError)
    requires Numbers(p)
  {
    e == if Step(p) < 1 then BadStep else OutOfRange
  }

  lemma FieldSplits(parts: seq<Part>)
    requires parts != [] && AllNumbers(parts)
    ensures Split(FieldText(parts), ',') == Texts(parts)
  {
    forall t | t in Texts(parts)
      ensures ',' !in t
    {
      var i :| 0 <= i < |parts| && t == Texts(parts)[i];
      BaseIsPlain(parts[i]);
    }
    SplitJoin(Texts(parts), ',');
  }

  // A printed field is accepted if and only if all its parts are valid, and
  // otherwise the first one that is not decides the error.
  lemma {:induction false} TextsRead(parts: seq<Part>, lo: int, hi: int)
    requires 0 <= lo && hi < 1000 && AllNumbers(parts)
    ensures var r := ParseParts(Texts(parts), lo, hi);
            && (r.Ok? <==> AllValid(parts, lo, hi))
            && (r.Err? ==> exists i :: 0 <= i < |parts| && !Valid(parts[i], lo, hi) && AllValid(parts[..i], lo, hi) && RefusedFor(parts[i], r.error))
  {
    hide ParseParts, PartSpan, Collected, PartText, First, Last, Step, Numbers;
    var texts := Texts(parts);
    if parts == [] {
      NoParts(texts, lo, hi);
      assert texts == texts[..0];
    } else {
      var n := |parts| - 1;
      var front := parts[..n];
      TextsRead(front, lo, hi);
      assert texts[..n] == Texts(front) && texts[..n + 1] == texts;
      PartReads(parts[n], lo, hi);
      if ParseParts(texts[..n], lo, hi).Err? {
        FirstErrorWins(texts, n, lo, hi);
        var i :| 0 <= i < n && !Valid(front[i], lo, hi) && AllValid(front[..i], lo, hi) && RefusedFor(front[i], ParseParts(texts, lo, hi).error);
        assert front[..i] == parts[..i] && front[i] == parts[i];
      } else {
        OneMorePart(texts, n, lo, hi);
        assert texts[n] == PartText(parts[n]);
        assert AllValid(front, lo, hi);
        assert Valid(parts[n], lo, hi) <==> AllValid(parts, lo, hi);
        assert !Valid(parts[n], lo, hi) ==> RefusedFor(parts[n], ParseParts(texts, lo, hi).error);
      }
    }
  }

  // What an accepted field permits: a value that some part says, when no step
  // is so large that the counter wraps twice.
  lemma FieldReads(parts: seq<Part>, lo: int, hi: int)
    requires 0 <= lo && hi < 1000 && parts != [] && AllNumbers(parts)
    ensures var r := ParseParts(Split(FieldText(parts), ','), lo, hi);
            && (r.Ok? <==> AllValid(parts, lo, hi))
            && (r.Err? ==> exists i :: 0 <= i < |parts| && !Valid(parts[i], lo, hi) && AllValid(parts[..i], lo, hi) && RefusedFor(parts[i], r.error))
            && (r.Ok? && Tame(parts, lo) ==> forall v | lo <= v <= hi :: v in r.value <==> SomePartSays(parts, lo, hi, v))
  {
    FieldSplits(parts);
    TextsRead(parts, lo, hi);
    if AllValid(parts, lo, hi) && Tame(parts, lo) {
      NoneWraps(parts, lo, hi);
      FieldMeaning(Texts(parts), lo, hi);
      hide Tame, AllValid, AllNumbers, ParseParts, Texts, SomePartDenotes, SomePartSays, FieldText, Split;
      forall v | lo <= v <= hi
        ensures SomePartDenotes(Texts(parts), lo, hi, v) <==> SomePartSays(parts, lo, hi, v)
      {
        DenotesSays(parts, lo, hi, v);
      }
    }
  }

  lemma NoneWraps(parts: seq<Part>, lo: int, hi: int)
    requires AllValid(parts, lo, hi) && Tame(parts, lo)
    ensures NoDoubleWrap(Texts(parts), lo, hi)
  {
    hide PartSpan, PartText, First, Last, Step, Numbers;
    forall q | q in Texts(parts)
      ensures PartSpan(q, lo, hi).Ok? ==> PartSpan(q, lo, hi).value.start + 2 * PartSpan(q, lo, hi).value.step - TWO_64 < lo
    {
      var i :| 0 <= i < |parts| && Texts(parts)[i] == q;
      PartReads(parts[i], lo, hi);
    }
  }

  lemma DenotesSays(parts: seq<Part>, lo: int, hi: int, v: int)
    requires AllValid(parts, lo, hi)
    ensures SomePartDenotes(Texts(parts), lo, hi, v) <==> SomePartSays(parts, lo, hi, v)
  {
    hide PartSpan, PartText, First, Last, Step, Numbers;
    forall i | 0 <= i < |parts|
      ensures Texts(parts)[i] in Texts(parts) && PartSpan(Texts(parts)[i], lo, hi).Ok?
      ensures Denotes(PartSpan(Texts(parts)[i], lo, hi).value, v) <==> Says(parts[i], lo, hi, v)
    {
      PartReads(parts[i], lo, hi);
    }
    if SomePartDenotes(Texts(parts), lo, hi, v) {
      var q :| q in Texts(parts) && PartSpan(q, lo, hi).Ok? && Denotes(PartSpan(q, lo, hi).value, v);
      var i :| 0 <= i < |parts| && Texts(parts)[i] == q;
      assert Says(parts[i], lo, hi, v);
    }
  }

  // Every accepted field is a printed list of valid parts.
  lemma {:induction false} TextsShape(texts: seq<string>, lo: int, hi: int) returns (parts: seq<Part>)
    requires 0 <= lo && hi < 1000 && ParseParts(texts, lo, hi).Ok?
    ensures AllValid(parts, lo, hi) && Texts(parts) == texts
  {
    hide ParseParts, PartSpan, Collected, Valid, PartText;
    parts := [];
    if texts != [] {
      var n := |texts| - 1;
      assert texts[..n + 1] == texts;
      if ParseParts(texts[..n], lo, hi).Err? {
        FirstErrorWins(texts, n, lo, hi);
      }
      OneMorePart(texts, n, lo, hi);
      var p := PartShape(texts[n], lo, hi);
      var front := TextsShape(texts[..n], lo, hi);
      parts := front + [p];
      assert texts == texts[..n] + [texts[n]];
      assert Texts(parts) == Texts(front) + [PartText(p)];
    }
  }

  lemma FieldShape(field: string, lo: int, hi: int) returns (parts: seq<Part>)
    requires 0 <= lo && hi < 1000 && ParseParts(Split(field, ','), lo, hi).Ok?
    ensures parts != [] && AllValid(parts, lo, hi) && FieldText(parts) == field
  {
    parts := TextsShape(Split(field, ','), lo, hi);
    JoinSplit(field, ',');
  }

  // ----- whole expressions -----

  lemma NoSpaces(s: string)
    requires NumberText(s)
    ensures s != "" && forall i | 0 <= i < |s| :: !IsSpace(s[i])
  {
    if Signed(s) {
      assert forall i | 1 <= i < |s| :: s[i] == s[1..][i - 1];
    }
  }

  lemma PartIsWord(p: Part)
    requires Numbers(p)
    ensures IsWord(PartText(p))
  {
    hide Value, NumberText;
    if p.step.Some? {
      NoSpaces(p.step.value);
    }
    match p.base
    case Star =>
    case One(a) =>
      NoSpaces(a);
      PlainText(a);
    case Range(a, b) =>
      NoSpaces(a);
      NoSpaces(b);
  }

  lemma {:induction false} JoinIsWord(texts: seq<string>)
    requires texts != [] && forall t | t in texts :: IsWord(t)
    ensures IsWord(Join(texts, ","))
  {
    if |texts| > 1 {
      JoinIsWord(texts[1..]);
      assert IsWord(texts[0]);
    } else {
      assert Join(texts, ",") == texts[0];
    }
  }

  lemma FieldIsWord(parts: seq<Part>)
    requires parts != [] && AllNumbers(parts)
    ensures IsWord(FieldText(parts))
  {
    hide Numbers, PartText, IsWord, Join;
    forall t | t in Texts(parts)
      ensures IsWord(t)
    {
      var i :| 0 <= i < |parts| && Texts(parts)[i] == t;
      PartIsWord(parts[i]);
    }
    JoinIsWord(Texts(parts));
  }

  // Minute, hour, day of the month, month and day of the week.
  datatype Expression = Expression(minute: seq<Part>, hour: seq<Part>, dom: seq<Part>, month: seq<Part>, dow: seq<Part>)

  function ExpressionText(e: Expression): string {
    Join([FieldText(e.minute), FieldText(e.hour), FieldText(e.dom), FieldText(e.month), FieldText(e.dow)], " ")
  }

  predicate Accepted(e: Expression) {
    && e.minute != [] && e.hour != [] && e.dom != [] && e.month != [] && e.dow != []
    && AllValid(e.minute, 0, 59) && AllValid(e.hour, 0, 23) && AllValid(e.dom, 1, 31)
    && AllValid(e.month, 1, 12) && AllValid(e.dow, 0, 6)
  }

  predicate TameExpression(e: Expression)
    requires Accepted(e)
  {
    Tame(e.minute, 0) && Tame(e.hour, 0) && Tame(e.dom, 1) && Tame(e.month, 1) && Tame(e.dow, 0)
  }

  // The minute h:mi of the date is one that the expression asks for: a starred
  // day field leaves the day to the other one, two restricted ones are
  // alternatives.
  ghost predicate AsksFor(e: Expression, d: Date, h: int, mi: int)
    requires ValidDate(d)
  {
    var onDom := SomePartSays(e.dom, 1, 31, d.day);
    var onDow := SomePartSays(e.dow, 0, 6, Weekday(DayNumber(d)));
    && SomePartSays(e.minute, 0, 59, mi) && SomePartSays(e.hour, 0, 23, h) && SomePartSays(e.month, 1, 12, d.month)
    && if FieldText(e.dom) == "*" || FieldText(e.dow) == "*" then onDom && onDow else onDom || onDow
  }

  // From text to minutes: an expression of valid parts parses, and its
  // specification matches exactly the minutes that the text asks for.
  lemma ExpressionReads(e: Expression) returns (c: Cron.CronSpec)
    requires Accepted(e)
    ensures Cron.ParsesTo(ExpressionText(e), Ok(c))
    ensures TameExpression(e) ==>
              forall d: Date, h, mi | ValidDate(d) && 0 <= h <= 23 && 0 <= mi <= 59 ::
                Cron.Matches(c, (DayNumber(d) * 24 + h) * 60 + mi) <==> AsksFor(e, d, h, mi)
  {
    c := ExpressionSpec(e);
    if TameExpression(e) {
      hide Accepted, TameExpression, Means, Cron.Matches, AsksFor, DayNumber, ValidDate, ExpressionText, Cron.ParsesTo;
      forall d: Date, h, mi | ValidDate(d) && 0 <= h <= 23 && 0 <= mi <= 59
        ensures Cron.Matches(c, (DayNumber(d) * 24 + h) * 60 + mi) <==> AsksFor(e, d, h, mi)
      {
        AsksExactly(c, e, d, h, mi);
      }
    }
  }

  // The values are those of the range that some part says.
  ghost predicate Permits(values: set<int>, parts: seq<Part>, lo: int, hi: int) {
    forall v | lo <= v <= hi :: v in values <==> SomePartSays(parts, lo, hi, v)
  }

  ghost predicate Means(c: Cron.CronSpec, e: Expression) {
    && Permits(c.minute, e.minute, 0, 59) && Permits(c.hour, e.hour, 0, 23) && Permits(c.dom, e.dom, 1, 31)
    && Permits(c.month, e.month, 1, 12) && Permits(c.dow, e.dow, 0, 6)
    && c.domStar == (FieldText(e.dom) == "*") && c.dowStar == (FieldText(e.dow) == "*")
  }

  lemma ExpressionSpec(e: Expression) returns (c: Cron.CronSpec)
    requires Accepted(e)
    ensures Cron.ParsesTo(ExpressionText(e), Ok(c))
    ensures TameExpression(e) ==> Means(c, e)
  {
    hide AllValid, Tame, FieldText, Permits;
    ExpressionFields(e);
    FieldAt(e.minute, 0, 59);
    FieldAt(e.hour, 0, 23);
    FieldAt(e.dom, 1, 31);
    FieldAt(e.month, 1, 12);
    FieldAt(e.dow, 0, 6);
    hide Cron.FieldValues, Fields;
    var spec := ExpressionText(e);
    c := Cron.CronSpec(Cron.FieldOf(spec, 0).value, Cron.FieldOf(spec, 1).value, Cron.FieldOf(spec, 2).value,
                       Cron.FieldOf(spec, 3).value, Cron.FieldOf(spec, 4).value, Fields(spec)[2] == "*", Fields(spec)[4] == "*");
    hide ExpressionText;
  }

  lemma AsksExactly(c: Cron.CronSpec, e: Expression, d: Date, h: int, mi: int)
    requires Means(c, e) && ValidDate(d) && 0 <= h <= 23 && 0 <= mi <= 59
    ensures Cron.Matches(c, (DayNumber(d) * 24 + h) * 60 + mi) <==> AsksFor(e, d, h, mi)
  {
    MatchesAt(c, d, h, mi);
    hide SomePartSays, FieldText, DayNumber, Weekday, ValidDate, Cron.Matches;
  }

  // Every expression that parses is such a text, up to the white space between
  // and around its fields.
  lemma ExpressionShape(spec: string, c: Cron.CronSpec) returns (e: Expression)
    requires Cron.ParsesTo(spec, Ok(c))
    ensures Accepted(e) && Fields(spec) == Fields(ExpressionText(e))
  {
    hide AllValid, FieldText, Fields, Split, ParseParts;
    var f := Fields(spec);
    assert |f| == 5;
    assert Cron.FieldOf(spec, 0).Ok? && Cron.FieldOf(spec, 1).Ok? && Cron.FieldOf(spec, 2).Ok?;
    assert Cron.FieldOf(spec, 3).Ok? && Cron.FieldOf(spec, 4).Ok?;
    var minute := FieldShape(f[0], 0, 59);
    var hour := FieldShape(f[1], 0, 23);
    var dom := FieldShape(f[2], 1, 31);
    var month := FieldShape(f[3], 1, 12);
    var dow := FieldShape(f[4], 0, 6);
    e := Expression(minute, hour, dom, month, dow);
    ExpressionFields(e);
    hide ExpressionText;
  }

  lemma ExpressionFields(e: Expression)
    requires Accepted(e)
    ensures Fields(ExpressionText(e)) == [FieldText(e.minute), FieldText(e.hour), FieldText(e.dom), FieldText(e.month), FieldText(e.dow)]
  {
    FieldIsWord(e.minute);
    FieldIsWord(e.hour);
    FieldIsWord(e.dom);
    FieldIsWord(e.month);
    FieldIsWord(e.dow);
    hide *;
    FieldsJoin([FieldText(e.minute), FieldText(e.hour), FieldText(e.dom), FieldText(e.month), FieldText(e.dow)]);
  }

  lemma FieldAt(parts: seq<Part>, lo: int, hi: int)
    requires 0 <= lo && hi < 1000 && parts != [] && AllValid(parts, lo, hi)
    ensures var r := Cron.FieldValues(FieldText(parts), lo, hi);
            r.Ok? && (Tame(parts, lo) ==> Permits(r.value, parts, lo, hi))
  {
    FieldReads(parts, lo, hi);
    hide Tame, ParseParts, Split, FieldText;
  }

  // A specification, read at one minute of a date.
  lemma MatchesAt(c: Cron.CronSpec, d: Date, h: int, mi: int)
    requires ValidDate(d) && 0 <= h <= 23 && 0 <= mi <= 59
    ensures var onDom, onDow := d.day in c.dom, Weekday(DayNumber(d)) in c.dow;
            Cron.Matches(c, (DayNumber(d) * 24 + h) * 60 + mi) <==>
            mi in c.minute && h in c.hour && d.month in c.month && if c.domStar || c.dowStar then onDom && onDow else onDom || onDow
    ensures 1 <= d.month <= 12 && 1 <= d.day <= 31 && 0 <= Weekday(DayNumber(d)) <= 6
  {
    Cron.MinuteInDay(DayNumber(d), h, mi);
    DateRoundTrip(d);
    MonthLengths(d.year, d.month);
    hide DateOf, DayNumber, HourOf, MinuteOf, DayOfMinute;
  }
}
