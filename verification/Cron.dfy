/**
 Cron expressions and the earliest-match scan (internal/skill/cron.go). A time
 is a count of nanoseconds since 1970-01-01, a minute the index of one minute.
 */
module Cron {
  import opened Text
  import opened Calendar
  import CronField


  datatype CronSpec = CronSpec(
    minute: set<int>,
    hour: set<int>,
    dom: set<int>,
    month: set<int>,
    dow: set<int>,
    domStar: bool,
    dowStar: bool)

  // ----- parsing -----

  function FieldValues(field: string, lo: int, hi: int): CronField.Result<set<int>>
    requires 0 <= lo && hi < 1000
  {
    CronField.ParseParts(Split(field, ','), lo, hi)
  }

  // The k-th of the five fields: minute, hour, day of month, month, day of week.
  function FieldOf(spec: string, k: nat): CronField.Result<set<int>>
    requires |Fields(spec)| == 5 && k < 5
  {
    FieldValues(Fields(spec)[k], if k == 2 || k == 3 then 1 else 0,
                if k == 0 then 59 else if k == 1 then 23 else if k == 2 then 31 else if k == 3 then 12 else 6)
  }

  // The error of the first field that does not parse.
  ghost predicate FirstError(spec: string, e: CronField.FieldError)
    requires |Fields(spec)| == 5
  {
    exists k | 0 <= k < 5 && FieldOf(spec, k).Err? ::
      FieldOf(spec, k).error == e && forall j | 0 <= j < k :: FieldOf(spec, j).Ok?
  }

  // The one result of an expression: five fields that all parse, or the first error.
  ghost predicate ParsesTo(spec: string, r: CronField.Result<CronSpec>) {
    && (|Fields(spec)| != 5 ==> r == CronField.Err(CronField.WrongFieldCount))
    && (|Fields(spec)| == 5 ==>
          && (r.Ok? <==> forall k | 0 <= k < 5 :: FieldOf(spec, k).Ok?)
          && (r.Ok? ==> r.value == CronSpec(
                FieldOf(spec, 0).value, FieldOf(spec, 1).value, FieldOf(spec, 2).value,
                FieldOf(spec, 3).value, FieldOf(spec, 4).value, Fields(spec)[2] == "*", Fields(spec)[4] == "*"))
          && (r.Err? ==> FirstError(spec, r.error)))
  }

  method ParseCron(spec: string) returns (r: CronField.Result<CronSpec>)
    ensures ParsesTo(spec, r)
    ensures r.Ok? ==> Usable(r.value)
  {
    hide Fields, CronField.ParseParts;
    var fields := Fields(spec);
    if |fields| != 5 {
      return CronField.Err(CronField.WrongFieldCount);
    }
    var minute := CronField.ParseField(fields[0], 0, 59);
    assert minute == FieldOf(spec, 0);
    if minute.Err? { return CronField.Err(minute.error); }
    var hour := CronField.ParseField(fields[1], 0, 23);
    assert hour == FieldOf(spec, 1);
    if hour.Err? { return CronField.Err(hour.error); }
    var dom := CronField.ParseField(fields[2], 1, 31);
    assert dom == FieldOf(spec, 2);
    if dom.Err? { return CronField.Err(dom.error); }
    var month := CronField.ParseField(fields[3], 1, 12);
    assert month == FieldOf(spec, 3);
    if month.Err? { return CronField.Err(month.error); }
    var dow := CronField.ParseField(fields[4], 0, 6);
    assert dow == FieldOf(spec, 4);
    if dow.Err? { return CronField.Err(dow.error); }
    ParsedField(fields[0], 0, 59);
    ParsedField(fields[1], 0, 23);
    ParsedField(fields[2], 1, 31);
    ParsedField(fields[3], 1, 12);
    ParsedField(fields[4], 0, 6);
    return CronField.Ok(
        CronSpec(minute.value, hour.value, dom.value, month.value, dow.value, fields[2] == "*", fields[4] == "*"));
  }

  ghost predicate Inhabited(s: set<int>, lo: int, hi: int) {
    exists v | lo <= v <= hi :: v in s
  }

  ghost predicate Full(s: set<int>, lo: int, hi: int) {
    forall v | lo <= v <= hi :: v in s
  }

  // What every parsed expression satisfies.
  ghost predicate Usable(c: CronSpec) {
    && Inhabited(c.minute, 0, 59) && Inhabited(c.hour, 0, 23) && Inhabited(c.dom, 1, 31)
    && Inhabited(c.month, 1, 12) && Inhabited(c.dow, 0, 6)
    && (c.domStar ==> Full(c.dom, 1, 31))
    && (c.dowStar ==> Full(c.dow, 0, 6))
  }

  lemma ParsedField(field: string, lo: int, hi: int)
    requires 0 <= lo <= 1 && lo <= hi < 1000 && FieldValues(field, lo, hi).Ok?
    ensures Inhabited(FieldValues(field, lo, hi).value, lo, hi)
    ensures field == "*" ==> Full(FieldValues(field, lo, hi).value, lo, hi)
  {
    var v := CronField.FieldInhabited(Split(field, ','), lo, hi);
    if field == "*" {
      CronField.StarField(lo, hi);
      assert Split("*", ',') == ["*"];
    }
  }

  // ----- matching -----

  // Day-of-month and day-of-week are alternatives when both are restricted.
  predicate MatchesDay(c: CronSpec, day: int) {
    var d := DateOf(day);
    && d.month in c.month
    && (if !c.domStar && !c.dowStar then d.day in c.dom || Weekday(day) in c.dow
        else d.day in c.dom && Weekday(day) in c.dow)
  }

  predicate Matches(c: CronSpec, t: int) {
    MinuteOf(t) in c.minute && HourOf(t) in c.hour && MatchesDay(c, DayOfMinute(t))
  }

  // ----- the scan -----

  function FirstCandidate(from: int): int {
    from / 60_000_000_000 + 1
  }

  function Horizon(from: int): int {
    AddYearAndDay(FirstCandidate(from))
  }

  function Scan(c: CronSpec, t: int, limit: int): int
    decreases limit - t
  {
    if t >= limit then limit else if Matches(c, t) then t else Scan(c, t + 1, limit)
  }

  // The least match in [t, limit), or limit.
  lemma {:induction false} ScanExact(c: CronSpec, t: int, limit: int)
    ensures var r := Scan(c, t, limit);
            && (t <= limit ==> t <= r <= limit)
            && (r < limit ==> Matches(c, r))
            && forall m | t <= m < r && m < limit :: !Matches(c, m)
    decreases limit - t
  {
    hide Matches;
    if t < limit && !Matches(c, t) {
      ScanExact(c, t + 1, limit);
    }
  }

  // The minute that `next` returns.
  function NextDue(c: CronSpec, from: int): int {
    Scan(c, FirstCandidate(from), Horizon(from))
  }

  method Next(c: CronSpec, from: int) returns (r: int)
    ensures r == NextDue(c, from)
  {
    hide AddYearAndDay, Matches;
    var t := FirstCandidate(from);
    var limit := Horizon(from);
    while t < limit
      invariant Scan(c, t, limit) == NextDue(c, from)
    {
      if Matches(c, t) {
        return t;
      }
      t := t + 1;
    }
    return limit;
  }

  // Some match lies before the horizon.
  ghost predicate Genuine(c: CronSpec, from: int) {
    exists m | FirstCandidate(from) <= m < Horizon(from) :: Matches(c, m)
  }

  // The result is strictly later than `from`, never past the horizon, and no
  // earlier minute matches; it is a match itself exactly when there is one
  // before the horizon.
  lemma NextIsEarliest(c: CronSpec, from: int)
    ensures var r := NextDue(c, from);
            && from < r * 60_000_000_000
            && r <= Horizon(from)
            && (forall m | from < m * 60_000_000_000 && m < r :: !Matches(c, m))
            && (Genuine(c, from) <==> r < Horizon(from))
            && (Genuine(c, from) ==> Matches(c, r))
  {
    hide AddYearAndDay, Matches, Scan;
    AddYearAndDaySpan(FirstCandidate(from));
    ScanExact(c, FirstCandidate(from), Horizon(from));
  }

  // ----- when the scan always succeeds -----

  function CommonLength(m: int): int
    requires 1 <= m <= 12
  {
    MonthLength(false, m)
  }

  // The day-of-week is restricted, or some permitted day exists in every year.
  ghost predicate AlwaysRecurs(c: CronSpec) {
    !c.dowStar || exists m, d :: RecurringDay(c, m, d)
  }

  predicate RecurringDay(c: CronSpec, m: int, d: int) {
    1 <= m <= 12 && 1 <= d <= CommonLength(m) && m in c.month && d in c.dom
  }

  lemma MinuteInDay(day: int, h: int, mi: int)
    requires 0 <= h <= 23 && 0 <= mi <= 59
    ensures var t := day * 1440 + h * 60 + mi;
            DayOfMinute(t) == day && HourOf(t) == h && MinuteOf(t) == mi
  {
    var r := h * 60 + mi;
    assert (day * 1440 + r) / 1440 == day && (day * 1440 + r) % 1440 == r;
    assert r / 60 == h;
    assert ((day * 24 + h) * 60 + mi) % 60 == mi;
  }

  // A whole matching day between two minutes gives a match between them.
  lemma DaySuffices(c: CronSpec, t0: int, limit: int, day: int)
    requires Usable(c) && MatchesDay(c, day)
    requires DayOfMinute(t0) < day < DayOfMinute(limit)
    ensures exists t | t0 <= t < limit :: Matches(c, t)
  {
    var h :| 0 <= h <= 23 && h in c.hour;
    var mi :| 0 <= mi <= 59 && mi in c.minute;
    var t := day * 1440 + h * 60 + mi;
    MinuteInDay(day, h, mi);
    assert Matches(c, t);
  }

  // The scanned window runs past the anniversary of its first day.
  lemma WindowDays(t: int)
    ensures var d := DateOf(DayOfMinute(t));
            DayOfMinute(AddYearAndDay(t)) == DayNumber(Date(d.year + 1, d.month, d.day)) + 1
  {
  }

  lemma WeekdayInWeek(first: Date, w: int) returns (day: int)
    requires 1 <= first.month <= 12 && 1 <= first.day <= 22 && 0 <= w <= 6
    ensures DayNumber(first) <= day <= DayNumber(first) + 6
    ensures Weekday(day) == w && DateOf(day).month == first.month && 1 <= DateOf(day).day <= 28
  {
    hide YearStart, MonthLength, DateOf;
    var n := DayNumber(first);
    var offset := OffsetToWeekday(n, w);
    day := n + offset;
    MonthAtLeast28(first.month);
    ExistsEveryYear(first.year, first.month, first.day + offset);
    SameMonth(first.year, first.month, first.day, first.day + offset);
    DateRoundTrip(Date(first.year, first.month, first.day + offset));
  }

  lemma OffsetToWeekday(n: int, w: int) returns (offset: int)
    requires 0 <= w <= 6
    ensures 0 <= offset <= 6 && Weekday(n + offset) == w
  {
    offset := (w - Weekday(n)) % 7;
  }

  // The scan finds a match from every start exactly when the expression recurs.
  lemma RecursIsGenuine(c: CronSpec, from: int)
    requires Usable(c) && AlwaysRecurs(c)
    ensures Genuine(c, from)
  {
    hide AddYearAndDay, DateOf, DayNumber, Matches, MatchesDay, AlwaysRecurs, Usable, FirstCandidate;
    var t := FirstCandidate(from);
    var today := DateOf(DayOfMinute(t));
    WindowDays(t);
    var day := MatchingDay(c, today);
    DaySuffices(c, t, Horizon(from), day);
  }

  // Some day after `today`, up to the anniversary, matches.
  lemma MatchingDay(c: CronSpec, today: Date) returns (day: int)
    requires Usable(c) && AlwaysRecurs(c) && ValidDate(today)
    ensures DayNumber(today) < day <= DayNumber(Date(today.year + 1, today.month, today.day))
    ensures MatchesDay(c, day)
  {
    if !c.dowStar {
      var w :| 0 <= w <= 6 && w in c.dow;
      var m :| 1 <= m <= 12 && m in c.month;
      var first := NextWeek(today, m);
      day := WeekdayInWeek(first, w);
    } else {
      var m, d :| RecurringDay(c, m, d);
      var next := NextOccurrence(today, m, d);
      day := DayNumber(next);
      DateRoundTrip(next);
      assert 0 <= Weekday(day) <= 6;
    }
  }

  lemma AlwaysGenuineExactly(c: CronSpec)
    requires Usable(c)
    ensures (forall from :: Genuine(c, from)) <==> AlwaysRecurs(c)
  {
    if AlwaysRecurs(c) {
      forall from
        ensures Genuine(c, from)
      {
        RecursIsGenuine(c, from);
      }
    } else {
      NeverIn2021(c, (18628 * 1440 - 1) * 60_000_000_000);
    }
  }

  // From the last minute of 2020 the window stays inside the common years 2021 and 2022.
  lemma NeverIn2021(c: CronSpec, from: int)
    requires !AlwaysRecurs(c) && FirstCandidate(from) == 18628 * 1440
    ensures !Genuine(c, from)
  {
    AddYearAndDaySpan(FirstCandidate(from));
    hide AddYearAndDay, MatchesDay, HourOf, MinuteOf, AlwaysRecurs;
    forall m | FirstCandidate(from) <= m < Horizon(from)
      ensures !Matches(c, m)
    {
      NoMatchOnDay(c, DayOfMinute(m));
    }
  }

  lemma NoMatchOnDay(c: CronSpec, day: int)
    requires !AlwaysRecurs(c) && 18628 <= day < 19358
    ensures !MatchesDay(c, day)
  {
    CommonYears(day);
    var d := DateOf(day);
    assert !RecurringDay(c, d.month, d.day);
  }

  // In particular a day of the month up to 28 is enough.
  lemma EarlyDayRecurs(c: CronSpec, d: int)
    requires Usable(c) && 1 <= d <= 28 && d in c.dom
    ensures AlwaysRecurs(c)
  {
    var m :| 1 <= m <= 12 && m in c.month;
    assert RecurringDay(c, m, d);
  }
}
