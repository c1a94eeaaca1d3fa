/** Periods (a date with a year, month or day precision) parsed from
    `YYYY`, `YYYY-MM` and `YYYY-MM-DD`, and closed-open date intervals built
    from them. */
module Periods {
  import opened Base
  import opened Text
  import opened Calendar

  /** `Period.precisions`, in the order the number of dashes selects them. */
  datatype Precision = Year | Month | Day

  datatype Period = Period(date: Date, precision: Precision)

  function PrecisionOf(dashes: nat): Precision
    requires dashes < 3
  {
    if dashes == 0 then Year else if dashes == 1 then Month else Day
  }

  /** Python's `string.count('-')`. */
  function DashCount(s: string): nat {
    multiset(s)['-']
  }

  function DigitValue(c: char): int {
    c as int - '0' as int
  }

  lemma FourDigits(t: string)
    requires |t| == 4 && AllDigits(t)
    ensures DigitsValue(t) ==
      1000 * DigitValue(t[0]) + 100 * DigitValue(t[1]) + 10 * DigitValue(t[2]) + DigitValue(t[3])
    ensures DigitsValue(t) <= MaxYear
  {
    var a, b, c := t[..1], t[..2], t[..3];
    assert t[..|t| - 1] == c && c[..|c| - 1] == b && b[..|b| - 1] == a && a[..|a| - 1] == [];
    assert DigitsValue(t) == DigitsValue(c) * 10 + DigitValue(t[3]);
    assert DigitsValue(c) == DigitsValue(b) * 10 + DigitValue(t[2]);
    assert DigitsValue(b) == DigitsValue(a) * 10 + DigitValue(t[1]);
    assert DigitsValue(a) == DigitValue(t[0]);
  }

  /** A one- or two-digit field read as a decimal number. */
  lemma SmallDigits(t: string)
    ensures 1 <= |t| <= 2 && AllDigits(t) ==>
      DigitsValue(t) == if |t| == 1 then DigitValue(t[0]) else 10 * DigitValue(t[0]) + DigitValue(t[1])
  {
    if |t| == 2 && AllDigits(t) {
      assert t[..1][..0] == [];
    } else if |t| == 1 && AllDigits(t) {
      assert t[..0] == [];
    }
  }

  /** `%Y`: exactly four ASCII digits, and a year `datetime` accepts. */
  function ParseYear(t: string): (r: Option<int>)
    ensures r.Some? <==> |t| == 4 && AllDigits(t) && MinYear <= DigitsValue(t)
    ensures r.Some? ==> AllDigits(t) && r.value == DigitsValue(t) && MinYear <= r.value <= MaxYear
  {
    if |t| == 4 && AllDigits(t) && DigitsValue(t) >= MinYear then
      FourDigits(t);
      Some(DigitsValue(t))
    else None
  }

  /** `%m`: the text of `1[0-2]|0[1-9]|[1-9]`, the whole field. */
  function ParseMonth(t: string): (r: Option<int>)
    ensures r.Some? <==> 1 <= |t| <= 2 && AllDigits(t) && 1 <= DigitsValue(t) <= 12
    ensures r.Some? ==> AllDigits(t) && r.value == DigitsValue(t) && 1 <= r.value <= 12
  {
    SmallDigits(t);
    if |t| == 1 && '1' <= t[0] <= '9' then Some(DigitValue(t[0]))
    else if |t| == 2 && t[0] == '0' && '1' <= t[1] <= '9' then Some(DigitValue(t[1]))
    else if |t| == 2 && t[0] == '1' && '0' <= t[1] <= '2' then Some(10 + DigitValue(t[1]))
    else None
  }

  /** `%d`: the text of `3[01]|[12]\d|0[1-9]|[1-9]| [1-9]`, the whole field. */
  function ParseDay(t: string): (r: Option<int>)
    ensures r.Some? <==> (1 <= |t| <= 2 && AllDigits(t) && 1 <= DigitsValue(t) <= 31) ||
                         (|t| == 2 && t[0] == ' ' && '1' <= t[1] <= '9')
    ensures r.Some? && t[0] != ' ' ==> AllDigits(t) && r.value == DigitsValue(t)
    ensures r.Some? && t[0] == ' ' ==> |t| == 2 && r.value == DigitValue(t[1])
    ensures r.Some? ==> 1 <= r.value <= 31
  {
    SmallDigits(t);
    if |t| == 1 && '1' <= t[0] <= '9' then Some(DigitValue(t[0]))
    else if |t| == 2 && (t[0] == '0' || t[0] == ' ') && '1' <= t[1] <= '9' then Some(DigitValue(t[1]))
    else if |t| == 2 && (t[0] == '1' || t[0] == '2') && IsDigit(t[1]) then Some(10 * DigitValue(t[0]) + DigitValue(t[1]))
    else if |t| == 2 && t[0] == '3' && (t[1] == '0' || t[1] == '1') then Some(30 + DigitValue(t[1]))
    else None
  }

  /** `datetime.strptime(s, fmt)` for the format `Period.date_formats[dashes]`;
      `None` where it raises ValueError (text not of the format, or a day the
      month does not have). */
  function Strptime(s: string, dashes: nat): (r: Option<Date>)
    requires dashes < 3
    ensures r.Some? ==> Valid(r.value)
    ensures r.Some? && dashes < 2 ==> r.value.day == 1
    ensures r.Some? && dashes == 0 ==> r.value.month == 1
    ensures dashes == 0 ==> (r.Some? <==> ParseYear(s).Some?)
    ensures dashes == 0 && r.Some? ==> ParseYear(s) == Some(r.value.year)
    ensures dashes > 0 && r.Some? ==>
      var parts := SplitOnce(s, "-"); |parts| == 2 && ParseYear(parts[0]) == Some(r.value.year)
    ensures dashes == 1 ==> var parts := SplitOnce(s, "-");
      (r.Some? <==> |parts| == 2 && ParseYear(parts[0]).Some? && ParseMonth(parts[1]).Some?) &&
      (r.Some? ==> ParseMonth(parts[1]) == Some(r.value.month))
    ensures dashes == 2 ==> var parts := SplitOnce(s, "-");
      (r.Some? <==> |parts| == 2 && |SplitOnce(parts[1], "-")| == 2 &&
                    DayDate(parts[0], SplitOnce(parts[1], "-")[0], SplitOnce(parts[1], "-")[1]).Some?) &&
      (r.Some? ==> ParseMonth(SplitOnce(parts[1], "-")[0]) == Some(r.value.month) &&
                   ParseDay(SplitOnce(parts[1], "-")[1]) == Some(r.value.day))
  {
    if dashes == 0 then
      match ParseYear(s)
      case None => None
      case Some(y) => Some(Date(y, 1, 1))
    else
      var parts := SplitOnce(s, "-");
      if |parts| == 1 then None
      else if dashes == 1 then MonthDate(parts[0], parts[1])
      else
        var rest := SplitOnce(parts[1], "-");
        if |rest| == 1 then None else DayDate(parts[0], rest[0], rest[1])
  }

  /** `%Y-%m` once the text is split at its dash. */
  function MonthDate(yt: string, mt: string): (r: Option<Date>)
    ensures r.Some? ==> Valid(r.value) && r.value.day == 1
    ensures r.Some? <==> ParseYear(yt).Some? && ParseMonth(mt).Some?
    ensures r.Some? ==> r.value == Date(ParseYear(yt).value, ParseMonth(mt).value, 1)
  {
    match (ParseYear(yt), ParseMonth(mt))
    case (Some(y), Some(m)) => Some(Date(y, m, 1))
    case _ => None
  }

  /** `%Y-%m-%d` once the text is split at its two dashes: a day the month
      does not have is refused. */
  function DayDate(yt: string, mt: string, dt: string): (r: Option<Date>)
    ensures r.Some? ==> Valid(r.value)
    ensures r.Some? <==> ParseYear(yt).Some? && ParseMonth(mt).Some? && ParseDay(dt).Some? &&
                         ParseDay(dt).value <= DaysInMonth(ParseYear(yt).value, ParseMonth(mt).value)
    ensures r.Some? ==> r.value == Date(ParseYear(yt).value, ParseMonth(mt).value, ParseDay(dt).value)
  {
    match (ParseYear(yt), ParseMonth(mt), ParseDay(dt))
    case (Some(y), Some(m), Some(d)) => if d <= DaysInMonth(y, m) then Some(Date(y, m, d)) else None
    case _ => None
  }

  /** A period whose date is the first day of its span, as `Period.parse` makes it. */
  predicate Aligned(p: Period) {
    (p.precision == Year ==> p.date.month == 1 && p.date.day == 1) &&
    (p.precision == Month ==> p.date.day == 1)
  }

  /** `Period.parse`: `None` for the empty string; otherwise the number of
      dashes picks the format and the precision, three or more dashes raise. */
  function ParsePeriod(s: string): (r: Result<Option<Period>>)
    ensures s == "" <==> r == Ok(None)
    ensures DashCount(s) >= 3 ==> r == Err(DateFormatError)
    ensures r.Err? ==> r.error == DateFormatError || r.error == DateParseError
    ensures r.Ok? && r.value.Some? ==>
      DashCount(s) < 3 && r.value.value.precision == PrecisionOf(DashCount(s)) &&
      Valid(r.value.value.date) && Aligned(r.value.value)
    ensures s != "" && DashCount(s) < 3 ==>
      (r.Ok? <==> Strptime(s, DashCount(s)).Some?) &&
      (r.Err? ==> r.error == DateParseError) &&
      (r.Ok? ==> r.value == Some(Period(Strptime(s, DashCount(s)).value, PrecisionOf(DashCount(s)))))
  {
    if s == "" then Ok(None)
    else
      var dashes := DashCount(s);
      if dashes >= 3 then Err(DateFormatError)
      else match Strptime(s, dashes)
        case None => Err(DateParseError)
        case Some(d) => Ok(Some(Period(d, PrecisionOf(dashes))))
  }

  /** `Period.open_right_endpoint`: the first instant after the period at its
      precision; Err where `datetime` cannot represent it, or where
      `date.replace(month=...)` meets a day the next month lacks. */
  function OpenRightEndpoint(p: Period): (r: Result<Date>)
    requires Valid(p.date)
    ensures r.Ok? ==> Valid(r.value) && Before(p.date, r.value)
    ensures r.Err? ==> r.error == DateRangeError
    ensures p.date.year < MaxYear && Aligned(p) ==> r.Ok?
    ensures p.precision == Year ==>
      (r.Ok? <==> p.date.year < MaxYear) && (r.Ok? ==> r.value == Date(p.date.year + 1, 1, p.date.day))
    ensures p.precision == Month && p.date.month < 12 ==>
      (r.Ok? <==> p.date.day <= DaysInMonth(p.date.year, p.date.month + 1)) &&
      (r.Ok? ==> r.value == Date(p.date.year, p.date.month + 1, p.date.day))
    ensures p.precision == Month && p.date.month == 12 ==>
      (r.Ok? <==> p.date.year < MaxYear) && (r.Ok? ==> r.value == Date(p.date.year + 1, 1, p.date.day))
    ensures p.precision == Day ==>
      (r.Ok? <==> NextDay(p.date).year <= MaxYear) && (r.Ok? ==> r.value == NextDay(p.date))
  {
    var d := p.date;
    match p.precision
    case Year =>
      if d.year + 1 > MaxYear then Err(DateRangeError) else Ok(Date(d.year + 1, 1, d.day))
    case Month =>
      if d.month < 12 then
        if d.day > DaysInMonth(d.year, d.month + 1) then Err(DateRangeError)
        else Ok(Date(d.year, d.month + 1, d.day))
      else if d.year + 1 > MaxYear then Err(DateRangeError)
      else Ok(Date(d.year + 1, 1, d.day))
    case Day =>
      NextDayOrdinal(d);
      if NextDay(d).year > MaxYear then Err(DateRangeError) else Ok(NextDay(d))
  }

  /** A closed-open interval: `start` included, `end` excluded; a missing
      endpoint is unbounded. */
  datatype DateInterval = DateInterval(start: Option<Date>, end: Option<Date>)

  predicate Ordered(start: Option<Date>, end: Option<Date>) {
    start.None? || end.None? || Before(start.value, end.value)
  }

  /** `DateInterval(start, end)`: raises unless `start < end` when both are given. */
  function NewDateInterval(start: Option<Date>, end: Option<Date>): (r: Result<DateInterval>)
    ensures r.Ok? <==> Ordered(start, end)
    ensures r.Ok? ==> r.value.start == start && r.value.end == end
    ensures r.Err? ==> r.error == IntervalError
  {
    if start.Some? && end.Some? && !Before(start.value, end.value) then Err(IntervalError)
    else Ok(DateInterval(start, end))
  }

  /** `DateInterval.contains`. */
  predicate IntervalContains(iv: DateInterval, d: Date) {
    (iv.start.None? || !Before(d, iv.start.value)) && (iv.end.None? || Before(d, iv.end.value))
  }

  /** An interval holds every date between two dates it holds, and an
      interval open at both ends holds every date. */
  lemma IntervalConvex(iv: DateInterval, lo: Date, d: Date, hi: Date)
    requires IntervalContains(iv, lo) && IntervalContains(iv, hi)
    requires !Before(d, lo) && !Before(hi, d)
    ensures IntervalContains(iv, d)
    ensures IntervalContains(DateInterval(None, None), d)
  {
  }

  predicate ValidPeriod(p: Option<Period>) {
    p.Some? ==> Valid(p.value.date)
  }

  /** `DateInterval.from_periods`: from the start period's date up to the end
      period's open right endpoint (computed first, so its error wins). */
  function FromPeriods(start: Option<Period>, end: Option<Period>): (r: Result<DateInterval>)
    requires ValidPeriod(start) && ValidPeriod(end)
    ensures r.Ok? ==> r.value.start == (if start.Some? then Some(start.value.date) else None)
    ensures r.Ok? ==> (end.None? <==> r.value.end.None?)
    ensures r.Ok? && r.value.end.Some? ==> Valid(r.value.end.value)
    ensures r.Ok? ==> Ordered(r.value.start, r.value.end)
    ensures r.Err? ==> r.error == DateRangeError || r.error == IntervalError
    ensures end.Some? && OpenRightEndpoint(end.value).Err? ==> r == Err(OpenRightEndpoint(end.value).error)
    ensures r.Ok? && end.Some? ==> r.value.end == Some(OpenRightEndpoint(end.value).value)
    ensures (end.None? || OpenRightEndpoint(end.value).Ok?) ==>
      (r.Ok? <==> start.None? || end.None? || Before(start.value.date, OpenRightEndpoint(end.value).value))
  {
    var endDate: Result<Option<Date>> :=
      if end.None? then Ok(None)
      else match OpenRightEndpoint(end.value)
        case Err(e) => Err(e)
        case Ok(d) => Ok(Some(d));
    match endDate
    case Err(e) => Err(e)
    case Ok(ed) => NewDateInterval(if start.Some? then Some(start.value.date) else None, ed)
  }

  /** `_parse_periods`: a single period `P` stands for both ends, `A..B` splits
      at the first `..` and parses each side (the start first). */
  function ParsePeriods(pattern: string): (r: Result<(Option<Period>, Option<Period>)>)
    ensures !Contains(pattern, "..") && ParsePeriod(pattern).Ok? ==>
      r == Ok((ParsePeriod(pattern).value, ParsePeriod(pattern).value))
    ensures r.Ok? ==> ValidPeriod(r.value.0) && ValidPeriod(r.value.1)
    ensures r.Err? ==> r.error == DateFormatError || r.error == DateParseError
    ensures !Contains(pattern, "..") ==>
      (r.Ok? <==> ParsePeriod(pattern).Ok?) && (r.Err? ==> r.error == ParsePeriod(pattern).error)
    ensures Contains(pattern, "..") ==> var parts := SplitOnce(pattern, "..");
      (ParsePeriod(parts[0]).Err? ==> r == Err(ParsePeriod(parts[0]).error)) &&
      (ParsePeriod(parts[0]).Ok? && ParsePeriod(parts[1]).Err? ==> r == Err(ParsePeriod(parts[1]).error)) &&
      (ParsePeriod(parts[0]).Ok? && ParsePeriod(parts[1]).Ok? ==>
         r == Ok((ParsePeriod(parts[0]).value, ParsePeriod(parts[1]).value)))
  {
    var parts := SplitOnce(pattern, "..");
    if |parts| == 1 then
      match ParsePeriod(parts[0])
      case Err(e) => Err(e)
      case Ok(p) => Ok((p, p))
    else
      match ParsePeriod(parts[0])
      case Err(e) => Err(e)
      case Ok(a) =>
        match ParsePeriod(parts[1])
        case Err(e) => Err(e)
        case Ok(b) => Ok((a, b))
  }

  /** The instants a period spans, at its precision. */
  predicate InPeriod(d: Date, p: Period) {
    match p.precision
    case Year => d.year == p.date.year
    case Month => d.year == p.date.year && d.month == p.date.month
    case Day => d == p.date
  }

  /** The interval of a single parsed period holds exactly the dates inside the
      period: its start instant belongs to it and its open end does not. */
  lemma SinglePeriodSpan(p: Period, d: Date)
    requires Valid(p.date) && Aligned(p) && OpenRightEndpoint(p).Ok? && Valid(d)
    ensures FromPeriods(Some(p), Some(p)).Ok?
    ensures IntervalContains(FromPeriods(Some(p), Some(p)).value, d) <==> InPeriod(d, p)
    ensures IntervalContains(FromPeriods(Some(p), Some(p)).value, p.date)
  {
    var iv := FromPeriods(Some(p), Some(p)).value;
    if p.precision == Day {
      NextDayOrdinal(p.date);
      if IntervalContains(iv, d) {
        NextDayIsImmediate(p.date, d);
      }
    }
  }

  /** A date lies before a period's open right endpoint exactly when it lies
      before the period or inside it. */
  lemma BeforeEndOfPeriod(p: Period, d: Date)
    requires Valid(p.date) && Aligned(p) && OpenRightEndpoint(p).Ok? && Valid(d)
    ensures OpenRightEndpoint(p).Ok?
    ensures Before(d, OpenRightEndpoint(p).value) <==> Before(d, p.date) || InPeriod(d, p)
  {
    SinglePeriodSpan(p, d);
  }

  /** Year 9999 still has month and day periods with an endpoint, though its
      year period has none. */
  lemma LastYearPeriods()
    ensures OpenRightEndpoint(Period(Date(9999, 6, 1), Month)) == Ok(Date(9999, 7, 1))
    ensures OpenRightEndpoint(Period(Date(9999, 12, 30), Day)) == Ok(Date(9999, 12, 31))
    ensures OpenRightEndpoint(Period(Date(9999, 12, 1), Month)).Err?
    ensures OpenRightEndpoint(Period(Date(9999, 1, 1), Year)).Err?
  {
  }

  lemma PeriodOfDateSpan(s: string, d: Date)
    requires ParsePeriods(s).Ok? && ParsePeriods(s).value.0.Some?
    requires ParsePeriods(s).value.0 == ParsePeriods(s).value.1
    requires OpenRightEndpoint(ParsePeriods(s).value.0.value).Ok? && Valid(d)
    ensures var p := ParsePeriods(s).value.0.value;
      FromPeriods(Some(p), Some(p)).Ok? &&
      (IntervalContains(FromPeriods(Some(p), Some(p)).value, d) <==> InPeriod(d, p))
  {
    var parts := SplitOnce(s, "..");
    var p := ParsePeriods(s).value.0.value;
    assert Aligned(p);
    SinglePeriodSpan(p, d);
  }

  /** Decimal digit for `0 <= n <= 9`. */
  function Digit(n: int): char
    requires 0 <= n <= 9
  {
    ('0' as int + n) as char
  }

  function Pad2(n: int): string
    requires 0 <= n < 100
  {
    [Digit(n / 10), Digit(n % 10)]
  }

  function Pad4(n: int): string
    requires 0 <= n < 10000
  {
    [Digit(n / 10 / 10 / 10), Digit(n / 10 / 10 % 10), Digit(n / 10 % 10), Digit(n % 10)]
  }

  /** The text of a period in the format its precision parses from (`strftime`
      of the matching entry of `Period.date_formats`). */
  function Render(p: Period): string
    requires Valid(p.date)
  {
    var y := Pad4(p.date.year);
    match p.precision
    case Year => y
    case Month => y + "-" + Pad2(p.date.month)
    case Day => y + "-" + Pad2(p.date.month) + "-" + Pad2(p.date.day)
  }

  lemma YearText(y: int)
    requires MinYear <= y <= MaxYear
    ensures '-' !in Pad4(y) && DashCount(Pad4(y)) == 0
    ensures ParseYear(Pad4(y)) == Some(y)
  {
    var s := Pad4(y);
    assert AllDigits(s);
    FourDigits(s);
    var q1 := y / 10;
    var q2 := q1 / 10;
    assert y == 10 * q1 + y % 10 && q1 == 10 * q2 + q1 % 10 && q2 == 10 * (q2 / 10) + q2 % 10;
    assert '-' !in multiset(s);
  }

  lemma SplitAtFirstDash(a: string, b: string)
    requires '-' !in a
    ensures SplitOnce(a + "-" + b, "-") == [a, b]
  {
    var s := a + "-" + b;
    assert OccursAt("-", s, |a|);
    var parts := SplitOnce(s, "-");
    assert |parts| == 2;
    assert forall j :: 0 <= j < |a| ==> s[j] == a[j] && s[j] != '-';
    assert s[|parts[0]|] == '-';
    assert |parts[0]| == |a|;
    assert s[..|a|] == a && parts[0] == s[..|parts[0]|];
  }

  lemma DashCountConcat(a: string, b: string)
    ensures DashCount(a + b) == DashCount(a) + DashCount(b)
  {
    assert multiset(a + b) == multiset(a) + multiset(b);
  }

  lemma MonthText(m: int)
    requires 1 <= m <= 12
    ensures ParseMonth(Pad2(m)) == Some(m) && '-' !in Pad2(m) && DashCount(Pad2(m)) == 0
  {
    assert '-' !in multiset(Pad2(m));
  }

  lemma DayText(d: int)
    requires 1 <= d <= 31
    ensures ParseDay(Pad2(d)) == Some(d) && '-' !in Pad2(d) && DashCount(Pad2(d)) == 0
  {
    assert '-' !in multiset(Pad2(d));
  }

  lemma MonthTextParts(p: Period)
    requires Valid(p.date) && p.precision == Month
    ensures SplitOnce(Render(p), "-") == [Pad4(p.date.year), Pad2(p.date.month)]
    ensures DashCount(Render(p)) == 1
  {
    var y, m := Pad4(p.date.year), Pad2(p.date.month);
    YearText(p.date.year);
    MonthText(p.date.month);
    SplitAtFirstDash(y, m);
    DashCountConcat(y, "-");
    DashCountConcat(y + "-", m);
  }

  /** The padded fields of a valid first-of-month date read back as that date. */
  lemma MonthFields(d: Date)
    requires Valid(d) && d.day == 1
    ensures MonthDate(Pad4(d.year), Pad2(d.month)) == Some(d)
  {
    YearText(d.year);
    MonthText(d.month);
  }

  lemma RenderMonthRoundTrip(p: Period)
    requires Valid(p.date) && Aligned(p) && p.precision == Month
    ensures ParsePeriod(Render(p)) == Ok(Some(p))
  {
    MonthTextParts(p);
    assert Strptime(Render(p), 1) == MonthDate(Pad4(p.date.year), Pad2(p.date.month));
    MonthFields(p.date);
  }

  /** A text with two dashes splits at the first, then its tail at the second. */
  lemma SplitTwoDashes(a: string, b: string, c: string)
    requires '-' !in a && '-' !in b
    ensures var parts := SplitOnce(a + "-" + b + "-" + c, "-");
      parts == [a, b + "-" + c] && SplitOnce(parts[1], "-") == [b, c]
  {
    assert a + "-" + b + "-" + c == a + "-" + (b + "-" + c);
    SplitAtFirstDash(a, b + "-" + c);
    SplitAtFirstDash(b, c);
  }

  lemma CountTwoDashes(a: string, b: string, c: string)
    requires DashCount(a) == 0 && DashCount(b) == 0 && DashCount(c) == 0
    ensures DashCount(a + "-" + b + "-" + c) == 2
  {
    DashCountConcat(a, "-");
    DashCountConcat(a + "-", b);
    DashCountConcat(a + "-" + b, "-");
    DashCountConcat(a + "-" + b + "-", c);
  }

  lemma DayTextParts(p: Period)
    requires Valid(p.date) && p.precision == Day
    ensures var parts := SplitOnce(Render(p), "-");
      |parts| == 2 && parts[0] == Pad4(p.date.year) &&
      SplitOnce(parts[1], "-") == [Pad2(p.date.month), Pad2(p.date.day)]
    ensures DashCount(Render(p)) == 2
  {
    YearText(p.date.year);
    MonthText(p.date.month);
    DayText(p.date.day);
    SplitTwoDashes(Pad4(p.date.year), Pad2(p.date.month), Pad2(p.date.day));
    CountTwoDashes(Pad4(p.date.year), Pad2(p.date.month), Pad2(p.date.day));
  }

  lemma DayStrptime(p: Period)
    requires Valid(p.date) && p.precision == Day
    ensures Strptime(Render(p), 2) == Some(p.date)
  {
    var yt, mt, dt := Pad4(p.date.year), Pad2(p.date.month), Pad2(p.date.day);
    DayTextParts(p);
    assert Strptime(Render(p), 2) == DayDate(yt, mt, dt);
    DayFields(p.date);
  }

  /** The padded fields of a valid date read back as that date. */
  lemma DayFields(d: Date)
    requires Valid(d)
    ensures DayDate(Pad4(d.year), Pad2(d.month), Pad2(d.day)) == Some(d)
  {
    YearText(d.year);
    MonthText(d.month);
    DayText(d.day);
  }

  lemma RenderDayRoundTrip(p: Period)
    requires Valid(p.date) && p.precision == Day
    ensures ParsePeriod(Render(p)) == Ok(Some(p))
  {
    DayTextParts(p);
    DayStrptime(p);
  }

  /** `Period.parse` reads back the text of every aligned period. */
  lemma ParseRenderRoundTrip(p: Period)
    requires Valid(p.date) && Aligned(p)
    ensures ParsePeriod(Render(p)) == Ok(Some(p))
  {
    match p.precision
    case Year => YearText(p.date.year);
    case Month => RenderMonthRoundTrip(p);
    case Day => RenderDayRoundTrip(p);
  }
}
