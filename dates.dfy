/**
 * Calendar dates and the explicit DateTime.TryParseExact patterns of the
 * statement importer ("yyyy-MM-dd", "yyyy/MM/dd", "dd/MM/yyyy", "MM/dd/yyyy",
 * "dd-MM-yyyy", "MM-dd-yyyy", invariant culture).
 */
module Dates {
  import opened Wrappers
  import opened Numbers
  import opened Text

  /** A DateTime reduced to its calendar date. */
  datatype Date = Date(year: int, month: int, day: int)

  predicate IsLeapYear(y: int) {
    y % 4 == 0 && (y % 100 != 0 || y % 400 == 0)
  }

  function DaysInMonth(y: int, m: int): (n: int)
    requires 1 <= m <= 12
    ensures 28 <= n <= 31
  {
    if m == 2 then (if IsLeapYear(y) then 29 else 28)
    else if m == 4 || m == 6 || m == 9 || m == 11 then 30
    else 31
  }

  /** A date DateTime can hold: years 1 to 9999 of the proleptic Gregorian calendar. */
  predicate Valid(d: Date) {
    1 <= d.year <= 9999 && 1 <= d.month <= 12 && 1 <= d.day <= DaysInMonth(d.year, d.month)
  }

  /** default(DateTime): 0001-01-01. */
  const DefaultDate: Date := Date(1, 1, 1)

  /** Chronological order: `a` is strictly earlier than `b`. */
  predicate Before(a: Date, b: Date) {
    a.year < b.year
    || (a.year == b.year && a.month < b.month)
    || (a.year == b.year && a.month == b.month && a.day < b.day)
  }

  lemma BeforeIsStrictTotalOrder(a: Date, b: Date, c: Date)
    ensures !Before(a, a)
    ensures Before(a, b) && Before(b, c) ==> Before(a, c)
    ensures a != b ==> Before(a, b) || Before(b, a)
  {
  }

  /** The first instant of the month of `d` (new DateTime(year, month, 1)). */
  function StartOfMonth(d: Date): Date {
    Date(d.year, d.month, 1)
  }

  /** DateTime.AddMonths(1) on the first day of a month. */
  function StartOfNextMonth(d: Date): (r: Date)
    requires 1 <= d.month <= 12
    ensures Before(StartOfMonth(d), r)
  {
    if d.month == 12 then Date(d.year + 1, 1, 1) else Date(d.year, d.month + 1, 1)
  }

  /** `d` lies in [start of month, start of next month) of `reference`, which is being in that month. */
  lemma MonthWindow(d: Date, reference: Date)
    requires Valid(d) && Valid(reference)
    ensures (!Before(d, StartOfMonth(reference)) && Before(d, StartOfNextMonth(reference)))
            <==> (d.year == reference.year && d.month == reference.month)
  {
  }

  // ---------------------------------------------------------------- patterns

  datatype FieldOrder = YearMonthDay | DayMonthYear | MonthDayYear

  /** A custom format: the order of the fields and the one separator between them. */
  datatype Pattern = Pattern(order: FieldOrder, separator: char)

  /** The formats tried, in this order. */
  const SupportedDateFormats: seq<Pattern> := [
    Pattern(YearMonthDay, '-'),
    Pattern(YearMonthDay, '/'),
    Pattern(DayMonthYear, '/'),
    Pattern(MonthDayYear, '/'),
    Pattern(DayMonthYear, '-'),
    Pattern(MonthDayYear, '-')
  ]

  /** `d` written in pattern `p`: four-digit year, two-digit month and day. */
  function Format(d: Date, p: Pattern): (s: string)
    requires Valid(d)
    ensures |s| == 10
  {
    var y := FixedDigits(d.year, 4);
    var m := FixedDigits(d.month, 2);
    var dd := FixedDigits(d.day, 2);
    var sep := [p.separator];
    match p.order
    case YearMonthDay => y + sep + m + sep + dd
    case DayMonthYear => dd + sep + m + sep + y
    case MonthDayYear => m + sep + dd + sep + y
  }

  /** Positions of the two separators in a ten-character date of this order. */
  function SeparatorPositions(order: FieldOrder): (nat, nat) {
    if order == YearMonthDay then (4, 7) else (2, 5)
  }

  /** The date whose fields, in the order of the pattern, have these values. */
  function Assemble(order: FieldOrder, a: int, b: int, c: int): Date {
    match order
    case YearMonthDay => Date(a, b, c)
    case DayMonthYear => Date(c, b, a)
    case MonthDayYear => Date(c, a, b)
  }

  /** Ten characters: digits with the pattern's separator at the order's two positions. */
  predicate ShapedLike(s: string, p: Pattern) {
    var (i, j) := SeparatorPositions(p.order);
    |s| == 10 && s[i] == p.separator && s[j] == p.separator
    && AllDigits(s[..i]) && AllDigits(s[i + 1..j]) && AllDigits(s[j + 1..])
  }

  /** The date a well-shaped text spells, valid or not. */
  function Spelled(s: string, p: Pattern): Date
    requires ShapedLike(s, p)
  {
    var (i, j) := SeparatorPositions(p.order);
    Assemble(p.order, DigitsValue(s[..i]), DigitsValue(s[i + 1..j]), DigitsValue(s[j + 1..]))
  }

  /**
   * DateTime.TryParseExact with one pattern: "yyyy" takes exactly four digits,
   * "MM" and "dd" exactly two, the separators must match, and the date must exist.
   * Whatever parses is exactly what Format writes for the parsed date.
   */
  function ParseExact(s: string, p: Pattern): (r: Option<Date>)
    ensures r.Some? ==> Valid(r.value) && Format(r.value, p) == s
  {
    if !ShapedLike(s, p) || !Valid(Spelled(s, p)) then None
    else
      SpelledFormats(s, p);
      Some(Spelled(s, p))
  }

  /** A well-shaped text spelling a valid date is what Format writes for that date. */
  lemma SpelledFormats(s: string, p: Pattern)
    requires ShapedLike(s, p) && Valid(Spelled(s, p))
    ensures Format(Spelled(s, p), p) == s
  {
    var (i, j) := SeparatorPositions(p.order);
    var first, second, third := s[..i], s[i + 1..j], s[j + 1..];
    FixedDigitsOfValue(first);
    FixedDigitsOfValue(second);
    FixedDigitsOfValue(third);
    assert s == first + [s[i]] + second + [s[j]] + third;
  }

  /** Formatting a valid date and parsing it back with the same pattern gives the date. */
  lemma {:induction false} FormatParseRoundTrip(d: Date, p: Pattern)
    requires Valid(d)
    ensures ParseExact(Format(d, p), p) == Some(d)
  {
    var s := Format(d, p);
    var y := FixedDigits(d.year, 4);
    var m := FixedDigits(d.month, 2);
    var dd := FixedDigits(d.day, 2);
    var sep := [p.separator];
    match p.order
    case YearMonthDay =>
      assert s[..4] == y && s[5..7] == m && s[8..] == dd;
    case DayMonthYear =>
      assert s[..2] == dd && s[3..5] == m && s[6..] == y;
    case MonthDayYear =>
      assert s[..2] == m && s[3..5] == dd && s[6..] == y;
  }

  /** Text written with one layout fails a pattern with another layout or separator. */
  lemma {:induction false} OtherLayoutFails(d: Date, p: Pattern, q: Pattern)
    requires Valid(d)
    requires (p.order == YearMonthDay) != (q.order == YearMonthDay) || p.separator != q.separator
    requires !IsDigit(p.separator)
    ensures ParseExact(Format(d, p), q).None?
  {
    var s := Format(d, p);
    var y := FixedDigits(d.year, 4);
    var m := FixedDigits(d.month, 2);
    var dd := FixedDigits(d.day, 2);
    var (i, _) := SeparatorPositions(p.order);
    var (k, _) := SeparatorPositions(q.order);
    assert s[i] == p.separator;
    if i != k {
      match p.order
      case YearMonthDay => assert s[2] == y[2];
      case DayMonthYear => assert s[4] == m[1];
      case MonthDayYear => assert s[4] == dd[1];
    }
  }

  /** The first pattern of the list that accepts `s`, if any. */
  function FirstMatch(s: string, patterns: seq<Pattern>): (r: Option<Date>)
    ensures r.Some? ==> Valid(r.value)
  {
    if patterns == [] then None
    else
      match ParseExact(s, patterns[0])
      case Some(d) => Some(d)
      case None => FirstMatch(s, patterns[1..])
  }

  /** The result is that of the first accepting pattern: patterns are tried in order. */
  lemma {:induction false} FirstMatchIsFirstAccepting(s: string, patterns: seq<Pattern>, k: nat)
    requires k < |patterns| && ParseExact(s, patterns[k]).Some?
    requires forall j :: 0 <= j < k ==> ParseExact(s, patterns[j]).None?
    ensures FirstMatch(s, patterns) == ParseExact(s, patterns[k])
  {
    if k > 0 {
      assert ParseExact(s, patterns[0]).None?;
      assert forall j :: 0 <= j < k - 1 ==> ParseExact(s, patterns[1..][j]).None? by {
        forall j | 0 <= j < k - 1 ensures ParseExact(s, patterns[1..][j]).None? {
          assert patterns[1..][j] == patterns[j + 1];
        }
      }
      FirstMatchIsFirstAccepting(s, patterns[1..], k - 1);
    }
  }

  /** Nothing matches exactly when no pattern of the list accepts the text. */
  lemma {:induction false} FirstMatchNone(s: string, patterns: seq<Pattern>)
    ensures FirstMatch(s, patterns).None? <==> forall k :: 0 <= k < |patterns| ==> ParseExact(s, patterns[k]).None?
  {
    if patterns != [] {
      FirstMatchNone(s, patterns[1..]);
      assert forall k :: 1 <= k < |patterns| ==> patterns[k] == patterns[1..][k - 1];
    }
  }

  /**
   * TryParseDate: the explicit patterns in order, and only if none of them
   * accepts the text, the culture-dependent general parses, which are not
   * modelled and come in as `fallback`. DateTimeStyles.AllowWhiteSpaces lets
   * the patterns ignore white space at either end of the text.
   */
  function TryParseDate(s: string, fallback: string -> Option<Date>): (r: Option<Date>)
    ensures (forall k :: 0 <= k < |SupportedDateFormats| ==> ParseExact(Trim(s), SupportedDateFormats[k]).None?)
            ==> r == fallback(s)
    ensures (exists k :: 0 <= k < |SupportedDateFormats| && ParseExact(Trim(s), SupportedDateFormats[k]).Some?)
            ==> r.Some? && Valid(r.value)
  {
    var t := Trim(s);
    FirstMatchNone(t, SupportedDateFormats);
    match FirstMatch(t, SupportedDateFormats)
    case Some(d) => Some(d)
    case None => fallback(s)
  }

  /**
   * White space around a date the patterns accept does not matter: the padded
   * text reads as the bare one, whatever the culture fallbacks would say.
   */
  lemma PaddedDateIgnored(s: string, fallback: string -> Option<Date>, other: string -> Option<Date>)
    requires exists k :: 0 <= k < |SupportedDateFormats| && ParseExact(Trim(s), SupportedDateFormats[k]).Some?
    ensures TryParseDate(s, fallback) == TryParseDate(Trim(s), other)
  {
    var t := Trim(s);
    TrimUnpadded(t);
    FirstMatchNone(t, SupportedDateFormats);
    assert FirstMatch(t, SupportedDateFormats).Some?;
    assert TryParseDate(s, fallback) == FirstMatch(t, SupportedDateFormats);
    assert TryParseDate(t, other) == FirstMatch(t, SupportedDateFormats);
  }

  /** No date text has white space at either end. */
  lemma FormatUnpadded(d: Date, p: Pattern)
    requires Valid(d)
    ensures Trim(Format(d, p)) == Format(d, p)
  {
    var s := Format(d, p);
    assert IsDigit(s[0]) && IsDigit(s[|s| - 1]);
    TrimUnpadded(s);
  }

  /**
   * The listed patterns round-trip through TryParseDate, except where the order
   * of the list decides: text written month-first with a day of at most 12 is
   * also a valid day-first date, and "dd/MM/yyyy" / "dd-MM-yyyy" come first,
   * so the day and month come back swapped.
   */
  lemma ListedPatternRoundTrip(d: Date, k: nat, fallback: string -> Option<Date>)
    requires Valid(d) && k < |SupportedDateFormats|
    ensures var p := SupportedDateFormats[k];
            TryParseDate(Format(d, p), fallback)
            == if p.order == MonthDayYear && d.day <= 12 then Some(Date(d.year, d.day, d.month)) else Some(d)
  {
    FormatUnpadded(d, SupportedDateFormats[k]);
    if k == 3 || k == 5 {
      MonthFirstRoundTrip(d, k);
    } else {
      NonMonthFirstRoundTrip(d, k);
    }
  }

  /** Year-first and day-first text are accepted by their own pattern before any other. */
  lemma NonMonthFirstRoundTrip(d: Date, k: nat)
    requires Valid(d) && k < |SupportedDateFormats| && k != 3 && k != 5
    ensures FirstMatch(Format(d, SupportedDateFormats[k]), SupportedDateFormats) == Some(d)
  {
    var f := SupportedDateFormats;
    FormatParseRoundTrip(d, f[k]);
    NonMonthFirstEarlierLayoutsFail(d, k);
    FirstMatchIsFirstAccepting(Format(d, f[k]), f, k);
  }

  lemma NonMonthFirstEarlierLayoutsFail(d: Date, k: nat)
    requires Valid(d) && k < |SupportedDateFormats| && k != 3 && k != 5
    ensures forall j :: 0 <= j < k ==> ParseExact(Format(d, SupportedDateFormats[k]), SupportedDateFormats[j]).None?
  {
    var f := SupportedDateFormats;
    if k >= 1 { OtherLayoutFails(d, f[k], f[0]); }
    if k >= 2 { OtherLayoutFails(d, f[k], f[1]); }
    if k == 4 {
      OtherLayoutFails(d, f[k], f[2]);
      OtherLayoutFails(d, f[k], f[3]);
    }
  }

  /** Month-first text goes to the day-first pattern just before it whenever the day could be a month. */
  lemma MonthFirstRoundTrip(d: Date, k: nat)
    requires Valid(d) && (k == 3 || k == 5)
    ensures FirstMatch(Format(d, SupportedDateFormats[k]), SupportedDateFormats)
            == if d.day <= 12 then Some(Date(d.year, d.day, d.month)) else Some(d)
  {
    var f := SupportedDateFormats;
    var s := Format(d, f[k]);
    MonthFirstEarlierLayoutsFail(d, k);
    MonthFirstText(d, f[k].separator);
    assert f[k - 1] == Pattern(DayMonthYear, f[k].separator);
    if d.day <= 12 {
      FirstMatchIsFirstAccepting(s, f, k - 1);
    } else {
      FormatParseRoundTrip(d, f[k]);
      FirstMatchIsFirstAccepting(s, f, k);
    }
  }

  /** Month-first text fails every pattern before the day-first one with its separator. */
  lemma MonthFirstEarlierLayoutsFail(d: Date, k: nat)
    requires Valid(d) && (k == 3 || k == 5)
    ensures forall j :: 0 <= j < k - 1 ==> ParseExact(Format(d, SupportedDateFormats[k]), SupportedDateFormats[j]).None?
  {
    var f := SupportedDateFormats;
    OtherLayoutFails(d, f[k], f[0]);
    OtherLayoutFails(d, f[k], f[1]);
    if k == 5 {
      OtherLayoutFails(d, f[k], f[2]);
      OtherLayoutFails(d, f[k], f[3]);
    }
  }

  /** Month-first text read day-first: the swapped date when the day is at most 12, nothing otherwise. */
  lemma MonthFirstText(d: Date, sep: char)
    requires Valid(d) && !IsDigit(sep)
    ensures var s := Format(d, Pattern(MonthDayYear, sep));
            ParseExact(s, Pattern(DayMonthYear, sep))
            == if d.day <= 12 then Some(Date(d.year, d.day, d.month)) else None
  {
    var s := Format(d, Pattern(MonthDayYear, sep));
    var q := Pattern(DayMonthYear, sep);
    var swapped := Date(d.year, d.day, d.month);
    if d.day <= 12 {
      assert Format(swapped, q) == s;
      FormatParseRoundTrip(swapped, q);
    } else {
      assert s[3..5] == FixedDigits(d.day, 2);
    }
  }
}
