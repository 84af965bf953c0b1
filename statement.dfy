/**
 * Statement import (Controllers/StatementController.cs): delimiter sniffing,
 * the row parser with its ordered checks and exact error texts, and the
 * upload loop with its batch policy (header skipped, rows numbered from 2,
 * blank rows skipped, fail-fast, all-or-nothing, retraining after a save).
 */
module Statement {
  import opened Wrappers
  import opened Text
  import opened Numbers
  import opened Dates
  import opened Models
  import opened Categorization
  import Transactions

  // ------------------------------------------------------------ delimiters

  /** The column separators tried, in priority order. */
  const PossibleDelimiters: seq<char> := [',', ';', '\t', '|']

  /** The first candidate that occurs anywhere in `line`. */
  function FirstPresent(candidates: seq<char>, line: string): (d: Option<char>)
    ensures d.None? <==> forall k :: 0 <= k < |candidates| ==> candidates[k] !in line
    ensures d.Some? ==> d.value in candidates && d.value in line
  {
    if candidates == [] then None
    else if candidates[0] in line then Some(candidates[0])
    else
      var rest := FirstPresent(candidates[1..], line);
      assert forall k :: 1 <= k < |candidates| ==> candidates[k] == candidates[1..][k - 1];
      rest
  }

  /** The candidate chosen is the earliest one present, however often the others occur. */
  lemma {:induction false} FirstPresentIsEarliest(candidates: seq<char>, line: string, k: nat)
    requires k < |candidates| && candidates[k] in line
    requires forall j :: 0 <= j < k ==> candidates[j] !in line
    ensures FirstPresent(candidates, line) == Some(candidates[k])
  {
    if k > 0 {
      assert candidates[0] !in line;
      FirstPresentIsEarliest(candidates[1..], line, k - 1);
    }
  }

  /** DetectDelimiter: the first of ',', ';', tab and '|' that the line contains. */
  method DetectDelimiter(line: string) returns (d: Option<char>)
    ensures d == FirstPresent(PossibleDelimiters, line)
  {
    var i := 0;
    while i < |PossibleDelimiters|
      invariant 0 <= i <= |PossibleDelimiters|
      invariant FirstPresent(PossibleDelimiters[i..], line) == FirstPresent(PossibleDelimiters, line)
    {
      var delimiter := PossibleDelimiters[i];
      assert PossibleDelimiters[i..][0] == delimiter && PossibleDelimiters[i..][1..] == PossibleDelimiters[i + 1..];
      if delimiter in line {
        return Some(delimiter);
      }
      i := i + 1;
    }
    return None;
  }

  // ------------------------------------------------------------- row parser

  /** Why one row was rejected. */
  datatype RowError = EmptyRow | NoSeparator | TooFewColumns | InvalidDate(dateText: string) | InvalidAmount(amountText: string)

  /** The error text the row parser reports. */
  function Message(e: RowError): string {
    match e
    case EmptyRow => "Empty row."
    case NoSeparator => "Unable to detect a column separator."
    case TooFewColumns => "Expected at least three columns (date, description, amount)."
    case InvalidDate(t) => "Invalid date '" + t + "'."
    case InvalidAmount(t) => "Invalid amount '" + t + "'."
  }

  /** What a good row yields. */
  datatype ParsedRow = ParsedRow(date: Date, description: string, amount: real)

  /**
   * The culture-dependent parses tried after the explicit ones fail: the two
   * general DateTime.TryParse calls and the CurrentCulture decimal.TryParse.
   */
  datatype Fallbacks = Fallbacks(date: string -> Option<Date>, amount: string -> Option<real>)

  /** The character the cell clean-up strips after white space. */
  predicate IsQuote(c: char) {
    c == '"'
  }

  /** A cell: white space trimmed, then every leading and trailing '"' removed. */
  function Cell(part: string): (c: string)
    ensures Unquoted(c)
  {
    var c := TrimChars(Trim(part), IsQuote);
    assert c == [] || (!IsQuote(c[0]) && !IsQuote(c[|c| - 1]));
    c
  }

  /**
   * What Cell keeps of a part: Trim() removes a white-space prefix and suffix,
   * then Trim('"') removes a quote prefix and suffix of what is left; nothing
   * else is dropped and the order is kept.
   */
  lemma CellSlice(part: string)
    ensures var t := Trim(part);
            && TrimmedOf(t, part, |part| - |TrimStart(part, IsWhiteSpace)|, IsWhiteSpace)
            && TrimmedOf(Cell(part), t, |t| - |TrimStart(t, IsQuote)|, IsQuote)
  {
    TrimCharsSlice(part, IsWhiteSpace);
    TrimCharsSlice(Trim(part), IsQuote);
  }

  /**
   * A quoted field with white space around the quotes, as in `2024-01-15, "Coffee" ,-5.00`,
   * gives the text between the quotes.
   */
  lemma QuotedCell(lead: string, x: string, trail: string)
    requires forall k :: 0 <= k < |lead| ==> IsWhiteSpace(lead[k])
    requires forall k :: 0 <= k < |trail| ==> IsWhiteSpace(trail[k])
    requires x != [] && Unquoted(x)
    ensures Cell(lead + ("\"" + x + "\"") + trail) == x
  {
    var q := "\"" + x + "\"";
    assert q[0] == '"' && q[|q| - 1] == '"';
    TrimPadding(lead, q, trail, IsWhiteSpace);
    TrimPadding("\"", x, "\"", IsQuote);
  }

  /** Neither end is '"'. */
  predicate Unquoted(text: string) {
    text == [] || (text[0] != '"' && text[|text| - 1] != '"')
  }

  /** The cells of a line split on one delimiter, empty cells kept. */
  function Cells(line: string, delimiter: char): (cells: seq<string>)
    ensures |cells| == |Split(line, {delimiter})|
    ensures forall k :: 0 <= k < |cells| ==> Unquoted(cells[k])
  {
    var parts := Split(line, {delimiter});
    seq(|parts|, k requires 0 <= k < |parts| => Cell(parts[k]))
  }

  /**
   * TryParseDecimal: the invariant-culture parse decides when it succeeds;
   * only otherwise is the culture fallback asked.
   */
  function TryParseDecimal(text: string, fallback: string -> Option<real>): (r: Option<real>)
    ensures ParseDecimalInvariant(text).Some? ==> r == ParseDecimalInvariant(text)
    ensures ParseDecimalInvariant(text).None? ==> r == fallback(text)
  {
    match ParseDecimalInvariant(text)
    case Some(v) => Some(v)
    case None => fallback(text)
  }

  /**
   * An amount cell of digits, or of digits, a point and digits, reads as its
   * decimal value, and with a leading '-' as the negated value; the culture
   * fallback is never asked for these.
   */
  lemma AmountCellRoundTrip(whole: string, fraction: string, fallback: string -> Option<real>)
    requires AllDigits(whole) && AllDigits(fraction) && whole != []
    ensures TryParseDecimal(whole, fallback) == Some(DigitsValue(whole) as real)
    ensures TryParseDecimal(whole + "." + fraction, fallback) == Some(DigitsValue(whole) as real + Fraction(fraction))
    ensures TryParseDecimal("-" + (whole + "." + fraction), fallback) == Some(-(DigitsValue(whole) as real + Fraction(fraction)))
  {
    WholeRoundTrip(whole);
    DecimalRoundTrip(whole, fraction);
    NegativeDecimalRoundTrip(whole, fraction);
  }

  /**
   * A leading '-' on an amount the invariant parse reads as `v` makes the row
   * parser read `-v`, whatever the culture fallback would say.
   */
  lemma NegatedAmountCell(s: string, v: real, fallback: string -> Option<real>)
    requires s != [] && s[0] != '-' && s[0] != '+'
    requires ParseDecimalInvariant(s) == Some(v)
    ensures TryParseDecimal(s, fallback) == Some(v)
    ensures TryParseDecimal("-" + s, fallback) == Some(-v)
  {
    NegatedAmount(s);
  }

  /** The last two checks: the date from cell 0 first, then the amount from cell 2; cell 1 is the description. */
  function ParseCells(cells: seq<string>, fb: Fallbacks): (r: Result<ParsedRow, RowError>)
    requires |cells| >= 3
    ensures r.Success? <==> TryParseDate(cells[0], fb.date).Some? && TryParseDecimal(cells[2], fb.amount).Some?
    ensures r.Success? ==> r.value == ParsedRow(TryParseDate(cells[0], fb.date).value, cells[1], TryParseDecimal(cells[2], fb.amount).value)
    ensures r.Failure? ==> r.error == if TryParseDate(cells[0], fb.date).None? then InvalidDate(cells[0]) else InvalidAmount(cells[2])
  {
    match TryParseDate(cells[0], fb.date)
    case None => Failure(InvalidDate(cells[0]))
    case Some(date) =>
      match TryParseDecimal(cells[2], fb.amount)
      case None => Failure(InvalidAmount(cells[2]))
      case Some(amount) => Success(ParsedRow(date, cells[1], amount))
  }

  /** The first three checks on a trimmed line: not empty, a delimiter found, at least three cells. */
  function RowCells(line: string): (r: Result<seq<string>, RowError>)
    ensures r == Failure(EmptyRow) <==> line == []
    ensures r == Failure(NoSeparator) <==> line != [] && forall k :: 0 <= k < |PossibleDelimiters| ==> PossibleDelimiters[k] !in line
    ensures r.Failure? ==> r.error in {EmptyRow, NoSeparator, TooFewColumns}
    ensures r == Failure(TooFewColumns)
            <==> && line != [] && FirstPresent(PossibleDelimiters, line).Some?
                 && |Split(line, {FirstPresent(PossibleDelimiters, line).value})| < 3
    ensures r.Success? ==> |r.value| >= 3 && forall k :: 0 <= k < |r.value| ==> Unquoted(r.value[k])
    ensures r.Success? ==>
              && FirstPresent(PossibleDelimiters, line).Some?
              && r.value == Cells(line, FirstPresent(PossibleDelimiters, line).value)
  {
    if line == [] then Failure(EmptyRow)
    else
      match FirstPresent(PossibleDelimiters, line)
      case None => Failure(NoSeparator)
      case Some(delimiter) =>
        var cells := Cells(line, delimiter);
        if |cells| < 3 then Failure(TooFewColumns) else Success(cells)
  }

  /**
   * TryParseTransactionRow: trim, find a delimiter, split into at least three
   * cells, then the date (cell 0) before the amount (cell 2); cell 1 is the
   * description and further cells are ignored.
   */
  function TryParseTransactionRow(rawLine: string, fb: Fallbacks): (r: Result<ParsedRow, RowError>)
    ensures r == Failure(EmptyRow) <==> IsBlank(rawLine)
    ensures r.Success? ==> Unquoted(r.value.description)
  {
    match RowCells(Trim(rawLine))
    case Failure(e) => Failure(e)
    case Success(cells) => ParseCells(cells, fb)
  }

  /** The separator message is reported exactly for non-blank lines with none of the four delimiters. */
  lemma NoSeparatorExactlyWhenNoDelimiter(rawLine: string, fb: Fallbacks)
    ensures TryParseTransactionRow(rawLine, fb) == Failure(NoSeparator)
            <==> !IsBlank(rawLine) && forall k :: 0 <= k < |PossibleDelimiters| ==> PossibleDelimiters[k] !in Trim(rawLine)
  {
  }

  /** A cell with nothing to strip at either end: no white space and no '"'. */
  predicate Clean(cell: string) {
    cell == [] || (!IsWhiteSpace(cell[0]) && cell[0] != '"' && !IsWhiteSpace(cell[|cell| - 1]) && cell[|cell| - 1] != '"')
  }

  lemma CleanCell(cell: string)
    requires Clean(cell)
    ensures Cell(cell) == cell
  {
    TrimCharsUnchanged(cell, IsWhiteSpace);
    TrimCharsUnchanged(cell, IsQuote);
  }

  /** A join of clean cells whose outer cells are not empty has no white space to trim. */
  lemma JoinOfCleanIsTrimmed(cells: seq<string>, d: char)
    requires |cells| >= 1 && cells[0] != [] && cells[|cells| - 1] != []
    requires Clean(cells[0]) && Clean(cells[|cells| - 1])
    ensures Trim(Join(cells, d)) == Join(cells, d)
  {
    JoinEnds(cells, d);
    JoinStarts(cells, d);
    TrimCharsUnchanged(Join(cells, d), IsWhiteSpace);
  }

  /** The delimiter joining three or more cells is detected when no earlier candidate occurs in them. */
  lemma JoinDelimiterDetected(cells: seq<string>, k: nat)
    requires |cells| >= 2 && k < |PossibleDelimiters|
    requires forall i, j :: 0 <= i < |cells| && 0 <= j < k ==> PossibleDelimiters[j] !in cells[i]
    ensures FirstPresent(PossibleDelimiters, Join(cells, PossibleDelimiters[k])) == Some(PossibleDelimiters[k])
  {
    var d := PossibleDelimiters[k];
    var line := Join(cells, d);
    forall j | 0 <= j < k ensures PossibleDelimiters[j] !in line {
      NotInJoin(cells, d, PossibleDelimiters[j]);
    }
    JoinContainsSeparator(cells, d);
    FirstPresentIsEarliest(PossibleDelimiters, line, k);
  }

  /** Splitting a join of clean, delimiter-free cells and cleaning each part gives the cells back. */
  lemma CellsOfJoin(cells: seq<string>, d: char)
    requires |cells| >= 1
    requires forall i :: 0 <= i < |cells| ==> Clean(cells[i]) && d !in cells[i]
    ensures Cells(Join(cells, d), d) == cells
  {
    JoinSplit(cells, d);
    forall i | 0 <= i < |cells| ensures Cells(Join(cells, d), d)[i] == cells[i] {
      CleanCell(cells[i]);
    }
  }

  /**
   * A row written as clean cells joined by a delimiter that no cell contains
   * (nor any delimiter of higher priority) reads back as those cells: what
   * happens is decided by cells 0 to 2 alone (the date from cell 0 checked
   * first, the description cell 1, the amount from cell 2), and cells after
   * the third are ignored.
   */
  lemma RowOfCells(cells: seq<string>, k: nat, fb: Fallbacks)
    requires |cells| >= 3 && k < |PossibleDelimiters|
    requires cells[0] != [] && cells[|cells| - 1] != []
    requires forall i :: 0 <= i < |cells| ==> Clean(cells[i])
    requires forall i, j :: 0 <= i < |cells| && 0 <= j <= k ==> PossibleDelimiters[j] !in cells[i]
    ensures TryParseTransactionRow(Join(cells, PossibleDelimiters[k]), fb) == ParseCells(cells, fb)
  {
    var d := PossibleDelimiters[k];
    JoinOfCleanIsTrimmed(cells, d);
    JoinDelimiterDetected(cells, k);
    CellsOfJoin(cells, d);
  }

  /** The join ends with the last part's last character. */
  lemma {:induction false} JoinEnds(parts: seq<string>, sep: char)
    requires |parts| >= 1 && parts[|parts| - 1] != []
    ensures var s := Join(parts, sep); s != [] && s[|s| - 1] == parts[|parts| - 1][|parts[|parts| - 1]| - 1]
  {
    if |parts| > 1 {
      JoinEnds(parts[1..], sep);
    }
  }

  /** The join starts with the first part when that part is not empty. */
  lemma JoinStarts(parts: seq<string>, sep: char)
    requires |parts| >= 1 && parts[0] != []
    ensures var s := Join(parts, sep); s != [] && s[0] == parts[0][0]
  {
  }

  lemma JoinContainsSeparator(parts: seq<string>, sep: char)
    requires |parts| >= 2
    ensures sep in Join(parts, sep)
  {
    var s := Join(parts, sep);
    assert s == parts[0] + [sep] + Join(parts[1..], sep);
    assert s[|parts[0]|] == sep;
  }

  // ---------------------------------------------------------------- upload

  /** Why an upload was refused. */
  datatype UploadError = NoRows | NoTransactions | RowFailure(row: nat, reason: RowError)

  /** The text of the BadRequest the upload returns. */
  function UploadMessage(e: UploadError): string {
    match e
    case NoRows => "The uploaded file does not contain any rows to import."
    case NoTransactions => "No transactions could be parsed from the uploaded statement."
    case RowFailure(row, reason) => "Row " + NatToString(row) + ": " + Message(reason)
  }

  /** A row parser: what the upload loop asks of each non-blank data line. */
  type RowParser = string -> Result<ParsedRow, RowError>

  /** The statement's row parser for the given culture fallbacks. */
  function StatementRows(fb: Fallbacks): (parse: RowParser)
    ensures forall line :: parse(line) == TryParseTransactionRow(line, fb)
  {
    line => TryParseTransactionRow(line, fb)
  }

  /**
   * The data lines from position `i` on (0-based among the non-empty lines),
   * in order: white-space-only lines are skipped, the first line that does
   * not parse stops everything and is reported as row `i + 1`, and otherwise
   * the parsed rows are collected.
   */
  function DataRows(rows: seq<string>, i: nat, parse: RowParser): (r: Result<seq<ParsedRow>, UploadError>)
    requires 1 <= i <= |rows|
    ensures r.Failure? ==> r.error.RowFailure? && i + 1 <= r.error.row <= |rows|
    ensures r.Success? ==> |r.value| <= |rows| - i
    decreases |rows| - i
  {
    if i == |rows| then Success([])
    else if IsBlank(rows[i]) then DataRows(rows, i + 1, parse)
    else
      match parse(rows[i])
      case Failure(e) => Failure(RowFailure(i + 1, e))
      case Success(p) => Prepend([p], DataRows(rows, i + 1, parse))
  }

  /** One step of the row loop. */
  lemma DataRowsStep(rows: seq<string>, i: nat, parse: RowParser)
    requires 1 <= i < |rows|
    ensures IsBlank(rows[i]) ==> DataRows(rows, i, parse) == DataRows(rows, i + 1, parse)
    ensures !IsBlank(rows[i]) && parse(rows[i]).Failure?
            ==> DataRows(rows, i, parse) == Failure(RowFailure(i + 1, parse(rows[i]).error))
    ensures !IsBlank(rows[i]) && parse(rows[i]).Success?
            ==> DataRows(rows, i, parse) == Prepend([parse(rows[i]).value], DataRows(rows, i + 1, parse))
  {
  }

  function Prepend(ps: seq<ParsedRow>, r: Result<seq<ParsedRow>, UploadError>): Result<seq<ParsedRow>, UploadError> {
    match r
    case Success(rest) => Success(ps + rest)
    case Failure(e) => Failure(e)
  }

  /**
   * What an upload of `contents` does, apart from storing: the rows to store
   * or the reason for refusing. Lines are the CR/LF split with empty entries
   * removed; the first is the header.
   */
  function ParseStatement(contents: string, fb: Fallbacks): (r: Result<seq<ParsedRow>, UploadError>)
    ensures r == Failure(NoRows) <==> |SplitLines(contents)| <= 1
    ensures r.Success? ==> r.value != [] && |r.value| < |SplitLines(contents)|
    ensures r.Failure? && r.error.RowFailure? ==> 2 <= r.error.row <= |SplitLines(contents)|
  {
    var rows := SplitLines(contents);
    if |rows| <= 1 then Failure(NoRows)
    else
      match DataRows(rows, 1, StatementRows(fb))
      case Failure(e) => Failure(e)
      case Success(ps) => if ps == [] then Failure(NoTransactions) else Success(ps)
  }
  /** The lines that are not white space only, in order. */
  function NonBlankLines(lines: seq<string>): (r: seq<string>)
    ensures |r| <= |lines|
    ensures r == [] <==> forall j :: 0 <= j < |lines| ==> IsBlank(lines[j])
  {
    if lines == [] then []
    else
      var rest := NonBlankLines(lines[1..]);
      assert forall j :: 1 <= j < |lines| ==> lines[j] == lines[1..][j - 1];
      if IsBlank(lines[0]) then rest else [lines[0]] + rest
  }

  /** Only the lines after the header are read: the header's content never matters. */
  lemma {:induction false} DataRowsIgnoresHeader(rows: seq<string>, other: seq<string>, i: nat, parse: RowParser)
    requires 1 <= i <= |rows| && |other| == |rows|
    requires forall j :: 1 <= j < |rows| ==> other[j] == rows[j]
    ensures DataRows(other, i, parse) == DataRows(rows, i, parse)
    decreases |rows| - i
  {
    if i < |rows| {
      DataRowsIgnoresHeader(rows, other, i + 1, parse);
    }
  }

  /** Whatever the first line says, an upload with the same remaining lines behaves the same. */
  lemma HeaderNeverParsed(header: string, otherHeader: string, body: string, fb: Fallbacks)
    requires header != [] && NoneIn(header, LineBreaks)
    requires otherHeader != [] && NoneIn(otherHeader, LineBreaks)
    ensures ParseStatement(header + "\n" + body, fb) == ParseStatement(otherHeader + "\n" + body, fb)
  {
    SplitLinesFirst(header, body);
    SplitLinesFirst(otherHeader, body);
    SameDataLines(header + "\n" + body, otherHeader + "\n" + body, fb);
  }

  /** Two texts whose lines agree after the first are parsed alike. */
  lemma SameDataLines(contents: string, other: string, fb: Fallbacks)
    requires |SplitLines(contents)| == |SplitLines(other)|
    requires forall j :: 1 <= j < |SplitLines(contents)| ==> SplitLines(other)[j] == SplitLines(contents)[j]
    ensures ParseStatement(contents, fb) == ParseStatement(other, fb)
  {
    var rows := SplitLines(contents);
    if |rows| > 1 {
      DataRowsIgnoresHeader(rows, SplitLines(other), 1, StatementRows(fb));
    }
  }

  /** A file holding a header line only has no rows to import. */
  lemma HeaderOnlyHasNoRows(header: string, fb: Fallbacks)
    requires NoneIn(header, LineBreaks)
    ensures ParseStatement(header, fb) == Failure(NoRows)
  {
    SplitOfNoSeparator(header, LineBreaks);
  }

  /**
   * A refused row is the first line from position `i` on that is neither
   * blank nor parseable, reported with its 1-based position among the
   * non-empty lines (the header being row 1).
   */
  lemma {:induction false} DataRowsFailure(rows: seq<string>, i: nat, parse: RowParser)
    requires 1 <= i <= |rows| && DataRows(rows, i, parse).Failure?
    ensures var e := DataRows(rows, i, parse).error;
            && e.RowFailure?
            && i + 1 <= e.row <= |rows|
            && !IsBlank(rows[e.row - 1])
            && parse(rows[e.row - 1]) == Failure(e.reason)
            && forall j :: i <= j < e.row - 1 ==> IsBlank(rows[j]) || parse(rows[j]).Success?
    decreases |rows| - i
  {
    assert i < |rows|;
    if IsBlank(rows[i]) || parse(rows[i]).Success? {
      DataRowsFailure(rows, i + 1, parse);
    }
  }

  /**
   * The rows succeed exactly when every line from position `i` is blank or
   * parses, and then they are the parses of the non-blank lines, in order.
   */
  lemma {:induction false} DataRowsSuccess(rows: seq<string>, i: nat, parse: RowParser)
    requires 1 <= i <= |rows|
    ensures DataRows(rows, i, parse).Success?
            <==> forall j :: i <= j < |rows| ==> IsBlank(rows[j]) || parse(rows[j]).Success?
    ensures DataRows(rows, i, parse).Success? ==>
              var ps := DataRows(rows, i, parse).value;
              var lines := NonBlankLines(rows[i..]);
              |ps| == |lines| && forall k :: 0 <= k < |ps| ==> parse(lines[k]) == Success(ps[k])
    decreases |rows| - i
  {
    if i < |rows| {
      DataRowsSuccess(rows, i + 1, parse);
      assert rows[i..][0] == rows[i] && rows[i..][1..] == rows[i + 1..];
    }
  }

  /** Rows from position `i` on that are all blank give an empty, successful result, and only those do. */
  lemma {:induction false} AllBlankRows(rows: seq<string>, i: nat, parse: RowParser)
    requires 1 <= i <= |rows|
    ensures DataRows(rows, i, parse) == Success([]) <==> forall j :: i <= j < |rows| ==> IsBlank(rows[j])
    decreases |rows| - i
  {
    if i < |rows| {
      AllBlankRows(rows, i + 1, parse);
    }
  }

  /** "No transactions" is the answer exactly when there are data lines and all of them are blank. */
  lemma NoTransactionsExactlyWhenAllBlank(contents: string, fb: Fallbacks)
    ensures var rows := SplitLines(contents);
            ParseStatement(contents, fb) == Failure(NoTransactions)
            <==> |rows| >= 2 && forall j :: 1 <= j < |rows| ==> IsBlank(rows[j])
  {
    var rows := SplitLines(contents);
    if |rows| >= 2 {
      AllBlankRows(rows, 1, StatementRows(fb));
      if DataRows(rows, 1, StatementRows(fb)).Failure? {
        DataRowsFailure(rows, 1, StatementRows(fb));
      }
    }
  }

  /**
   * An upload refused for a row names a data line (row 2 or later) that
   * fails to parse with the reported reason.
   */
  lemma RowFailureReported(contents: string, fb: Fallbacks)
    requires ParseStatement(contents, fb).Failure? && ParseStatement(contents, fb).error.RowFailure?
    ensures var rows := SplitLines(contents);
            var e := ParseStatement(contents, fb).error;
            && 2 <= e.row <= |rows|
            && StatementRows(fb)(rows[e.row - 1]) == Failure(e.reason)
  {
    var rows, parse := SplitLines(contents), StatementRows(fb);
    var e := ParseStatement(contents, fb).error;
    ParseStatementRowError(contents, fb);
    assert DataRows(rows, 1, parse) == Failure(e);
    FailureNamesLine(rows, parse, e);
  }

  /** DataRowsFailure for the whole file, with the error named. */
  lemma FailureNamesLine(rows: seq<string>, parse: RowParser, e: UploadError)
    requires 1 <= |rows| && DataRows(rows, 1, parse) == Failure(e)
    ensures e.RowFailure? && 2 <= e.row <= |rows| && parse(rows[e.row - 1]) == Failure(e.reason)
  {
    DataRowsFailure(rows, 1, parse);
  }

  /** So "Empty row." is never the reason an upload gives. */
  lemma NeverEmptyRowReason(contents: string, fb: Fallbacks)
    requires ParseStatement(contents, fb).Failure? && ParseStatement(contents, fb).error.RowFailure?
    ensures ParseStatement(contents, fb).error.reason != EmptyRow
  {
    ParseStatementRowError(contents, fb);
    StatementRowsNeverEmpty(fb);
    DataRowsNeverEmpty(SplitLines(contents), 1, StatementRows(fb));
  }

  /** A row parser that reports "Empty row." for no non-blank line. */
  ghost predicate NeverEmptyOnNonBlank(parse: RowParser) {
    forall line :: !IsBlank(line) ==> parse(line) != Failure(EmptyRow)
  }

  lemma StatementRowsNeverEmpty(fb: Fallbacks)
    ensures NeverEmptyOnNonBlank(StatementRows(fb))
  {
  }

  /** Blank lines are skipped before parsing, so such a parser's "Empty row." never surfaces. */
  lemma {:induction false} DataRowsNeverEmpty(rows: seq<string>, i: nat, parse: RowParser)
    requires 1 <= i <= |rows| && NeverEmptyOnNonBlank(parse)
    requires DataRows(rows, i, parse).Failure?
    ensures DataRows(rows, i, parse).error.RowFailure? && DataRows(rows, i, parse).error.reason != EmptyRow
    decreases |rows| - i
  {
    if IsBlank(rows[i]) || parse(rows[i]).Success? {
      DataRowsNeverEmpty(rows, i + 1, parse);
    }
  }

  /** The reported row is the first bad one: every data line before it is blank or parses. */
  lemma EarlierRowsAccepted(contents: string, fb: Fallbacks)
    requires ParseStatement(contents, fb).Failure? && ParseStatement(contents, fb).error.RowFailure?
    ensures var rows := SplitLines(contents);
            var e := ParseStatement(contents, fb).error;
            e.row <= |rows| && forall j :: 1 <= j < e.row - 1 ==> IsBlank(rows[j]) || StatementRows(fb)(rows[j]).Success?
  {
    ParseStatementRowError(contents, fb);
    DataRowsFailure(SplitLines(contents), 1, StatementRows(fb));
  }

  /** A row error of the upload is the row loop's error. */
  lemma ParseStatementRowError(contents: string, fb: Fallbacks)
    requires ParseStatement(contents, fb).Failure? && ParseStatement(contents, fb).error.RowFailure?
    ensures |SplitLines(contents)| >= 2
    ensures DataRows(SplitLines(contents), 1, StatementRows(fb)) == ParseStatement(contents, fb)
  {
  }

  /** An upload accepted stores the parses of the non-blank data lines, in order, and at least one. */
  lemma AcceptedRows(contents: string, fb: Fallbacks)
    requires ParseStatement(contents, fb).Success?
    ensures var rows := SplitLines(contents);
            var ps := ParseStatement(contents, fb).value;
            var lines := NonBlankLines(rows[1..]);
            && |rows| >= 2 && ps != []
            && |ps| == |lines|
            && forall k :: 0 <= k < |ps| ==> StatementRows(fb)(lines[k]) == Success(ps[k])
  {
    DataRowsSuccess(SplitLines(contents), 1, StatementRows(fb));
  }

  /** The transactions stored for parsed rows: the caller's id and the predicted category. */
  function Materialize<M>(ps: seq<ParsedRow>, userId: int, categorizer: TransactionCategorizer<M>): (ts: seq<Transaction>)
    reads categorizer
    ensures |ts| == |ps|
    ensures forall k :: 0 <= k < |ps| ==>
              ts[k] == Transaction(userId, ps[k].date, ps[k].description, categorizer.Predict(ps[k].description, ps[k].amount), ps[k].amount)
  {
    if ps == [] then []
    else
      [Transaction(userId, ps[0].date, ps[0].description, categorizer.Predict(ps[0].description, ps[0].amount), ps[0].amount)]
      + Materialize(ps[1..], userId, categorizer)
  }

  /** The outcome of the row loop: the parsed rows as transactions, or the reason for stopping. */
  function MaterializeResult<M>(r: Result<seq<ParsedRow>, UploadError>, userId: int, categorizer: TransactionCategorizer<M>)
    : (m: Result<seq<Transaction>, UploadError>)
    reads categorizer
    ensures m.Failure? <==> r.Failure?
    ensures r.Failure? ==> m.error == r.error
    ensures r.Success? ==> m.value == Materialize(r.value, userId, categorizer)
  {
    match r
    case Failure(e) => Failure(e)
    case Success(ps) => Success(Materialize(ps, userId, categorizer))
  }

  /**
   * The row loop of UploadStatement: every line after the header in order,
   * blank lines skipped, the first bad line reported with its row number,
   * and each good line turned into a transaction with a predicted category.
   * Nothing is stored here.
   */
  method ParseRows<M>(rows: seq<string>, categorizer: TransactionCategorizer<M>, userId: int, fb: Fallbacks)
    returns (r: Result<seq<Transaction>, UploadError>)
    requires |rows| >= 1
    ensures r == MaterializeResult(DataRows(rows, 1, StatementRows(fb)), userId, categorizer)
  {
    var transactions: seq<Transaction> := [];
    ghost var parsed: seq<ParsedRow> := [];
    ghost var parse := StatementRows(fb);
    var i := 1;
    PrependNothing(DataRows(rows, 1, parse));
    while i < |rows|
      invariant 1 <= i <= |rows|
      invariant transactions == Materialize(parsed, userId, categorizer)
      invariant DataRows(rows, 1, parse) == Prepend(parsed, DataRows(rows, i, parse))
    {
      var rawRow := rows[i];
      DataRowsStep(rows, i, parse);
      if !IsBlank(rawRow) {
        var row := TryParseTransactionRow(rawRow, fb);
        match row
        case Failure(e) =>
          return Failure(RowFailure(i + 1, e));
        case Success(p) =>
          var t := Transaction(userId, p.date, p.description, categorizer.Predict(p.description, p.amount), p.amount);
          transactions := transactions + [t];
          MaterializeAppend(parsed, p, userId, categorizer);
          PrependAssociates(parsed, [p], DataRows(rows, i + 1, parse));
          parsed := parsed + [p];
      }
      i := i + 1;
    }
    assert DataRows(rows, 1, parse) == Success(parsed) by {
      assert parsed + [] == parsed;
    }
    return Success(transactions);
  }

  /**
   * UploadStatement after the file gate: splits the text, parses every data
   * row, and either stores all of them and retrains, or refuses and stores
   * nothing.
   */
  method UploadStatement<M>(db: Database, categorizer: TransactionCategorizer<M>, contents: string, userId: int, fb: Fallbacks)
    returns (r: Result<nat, string>)
    requires categorizer.Valid()
    modifies db, categorizer
    ensures categorizer.Valid()
    ensures db.budgets == old(db.budgets)
    ensures match ParseStatement(contents, fb)
            case Failure(e) =>
              && r == Failure(UploadMessage(e))
              && db.transactions == old(db.transactions)
              && categorizer.model == old(categorizer.model)
              && categorizer.predictor == old(categorizer.predictor)
              && categorizer.modelFile == old(categorizer.modelFile)
            case Success(ps) =>
              && r == Success(|ps|)
              && db.transactions == old(db.transactions) + old(Materialize(ps, userId, categorizer))
              && var ex := TrainingExamples(categorizer.db.transactions);
                 if ex == [] then categorizer.model == old(categorizer.model) && categorizer.predictor == old(categorizer.predictor)
                 else categorizer.model == Some(categorizer.fit(ex)) && categorizer.predictor == categorizer.model
    ensures categorizer.db == db && old(categorizer.predictor).None? && ParseStatement(contents, fb).Success?
            ==> categorizer.predictor.Some?
  {
    var rows := SplitLines(contents);
    if |rows| <= 1 {
      assert ParseStatement(contents, fb) == Failure(NoRows);
      return Failure(UploadMessage(NoRows));
    }
    var parsed := ParseRows(rows, categorizer, userId, fb);
    ghost var data := DataRows(rows, 1, StatementRows(fb));
    match parsed
    case Failure(e) =>
      assert ParseStatement(contents, fb) == data == Failure(e);
      return Failure(UploadMessage(e));
    case Success(transactions) =>
      if |transactions| == 0 {
        assert ParseStatement(contents, fb) == Failure(NoTransactions);
        return Failure(UploadMessage(NoTransactions));
      }
      assert ParseStatement(contents, fb) == data;
      var stored := db.transactions + transactions;
      assert stored[|stored| - 1] == transactions[|transactions| - 1];
      db.transactions := stored;
      if categorizer.db == db && categorizer.predictor.None? {
        assert db.transactions[|stored| - 1].category == Uncategorized;
      }
      categorizer.Train();
      return Success(|transactions|);
  }

  lemma MaterializeAppend<M>(ps: seq<ParsedRow>, p: ParsedRow, userId: int, categorizer: TransactionCategorizer<M>)
    ensures Materialize(ps + [p], userId, categorizer)
            == Materialize(ps, userId, categorizer)
               + [Transaction(userId, p.date, p.description, categorizer.Predict(p.description, p.amount), p.amount)]
  {
  }

  lemma PrependNothing(r: Result<seq<ParsedRow>, UploadError>)
    ensures Prepend([], r) == r
  {
    if r.Success? {
      assert [] + r.value == r.value;
    }
  }

  lemma PrependAssociates(a: seq<ParsedRow>, b: seq<ParsedRow>, r: Result<seq<ParsedRow>, UploadError>)
    ensures Prepend(a, Prepend(b, r)) == Prepend(a + b, r)
  {
    if r.Success? {
      assert a + (b + r.value) == (a + b) + r.value;
    }
  }

  // ---------------------------------------------------------- list endpoint

  /** GetTransactions: all of the caller's rows, each as often as stored, newest first. */
  function GetTransactions(ts: seq<Transaction>, userId: int): (r: seq<Transaction>)
    ensures Transactions.NewestFirst(r)
    ensures forall x :: multiset(r)[x] == if x.userId == userId then multiset(ts)[x] else 0
  {
    Transactions.SortNewestFirst(Transactions.Matching(ts, userId, None, None))
  }
}
