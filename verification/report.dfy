/** The plain-text statement report: one row per line of booking text, the
    booking date on the first row and the value date and amount on the last,
    then a three-line footer. */
module Report {
  import opened Wrappers
  import opened Strings
  import opened Numerals
  import opened StatementModel
  import opened FieldParsing
  import opened SummaryExtraction

  // ---------------------------------------------------------------------
  // Field formatters

  /** `fmt_field_date`: `dd.mm`, or five spaces for a missing date. */
  function FmtFieldDate(date: Option<DayMonth>): string {
    match date
    case None => "     "
    case Some(d) => Format02(d.day) + "." + Format02(d.month)
  }

  /** What `str(n)` and `f"{n:02}"` produce: an optional `-`, then digits. */
  predicate NumberText(s: string) {
    && |s| >= 1
    && IsDigit(s[|s| - 1])
    && forall i :: 0 <= i < |s| ==> IsDigit(s[i]) || (i == 0 && s[i] == '-')
  }

  /** A sign or a padding zero in front of a digit run. */
  lemma SignedDigits(sign: string, digits: string)
    requires sign == "" || sign == "-" || sign == "0"
    requires |digits| >= 1 && AllDigits(digits)
    ensures NumberText(sign + digits)
  {
    var s := sign + digits;
    forall i | |sign| <= i < |s| ensures IsDigit(s[i]) {
      assert s[i] == digits[i - |sign|];
    }
  }

  lemma IntToStringShape(n: int)
    ensures NumberText(IntToString(n))
  {
    if n < 0 {
      SignedDigits("-", NatToDigits(-n));
    } else {
      SignedDigits("", NatToDigits(n));
      assert "" + NatToDigits(n) == NatToDigits(n);
    }
  }

  lemma Format02Shape(n: int)
    ensures NumberText(Format02(n))
  {
    if n < 0 || n >= 10 {
      IntToStringShape(n);
    } else {
      SignedDigits("0", NatToDigits(n));
    }
  }

  /** A number has no whitespace at either end and no `.`, space or line
      break in it. */
  lemma NumberTextPlain(s: string)
    requires NumberText(s)
    ensures !IsWhitespace(s[0]) && !IsWhitespace(s[|s| - 1])
    ensures '.' !in s && '\n' !in s && ' ' !in s
  {
    DigitNotWhitespace(s[0]);
  }

  /** Every date the report prints, missing or not, is read back by the
      booking-date parser as the same date. */
  lemma FmtFieldDateRoundTrip(date: Option<DayMonth>)
    ensures ParseFieldDate(FmtFieldDate(date)) == Success(date)
  {
    match date
    case None =>
      assert IsBlank("     ") by {
        forall i | 0 <= i < 5 ensures IsWhitespace("     "[i]) {
        }
      }
    case Some(d) =>
      Format02Shape(d.day);
      Format02Shape(d.month);
      DateTextRoundTrip(Format02(d.day), Format02(d.month), d.day, d.month);
  }

  /** Two numbers around a `.` read back as the day and the month. */
  lemma DateTextRoundTrip(a: string, b: string, day: int, month: int)
    requires NumberText(a) && NumberText(b)
    requires ParseInt(a) == Some(day) && ParseInt(b) == Some(month)
    ensures ParseFieldDate(a + "." + b) == Success(Some(DayMonth(day, month)))
  {
    DateTextShape(a, b);
  }

  /** `a.b` is already stripped and splits at its dot into the two numbers. */
  lemma DateTextShape(a: string, b: string)
    requires NumberText(a) && NumberText(b)
    ensures Strip(a + "." + b) == a + "." + b
    ensures Split(a + "." + b, '.') == [a, b]
  {
    NumberTextPlain(a);
    NumberTextPlain(b);
    var s := a + "." + b;
    assert s[0] == a[0] && s[|s| - 1] == b[|b| - 1];
    StripUnchanged(s);
    TwoParts(a, b, '.');
  }

  /** A date whose day and month are between 0 and 99 prints in exactly
      five characters, the width of the blank placeholder. */
  lemma FmtFieldDateWidth(date: Option<DayMonth>)
    requires date.Some? ==> 0 <= date.value.day < 100 && 0 <= date.value.month < 100
    ensures |FmtFieldDate(date)| == 5
  {
  }

  /** `fmt_field_datetime`: ` dd.mm.yyyy`, or nothing for a missing date.
      The year is written as `str(year)`, which is four digits for the
      years 1000 to 9999. The statement-date parser also accepts the years
      0001 to 0999, which `str(year)` writes with fewer digits. */
  function FmtFieldDatetime(date: Option<Date>): string {
    match date
    case None => ""
    case Some(d) => " " + Format02(d.day) + "." + Format02(d.month) + "." + IntToString(d.year)
  }

  /** A statement date the report prints is read back by the statement-date
      reader as the same date. */
  lemma FmtFieldDatetimeRoundTrip(d: Date)
    requires IsValidDate(d) && d.year >= 1000
    ensures StatementDate(FmtFieldDatetime(Some(d))) == Success(d)
  {
    TwoDigits(d.day);
    TwoDigits(d.month);
    FourDigitYear(d.year);
    DatetimeTextRoundTrip(Format02(d.day), Format02(d.month), IntToString(d.year), d);
  }

  /** ` dd.mm.yyyy` reads back as the date its digits denote. */
  lemma DatetimeTextRoundTrip(a: string, b: string, c: string, d: Date)
    requires IsShortNumber(a) && IsShortNumber(b) && |c| == 4 && AllDigits(c)
    requires DigitsValue(a) == d.day && DigitsValue(b) == d.month && DigitsValue(c) == d.year
    requires IsValidDate(d)
    ensures StatementDate(" " + a + "." + b + "." + c) == Success(d)
  {
    DateWord(a, b, c);
    DateParts(a, b, c);
  }

  /** The date word of ` a.b.c` is `a.b.c`. */
  lemma DateWord(a: string, b: string, c: string)
    requires |a| >= 1 && AllDigits(a) && |b| >= 1 && AllDigits(b) && |c| >= 1 && AllDigits(c)
    ensures DateToken(" " + a + "." + b + "." + c) == a + "." + b + "." + c
  {
    var token := a + "." + b + "." + c;
    AllDigitsPlain(a);
    AllDigitsPlain(c);
    AllDigitsPlain(b);
    assert " " + a + "." + b + "." + c == [' '] + token;
    assert token[0] == a[0] && token[|token| - 1] == c[|c| - 1];
    assert ' ' !in token;
    StripLeadingSpace(token);
    SplitNoSeparator(token, ' ');
  }

  lemma StripLeadingSpace(token: string)
    requires |token| >= 1 && !IsWhitespace(token[0]) && !IsWhitespace(token[|token| - 1])
    ensures Strip([' '] + token) == token
  {
    var s := [' '] + token;
    assert TrimStart(s) == TrimStart(s[1..]);
    assert s[1..] == token;
    StripUnchanged(token);
  }

  /** A four-digit year is written as four digits of its value. */
  lemma FourDigitYear(y: int)
    requires 1000 <= y <= 9999
    ensures |IntToString(y)| == 4 && AllDigits(IntToString(y)) && DigitsValue(IntToString(y)) == y
  {
    NatToDigitsSnoc(y);
    NatToDigitsSnoc(y / 10);
    NatToDigitsSnoc(y / 100);
    assert |NatToDigits(y / 1000)| == 1;
  }

  lemma NatToDigitsSnoc(n: nat)
    requires n >= 10
    ensures |NatToDigits(n)| == |NatToDigits(n / 10)| + 1
  {
  }

  /** A day or month in range is written as two digits of its value. */
  lemma TwoDigits(n: int)
    requires 1 <= n <= 99
    ensures IsShortNumber(Format02(n)) && DigitsValue(Format02(n)) == n
  {
    var s := Format02(n);
    AllDigitsPlain(s);
    StripUnchanged(s);
  }

  /** `fmt_field_amount`: ` <amount>€`, or nothing for a missing amount.
      `number` stands for the `+10.2f` float format. */
  function FmtFieldAmount(amount: Option<real>, number: real -> string): string {
    match amount
    case None => ""
    case Some(a) => " " + number(a) + "€"
  }

  /** A missing amount prints as nothing and a present one never does; the
      amount's own text sits between the leading space and the euro sign. */
  lemma FmtFieldAmountMeaning(amount: Option<real>, number: real -> string)
    ensures FmtFieldAmount(amount, number) == "" <==> amount.None?
    ensures amount.Some? ==>
      var t := FmtFieldAmount(amount, number);
      t[0] == ' ' && EndsWith(t, "€") && RemoveSuffix(t[1..], "€") == number(amount.value)
  {
    if amount.Some? {
      var t := FmtFieldAmount(amount, number);
      assert t[1..] == number(amount.value) + "€";
    }
  }

  /** The currency suffix as the formatter's source text spells it: the
      three characters U+00E2, U+201A and U+00AC, which are the UTF-8 bytes
      of a euro sign (E2 82 AC) read as Windows-1252. */
  const SuffixAsWritten: string := ['\U{E2}', '\U{201A}', '\U{AC}']

  /** `fmt_field_amount` with the suffix exactly as written. */
  function FmtFieldAmountAsWritten(amount: Option<real>, number: real -> string): string {
    match amount
    case None => ""
    case Some(a) => " " + number(a) + SuffixAsWritten
  }

  /** As written, every present amount is followed by three stray characters
      and never by a euro sign; missing amounts are unaffected. */
  lemma SuffixAsWrittenDiffers(amount: Option<real>, number: real -> string)
    ensures amount.None? ==> FmtFieldAmountAsWritten(amount, number) == FmtFieldAmount(amount, number)
    ensures amount.Some? ==>
      && FmtFieldAmountAsWritten(amount, number) != FmtFieldAmount(amount, number)
      && !EndsWith(FmtFieldAmountAsWritten(amount, number), "€")
      && |FmtFieldAmountAsWritten(amount, number)| == |FmtFieldAmount(amount, number)| + 2
  {
    if amount.Some? {
      var t := FmtFieldAmountAsWritten(amount, number);
      assert t[|t| - 1] == '\U{AC}';
    }
  }

  /** A missing statement date prints as nothing and a present one never
      does. */
  lemma FmtFieldDatetimeMissing(date: Option<Date>)
    ensures FmtFieldDatetime(date) == "" <==> date.None?
  {
  }

  // ---------------------------------------------------------------------
  // format_cli

  /** The row width the booking text is padded to. */
  const TextWidth: nat := 57

  /** `f"{s:<width}"`: `s` left-aligned in `width` characters, never cut. */
  function LJust(s: string, width: nat): (r: string)
    ensures |r| == if |s| >= width then |s| else width
    ensures r[..|s|] == s
    ensures forall i :: |s| <= i < |r| ==> r[i] == ' '
  {
    if |s| >= width then s else s + seq(width - |s|, _ => ' ')
  }

  /** `str(line.text)`: a missing text prints as `None`. */
  function TextOf(text: Option<string>): string {
    match text
    case None => "None"
    case Some(t) => t
  }

  /** The text of one booking, one piece per printed row. */
  function Segments(line: StatementLine): (r: seq<string>)
    ensures |r| >= 1
  {
    Split(TextOf(line.text), '\n')
  }

  /** The row marker in front of row `i`: `>> ` and the booking date on the
      first row, blank on the others. */
  function BeginMarker(line: StatementLine, i: nat): string {
    if i == 0 then ">> " + FmtFieldDate(line.bookingDate) else "   " + FmtFieldDate(None)
  }

  /** The row marker after row `i` of `n`: value date and amount on the last
      row, nothing on the others. */
  function EndMarker(line: StatementLine, i: nat, n: nat, number: real -> string): string {
    if i == n - 1 then FmtFieldDate(line.valueDate) + FmtFieldAmount(line.amount, number) else ""
  }

  /** One printed row, without its line break. */
  function RowText(begin: string, segment: string, end: string): string {
    begin + " " + LJust(segment, TextWidth) + end
  }

  /** The rows one booking prints, first to last. */
  function LineRows(line: StatementLine, number: real -> string): (rows: seq<string>)
    ensures |rows| == |Segments(line)|
  {
    var segments := Segments(line);
    seq(|segments|, i requires 0 <= i < |segments| =>
      RowText(BeginMarker(line, i), segments[i], EndMarker(line, i, |segments|, number)))
  }

  /** Rows each followed by a line break, as `formatted += ...\n` builds them. */
  function Terminated(rows: seq<string>): string {
    if |rows| == 0 then "" else rows[0] + "\n" + Terminated(rows[1..])
  }

  /** The rows of all bookings, in order. */
  function ReportRows(lines: seq<StatementLine>, number: real -> string): seq<string> {
    if |lines| == 0 then [] else LineRows(lines[0], number) + ReportRows(lines[1..], number)
  }

  /** The block of text all bookings print. */
  function Bookings(lines: seq<StatementLine>, number: real -> string): string {
    if |lines| == 0 then "" else Terminated(LineRows(lines[0], number)) + Bookings(lines[1..], number)
  }

  /** The three footer lines, without line breaks. */
  function Footer(summary: StatementSummary, number: real -> string): seq<string> {
    [ ">> date:" + FmtFieldDatetime(summary.date),
      "   sum expenses:" + FmtFieldAmount(summary.sumExpenses, number) + ", sum income: " + FmtFieldAmount(summary.sumIncome, number),
      "   old balance: " + FmtFieldAmount(summary.oldBalance, number) + ", new balance:" + FmtFieldAmount(summary.newBalance, number) ]
  }

  /** The footer as appended, the last line without a line break. */
  function FooterText(summary: StatementSummary, number: real -> string): string {
    var footer := Footer(summary, number);
    footer[0] + "\n" + footer[1] + "\n" + footer[2]
  }

  /** `format_cli`: the bookings' rows, then the footer. */
  function FormatCli(stmt: Statement, number: real -> string): string {
    Bookings(stmt.lines, number) + FooterText(stmt.summary, number)
  }

  // ---------------------------------------------------------------------
  // Properties

  /** Each booking prints one row per line of its text; the first row
      carries `>>` and the booking date, every other row a blank marker of
      the same width, the last row the value date and amount, and each row
      holds its piece of the text, padded, after the marker and a space. */
  lemma LineRowsLayout(line: StatementLine, number: real -> string, i: nat)
    requires i < |Segments(line)|
    ensures |LineRows(line, number)| == Count(TextOf(line.text), '\n') + 1
    ensures var row := LineRows(line, number)[i];
      var begin := BeginMarker(line, i);
      var segment := Segments(line)[i];
      var padded := if |segment| >= TextWidth then |segment| else TextWidth;
      && |begin| + 1 <= |row|
      && row[..|begin|] == begin
      && row[|begin|..|begin| + 1 + |segment|] == " " + segment
      && (forall k :: |begin| + 1 + |segment| <= k < |begin| + 1 + TextWidth ==> row[k] == ' ')
      && (i == 0 ==> begin == ">> " + FmtFieldDate(line.bookingDate))
      && (i > 0 ==> begin == "        ")
      && (i < |Segments(line)| - 1 ==> |row| == |begin| + 1 + padded)
      && (i == |Segments(line)| - 1 ==>
            var end := FmtFieldDate(line.valueDate) + FmtFieldAmount(line.amount, number);
            |row| == |begin| + 1 + padded + |end| && EndsWith(row, end))
  {
    SplitCount(TextOf(line.text), '\n');
    var begin := BeginMarker(line, i);
    RowTextLayout(begin, Segments(line)[i], EndMarker(line, i, |Segments(line)|, number));
  }

  /** Where the pieces of a row sit. */
  lemma RowTextLayout(begin: string, segment: string, end: string)
    ensures var row := RowText(begin, segment, end);
      && |begin| + 1 <= |row|
      && row[..|begin|] == begin
      && row[|begin|..|begin| + 1 + |segment|] == " " + segment
      && EndsWith(row, end)
      && |row| == |begin| + 1 + (if |segment| >= TextWidth then |segment| else TextWidth) + |end|
      && (forall k :: |begin| + 1 + |segment| <= k < |begin| + 1 + TextWidth ==> row[k] == ' ')
  {
    var padded := LJust(segment, TextWidth);
    var row := RowText(begin, segment, end);
    assert row == begin + (" " + padded) + end;
    assert row[|begin|..|begin| + 1 + |segment|] == (" " + padded)[..1 + |segment|];
    assert (" " + padded)[1..1 + |segment|] == padded[..|segment|];
  }

  /** The printed pieces of a booking's text join back to the text. */
  lemma SegmentsJoin(line: StatementLine)
    ensures Join(Segments(line), '\n') == TextOf(line.text)
    ensures forall i :: 0 <= i < |Segments(line)| ==> '\n' !in Segments(line)[i]
  {
    SplitJoinsBack(TextOf(line.text), '\n');
    SplitPieces(TextOf(line.text), '\n');
  }

  /** The booking block is the bookings' rows, each with its line break. */
  lemma {:induction false} BookingsAreRows(lines: seq<StatementLine>, number: real -> string)
    ensures Bookings(lines, number) == Terminated(ReportRows(lines, number))
  {
    if |lines| > 0 {
      BookingsAreRows(lines[1..], number);
      TerminatedAppend(LineRows(lines[0], number), ReportRows(lines[1..], number));
    }
  }

  lemma {:induction false} TerminatedAppend(a: seq<string>, b: seq<string>)
    ensures Terminated(a + b) == Terminated(a) + Terminated(b)
  {
    if |a| > 0 {
      assert (a + b)[0] == a[0] && (a + b)[1..] == a[1..] + b;
      TerminatedAppend(a[1..], b);
    } else {
      assert a + b == b;
    }
  }

  /** Rows each followed by a line break, then more lines joined with line
      breaks, are all the lines joined with line breaks. */
  lemma {:induction false} TerminatedJoin(rows: seq<string>, more: seq<string>)
    requires |more| >= 1
    ensures Terminated(rows) + Join(more, '\n') == Join(rows + more, '\n')
  {
    if |rows| > 0 {
      TerminatedJoin(rows[1..], more);
      assert rows + more == [rows[0]] + (rows[1..] + more);
      JoinCons(rows[0], rows[1..] + more, '\n');
    } else {
      assert rows + more == more;
    }
  }

  /** The three footer lines joined with line breaks. */
  lemma FooterJoin(f0: string, f1: string, f2: string)
    ensures f0 + "\n" + f1 + "\n" + f2 == Join([f0, f1, f2], '\n')
  {
    JoinCons(f0, [f1, f2], '\n');
    JoinCons(f1, [f2], '\n');
    assert [f0, f1, f2] == [f0] + [f1, f2] && [f1, f2] == [f1] + [f2];
  }

  /** No line of the list contains a line break. */
  predicate SingleLines(rows: seq<string>) {
    forall i :: 0 <= i < |rows| ==> '\n' !in rows[i]
  }

  lemma SingleLinesAppend(a: seq<string>, b: seq<string>)
    requires SingleLines(a) && SingleLines(b)
    ensures SingleLines(a + b)
  {
    forall i | 0 <= i < |a + b| ensures '\n' !in (a + b)[i] {
      if i >= |a| {
        assert (a + b)[i] == b[i - |a|];
      }
    }
  }

  /** No row contains a line break, as long as the amount format writes none. */
  lemma {:induction false} RowsSingleLine(lines: seq<StatementLine>, number: real -> string)
    requires forall a :: '\n' !in number(a)
    ensures SingleLines(ReportRows(lines, number))
  {
    if |lines| > 0 {
      RowsSingleLine(lines[1..], number);
      LineRowsSingleLine(lines[0], number);
      SingleLinesAppend(LineRows(lines[0], number), ReportRows(lines[1..], number));
    }
  }

  lemma LineRowsSingleLine(line: StatementLine, number: real -> string)
    requires forall a :: '\n' !in number(a)
    ensures SingleLines(LineRows(line, number))
  {
    forall i | 0 <= i < |LineRows(line, number)| ensures '\n' !in LineRows(line, number)[i] {
      LineRowSingleLine(line, number, i);
    }
  }

  lemma LineRowSingleLine(line: StatementLine, number: real -> string, i: nat)
    requires forall a :: '\n' !in number(a)
    requires i < |Segments(line)|
    ensures '\n' !in LineRows(line, number)[i]
  {
    SegmentsJoin(line);
    MarkersSingleLine(line, i, |Segments(line)|, number);
    RowSingleLine(BeginMarker(line, i), Segments(line)[i], EndMarker(line, i, |Segments(line)|, number));
  }

  /** A row built from parts without line breaks has none. */
  lemma RowSingleLine(begin: string, segment: string, end: string)
    requires '\n' !in begin && '\n' !in segment && '\n' !in end
    ensures '\n' !in RowText(begin, segment, end)
  {
    var padded := LJust(segment, TextWidth);
    var row := RowText(begin, segment, end);
    assert row == begin + " " + padded + end;
  }

  lemma MarkersSingleLine(line: StatementLine, i: nat, n: nat, number: real -> string)
    requires forall a :: '\n' !in number(a)
    ensures '\n' !in BeginMarker(line, i) && '\n' !in EndMarker(line, i, n, number)
  {
    DateSingleLine(line.bookingDate);
    DateSingleLine(None);
    DateSingleLine(line.valueDate);
    AmountSingleLine(line.amount, number);
  }

  lemma DateSingleLine(date: Option<DayMonth>)
    ensures '\n' !in FmtFieldDate(date)
  {
    if date.Some? {
      Format02Shape(date.value.day);
      Format02Shape(date.value.month);
      NumberTextPlain(Format02(date.value.day));
      NumberTextPlain(Format02(date.value.month));
    }
  }

  lemma DatetimeSingleLine(date: Option<Date>)
    ensures '\n' !in FmtFieldDatetime(date)
  {
    if date.Some? {
      var d := date.value;
      Format02Shape(d.day);
      Format02Shape(d.month);
      IntToStringShape(d.year);
      DatetimeTextSingleLine(Format02(d.day), Format02(d.month), IntToString(d.year));
    }
  }

  lemma DatetimeTextSingleLine(a: string, b: string, c: string)
    requires NumberText(a) && NumberText(b) && NumberText(c)
    ensures '\n' !in " " + a + "." + b + "." + c
  {
    NumberTextPlain(a);
    NumberTextPlain(b);
    NumberTextPlain(c);
  }

  lemma AmountSingleLine(amount: Option<real>, number: real -> string)
    requires forall a :: '\n' !in number(a)
    ensures '\n' !in FmtFieldAmount(amount, number)
  {
  }

  lemma FooterSingleLine(summary: StatementSummary, number: real -> string)
    requires forall a :: '\n' !in number(a)
    ensures SingleLines(Footer(summary, number))
  {
    DatetimeSingleLine(summary.date);
    AmountSingleLine(summary.sumExpenses, number);
    AmountSingleLine(summary.sumIncome, number);
    AmountSingleLine(summary.oldBalance, number);
    AmountSingleLine(summary.newBalance, number);
    FooterLines(FmtFieldDatetime(summary.date),
      FmtFieldAmount(summary.sumExpenses, number), FmtFieldAmount(summary.sumIncome, number),
      FmtFieldAmount(summary.oldBalance, number), FmtFieldAmount(summary.newBalance, number));
  }

  lemma FooterLines(date: string, expenses: string, income: string, oldBalance: string, newBalance: string)
    requires '\n' !in date && '\n' !in expenses && '\n' !in income && '\n' !in oldBalance && '\n' !in newBalance
    ensures SingleLines([ ">> date:" + date,
      "   sum expenses:" + expenses + ", sum income: " + income,
      "   old balance: " + oldBalance + ", new balance:" + newBalance ])
  {
  }

  /** Splitting the report at line breaks gives back every booking row and
      the three footer lines, in order, as long as the amount format writes
      no line break. */
  lemma ReportLines(stmt: Statement, number: real -> string)
    requires forall a :: '\n' !in number(a)
    ensures Split(FormatCli(stmt, number), '\n') == ReportRows(stmt.lines, number) + Footer(stmt.summary, number)
  {
    var rows := ReportRows(stmt.lines, number);
    var footer := Footer(stmt.summary, number);
    BookingsAreRows(stmt.lines, number);
    RowsSingleLine(stmt.lines, number);
    FooterSingleLine(stmt.summary, number);
    FooterJoin(footer[0], footer[1], footer[2]);
    assert footer == [footer[0], footer[1], footer[2]];
    SplitRows(rows, footer);
  }

  /** Rows with their line breaks, then more lines joined with line breaks,
      split back into all the lines. */
  lemma SplitRows(rows: seq<string>, more: seq<string>)
    requires |more| >= 1 && SingleLines(rows) && SingleLines(more)
    ensures Split(Terminated(rows) + Join(more, '\n'), '\n') == rows + more
  {
    TerminatedJoin(rows, more);
    SingleLinesAppend(rows, more);
    SplitJoin(rows + more, '\n');
  }
}
