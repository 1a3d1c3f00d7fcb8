/** The statement data model: one transaction row (`StatementLine`), the
    footer totals (`StatementSummary`) and the whole `Statement`, plus the
    errors that abort parsing a document. */
module StatementModel {
  import opened Wrappers
  import opened Strings

  /** A `"dd.mm"` field as parsed: the year is not printed on the page. */
  datatype DayMonth = DayMonth(day: int, month: int)

  /** A full calendar date, as `datetime.strptime` produces it. */
  datatype Date = Date(year: int, month: int, day: int)

  /** One transaction row, or a partial one while rows are being stitched.
      Every field is optional; amounts are exact reals. */
  datatype StatementLine = StatementLine(
    text: Option<string>,
    amount: Option<real>,
    bookingDate: Option<DayMonth>,
    valueDate: Option<DayMonth>)
  {
    /** The source's test: no text (or only whitespace) and nothing else set. */
    predicate IsEmpty() {
      && (text.None? || Strip(text.value) == "")
      && amount.None?
      && bookingDate.None?
      && valueDate.None?
    }
  }

  /** The line every accumulator starts from: all fields absent. */
  const EmptyLine := StatementLine(None, None, None, None)

  datatype StatementSummary = StatementSummary(
    date: Option<Date>,
    oldBalance: Option<real>,
    sumExpenses: Option<real>,
    sumIncome: Option<real>,
    newBalance: Option<real>)

  const EmptySummary := StatementSummary(None, None, None, None, None)

  /** One text fragment of a page: its position relative to the page size
      (`x` from the left, `y` from the top) and its text. A page is the list of
      its fragments in the order they were first placed, positions distinct. */
  datatype Field = Field(x: real, y: real, text: string)

  datatype Statement = Statement(lines: seq<StatementLine>, summary: StatementSummary)

  /** What aborts a document: each is an exception in the source. */
  datatype ParseError =
    | MalformedDate(field: string)           // unpacking or `int()` fails on a `dd.mm` field
    | MalformedAmount(field: string)         // `float()` fails on a normalised amount
    | MalformedStatementDate(field: string)  // `strptime(..., "%d.%m.%Y")` fails
    | MultipleAmounts                        // second amount in one stitched line
    | MultipleValueDates                     // second value date in one stitched line
    | NoPages                                // `pages[-1]` on an empty page list

  /** A line is empty exactly when its text is absent or all whitespace and
      no amount or date is set. */
  lemma IsEmptyMeaning(line: StatementLine)
    ensures line.IsEmpty() <==>
      && (line.text.None? || IsBlank(line.text.value))
      && line.amount.None? && line.bookingDate.None? && line.valueDate.None?
  {
  }
}
