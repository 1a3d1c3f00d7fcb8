/** Reading transaction rows off one page: every fragment inside the table
    area belongs to the row at its `y`, and its `x` picks the column it fills.
    Rows are kept sorted by `y`, as the page reads top to bottom. */
module LineExtraction {
  import opened Wrappers
  import opened StatementModel
  import opened FieldParsing
  import opened Seqs

  // Table geometry, as fractions of the page size (a 1782 x 864 page).
  const LineAreaMinX: real := 220.0 / 1782.0
  const LineAreaMinY: real := 300.0 / 864.0
  const LineAreaMaxX: real := 1500.0 / 1782.0
  const LineAreaMaxY: real := 720.0 / 864.0
  const BookingDateEnd: real := 330.0 / 1782.0
  const TextEnd: real := 1200.0 / 1782.0
  const ValueDateEnd: real := 1400.0 / 1782.0
  const AmountEnd: real := LineAreaMaxX

  /** The four columns of the transaction table. */
  datatype Zone = BookingDateZone | TextZone | ValueDateZone | AmountZone

  /** Inside the table area, borders included. */
  predicate InLineArea(x: real, y: real) {
    !(x < LineAreaMinX || y < LineAreaMinY || x > LineAreaMaxX || y > LineAreaMaxY)
  }

  /** The column a fragment at `(x, y)` fills, if any. The columns are
      half-open bands `[start, end)` that tile the area, so a fragment
      exactly on the right border belongs to none of them. */
  function LineZone(x: real, y: real): (z: Option<Zone>)
    ensures z.None? <==> !InLineArea(x, y) || x == LineAreaMaxX
    ensures z == Some(BookingDateZone) <==> InLineArea(x, y) && x < BookingDateEnd
    ensures z == Some(TextZone) <==> InLineArea(x, y) && BookingDateEnd <= x < TextEnd
    ensures z == Some(ValueDateZone) <==> InLineArea(x, y) && TextEnd <= x < ValueDateEnd
    ensures z == Some(AmountZone) <==> InLineArea(x, y) && ValueDateEnd <= x < LineAreaMaxX
  {
    if !InLineArea(x, y) then None
    else if x < BookingDateEnd then Some(BookingDateZone)
    else if x < TextEnd then Some(TextZone)
    else if x < ValueDateEnd then Some(ValueDateZone)
    else if x < AmountEnd then Some(AmountZone)
    else None
  }

  /** The assignment one fragment makes to the line of its row. */
  datatype Update =
    | SetBookingDate(date: Option<DayMonth>)
    | SetText(text: string)
    | SetValueDate(date: Option<DayMonth>)
    | SetAmount(amount: Option<real>)

  function Apply(line: StatementLine, u: Update): StatementLine {
    match u
    case SetBookingDate(d) => line.(bookingDate := d)
    case SetText(t) => line.(text := Some(t))
    case SetValueDate(d) => line.(valueDate := d)
    case SetAmount(a) => line.(amount := a)
  }

  /** The fragment's text parsed for its column; the text column keeps the
      text as it is, unstripped. */
  function FieldUpdate(z: Zone, text: string): (r: Result<Update, ParseError>)
    ensures r.Success? <==> match z
      case BookingDateZone => ParseFieldDate(text).Success?
      case TextZone => true
      case ValueDateZone => ParseFieldDate(text).Success?
      case AmountZone => ParseFieldAmount(text).Success?
  {
    match z
    case BookingDateZone =>
      var d :- ParseFieldDate(text);
      Success(SetBookingDate(d))
    case TextZone => Success(SetText(text))
    case ValueDateZone =>
      var d :- ParseFieldDate(text);
      Success(SetValueDate(d))
    case AmountZone =>
      var a :- ParseFieldAmount(text);
      Success(SetAmount(a))
  }

  /** A row under construction: its `y` and the line collected so far. */
  datatype Row = Row(y: real, line: StatementLine)

  predicate Sorted(rows: seq<Row>) {
    |rows| <= 1 || (rows[0].y < rows[1].y && Sorted(rows[1..]))
  }

  /** The line of the row at `y`. */
  function Lookup(rows: seq<Row>, y: real): Option<StatementLine> {
    if |rows| == 0 then None
    else if rows[0].y == y then Some(rows[0].line)
    else Lookup(rows[1..], y)
  }

  /** What `lines[y]` yields on a `defaultdict(StatementLine)`. */
  function LookupOrEmpty(rows: seq<Row>, y: real): StatementLine {
    match Lookup(rows, y)
    case Some(line) => line
    case None => EmptyLine
  }

  /** `lines[y].<field> = ...`: updates the row at `y`, creating it in sorted
      position when there is none. */
  function Upsert(rows: seq<Row>, y: real, u: Update): (r: seq<Row>)
    ensures |r| >= 1
  {
    if |rows| == 0 then [Row(y, Apply(EmptyLine, u))]
    else if rows[0].y == y then [Row(y, Apply(rows[0].line, u))] + rows[1..]
    else if y < rows[0].y then [Row(y, Apply(EmptyLine, u))] + rows
    else [rows[0]] + Upsert(rows[1..], y, u)
  }

  /** The fragments of one page folded into rows, first to last; the first
      fragment whose text does not parse aborts the page. */
  function ExtractRows(fields: seq<Field>): Result<seq<Row>, ParseError> {
    if |fields| == 0 then Success([])
    else
      var rows :- ExtractRows(fields[..|fields| - 1]);
      var f := fields[|fields| - 1];
      match LineZone(f.x, f.y)
      case None => Success(rows)
      case Some(z) =>
        var u :- FieldUpdate(z, f.text);
        Success(Upsert(rows, f.y, u))
  }

  function LinesOf(rows: seq<Row>): (lines: seq<StatementLine>)
    ensures |lines| == |rows|
    ensures forall i :: 0 <= i < |rows| ==> lines[i] == rows[i].line
  {
    if |rows| == 0 then [] else [rows[0].line] + LinesOf(rows[1..])
  }

  /** `extract_statement_lines`: the rows' lines from top to bottom. */
  function ExtractStatementLines(fields: seq<Field>): (r: Result<seq<StatementLine>, ParseError>)
    ensures r.Success? <==> forall i :: 0 <= i < |fields| ==> Parses(fields[i])
    ensures r.Success? ==> ExtractRows(fields).Success? && r.value == LinesOf(ExtractRows(fields).value)
  {
    ExtractRowsSucceeds(fields);
    var rows :- ExtractRows(fields);
    Success(LinesOf(rows))
  }

  // ---------------------------------------------------------------------
  // Reference: what each row holds, read directly off the fragments

  /** A fragment is accepted: outside every column, or parseable for its own. */
  predicate Parses(f: Field) {
    match LineZone(f.x, f.y)
    case None => true
    case Some(z) => FieldUpdate(z, f.text).Success?
  }

  /** The text of the last fragment that fills column `z` of the row at `y`. */
  function LastText(fields: seq<Field>, y: real, z: Zone): Option<string> {
    if |fields| == 0 then None
    else
      var f := fields[|fields| - 1];
      if f.y == y && LineZone(f.x, f.y) == Some(z) then Some(f.text)
      else LastText(fields[..|fields| - 1], y, z)
  }

  /** A row at `y` exists once any fragment has filled one of its columns. */
  predicate HasRow(fields: seq<Field>, y: real) {
    || LastText(fields, y, BookingDateZone).Some?
    || LastText(fields, y, TextZone).Some?
    || LastText(fields, y, ValueDateZone).Some?
    || LastText(fields, y, AmountZone).Some?
  }

  function DateOf(text: Option<string>): Option<DayMonth> {
    match text
    case None => None
    case Some(t) => match ParseFieldDate(t)
      case Success(d) => d
      case Failure(_) => None
  }

  function AmountOf(text: Option<string>): Option<real> {
    match text
    case None => None
    case Some(t) => match ParseFieldAmount(t)
      case Success(a) => a
      case Failure(_) => None
  }

  /** The row at `y` as the fragments define it: each column holds what its
      last fragment says, and a column no fragment filled stays `None`. */
  function ExpectedRow(fields: seq<Field>, y: real): Option<StatementLine> {
    if !HasRow(fields, y) then None
    else Some(StatementLine(
      LastText(fields, y, TextZone),
      AmountOf(LastText(fields, y, AmountZone)),
      DateOf(LastText(fields, y, BookingDateZone)),
      DateOf(LastText(fields, y, ValueDateZone))))
  }

  // ---------------------------------------------------------------------
  // Properties

  /** Rows come out strictly ascending in `y`, and the row at each `y` holds
      exactly what the reference reading of the fragments says: one row per
      `y` some column fragment sits on, each column from its last fragment. */
  lemma {:induction false} ExtractRowsMeaning(fields: seq<Field>)
    requires ExtractRows(fields).Success?
    ensures Sorted(ExtractRows(fields).value)
    ensures forall y :: Lookup(ExtractRows(fields).value, y) == ExpectedRow(fields, y)
  {
    if |fields| > 0 {
      var prefix := fields[..|fields| - 1];
      var f := fields[|fields| - 1];
      var rows := ExtractRows(prefix).value;
      ExtractRowsMeaning(prefix);
      match LineZone(f.x, f.y)
      case None =>
        forall y ensures Lookup(rows, y) == ExpectedRow(fields, y) {
          OtherRowUnchanged(fields, y);
        }
      case Some(z) =>
        var u := FieldUpdate(z, f.text).value;
        UpsertSorted(rows, f.y, u);
        forall y ensures Lookup(Upsert(rows, f.y, u), y) == ExpectedRow(fields, y) {
          UpsertLookup(rows, f.y, u, y);
          if y == f.y {
            UpdatedRow(fields, z, u, LookupOrEmpty(rows, y));
          } else {
            OtherRowUnchanged(fields, y);
          }
        }
    }
  }

  /** A page is read without error exactly when every fragment in a column
      parses for that column. */
  lemma {:induction false} ExtractRowsSucceeds(fields: seq<Field>)
    ensures ExtractRows(fields).Success? <==> forall i :: 0 <= i < |fields| ==> Parses(fields[i])
  {
    if |fields| > 0 {
      var prefix := fields[..|fields| - 1];
      ExtractRowsSucceeds(prefix);
      RowStepSucceeds(fields);
      AllSnoc(fields, prefix, Parses);
    }
  }

  /** A page that cannot be read fails on the text of one of its fragments,
      as an unreadable date or amount. */
  lemma {:induction false} ExtractRowsErrors(fields: seq<Field>)
    ensures ExtractRows(fields).Failure? ==>
      exists i :: 0 <= i < |fields| && ExtractRows(fields).error in {MalformedDate(fields[i].text), MalformedAmount(fields[i].text)}
  {
    if |fields| > 0 {
      var prefix := fields[..|fields| - 1];
      ExtractRowsErrors(prefix);
      if ExtractRows(prefix).Failure? {
        var i :| 0 <= i < |prefix| && ExtractRows(prefix).error in {MalformedDate(prefix[i].text), MalformedAmount(prefix[i].text)};
        assert prefix[i] == fields[i];
      }
    }
  }

  lemma ExtractStatementLinesErrors(fields: seq<Field>)
    ensures ExtractStatementLines(fields).Failure? ==>
      exists i :: 0 <= i < |fields| && ExtractStatementLines(fields).error in {MalformedDate(fields[i].text), MalformedAmount(fields[i].text)}
  {
    ExtractRowsErrors(fields);
  }

  /** One more fragment keeps the page readable exactly when it parses. */
  lemma RowStepSucceeds(fields: seq<Field>)
    requires |fields| > 0
    ensures ExtractRows(fields).Success? <==>
      ExtractRows(fields[..|fields| - 1]).Success? && Parses(fields[|fields| - 1])
  {
  }

  /** The last fragment leaves the rows at every other `y` as they were. */
  lemma OtherRowUnchanged(fields: seq<Field>, y: real)
    requires |fields| > 0
    requires fields[|fields| - 1].y != y || LineZone(fields[|fields| - 1].x, fields[|fields| - 1].y).None?
    ensures ExpectedRow(fields, y) == ExpectedRow(fields[..|fields| - 1], y)
  {
  }

  /** The last fragment, in column `z`, sets that column of its row from its
      own text and keeps the others. */
  lemma UpdatedRow(fields: seq<Field>, z: Zone, u: Update, before: StatementLine)
    requires |fields| > 0
    requires LineZone(fields[|fields| - 1].x, fields[|fields| - 1].y) == Some(z)
    requires FieldUpdate(z, fields[|fields| - 1].text) == Success(u)
    requires before == match ExpectedRow(fields[..|fields| - 1], fields[|fields| - 1].y)
      case Some(line) => line
      case None => EmptyLine
    ensures ExpectedRow(fields, fields[|fields| - 1].y) == Some(Apply(before, u))
  {
  }

  lemma {:induction false} UpsertSorted(rows: seq<Row>, y: real, u: Update)
    requires Sorted(rows)
    ensures Sorted(Upsert(rows, y, u))
    ensures Upsert(rows, y, u)[0].y == if |rows| == 0 || y <= rows[0].y then y else rows[0].y
  {
    if |rows| > 0 && rows[0].y < y {
      UpsertSorted(rows[1..], y, u);
    }
  }

  /** Upserting at `y` changes the row at `y` and no other. */
  lemma {:induction false} UpsertLookup(rows: seq<Row>, y: real, u: Update, k: real)
    requires Sorted(rows)
    ensures Lookup(Upsert(rows, y, u), k) ==
      if k == y then Some(Apply(LookupOrEmpty(rows, y), u)) else Lookup(rows, k)
  {
    if |rows| > 0 {
      if y < rows[0].y {
        LookupBelow(rows, y);
      } else if rows[0].y < y {
        UpsertLookup(rows[1..], y, u, k);
      }
    }
  }

  lemma {:induction false} LookupBelow(rows: seq<Row>, y: real)
    requires Sorted(rows) && |rows| > 0 && y < rows[0].y
    ensures Lookup(rows, y) == None
  {
    if |rows| > 1 {
      LookupBelow(rows[1..], y);
    }
  }
}
