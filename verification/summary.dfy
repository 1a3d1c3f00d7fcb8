/** Reading the statement footer off the last page: four totals in a strip
    along the bottom and the statement date in a box near the top. */
module SummaryExtraction {
  import opened Wrappers
  import opened Strings
  import opened Numerals
  import opened StatementModel
  import opened FieldParsing
  import opened LineExtraction
  import opened Seqs

  // Geometry, as fractions of the page size (a 1782 x 864 page).
  const SummaryAreaMinX: real := 200.0 / 1782.0
  const SummaryAreaMinY: real := 760.0 / 864.0
  const SummaryAreaMaxX: real := 1500.0 / 1782.0
  const SummaryAreaMaxY: real := 800.0 / 864.0
  const OldBalanceEnd: real := 400.0 / 1782.0
  const SumExpensesEnd: real := 900.0 / 1782.0
  const SumIncomeEnd: real := 1300.0 / 1782.0
  const NewBalanceEnd: real := SummaryAreaMaxX
  const DateAreaMinX: real := 900.0 / 1782.0
  const DateAreaMinY: real := 160.0 / 864.0
  const DateAreaMaxX: real := 1000.0 / 1782.0
  const DateAreaMaxY: real := 200.0 / 864.0

  /** The five footer values a fragment can set. */
  datatype Slot = OldBalanceSlot | SumExpensesSlot | SumIncomeSlot | NewBalanceSlot | DateSlot

  /** Inside the totals strip, borders included. */
  predicate InSummaryArea(x: real, y: real) {
    x >= SummaryAreaMinX && y >= SummaryAreaMinY && x <= SummaryAreaMaxX && y <= SummaryAreaMaxY
  }

  /** Inside the date box, borders included. */
  predicate InDateArea(x: real, y: real) {
    x >= DateAreaMinX && y >= DateAreaMinY && x <= DateAreaMaxX && y <= DateAreaMaxY
  }

  /** The footer value a fragment at `(x, y)` sets, if any. */
  function SummarySlot(x: real, y: real): Option<Slot> {
    if InSummaryArea(x, y) then
      if x < OldBalanceEnd then Some(OldBalanceSlot)
      else if x < SumExpensesEnd then Some(SumExpensesSlot)
      else if x < SumIncomeEnd then Some(SumIncomeSlot)
      else if x < NewBalanceEnd then Some(NewBalanceSlot)
      else None
    else if InDateArea(x, y) then Some(DateSlot)
    else None
  }

  /** The strip and the box do not overlap, so being in the box is enough
      for the date; the totals are half-open bands across the strip, and a
      fragment on the strip's right border sets nothing. */
  lemma SummarySlotBands(x: real, y: real)
    ensures SummarySlot(x, y) == Some(DateSlot) <==> InDateArea(x, y)
    ensures SummarySlot(x, y) == Some(OldBalanceSlot) <==> InSummaryArea(x, y) && x < OldBalanceEnd
    ensures SummarySlot(x, y) == Some(SumExpensesSlot) <==> InSummaryArea(x, y) && OldBalanceEnd <= x < SumExpensesEnd
    ensures SummarySlot(x, y) == Some(SumIncomeSlot) <==> InSummaryArea(x, y) && SumExpensesEnd <= x < SumIncomeEnd
    ensures SummarySlot(x, y) == Some(NewBalanceSlot) <==> InSummaryArea(x, y) && SumIncomeEnd <= x < SummaryAreaMaxX
    ensures SummarySlot(x, y).None? <==> !InDateArea(x, y) && (!InSummaryArea(x, y) || x == SummaryAreaMaxX)
  {
  }

  /** The date box holds `dd.mm.yyyy` possibly followed by more words; only
      the first space-separated word of the stripped text is read. */
  function DateToken(field: string): string {
    Split(Strip(field), ' ')[0]
  }

  /** The word read is the stripped text up to its first space. */
  lemma DateTokenPrefix(field: string)
    ensures ' ' !in DateToken(field)
    ensures |DateToken(field)| <= |Strip(field)|
    ensures DateToken(field) == Strip(field)[..|DateToken(field)|]
    ensures |DateToken(field)| < |Strip(field)| ==> Strip(field)[|DateToken(field)|] == ' '
  {
    SplitPieces(Strip(field), ' ');
    FirstPiece(Strip(field), ' ');
  }

  /** The first piece of a split is a prefix, cut at the first separator. */
  lemma {:induction false} FirstPiece(s: string, sep: char)
    ensures |Split(s, sep)[0]| <= |s| && Split(s, sep)[0] == s[..|Split(s, sep)[0]|]
    ensures |Split(s, sep)[0]| < |s| ==> s[|Split(s, sep)[0]|] == sep
  {
    if |s| > 0 {
      FirstPiece(s[1..], sep);
    }
  }

  /** `datetime.strptime(token, "%d.%m.%Y")` on the date box's first word;
      its `ValueError` names that word. */
  function StatementDate(field: string): (r: Result<Date, ParseError>)
    ensures r.Success? ==> IsValidDate(r.value) && ParseStatementDate(DateToken(field)) == Some(r.value)
    ensures r.Failure? <==> ParseStatementDate(DateToken(field)).None?
    ensures r.Failure? ==> r.error == MalformedStatementDate(DateToken(field))
    ensures r.Success? ==>
      var pieces := Split(DateToken(field), '.');
      && |pieces| == 3
      && DateToken(field) == pieces[0] + "." + pieces[1] + "." + pieces[2]
      && r.value == Date(DigitsValue(pieces[2]), DigitsValue(pieces[1]), DigitsValue(pieces[0]))
  {
    var token := DateToken(field);
    match ParseStatementDate(token)
    case Some(d) => Success(d)
    case None => Failure(MalformedStatementDate(token))
  }

  /** The effect of one fragment on the footer. */
  function SetSlot(summary: StatementSummary, slot: Slot, text: string): Result<StatementSummary, ParseError> {
    match slot
    case OldBalanceSlot =>
      var a :- ParseFieldAmount(text);
      Success(summary.(oldBalance := a))
    case SumExpensesSlot =>
      var a :- ParseFieldAmount(text);
      Success(summary.(sumExpenses := a))
    case SumIncomeSlot =>
      var a :- ParseFieldAmount(text);
      Success(summary.(sumIncome := a))
    case NewBalanceSlot =>
      var a :- ParseFieldAmount(text);
      Success(summary.(newBalance := a))
    case DateSlot =>
      var d :- StatementDate(text);
      Success(summary.(date := Some(d)))
  }

  /** `extract_statement_summary`: the fragments applied first to last, from
      an all-`None` footer; the first one that does not parse aborts. */
  function ExtractStatementSummary(fields: seq<Field>): Result<StatementSummary, ParseError> {
    if |fields| == 0 then Success(EmptySummary)
    else
      var summary :- ExtractStatementSummary(fields[..|fields| - 1]);
      var f := fields[|fields| - 1];
      match SummarySlot(f.x, f.y)
      case None => Success(summary)
      case Some(slot) => SetSlot(summary, slot, f.text)
  }

  // ---------------------------------------------------------------------
  // Reference: each footer value read off its last fragment

  /** A fragment is accepted: it sets nothing, or its text parses. */
  predicate SummaryParses(f: Field) {
    SummarySlot(f.x, f.y).None? || SlotParses(SummarySlot(f.x, f.y).value, f.text)
  }

  /** The text parses for the value it sets. */
  predicate SlotParses(slot: Slot, text: string) {
    if slot == DateSlot then StatementDate(text).Success? else ParseFieldAmount(text).Success?
  }

  /** The text of the last fragment that sets `slot`. */
  function LastSlotText(fields: seq<Field>, slot: Slot): Option<string> {
    if |fields| == 0 then None
    else
      var f := fields[|fields| - 1];
      if SummarySlot(f.x, f.y) == Some(slot) then Some(f.text)
      else LastSlotText(fields[..|fields| - 1], slot)
  }

  function DateIn(text: Option<string>): Option<Date> {
    match text
    case None => None
    case Some(t) => match StatementDate(t)
      case Success(d) => Some(d)
      case Failure(_) => None
  }

  /** The footer as the fragments define it: every value from the last
      fragment that sets it, `None` where no fragment does. */
  function ExpectedSummary(fields: seq<Field>): StatementSummary {
    StatementSummary(
      DateIn(LastSlotText(fields, DateSlot)),
      AmountOf(LastSlotText(fields, OldBalanceSlot)),
      AmountOf(LastSlotText(fields, SumExpensesSlot)),
      AmountOf(LastSlotText(fields, SumIncomeSlot)),
      AmountOf(LastSlotText(fields, NewBalanceSlot)))
  }

  /** The footer is read without error exactly when every fragment that
      sets a value parses. */
  lemma {:induction false} ExtractStatementSummarySucceeds(fields: seq<Field>)
    ensures ExtractStatementSummary(fields).Success? <==> forall i :: 0 <= i < |fields| ==> SummaryParses(fields[i])
  {
    if |fields| > 0 {
      var prefix := fields[..|fields| - 1];
      var f := fields[|fields| - 1];
      ExtractStatementSummarySucceeds(prefix);
      SummaryStepSucceeds(fields);
      AllSnoc(fields, prefix, SummaryParses);
    }
  }

  /** A footer that cannot be read fails on one of its fragments: an
      unreadable amount names the fragment's text, an unreadable date the
      date word in it. */
  lemma {:induction false} SummaryErrors(fields: seq<Field>)
    ensures ExtractStatementSummary(fields).Failure? ==>
      exists i :: 0 <= i < |fields| && ExtractStatementSummary(fields).error in
        {MalformedAmount(fields[i].text), MalformedStatementDate(DateToken(fields[i].text))}
  {
    if |fields| > 0 {
      var prefix := fields[..|fields| - 1];
      SummaryErrors(prefix);
      if ExtractStatementSummary(prefix).Failure? {
        var i :| 0 <= i < |prefix| && ExtractStatementSummary(prefix).error in
          {MalformedAmount(prefix[i].text), MalformedStatementDate(DateToken(prefix[i].text))};
        assert prefix[i] == fields[i];
      } else {
        var f := fields[|fields| - 1];
        if SummarySlot(f.x, f.y).Some? {
          SetSlotError(ExtractStatementSummary(prefix).value, SummarySlot(f.x, f.y).value, f.text);
        }
      }
    }
  }

  lemma SetSlotError(summary: StatementSummary, slot: Slot, text: string)
    ensures SetSlot(summary, slot, text).Failure? ==>
      SetSlot(summary, slot, text).error in {MalformedAmount(text), MalformedStatementDate(DateToken(text))}
  {
  }

  /** One more fragment keeps the footer readable exactly when it parses. */
  lemma SummaryStepSucceeds(fields: seq<Field>)
    requires |fields| > 0
    ensures ExtractStatementSummary(fields).Success? <==>
      ExtractStatementSummary(fields[..|fields| - 1]).Success? && SummaryParses(fields[|fields| - 1])
  {
    var f := fields[|fields| - 1];
    match SummarySlot(f.x, f.y)
    case None =>
    case Some(slot) => SetSlotSucceeds(ExtractStatementSummary(fields[..|fields| - 1]), slot, f.text);
  }

  lemma SetSlotSucceeds(before: Result<StatementSummary, ParseError>, slot: Slot, text: string)
    ensures (before.Success? && SetSlot(before.value, slot, text).Success?) <==> before.Success? && SlotParses(slot, text)
  {
  }

  /** A footer read without error is the reference footer: the last fragment
      for each value wins, and a value no fragment sets stays `None`. */
  lemma {:induction false} ExtractStatementSummaryMeaning(fields: seq<Field>)
    requires ExtractStatementSummary(fields).Success?
    ensures ExtractStatementSummary(fields).value == ExpectedSummary(fields)
  {
    if |fields| > 0 {
      var prefix := fields[..|fields| - 1];
      var f := fields[|fields| - 1];
      ExtractStatementSummaryMeaning(prefix);
      ExpectedSnoc(fields);
      SummaryStepSucceeds(fields);
      if SummarySlot(f.x, f.y).Some? {
        SetSlotAssign(ExpectedSummary(prefix), SummarySlot(f.x, f.y).value, f.text);
      }
    }
  }

  /** The reference effect of one fragment: its slot takes the value its
      text denotes. */
  function Assign(summary: StatementSummary, slot: Slot, text: string): StatementSummary {
    match slot
    case OldBalanceSlot => summary.(oldBalance := AmountOf(Some(text)))
    case SumExpensesSlot => summary.(sumExpenses := AmountOf(Some(text)))
    case SumIncomeSlot => summary.(sumIncome := AmountOf(Some(text)))
    case NewBalanceSlot => summary.(newBalance := AmountOf(Some(text)))
    case DateSlot => summary.(date := DateIn(Some(text)))
  }

  /** One more fragment changes the reference footer in its own slot only. */
  lemma ExpectedSnoc(fields: seq<Field>)
    requires |fields| > 0
    ensures var f := fields[|fields| - 1];
      ExpectedSummary(fields) == match SummarySlot(f.x, f.y)
        case None => ExpectedSummary(fields[..|fields| - 1])
        case Some(slot) => Assign(ExpectedSummary(fields[..|fields| - 1]), slot, f.text)
  {
    var f := fields[|fields| - 1];
    var prefix := fields[..|fields| - 1];
    forall slot | SummarySlot(f.x, f.y) != Some(slot) ensures LastSlotText(fields, slot) == LastSlotText(prefix, slot) {
    }
    if SummarySlot(f.x, f.y).Some? {
      assert LastSlotText(fields, SummarySlot(f.x, f.y).value) == Some(f.text);
    }
  }

  /** On a text that parses, the fold's step is the reference step. */
  lemma SetSlotAssign(summary: StatementSummary, slot: Slot, text: string)
    requires SlotParses(slot, text)
    ensures SetSlot(summary, slot, text) == Success(Assign(summary, slot, text))
  {
  }
}
