/** The whole statement: the bookings of every page after the first, stitched
    together, and the footer of the last page. */
module StatementParsing {
  import opened Wrappers
  import opened StatementModel
  import opened LineExtraction
  import opened SummaryExtraction
  import opened Stitching
  import opened Seqs

  /** The rows of the given pages, page after page; the first page that does
      not parse aborts. */
  function PagesLines(pages: seq<seq<Field>>): Result<seq<StatementLine>, ParseError> {
    if |pages| == 0 then Success([])
    else
      var lines :- PagesLines(pages[..|pages| - 1]);
      var more :- ExtractStatementLines(pages[|pages| - 1]);
      Success(lines + more)
  }

  /** `pages[1:]`, which is empty for an empty list. */
  function BookingPages(pages: seq<seq<Field>>): seq<seq<Field>> {
    if |pages| == 0 then [] else pages[1..]
  }

  /** `parse_statement`: bookings come from every page but the first (the
      cover page), the footer from the last one. An empty document fails
      after the bookings are combined, when the last page is looked up. */
  function ParseStatement(pages: seq<seq<Field>>): Result<Statement, ParseError> {
    var lines :- PagesLines(BookingPages(pages));
    var combined :- CombineStatementLines(lines);
    if |pages| == 0 then Failure(NoPages)
    else
      var summary :- ExtractStatementSummary(pages[|pages| - 1]);
      Success(Statement(combined, summary))
  }

  // ---------------------------------------------------------------------
  // Properties

  /** Every fragment of the page is accepted by the bookings reader. */
  predicate PageParses(page: seq<Field>) {
    forall j :: 0 <= j < |page| ==> Parses(page[j])
  }

  /** Every fragment of the page is accepted by the footer reader. */
  predicate FooterParses(page: seq<Field>) {
    forall j :: 0 <= j < |page| ==> SummaryParses(page[j])
  }

  /** The pages' rows are read without error exactly when every fragment on
      every page is accepted. */
  lemma {:induction false} PagesLinesSucceeds(pages: seq<seq<Field>>)
    ensures PagesLines(pages).Success? <==> forall i :: 0 <= i < |pages| ==> PageParses(pages[i])
  {
    if |pages| > 0 {
      var prefix := pages[..|pages| - 1];
      PagesLinesSucceeds(prefix);
      AllSnoc(pages, prefix, PageParses);
    }
  }

  /** Reading two runs of pages one after the other is reading each and
      concatenating the rows. */
  lemma {:induction false} PagesLinesAppend(a: seq<seq<Field>>, b: seq<seq<Field>>)
    ensures PagesLines(a + b).Success? <==> PagesLines(a).Success? && PagesLines(b).Success?
    ensures PagesLines(a + b).Success? ==> PagesLines(a + b).value == PagesLines(a).value + PagesLines(b).value
  {
    if |b| > 0 {
      var b' := b[..|b| - 1];
      assert (a + b)[..|a + b| - 1] == a + b';
      assert (a + b)[|a + b| - 1] == b[|b| - 1];
      PagesLinesAppend(a, b');
      PagesLinesSnoc(a + b);
      PagesLinesSnoc(b);
      if PagesLines(a + b).Success? {
        var x, y, z := PagesLines(a).value, PagesLines(b').value, ExtractStatementLines(b[|b| - 1]).value;
        assert (x + y) + z == x + (y + z);
      }
    } else {
      assert a + b == a;
    }
  }

  /** One more page is read after the others. */
  lemma PagesLinesSnoc(pages: seq<seq<Field>>)
    requires |pages| > 0
    ensures var prefix, last := PagesLines(pages[..|pages| - 1]), ExtractStatementLines(pages[|pages| - 1]);
      && (PagesLines(pages).Success? <==> prefix.Success? && last.Success?)
      && (PagesLines(pages).Success? ==> PagesLines(pages).value == prefix.value + last.value)
  {
  }

  /** One page's rows are that page's bookings reader output. */
  lemma PagesLinesSingle(page: seq<Field>)
    ensures PagesLines([page]) == ExtractStatementLines(page)
  {
    assert [page][..0] == [];
    if ExtractStatementLines(page).Success? {
      assert [] + ExtractStatementLines(page).value == ExtractStatementLines(page).value;
    }
  }

  /** The only error an empty document raises is the missing last page, and
      a non-empty one never raises it. */
  lemma ParseStatementNoPages(pages: seq<seq<Field>>)
    ensures ParseStatement(pages) == Failure(NoPages) <==> |pages| == 0
  {
    if |pages| == 0 {
      CombineStatementLinesMeaning([]);
      assert Groups([]) == [];
    } else {
      var lines := PagesLines(BookingPages(pages));
      if lines.Success? {
        CombineStatementLinesMeaning(lines.value);
      }
      if lines.Success? && CombineStatementLines(lines.value).Success? {
        SummaryNeverNoPages(pages[|pages| - 1]);
      }
      PagesLinesNeverNoPages(BookingPages(pages));
    }
  }

  /** Reading the rows never complains about missing pages. */
  lemma {:induction false} PagesLinesNeverNoPages(pages: seq<seq<Field>>)
    ensures PagesLines(pages).Failure? ==> PagesLines(pages).error != NoPages
  {
    if |pages| > 0 {
      PagesLinesNeverNoPages(pages[..|pages| - 1]);
      var page := pages[|pages| - 1];
      if ExtractStatementLines(page).Failure? {
        ExtractStatementLinesErrors(page);
      }
    }
  }

  lemma SummaryNeverNoPages(page: seq<Field>)
    ensures ExtractStatementSummary(page).Failure? ==> ExtractStatementSummary(page).error != NoPages
  {
    SummaryErrors(page);
  }

  /** The cover page is never read when there is another page: replacing it
      changes nothing. */
  lemma CoverPageIgnored(pages: seq<seq<Field>>, cover: seq<Field>)
    requires |pages| >= 2
    ensures ParseStatement([cover] + pages[1..]) == ParseStatement(pages)
  {
    var other := [cover] + pages[1..];
    assert other[1..] == pages[1..];
    assert other[|other| - 1] == pages[|pages| - 1];
  }

  /** A one-page document has no bookings; its only page is read for the
      footer alone. */
  lemma SinglePage(page: seq<Field>)
    ensures ParseStatement([page]).Success? <==> ExtractStatementSummary(page).Success?
    ensures ParseStatement([page]).Success? ==> ParseStatement([page]).value == Statement([], ExtractStatementSummary(page).value)
  {
    assert [page][1..] == [];
    CombineStatementLinesMeaning([]);
    assert Groups([]) == [];
  }

  /** A statement is read without error exactly when there is a page, every
      fragment on the booking pages is accepted, no booking has two amounts
      and every footer fragment of the last page parses; then the bookings are
      the merged groups of the booking rows, none of them empty, and the
      footer holds each value's last fragment. */
  lemma ParseStatementMeaning(pages: seq<seq<Field>>)
    ensures ParseStatement(pages).Success? <==>
      && |pages| > 0
      && (forall i :: 1 <= i < |pages| ==> PageParses(pages[i]))
      && PagesLines(pages[1..]).Success?
      && SingleAmounts(Groups(PagesLines(pages[1..]).value))
      && FooterParses(pages[|pages| - 1])
    ensures ParseStatement(pages).Success? ==>
      var st := ParseStatement(pages).value;
      && GroupsAreNonEmpty(Groups(PagesLines(pages[1..]).value))
      && st.lines == MergeAll(Groups(PagesLines(pages[1..]).value))
      && (forall i :: 0 <= i < |st.lines| ==> !st.lines[i].IsEmpty())
      && st.summary == ExpectedSummary(pages[|pages| - 1])
  {
    if |pages| > 0 {
      var booking := pages[1..];
      var last := pages[|pages| - 1];
      PagesLinesSucceeds(booking);
      assert (forall i :: 1 <= i < |pages| ==> PageParses(pages[i])) <==>
        (forall i :: 0 <= i < |booking| ==> PageParses(booking[i])) by {
        if forall i :: 0 <= i < |booking| ==> PageParses(booking[i]) {
          forall i | 1 <= i < |pages| ensures PageParses(pages[i]) {
            assert pages[i] == booking[i - 1];
          }
        }
      }
      ExtractStatementSummarySucceeds(last);
      if PagesLines(booking).Success? {
        var lines := PagesLines(booking).value;
        CombineStatementLinesMeaning(lines);
        if CombineStatementLines(lines).Success? {
          CombinedNotEmpty(lines);
          if ExtractStatementSummary(last).Success? {
            ExtractStatementSummaryMeaning(last);
          }
        }
      }
    }
  }
}
