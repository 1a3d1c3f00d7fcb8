# baestatement core in Dafny

A model of how baestatement reads a bank statement. The statement PDF has
already been converted to HTML, so each page is a set of text fragments at
page-relative coordinates. From those fragments the model:

- reads the transaction rows of every page after the cover page;
- stitches the rows into bookings, each with a booking date, text, value
  date and amount;
- reads the footer of the last page: statement date, old and new balance,
  sum of expenses and sum of income;
- formats the result as the plain-text report of the command-line front
  end.

Modules, in dependency order:

| file | module | what it holds |
|---|---|---|
| wrappers.dfy | Wrappers | `Option` and `Result`; a Python exception is a `Failure` |
| seqs.dfy | Seqs | one generic lemma about quantifiers over `s + [x]` |
| strings.dfy | Strings | `str.strip`, `str.split` on one character, `"\n".join`, `endswith`, `rstrip`, `removesuffix` |
| numerals.dfy | Numerals | `int()` and `float()` on text (as exact integers and reals), `str(int)`, `:02` |
| statement.dfy | StatementModel | `StatementLine`, `StatementSummary`, `Statement`, the parse errors, `is_empty` |
| fields.dfy | FieldParsing | `parse_field_date`, `parse_field_amount`, `strptime("%d.%m.%Y")` |
| lines.dfy | LineExtraction | `extract_statement_lines` |
| summary.dfy | SummaryExtraction | `extract_statement_summary` |
| stitch.dfy | Stitching | `combine_statement_lines`, and a second, independent definition of the bookings as groups of rows |
| conserve.dfy | Conservation | what stitching keeps: amounts and texts |
| assemble.dfy | StatementParsing | `parse_statement` |
| css.dfy | PageMarkup | `extract_tag_css`, the size and position readers, the fragments of one page |
| report.dfy | Report | `fmt_field_date`, `fmt_field_datetime`, `fmt_field_amount`, `format_cli` |

How the Python is modelled:

- A page's `dict[(x, y), str]` is a sequence of `Field(x, y, text)` in the
  dictionary's insertion order. Coordinates are exact reals.
- The classification thresholds are the source's fractions (`220/1782`, and so
  on), written as exact rational constants.
- A Python exception becomes a `Failure` that names the offending text. The
  unpacking `day, month = field.split(".")` and `float()` on a malformed
  amount are examples.
- Loops over inputs are prefix folds: the last element is processed after
  all the earlier ones. So, as in Python, the first failing element decides
  the error and a later fragment at the same place overwrites an earlier one.
- Each operation comes with an independent description of its result, and a
  lemma ties the two together:
  - the rows of a page are described by the last fragment in each column of
    each `y`;
  - the footer by the last fragment in each slot;
  - the bookings by the `Groups` of the non-empty rows, each merged into one
    line;
  - the style map by the last declaration of each key.
- The two date formatters are proved to be inverted by the date readers:
  a date the report prints reads back as the same date.

## Model

| member | source | states |
|---|---|---|
| StatementModel.IsEmptyMeaning | baestatement/parse.py:14-20 | a line is empty exactly when its text is absent or all whitespace and it has no amount and no dates |
| FieldParsing.ParseFieldDate | baestatement/parse.py:35-41 | blank input (and only blank input) gives no date; a non-blank field whose stripped text splits at a single dot into two texts that `int()` accepts always reads as that day and month, and every other input fails with the field's text |
| FieldParsing.ParseFieldAmount | baestatement/parse.py:43-53 | blank input (and only blank input) gives no amount; a non-blank field reads as `float()` of its normalised text exactly when `float()` accepts that text, and otherwise fails naming the field |
| FieldParsing.MoveSign | baestatement/parse.py:48-49 | text ending in a minus becomes one minus followed by the text with its whole trailing run of minus signs removed, so what follows the minus no longer ends in one; text without a trailing minus is unchanged |
| FieldParsing.SwapSeparatorsMeaning | baestatement/parse.py:51-52 | each character is replaced where it stands (a comma by a dot, a dot by nothing, anything else by itself), so no comma is left, there are as many dots as there were commas, and every other character is kept in order |
| FieldParsing.BankAmountRoundTrip | baestatement/parse.py:43-53 | every amount in cents, written the bank's way (dot thousands groups, comma decimals, trailing minus), reads back as exactly that amount |
| FieldParsing.ParseFieldAmountExample | baestatement/parse.py:43-53 | `"1.234,56-"` reads as -1234.56 |
| FieldParsing.ParseStatementDate | baestatement/parse.py:111 | an accepted token is three pieces joined by dots (day and month of one or two ASCII digits, a four-digit year), and the date read is the pieces' digit values, a valid calendar date |
| FieldParsing.ParseStatementDateAccepts | baestatement/parse.py:111 | every `d.m.yyyy` spelling with a one- or two-digit day and month, zero-padded or not, is accepted exactly when the date its digits denote exists, and then reads as that date |
| Numerals.IntRoundTrip | baestatement/parse.py:41 | every integer written in decimal reads back as itself |
| FieldParsing.FloatReadsIntegers | baestatement/parse.py:53 | `float()` reads every integer written in decimal, signed or not, as that integer |
| LineExtraction.LineZone | baestatement/parse.py:55-78 | a fragment is outside the bookings area (or on its right edge) or falls in exactly one of the four columns, given by the source's thresholds |
| LineExtraction.FieldUpdate | baestatement/parse.py:71-78 | a column's fragment is accepted exactly when its text parses as that column's kind (date, text, amount) |
| LineExtraction.ExtractStatementLines | baestatement/parse.py:61-80 | the page's rows are read without error exactly when every fragment is accepted; the rows are then the collected rows in `y` order |
| LineExtraction.ExtractRowsMeaning | baestatement/parse.py:61-80 | the collected rows are sorted strictly by `y`, and the row at each `y` holds, per column, the value of the last fragment in that column at that `y` |
| LineExtraction.ExtractRowsSucceeds | baestatement/parse.py:64-78 | collecting fails exactly when some fragment in a column does not parse |
| LineExtraction.ExtractStatementLinesErrors | baestatement/parse.py:72-78 | a failure names the text of one of the page's fragments as a malformed date or amount |
| LineExtraction.UpsertLookup | baestatement/parse.py:62-78 | updating the row at `y` changes that row by the update, starting from an empty line when there was none, and no other row |
| LineExtraction.UpsertSorted | baestatement/parse.py:80 | the row list stays strictly sorted by `y` |
| SummaryExtraction.SummarySlotBands | baestatement/parse.py:82-109 | the footer area's four bands and the statement-date box are told apart by the source's thresholds, and every other place is ignored |
| SummaryExtraction.DateTokenPrefix | baestatement/parse.py:110 | the date token is the stripped text up to its first space |
| SummaryExtraction.StatementDate | baestatement/parse.py:110-111 | the statement date is read from the token; it fails exactly when the token is not a valid `d.m.yyyy` date, naming the token; on success the token is three pieces joined by dots, and the date's year, month and day are the digit values of the third, second and first piece |
| SummaryExtraction.ExtractStatementSummarySucceeds | baestatement/parse.py:90-113 | the footer is read without error exactly when every fragment in a slot parses as that slot's kind |
| SummaryExtraction.ExtractStatementSummaryMeaning | baestatement/parse.py:90-113 | each footer value is the value of the last fragment in its slot, absent when there is none |
| SummaryExtraction.SummaryErrors | baestatement/parse.py:98-111 | a footer failure names one fragment's text as a malformed amount or its token as a malformed date |
| Stitching.StitchAllMeaning | baestatement/parse.py:115-147 | the fold fails exactly when some group of rows holds two amounts, and then with the multiple-amounts error (the multiple-value-dates error is unreachable); otherwise its state is the merged closed groups plus the open one |
| Stitching.CombineStatementLinesMeaning | baestatement/parse.py:115-149 | stitching succeeds exactly when no group holds two amounts, and then yields one merged booking per group |
| Stitching.GroupsPartition | baestatement/parse.py:125-146 | the groups are the non-empty rows in order; in each a booking date appears only on the first row and a value date only on the last, and consecutive groups meet only where the later one starts with a booking date or the earlier one ends with a value date |
| Stitching.MergeSnoc | baestatement/parse.py:133-146 | one more row adds its text on a new line, its amount and its value date to the booking |
| Stitching.MergeSingle | baestatement/parse.py:129-146 | a booking of one row is that row |
| Stitching.CombinedNotEmpty | baestatement/parse.py:119-123 | no booking produced is empty |
| Conservation.CombinedAmounts | baestatement/parse.py:139-141 | the bookings carry exactly the amounts of the input rows, in order: none lost, none invented |
| Conservation.CombinedTexts | baestatement/parse.py:133-137 | each booking's text is its group's texts joined by line breaks, and the groups' texts are the texts of the non-skipped rows, in order |
| StatementParsing.PagesLinesSucceeds | baestatement/parse.py:153-154 | the rows of the pages are read exactly when every fragment on every page is accepted |
| StatementParsing.PagesLinesAppend | baestatement/parse.py:153-154 | reading two runs of pages is reading each and concatenating the rows |
| StatementParsing.ParseStatementNoPages | baestatement/parse.py:151-159 | the missing-last-page error happens exactly for an empty document |
| StatementParsing.CoverPageIgnored | baestatement/parse.py:153 | with two or more pages, replacing the first page changes nothing |
| StatementParsing.SinglePage | baestatement/parse.py:151-159 | a one-page document has no bookings, and its footer is read from that page |
| StatementParsing.ParseStatementMeaning | baestatement/parse.py:151-159 | a statement is read exactly when there is a page, every booking page parses, no booking has two amounts and the last page's footer parses; the bookings are then the merged groups, none empty, and the footer holds each slot's last value |
| PageMarkup.DeclarationsSucceed | baestatement/pdf.py:24-30 | the style is read exactly when every non-blank declaration has exactly one colon |
| PageMarkup.DeclarationsError | baestatement/pdf.py:29 | a failure names a declaration that is not blank and does not have exactly one colon |
| PageMarkup.DeclarationsMeaning | baestatement/pdf.py:22-32 | each key maps to the stripped value of its last declaration |
| PageMarkup.BlankDeclarationIgnored | baestatement/pdf.py:25-27 | a blank declaration anywhere changes nothing |
| PageMarkup.TrailingSemicolon | baestatement/pdf.py:24-27 | a trailing semicolon changes nothing |
| PageMarkup.StyleRoundTrip | baestatement/pdf.py:22-32 | a style written from plain key/value pairs reads back as the map of those pairs, last one winning |
| PageMarkup.PixelValue | baestatement/pdf.py:36 | a property is read exactly when it is present and `int()` accepts it after one trailing `px` is removed, and then it is that integer; a missing property is an error naming the key, an unreadable one an error naming its value |
| PageMarkup.PixelRoundTrip | baestatement/pdf.py:36 | every integer written as `<n>px` reads back as itself |
| PageMarkup.OnePixelSuffix | baestatement/pdf.py:36 | only one `px` is removed: `5pxpx` is a bad pixel value |
| PageMarkup.ExtractTagCssSize | baestatement/pdf.py:34-36 | a style error comes first; otherwise the size is read exactly when both width and height are present and readable, and is the pair of their integers; the width's error wins over the height's |
| PageMarkup.ExtractTagCssPosition | baestatement/pdf.py:38-40 | a style error comes first; otherwise the position is read exactly when both left and top are present and readable, and is the pair of their integers; the left's error wins over the top's |
| PageMarkup.PositionRoundTrip | baestatement/pdf.py:38-40 | a `left: ..px; top: ..px` style reads back as that position |
| PageMarkup.NormalizeText | baestatement/pdf.py:50 | every no-break space becomes a space and every other character is kept |
| PageMarkup.NormalizeTextProperties | baestatement/pdf.py:50 | no no-break space is left, text without one is unchanged, and normalising twice is normalising once |
| PageMarkup.PutMeaning | baestatement/pdf.py:50 | storing a text at a position replaces that position's text and no other, positions stay distinct, and, as in a dict, a known position keeps its place while a new one goes last |
| PageMarkup.FragmentsMeaning | baestatement/pdf.py:42-52 | the page's fields have distinct positions, each position holds the normalised text of the last paragraph rounded onto it, and the positions come in the order of the first paragraph rounded onto each |
| Report.FmtFieldDateRoundTrip | baestatement/format/cli.py:5-9 | every printed booking date, and the five blanks of a missing one, reads back through the field-date reader as itself |
| Report.FmtFieldDateWidth | baestatement/format/cli.py:5-9 | a printed date with day and month between 0 and 99, or a missing one, is five characters wide |
| Report.FmtFieldDatetimeRoundTrip | baestatement/format/cli.py:11-15 | every valid date with a year from 1000 to 9999, printed, reads back through the statement-date reader as itself |
| Report.FmtFieldDatetimeMissing | baestatement/format/cli.py:11-15 | a missing statement date, and only a missing one, prints as nothing |
| Report.FmtFieldAmountMeaning | baestatement/format/cli.py:17-21 | a missing amount, and only a missing one, prints as nothing; a present one is a space, the formatted number, and a euro sign |
| Report.SuffixAsWrittenDiffers | baestatement/format/cli.py:21 | with the suffix as written, a present amount is followed by three stray characters and never by a euro sign |
| Report.LJust | baestatement/format/cli.py:35 | left alignment pads with spaces to the width and never cuts |
| Report.SegmentsJoin | baestatement/format/cli.py:27 | the segments of a booking's text join back to the text (`None` printed as `None`) and none contains a line break |
| Report.LineRowsLayout | baestatement/format/cli.py:26-35 | a booking prints one row per text segment; each row is its marker, a space and its segment padded with spaces to 57 columns (never cut); the first marker is `>> ` and the booking date, later markers are eight spaces; rows before the last end right after the padded segment, and the last row continues with exactly the value date and amount |
| Report.ReportLines | baestatement/format/cli.py:23-40 | split at line breaks, the report is exactly the booking rows followed by the three footer lines (given a number format without line breaks) |

## Left out

- The PDF-to-HTML conversion, the HTML parsing and the page lookup (`pdf_to_html`, `pdf_to_soup`, `extract_pdf_pages`, `pdf_to_page_fields`, baestatement/pdf.py:6-20 and 54-58). They call an external program and a parser library. A page is modelled as its style attributes and its paragraphs' text.
- `round(x, 4)` in `extract_page_fields` is a parameter. Binary floating point division and rounding are not modelled; the division is exact.
- Floating point in general. Amounts are exact reals, so `float()` is exact decimal reading. Its `inf`/`nan` spellings and non-ASCII digits are not modelled. The same goes for `int()` on non-ASCII digits and for `strip()`/`split()` beyond the whitespace set modelled.
- Report.FmtFieldAmount: the `+10.2f` number format is the parameter `number`; only the surrounding text is modelled.
- Report.FmtFieldDatetimeRoundTrip: stated for the years 1000 to 9999 only. The statement-date reader also accepts the years 0001 to 0999 (`%Y` matches any four digits), but `%Y` prints those years differently by platform; the model prints `str(year)`, which has fewer than four digits for them, so they do not read back.
- The `assert` messages of `combine_statement_lines` are not modelled; both asserts become error values. Under `python -O` the asserts are removed and a second amount silently replaces the first; the model always keeps the error.
- Everything outside the parsing core is not part of this model: baestatement/stats.py, the JSON, CSV and dump renderers, and the command-line programs under baestatement/cli.
- baestatement/cli/util.py:40 and baestatement/cli/interactive.py:9 pass a `strip` argument to `parse_statement`, and baestatement/format/json.py:14-27 uses `closing_date`, `closing_balance` and `assert_complete`. The `parse_statement` of baestatement/parse.py:151 takes no such argument and the statement types it uses define none of these, so the model follows parse.py and leaves them out.
- FieldParsing.ParseStatementDate: accepts ASCII digits only; the `%d`, `%m` and `%Y` of `strptime` also match other Unicode decimal digits.
- Report.FormatCli: prints amounts with the corrected euro suffix (see Findings); the three-character suffix as written is modelled only by Report.FmtFieldAmountAsWritten.

## Findings

| source | as written | input that shows it | evidently intended | confidence | as-written member | corrected member |
|---|---|---|---|---|---|---|
| baestatement/format/cli.py:21 | the currency suffix is the three characters U+00E2 U+201A U+00AC, the UTF-8 bytes of `€` decoded as Windows-1252 | any present amount, e.g. `fmt_field_amount(1.0)` ends in those three characters | a single `€` after the number | medium; the file's bytes show it, and baestatement/format/util.py:8 writes a real `€`; not executed | Report.SuffixAsWrittenDiffers | Report.FmtFieldAmountMeaning |
