/** Reading the HTML that `pdftohtml` writes for a PDF: inline `style`
    declarations, the pixel sizes and positions in them, and the text
    fragments of a page with their positions relative to the page size. */
module PageMarkup {
  import opened Wrappers
  import opened Strings
  import opened Numerals
  import opened StatementModel
  import opened Seqs

  /** Why a tag could not be read. */
  datatype MarkupError =
    | MissingAttribute(name: string)      // `tag.attrs[name]` raises `KeyError`
    | MalformedDeclaration(decl: string)  // `key, value = decl.split(":")` does not unpack
    | MissingProperty(key: string)        // `css[key]` raises `KeyError`
    | BadPixelValue(value: string)        // `int(...)` raises `ValueError`
    | ZeroPageSize                        // `abs_x / width` raises `ZeroDivisionError`

  /** A tag, reduced to its attributes. */
  datatype Tag = Tag(attrs: map<string, string>)

  /** A page `div` and its `p` fragments, in document order. */
  datatype Page = Page(tag: Tag, paragraphs: seq<Paragraph>)
  datatype Paragraph = Paragraph(tag: Tag, text: string)

  function Get(m: map<string, string>, key: string): Option<string> {
    if key in m then Some(m[key]) else None
  }

  // ---------------------------------------------------------------------
  // extract_tag_css

  /** The declarations of a `;`-separated list, first to last: blank ones
      are skipped, every other one must hold exactly one `:`, and a later
      declaration of a key replaces an earlier one. */
  function Declarations(parts: seq<string>): Result<map<string, string>, MarkupError> {
    if |parts| == 0 then Success(map[])
    else
      var props :- Declarations(parts[..|parts| - 1]);
      var decl := Strip(parts[|parts| - 1]);
      if decl == "" then Success(props)
      else
        var kv := Split(decl, ':');
        if |kv| != 2 then Failure(MalformedDeclaration(decl))
        else Success(props[Strip(kv[0]) := Strip(kv[1])])
  }

  /** `extract_tag_css`: the tag's inline style as a property map. */
  function ExtractTagCss(tag: Tag): Result<map<string, string>, MarkupError> {
    if "style" !in tag.attrs then Failure(MissingAttribute("style"))
    else Declarations(Split(tag.attrs["style"], ';'))
  }

  /** A piece of the list that is accepted: blank, or one `key: value`. */
  predicate WellFormed(part: string) {
    IsBlank(part) || Count(Strip(part), ':') == 1
  }

  /** The reference reading of one key: the value of its last declaration. */
  function LastValue(parts: seq<string>, key: string): Option<string> {
    if |parts| == 0 then None
    else
      var decl := Strip(parts[|parts| - 1]);
      var kv := Split(decl, ':');
      if decl != "" && |kv| == 2 && Strip(kv[0]) == key then Some(Strip(kv[1]))
      else LastValue(parts[..|parts| - 1], key)
  }

  /** The list is read without error exactly when every piece is blank or a
      single `key: value`. */
  lemma {:induction false} DeclarationsSucceed(parts: seq<string>)
    ensures Declarations(parts).Success? <==> forall i :: 0 <= i < |parts| ==> WellFormed(parts[i])
  {
    if |parts| > 0 {
      var prefix := parts[..|parts| - 1];
      DeclarationsSucceed(prefix);
      SplitCount(Strip(parts[|parts| - 1]), ':');
      AllSnoc(parts, prefix, WellFormed);
    }
  }

  /** A failure names the first piece that is not a single `key: value`. */
  lemma {:induction false} DeclarationsError(parts: seq<string>)
    requires Declarations(parts).Failure?
    ensures exists i :: (0 <= i < |parts| && !WellFormed(parts[i]) &&
      Declarations(parts).error == MalformedDeclaration(Strip(parts[i])))
  {
    var prefix := parts[..|parts| - 1];
    SplitCount(Strip(parts[|parts| - 1]), ':');
    if Declarations(prefix).Failure? {
      DeclarationsError(prefix);
      var i :| 0 <= i < |prefix| && !WellFormed(prefix[i]) &&
        Declarations(prefix).error == MalformedDeclaration(Strip(prefix[i]));
      assert prefix[i] == parts[i];
    } else {
      assert !WellFormed(parts[|parts| - 1]);
    }
  }

  /** A list read without error maps every key to the value of its last
      declaration and holds no other key. */
  lemma {:induction false} DeclarationsMeaning(parts: seq<string>)
    requires Declarations(parts).Success?
    ensures forall key :: Get(Declarations(parts).value, key) == LastValue(parts, key)
  {
    if |parts| > 0 {
      DeclarationsMeaning(parts[..|parts| - 1]);
    }
  }

  /** A blank piece anywhere in the list changes nothing. */
  lemma {:induction false} BlankDeclarationIgnored(p: seq<string>, blank: string, q: seq<string>)
    requires IsBlank(blank)
    ensures Declarations(p + [blank] + q) == Declarations(p + q)
  {
    if |q| == 0 {
      assert (p + [blank] + q)[..|p|] == p;
      assert p + q == p;
    } else {
      var q' := q[..|q| - 1];
      assert (p + [blank] + q)[..|p + [blank] + q| - 1] == p + [blank] + q';
      assert (p + q)[..|p + q| - 1] == p + q';
      BlankDeclarationIgnored(p, blank, q');
    }
  }

  /** An empty declaration between two `;` — and so a doubled `;` — changes
      nothing. */
  lemma DoubledSemicolon(a: string, b: string)
    ensures Declarations(Split(a + ";;" + b, ';')) == Declarations(Split(a + ";" + b, ';'))
  {
    DoubledSplit(a, b);
    assert a + ";" + b == a + [';'] + b;
    SplitAround(a, b, ';');
    BlankDeclarationIgnored(Split(a, ';'), "", Split(b, ';'));
  }

  lemma DoubledSplit(a: string, b: string)
    ensures Split(a + ";;" + b, ';') == Split(a, ';') + [""] + Split(b, ';')
  {
    assert a + ";;" + b == a + [';'] + ([';'] + b);
    SplitAround(a, [';'] + b, ';');
    assert [';'] + b == [] + [';'] + b;
    SplitAround([], b, ';');
  }

  /** A trailing `;` changes nothing. */
  lemma TrailingSemicolon(a: string)
    ensures Declarations(Split(a + ";", ';')) == Declarations(Split(a, ';'))
  {
    assert a + ";" == a + [';'] + [];
    SplitAround(a, [], ';');
    assert Split(a, ';') + [""] + [] == Split(a, ';') + [""];
    BlankDeclarationIgnored(Split(a, ';'), "", []);
    assert Split(a, ';') + [] == Split(a, ';');
  }

  // ---------------------------------------------------------------------
  // Writing a style, to read it back

  /** Neither end is whitespace, so `strip` leaves the text alone. */
  predicate Trimmed(s: string) {
    s == [] || (!IsWhitespace(s[0]) && !IsWhitespace(s[|s| - 1]))
  }

  /** A key or value that survives being written into a style: trimmed and
      free of the two delimiters. */
  predicate Plain(s: string) {
    Trimmed(s) && ';' !in s && ':' !in s
  }

  /** `key:value` */
  function DeclarationText(key: string, value: string): string {
    key + ":" + value
  }

  /** The declarations written one per piece, as `Join` puts them together. */
  function DeclarationTexts(decls: seq<(string, string)>): (r: seq<string>)
    ensures |r| == |decls|
    ensures forall i :: 0 <= i < |decls| ==> r[i] == DeclarationText(decls[i].0, decls[i].1)
  {
    if |decls| == 0 then [] else DeclarationTexts(decls[..|decls| - 1]) + [DeclarationText(decls[|decls| - 1].0, decls[|decls| - 1].1)]
  }

  /** `k1:v1;k2:v2;...` */
  function StyleText(decls: seq<(string, string)>): string {
    Join(DeclarationTexts(decls), ';')
  }

  /** The map the declarations denote: a later one for a key wins. */
  function DeclaredMap(decls: seq<(string, string)>): map<string, string> {
    if |decls| == 0 then map[]
    else DeclaredMap(decls[..|decls| - 1])[decls[|decls| - 1].0 := decls[|decls| - 1].1]
  }

  predicate PlainDeclaration(d: (string, string)) {
    Plain(d.0) && Plain(d.1)
  }

  /** A written style reads back as the map it was written from. */
  lemma StyleRoundTrip(decls: seq<(string, string)>)
    requires |decls| >= 1
    requires forall i :: 0 <= i < |decls| ==> PlainDeclaration(decls[i])
    ensures ExtractTagCss(Tag(map["style" := StyleText(decls)])) == Success(DeclaredMap(decls))
  {
    var texts := DeclarationTexts(decls);
    forall i | 0 <= i < |texts| ensures ';' !in texts[i] {
      assert PlainDeclaration(decls[i]);
    }
    SplitJoin(texts, ';');
    DeclarationsOfTexts(decls);
  }

  lemma {:induction false} DeclarationsOfTexts(decls: seq<(string, string)>)
    requires forall i :: 0 <= i < |decls| ==> PlainDeclaration(decls[i])
    ensures Declarations(DeclarationTexts(decls)) == Success(DeclaredMap(decls))
  {
    if |decls| > 0 {
      var prefix := decls[..|decls| - 1];
      var d := decls[|decls| - 1];
      AllSnoc(decls, prefix, PlainDeclaration);
      DeclarationsOfTexts(prefix);
      assert DeclarationTexts(decls)[..|decls| - 1] == DeclarationTexts(prefix);
      DeclarationReads(d.0, d.1);
    }
  }

  /** One written declaration reads back as its key and value. */
  lemma DeclarationReads(key: string, value: string)
    requires Plain(key) && Plain(value)
    ensures Strip(DeclarationText(key, value)) == DeclarationText(key, value)
    ensures Split(DeclarationText(key, value), ':') == [key, value]
    ensures Strip(key) == key && Strip(value) == value
  {
    var t := DeclarationText(key, value);
    assert t == key + [':'] + value;
    assert t[0] == (if key == [] then ':' else key[0]);
    assert t[|t| - 1] == (if value == [] then ':' else value[|value| - 1]);
    StripUnchanged(t);
    StripUnchanged(key);
    StripUnchanged(value);
    SplitAround(key, value, ':');
    SplitNoSeparator(key, ':');
    SplitNoSeparator(value, ':');
  }

  // ---------------------------------------------------------------------
  // extract_tag_css_size, extract_tag_css_position

  /** The property is present and `int()` accepts it once one trailing
      `px` is removed. */
  predicate HasPixels(css: map<string, string>, key: string) {
    key in css && ParseInt(RemoveSuffix(css[key], "px")).Some?
  }

  /** `int(css[key].removesuffix("px"))` */
  function PixelValue(css: map<string, string>, key: string): (r: Result<int, MarkupError>)
    ensures r.Success? <==> HasPixels(css, key)
    ensures r.Success? ==> r.value == ParseInt(RemoveSuffix(css[key], "px")).value
    ensures key !in css ==> r == Failure(MissingProperty(key))
    ensures key in css && !HasPixels(css, key) ==> r == Failure(BadPixelValue(css[key]))
  {
    if key !in css then Failure(MissingProperty(key))
    else match ParseInt(RemoveSuffix(css[key], "px"))
      case Some(n) => Success(n)
      case None => Failure(BadPixelValue(css[key]))
  }

  /** Only one `px` is removed: `5pxpx` is not a pixel count. */
  lemma OnePixelSuffix()
    ensures PixelValue(map["width" := "5pxpx"], "width") == Failure(BadPixelValue("5pxpx"))
  {
  }

  /** `n` written in pixels, `str(n) + "px"`. */
  function Pixels(n: int): string {
    IntToString(n) + "px"
  }

  /** A pixel count reads back. */
  lemma PixelRoundTrip(css: map<string, string>, key: string, n: int)
    requires key in css && css[key] == Pixels(n)
    ensures PixelValue(css, key) == Success(n)
  {
    assert EndsWith(Pixels(n), "px");
    IntRoundTrip(n);
  }

  /** `extract_tag_css_size`: the width and the height in pixels; a style
      error comes first, then the width's error, then the height's. */
  function ExtractTagCssSize(tag: Tag): (r: Result<(int, int), MarkupError>)
    ensures ExtractTagCss(tag).Failure? ==> r == Failure(ExtractTagCss(tag).error)
    ensures ExtractTagCss(tag).Success? ==>
      var css := ExtractTagCss(tag).value;
      && (r.Success? <==> HasPixels(css, "width") && HasPixels(css, "height"))
      && (r.Success? ==> r.value == (ParseInt(RemoveSuffix(css["width"], "px")).value,
                                     ParseInt(RemoveSuffix(css["height"], "px")).value))
      && (!HasPixels(css, "width") ==> r == Failure(PixelValue(css, "width").error))
      && (HasPixels(css, "width") && !HasPixels(css, "height") ==> r == Failure(PixelValue(css, "height").error))
  {
    var css :- ExtractTagCss(tag);
    var width :- PixelValue(css, "width");
    var height :- PixelValue(css, "height");
    Success((width, height))
  }

  /** `extract_tag_css_position`: the left and the top in pixels, checked in
      that order after the style. */
  function ExtractTagCssPosition(tag: Tag): (r: Result<(int, int), MarkupError>)
    ensures ExtractTagCss(tag).Failure? ==> r == Failure(ExtractTagCss(tag).error)
    ensures ExtractTagCss(tag).Success? ==>
      var css := ExtractTagCss(tag).value;
      && (r.Success? <==> HasPixels(css, "left") && HasPixels(css, "top"))
      && (r.Success? ==> r.value == (ParseInt(RemoveSuffix(css["left"], "px")).value,
                                     ParseInt(RemoveSuffix(css["top"], "px")).value))
      && (!HasPixels(css, "left") ==> r == Failure(PixelValue(css, "left").error))
      && (HasPixels(css, "left") && !HasPixels(css, "top") ==> r == Failure(PixelValue(css, "top").error))
  {
    var css :- ExtractTagCss(tag);
    var left :- PixelValue(css, "left");
    var top :- PixelValue(css, "top");
    Success((left, top))
  }

  /** A style written with a left and a top in pixels reads back as the
      position. */
  lemma PositionRoundTrip(x: int, y: int)
    ensures ExtractTagCssPosition(Tag(map["style" := StyleText([("left", Pixels(x)), ("top", Pixels(y))])])) == Success((x, y))
  {
    var css := map["left" := Pixels(x)]["top" := Pixels(y)];
    PositionStyle(x, y);
    PixelRoundTrip(css, "left", x);
    PixelRoundTrip(css, "top", y);
  }

  lemma PositionStyle(x: int, y: int)
    ensures ExtractTagCss(Tag(map["style" := StyleText([("left", Pixels(x)), ("top", Pixels(y))])])) ==
      Success(map["left" := Pixels(x)]["top" := Pixels(y)])
  {
    var decls := [("left", Pixels(x)), ("top", Pixels(y))];
    PixelsPlain(x);
    PixelsPlain(y);
    assert PlainDeclaration(decls[0]) && PlainDeclaration(decls[1]);
    StyleRoundTrip(decls);
    var css := DeclaredMap(decls);
    assert DeclaredMap(decls[..1]) == map["left" := Pixels(x)] by {
      assert decls[..1][..0] == [];
      assert decls[..1][0] == ("left", Pixels(x));
    }
    assert "left"[0] != "top"[0];
    assert css == map["left" := Pixels(x)]["top" := Pixels(y)];
  }

  /** A pixel count is a plain value. */
  lemma PixelsPlain(n: int)
    ensures Plain(Pixels(n))
  {
    PlainNumber(if n < 0 then "-" else "", NatToDigits(if n < 0 then -n else n));
  }

  lemma PlainNumber(sign: string, digits: string)
    requires sign == "" || sign == "-"
    requires |digits| >= 1 && AllDigits(digits)
    ensures Plain(sign + digits + "px")
  {
    var t := sign + digits + "px";
    assert t[0] == (if sign == "" then digits[0] else '-');
    assert t[|t| - 1] == 'x';
    forall i | 0 <= i < |t| ensures t[i] != ';' && t[i] != ':' {
      if |sign| <= i < |sign| + |digits| {
        assert t[i] == digits[i - |sign|];
      }
    }
  }

  // ---------------------------------------------------------------------
  // extract_page_fields

  /** U+00A0, which `pdftohtml` writes for runs of spaces. */
  const NoBreakSpace: char := '\U{A0}'

  /** `text.replace("\xa0", " ")`: every no-break space becomes a space. */
  function NormalizeText(s: string): (r: string)
    ensures |r| == |s|
    ensures forall i :: 0 <= i < |s| ==> r[i] == (if s[i] == NoBreakSpace then ' ' else s[i])
  {
    if |s| == 0 then "" else NormalizeText(s[..|s| - 1]) + [if s[|s| - 1] == NoBreakSpace then ' ' else s[|s| - 1]]
  }

  /** No no-break space is left, a text without one is unchanged, and
      normalising twice is normalising once. */
  lemma NormalizeTextProperties(s: string)
    ensures NoBreakSpace !in NormalizeText(s)
    ensures NoBreakSpace !in s ==> NormalizeText(s) == s
    ensures NormalizeText(NormalizeText(s)) == NormalizeText(s)
  {
  }

  /** `fields[(x, y)] = text` on a dict: a new position is appended, a known
      one keeps its place and takes the new text. */
  function Put(fields: seq<Field>, x: real, y: real, text: string): (r: seq<Field>)
    ensures |r| == |fields| || |r| == |fields| + 1
  {
    if |fields| == 0 then [Field(x, y, text)]
    else if fields[0].x == x && fields[0].y == y then [Field(x, y, text)] + fields[1..]
    else [fields[0]] + Put(fields[1..], x, y, text)
  }

  /** The text at a position, if any. */
  function TextAt(fields: seq<Field>, x: real, y: real): Option<string> {
    if |fields| == 0 then None
    else if fields[0].x == x && fields[0].y == y then Some(fields[0].text)
    else TextAt(fields[1..], x, y)
  }

  /** No position occurs twice, as in a dict. */
  predicate DistinctPositions(fields: seq<Field>) {
    forall i, j :: 0 <= i < j < |fields| ==> (fields[i].x, fields[i].y) != (fields[j].x, fields[j].y)
  }

  /** The positions, in dict order. */
  function Positions(fields: seq<Field>): seq<(real, real)> {
    if |fields| == 0 then [] else [(fields[0].x, fields[0].y)] + Positions(fields[1..])
  }

  /** `Put` keeps the positions distinct, sets the text at its position and
      leaves every other position alone; as in a dict, a known position keeps
      its place and a new one goes last. */
  lemma {:induction false} PutMeaning(fields: seq<Field>, x: real, y: real, text: string)
    requires DistinctPositions(fields)
    ensures DistinctPositions(Put(fields, x, y, text))
    ensures forall x', y' :: TextAt(Put(fields, x, y, text), x', y') == if x' == x && y' == y then Some(text) else TextAt(fields, x', y')
    ensures Positions(Put(fields, x, y, text)) ==
      if (x, y) in Positions(fields) then Positions(fields) else Positions(fields) + [(x, y)]
  {
    PutOrder(fields, x, y, text);
    if |fields| > 0 && !(fields[0].x == x && fields[0].y == y) {
      PutMeaning(fields[1..], x, y, text);
      var r := Put(fields[1..], x, y, text);
      forall j | 0 <= j < |r| ensures (fields[0].x, fields[0].y) != (r[j].x, r[j].y) {
        PutPositions(fields[1..], x, y, text, j);
        if !(r[j].x == x && r[j].y == y) {
          var k :| 0 <= k < |fields[1..]| && (fields[1..][k].x, fields[1..][k].y) == (r[j].x, r[j].y);
          assert fields[1..][k] == fields[k + 1];
        }
      }
    } else if |fields| > 0 {
      forall j | 1 <= j < |fields| ensures (x, y) != (fields[j].x, fields[j].y) {
        assert (fields[0].x, fields[0].y) != (fields[j].x, fields[j].y);
      }
      forall x', y' | !(x' == x && y' == y) ensures TextAt(fields, x', y') == TextAt(fields[1..], x', y') {
      }
    }
  }

  lemma {:induction false} PutOrder(fields: seq<Field>, x: real, y: real, text: string)
    ensures Positions(Put(fields, x, y, text)) ==
      if (x, y) in Positions(fields) then Positions(fields) else Positions(fields) + [(x, y)]
  {
    if |fields| > 0 && !(fields[0].x == x && fields[0].y == y) {
      PutOrder(fields[1..], x, y, text);
      assert Positions(fields) == [(fields[0].x, fields[0].y)] + Positions(fields[1..]);
    }
  }

  /** Every position after `Put` is the new one or an old one. */
  lemma {:induction false} PutPositions(fields: seq<Field>, x: real, y: real, text: string, j: int)
    requires 0 <= j < |Put(fields, x, y, text)|
    ensures var r := Put(fields, x, y, text);
      (r[j].x == x && r[j].y == y) || exists k :: 0 <= k < |fields| && (fields[k].x, fields[k].y) == (r[j].x, r[j].y)
  {
    var r := Put(fields, x, y, text);
    if |fields| > 0 && !(fields[0].x == x && fields[0].y == y) && j > 0 {
      PutPositions(fields[1..], x, y, text, j - 1);
      var r' := Put(fields[1..], x, y, text);
      assert r[j] == r'[j - 1];
      if !(r'[j - 1].x == x && r'[j - 1].y == y) {
        var k :| 0 <= k < |fields[1..]| && (fields[1..][k].x, fields[1..][k].y) == (r'[j - 1].x, r'[j - 1].y);
        assert fields[1..][k] == fields[k + 1];
      }
    } else if |fields| > 0 && j > 0 {
      assert r[j] == fields[j];
    } else if |fields| > 0 && !(fields[0].x == x && fields[0].y == y) {
      assert r[0] == fields[0];
    }
  }

  /** `extract_page_fields`: each `p` fragment at its position relative to
      the page size, rounded by `round` (`round(v, precision)`), with its
      text normalised; a later fragment at the same position replaces the
      text of an earlier one. */
  function ExtractPageFields(page: Page, round: real -> real): Result<seq<Field>, MarkupError> {
    var (width, height) :- ExtractTagCssSize(page.tag);
    Fragments(page.paragraphs, width, height, round)
  }

  function Fragments(paragraphs: seq<Paragraph>, width: int, height: int, round: real -> real): Result<seq<Field>, MarkupError> {
    if |paragraphs| == 0 then Success([])
    else
      var fields :- Fragments(paragraphs[..|paragraphs| - 1], width, height, round);
      var p := paragraphs[|paragraphs| - 1];
      var (left, top) :- ExtractTagCssPosition(p.tag);
      if width == 0 || height == 0 then Failure(ZeroPageSize)
      else
        var x, y := round(left as real / width as real), round(top as real / height as real);
        Success(Put(fields, x, y, NormalizeText(p.text)))
  }

  /** Where a fragment lands on the page. */
  function PositionOf(p: Paragraph, width: int, height: int, round: real -> real): Option<(real, real)>
    requires width != 0 && height != 0
  {
    match ExtractTagCssPosition(p.tag)
    case Success((left, top)) => Some((round(left as real / width as real), round(top as real / height as real)))
    case Failure(_) => None
  }

  /** The reference reading: the normalised text of the last fragment that
      lands on the position. */
  function LastTextAt(paragraphs: seq<Paragraph>, width: int, height: int, round: real -> real, x: real, y: real): Option<string>
    requires width != 0 && height != 0
  {
    if |paragraphs| == 0 then None
    else
      var p := paragraphs[|paragraphs| - 1];
      if PositionOf(p, width, height, round) == Some((x, y)) then Some(NormalizeText(p.text))
      else LastTextAt(paragraphs[..|paragraphs| - 1], width, height, round, x, y)
  }

  /** The positions the fragments land on, in document order, repeats
      included. */
  function PlacedPositions(paragraphs: seq<Paragraph>, width: int, height: int, round: real -> real): seq<(real, real)>
    requires width != 0 && height != 0
  {
    if |paragraphs| == 0 then []
    else
      PlacedPositions(paragraphs[..|paragraphs| - 1], width, height, round)
        + match PositionOf(paragraphs[|paragraphs| - 1], width, height, round)
          case Some(q) => [q]
          case None => []
  }

  /** Each position once, at its first occurrence. */
  function FirstOccurrences(ps: seq<(real, real)>): seq<(real, real)> {
    if |ps| == 0 then []
    else
      var firsts := FirstOccurrences(ps[..|ps| - 1]);
      if ps[|ps| - 1] in firsts then firsts else firsts + [ps[|ps| - 1]]
  }

  /** Dropping repeats loses no position and invents none. */
  lemma {:induction false} FirstOccurrencesElements(ps: seq<(real, real)>)
    ensures forall q :: q in FirstOccurrences(ps) <==> q in ps
  {
    if |ps| > 0 {
      FirstOccurrencesElements(ps[..|ps| - 1]);
      assert ps == ps[..|ps| - 1] + [ps[|ps| - 1]];
    }
  }

  /** The fragments of a page with a size are read into a dict-like list:
      no position twice, each position holds the text of the last fragment
      on it, and the positions come in the order of their first fragment. */
  lemma {:induction false} FragmentsMeaning(paragraphs: seq<Paragraph>, width: int, height: int, round: real -> real)
    requires width != 0 && height != 0
    requires Fragments(paragraphs, width, height, round).Success?
    ensures DistinctPositions(Fragments(paragraphs, width, height, round).value)
    ensures forall x, y :: TextAt(Fragments(paragraphs, width, height, round).value, x, y) == LastTextAt(paragraphs, width, height, round, x, y)
    ensures Positions(Fragments(paragraphs, width, height, round).value) ==
      FirstOccurrences(PlacedPositions(paragraphs, width, height, round))
  {
    if |paragraphs| > 0 {
      var prefix := paragraphs[..|paragraphs| - 1];
      var p := paragraphs[|paragraphs| - 1];
      FragmentsStep(paragraphs, width, height, round);
      FragmentsMeaning(prefix, width, height, round);
      var q := PositionOf(p, width, height, round).value;
      PutMeaning(Fragments(prefix, width, height, round).value, q.0, q.1, NormalizeText(p.text));
    }
    FragmentsOrder(paragraphs, width, height, round);
  }

  lemma {:induction false} FragmentsOrder(paragraphs: seq<Paragraph>, width: int, height: int, round: real -> real)
    requires width != 0 && height != 0
    requires Fragments(paragraphs, width, height, round).Success?
    ensures Positions(Fragments(paragraphs, width, height, round).value) ==
      FirstOccurrences(PlacedPositions(paragraphs, width, height, round))
  {
    if |paragraphs| > 0 {
      var prefix := paragraphs[..|paragraphs| - 1];
      var p := paragraphs[|paragraphs| - 1];
      FragmentsStep(paragraphs, width, height, round);
      FragmentsOrder(prefix, width, height, round);
      var q := PositionOf(p, width, height, round).value;
      PutOrder(Fragments(prefix, width, height, round).value, q.0, q.1, NormalizeText(p.text));
      FirstOccurrencesSnoc(PlacedPositions(prefix, width, height, round), q);
    }
  }

  /** A readable page adds its last fragment at the position it lands on. */
  lemma FragmentsStep(paragraphs: seq<Paragraph>, width: int, height: int, round: real -> real)
    requires width != 0 && height != 0 && |paragraphs| > 0
    requires Fragments(paragraphs, width, height, round).Success?
    ensures
      var prefix := paragraphs[..|paragraphs| - 1];
      var p := paragraphs[|paragraphs| - 1];
      && Fragments(prefix, width, height, round).Success?
      && PositionOf(p, width, height, round).Some?
      && var q := PositionOf(p, width, height, round).value;
      && Fragments(paragraphs, width, height, round).value == Put(Fragments(prefix, width, height, round).value, q.0, q.1, NormalizeText(p.text))
      && PlacedPositions(paragraphs, width, height, round) == PlacedPositions(prefix, width, height, round) + [q]
  {
  }

  lemma FirstOccurrencesSnoc(ps: seq<(real, real)>, q: (real, real))
    ensures FirstOccurrences(ps + [q]) ==
      if q in FirstOccurrences(ps) then FirstOccurrences(ps) else FirstOccurrences(ps) + [q]
  {
    assert (ps + [q])[..|ps|] == ps;
  }
}
