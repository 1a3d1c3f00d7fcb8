/** Parsers for single text fields of the statement: `"dd.mm"` dates,
    bank-locale amounts (`1.234,56-`), and the `dd.mm.yyyy` statement date. */
module FieldParsing {
  import opened Wrappers
  import opened Strings
  import opened Numerals
  import opened StatementModel

  // ---------------------------------------------------------------------
  // parse_field_date

  /** A booking or value date cell. Blank gives `None`; otherwise the stripped
      text must split on `.` into exactly two integers, read as (day, month). */
  function ParseFieldDate(field: string): (r: Result<Option<DayMonth>, ParseError>)
    ensures r == Success(None) <==> IsBlank(field)
    ensures r.Success? && r.value.Some? ==>
      var parts := Split(Strip(field), '.');
      && |parts| == 2
      && ParseInt(parts[0]) == Some(r.value.value.day)
      && ParseInt(parts[1]) == Some(r.value.value.month)
    ensures !IsBlank(field) && Count(Strip(field), '.') != 1 ==> r == Failure(MalformedDate(field))
    ensures r.Failure? ==> r.error == MalformedDate(field)
    ensures
      var parts := Split(Strip(field), '.');
      !IsBlank(field) && |parts| == 2 && ParseInt(parts[0]).Some? && ParseInt(parts[1]).Some? ==>
        r == Success(Some(DayMonth(ParseInt(parts[0]).value, ParseInt(parts[1]).value)))
  {
    var f := Strip(field);
    if f == "" then Success(None)
    else
      var parts := Split(f, '.');
      SplitCount(f, '.');
      if |parts| != 2 then Failure(MalformedDate(field))
      else match (ParseInt(parts[0]), ParseInt(parts[1]))
        case (Some(day), Some(month)) => Success(Some(DayMonth(day, month)))
        case _ => Failure(MalformedDate(field))
  }

  // ---------------------------------------------------------------------
  // parse_field_amount

  /** A trailing run of `-` becomes one leading `-`: the result is a minus
      followed by the text before that run, which is the whole run of minus
      signs at the end. */
  function MoveSign(f: string): (r: string)
    ensures EndsWith(f, "-") ==>
      && 1 <= |r| <= |f|
      && r[0] == '-'
      && r[1..] == f[..|r| - 1]
      && (forall i :: |r| - 1 <= i < |f| ==> f[i] == '-')
      && (|r| == 1 || f[|r| - 2] != '-')
    ensures !EndsWith(f, "-") ==> r == f
  {
    if EndsWith(f, "-") then "-" + RStripChar(f, '-') else f
  }

  /** What one character turns into: `.` is dropped, `,` becomes `.`. */
  function SeparatorImage(c: char): string {
    if c == '.' then "" else if c == ',' then "." else [c]
  }

  /** `re.sub("[.,]", ...)` with the replacements `.` -> `` and `,` -> `.`. */
  function SwapSeparators(s: string): string {
    if |s| == 0 then "" else SwapSeparators(s[..|s| - 1]) + SeparatorImage(s[|s| - 1])
  }

  /** The bank-locale amount text turned into Python float syntax. */
  function NormalizeAmount(f: string): string {
    SwapSeparators(MoveSign(f))
  }

  /** An amount cell. Blank gives `None`; otherwise the normalised text must
      be a float literal. */
  function ParseFieldAmount(field: string): (r: Result<Option<real>, ParseError>)
    ensures r == Success(None) <==> IsBlank(field)
    ensures r.Success? && r.value.Some? ==> ParseFloat(NormalizeAmount(Strip(field))) == Some(r.value.value)
    ensures !IsBlank(field) && ParseFloat(NormalizeAmount(Strip(field))).None? ==> r == Failure(MalformedAmount(field))
    ensures r.Failure? ==> r.error == MalformedAmount(field)
    ensures !IsBlank(field) && ParseFloat(NormalizeAmount(Strip(field))).Some? ==>
      r == Success(Some(ParseFloat(NormalizeAmount(Strip(field))).value))
  {
    var f := Strip(field);
    if f == "" then Success(None)
    else match ParseFloat(NormalizeAmount(f))
      case Some(v) => Success(Some(v))
      case None => Failure(MalformedAmount(field))
  }

  /** Replacing separators acts character by character, so it distributes over
      concatenation. */
  lemma {:induction false} SwapSeparatorsAppend(a: string, b: string)
    ensures SwapSeparators(a + b) == SwapSeparators(a) + SwapSeparators(b)
  {
    if |b| == 0 {
      assert a + b == a;
    } else {
      var b', c := b[..|b| - 1], b[|b| - 1];
      assert a + b == (a + b') + [c];
      assert b == b' + [c];
      SwapSeparatorsAppend(a, b');
      SwapSeparatorsSnoc(a + b', c);
      SwapSeparatorsSnoc(b', c);
    }
  }

  lemma SwapSeparatorsSnoc(s: string, c: char)
    ensures SwapSeparators(s + [c]) == SwapSeparators(s) + SeparatorImage(c)
  {
    assert (s + [c])[..|s|] == s;
  }

  /** After replacement no `,` remains, there are as many `.` as there were
      `,`, every non-separator character survives in order, and each
      character is replaced where it stands. */
  lemma SwapSeparatorsMeaning(s: string)
    ensures ',' !in SwapSeparators(s)
    ensures Count(SwapSeparators(s), '.') == Count(s, ',')
    ensures NonSeparators(SwapSeparators(s)) == NonSeparators(s)
    ensures forall i :: 0 <= i < |s| ==>
      SwapSeparators(s) == SwapSeparators(s[..i]) + SeparatorImage(s[i]) + SwapSeparators(s[i + 1..])
  {
    SwapSeparatorsCounts(s);
    SwapSeparatorsAt(s);
  }

  lemma {:induction false} SwapSeparatorsCounts(s: string)
    ensures ',' !in SwapSeparators(s)
    ensures Count(SwapSeparators(s), '.') == Count(s, ',')
    ensures NonSeparators(SwapSeparators(s)) == NonSeparators(s)
  {
    if |s| > 0 {
      var init := s[..|s| - 1];
      var c := s[|s| - 1];
      SwapSeparatorsCounts(init);
      CountAppend(SwapSeparators(init), SeparatorImage(c), '.');
      NonSeparatorsAppend(SwapSeparators(init), SeparatorImage(c));
      assert s == init + [c];
      NonSeparatorsAppend(init, [c]);
      if c == ',' {
        assert SeparatorImage(c) == "." && SeparatorImage(c)[..0] == "";
      } else if c != '.' {
        assert SeparatorImage(c) == [c] && SeparatorImage(c)[..0] == "";
      }
    }
  }

  /** The characters of `s` other than `.` and `,`, in order. */
  function NonSeparators(s: string): string {
    if |s| == 0 then ""
    else NonSeparators(s[..|s| - 1]) + (if s[|s| - 1] in ".," then "" else [s[|s| - 1]])
  }

  lemma {:induction false} NonSeparatorsAppend(a: string, b: string)
    ensures NonSeparators(a + b) == NonSeparators(a) + NonSeparators(b)
  {
    if |b| == 0 {
      assert a + b == a;
    } else {
      assert (a + b)[..|a + b| - 1] == a + b[..|b| - 1];
      NonSeparatorsAppend(a, b[..|b| - 1]);
    }
  }

  // ---------------------------------------------------------------------
  // The bank's own amount spelling, as a reference for the parser.

  /** `n` in three digits with leading zeros. */
  function Pad3(n: nat): (s: string)
    requires n < 1000
    ensures |s| == 3 && AllDigits(s) && DigitsValue(s) == n
  {
    var s := [DigitChar(n / 100), DigitChar(n / 10 % 10), DigitChar(n % 10)];
    var s1, s2 := s[..1], s[..2];
    assert s1[..0] == [] && s2[..1] == s1 && s[..2] == s2;
    assert DigitsValue(s1) == n / 100;
    assert DigitsValue(s2) == DigitsValue(s1) * 10 + n / 10 % 10;
    assert DigitsValue(s) == DigitsValue(s2) * 10 + n % 10;
    assert n / 10 == n / 100 * 10 + n / 10 % 10;
    s
  }

  /** `n` with a `.` between groups of three digits: `1234567` is `1.234.567`. */
  function Grouped(n: nat): (s: string)
    ensures |s| >= 1 && IsDigit(s[0]) && IsDigit(s[|s| - 1])
    ensures forall i :: 0 <= i < |s| ==> IsDigit(s[i]) || s[i] == '.'
  {
    if n < 1000 then NatToDigits(n)
    else Grouped(n / 1000) + "." + Pad3(n % 1000)
  }

  function Magnitude(cents: int): nat {
    if cents < 0 then -cents else cents
  }

  /** The digits and decimal comma of an amount of `n` cents: `1.234,56`. */
  function BankDigits(n: nat): (s: string)
    ensures |s| >= 1 && IsDigit(s[0]) && IsDigit(s[|s| - 1])
  {
    Grouped(n / 100) + "," + Pad3(n % 100)[1..]
  }

  /** An amount of `cents` as the statement prints it: thousands `.`, decimal
      `,`, and a trailing `-` on negative amounts. */
  function BankAmount(cents: int): (s: string)
    ensures |s| >= 1 && IsDigit(s[0])
  {
    BankDigits(Magnitude(cents)) + (if cents < 0 then "-" else "")
  }

  /** The same amount in Python float syntax, without its sign: `1234.56`. */
  function PlainDigits(n: nat): string {
    SwapSeparators(Grouped(n / 100)) + "." + Pad3(n % 100)[1..]
  }

  /** Dropping the thousands separators leaves the digits of `n`. */
  lemma {:induction false} GroupedNormalizes(n: nat)
    ensures AllDigits(SwapSeparators(Grouped(n)))
    ensures |SwapSeparators(Grouped(n))| >= 1
    ensures DigitsValue(SwapSeparators(Grouped(n))) == n
  {
    if n < 1000 {
      NoSeparatorsUnchanged(NatToDigits(n));
    } else {
      GroupedNormalizes(n / 1000);
      SwapGrouped(n);
      DigitsThenThree(SwapSeparators(Grouped(n / 1000)), Pad3(n % 1000), n / 1000, n % 1000);
    }
  }

  /** Digits followed by a three-digit group read as `hi * 1000 + lo`. */
  lemma DigitsThenThree(head: string, tail: string, hi: nat, lo: nat)
    requires |head| >= 1 && AllDigits(head) && DigitsValue(head) == hi
    requires |tail| == 3 && AllDigits(tail) && DigitsValue(tail) == lo
    ensures |head + tail| >= 1 && AllDigits(head + tail) && DigitsValue(head + tail) == hi * 1000 + lo
  {
    AllDigitsAppend(head, tail);
    DigitsValueAppend(head, tail);
    assert Pow10(3) == 1000;
  }

  lemma SwapGrouped(n: nat)
    requires n >= 1000
    ensures SwapSeparators(Grouped(n)) == SwapSeparators(Grouped(n / 1000)) + Pad3(n % 1000)
  {
    SwapAround(Grouped(n / 1000), '.', Pad3(n % 1000));
    NoSeparatorsUnchanged(Pad3(n % 1000));
  }

  /** Rewriting around one character: `a + [c] + b` becomes the images of the
      three pieces. */
  lemma SwapAround(a: string, c: char, b: string)
    ensures SwapSeparators(a + [c] + b) == SwapSeparators(a) + SeparatorImage(c) + SwapSeparators(b)
  {
    SwapSeparatorsAppend(a + [c], b);
    SwapSeparatorsSnoc(a, c);
  }

  /** Each character is replaced in place. */
  lemma SwapSeparatorsAt(s: string)
    ensures forall i :: 0 <= i < |s| ==>
      SwapSeparators(s) == SwapSeparators(s[..i]) + SeparatorImage(s[i]) + SwapSeparators(s[i + 1..])
  {
    forall i | 0 <= i < |s|
      ensures SwapSeparators(s) == SwapSeparators(s[..i]) + SeparatorImage(s[i]) + SwapSeparators(s[i + 1..])
    {
      SwapSeparatorsAtIndex(s, i);
    }
  }

  lemma SwapSeparatorsAtIndex(s: string, i: nat)
    requires i < |s|
    ensures SwapSeparators(s) == SwapSeparators(s[..i]) + SeparatorImage(s[i]) + SwapSeparators(s[i + 1..])
  {
    PiecesAround(s, i);
    SwapAround(s[..i], s[i], s[i + 1..]);
  }

  lemma PiecesAround(s: string, i: nat)
    requires i < |s|
    ensures s == s[..i] + [s[i]] + s[i + 1..]
  {
  }

  lemma {:induction false} NoSeparatorsUnchanged(s: string)
    requires AllDigits(s)
    ensures SwapSeparators(s) == s
  {
    if |s| > 0 {
      var p, c := s[..|s| - 1], s[|s| - 1];
      assert AllDigits(p) by {
        forall i | 0 <= i < |p| ensures IsDigit(p[i]) {
          assert p[i] == s[i];
        }
      }
      NoSeparatorsUnchanged(p);
      assert IsDigit(c) && SeparatorImage(c) == [c];
      assert s == p + [c];
      SwapSeparatorsSnoc(p, c);
    }
  }

  lemma {:induction false} DigitCountAllDigits(s: string)
    requires AllDigits(s)
    ensures DigitCount(s) == |s|
  {
    if |s| > 0 {
      DigitCountAllDigits(s[..|s| - 1]);
    }
  }

  /** The sign of a bank-printed amount moves from the end to the front. */
  lemma MoveBankSign(cents: int)
    ensures MoveSign(BankAmount(cents)) == (if cents < 0 then "-" else "") + BankDigits(Magnitude(cents))
  {
    var body := BankDigits(Magnitude(cents));
    var s := BankAmount(cents);
    if cents < 0 {
      assert s == body + "-";
      assert s[..|s| - 1] == body;
      assert RStripChar(s, '-') == body;
    } else {
      assert s == body;
      assert "" + body == body;
    }
  }

  /** Separator rewriting turns the bank's digits into a plain decimal literal. */
  lemma SwapBankDigits(n: nat)
    ensures SwapSeparators(BankDigits(n)) == PlainDigits(n)
  {
    var frac := Pad3(n % 100)[1..];
    NoSeparatorsUnchanged(frac);
    SwapAround(Grouped(n / 100), ',', frac);
  }

  /** What `parse_field_amount` hands to `float()` for a bank-printed amount. */
  lemma NormalizeBankAmount(cents: int)
    ensures NormalizeAmount(BankAmount(cents)) == (if cents < 0 then "-" else "") + PlainDigits(Magnitude(cents))
  {
    var n := Magnitude(cents);
    MoveBankSign(cents);
    SwapBankDigits(n);
    if cents < 0 {
      SwapSeparatorsAppend("-", BankDigits(n));
      SwapSeparatorsSnoc("", '-');
      assert "" + ['-'] == "-";
    } else {
      assert "" + BankDigits(n) == BankDigits(n);
      assert "" + PlainDigits(n) == PlainDigits(n);
    }
  }

  /** The plain literal starts and ends with a digit, has no exponent, and its
      mantissa is worth the amount in units. */
  lemma PlainDigitsValue(n: nat)
    ensures var m := PlainDigits(n);
      && |m| >= 1 && IsDigit(m[0]) && IsDigit(m[|m| - 1])
      && ExponentIndex(m) == |m|
      && ParseMantissa(m) == Some(Units(n))
  {
    var whole, frac := SwapSeparators(Grouped(n / 100)), Pad3(n % 100)[1..];
    GroupedNormalizes(n / 100);
    FractionValue(n % 100);
    PlainDigitsShape(whole, frac);
    MantissaValue(whole, frac);
    PlainDigitsUnits(n);
  }

  lemma PlainDigitsUnits(n: nat)
    ensures DecimalValue(SwapSeparators(Grouped(n / 100)), Pad3(n % 100)[1..]) == Units(n)
  {
    GroupedNormalizes(n / 100);
    FractionValue(n % 100);
    UnitsAndCents(n);
  }

  lemma PlainDigitsShape(whole: string, frac: string)
    requires |whole| >= 1 && AllDigits(whole) && |frac| >= 1 && AllDigits(frac)
    ensures var m := whole + "." + frac;
      |m| >= 1 && IsDigit(m[0]) && IsDigit(m[|m| - 1]) && ExponentIndex(m) == |m|
  {
    MantissaNoExponent(whole, frac);
  }

  /** An amount of cents in currency units. */
  function Units(cents: int): real {
    cents as real / 100.0
  }

  /** Whole units plus the cents as a fraction make up the amount. */
  lemma UnitsAndCents(n: nat)
    ensures (n / 100) as real + (n % 100) as real / 100.0 == Units(n)
  {
    var q, c := n / 100, n % 100;
    assert n == q * 100 + c;
    assert n as real == q as real * 100.0 + c as real;
  }

  /** The two printed cent digits read back as a fraction of 100. */
  lemma FractionValue(c: nat)
    requires c < 100
    ensures var frac := Pad3(c)[1..];
      |frac| == 2 && AllDigits(frac) && DigitsValue(frac) == c && Pow10(DigitCount(frac)) == 100
  {
    var p := Pad3(c);
    var frac := p[1..];
    assert p == [p[0]] + frac;
    DigitsValueAppend([p[0]], frac);
    assert [p[0]][..0] == [];
    DigitCountAllDigits(frac);
  }

  /** A signed literal whose body starts and ends with a digit strips to itself
      and splits into its sign and body. */
  lemma SignedLiteral(negative: bool, body: string)
    requires |body| >= 1 && IsDigit(body[0]) && IsDigit(body[|body| - 1])
    ensures SplitSign(Strip((if negative then "-" else "") + body)) == (negative, body)
  {
    var literal := (if negative then "-" else "") + body;
    assert literal[|literal| - 1] == body[|body| - 1];
    DigitNotWhitespace(body[|body| - 1]);
    if negative {
      assert literal[0] == '-';
      DigitNotWhitespace('-');
      assert literal[1..] == body;
    } else {
      assert literal == body;
      DigitNotWhitespace(body[0]);
    }
    StripUnchanged(literal);
  }

  /** A plain decimal literal `[-]digits.digits` reads as its exact value. */
  lemma DecimalLiteral(negative: bool, literal: string, mantissa: string, v: real)
    requires SplitSign(Strip(literal)) == (negative, mantissa)
    requires ExponentIndex(mantissa) == |mantissa|
    requires ParseMantissa(mantissa) == Some(v)
    ensures ParseFloat(literal) == Some(if negative then -v else v)
  {
    UnsignedFloatNoExponent(mantissa);
    SignedFloat(literal, negative, mantissa, v);
  }

  lemma MantissaNoExponent(whole: string, frac: string)
    requires AllDigits(whole) && AllDigits(frac)
    ensures ExponentIndex(whole + "." + frac) == |whole + "." + frac|
  {
    var mantissa := whole + "." + frac;
    forall i | 0 <= i < |mantissa| ensures mantissa[i] != 'e' && mantissa[i] != 'E' {
      if i < |whole| { assert mantissa[i] == whole[i]; }
      else if i > |whole| { assert mantissa[i] == frac[i - |whole| - 1]; }
    }
    ExponentIndexAbsent(mantissa);
  }

  /** `float()` reads every integer `str()` writes as that integer. */
  lemma FloatReadsIntegers(n: int)
    ensures ParseFloat(IntToString(n)) == Some(n as real)
  {
    var digits := NatToDigits(if n < 0 then -n else n);
    FloatReadsSigned(n < 0, IntToString(n), digits, n as real);
  }

  lemma FloatReadsSigned(negative: bool, literal: string, digits: string, w: real)
    requires literal == (if negative then "-" else "") + digits
    requires |digits| >= 1 && AllDigits(digits)
    requires DigitsValue(digits) as real == (if negative then -w else w)
    ensures ParseFloat(literal) == Some(w)
  {
    assert IsDigit(digits[0]) && IsDigit(digits[|digits| - 1]);
    SignedLiteral(negative, digits);
    MantissaDigits(digits);
    ReadsMantissa(negative, literal, digits, w);
  }

  lemma ReadsMantissa(negative: bool, literal: string, mantissa: string, w: real)
    requires SplitSign(Strip(literal)) == (negative, mantissa)
    requires ExponentIndex(mantissa) == |mantissa|
    requires ParseMantissa(mantissa) == Some(if negative then -w else w)
    ensures ParseFloat(literal) == Some(w)
  {
    DecimalLiteral(negative, literal, mantissa, if negative then -w else w);
  }

  /** A digit run is a mantissa without a point or an exponent. */
  lemma MantissaDigits(digits: string)
    requires |digits| >= 1 && AllDigits(digits)
    ensures ExponentIndex(digits) == |digits|
    ensures ParseMantissa(digits) == Some(DigitsValue(digits) as real)
  {
    ExponentIndexAbsent(digits);
    AllDigitsPlain(digits);
    SplitNoSeparator(digits, '.');
    AllDigitsIsDigitPart(digits);
  }

  lemma MantissaValue(whole: string, frac: string)
    requires |whole| >= 1 && AllDigits(whole)
    requires |frac| >= 1 && AllDigits(frac)
    ensures ParseMantissa(whole + "." + frac) == Some(DecimalValue(whole, frac))
  {
    var parts := Split(whole + "." + frac, '.');
    assert parts == [whole, frac] by {
      SplitAround(whole, frac, '.');
      SplitNoSeparator(whole, '.');
      SplitNoSeparator(frac, '.');
    }
    AllDigitsIsDigitPart(whole);
    AllDigitsIsDigitPart(frac);
  }

  /** An amount cell already stripped whose normalised text is a sign and a
      plain decimal mantissa reads as that mantissa's signed value. */
  lemma AmountFromLiteral(field: string, negative: bool, mantissa: string, v: real)
    requires Strip(field) == field != []
    requires SplitSign(Strip(NormalizeAmount(field))) == (negative, mantissa)
    requires ExponentIndex(mantissa) == |mantissa|
    requires ParseMantissa(mantissa) == Some(v)
    ensures ParseFieldAmount(field) == Success(Some(if negative then -v else v))
  {
    DecimalLiteral(negative, NormalizeAmount(field), mantissa, v);
  }

  /** A bank-printed amount is already stripped, and its normalised text is a
      sign and a plain mantissa worth the magnitude in units. */
  lemma BankLiteral(cents: int)
    ensures Strip(BankAmount(cents)) == BankAmount(cents) != []
    ensures SplitSign(Strip(NormalizeAmount(BankAmount(cents)))) == (cents < 0, PlainDigits(Magnitude(cents)))
    ensures ExponentIndex(PlainDigits(Magnitude(cents))) == |PlainDigits(Magnitude(cents))|
    ensures ParseMantissa(PlainDigits(Magnitude(cents))) == Some(Units(Magnitude(cents)))
  {
    StripBankAmount(cents);
    NormalizeBankAmount(cents);
    PlainDigitsValue(Magnitude(cents));
    SignedLiteral(cents < 0, PlainDigits(Magnitude(cents)));
  }

  lemma StripBankAmount(cents: int)
    ensures Strip(BankAmount(cents)) == BankAmount(cents) != []
  {
    var s := BankAmount(cents);
    assert s[|s| - 1] == '-' || s[|s| - 1] == BankDigits(Magnitude(cents))[|BankDigits(Magnitude(cents))| - 1];
    StripUnchanged(s);
  }

  /** `parse_field_amount` reads every amount the bank prints back as its
      exact value. */
  lemma BankAmountRoundTrip(cents: int)
    ensures ParseFieldAmount(BankAmount(cents)) == Success(Some(Units(cents)))
  {
    BankLiteral(cents);
    AmountFromLiteral(BankAmount(cents), cents < 0, PlainDigits(Magnitude(cents)), Units(Magnitude(cents)));
    SignedCents(cents);
  }

  lemma SignedCents(cents: int)
    ensures (if cents < 0 then -Units(Magnitude(cents)) else Units(Magnitude(cents))) == Units(cents)
  {
  }

  /** The example amount: `1.234,56-` is -1234.56. */
  lemma ParseFieldAmountExample()
    ensures ParseFieldAmount("1.234,56-") == Success(Some(-1234.56))
  {
    BankAmountSample();
    BankAmountRoundTrip(-123456);
    assert Units(-123456) == -1234.56;
  }

  lemma BankAmountSample()
    ensures BankAmount(-123456) == "1.234,56-"
  {
    BankDigitsSample();
    assert Magnitude(-123456) == 123456;
    assert "1.234,56" + "-" == "1.234,56-";
  }

  lemma BankDigitsSample()
    ensures BankDigits(123456) == "1.234,56"
  {
    GroupedSample();
    assert Pad3(56) == "056";
    assert Pad3(56)[1..] == "56";
    assert "1.234" + "," + "56" == "1.234,56";
  }

  lemma GroupedSample()
    ensures Grouped(1234) == "1.234"
  {
    assert NatToDigits(1) == "1";
    assert Pad3(234) == "234";
    assert "1" + "." + "234" == "1.234";
  }

  lemma ExponentIndexAbsent(s: string)
    requires forall i :: 0 <= i < |s| ==> s[i] != 'e' && s[i] != 'E'
    ensures ExponentIndex(s) == |s|
  {
  }

  // ---------------------------------------------------------------------
  // datetime.strptime(token, "%d.%m.%Y")

  predicate IsLeapYear(year: int) {
    year % 4 == 0 && (year % 100 != 0 || year % 400 == 0)
  }

  function DaysInMonth(year: int, month: int): int
    requires 1 <= month <= 12
  {
    if month == 2 then (if IsLeapYear(year) then 29 else 28)
    else if month == 4 || month == 6 || month == 9 || month == 11 then 30
    else 31
  }

  /** What `datetime` accepts. */
  predicate IsValidDate(d: Date) {
    && 1 <= d.year <= 9999
    && 1 <= d.month <= 12
    && 1 <= d.day <= DaysInMonth(d.year, d.month)
  }

  /** `%d` and `%m`: one or two ASCII digits. */
  predicate IsShortNumber(s: string) {
    1 <= |s| <= 2 && AllDigits(s)
  }

  /** `strptime` with `%d.%m.%Y`: day and month of one or two digits (1-31 and
      1-12), a four-digit year, and a date `datetime` accepts. `None` is the
      `ValueError`. */
  function ParseStatementDate(token: string): (r: Option<Date>)
    ensures r.Some? ==> IsValidDate(r.value)
    ensures r.Some? ==> Count(token, '.') == 2
    ensures r.Some? ==>
      var parts := Split(token, '.');
      && |parts| == 3
      && token == parts[0] + "." + parts[1] + "." + parts[2]
      && IsShortNumber(parts[0]) && IsShortNumber(parts[1]) && |parts[2]| == 4 && AllDigits(parts[2])
      && r.value == Date(DigitsValue(parts[2]), DigitsValue(parts[1]), DigitsValue(parts[0]))
  {
    SplitJoinsBack(token, '.');
    var parts := Split(token, '.');
    SplitCount(token, '.');
    if |parts| != 3 then None
    else
    JoinThree(parts, '.');
    if !(IsShortNumber(parts[0]) && IsShortNumber(parts[1]) && |parts[2]| == 4 && AllDigits(parts[2])) then None
    else
      var d := Date(DigitsValue(parts[2]), DigitsValue(parts[1]), DigitsValue(parts[0]));
      if 1 <= d.day <= 31 && 1 <= d.month <= 12 && IsValidDate(d) then Some(d) else None
  }

  /** Every `d.m.yyyy` spelling with one- or two-digit day and month (padded
      or not) is read as the date its digits denote exactly when that date
      exists. */
  lemma ParseStatementDateAccepts(a: string, b: string, c: string)
    requires IsShortNumber(a) && IsShortNumber(b) && |c| == 4 && AllDigits(c)
    ensures var d := Date(DigitsValue(c), DigitsValue(b), DigitsValue(a));
      ParseStatementDate(a + "." + b + "." + c) == if IsValidDate(d) then Some(d) else None
  {
    DateParts(a, b, c);
  }

  /** `a.b.c` splits at its dots into the three digit runs. */
  lemma DateParts(a: string, b: string, c: string)
    requires AllDigits(a) && AllDigits(b) && AllDigits(c)
    ensures Split(a + "." + b + "." + c, '.') == [a, b, c]
  {
    AllDigitsPlain(a);
    AllDigitsPlain(b);
    AllDigitsPlain(c);
    ThreeParts(a, b, c, '.');
  }
}
