/** Python's `int(s)` and `float(s)` on text, and `str(n)` / `f"{n:02}"` back.
    Values are exact: a parsed float is the real number its decimal spelling
    denotes. */
module Numerals {
  import opened Wrappers
  import opened Strings

  predicate IsDigit(c: char) {
    '0' <= c <= '9'
  }

  function DigitValue(c: char): nat
    requires IsDigit(c)
  {
    (c as int) - ('0' as int)
  }

  function DigitChar(d: nat): (c: char)
    requires d < 10
    ensures IsDigit(c) && DigitValue(c) == d
  {
    (('0' as int) + d) as char
  }

  predicate AllDigits(s: string) {
    forall i :: 0 <= i < |s| ==> IsDigit(s[i])
  }

  /** Python's digit run in a numeric literal: digits, with single underscores
      allowed between two digits (`1_000`). */
  predicate IsDigitPart(s: string) {
    && |s| >= 1
    && IsDigit(s[0])
    && IsDigit(s[|s| - 1])
    && (forall i :: 0 <= i < |s| ==> IsDigit(s[i]) || s[i] == '_')
    && (forall i :: 0 <= i < |s| - 1 ==> s[i] == '_' ==> IsDigit(s[i + 1]))
  }

  /** Number of digits in a digit part (underscores do not count). */
  function DigitCount(s: string): nat {
    if |s| == 0 then 0
    else DigitCount(s[..|s| - 1]) + (if IsDigit(s[|s| - 1]) then 1 else 0)
  }

  /** Decimal value of the digits of `s`, underscores skipped. */
  function DigitsValue(s: string): nat {
    if |s| == 0 then 0
    else if IsDigit(s[|s| - 1]) then DigitsValue(s[..|s| - 1]) * 10 + DigitValue(s[|s| - 1])
    else DigitsValue(s[..|s| - 1])
  }

  lemma {:induction false} DigitsValueAppend(a: string, b: string)
    requires AllDigits(b)
    ensures DigitsValue(a + b) == DigitsValue(a) * Pow10(|b|) + DigitsValue(b)
  {
    if |b| > 0 {
      var b' := b[..|b| - 1];
      var d := b[|b| - 1];
      assert (a + b)[..|a + b| - 1] == a + b';
      assert (a + b)[|a + b| - 1] == d && IsDigit(d);
      assert b[..|b| - 1] == b';
      DigitsValueAppend(a, b');
      var x := DigitsValue(a);
      assert DigitsValue(a + b) == DigitsValue(a + b') * 10 + DigitValue(d);
      assert DigitsValue(b) == DigitsValue(b') * 10 + DigitValue(d);
      assert Pow10(|b|) == 10 * Pow10(|b'|);
      Regroup(x, Pow10(|b'|), DigitsValue(b'), DigitValue(d));
    } else {
      assert a + b == a;
    }
  }

  lemma Regroup(x: nat, p: nat, v: nat, d: nat)
    ensures (x * p + v) * 10 + d == x * (10 * p) + (v * 10 + d)
  {
  }

  function Pow10(n: nat): (r: nat)
    ensures r >= 1
  {
    if n == 0 then 1 else 10 * Pow10(n - 1)
  }

  /** `str(n)` for a natural number. */
  function NatToDigits(n: nat): (s: string)
    ensures |s| >= 1 && AllDigits(s)
    ensures DigitsValue(s) == n
  {
    if n < 10 then [DigitChar(n)]
    else
      var s := NatToDigits(n / 10) + [DigitChar(n % 10)];
      assert s[..|s| - 1] == NatToDigits(n / 10);
      s
  }

  lemma DigitNotWhitespace(c: char)
    requires IsDigit(c) || c == '-'
    ensures !IsWhitespace(c)
  {
  }

  lemma AllDigitsAppend(a: string, b: string)
    requires AllDigits(a) && AllDigits(b)
    ensures AllDigits(a + b)
  {
    assert forall i :: |a| <= i < |a + b| ==> (a + b)[i] == b[i - |a|];
  }

  lemma AllDigitsIsDigitPart(s: string)
    requires |s| >= 1 && AllDigits(s)
    ensures IsDigitPart(s)
  {
  }

  /** `str(n)` */
  function IntToString(n: int): string {
    if n < 0 then "-" + NatToDigits(-n) else NatToDigits(n)
  }

  /** Splits an optional leading `+`/`-` off: the flag is true for `-`. */
  function SplitSign(t: string): (bool, string) {
    if |t| > 0 && (t[0] == '+' || t[0] == '-') then (t[0] == '-', t[1..]) else (false, t)
  }

  /** Python's `int(s)` in base 10: surrounding whitespace, an optional sign,
      then a digit part. `None` is the `ValueError`. */
  function ParseInt(s: string): (r: Option<int>)
    ensures r.Some? <==> IsDigitPart(SplitSign(Strip(s)).1)
    ensures r.Some? ==> r.value == (if SplitSign(Strip(s)).0 then -1 else 1) * DigitsValue(SplitSign(Strip(s)).1)
  {
    var (negative, digits) := SplitSign(Strip(s));
    if IsDigitPart(digits) then
      Some(if negative then -(DigitsValue(digits) as int) else DigitsValue(digits))
    else None
  }

  /** `int` reads back what `str` writes. */
  lemma IntRoundTrip(n: int)
    ensures ParseInt(IntToString(n)) == Some(n)
  {
    var s := IntToString(n);
    StripUnchanged(s);
    if n < 0 {
      assert SplitSign(s).1 == NatToDigits(-n);
    }
  }

  /** `f"{n:02}"`: at least two characters, zero-padded after the sign. */
  function Format02(n: int): (s: string)
    ensures 0 <= n < 100 ==> |s| == 2 && AllDigits(s)
    ensures ParseInt(s) == Some(n)
  {
    if n < 0 || n >= 10 then
      IntRoundTrip(n);
      assert 10 <= n < 100 ==> |NatToDigits(n)| == |NatToDigits(n / 10)| + 1 == 2;
      IntToString(n)
    else
      var s := "0" + NatToDigits(n);
      assert s[..1] == "0";
      DigitsValueAppend("0", NatToDigits(n));
      StripUnchanged(s);
      s
  }

  // ---------------------------------------------------------------------
  // float()

  /** Index of the first exponent marker `e`/`E`, or `|s|` when there is none. */
  function ExponentIndex(s: string): (k: nat)
    ensures k <= |s|
    ensures forall i :: 0 <= i < k ==> s[i] != 'e' && s[i] != 'E'
    ensures k < |s| ==> s[k] == 'e' || s[k] == 'E'
  {
    if |s| == 0 then 0
    else if s[0] == 'e' || s[0] == 'E' then 0
    else 1 + ExponentIndex(s[1..])
  }

  /** The mantissa forms `12`, `12.`, `12.5` and `.5` of a Python float literal. */
  function ParseMantissa(m: string): Option<real> {
    var parts := Split(m, '.');
    if |parts| == 1 then
      if IsDigitPart(parts[0]) then Some(DigitsValue(parts[0]) as real) else None
    else if |parts| == 2 then
      var whole := parts[0];
      var frac := parts[1];
      if (whole == [] || IsDigitPart(whole)) && (frac == [] || IsDigitPart(frac)) && !(whole == [] && frac == []) then
        Some(DecimalValue(whole, frac))
      else None
    else None
  }

  /** The value of `whole.frac` in decimal notation. */
  function DecimalValue(whole: string, frac: string): real {
    DigitsValue(whole) as real + DigitsValue(frac) as real / Pow10(DigitCount(frac)) as real
  }

  /** `m * 10^e` for a possibly negative exponent. */
  function Scale(m: real, e: int): real {
    if e >= 0 then m * Pow10(e) as real else m / Pow10(-e) as real
  }

  /** Python's `float(s)` on finite decimal spellings, as an exact real.
      `None` is the `ValueError`. */
  function ParseFloat(s: string): (r: Option<real>)
    ensures r.Some? ==> Strip(s) != []
  {
    var signed := SplitSign(Strip(s));
    match ParseUnsignedFloat(signed.1)
    case Some(v) => Some(if signed.0 then -v else v)
    case None => None
  }

  /** A float literal after its sign: a mantissa and an optional exponent. */
  function ParseUnsignedFloat(body: string): (r: Option<real>)
    ensures r.Some? ==> body != []
  {
    var k := ExponentIndex(body);
    var mantissa := ParseMantissa(body[..k]);
    var exponent := if k == |body| then Some(0) else ParseExponent(body[k + 1..]);
    if mantissa.Some? && exponent.Some? then Some(Scale(mantissa.value, exponent.value)) else None
  }

  /** The sign applies to the unsigned value. */
  lemma SignedFloat(s: string, negative: bool, body: string, v: real)
    requires SplitSign(Strip(s)) == (negative, body)
    requires ParseUnsignedFloat(body) == Some(v)
    ensures ParseFloat(s) == Some(if negative then -v else v)
  {
  }

  /** Without an exponent, the value is the mantissa's. */
  lemma UnsignedFloatNoExponent(body: string)
    requires ExponentIndex(body) == |body|
    ensures ParseUnsignedFloat(body) == ParseMantissa(body)
  {
    assert body[..|body|] == body;
    assert Pow10(0) == 1;
  }

  /** The exponent after `e`: an optional sign and a digit part. */
  function ParseExponent(s: string): Option<int> {
    var (negative, digits) := SplitSign(s);
    if IsDigitPart(digits) then Some(if negative then -(DigitsValue(digits) as int) else DigitsValue(digits))
    else None
  }

  /** Digits are neither separators nor whitespace. */
  lemma AllDigitsPlain(s: string)
    requires AllDigits(s)
    ensures '.' !in s && ' ' !in s && '\n' !in s
    ensures |s| >= 1 ==> !IsWhitespace(s[0]) && !IsWhitespace(s[|s| - 1])
  {
    if |s| >= 1 {
      DigitNotWhitespace(s[0]);
      DigitNotWhitespace(s[|s| - 1]);
    }
  }
}
