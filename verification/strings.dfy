/** The handful of Python `str` operations the statement parser relies on,
    written over `seq<char>`: `strip`, `rstrip(c)`, `endswith`, `removesuffix`,
    `split(sep)` and `sep.join` for a one-character separator. */
module Strings {

  /** Python's `str.isspace()` set, which `strip()`, `int()` and `float()` use. */
  predicate IsWhitespace(c: char) {
    || ('\t' <= c <= '\r')
    || ('\U{1C}' <= c <= '\U{1F}')
    || c == ' '
    || c == '\U{85}'
    || c == '\U{A0}'
    || c == '\U{1680}'
    || ('\U{2000}' <= c <= '\U{200A}')
    || c == '\U{2028}'
    || c == '\U{2029}'
    || c == '\U{202F}'
    || c == '\U{205F}'
    || c == '\U{3000}'
  }

  /** Every character is whitespace (the empty string included). */
  predicate IsBlank(s: string) {
    forall i :: 0 <= i < |s| ==> IsWhitespace(s[i])
  }

  /** `s.lstrip()` */
  function TrimStart(s: string): (r: string)
    ensures |r| <= |s|
  {
    if |s| > 0 && IsWhitespace(s[0]) then TrimStart(s[1..]) else s
  }

  /** `lstrip` removes exactly a blank prefix and leaves a non-blank start. */
  lemma {:induction false} TrimStartMeaning(s: string)
    ensures var r := TrimStart(s);
      && r == s[|s| - |r|..]
      && IsBlank(s[..|s| - |r|])
      && (r == [] || !IsWhitespace(r[0]))
  {
    if |s| > 0 && IsWhitespace(s[0]) {
      TrimStartMeaning(s[1..]);
      var r := TrimStart(s);
      assert s[1..][|s| - 1 - |r|..] == s[|s| - |r|..];
      forall i | 0 <= i < |s| - |r| ensures IsWhitespace(s[i]) {
        if i > 0 { assert s[i] == s[1..][..|s| - 1 - |r|][i - 1]; }
      }
    }
  }

  /** `s.rstrip()` */
  function TrimEnd(s: string): (r: string)
    ensures |r| <= |s|
  {
    if |s| > 0 && IsWhitespace(s[|s| - 1]) then TrimEnd(s[..|s| - 1]) else s
  }

  /** `rstrip` removes exactly a blank suffix and leaves a non-blank end. */
  lemma {:induction false} TrimEndMeaning(s: string)
    ensures var r := TrimEnd(s);
      && r == s[..|r|]
      && IsBlank(s[|r|..])
      && (r == [] || !IsWhitespace(r[|r| - 1]))
  {
    if |s| > 0 && IsWhitespace(s[|s| - 1]) {
      TrimEndMeaning(s[..|s| - 1]);
      var r := TrimEnd(s);
      assert s[..|s| - 1][..|r|] == s[..|r|];
      forall i | |r| <= i < |s| ensures IsWhitespace(s[i]) {
        if i < |s| - 1 { assert s[i] == s[..|s| - 1][|r|..][i - |r|]; }
      }
    }
  }

  /** `s.strip()`: the longest infix that neither starts nor ends with whitespace. */
  function Strip(s: string): (r: string)
    ensures |r| <= |s|
    ensures r == [] <==> IsBlank(s)
    ensures r != [] ==> !IsWhitespace(r[0]) && !IsWhitespace(r[|r| - 1])
  {
    var t := TrimStart(s);
    TrimStartMeaning(s);
    TrimEndMeaning(t);
    StripBlank(s, t, TrimEnd(t));
    TrimEnd(t)
  }

  lemma StripBlank(s: string, t: string, r: string)
    requires |t| <= |s| && t == s[|s| - |t|..] && IsBlank(s[..|s| - |t|]) && (t == [] || !IsWhitespace(t[0]))
    requires |r| <= |t| && r == t[..|r|] && IsBlank(t[|r|..]) && (r == [] || !IsWhitespace(r[|r| - 1]))
    ensures r == [] <==> IsBlank(s)
    ensures r != [] ==> !IsWhitespace(r[0])
  {
    if r == [] {
      assert t == [];
      forall i | 0 <= i < |s| ensures IsWhitespace(s[i]) {
        assert s[i] == s[..|s| - |t|][i];
      }
    } else {
      assert t[0] == r[0];
      assert s[|s| - |t|] == t[0];
    }
  }

  /** A string already free of surrounding whitespace is its own strip. */
  lemma StripUnchanged(s: string)
    requires s == [] || (!IsWhitespace(s[0]) && !IsWhitespace(s[|s| - 1]))
    ensures Strip(s) == s
  {
  }

  predicate EndsWith(s: string, suffix: string) {
    |suffix| <= |s| && s[|s| - |suffix|..] == suffix
  }

  /** `s.rstrip(c)`: drops the whole trailing run of `c`. */
  function RStripChar(s: string, c: char): (r: string)
    ensures |r| <= |s| && r == s[..|r|]
    ensures forall i :: |r| <= i < |s| ==> s[i] == c
    ensures r == [] || r[|r| - 1] != c
  {
    if |s| > 0 && s[|s| - 1] == c then RStripChar(s[..|s| - 1], c) else s
  }

  /** `s.removesuffix(suffix)`: removes ONE occurrence of the suffix, if present. */
  function RemoveSuffix(s: string, suffix: string): (r: string)
    ensures EndsWith(s, suffix) ==> r + suffix == s
    ensures !EndsWith(s, suffix) ==> r == s
  {
    if EndsWith(s, suffix) then s[..|s| - |suffix|] else s
  }

  /** Number of occurrences of `c` in `s`. */
  function Count(s: string, c: char): nat {
    if |s| == 0 then 0 else Count(s[..|s| - 1], c) + (if s[|s| - 1] == c then 1 else 0)
  }

  lemma CountAppend(a: string, b: string, c: char)
    ensures Count(a + b, c) == Count(a, c) + Count(b, c)
  {
    if |b| == 0 {
      assert a + b == a;
    } else {
      assert (a + b)[..|a + b| - 1] == a + b[..|b| - 1];
      CountAppend(a, b[..|b| - 1], c);
    }
  }

  lemma CountZero(s: string, c: char)
    ensures Count(s, c) == 0 <==> c !in s
  {
    if |s| > 0 {
      CountZero(s[..|s| - 1], c);
      assert s == s[..|s| - 1] + [s[|s| - 1]];
    }
  }

  /** `sep.join(parts)` */
  function Join(parts: seq<string>, sep: char): string {
    if |parts| == 0 then ""
    else if |parts| == 1 then parts[0]
    else parts[0] + [sep] + Join(parts[1..], sep)
  }

  /** `s.split(sep)`: the maximal `sep`-free pieces, empty pieces included. */
  function Split(s: string, sep: char): (parts: seq<string>)
    ensures |parts| >= 1
  {
    if |s| == 0 then [""]
    else
      var rest := Split(s[1..], sep);
      if s[0] == sep then [""] + rest
      else [[s[0]] + rest[0]] + rest[1..]
  }

  /** Splitting a string that starts with `c`. */
  lemma SplitCons(c: char, s: string, sep: char)
    ensures Split([c] + s, sep) ==
      if c == sep then [""] + Split(s, sep)
      else [[c] + Split(s, sep)[0]] + Split(s, sep)[1..]
  {
    assert ([c] + s)[1..] == s;
  }

  /** No piece contains the separator. */
  lemma {:induction false} SplitPieces(s: string, sep: char)
    ensures forall i :: 0 <= i < |Split(s, sep)| ==> sep !in Split(s, sep)[i]
  {
    if |s| > 0 {
      SplitPieces(s[1..], sep);
      assert s == [s[0]] + s[1..];
      SplitCons(s[0], s[1..], sep);
    }
  }

  /** The pieces join back to the string. */
  lemma {:induction false} SplitJoinsBack(s: string, sep: char)
    ensures Join(Split(s, sep), sep) == s
  {
    if |s| > 0 {
      var rest := Split(s[1..], sep);
      SplitJoinsBack(s[1..], sep);
      assert s == [s[0]] + s[1..];
      SplitCons(s[0], s[1..], sep);
      if s[0] == sep {
        JoinCons("", rest, sep);
      } else {
        JoinCons(rest[0], rest[1..], sep);
        assert rest == [rest[0]] + rest[1..];
        JoinCons([s[0]] + rest[0], rest[1..], sep);
      }
    }
  }

  lemma JoinCons(x: string, rest: seq<string>, sep: char)
    ensures Join([x] + rest, sep) == if |rest| == 0 then x else x + [sep] + Join(rest, sep)
  {
    assert ([x] + rest)[1..] == rest;
  }

  /** There is one more piece than there are separators. */
  lemma {:induction false} SplitCount(s: string, sep: char)
    ensures |Split(s, sep)| == Count(s, sep) + 1
  {
    if |s| > 0 {
      SplitCount(s[1..], sep);
      assert s == [s[0]] + s[1..];
      CountAppend([s[0]], s[1..], sep);
      SplitCons(s[0], s[1..], sep);
    }
  }

  lemma SplitNoSeparator(s: string, sep: char)
    requires sep !in s
    ensures Split(s, sep) == [s]
  {
    SplitCount(s, sep);
    CountZero(s, sep);
    SplitJoinsBack(s, sep);
  }

  /** A separator splits the string into the pieces of both sides. */
  lemma {:induction false} SplitAround(a: string, b: string, sep: char)
    ensures Split(a + [sep] + b, sep) == Split(a, sep) + Split(b, sep)
  {
    if |a| == 0 {
      assert a + [sep] + b == [sep] + b;
      SplitCons(sep, b, sep);
    } else {
      var c, a' := a[0], a[1..];
      assert a == [c] + a';
      SplitAround(a', b, sep);
      SplitAroundCons(c, a', b, sep);
    }
  }

  /** The step of `SplitAround`: one more character in front. */
  lemma SplitAroundCons(c: char, a: string, b: string, sep: char)
    requires Split(a + [sep] + b, sep) == Split(a, sep) + Split(b, sep)
    ensures Split([c] + a + [sep] + b, sep) == Split([c] + a, sep) + Split(b, sep)
  {
    var rest := a + [sep] + b;
    assert [c] + a + [sep] + b == [c] + rest;
    SplitCons(c, rest, sep);
    SplitCons(c, a, sep);
    PiecesCons(c, sep, Split(a, sep), Split(b, sep));
  }

  /** How `SplitCons` acts on a list of pieces that is itself a concatenation. */
  lemma PiecesCons(c: char, sep: char, p: seq<string>, q: seq<string>)
    requires |p| >= 1
    ensures (if c == sep then [""] + (p + q) else [[c] + (p + q)[0]] + (p + q)[1..]) ==
      (if c == sep then [""] + p else [[c] + p[0]] + p[1..]) + q
  {
    if c != sep {
      HeadAppend(c, p, q);
    }
  }

  lemma HeadAppend(c: char, p: seq<string>, q: seq<string>)
    requires |p| >= 1
    ensures [[c] + (p + q)[0]] + (p + q)[1..] == ([[c] + p[0]] + p[1..]) + q
  {
    assert (p + q)[0] == p[0];
    assert (p + q)[1..] == p[1..] + q;
  }

  /** `split` undoes `join` when no piece contains the separator. */
  lemma {:induction false} SplitJoin(parts: seq<string>, sep: char)
    requires |parts| >= 1
    requires forall i :: 0 <= i < |parts| ==> sep !in parts[i]
    ensures Split(Join(parts, sep), sep) == parts
  {
    if |parts| == 1 {
      SplitNoSeparator(parts[0], sep);
    } else {
      SplitAround(parts[0], Join(parts[1..], sep), sep);
      SplitNoSeparator(parts[0], sep);
      SplitJoin(parts[1..], sep);
      assert parts == [parts[0]] + parts[1..];
    }
  }

  lemma {:induction false} JoinAppend(a: seq<string>, b: seq<string>, sep: char)
    requires |a| >= 1 && |b| >= 1
    ensures Join(a + b, sep) == Join(a, sep) + [sep] + Join(b, sep)
  {
    if |a| == 1 {
      assert (a + b)[1..] == b;
    } else {
      assert (a + b)[1..] == a[1..] + b;
      JoinAppend(a[1..], b, sep);
    }
  }

  lemma JoinSnoc(a: seq<string>, x: string, sep: char)
    requires |a| >= 1
    ensures Join(a + [x], sep) == Join(a, sep) + [sep] + x
  {
    JoinAppend(a, [x], sep);
  }

  /** A joined string is blank exactly when every piece is (the separator being whitespace). */
  lemma {:induction false} JoinBlank(parts: seq<string>, sep: char)
    requires IsWhitespace(sep)
    ensures IsBlank(Join(parts, sep)) <==> forall i :: 0 <= i < |parts| ==> IsBlank(parts[i])
  {
    if |parts| > 1 {
      JoinBlank(parts[1..], sep);
      var j := Join(parts[1..], sep);
      var w := parts[0] + [sep] + j;
      assert IsBlank(w) <==> IsBlank(parts[0]) && IsBlank(j) by {
        if IsBlank(parts[0]) && IsBlank(j) {
          forall k | 0 <= k < |w| ensures IsWhitespace(w[k]) {
            if k < |parts[0]| { assert w[k] == parts[0][k]; }
            else if k > |parts[0]| { assert w[k] == j[k - |parts[0]| - 1]; }
          }
        }
        if IsBlank(w) {
          forall k | 0 <= k < |parts[0]| ensures IsWhitespace(parts[0][k]) { assert w[k] == parts[0][k]; }
          forall k | 0 <= k < |j| ensures IsWhitespace(j[k]) { assert w[k + |parts[0]| + 1] == j[k]; }
        }
      }
      assert forall i :: 1 <= i < |parts| ==> parts[i] == parts[1..][i - 1];
    }
  }

  /** A separator-free piece, the separator, then the rest. */
  lemma SplitAt(a: string, rest: string, sep: char)
    requires sep !in a
    ensures Split(a + [sep] + rest, sep) == [a] + Split(rest, sep)
  {
    SplitAround(a, rest, sep);
    SplitNoSeparator(a, sep);
  }

  lemma TwoParts(a: string, b: string, sep: char)
    requires sep !in a && sep !in b
    ensures Split(a + [sep] + b, sep) == [a, b]
  {
    SplitAt(a, b, sep);
    SplitNoSeparator(b, sep);
  }

  lemma ThreeParts(a: string, b: string, c: string, sep: char)
    requires sep !in a && sep !in b && sep !in c
    ensures Split(a + [sep] + b + [sep] + c, sep) == [a, b, c]
  {
    var rest := b + [sep] + c;
    TwoParts(b, c, sep);
    SplitAt(a, rest, sep);
    JoinedThree(a, b, c, sep);
  }

  lemma JoinedThree(a: string, b: string, c: string, sep: char)
    ensures a + [sep] + b + [sep] + c == a + [sep] + (b + [sep] + c)
  {
  }

  lemma JoinThree(parts: seq<string>, sep: char)
    requires |parts| == 3
    ensures Join(parts, sep) == parts[0] + [sep] + parts[1] + [sep] + parts[2]
  {
    var rest := parts[1..];
    assert rest[1..] == [parts[2]];
    assert Join(rest, sep) == parts[1] + [sep] + parts[2];
    assert parts[0] + [sep] + (parts[1] + [sep] + parts[2]) == parts[0] + [sep] + parts[1] + [sep] + parts[2];
  }
}
