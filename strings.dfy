/** The pieces of JavaScript's string semantics the configuration parser
    relies on: `String.prototype.trim`, `String.prototype.split` with a
    one-character separator, and `parseInt(s, 10)`. */
module JsStrings {

  // ---------------------------------------------------------------------------
  // Whitespace and trim
  // ---------------------------------------------------------------------------

  /** The white-space and line-terminator characters `trim` strips (the ASCII
      ones; see README for the Unicode spaces left out). */
  predicate IsWhitespace(c: char) {
    c == ' ' || c == '\t' || c == '\n' || c == '\r' || c == '\U{B}' || c == '\U{C}'
  }

  predicate AllWhitespace(s: string) {
    forall i :: 0 <= i < |s| ==> IsWhitespace(s[i])
  }

  /** Neither end of `s` is white space. */
  predicate IsTrimmed(s: string) {
    s == "" || (!IsWhitespace(s[0]) && !IsWhitespace(s[|s| - 1]))
  }

  /** `s` with its leading white space removed: a suffix of `s` whose cut-off
      part is all white space and which does not start with white space. */
  function TrimStart(s: string): (r: string)
    ensures |r| <= |s| && r == s[|s| - |r|..]
    ensures AllWhitespace(s[..|s| - |r|])
    ensures r == "" || !IsWhitespace(r[0])
  {
    if |s| > 0 && IsWhitespace(s[0]) then
      var rest := s[1..];
      var r := TrimStart(rest);
      assert s[|s| - |r|..] == rest[|rest| - |r|..];
      assert s[..|s| - |r|] == [s[0]] + rest[..|rest| - |r|];
      r
    else
      s
  }

  /** `s` with its trailing white space removed: a prefix of `s` whose cut-off
      part is all white space and which does not end with white space. */
  function TrimEnd(s: string): (r: string)
    ensures |r| <= |s| && r == s[..|r|]
    ensures AllWhitespace(s[|r|..])
    ensures r == "" || !IsWhitespace(r[|r| - 1])
  {
    if |s| > 0 && IsWhitespace(s[|s| - 1]) then
      var init := s[..|s| - 1];
      var r := TrimEnd(init);
      assert s[..|r|] == init[..|r|];
      assert s[|r|..] == init[|r|..] + [s[|s| - 1]];
      r
    else s
  }

  /** `String.prototype.trim`. */
  function Trim(s: string): (r: string)
    ensures IsTrimmed(r)
    ensures r == "" <==> AllWhitespace(s)
  {
    var t := TrimStart(s);
    var r := TrimEnd(t);
    TrimFacts(s, t, r);
    r
  }

  lemma TrimFacts(s: string, t: string, r: string)
    requires t == TrimStart(s) && r == TrimEnd(t)
    ensures IsTrimmed(r)
    ensures r == "" <==> AllWhitespace(s)
  {
    var k := |s| - |t|;
    if r != "" {
      assert r[0] == t[0];
      assert !AllWhitespace(s) by {
        assert s[k] == t[0];
      }
    } else {
      assert AllWhitespace(t) by {
        assert t[|r|..] == t;
      }
      assert t == "";
      assert s[..k] == s;
    }
  }

  lemma {:induction false} TrimStartPadded(w: string, x: string)
    requires AllWhitespace(w)
    requires x == "" || !IsWhitespace(x[0])
    ensures TrimStart(w + x) == x
  {
    if w != [] {
      assert (w + x)[1..] == w[1..] + x;
      TrimStartPadded(w[1..], x);
    }
  }

  lemma {:induction false} TrimEndPadded(x: string, w: string)
    requires AllWhitespace(w)
    requires x == "" || !IsWhitespace(x[|x| - 1])
    ensures TrimEnd(x + w) == x
  {
    if w != [] {
      assert (x + w)[..|x + w| - 1] == x + w[..|w| - 1];
      TrimEndPadded(x, w[..|w| - 1]);
    } else {
      assert x + w == x;
    }
  }

  /** White space around a trimmed token is tolerated: trimming the padded
      token gives the token back. */
  lemma TrimPadded(w1: string, t: string, w2: string)
    requires AllWhitespace(w1) && AllWhitespace(w2) && IsTrimmed(t)
    ensures Trim(w1 + t + w2) == t
  {
    if t == "" {
      assert AllWhitespace(w1 + t + w2);
    } else {
      assert w1 + t + w2 == w1 + (t + w2);
      TrimStartPadded(w1, t + w2);
      TrimEndPadded(t, w2);
    }
  }

  /** Trimming a trimmed string leaves it as it is. */
  lemma TrimmedIsUnchanged(t: string)
    requires IsTrimmed(t)
    ensures Trim(t) == t
  {
    assert TrimStart(t) == t;
    assert TrimEnd(t) == t;
  }

  // ---------------------------------------------------------------------------
  // split and join on one separator character
  // ---------------------------------------------------------------------------

  /** `s.split(sep)`: the pieces between separators, always at least one
      (an empty string splits into `[""]`, a trailing separator gives a
      trailing empty piece). */
  function Split(s: string, sep: char): (parts: seq<string>)
    ensures |parts| >= 1
    ensures forall i :: 0 <= i < |parts| ==> sep !in parts[i]
  {
    if s == [] then [""]
    else
      var rest := Split(s[1..], sep);
      if s[0] == sep then [""] + rest
      else [[s[0]] + rest[0]] + rest[1..]
  }

  /** `parts.join(sep)`, the inverse of Split. */
  function Join(parts: seq<string>, sep: char): string
    requires |parts| >= 1
  {
    if |parts| == 1 then parts[0] else parts[0] + [sep] + Join(parts[1..], sep)
  }

  lemma {:induction false} JoinConsChar(c: char, parts: seq<string>, sep: char)
    requires |parts| >= 1
    ensures Join([[c] + parts[0]] + parts[1..], sep) == [c] + Join(parts, sep)
  {
    var ps := [[c] + parts[0]] + parts[1..];
    assert ps[1..] == parts[1..];
  }

  /** Joining the pieces of a split gives the original string back. */
  lemma {:induction false} JoinSplit(s: string, sep: char)
    ensures Join(Split(s, sep), sep) == s
  {
    if s != [] {
      var rest := Split(s[1..], sep);
      JoinSplit(s[1..], sep);
      if s[0] == sep {
        assert ([""] + rest)[1..] == rest;
      } else {
        JoinConsChar(s[0], rest, sep);
      }
    }
  }

  lemma {:induction false} SplitWithoutSeparator(p: string, sep: char)
    requires sep !in p
    ensures Split(p, sep) == [p]
  {
    if p != [] {
      SplitWithoutSeparator(p[1..], sep);
      assert p[0] != sep;
      assert [p[0]] + p[1..] == p;
    }
  }

  lemma {:induction false} SplitAtFirstSeparator(p: string, t: string, sep: char)
    requires sep !in p
    ensures Split(p + [sep] + t, sep) == [p] + Split(t, sep)
  {
    var s := p + [sep] + t;
    if p == [] {
      assert s[1..] == t;
    } else {
      assert s[1..] == p[1..] + [sep] + t;
      SplitAtFirstSeparator(p[1..], t, sep);
      assert s[0] == p[0] && p[0] != sep;
      var rest := Split(s[1..], sep);
      assert rest[0] == p[1..] && rest[1..] == Split(t, sep);
      assert [p[0]] + p[1..] == p;
    }
  }

  /** Splitting a join of separator-free pieces gives the pieces back. */
  lemma {:induction false} SplitJoin(parts: seq<string>, sep: char)
    requires |parts| >= 1
    requires forall i :: 0 <= i < |parts| ==> sep !in parts[i]
    ensures Split(Join(parts, sep), sep) == parts
  {
    if |parts| == 1 {
      SplitWithoutSeparator(parts[0], sep);
    } else {
      SplitJoin(parts[1..], sep);
      SplitAtFirstSeparator(parts[0], Join(parts[1..], sep), sep);
    }
  }

  // ---------------------------------------------------------------------------
  // parseInt(s, 10)
  // ---------------------------------------------------------------------------

  /** A JavaScript number as parseInt can produce it: an integer or NaN. */
  datatype JsNumber = Num(value: int) | NaN

  predicate IsDigit(c: char) {
    '0' <= c <= '9'
  }

  predicate AllDigits(s: string) {
    forall i :: 0 <= i < |s| ==> IsDigit(s[i])
  }

  function DigitValue(c: char): nat
    requires IsDigit(c)
  {
    c as int - '0' as int
  }

  /** The longest prefix of `s` made of decimal digits. */
  function DigitPrefix(s: string): (d: string)
    ensures |d| <= |s| && d == s[..|d|]
    ensures AllDigits(d)
    ensures |d| < |s| ==> !IsDigit(s[|d|])
  {
    if |s| > 0 && IsDigit(s[0]) then [s[0]] + DigitPrefix(s[1..]) else ""
  }

  /** The value of a string of decimal digits, most significant first. */
  function DigitsValue(d: string): nat
    requires AllDigits(d)
  {
    if d == "" then 0 else DigitsValue(d[..|d| - 1]) * 10 + DigitValue(d[|d| - 1])
  }

  /** `parseInt(s, 10)`: skip leading white space, read an optional sign and
      then the longest run of decimal digits; NaN when there is no digit.
      Whatever follows the digits is ignored. */
  function ParseInt(s: string): JsNumber {
    var t := TrimStart(s);
    if |t| > 0 && t[0] == '-' then ParseDigits(true, t[1..])
    else if |t| > 0 && t[0] == '+' then ParseDigits(false, t[1..])
    else ParseDigits(false, t)
  }

  /** The signed value of the digits at the start of `body`; NaN when
      `body` does not start with a digit. */
  function ParseDigits(negative: bool, body: string): JsNumber {
    var digits := DigitPrefix(body);
    if digits == "" then NaN
    else if negative then Num(-(DigitsValue(digits) as int))
    else Num(DigitsValue(digits))
  }

  /** The decimal rendering of `n` without leading zeros. */
  function DecimalString(n: nat): (d: string)
    ensures |d| >= 1 && AllDigits(d)
  {
    var last := ['0' + (n % 10) as char];
    if n < 10 then last else DecimalString(n / 10) + last
  }

  lemma {:induction false} DecimalStringValue(n: nat)
    ensures DigitsValue(DecimalString(n)) == n
  {
    var d := DecimalString(n);
    if n >= 10 {
      DecimalStringValue(n / 10);
      assert d[..|d| - 1] == DecimalString(n / 10);
    }
  }

  lemma {:induction false} DigitPrefixOfDigits(d: string, rest: string)
    requires AllDigits(d)
    requires rest == "" || !IsDigit(rest[0])
    ensures DigitPrefix(d + rest) == d
  {
    if d != "" {
      assert (d + rest)[1..] == d[1..] + rest;
      DigitPrefixOfDigits(d[1..], rest);
    }
  }

  /** After the white space, a digit: the number is read unsigned. */
  lemma ParseIntUnsigned(s: string, body: string)
    requires TrimStart(s) == body && body != "" && IsDigit(body[0])
    ensures ParseInt(s) == ParseDigits(false, body)
  {
  }

  lemma ParseIntAfterSpace(w: string, body: string)
    requires AllWhitespace(w) && body != "" && IsDigit(body[0])
    ensures ParseInt(w + body) == ParseDigits(false, body)
  {
    TrimStartPadded(w, body);
    ParseIntUnsigned(w + body, body);
  }

  /** After the white space, a minus sign: the number is read negated. */
  lemma ParseIntMinus(s: string, body: string)
    requires TrimStart(s) == body && body != "" && body[0] == '-'
    ensures ParseInt(s) == ParseDigits(true, body[1..])
  {
  }

  /** A run of digits followed by a non-digit reads as the run's value. */
  lemma ParseDigitsOf(d: string, rest: string)
    requires d != "" && AllDigits(d)
    requires rest == "" || !IsDigit(rest[0])
    ensures ParseDigits(false, d + rest) == Num(DigitsValue(d))
    ensures ParseDigits(true, d + rest) == Num(-(DigitsValue(d) as int))
  {
    DigitPrefixOfDigits(d, rest);
  }

  /** Digits followed by white space: the digits are read, up to the white
      space. */
  lemma BodyOfDigits(d: string, w: string)
    requires d != "" && AllDigits(d) && AllWhitespace(w)
    ensures (d + w)[0] == d[0] && IsDigit((d + w)[0])
    ensures ParseDigits(false, d + w) == Num(DigitsValue(d))
  {
    assert w == "" || !IsDigit(w[0]);
    ParseDigitsOf(d, w);
  }

  lemma ConcatAssoc(a: string, b: string, c: string)
    ensures a + b + c == a + (b + c)
  {
  }

  /** parseInt reads a run of digits with white space before and after it. */
  lemma ParseIntDigits(w1: string, d: string, w2: string)
    requires AllWhitespace(w1) && AllWhitespace(w2)
    requires d != "" && AllDigits(d)
    ensures ParseInt(w1 + d + w2) == Num(DigitsValue(d))
  {
    BodyOfDigits(d, w2);
    ParseIntAfterSpace(w1, d + w2);
    ConcatAssoc(w1, d, w2);
  }

  /** parseInt reads back a rendered natural number, with white space
      before it and after it. */
  lemma ParseIntDecimal(w1: string, n: nat, w2: string)
    requires AllWhitespace(w1) && AllWhitespace(w2)
    ensures ParseInt(w1 + DecimalString(n) + w2) == Num(n)
  {
    ParseIntDigits(w1, DecimalString(n), w2);
    DecimalStringValue(n);
  }

  lemma ParseIntUnpadded(n: nat)
    ensures ParseInt(DecimalString(n)) == Num(n)
  {
    ParseIntDecimal("", n, "");
    assert "" + DecimalString(n) + "" == DecimalString(n);
  }

  /** A minus sign before the digits negates the value. */
  lemma ParseIntNegative(d: string)
    requires d != "" && AllDigits(d)
    ensures ParseInt("-" + d) == Num(-(DigitsValue(d) as int))
  {
    var t := "-" + d;
    TrimStartPadded("", t);
    assert "" + t == t;
    assert t[1..] == d + "";
    ParseIntMinus(t, t);
    ParseDigitsOf(d, "");
  }

  /** What `parseInt` reads digits from: the string after its leading white
      space and after one optional sign. */
  function NumeralBody(s: string): (body: string)
    ensures |body| <= |s| && body == s[|s| - |body|..]
  {
    var t := TrimStart(s);
    if |t| > 0 && (t[0] == '-' || t[0] == '+') then t[1..] else t
  }

  /** `parseInt` is NaN exactly when, after the white space and an optional
      sign, no digit follows. */
  lemma ParseIntNaNIff(s: string)
    ensures ParseInt(s) == NaN <==> NumeralBody(s) == "" || !IsDigit(NumeralBody(s)[0])
  {
    var body := NumeralBody(s);
    var d := DigitPrefix(body);
    if body != "" && IsDigit(body[0]) {
      assert d != "";
    }
    if d != "" {
      assert d[0] == body[0];
    }
  }

  /** An unpadded, unsigned token that does not start with a digit is NaN. */
  lemma ParseIntNoDigits(s: string)
    requires s != "" && !IsDigit(s[0]) && !IsWhitespace(s[0]) && s[0] != '-' && s[0] != '+'
    ensures ParseInt(s) == NaN
  {
    TrimStartPadded("", s);
    assert "" + s == s;
    ParseIntNaNIff(s);
  }
}
