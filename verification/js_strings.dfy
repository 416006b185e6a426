/**
 * The JavaScript string built-ins the calculator relies on, stated over `seq<char>`:
 * `trim`, `toUpperCase`, `replace(/\./g, "")`, `padEnd`, `join`, `parseFloat`,
 * `Number.prototype.toFixed(2)` and the decimal rendering of row numbers.
 */
module JsStrings {
  import opened Wrappers

  /** JavaScript's WhiteSpace and LineTerminator code points: what `trim` removes. */
  predicate IsWhitespace(c: char) {
    c == '\t' || c == '\n' || c == '\U{000B}' || c == '\U{000C}' || c == '\r' || c == ' ' ||
    c == '\U{00A0}' || c == '\U{1680}' || ('\U{2000}' <= c <= '\U{200A}') ||
    c == '\U{2028}' || c == '\U{2029}' || c == '\U{202F}' || c == '\U{205F}' ||
    c == '\U{3000}' || c == '\U{FEFF}'
  }

  predicate AllWhitespace(s: string) {
    forall i :: 0 <= i < |s| ==> IsWhitespace(s[i])
  }

  /** `trimStart`: drops the leading white space. */
  function TrimStart(s: string): string {
    if |s| > 0 && IsWhitespace(s[0]) then TrimStart(s[1..]) else s
  }

  /** `trimEnd`: drops the trailing white space. */
  function TrimEnd(s: string): string {
    if |s| > 0 && IsWhitespace(s[|s| - 1]) then TrimEnd(s[..|s| - 1]) else s
  }

  /** `String.prototype.trim`. */
  function Trim(s: string): string {
    TrimEnd(TrimStart(s))
  }

  /**
   * `toUpperCase` on one character. Only the ASCII letters and the Latin-1 letters
   * U+00E0..U+00FE (without U+00F7) are mapped; they cover the Spanish alphabet.
   */
  function UpperChar(c: char): char {
    if 'a' <= c <= 'z' || ('\U{00E0}' <= c <= '\U{00FE}' && c != '\U{00F7}') then
      (c as int - 32) as char
    else
      c
  }

  /** `String.prototype.toUpperCase`, character by character. */
  function ToUpper(s: string): string {
    if s == [] then [] else [UpperChar(s[0])] + ToUpper(s[1..])
  }

  /** Upper-casing keeps the length and maps every character on its own. */
  lemma {:induction false} ToUpperPointwise(s: string)
    ensures |ToUpper(s)| == |s|
    ensures forall i :: 0 <= i < |s| ==> ToUpper(s)[i] == UpperChar(s[i])
  {
    if s != [] {
      ToUpperPointwise(s[1..]);
    }
  }

  /** `s.replace(/\./g, "")`: every full stop removed. */
  function RemoveDots(s: string): (r: string)
    ensures |r| <= |s|
    ensures forall i :: 0 <= i < |r| ==> r[i] != '.'
  {
    if s == [] then [] else (if s[0] == '.' then [] else [s[0]]) + RemoveDots(s[1..])
  }

  function Repeat(c: char, n: nat): (r: string)
    ensures |r| == n
    ensures forall i :: 0 <= i < n ==> r[i] == c
  {
    seq(n, _ => c)
  }

  /** `s.padEnd(n, c)` for a one-character filler. */
  function PadEnd(s: string, n: nat, c: char): (r: string)
    ensures |r| == if |s| < n then n else |s|
    ensures r[..|s|] == s
    ensures forall i :: |s| <= i < |r| ==> r[i] == c
  {
    if |s| < n then s + Repeat(c, n - |s|) else s
  }

  /** `xs.join(sep)`. */
  function Join(xs: seq<string>, sep: string): string {
    if |xs| == 0 then ""
    else if |xs| == 1 then xs[0]
    else Join(xs[..|xs| - 1], sep) + sep + xs[|xs| - 1]
  }

  predicate IsDigit(c: char) {
    '0' <= c <= '9'
  }

  function DigitChar(d: nat): (c: char)
    requires d < 10
    ensures IsDigit(c)
  {
    ('0' as int + d) as char
  }

  /** Decimal rendering of a natural number, as a template literal prints it. */
  function NatToString(n: nat): (r: string)
    ensures |r| > 0
    ensures forall i :: 0 <= i < |r| ==> IsDigit(r[i])
  {
    if n < 10 then [DigitChar(n)] else NatToString(n / 10) + [DigitChar(n % 10)]
  }

  /** How many characters at the front of `s` are decimal digits. */
  function DigitRun(s: string): (k: nat)
    ensures k <= |s|
    ensures forall i :: 0 <= i < k ==> IsDigit(s[i])
    ensures k < |s| ==> !IsDigit(s[k])
  {
    if |s| > 0 && IsDigit(s[0]) then 1 + DigitRun(s[1..]) else 0
  }

  /** The value of a run of decimal digits. */
  function DigitsValue(d: string): nat
    requires forall i :: 0 <= i < |d| ==> IsDigit(d[i])
  {
    if d == [] then 0
    else
      var last := d[|d| - 1];
      assert IsDigit(last);
      10 * DigitsValue(d[..|d| - 1]) + (last as int - '0' as int)
  }

  function Pow10(n: nat): (r: nat)
    ensures r >= 1
  {
    if n == 0 then 1 else 10 * Pow10(n - 1)
  }

  /** The exponent of an `e`/`E` suffix with at least one digit, or 0 when there is none. */
  function ExponentOf(s: string): int {
    if |s| >= 2 && (s[0] == 'e' || s[0] == 'E') then
      var signed := s[1..];
      var neg := signed[0] == '-';
      var digits := if signed[0] == '-' || signed[0] == '+' then signed[1..] else signed;
      var k := DigitRun(digits);
      if k == 0 then 0
      else if neg then -(DigitsValue(digits[..k]) as int)
      else DigitsValue(digits[..k])
    else
      0
  }

  /**
   * `parseFloat` on a string: leading white space is skipped and the longest prefix that is a
   * signed decimal literal (digits, an optional fraction, an optional exponent) is read;
   * `None` stands for NaN, returned when no digit starts the literal.
   */
  function ParseFloat(s: string): Option<real> {
    var t := TrimStart(s);
    var neg := |t| > 0 && t[0] == '-';
    var body := if |t| > 0 && (t[0] == '-' || t[0] == '+') then t[1..] else t;
    var magnitude := UnsignedDecimal(body);
    if magnitude.None? then None
    else Some(if neg then -magnitude.value else magnitude.value)
  }

  /** The value of the unsigned decimal literal at the front of `body`; `None` when no digit starts it. */
  function UnsignedDecimal(body: string): Option<real> {
    var i := DigitRun(body);
    var rest := body[i..];
    var hasPoint := |rest| > 0 && rest[0] == '.';
    var afterPoint := if hasPoint then rest[1..] else "";
    var f := DigitRun(afterPoint);
    if i + f == 0 then None
    else
      var mantissa := DigitsValue(body[..i]) as real + DigitsValue(afterPoint[..f]) as real / Pow10(f) as real;
      var exponent := ExponentOf(if hasPoint then afterPoint[f..] else rest);
      Some(if exponent >= 0 then mantissa * Pow10(exponent) as real else mantissa / Pow10(-exponent) as real)
  }

  /** `x.toFixed(2)` for 0 <= x: round half up to hundredths. */
  function FixedTwo(x: real): string
    requires x >= 0.0
  {
    var hundredths := (x * 100.0 + 0.5).Floor;
    var digits := NatToString(hundredths);
    var padded := if |digits| < 3 then Repeat('0', 3 - |digits|) + digits else digits;
    padded[..|padded| - 2] + "." + padded[|padded| - 2..]
  }

  /** `Number.prototype.toFixed(2)`: a negative number is printed as "-" and its magnitude. */
  function ToFixed2(x: real): string {
    if x < 0.0 then "-" + FixedTwo(-x) else FixedTwo(x)
  }

  // ----- Lemmas -----

  lemma UnsignedDecimalExample()
    ensures UnsignedDecimal("1.5e2x") == Some(150.0)
  {
    ExampleDigitRuns();
    ExponentExample();
    assert DigitsValue("1") == 1 && DigitsValue("5") == 5;
    assert Pow10(1) == 10 && Pow10(2) == 100;
  }

  /** The integer part "1", the fraction "5" and the suffix "e2x" of "1.5e2x". */
  lemma ExampleDigitRuns()
    ensures DigitRun("1.5e2x") == 1 && "1.5e2x"[..1] == "1" && "1.5e2x"[1..] == ".5e2x"
    ensures ".5e2x"[1..] == "5e2x" && DigitRun("5e2x") == 1
    ensures "5e2x"[..1] == "5" && "5e2x"[1..] == "e2x"
  {
    assert DigitRun("1.5e2x") == 1;
    assert DigitRun("5e2x") == 1;
  }

  /** An exponent suffix stops at its last digit. */
  lemma ExponentExample()
    ensures ExponentOf("e2x") == 2
  {
    assert "e2x"[1..] == "2x";
    assert DigitRun("2x") == 1;
    assert "2x"[..1] == "2";
    assert DigitsValue("2") == 2;
  }

  /** Leading blanks, a sign, a fraction and an exponent are read; the text after the literal is ignored. */
  lemma ParseFloatSignedExponent()
    ensures ParseFloat(" -1.5e2x") == Some(-150.0)
  {
    assert TrimStart(" -1.5e2x") == "-1.5e2x";
    assert "-1.5e2x"[1..] == "1.5e2x";
    UnsignedDecimalExample();
  }


  /** A literal may start with its fraction. */
  lemma ParseFloatLeadingPoint()
    ensures ParseFloat(".5") == Some(0.5)
  {
    ParseFloatUnsigned(".5");
    UnsignedLeadingPoint();
  }

  /** A text that starts with neither a blank nor a sign is read as an unsigned literal. */
  lemma ParseFloatUnsigned(t: string)
    requires |t| > 0 && !IsWhitespace(t[0]) && t[0] != '-' && t[0] != '+'
    ensures ParseFloat(t) == UnsignedDecimal(t)
  {
  }

  lemma UnsignedLeadingPoint()
    ensures UnsignedDecimal(".5") == Some(0.5)
  {
    assert DigitRun(".5") == 0;
    assert ".5"[..0] == "" && ".5"[0..] == ".5" && ".5"[1..] == "5";
    assert DigitRun("5") == 1;
    assert "5"[..1] == "5" && "5"[1..] == "";
    assert DigitsValue("5") == 5;
    assert DigitsValue("") == 0;
    assert Pow10(1) == 10;
  }

  /** Without a digit before the exponent there is no number: NaN. */
  lemma ParseFloatNoDigits()
    ensures ParseFloat("e5") == None
  {
    assert TrimStart("e5") == "e5";
    assert DigitRun("e5") == 0;
  }

  lemma {:induction false} RemoveDotsAppend(a: string, b: string)
    ensures RemoveDots(a + b) == RemoveDots(a) + RemoveDots(b)
  {
    if a == [] {
      assert a + b == b;
    } else {
      assert (a + b)[1..] == a[1..] + b;
      RemoveDotsAppend(a[1..], b);
    }
  }

  lemma {:induction false} RemoveDotsNoDots(s: string)
    requires forall i :: 0 <= i < |s| ==> s[i] != '.'
    ensures RemoveDots(s) == s
  {
    if s != [] {
      RemoveDotsNoDots(s[1..]);
    }
  }

  /** White space in front of a string does not survive `TrimStart`. */
  lemma {:induction false} TrimStartSkipsPrefix(p: string, s: string)
    requires AllWhitespace(p)
    ensures TrimStart(p + s) == TrimStart(s)
  {
    if p != [] {
      assert (p + s)[1..] == p[1..] + s;
      TrimStartSkipsPrefix(p[1..], s);
    } else {
      assert p + s == s;
    }
  }

  /** White space behind a string does not survive `TrimEnd`. */
  lemma {:induction false} TrimEndSkipsSuffix(s: string, q: string)
    requires AllWhitespace(q)
    ensures TrimEnd(s + q) == TrimEnd(s)
  {
    if q != [] {
      var q' := q[..|q| - 1];
      assert (s + q)[..|s + q| - 1] == s + q';
      TrimEndSkipsSuffix(s, q');
    } else {
      assert s + q == s;
    }
  }

  lemma {:induction false} TrimStartAllWhitespace(s: string)
    requires AllWhitespace(s)
    ensures TrimStart(s) == ""
  {
    if s != [] {
      TrimStartAllWhitespace(s[1..]);
    }
  }

  /** Once a non-blank character is reached, `TrimStart` keeps everything after it. */
  lemma {:induction false} TrimStartKeepsTail(s: string, q: string)
    requires !AllWhitespace(s)
    ensures TrimStart(s + q) == TrimStart(s) + q
  {
    assert s != [];
    assert (s + q)[1..] == s[1..] + q;
    if IsWhitespace(s[0]) {
      TrimStartKeepsTail(s[1..], q);
    }
  }

  /** `trim` ignores any white space around its argument. */
  lemma TrimIgnoresPadding(p: string, s: string, q: string)
    requires AllWhitespace(p) && AllWhitespace(q)
    ensures Trim(p + s + q) == Trim(s)
  {
    assert p + s + q == p + (s + q);
    TrimStartSkipsPrefix(p, s + q);
    if AllWhitespace(s) {
      assert AllWhitespace(s + q);
      TrimStartAllWhitespace(s + q);
      TrimStartAllWhitespace(s);
    } else {
      TrimStartKeepsTail(s, q);
      TrimEndSkipsSuffix(TrimStart(s), q);
    }
  }

  /** Upper-casing maps blanks to blanks and non-blanks to non-blanks. */
  lemma UpperKeepsWhitespace(c: char)
    ensures IsWhitespace(UpperChar(c)) == IsWhitespace(c)
  {
  }

  lemma {:induction false} TrimStartUpper(s: string)
    ensures TrimStart(ToUpper(s)) == ToUpper(TrimStart(s))
  {
    if s != [] {
      var u := ToUpper(s);
      ToUpperPointwise(s);
      assert u[0] == UpperChar(s[0]);
      UpperKeepsWhitespace(s[0]);
      if IsWhitespace(s[0]) {
        assert u[1..] == ToUpper(s[1..]);
        TrimStartUpper(s[1..]);
      }
    }
  }

  lemma {:induction false} TrimEndUpper(s: string)
    ensures TrimEnd(ToUpper(s)) == ToUpper(TrimEnd(s))
  {
    if s != [] {
      var s' := s[..|s| - 1];
      var u := ToUpper(s);
      ToUpperPointwise(s);
      ToUpperPointwise(s');
      assert u[|u| - 1] == UpperChar(s[|s| - 1]);
      UpperKeepsWhitespace(s[|s| - 1]);
      if IsWhitespace(s[|s| - 1]) {
        assert u[..|u| - 1] == ToUpper(s');
        TrimEndUpper(s');
      }
    }
  }

  /** Upper-casing never turns a blank into a non-blank or back, so it commutes with `trim`. */
  lemma TrimUpperCommute(s: string)
    ensures Trim(ToUpper(s)) == ToUpper(Trim(s))
  {
    TrimStartUpper(s);
    TrimEndUpper(TrimStart(s));
  }
}
