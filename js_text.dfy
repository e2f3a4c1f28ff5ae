/**
 * The browser string semantics the scoreboard relies on:
 * `String.prototype.trim`, `parseInt(text, 10) || 0`, the conversion of an
 * integer-valued Number to the text written into a total cell, and the value
 * sanitisation of an `<input type="number">`.
 */
module JsText {

  datatype Option<+T> = None | Some(value: T)

  /** The characters JavaScript treats as white space or line terminators
      (both `trim` and `parseInt` skip exactly these). */
  predicate IsJsSpace(c: char) {
    || c == ' ' || c == '\t' || c == '\n' || c == '\r'
    || c == '\U{000B}' || c == '\U{000C}' || c == '\U{00A0}' || c == '\U{FEFF}'
    || c == '\U{1680}' || ('\U{2000}' <= c <= '\U{200A}')
    || c == '\U{2028}' || c == '\U{2029}' || c == '\U{202F}' || c == '\U{205F}'
    || c == '\U{3000}'
  }

  predicate IsDigit(c: char) {
    '0' <= c <= '9'
  }

  predicate AllDigits(s: string) {
    forall i :: 0 <= i < |s| ==> IsDigit(s[i])
  }

  // ---------------------------------------------------------------------------
  // trim

  /** Drops leading white space: the result is the suffix of `s` that starts at
      its first non-space character. */
  function TrimStart(s: string): string {
    if |s| > 0 && IsJsSpace(s[0]) then TrimStart(s[1..]) else s
  }

  /** Drops trailing white space: the result is the prefix of `s` that ends at
      its last non-space character. */
  function TrimEnd(s: string): string {
    if |s| > 0 && IsJsSpace(s[|s| - 1]) then TrimEnd(s[..|s| - 1]) else s
  }

  /** `TrimStart` removes exactly the leading white space. */
  lemma {:induction false} TrimStartShape(s: string)
    ensures var r := TrimStart(s);
      && |r| <= |s| && r == s[|s| - |r|..]
      && (forall i :: 0 <= i < |s| - |r| ==> IsJsSpace(s[i]))
      && (r == [] || !IsJsSpace(r[0]))
  {
    if |s| > 0 && IsJsSpace(s[0]) {
      TrimStartShape(s[1..]);
    }
  }

  /** `TrimEnd` removes exactly the trailing white space. */
  lemma {:induction false} TrimEndShape(s: string)
    ensures var r := TrimEnd(s);
      && |r| <= |s| && r == s[..|r|]
      && (forall i :: |r| <= i < |s| ==> IsJsSpace(s[i]))
      && (r == [] || !IsJsSpace(r[|r| - 1]))
  {
    if |s| > 0 && IsJsSpace(s[|s| - 1]) {
      TrimEndShape(s[..|s| - 1]);
    }
  }

  /** `String.prototype.trim`. */
  function Trim(s: string): string {
    TrimEnd(TrimStart(s))
  }

  lemma TrimStartOfUnpadded(s: string)
    requires s == [] || !IsJsSpace(s[0])
    ensures TrimStart(s) == s
  {
  }

  lemma ParseIntOfUnpadded(s: string)
    requires s == [] || !IsJsSpace(s[0])
    ensures ParseInt(s) == ParseSigned(s)
  {
  }

  lemma TrimEndOfUnpadded(s: string)
    requires s == [] || !IsJsSpace(s[|s| - 1])
    ensures TrimEnd(s) == s
  {
  }

  /** The trimmed text neither starts nor ends with white space, and it is a
      contiguous piece of the original. */
  lemma TrimShape(s: string)
    ensures var r := Trim(s);
      r == [] || (!IsJsSpace(r[0]) && !IsJsSpace(r[|r| - 1]))
  {
    var t := TrimStart(s);
    var r := TrimEnd(t);
    TrimStartShape(s);
    TrimEndShape(t);
    if r != [] {
      assert r[0] == t[0];
    }
  }

  /** Trimming twice is trimming once. */
  lemma TrimIdempotent(s: string)
    ensures Trim(Trim(s)) == Trim(s)
  {
    var r := Trim(s);
    TrimShape(s);
    TrimStartOfUnpadded(r);
    TrimEndOfUnpadded(r);
  }

  // ---------------------------------------------------------------------------
  // parseInt(text, 10) || 0

  /** The longest prefix of `s` made of decimal digits. */
  function DigitPrefix(s: string): (r: string)
    ensures |r| <= |s| && r == s[..|r|] && AllDigits(r)
    ensures |r| == |s| || !IsDigit(s[|r|])
  {
    if |s| > 0 && IsDigit(s[0]) then [s[0]] + DigitPrefix(s[1..]) else []
  }

  function DigitOf(c: char): nat
    requires IsDigit(c)
  {
    c as int - '0' as int
  }

  /** The value of a string of decimal digits, most significant digit first. */
  function DigitsValue(d: string): nat
    requires AllDigits(d)
  {
    if d == [] then 0 else DigitsValue(d[..|d| - 1]) * 10 + DigitOf(d[|d| - 1])
  }

  /** What `parseInt` does after the leading white space has been skipped: an
      optional sign, then the maximal run of decimal digits; no digit is NaN. */
  function ParseSigned(t: string): Option<int> {
    var negative := |t| > 0 && t[0] == '-';
    var u := if |t| > 0 && (t[0] == '+' || t[0] == '-') then t[1..] else t;
    var d := DigitPrefix(u);
    if d == [] then None
    else
      var v: int := DigitsValue(d);
      Some(if negative then -v else v)
  }

  /** `parseInt(s, 10)`, with NaN as `None`: leading white space is skipped,
      then the rest is read by `ParseSigned`. */
  function ParseInt(s: string): Option<int> {
    if |s| > 0 && IsJsSpace(s[0]) then ParseInt(s[1..]) else ParseSigned(s)
  }

  /** The parse sees exactly the text that `TrimStart` leaves. */
  lemma {:induction false} ParseIntSkipsLeadingSpace(s: string)
    ensures ParseInt(s) == ParseSigned(TrimStart(s))
  {
    if |s| > 0 && IsJsSpace(s[0]) {
      ParseIntSkipsLeadingSpace(s[1..]);
    }
  }

  /** `parseInt(s, 10) || 0`: NaN (and negative zero) become 0. */
  function CellValue(s: string): int {
    match ParseInt(s)
    case None => 0
    case Some(v) => v
  }

  // ---------------------------------------------------------------------------
  // Integer to text, as `textContent = total` renders an integral Number

  function DigitChar(k: nat): (c: char)
    requires k < 10
    ensures IsDigit(c) && DigitOf(c) == k
  {
    ('0' as int + k) as char
  }

  /** The decimal numeral of `n` without leading zeros. */
  function NatText(n: nat): (r: string)
    ensures r != [] && AllDigits(r)
    ensures |r| > 1 ==> r[0] != '0'
  {
    if n < 10 then [DigitChar(n)] else NatText(n / 10) + [DigitChar(n % 10)]
  }

  function NumberText(n: int): (r: string)
    ensures r != [] && !IsJsSpace(r[0])
  {
    if n < 0 then "-" + NatText(-n) else NatText(n)
  }

  // ---------------------------------------------------------------------------
  // Properties of the parser

  lemma {:induction false} DigitPrefixOfDigitsThen(x: string, w: string)
    requires w == [] || !IsDigit(w[0])
    ensures DigitPrefix(x + w) == DigitPrefix(x)
  {
    if x != [] && IsDigit(x[0]) {
      assert (x + w)[1..] == x[1..] + w;
      DigitPrefixOfDigitsThen(x[1..], w);
    } else if x == [] {
      assert x + w == w;
    }
  }

  lemma {:induction false} DigitPrefixOfDigits(d: string)
    requires AllDigits(d)
    ensures DigitPrefix(d) == d
  {
    if d != [] {
      DigitPrefixOfDigits(d[1..]);
    }
  }

  lemma {:induction false} DigitsValueOfNatText(n: nat)
    ensures DigitsValue(NatText(n)) == n
  {
    if n >= 10 {
      var r := NatText(n);
      assert r[..|r| - 1] == NatText(n / 10);
      DigitsValueOfNatText(n / 10);
    }
  }

  /** The digits of a numeral are exactly the digit prefix of that numeral
      followed by text that does not start with a digit. */
  lemma DigitPrefixOfNumeral(m: nat, rest: string)
    requires rest == [] || !IsDigit(rest[0])
    ensures DigitPrefix(NatText(m) + rest) == NatText(m)
    ensures DigitsValue(NatText(m)) == m
  {
    DigitPrefixOfDigitsThen(NatText(m), rest);
    DigitPrefixOfDigits(NatText(m));
    DigitsValueOfNatText(m);
  }

  lemma ParseSignedOfNegativeThen(m: nat, rest: string)
    requires rest == [] || !IsDigit(rest[0])
    ensures ParseSigned(['-'] + (NatText(m) + rest)) == Some(-(m as int))
  {
    var s := ['-'] + (NatText(m) + rest);
    DigitPrefixOfNumeral(m, rest);
    assert s[1..] == NatText(m) + rest;
    assert DigitPrefix(s[1..]) == NatText(m);
  }

  lemma ParseSignedOfNaturalThen(m: nat, rest: string)
    requires rest == [] || !IsDigit(rest[0])
    ensures ParseSigned(NatText(m) + rest) == Some(m)
  {
    var s := NatText(m) + rest;
    DigitPrefixOfNumeral(m, rest);
    assert IsDigit(s[0]);
  }

  /** A numeral followed by anything that does not continue it parses to its
      value: "3x" is 3, and the text of a total parses back to that total. */
  lemma ParseIntOfNumberThen(n: int, rest: string)
    requires rest == [] || !IsDigit(rest[0])
    ensures ParseInt(NumberText(n) + rest) == Some(n)
    ensures CellValue(NumberText(n) + rest) == n
  {
    var s := NumberText(n) + rest;
    assert s[0] == NumberText(n)[0];
    ParseIntOfUnpadded(s);
    ParseSignedOfNumberThen(n, rest);
  }

  lemma ParseSignedOfNumberThen(n: int, rest: string)
    requires rest == [] || !IsDigit(rest[0])
    ensures ParseSigned(NumberText(n) + rest) == Some(n)
  {
    if n < 0 {
      assert NumberText(n) + rest == ['-'] + (NatText(-n) + rest);
      ParseSignedOfNegativeThen(-n, rest);
    } else {
      ParseSignedOfNaturalThen(n, rest);
    }
  }

  /** The total written into a cell reads back as the same number. */
  lemma ParseIntOfNumberText(n: int)
    ensures ParseInt(NumberText(n)) == Some(n)
  {
    ParseIntOfNumberThen(n, []);
    assert NumberText(n) + [] == NumberText(n);
  }

  /** Trailing white space after the sign and digits does not change the
      parse. */
  lemma ParseSignedIgnoresTrailingSpace(x: string, w: string)
    requires w == [] || IsJsSpace(w[0])
    ensures ParseSigned(x + w) == ParseSigned(x)
  {
    if x == [] {
      assert x + w == w;
    } else {
      if x[0] == '+' || x[0] == '-' {
        assert (x + w)[1..] == x[1..] + w;
        DigitPrefixOfDigitsThen(x[1..], w);
      } else {
        DigitPrefixOfDigitsThen(x, w);
      }
    }
  }

  /** Trimming a cell's text does not change the number it counts for. */
  lemma ParseIntOfTrim(s: string)
    ensures ParseInt(Trim(s)) == ParseInt(s)
    ensures CellValue(Trim(s)) == CellValue(s)
  {
    var t := TrimStart(s);
    var r := TrimEnd(t);
    TrimShape(s);
    ParseIntOfUnpadded(r);
    ParseIntSkipsLeadingSpace(s);
    SplitTrailingSpace(t);
    ParseSignedIgnoresTrailingSpace(r, t[|r|..]);
  }

  lemma SplitTrailingSpace(t: string)
    ensures var r := TrimEnd(t);
      && |r| <= |t| && t == r + t[|r|..]
      && (t[|r|..] == [] || IsJsSpace(t[|r|..][0]))
  {
    var r := TrimEnd(t);
    TrimEndShape(t);
    assert t == t[..|r|] + t[|r|..];
  }

  /** Text whose first non-space character (after an optional sign) is not a
      digit is NaN, hence counts as 0. */
  lemma NoLeadingDigitCountsZero(s: string)
    requires var t := TrimStart(s);
      var u := if |t| > 0 && (t[0] == '+' || t[0] == '-') then t[1..] else t;
      u == [] || !IsDigit(u[0])
    ensures ParseInt(s) == None && CellValue(s) == 0
  {
    ParseIntSkipsLeadingSpace(s);
  }

  lemma EmptyCountsZero()
    ensures ParseInt("") == None && CellValue("") == 0
  {
    ParseIntOfUnpadded("");
  }

  lemma LetterCountsZero()
    ensures ParseInt("x") == None && CellValue("x") == 0
  {
    ParseIntOfUnpadded("x");
    LetterParsesToNaN();
  }

  lemma LetterParsesToNaN()
    ensures ParseSigned("x") == None
  {
    assert "x"[0] == 'x';
    assert DigitPrefix("x") == [];
  }

  lemma DigitThenLetterCountsDigit()
    ensures ParseInt("3x") == Some(3) && CellValue("3x") == 3
  {
    assert NumberText(3) + "x" == "3x";
    ParseIntOfNumberThen(3, "x");
  }

  lemma PaddedNegativeCountsNegative()
    ensures ParseInt(" -12 ") == Some(-12) && CellValue(" -12 ") == -12
  {
    TrimOfPaddedNegative();
    ParseIntOfTrim(" -12 ");
    NegativeNumeralParses();
  }

  lemma TrimOfPaddedNegative()
    ensures Trim(" -12 ") == "-12"
  {
    assert TrimStart(" -12 ") == "-12 ";
    assert TrimEnd("-12 ") == "-12";
  }

  lemma NegativeNumeralParses()
    ensures ParseInt("-12") == Some(-12)
  {
    assert NumberText(-12) == "-12";
    ParseIntOfNumberText(-12);
  }

  // ---------------------------------------------------------------------------
  // The value of an <input type="number">

  /** An exponent part that may end a valid floating-point number: nothing, or
      `e`/`E`, an optional sign and at least one digit. */
  predicate IsExponentPart(s: string) {
    s == [] ||
    (|s| >= 2 && (s[0] == 'e' || s[0] == 'E') &&
     var t := if s[1] == '+' || s[1] == '-' then s[2..] else s[1..];
     t != [] && AllDigits(t))
  }

  /** A full stop with at least one digit after it, then an exponent part. */
  predicate IsFractionPart(s: string) {
    |s| > 0 && s[0] == '.' &&
    var f := DigitPrefix(s[1..]);
    f != [] && IsExponentPart(s[1 + |f|..])
  }

  /** A "valid floating-point number" in the sense of the HTML standard: an
      optional `-`, then digits, a fraction or both (in that order), then an
      optional exponent. No `+` sign, no white space, no trailing full stop. */
  predicate IsValidFloat(s: string) {
    var u := if |s| > 0 && s[0] == '-' then s[1..] else s;
    var i := DigitPrefix(u);
    if i != [] then IsExponentPart(u[|i|..]) || IsFractionPart(u[|i|..])
    else IsFractionPart(u)
  }

  /** The value of a number input after the HTML value sanitisation algorithm:
      a string that is not a valid floating-point number becomes empty. It
      applies to a value assigned by script and to what the user types. */
  function Sanitize(v: string): string {
    if IsValidFloat(v) then v else ""
  }

  /** Sanitising is idempotent, and what it keeps is either empty or valid. */
  lemma SanitizeIdempotent(v: string)
    ensures Sanitize(Sanitize(v)) == Sanitize(v)
    ensures Sanitize(v) == [] || IsValidFloat(Sanitize(v))
  {
    assert !IsValidFloat("") by {
      assert DigitPrefix("") == [];
    }
  }

  /** Every rendered integer, the text of a total or of a reset score, is a
      valid floating-point number and survives sanitisation. */
  lemma NumberTextIsValidFloat(n: int)
    ensures IsValidFloat(NumberText(n)) && Sanitize(NumberText(n)) == NumberText(n)
  {
    var s := NumberText(n);
    var m: nat := if n < 0 then -n else n;
    var u := if |s| > 0 && s[0] == '-' then s[1..] else s;
    assert u == NatText(m) by {
      if n < 0 {
        assert s == "-" + NatText(m);
      } else {
        assert NatText(m)[0] != '-' by {
          assert IsDigit(NatText(m)[0]);
        }
      }
    }
    DigitPrefixOfDigits(NatText(m));
    assert u[|NatText(m)|..] == [];
  }

  /** The text of a div that does not read as a plain number, such as "3x" or
      "+3", is dropped when it is put into the number input. */
  lemma InvalidNumberTextsSanitizeToEmpty()
    ensures Sanitize("3x") == "" && Sanitize("+3") == "" && Sanitize("3.") == ""
  {
    assert DigitPrefix("3x") == "3" by {
      assert "3x"[1..] == "x";
      assert DigitPrefix("x") == [];
    }
    assert "3x"[1..] == "x";
    assert DigitPrefix("+3") == [];
    assert DigitPrefix("3.") == "3" by {
      assert "3."[1..] == ".";
      assert DigitPrefix(".") == [];
    }
    assert "3."[1..] == ".";
    assert "."[1..] == [];
  }

  /** Decimals and exponents are kept: "-1.5" and "2e3" survive. */
  lemma DecimalAndExponentSurvive()
    ensures Sanitize("-1.5") == "-1.5" && Sanitize("2e3") == "2e3"
  {
    assert "-1.5"[1..] == "1.5";
    assert DigitPrefix("1.5") == "1" by {
      assert "1.5"[1..] == ".5";
      assert DigitPrefix(".5") == [];
    }
    assert "1.5"[1..] == ".5";
    assert ".5"[1..] == "5";
    assert DigitPrefix("5") == "5" by { DigitPrefixOfDigits("5"); }
    assert ".5"[2..] == [];
    assert DigitPrefix("2e3") == "2" by {
      assert "2e3"[1..] == "e3";
      assert DigitPrefix("e3") == [];
    }
    assert "2e3"[1..] == "e3";
    assert "e3"[1..] == "3";
  }
}
