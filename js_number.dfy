/** The page number as JavaScript handles it: `parseInt(text, 10)` when it is
    read from the URL and `String(n)` when it is written back. */
module JsNumber {

  /** An integral JavaScript number or NaN (what `parseInt` returns). */
  datatype JsInt = Int(value: int) | NaN

  /** The characters `parseInt` skips before the number: ECMAScript's
      white space (tab, vertical tab, form feed, the byte-order mark and every
      space separator) and line terminators. */
  predicate IsWhiteSpace(c: char) {
    c == '\t' || c == '\U{B}' || c == '\U{C}' || c == ' ' || c == '\U{A0}' || c == '\U{FEFF}'
    || c == '\U{1680}' || ('\U{2000}' <= c <= '\U{200A}') || c == '\U{202F}' || c == '\U{205F}'
    || c == '\U{3000}' || c == '\n' || c == '\r' || c == '\U{2028}' || c == '\U{2029}'
  }

  predicate IsDigit(c: char) {
    '0' <= c <= '9'
  }

  function DigitValue(c: char): (d: nat)
    requires IsDigit(c)
    ensures d < 10
  {
    c as int - '0' as int
  }

  function DigitChar(d: nat): (c: char)
    requires d < 10
    ensures IsDigit(c) && DigitValue(c) == d
  {
    ('0' as int + d) as char
  }

  predicate AllDigits(s: string) {
    forall i :: 0 <= i < |s| ==> IsDigit(s[i])
  }

  /** s without its leading white space. */
  function TrimStart(s: string): (r: string)
    ensures |r| <= |s|
    ensures r == [] || !IsWhiteSpace(r[0])
  {
    if s != [] && IsWhiteSpace(s[0]) then TrimStart(s[1..]) else s
  }

  /** The number of digits at the front of s. */
  function DigitRunLength(s: string): (n: nat)
    ensures n <= |s| && AllDigits(s[..n])
    ensures n < |s| ==> !IsDigit(s[n])
  {
    if s != [] && IsDigit(s[0]) then
      var n := 1 + DigitRunLength(s[1..]);
      assert forall i :: 1 <= i < n ==> s[..n][i] == s[1..][..n - 1][i - 1];
      n
    else 0
  }

  /** The value of a string of decimal digits, most significant digit first. */
  function DigitsValue(ds: string): nat
    requires AllDigits(ds)
  {
    if ds == [] then 0 else DigitsValue(ds[..|ds| - 1]) * 10 + DigitValue(ds[|ds| - 1])
  }

  /** `parseInt(s, 10)`: skip leading white space, read an optional sign and
      then the longest run of decimal digits; whatever follows is ignored.
      Without any digit the result is NaN. */
  function ParseInt(s: string): JsInt {
    ParseSigned(TrimStart(s))
  }

  /** The sign, if any, then the digits. */
  function ParseSigned(t: string): JsInt {
    if t != [] && t[0] == '-' then Negate(ParseUnsigned(t[1..]))
    else if t != [] && t[0] == '+' then ParseUnsigned(t[1..])
    else ParseUnsigned(t)
  }

  function Negate(x: JsInt): JsInt {
    match x
    case NaN => NaN
    case Int(v) => Int(-v)
  }

  /** The value of the digit run at the front, or NaN when there is none. */
  function ParseUnsigned(b: string): JsInt {
    var n := DigitRunLength(b);
    if n == 0 then NaN else Int(DigitsValue(b[..n]))
  }

  /** The decimal digits of n, without leading zeros. */
  function NatToDecimal(n: nat): (r: string)
    ensures |r| >= 1 && AllDigits(r)
    ensures |r| > 1 ==> r[0] != '0'
  {
    if n < 10 then [DigitChar(n)] else NatToDecimal(n / 10) + [DigitChar(n % 10)]
  }

  /** `String(x)` for an integral number or NaN (`n.toString()` is the same). */
  function ToString(x: JsInt): (r: string)
    ensures r != ""
  {
    match x
    case NaN => "NaN"
    case Int(v) => if v < 0 then "-" + NatToDecimal(-v) else NatToDecimal(v)
  }

  /** Reading back the digits of n gives n. */
  lemma {:induction false} DecimalValue(n: nat)
    ensures DigitsValue(NatToDecimal(n)) == n
  {
    if n >= 10 {
      DecimalValue(n / 10);
      var s := NatToDecimal(n / 10) + [DigitChar(n % 10)];
      assert s[..|s| - 1] == NatToDecimal(n / 10);
    }
  }

  lemma DigitRunOfDigits(s: string)
    requires AllDigits(s)
    ensures DigitRunLength(s) == |s|
  {
  }

  /** A string that does not start with white space is its own trimmed form. */
  lemma TrimStartNoSpace(s: string)
    requires s != [] && !IsWhiteSpace(s[0])
    ensures TrimStart(s) == s
  {
  }

  /** A run of digits alone is read as its value. */
  lemma ParseUnsignedDigits(ds: string)
    requires |ds| >= 1 && AllDigits(ds)
    ensures ParseUnsigned(ds) == Int(DigitsValue(ds))
  {
    DigitRunOfDigits(ds);
    assert ds[..|ds|] == ds;
  }

  /** Digits parse to their value. */
  lemma ParseDigits(ds: string)
    requires |ds| >= 1 && AllDigits(ds)
    ensures ParseInt(ds) == Int(DigitsValue(ds))
  {
    assert IsDigit(ds[0]);
    TrimStartNoSpace(ds);
    ParseUnsignedDigits(ds);
  }

  /** A minus sign in front of a number negates what it parses to. */
  lemma ParseNegatedDigits(ds: string)
    requires |ds| >= 1 && IsDigit(ds[0])
    ensures ParseInt("-" + ds) == Negate(ParseInt(ds))
  {
    var s := "-" + ds;
    assert s[0] == '-' && !IsWhiteSpace(s[0]);
    assert s[1..] == ds;
    TrimStartNoSpace(s);
    TrimStartNoSpace(ds);
    calc {
      ParseInt(s);
      ParseSigned(TrimStart(s));
      ParseSigned(s);
      Negate(ParseUnsigned(s[1..]));
      Negate(ParseUnsigned(ds));
      Negate(ParseSigned(ds));
      Negate(ParseSigned(TrimStart(ds)));
      Negate(ParseInt(ds));
    }
  }

  /** "NaN" has no digits, so it parses back to NaN. */
  lemma ParseNaN()
    ensures ParseInt("NaN") == NaN
  {
    var s := "NaN";
    assert !IsWhiteSpace(s[0]) && !IsDigit(s[0]) && s[0] != '-' && s[0] != '+';
    TrimStartNoSpace(s);
    assert DigitRunLength(s) == 0;
  }

  /** A non-negative integer written with `String` parses back to itself. */
  lemma ParseNatToString(n: nat)
    ensures ParseInt(NatToDecimal(n)) == Int(n)
  {
    DecimalValue(n);
    ParseDigits(NatToDecimal(n));
  }

  /** A negative integer written with `String` parses back to itself. */
  lemma ParseNegativeToString(m: nat)
    requires m > 0
    ensures ParseInt("-" + NatToDecimal(m)) == Int(-(m as int))
  {
    var digits := NatToDecimal(m);
    assert IsDigit(digits[0]);
    ParseNatToString(m);
    ParseNegatedDigits(digits);
  }

  /** Writing a page number into the URL and parsing it again gives the same
      number, NaN included. */
  lemma ParseToString(x: JsInt)
    ensures ParseInt(ToString(x)) == x
  {
    match x
    case NaN => ParseNaN();
    case Int(v) =>
      if v < 0 {
        ParseNegativeToString(-v);
      } else {
        ParseNatToString(v);
      }
  }
}
