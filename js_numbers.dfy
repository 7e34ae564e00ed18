/**
 * The two JavaScript number conversions the request layer relies on:
 * `Number.parseInt(s)` with no radix (leading white space, an optional sign,
 * an optional `0x` prefix, then the longest run of digits; no digits is NaN)
 * and `String(n)` for a non-negative integer.
 */
module JsNumbers {
  import opened Wrappers

  /** ECMAScript StrWhiteSpaceChar: WhiteSpace and LineTerminator code points. */
  predicate IsJsWhiteSpace(c: char) {
    c == '\t' || c == '\n' || c == '\U{000B}' || c == '\U{000C}' || c == '\r' || c == ' ' ||
    c == '\U{00A0}' || c == '\U{1680}' || ('\U{2000}' <= c <= '\U{200A}') ||
    c == '\U{2028}' || c == '\U{2029}' || c == '\U{202F}' || c == '\U{205F}' ||
    c == '\U{3000}' || c == '\U{FEFF}'
  }

  /** Value of `c` as a digit in `radix` (10 or 16), or -1. */
  function DigitIn(c: char, radix: nat): (d: int)
    requires radix == 10 || radix == 16
    ensures -1 <= d < radix
  {
    if '0' <= c <= '9' then c as int - '0' as int
    else if radix == 16 && 'a' <= c <= 'f' then c as int - 'a' as int + 10
    else if radix == 16 && 'A' <= c <= 'F' then c as int - 'A' as int + 10
    else -1
  }

  function TrimStart(s: string): (r: string)
    ensures |r| <= |s| && r == s[|s| - |r|..]
    ensures r == [] || !IsJsWhiteSpace(r[0])
  {
    if s != [] && IsJsWhiteSpace(s[0]) then TrimStart(s[1..]) else s
  }

  /** Length of the longest prefix of `s` made of digits of `radix`. */
  function DigitRun(s: string, radix: nat): (n: nat)
    requires radix == 10 || radix == 16
    ensures n <= |s|
    ensures forall i :: 0 <= i < n ==> DigitIn(s[i], radix) >= 0
    ensures n < |s| ==> DigitIn(s[n], radix) < 0
  {
    if s != [] && DigitIn(s[0], radix) >= 0 then 1 + DigitRun(s[1..], radix) else 0
  }

  /** The number a run of digits denotes, most significant first. */
  function DigitsValue(ds: string, radix: nat): nat
    requires radix == 10 || radix == 16
    requires forall i :: 0 <= i < |ds| ==> DigitIn(ds[i], radix) >= 0
  {
    if ds == [] then 0
    else DigitsValue(ds[..|ds| - 1], radix) * radix + DigitIn(ds[|ds| - 1], radix)
  }

  /** `Number.parseInt(s)`; None stands for NaN. */
  function ParseInt(s: string): (r: Option<int>)
    ensures r.Some? ==> TrimStart(s) != []
    ensures r.Some? && r.value < 0 ==> TrimStart(s)[0] == '-'
  {
    var t := TrimStart(s);
    if t != [] && (t[0] == '-' || t[0] == '+') then
      match ParseUnsigned(t[1..])
      case None => None
      case Some(m) => Some(if t[0] == '-' then -(m as int) else m as int)
    else ParseUnsigned(t)
  }

  /** After the sign: an optional `0x` prefix, then the longest run of digits. */
  function ParseUnsigned(u: string): (r: Option<nat>)
    ensures r.Some? ==> u != []
  {
    var hex := |u| >= 2 && u[0] == '0' && (u[1] == 'x' || u[1] == 'X');
    var radix := if hex then 16 else 10;
    var v := if hex then u[2..] else u;
    var n := DigitRun(v, radix);
    if n == 0 then None else Some(DigitsValue(v[..n], radix))
  }

  function DecimalDigit(d: nat): (c: char)
    requires d < 10
    ensures DigitIn(c, 10) == d && DigitIn(c, 16) == d
  {
    "0123456789"[d]
  }

  /** `String(n)` for a non-negative integer: decimal digits, no leading zero. */
  function DecimalString(n: nat): (s: string)
    ensures |s| >= 1
    ensures forall i :: 0 <= i < |s| ==> 0 <= DigitIn(s[i], 10) && '0' <= s[i] <= '9'
    ensures |s| >= 2 ==> s[0] != '0'
  {
    if n < 10 then [DecimalDigit(n)] else DecimalString(n / 10) + [DecimalDigit(n % 10)]
  }

  lemma {:induction false} DecimalValue(n: nat)
    ensures DigitsValue(DecimalString(n), 10) == n
  {
    if n >= 10 {
      var s := DecimalString(n);
      DecimalValue(n / 10);
      assert s[..|s| - 1] == DecimalString(n / 10);
    }
  }

  /** A non-empty run of decimal digits parses to the number it denotes. */
  lemma ParseDigits(s: string)
    requires s != [] && forall i :: 0 <= i < |s| ==> '0' <= s[i] <= '9'
    ensures forall i :: 0 <= i < |s| ==> DigitIn(s[i], 10) >= 0
    ensures ParseInt(s) == Some(DigitsValue(s, 10))
  {
    NoWhiteSpaceBeforeDigits(s);
    UnsignedDigits(s);
  }

  lemma UnsignedDigits(s: string)
    requires s != [] && forall i :: 0 <= i < |s| ==> '0' <= s[i] <= '9'
    ensures forall i :: 0 <= i < |s| ==> DigitIn(s[i], 10) >= 0
    ensures ParseUnsigned(s) == Some(DigitsValue(s, 10))
  {
    assert |s| >= 2 ==> s[1] != 'x' && s[1] != 'X';
    WholeRunOfDigits(s);
    assert s[..|s|] == s;
  }

  lemma NoWhiteSpaceBeforeDigits(s: string)
    requires s != [] && '0' <= s[0] <= '9'
    ensures TrimStart(s) == s
  {
    assert !IsJsWhiteSpace(s[0]);
  }

  lemma WholeRunOfDigits(s: string)
    requires forall i :: 0 <= i < |s| ==> '0' <= s[i] <= '9'
    ensures DigitRun(s, 10) == |s|
  {
  }

  /** Parsing the decimal rendering of a number gives the number back. */
  lemma ParseDecimal(n: nat)
    ensures ParseInt(DecimalString(n)) == Some(n)
  {
    ParseDigits(DecimalString(n));
    DecimalValue(n);
  }

  /** Distinct numbers have distinct decimal renderings. */
  lemma DecimalStringInjective(a: nat, b: nat)
    requires DecimalString(a) == DecimalString(b)
    ensures a == b
  {
    ParseDecimal(a);
    ParseDecimal(b);
  }
}
