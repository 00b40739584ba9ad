/**
 * Decimal numerals as JavaScript reads and writes them: `parseInt(s, 10)`
 * and the rendering of a non-negative integer in a template string.
 */
module JsNumbers {
  import opened Wrappers

  predicate IsDigit(c: char) { '0' <= c <= '9' }

  function DigitValue(c: char): (d: nat)
    requires IsDigit(c)
    ensures d < 10
  {
    c as int - '0' as int
  }

  function DigitChar(d: nat): (c: char)
    requires d < 10
    ensures IsDigit(c) && DigitValue(c) == d
  {
    ('0' as int + d) as char
  }

  predicate AllDigits(s: string) { forall i :: 0 <= i < |s| ==> IsDigit(s[i]) }

  /** The code points JavaScript trims before a numeral: WhiteSpace and LineTerminator. */
  predicate IsJsWhiteSpace(c: char) {
    var u := c as int;
    u == 0x09 || u == 0x0A || u == 0x0B || u == 0x0C || u == 0x0D || u == 0x20 ||
    u == 0xA0 || u == 0x1680 || (0x2000 <= u <= 0x200A) || u == 0x2028 || u == 0x2029 ||
    u == 0x202F || u == 0x205F || u == 0x3000 || u == 0xFEFF
  }

  /**
   * `String(n)` for an integer 0 <= n < 10^21 (from there on JavaScript
   * switches to exponent notation): its shortest decimal numeral.
   */
  function DecimalString(n: nat): (s: string)
    ensures |s| >= 1 && AllDigits(s)
    ensures |s| == 1 || s[0] != '0'
  {
    if n < 10 then [DigitChar(n)] else DecimalString(n / 10) + [DigitChar(n % 10)]
  }

  /** The number a string of decimal digits denotes (most significant first). */
  function DigitsValue(d: string): nat
    requires AllDigits(d)
  {
    if d == [] then 0 else 10 * DigitsValue(d[..|d| - 1]) + DigitValue(d[|d| - 1])
  }

  /** The length of the longest prefix of `s` made of decimal digits. */
  function LeadingDigits(s: string): (n: nat)
    ensures n <= |s| && AllDigits(s[..n])
    ensures n < |s| ==> !IsDigit(s[n])
  {
    if s != [] && IsDigit(s[0]) then
      assert s[..1 + LeadingDigits(s[1..])] == [s[0]] + s[1..][..LeadingDigits(s[1..])];
      1 + LeadingDigits(s[1..])
    else 0
  }

  function SkipWhiteSpace(s: string): (t: string)
    ensures |t| <= |s| && t == s[|s| - |t|..]
    ensures t == [] || !IsJsWhiteSpace(t[0])
  {
    if s != [] && IsJsWhiteSpace(s[0]) then SkipWhiteSpace(s[1..]) else s
  }

  /**
   * The run of digits at the front of `s`, as a number, and the text after
   * it; `None` when `s` does not start with a digit.
   */
  function ReadNumeral(s: string): Option<(nat, string)>
  {
    var k := LeadingDigits(s);
    if k == 0 then None else Some((DigitsValue(s[..k]), s[k..]))
  }

  /**
   * `parseInt(s, 10)`: leading white space is skipped, one optional sign is
   * read, then the longest run of decimal digits; `None` is NaN, the result
   * when that run is empty. Whatever follows the digits is ignored.
   */
  function ParseInt(s: string): Option<int>
  {
    var t := SkipWhiteSpace(s);
    var negative := t != [] && t[0] == '-';
    var u := if t != [] && (t[0] == '-' || t[0] == '+') then t[1..] else t;
    match ReadNumeral(u)
    case None => None
    case Some((m, _)) =>
      var v: int := m;
      Some(if negative then -v else v)
  }

  lemma {:induction false} DecimalStringValue(n: nat)
    ensures DigitsValue(DecimalString(n)) == n
  {
    var s := DecimalString(n);
    if n < 10 {
      assert s[..0] == [];
    } else {
      assert s[..|s| - 1] == DecimalString(n / 10);
      DecimalStringValue(n / 10);
    }
  }

  lemma {:induction false} LeadingDigitsOfNumeral(d: string, rest: string)
    requires AllDigits(d)
    requires rest == [] || !IsDigit(rest[0])
    ensures LeadingDigits(d + rest) == |d|
  {
    if d != [] {
      assert (d + rest)[1..] == d[1..] + rest;
      LeadingDigitsOfNumeral(d[1..], rest);
    }
  }

  /** Reading a rendered numeral gives the number back and leaves the text after it. */
  lemma ReadNumeralOf(n: nat, rest: string)
    requires rest == [] || !IsDigit(rest[0])
    ensures ReadNumeral(DecimalString(n) + rest) == Some((n, rest))
  {
    var d := DecimalString(n);
    LeadingDigitsOfNumeral(d, rest);
    assert (d + rest)[..|d|] == d && (d + rest)[|d|..] == rest;
    DecimalStringValue(n);
  }

  /**
   * Reading back what `String(n)` wrote gives `n`, whatever non-digit text
   * follows: `parseInt("12abc", 10)` is 12.
   */
  lemma ParseIntDecimal(n: nat, rest: string)
    requires rest == [] || !IsDigit(rest[0])
    ensures ParseInt(DecimalString(n) + rest) == Some(n)
  {
    var s := DecimalString(n) + rest;
    assert s[0] == DecimalString(n)[0];
    assert IsDigit(s[0]) && !IsJsWhiteSpace(s[0]);
    assert SkipWhiteSpace(s) == s;
    ReadNumeralOf(n, rest);
  }

  /** A minus sign in front of a numeral negates it. */
  lemma ParseIntNegative(n: nat, rest: string)
    requires rest == [] || !IsDigit(rest[0])
    ensures ParseInt("-" + DecimalString(n) + rest) == Some(-(n as int))
  {
    var u := DecimalString(n) + rest;
    var s := "-" + DecimalString(n) + rest;
    assert s == ['-'] + u && s[0] == '-';
    assert SkipWhiteSpace(s) == s;
    assert s[1..] == u;
    ReadNumeralOf(n, rest);
  }

  /** Any string that starts with a digit parses to a number, never to NaN. */
  lemma LeadingDigitIsNumber(s: string)
    requires s != [] && IsDigit(s[0])
    ensures ParseInt(s).Some?
  {
  }

  /** A string without any decimal digit is NaN. */
  lemma {:induction false} NoDigitIsNaN(s: string)
    requires forall i :: 0 <= i < |s| ==> !IsDigit(s[i])
    ensures ParseInt(s) == None
  {
    var t := SkipWhiteSpace(s);
    var u := if t != [] && (t[0] == '-' || t[0] == '+') then t[1..] else t;
    assert u == [] || u[0] == s[|s| - |u|];
  }
}
