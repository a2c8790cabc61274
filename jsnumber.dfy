/**
 * The two number/string conversions the application relies on:
 * `parseInt(s, 10)` (ECMAScript section 19.2.5) and `Number.prototype.toString()`
 * on an integer, plus the range of the Postgres `integer` type behind the
 * `serial` primary key.
 */
module JsNumber {
  import opened Wrappers

  /** The range of a Postgres `integer` (`int4`), the type of a `serial` column. */
  const Int4Min: int := -2147483648
  const Int4Max: int := 2147483647

  predicate FitsInt4(n: int) {
    Int4Min <= n <= Int4Max
  }

  /** ECMAScript WhiteSpace and LineTerminator code points, which `parseInt` skips at the front. */
  predicate IsJsSpace(c: char) {
    c == '\t' || c == '\n' || c == '\U{000B}' || c == '\U{000C}' || c == '\r' || c == ' '
    || c == '\U{00A0}' || c == '\U{1680}' || ('\U{2000}' <= c <= '\U{200A}')
    || c == '\U{2028}' || c == '\U{2029}' || c == '\U{202F}' || c == '\U{205F}'
    || c == '\U{3000}' || c == '\U{FEFF}'
  }

  predicate IsDigit(c: char) {
    '0' <= c <= '9'
  }

  predicate AllDigits(s: string) {
    forall i :: 0 <= i < |s| ==> IsDigit(s[i])
  }

  function DigitValue(c: char): nat
    requires IsDigit(c)
  {
    c as int - '0' as int
  }

  function DigitChar(d: nat): (c: char)
    requires d < 10
    ensures IsDigit(c) && DigitValue(c) == d
  {
    ('0' as int + d) as char
  }

  /** The decimal value of a string of digits; leading zeros add nothing. */
  function DigitsValue(s: string): nat
    requires AllDigits(s)
    decreases |s|
  {
    if |s| == 0 then 0 else DigitsValue(s[..|s| - 1]) * 10 + DigitValue(s[|s| - 1])
  }

  /** `s` without its leading JavaScript white space. */
  function TrimStart(s: string): (t: string)
    ensures |t| <= |s| && t == s[|s| - |t|..]
    ensures |t| > 0 ==> !IsJsSpace(t[0])
    decreases |s|
  {
    if |s| > 0 && IsJsSpace(s[0]) then TrimStart(s[1..]) else s
  }

  /** The number of digits at the front of `s`. */
  function LeadingDigits(s: string): (k: nat)
    ensures k <= |s| && AllDigits(s[..k])
    ensures k < |s| ==> !IsDigit(s[k])
    decreases |s|
  {
    if |s| > 0 && IsDigit(s[0]) then
      var k := 1 + LeadingDigits(s[1..]);
      assert s[..k] == [s[0]] + s[1..][..k - 1];
      k
    else 0
  }

  /**
   * `parseInt(s, 10)`: None stands for NaN. White space is skipped, one sign is
   * read, and then the longest run of decimal digits is converted; whatever
   * follows that run is ignored. The value is exact (the double rounding of
   * values beyond 2^53 never matters below, where every such value is already
   * out of the `integer` range).
   */
  function ParseInt(s: string): Option<int> {
    ParseSigned(TrimStart(s))
  }

  /** `parseInt` after the leading white space: an optional sign, then digits. */
  function ParseSigned(t: string): Option<int> {
    var negative := |t| > 0 && t[0] == '-';
    var u := if |t| > 0 && (t[0] == '+' || t[0] == '-') then t[1..] else t;
    ParseDigits(u, negative)
  }

  function ParseDigits(u: string, negative: bool): Option<int> {
    var k := LeadingDigits(u);
    var v: int := DigitsValue(u[..k]);
    if k == 0 then None else Some(if negative then -v else v)
  }

  /** The decimal digits of `n`, without leading zeros. */
  function NatToString(n: nat): (s: string)
    ensures |s| > 0 && AllDigits(s)
    ensures s[0] == '0' ==> n == 0
    decreases n
  {
    if n < 10 then [DigitChar(n)] else NatToString(n / 10) + [DigitChar(n % 10)]
  }

  /** `n.toString()` for an integer-valued Number. */
  function IntToString(n: int): string {
    if n < 0 then "-" + NatToString(-n) else NatToString(n)
  }

  lemma {:induction false} DigitsValueOfNatToString(n: nat)
    ensures DigitsValue(NatToString(n)) == n
    decreases n
  {
    var s := NatToString(n);
    if n >= 10 {
      DigitsValueOfNatToString(n / 10);
      assert s[..|s| - 1] == NatToString(n / 10);
    }
  }

  lemma {:induction false} NatToStringInjective(m: nat, n: nat)
    requires NatToString(m) == NatToString(n)
    ensures m == n
  {
    DigitsValueOfNatToString(m);
    DigitsValueOfNatToString(n);
  }

  /** Converting an integer to a string and parsing the string back gives the integer. */
  lemma ParseIntOfIntToString(n: int)
    ensures ParseInt(IntToString(n)) == Some(n)
  {
    ParseIntOfIntToStringThen(n, "");
    assert IntToString(n) + "" == IntToString(n);
  }

  /** `parseInt` ignores whatever follows the digits: "12ab" reads as 12. */
  lemma {:induction false} ParseIntOfIntToStringThen(n: int, rest: string)
    requires |rest| > 0 ==> !IsDigit(rest[0])
    ensures ParseInt(IntToString(n) + rest) == Some(n)
  {
    var m: nat := if n < 0 then -n else n;
    var d := NatToString(m);
    DigitsValueOfNatToString(m);
    if n < 0 {
      assert IntToString(n) + rest == "-" + (d + rest);
      ParseIntOfSignDigitsThen('-', d, rest);
    } else {
      assert IntToString(n) + rest == d + rest;
      ParseIntOfDigitsThen(d, rest);
    }
  }

  lemma {:induction false} ParseIntOfDigitsThen(d: string, rest: string)
    requires |d| > 0 && AllDigits(d)
    requires |rest| > 0 ==> !IsDigit(rest[0])
    ensures ParseInt(d + rest) == Some(DigitsValue(d) as int)
  {
    var s := d + rest;
    assert s[0] == d[0];
    assert TrimStart(s) == s;
    assert ParseSigned(s) == ParseDigits(s, false);
    ParseDigitsOfDigitsThen(d, rest, false);
  }

  lemma {:induction false} ParseIntOfSignDigitsThen(sign: char, d: string, rest: string)
    requires sign == '-' || sign == '+'
    requires |d| > 0 && AllDigits(d)
    requires |rest| > 0 ==> !IsDigit(rest[0])
    ensures ParseInt([sign] + (d + rest)) == Some(if sign == '-' then -(DigitsValue(d) as int) else DigitsValue(d) as int)
  {
    var s := [sign] + (d + rest);
    assert s[0] == sign && !IsJsSpace(sign);
    assert TrimStart(s) == s;
    assert s[1..] == d + rest;
    assert ParseSigned(s) == ParseDigits(d + rest, sign == '-');
    ParseDigitsOfDigitsThen(d, rest, sign == '-');
  }

  lemma {:induction false} ParseDigitsOfDigitsThen(d: string, rest: string, negative: bool)
    requires |d| > 0 && AllDigits(d)
    requires |rest| > 0 ==> !IsDigit(rest[0])
    ensures ParseDigits(d + rest, negative) == Some(if negative then -(DigitsValue(d) as int) else DigitsValue(d) as int)
  {
    LeadingDigitsOfDigitsThen(d, rest);
    assert (d + rest)[..|d|] == d;
  }

  lemma {:induction false} LeadingDigitsOfDigitsThen(d: string, rest: string)
    requires AllDigits(d)
    requires |rest| > 0 ==> !IsDigit(rest[0])
    ensures LeadingDigits(d + rest) == |d|
    decreases |d|
  {
    if |d| > 0 {
      LeadingDigitsOfDigitsThen(d[1..], rest);
      assert (d + rest)[1..] == d[1..] + rest;
    }
  }

  /** Leading zeros do not change the value: "0012" reads as 12. */
  lemma {:induction false} DigitsValueLeadingZeros(z: string, d: string)
    requires forall i :: 0 <= i < |z| ==> z[i] == '0'
    requires AllDigits(d)
    ensures AllDigits(z + d) && DigitsValue(z + d) == DigitsValue(d)
    decreases |d|
  {
    if |d| == 0 {
      assert z + d == z;
      ZerosValue(z);
    } else {
      DigitsValueLeadingZeros(z, d[..|d| - 1]);
      assert (z + d)[..|z + d| - 1] == z + d[..|d| - 1];
    }
  }

  lemma {:induction false} ZerosValue(z: string)
    requires forall i :: 0 <= i < |z| ==> z[i] == '0'
    ensures AllDigits(z) && DigitsValue(z) == 0
    decreases |z|
  {
    if |z| > 0 {
      ZerosValue(z[..|z| - 1]);
    }
  }

  /**
   * NaN exactly when, once the leading white space and at most one sign are
   * skipped, nothing is left or the next character is not a digit.
   */
  lemma ParseIntNaN(s: string)
    ensures ParseInt(s).None? <==>
      (var t := TrimStart(s);
       var u := if |t| > 0 && (t[0] == '+' || t[0] == '-') then t[1..] else t;
       |u| == 0 || !IsDigit(u[0]))
  {
  }

  lemma TwelveToString()
    ensures NatToString(12) == "12" && IntToString(12) == "12"
  {
    assert DigitChar(1) == '1' && DigitChar(2) == '2';
  }

  /** `parseInt("12ab", 10)` and `parseInt("12", 10)` are both 12. */
  lemma ParseIntTrailingExample()
    ensures ParseInt("12") == Some(12)
    ensures ParseInt("12ab") == Some(12)
  {
    TwelveToString();
    ParseIntOfIntToString(12);
    ParseIntOfIntToStringThen(12, "ab");
    assert "12" + "ab" == "12ab";
  }

  /** `parseInt("0012", 10)` is 12. */
  lemma ParseIntLeadingZerosExample()
    ensures ParseInt("0012") == Some(12)
  {
    var z, d := "00", "12";
    TwelveToString();
    DigitsValueOfNatToString(12);
    assert DigitsValue(d) == 12;
    DigitsValueLeadingZeros(z, d);
    var u := z + d;
    assert DigitsValue(u) == 12;
    ParseIntOfDigitsThen(u, "");
    assert u + "" == u;
    assert u == "0012";
  }

  /** `parseInt("abc", 10)` is NaN. */
  lemma ParseIntNaNExample()
    ensures ParseInt("abc") == None
  {
    ParseIntNaN("abc");
  }
}
