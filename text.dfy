/**
 * The pieces of Ruby's String and Integer behaviour the core relies on:
 * decimal formatting (Integer#to_s), String#to_i, hexadecimal digits,
 * and the character classes of Ruby regular expressions.
 */
module RubyText {

  predicate IsDigit(c: char) { '0' <= c <= '9' }

  /** Ruby's \s and the ISSPACE of String#to_i: space, \t, \n, \v, \f, \r. */
  predicate IsSpace(c: char) {
    c == ' ' || c == '\t' || c == '\n' || c == '\U{000B}' || c == '\U{000C}' || c == '\r'
  }

  predicate AllDigits(s: string) { forall i :: 0 <= i < |s| ==> IsDigit(s[i]) }

  function DigitValue(c: char): nat
    requires IsDigit(c)
  {
    (c as int - '0' as int) as nat
  }

  function DigitChar(d: nat): char
    requires d < 10
  {
    (d + '0' as int) as char
  }

  /** The value of a string of decimal digits, most significant first. */
  function DigitsValue(s: string): nat
    requires AllDigits(s)
  {
    if s == [] then 0 else 10 * DigitsValue(s[..|s| - 1]) + DigitValue(s[|s| - 1])
  }

  /** Integer#to_s for a non-negative integer. */
  function NatDecimal(n: nat): (s: string)
    ensures |s| > 0 && AllDigits(s)
  {
    if n < 10 then [DigitChar(n)] else NatDecimal(n / 10) + [DigitChar(n % 10)]
  }

  /** Integer#to_s. */
  function Decimal(i: int): string {
    if i < 0 then "-" + NatDecimal(-i) else NatDecimal(i)
  }

  /** Reading back what Integer#to_s wrote gives the number again. */
  lemma {:induction false} DecimalRoundTrip(n: nat)
    ensures DigitsValue(NatDecimal(n)) == n
  {
    if n >= 10 {
      DecimalRoundTrip(n / 10);
      var s := NatDecimal(n);
      assert s[..|s| - 1] == NatDecimal(n / 10);
    }
  }

  /** The longest prefix of s that is a Ruby numeral: digits, with single underscores between digits. */
  function NumeralPrefix(s: string): (r: string)
    ensures |r| <= |s| && r == s[..|r|]
    ensures r != [] ==> IsDigit(r[0]) && IsDigit(r[|r| - 1])
  {
    if s == [] || !IsDigit(s[0]) then []
    else if |s| >= 3 && s[1] == '_' && IsDigit(s[2]) then [s[0], s[1]] + NumeralPrefix(s[2..])
    else [s[0]] + NumeralPrefix(s[1..])
  }

  /** The digits of a numeral, underscores dropped. */
  function NumeralDigits(r: string): (d: string)
    ensures AllDigits(d)
  {
    if r == [] then [] else (if IsDigit(r[0]) then [r[0]] else []) + NumeralDigits(r[1..])
  }

  function SkipSpaces(s: string): (r: string)
    ensures |r| <= |s|
  {
    if s != [] && IsSpace(s[0]) then SkipSpaces(s[1..]) else s
  }

  /**
   * String#to_i (base 10): leading whitespace, an optional sign, an optional
   * "0d" radix prefix, then the longest numeral; anything else reads as 0.
   */
  function ToI(s: string): int {
    var t := SkipSpaces(s);
    var negative := t != [] && t[0] == '-';
    var u := if t != [] && (t[0] == '-' || t[0] == '+') then t[1..] else t;
    var w := if |u| >= 2 && u[0] == '0' && (u[1] == 'd' || u[1] == 'D') then u[2..] else u;
    var n: int := DigitsValue(NumeralDigits(NumeralPrefix(w)));
    if negative then -n else n
  }

  predicate IsLowerHex(c: char) { IsDigit(c) || 'a' <= c <= 'f' }

  predicate AllLowerHex(s: string) { forall i :: 0 <= i < |s| ==> IsLowerHex(s[i]) }

  function HexDigitValue(c: char): (d: nat)
    requires IsLowerHex(c)
    ensures d < 16
  {
    if IsDigit(c) then DigitValue(c) else (c as int - 'a' as int + 10) as nat
  }

  function Pow(b: nat, e: nat): nat {
    if e == 0 then 1 else b * Pow(b, e - 1)
  }

  /** String#to_i(16) of a string of lower-case hexadecimal digits. */
  function HexValue(s: string): nat
    requires AllLowerHex(s)
  {
    if s == [] then 0 else 16 * HexValue(s[..|s| - 1]) + HexDigitValue(s[|s| - 1])
  }

  /** k hexadecimal digits denote a number below 16^k. */
  lemma {:induction false} HexValueBound(s: string)
    requires AllLowerHex(s)
    ensures HexValue(s) < Pow(16, |s|)
  {
    if s != [] {
      HexValueBound(s[..|s| - 1]);
    }
  }

  /** The lines of s: the pieces between newline characters, the last piece included. */
  function Lines(s: string): (ls: seq<string>)
    ensures |ls| > 0
    decreases |s|
  {
    if '\n' !in s then [s]
    else
      var i := FirstNewline(s);
      [s[..i]] + Lines(s[i + 1..])
  }

  function FirstNewline(s: string): (i: nat)
    requires '\n' in s
    ensures i < |s| && s[i] == '\n' && '\n' !in s[..i]
  {
    if s[0] == '\n' then 0 else 1 + FirstNewline(s[1..])
  }

  /** String#include? on strings: t occurs somewhere in s. */
  predicate IsSubstring(t: string, s: string) {
    t <= s || (s != [] && IsSubstring(t, s[1..]))
  }
}
