/**
 * Decimal numerals, as `std::to_string` writes a back-reference's group number
 * into the regular expression and as the ECMAScript grammar reads it back
 * (section 15.10.1 of ECMA-262 5.1, `DecimalEscape`: the longest run of digits).
 */
module Decimal {

  predicate IsDigit(c: char) {
    '0' <= c <= '9'
  }

  function DigitChar(d: nat): (c: char)
    requires d < 10
    ensures IsDigit(c)
  {
    ('0' as int + d) as char
  }

  function DigitValue(c: char): (d: nat)
    requires IsDigit(c)
    ensures d < 10 && DigitChar(d) == c
  {
    c as int - '0' as int
  }

  /** `std::to_string` of a non-negative number: decimal digits without leading zeros. */
  function NatToString(n: nat): (r: string)
    ensures |r| >= 1
    ensures forall i :: 0 <= i < |r| ==> IsDigit(r[i])
    ensures |r| > 1 ==> r[0] != '0'
    ensures n < 10 <==> |r| == 1
  {
    if n < 10 then [DigitChar(n)] else NatToString(n / 10) + [DigitChar(n % 10)]
  }

  /** The number a run of digits denotes. */
  function DigitsValue(s: string): nat
    requires forall i :: 0 <= i < |s| ==> IsDigit(s[i])
  {
    if s == [] then 0 else DigitsValue(s[..|s| - 1]) * 10 + DigitValue(s[|s| - 1])
  }

  /** Length of the longest run of digits at the front of `s`. */
  function DigitPrefix(s: string): (k: nat)
    ensures k <= |s|
    ensures forall i :: 0 <= i < k ==> IsDigit(s[i])
    ensures k == |s| || !IsDigit(s[k])
  {
    if s == [] || !IsDigit(s[0]) then 0 else 1 + DigitPrefix(s[1..])
  }

  /** Reading back what `NatToString` wrote gives the number again. */
  lemma {:induction false} ValueOfNatToString(n: nat)
    ensures DigitsValue(NatToString(n)) == n
  {
    if n >= 10 {
      var r := NatToString(n);
      assert r[..|r| - 1] == NatToString(n / 10);
      ValueOfNatToString(n / 10);
    }
  }

  /** A numeral followed by a non-digit is read up to exactly its own end. */
  lemma {:induction false} DigitPrefixOfNumeral(n: nat, rest: string)
    requires rest == [] || !IsDigit(rest[0])
    ensures DigitPrefix(NatToString(n) + rest) == |NatToString(n)|
  {
    var r := NatToString(n);
    DigitPrefixOfDigits(r, rest);
  }

  lemma {:induction false} DigitPrefixOfDigits(r: string, rest: string)
    requires forall i :: 0 <= i < |r| ==> IsDigit(r[i])
    requires rest == [] || !IsDigit(rest[0])
    ensures DigitPrefix(r + rest) == |r|
  {
    if r != [] {
      assert (r + rest)[1..] == r[1..] + rest;
      DigitPrefixOfDigits(r[1..], rest);
    } else {
      assert r + rest == rest;
    }
  }
}
