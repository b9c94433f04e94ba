/** Whole numbers as runs of decimal digits, written and read. */
module Numerals {

  predicate IsDigits(s: string) {
    forall i :: 0 <= i < |s| ==> '0' <= s[i] <= '9'
  }

  function Digit(k: nat): char
    requires k < 10
  {
    '0' + k as char
  }

  /** A whole number's digits, none of them spare (big.Int's String). */
  function DigitsOf(n: nat): (s: string)
    ensures s != "" && IsDigits(s)
  {
    if n < 10 then [Digit(n)] else DigitsOf(n / 10) + [Digit(n % 10)]
  }

  /** A run of digits as a whole number (big.Int's SetString). */
  function ReadDigits(s: string): nat
    requires IsDigits(s)
  {
    if s == "" then 0 else ReadDigits(s[..|s| - 1]) * 10 + (s[|s| - 1] - '0') as nat
  }

  lemma {:induction false} ReadPush(s: string, k: nat)
    requires IsDigits(s) && k < 10
    ensures IsDigits(s + [Digit(k)]) && ReadDigits(s + [Digit(k)]) == ReadDigits(s) * 10 + k
  {
    var t := s + [Digit(k)];
    assert t[..|t| - 1] == s && t[|t| - 1] == Digit(k);
  }

  lemma {:induction false} ReadOf(n: nat)
    ensures ReadDigits(DigitsOf(n)) == n
  {
    if n < 10 {
      ReadPush("", n);
      assert "" + [Digit(n)] == [Digit(n)];
    } else {
      ReadOf(n / 10);
      ReadPush(DigitsOf(n / 10), n % 10);
    }
  }

  // ----- hexadecimal digits

  function HexUpper(k: int): char
    requires 0 <= k < 16
  {
    if k < 10 then '0' + k as char else 'A' + (k - 10) as char
  }

  /** A hexadecimal digit's value, -1 for none. */
  function HexValue(c: char): (v: int)
    ensures -1 <= v < 16
  {
    if '0' <= c <= '9' then c as int - '0' as int
    else if 'A' <= c <= 'F' then c as int - 'A' as int + 10
    else if 'a' <= c <= 'f' then c as int - 'a' as int + 10
    else -1
  }
}
