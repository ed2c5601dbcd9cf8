/**
 * The integer reading of an option value, as C's atoi does it: an optional
 * sign, then the longest run of decimal digits; no digits read as 0.
 */
module Numbers {

  predicate IsDigit(c: char) {
    '0' <= c <= '9'
  }

  predicate AllDigits(s: string) {
    forall i :: 0 <= i < |s| ==> IsDigit(s[i])
  }

  /** The length of the run of digits at the start of s. */
  function DigitPrefixLen(s: string): (n: nat)
    ensures n <= |s|
    ensures AllDigits(s[..n])
    ensures n < |s| ==> !IsDigit(s[n])
  {
    if s == [] || !IsDigit(s[0]) then 0
    else
      var n := DigitPrefixLen(s[1..]);
      assert s[..n + 1] == [s[0]] + s[1..][..n];
      n + 1
  }

  /** The number a string of decimal digits denotes. */
  function DigitsValue(d: string): nat
    requires AllDigits(d)
  {
    if d == [] then 0 else 10 * DigitsValue(d[..|d| - 1]) + (d[|d| - 1] as int - '0' as int)
  }

  /** atoi: optional '+' or '-', then the leading digits; 0 when there are none. */
  function Atoi(s: string): int {
    if |s| > 0 && (s[0] == '-' || s[0] == '+') then
      var body := s[1..];
      var magnitude: int := DigitsValue(body[..DigitPrefixLen(body)]);
      if s[0] == '-' then -magnitude else magnitude
    else
      DigitsValue(s[..DigitPrefixLen(s)])
  }

  function DigitChar(d: nat): (c: char)
    requires d < 10
    ensures IsDigit(c) && c as int - '0' as int == d
  {
    ('0' as int + d) as char
  }

  /** The decimal writing of n, without sign or leading zeros. */
  function ToDecimal(n: nat): (s: string)
    ensures |s| > 0 && AllDigits(s)
  {
    if n < 10 then [DigitChar(n)] else ToDecimal(n / 10) + [DigitChar(n % 10)]
  }

  lemma {:induction false} DigitsValueOfDecimal(n: nat)
    ensures DigitsValue(ToDecimal(n)) == n
  {
    var s := ToDecimal(n);
    if n >= 10 {
      DigitsValueOfDecimal(n / 10);
      assert s[..|s| - 1] == ToDecimal(n / 10);
    } else {
      assert s[..|s| - 1] == [];
    }
  }

  /** The digits followed by anything that is not a digit read back as their value. */
  lemma DigitPrefixOf(d: string, rest: string)
    requires AllDigits(d)
    requires rest == [] || !IsDigit(rest[0])
    ensures DigitPrefixLen(d + rest) == |d|
    ensures (d + rest)[..|d|] == d
  {
    assert (d + rest)[..|d|] == d;
  }

  /** Without a sign, atoi reads the leading digits. */
  lemma AtoiUnsigned(s: string)
    requires s == [] || IsDigit(s[0])
    ensures Atoi(s) == DigitsValue(s[..DigitPrefixLen(s)])
  {
  }

  /**
   * atoi reads a leading number and stops at the first character that is not
   * a digit: the decimal writing of n gives back n.
   */
  lemma AtoiDecimal(n: nat, rest: string)
    requires rest == [] || !IsDigit(rest[0])
    ensures Atoi(ToDecimal(n) + rest) == n
  {
    var d := ToDecimal(n);
    DigitsValueOfDecimal(n);
    DigitPrefixOf(d, rest);
    assert (d + rest)[0] == d[0];
    AtoiUnsigned(d + rest);
  }

  /** A string of digits alone reads as the number it denotes. */
  lemma AtoiAllDigits(d: string)
    requires AllDigits(d)
    ensures Atoi(d) == DigitsValue(d)
  {
    DigitPrefixOf(d, "");
    assert d + "" == d;
  }

  /** The two values a negation produces read as 0 and 1. */
  lemma AtoiOfBit(s: string)
    requires s == "0" || s == "1"
    ensures Atoi(s) == if s == "1" then 1 else 0
  {
    AtoiAllDigits(s);
    assert s[..0] == [];
  }

  /** A value that does not start with a digit (after an optional sign) reads as 0. */
  lemma AtoiNoDigits(s: string)
    requires s == [] || !IsDigit(s[0])
    requires |s| > 0 && (s[0] == '-' || s[0] == '+') ==> |s| == 1 || !IsDigit(s[1])
    ensures Atoi(s) == 0
  {
  }
}
