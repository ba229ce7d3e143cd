/** Decimal text of unsigned 64-bit numbers, as the program prints and parses it. */
module Decimal {
  import opened Base

  const U64_MAX := 0xFFFF_FFFF_FFFF_FFFF

  predicate IsDigit(c: char) {
    '0' <= c <= '9'
  }

  predicate AllDigits(s: string) {
    forall k :: 0 <= k < |s| ==> IsDigit(s[k])
  }

  function DigitValue(c: char): nat
    requires IsDigit(c)
  {
    c as int - '0' as int
  }

  function DigitChar(d: nat): char
    requires d < 10
  {
    ('0' as int + d) as char
  }

  function NatOfDigits(s: string): nat
    requires AllDigits(s)
  {
    if s == [] then 0 else 10 * NatOfDigits(Front(s)) + DigitValue(Last(s))
  }

  /** An optional plus sign, at least one digit, and no overflow. */
  function ParseU64(s: string): Option<nat> {
    var digits := if s != [] && s[0] == '+' then s[1..] else s;
    if digits == [] || !AllDigits(digits) || NatOfDigits(digits) > U64_MAX then None
    else Some(NatOfDigits(digits))
  }

  function ToDecimal(n: nat): string {
    if n < 10 then [DigitChar(n)] else ToDecimal(n / 10) + [DigitChar(n % 10)]
  }

  lemma {:induction false} PrintedDigits(n: nat)
    ensures ToDecimal(n) != [] && AllDigits(ToDecimal(n)) && NatOfDigits(ToDecimal(n)) == n
  {
    if n >= 10 {
      PrintedDigits(n / 10);
      assert Front(ToDecimal(n)) == ToDecimal(n / 10);
    } else {
      assert Front(ToDecimal(n)) == [];
    }
  }

  /** What is printed parses back to the same number. */
  lemma ParsePrinted(n: nat)
    requires n <= U64_MAX
    ensures ParseU64(ToDecimal(n)) == Some(n)
  {
    PrintedDigits(n);
  }
}
