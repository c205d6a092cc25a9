/** Decimal numbers: `to_string` on unsigned integers and `str::parse::<u32>`. */
module Decimal {
  import opened Text
  import opened Numerals

  const U32_MAX := 0xFFFF_FFFF

  /** `n.to_string()`. */
  function Digits(n: nat): string {
    if n < 10 then [Digit(n)] else Digits(n / 10) + [Digit(n % 10)]
  }

  /** `s.parse::<u32>().ok()`. */
  function ParseU32(s: string): Option<nat> {
    ParseUnsigned(10, s, U32_MAX)
  }

  /** Decimal printing is inverted by reading the digits back. */
  lemma {:induction false} DigitsValue(n: nat)
    ensures AllDigitsOf(10, Digits(n)) && Digits(n) != ""
    ensures Value(10, Digits(n)) == n
  {
    if n >= 10 {
      DigitsValue(n / 10);
      ValueOfAppend(10, Digits(n / 10), Digit(n % 10));
    }
  }

  /** Printing a number and parsing it back gives the number exactly when it fits in 32 bits. */
  lemma ParsePrinted(n: nat)
    ensures ParseU32(Digits(n)) == if n <= U32_MAX then Some(n) else None
  {
    DigitsValue(n);
    assert IsDigitOf(10, Digits(n)[0]);
  }

  lemma DigitsInjective(m: nat, n: nat)
    requires Digits(m) == Digits(n)
    ensures m == n
  {
    DigitsValue(m);
    DigitsValue(n);
  }
}
