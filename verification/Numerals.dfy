/** Positional numerals to the bases eight, ten and sixteen: digits, the value they have, and the
    unsigned parsers of Rust, which accept a plus sign and refuse what does not fit in the width
    of the result. */
module Numerals {
  import opened Text

  type Base = b: nat | b == 8 || b == 10 || b == 16 witness 10

  // Products and quotients by a base, written so that each is linear arithmetic.

  function Times(b: Base, n: nat): nat {
    if b == 8 then n * 8 else if b == 10 then n * 10 else n * 16
  }

  function Head(b: Base, n: nat): nat {
    if b == 8 then n / 8 else if b == 10 then n / 10 else n / 16
  }

  function Last(b: Base, n: nat): (d: nat)
    ensures d < b
  {
    if b == 8 then n % 8 else if b == 10 then n % 10 else n % 16
  }

  /** The printed form of a digit, upper-case beyond nine. */
  function Digit(d: nat): char
    requires d < 16
  {
    if d < 10 then '0' + d as char else 'A' + (d - 10) as char
  }

  /** The value of a digit in either case; 16 for any other character. */
  function DigitValue(c: char): nat {
    if '0' <= c <= '9' then c as nat - '0' as nat
    else if 'A' <= c <= 'F' then c as nat - 'A' as nat + 10
    else if 'a' <= c <= 'f' then c as nat - 'a' as nat + 10
    else 16
  }

  predicate IsDigitOf(b: Base, c: char) {
    DigitValue(c) < b
  }

  predicate AllDigitsOf(b: Base, s: string) {
    forall k | 0 <= k < |s| :: IsDigitOf(b, s[k])
  }

  function Value(b: Base, s: string): nat
    requires AllDigitsOf(b, s)
  {
    if s == "" then 0 else Times(b, Value(b, s[..|s| - 1])) + DigitValue(s[|s| - 1])
  }

  /** The text after one optional `+`. */
  function Unsigned(s: string): string {
    if s != "" && s[0] == '+' then s[1..] else s
  }

  /** `from_str_radix` on an unsigned type with the given maximum: an optional `+`, then digits
      whose value fits. */
  function ParseUnsigned(b: Base, s: string, max: nat): (r: Option<nat>)
    ensures r.Some? ==> r.value <= max
  {
    var digits := Unsigned(s);
    if digits == "" || !AllDigitsOf(b, digits) || Value(b, digits) > max then None else Some(Value(b, digits))
  }

  function Power(b: Base, w: nat): nat {
    if w == 0 then 1 else Times(b, Power(b, w - 1))
  }

  lemma ValueOfAppend(b: Base, init: string, c: char)
    requires AllDigitsOf(b, init) && IsDigitOf(b, c)
    ensures AllDigitsOf(b, init + [c]) && Value(b, init + [c]) == Times(b, Value(b, init)) + DigitValue(c)
  {
    assert (init + [c])[..|init|] == init;
  }

  lemma PowerBound(b: Base, v: nat, d: nat, w: nat)
    requires v < Power(b, w) && d < b
    ensures Times(b, v) + d < Power(b, w + 1)
  {
  }

  /** A text of `w` digits is worth less than the `w`-th power of the base. */
  lemma {:induction false} ValueBound(b: Base, s: string)
    requires AllDigitsOf(b, s)
    ensures Value(b, s) < Power(b, |s|)
  {
    if s != "" {
      ValueBound(b, s[..|s| - 1]);
      PowerBound(b, Value(b, s[..|s| - 1]), DigitValue(s[|s| - 1]), |s| - 1);
    }
  }

  /** The digits in both cases, and nothing else. */
  lemma DigitsExactly(c: char, d: nat)
    requires d < 16
    ensures DigitValue(c) == d <==> c == "0123456789ABCDEF"[d] || c == "0123456789abcdef"[d]
    ensures Digit(d) == "0123456789ABCDEF"[d]
  {
  }
}
