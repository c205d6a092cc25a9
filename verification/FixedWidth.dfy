/** Numbers printed with leading zeros to a fixed width: permission bits (four octal digits), the
    decimal fields of a timestamp, and the index in the name of a boot variable (four hexadecimal
    digits); and their order as text. */
module FixedWidth {
  import opened Text
  import opened Sorting
  import opened Numerals

  function Fixed(b: Base, n: nat, w: nat): (r: string)
    ensures |r| == w
  {
    if w == 0 then "" else Fixed(b, Head(b, n), w - 1) + [Digit(Last(b, n))]
  }

  lemma {:induction false} ValueInvertsFixed(b: Base, n: nat, w: nat)
    requires n < Power(b, w)
    ensures AllDigitsOf(b, Fixed(b, n, w)) && Value(b, Fixed(b, n, w)) == n
  {
    if w > 0 {
      ValueInvertsFixed(b, Head(b, n), w - 1);
      ValueOfAppend(b, Fixed(b, Head(b, n), w - 1), Digit(Last(b, n)));
    }
  }

  /** Digits as they are printed; in base 16 this leaves out the lower-case ones. */
  predicate Canonical(b: Base, s: string) {
    AllDigitsOf(b, s) && forall k | 0 <= k < |s| :: s[k] == Digit(DigitValue(s[k]))
  }

  lemma {:induction false} FixedIsCanonical(b: Base, n: nat, w: nat)
    requires n < Power(b, w)
    ensures Canonical(b, Fixed(b, n, w))
  {
    if w > 0 { FixedIsCanonical(b, Head(b, n), w - 1); }
  }

  lemma HeadLast(b: Base, q: nat, d: nat)
    requires d < b
    ensures Head(b, Times(b, q) + d) == q && Last(b, Times(b, q) + d) == d
  {
  }

  lemma {:induction false} FixedInvertsValue(b: Base, s: string)
    requires Canonical(b, s)
    ensures Value(b, s) < Power(b, |s|) && Fixed(b, Value(b, s), |s|) == s
  {
    ValueBound(b, s);
    if s != "" {
      var init, c := s[..|s| - 1], s[|s| - 1];
      FixedInvertsValue(b, init);
      HeadLast(b, Value(b, init), DigitValue(c));
      assert s == init + [c];
    }
  }

  predicate CharLess(a: char, b: char) {
    a < b
  }

  predicate StringLess(a: string, b: string) {
    Lex(CharLess, a, b)
  }

  /** Texts of the same length compare by their heads first. */
  lemma {:induction false} StringLessAppend(a: string, b: string, x: string, y: string)
    requires |a| == |b|
    ensures StringLess(a + x, b + y) <==> StringLess(a, b) || (a == b && StringLess(x, y))
    decreases |a|
  {
    if a == "" {
      assert a + x == x && b + y == y;
    } else {
      StringLessAppend(a[1..], b[1..], x, y);
      assert (a + x)[1..] == a[1..] + x && (b + y)[1..] == b[1..] + y;
      assert a == [a[0]] + a[1..] && b == [b[0]] + b[1..];
    }
  }

  lemma StringLessOne(x: char, y: char)
    ensures StringLess([x], [y]) <==> x < y
  {
    assert [x][1..] == [] && [y][1..] == [];
    assert !Lex(CharLess, [], []);
  }

  lemma HeadsFirst(b: Base, m: nat, n: nat)
    ensures m < n <==> Head(b, m) < Head(b, n) || (Head(b, m) == Head(b, n) && Last(b, m) < Last(b, n))
  {
  }

  lemma DigitOrder(x: nat, y: nat)
    requires x < 16 && y < 16
    ensures Digit(x) < Digit(y) <==> x < y
  {
  }

  /** One more digit decides only between equal heads. */
  lemma LastDigitOrder(a: string, b: string, p: nat, q: nat, x: nat, y: nat)
    requires |a| == |b| && x < 16 && y < 16
    requires (StringLess(a, b) <==> p < q) && (a == b <==> p == q)
    ensures StringLess(a + [Digit(x)], b + [Digit(y)]) <==> p < q || (p == q && x < y)
  {
    StringLessAppend(a, b, [Digit(x)], [Digit(y)]);
    StringLessOne(Digit(x), Digit(y));
    DigitOrder(x, y);
  }

  lemma FixedInjective(b: Base, m: nat, n: nat, w: nat)
    requires m < Power(b, w) && n < Power(b, w) && Fixed(b, m, w) == Fixed(b, n, w)
    ensures m == n
  {
    ValueInvertsFixed(b, m, w);
    ValueInvertsFixed(b, n, w);
  }

  /** Comparing fixed-width numbers as text compares the numbers. */
  lemma {:induction false} FixedOrder(b: Base, m: nat, n: nat, w: nat)
    requires m < Power(b, w) && n < Power(b, w)
    ensures StringLess(Fixed(b, m, w), Fixed(b, n, w)) <==> m < n
  {
    if w > 0 {
      var (p, q) := (Head(b, m), Head(b, n));
      FixedOrder(b, p, q, w - 1);
      if Fixed(b, p, w - 1) == Fixed(b, q, w - 1) { FixedInjective(b, p, q, w - 1); }
      LastDigitOrder(Fixed(b, p, w - 1), Fixed(b, q, w - 1), p, q, Last(b, m), Last(b, n));
      HeadsFirst(b, m, n);
    }
  }

  // ---------------------------------------------------------------------------
  // Permission bits
  // ---------------------------------------------------------------------------

  /** `mode & 0o7777`. */
  type Mode = m: nat | m < 4096

  /** `{:04o}`. */
  function ModeOctal(m: Mode): string {
    Fixed(8, m, 4)
  }

  function ParseMode(s: string): (r: Option<nat>) {
    if |s| == 4 && AllDigitsOf(8, s) then Some(Value(8, s)) else None
  }

  /** The accepted mode strings are exactly the printed modes, and each parses to its mode. */
  lemma ModeRoundTrip(m: Mode, s: string)
    ensures ParseMode(ModeOctal(m)) == Some(m)
    ensures ParseMode(s).Some? ==> ParseMode(s).value < 4096 && ModeOctal(ParseMode(s).value) == s
  {
    assert Power(8, 4) == 4096 by {
      assert Power(8, 1) == 8 && Power(8, 2) == 64 && Power(8, 3) == 512;
    }
    ValueInvertsFixed(8, m, 4);
    if ParseMode(s).Some? {
      assert Canonical(8, s);
      FixedInvertsValue(8, s);
    }
  }
}
