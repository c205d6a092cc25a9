/** RFC 3339 timestamps in UTC with whole seconds (section 5.1 of RFC 3339): their text order is
    their time order. */
module Instants {
  import opened Sorting
  import opened Numerals
  import opened FixedWidth

  /** A calendar time with a four-digit year. */
  datatype Instant = Instant(year: nat, month: nat, day: nat, hour: nat, minute: nat, second: nat)

  /** A number printed to `width` digits, followed by `mark`. */
  datatype Field = Field(value: nat, width: nat, mark: char)

  function Fields(t: Instant): seq<Field> {
    [Field(t.year, 4, '-'), Field(t.month, 2, '-'), Field(t.day, 2, 'T'),
     Field(t.hour, 2, ':'), Field(t.minute, 2, ':'), Field(t.second, 2, 'Z')]
  }

  function PrintFields(fields: seq<Field>): string {
    if fields == [] then ""
    else Fixed(10, fields[0].value, fields[0].width) + ([fields[0].mark] + PrintFields(fields[1..]))
  }

  /** `to_rfc3339_opts(SecondsFormat::Secs, true)`. */
  function Rfc3339(t: Instant): string {
    PrintFields(Fields(t))
  }

  predicate InRange(fields: seq<Field>) {
    forall k | 0 <= k < |fields| :: fields[k].value < Power(10, fields[k].width)
  }

  predicate SameShape(a: seq<Field>, b: seq<Field>) {
    |a| == |b| && forall k | 0 <= k < |a| :: a[k].width == b[k].width && a[k].mark == b[k].mark
  }

  predicate FieldLess(a: Field, b: Field) {
    a.value < b.value
  }

  lemma {:induction false} PrintOrder(a: seq<Field>, b: seq<Field>)
    requires SameShape(a, b) && InRange(a) && InRange(b)
    ensures StringLess(PrintFields(a), PrintFields(b)) <==> Lex(FieldLess, a, b)
    decreases |a|
  {
    if a != [] {
      var (x, y, w) := (a[0].value, b[0].value, a[0].width);
      var (ra, rb) := (PrintFields(a[1..]), PrintFields(b[1..]));
      FixedOrder(10, x, y, w);
      if Fixed(10, x, w) == Fixed(10, y, w) { FixedInjective(10, x, y, w); }
      StringLessAppend(Fixed(10, x, w), Fixed(10, y, w), [a[0].mark] + ra, [a[0].mark] + rb);
      assert ([a[0].mark] + ra)[1..] == ra && ([a[0].mark] + rb)[1..] == rb;
      PrintOrder(a[1..], b[1..]);
      assert x == y ==> a[0] == b[0];
    }
  }

  predicate Before(a: Instant, b: Instant) {
    if a.year != b.year then a.year < b.year
    else if a.month != b.month then a.month < b.month
    else if a.day != b.day then a.day < b.day
    else if a.hour != b.hour then a.hour < b.hour
    else if a.minute != b.minute then a.minute < b.minute
    else a.second < b.second
  }

  predicate Calendar(t: Instant) {
    t.year < 10000 && t.month < 100 && t.day < 100 && t.hour < 100 && t.minute < 100 && t.second < 100
  }

  lemma LexFields(a: seq<Field>, b: seq<Field>, k: nat)
    requires SameShape(a, b) && k < |a|
    ensures Lex(FieldLess, a[k..], b[k..]) <==>
      FieldLess(a[k], b[k]) || (a[k] == b[k] && k + 1 < |a| && Lex(FieldLess, a[k + 1..], b[k + 1..]))
  {
    assert a[k..][1..] == a[k + 1..] && b[k..][1..] == b[k + 1..];
    assert k + 1 == |a| ==> b[k + 1..] == [];
  }

  /** Sorting and comparing timestamps as text sorts and compares the times. */
  lemma TextOrderIsTimeOrder(a: Instant, b: Instant)
    requires Calendar(a) && Calendar(b)
    ensures StringLess(Rfc3339(a), Rfc3339(b)) <==> Before(a, b)
  {
    var (x, y) := (Fields(a), Fields(b));
    assert Power(10, 1) == 10 && Power(10, 2) == 100 && Power(10, 3) == 1000 && Power(10, 4) == 10000;
    PrintOrder(x, y);
    assert x[0..] == x && y[0..] == y;
    LexFields(x, y, 0);
    LexFields(x, y, 1);
    LexFields(x, y, 2);
    LexFields(x, y, 3);
    LexFields(x, y, 4);
    LexFields(x, y, 5);
  }

  /** The layout: year, month and day before `T`, hour, minute and second before `Z`. */
  lemma Rfc3339Layout(t: Instant)
    ensures Rfc3339(t) ==
      Fixed(10, t.year, 4) + "-" + Fixed(10, t.month, 2) + "-" + Fixed(10, t.day, 2) + "T"
      + Fixed(10, t.hour, 2) + ":" + Fixed(10, t.minute, 2) + ":" + Fixed(10, t.second, 2) + "Z"
  {
    var f := Fields(t);
    PrintFirst(f, 0);
    PrintFirst(f, 1);
    PrintFirst(f, 2);
    PrintFirst(f, 3);
    PrintFirst(f, 4);
    PrintFirst(f, 5);
    assert f[0..] == f && f[6..] == [] && PrintFields([]) == "";
    Flat(Fixed(10, t.year, 4), Fixed(10, t.month, 2), Fixed(10, t.day, 2), Fixed(10, t.hour, 2),
      Fixed(10, t.minute, 2), Fixed(10, t.second, 2));
  }

  lemma Flat(a: string, b: string, c: string, d: string, e: string, f: string)
    ensures a + (['-'] + (b + (['-'] + (c + (['T'] + (d + ([':'] + (e + ([':'] + (f + (['Z'] + "")))))))))))
      == a + "-" + b + "-" + c + "T" + d + ":" + e + ":" + f + "Z"
  {
  }

  lemma PrintFirst(fields: seq<Field>, k: nat)
    requires k < |fields|
    ensures PrintFields(fields[k..])
      == Fixed(10, fields[k].value, fields[k].width) + ([fields[k].mark] + PrintFields(fields[k + 1..]))
  {
    assert fields[k..][1..] == fields[k + 1..];
  }
}
