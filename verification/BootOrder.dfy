/** Little-endian codecs for UEFI variables: the attribute word and its seven defined bits, the
    boot order as 16-bit indices, and moves within a boot order. */
module BootOrder {

  type Byte = n: nat | n < 0x100
  type U16 = n: nat | n < 0x1_0000
  type U32 = n: nat | n < 0x1_0000_0000

  datatype Error = MalformedValue | KeyNotFound | EspScanFailed

  datatype Result<+T> = Ok(value: T) | Err(error: Error)

  function Le16(n: U16): seq<Byte> {
    [n % 0x100, n / 0x100]
  }

  function FromLe16(lo: Byte, hi: Byte): U16 {
    lo + 0x100 * hi
  }

  function Le32(n: U32): seq<Byte> {
    [n % 0x100, n / 0x100 % 0x100, n / 0x1_0000 % 0x100, n / 0x100_0000]
  }

  function FromLe32(b0: Byte, b1: Byte, b2: Byte, b3: Byte): U32 {
    b0 + 0x100 * b1 + 0x1_0000 * b2 + 0x100_0000 * b3
  }

  lemma Le32RoundTrip(n: U32)
    ensures FromLe32(Le32(n)[0], Le32(n)[1], Le32(n)[2], Le32(n)[3]) == n
  {
    assert n / 0x100 == n / 0x1_0000 * 0x100 + n / 0x100 % 0x100;
    assert n / 0x1_0000 == n / 0x100_0000 * 0x100 + n / 0x1_0000 % 0x100;
  }

  // ---------------------------------------------------------------------------
  // Attributes
  // ---------------------------------------------------------------------------

  /** Whether bit `weight` (a power of two) is set in `raw`. */
  predicate HasBit(raw: U32, weight: nat)
    requires weight > 0
  {
    raw / weight % 2 == 1
  }

  datatype EfiAttributes = EfiAttributes(
    nonVolatile: bool, bootserviceAccess: bool, runtimeAccess: bool, hardwareErrorRecord: bool,
    authenticatedWriteAccess: bool, timeBasedAuthenticatedWriteAccess: bool, appendWrite: bool)

  function AttributesFrom(raw: U32): EfiAttributes {
    EfiAttributes(HasBit(raw, 0x01), HasBit(raw, 0x02), HasBit(raw, 0x04), HasBit(raw, 0x08), HasBit(raw, 0x10),
      HasBit(raw, 0x20), HasBit(raw, 0x40))
  }

  function Weight(b: bool, weight: nat): nat {
    if b then weight else 0
  }

  function AttributesToU32(a: EfiAttributes): U32 {
    Weight(a.nonVolatile, 0x01) + Weight(a.bootserviceAccess, 0x02) + Weight(a.runtimeAccess, 0x04) +
    Weight(a.hardwareErrorRecord, 0x08) + Weight(a.authenticatedWriteAccess, 0x10) +
    Weight(a.timeBasedAuthenticatedWriteAccess, 0x20) + Weight(a.appendWrite, 0x40)
  }

  lemma HalfStep(v: nat, b: bool, rest: nat)
    requires v == Weight(b, 1) + 2 * rest
    ensures v / 2 == rest && (v % 2 == 1 <==> b)
  {
  }

  lemma Halved(raw: nat)
    ensures raw / 2 / 2 == raw / 4 && raw / 4 / 2 == raw / 8 && raw / 8 / 2 == raw / 16
    ensures raw / 16 / 2 == raw / 32 && raw / 32 / 2 == raw / 64
  {
  }

  lemma EncodeAttributes(a: EfiAttributes)
    ensures AttributesFrom(AttributesToU32(a)) == a
  {
    var v := AttributesToU32(a);
    var h6 := Weight(a.appendWrite, 1);
    var h5 := Weight(a.timeBasedAuthenticatedWriteAccess, 1) + 2 * h6;
    var h4 := Weight(a.authenticatedWriteAccess, 1) + 2 * h5;
    var h3 := Weight(a.hardwareErrorRecord, 1) + 2 * h4;
    var h2 := Weight(a.runtimeAccess, 1) + 2 * h3;
    var h1 := Weight(a.bootserviceAccess, 1) + 2 * h2;
    assert v == Weight(a.nonVolatile, 1) + 2 * h1;
    AllHalves(v, h1, h2, h3, h4, h5, h6, a);
    BitsAre(v, h1, h2, h3, h4, h5, h6, a);
  }

  lemma AllHalves(v: nat, h1: nat, h2: nat, h3: nat, h4: nat, h5: nat, h6: nat, a: EfiAttributes)
    requires v == Weight(a.nonVolatile, 1) + 2 * h1 && h1 == Weight(a.bootserviceAccess, 1) + 2 * h2
    requires h2 == Weight(a.runtimeAccess, 1) + 2 * h3 && h3 == Weight(a.hardwareErrorRecord, 1) + 2 * h4
    requires h4 == Weight(a.authenticatedWriteAccess, 1) + 2 * h5
    requires h5 == Weight(a.timeBasedAuthenticatedWriteAccess, 1) + 2 * h6 && h6 == Weight(a.appendWrite, 1)
    ensures v / 2 == h1 && v / 4 == h2 && v / 8 == h3 && v / 16 == h4 && v / 32 == h5 && v / 64 == h6
    ensures (v % 2 == 1 <==> a.nonVolatile) && (h1 % 2 == 1 <==> a.bootserviceAccess)
    ensures (h2 % 2 == 1 <==> a.runtimeAccess) && (h3 % 2 == 1 <==> a.hardwareErrorRecord)
    ensures (h4 % 2 == 1 <==> a.authenticatedWriteAccess) && (h5 % 2 == 1 <==> a.timeBasedAuthenticatedWriteAccess)
    ensures h6 % 2 == 1 <==> a.appendWrite
  {
    HalfStep(v, a.nonVolatile, h1);
    HalfStep(h1, a.bootserviceAccess, h2);
    HalfStep(h2, a.runtimeAccess, h3);
    HalfStep(h3, a.hardwareErrorRecord, h4);
    HalfStep(h4, a.authenticatedWriteAccess, h5);
    HalfStep(h5, a.timeBasedAuthenticatedWriteAccess, h6);
    Halved(v);
  }

  lemma BitsAre(v: U32, h1: nat, h2: nat, h3: nat, h4: nat, h5: nat, h6: nat, a: EfiAttributes)
    requires v / 2 == h1 && v / 4 == h2 && v / 8 == h3 && v / 16 == h4 && v / 32 == h5 && v / 64 == h6
    requires (v % 2 == 1 <==> a.nonVolatile) && (h1 % 2 == 1 <==> a.bootserviceAccess)
    requires (h2 % 2 == 1 <==> a.runtimeAccess) && (h3 % 2 == 1 <==> a.hardwareErrorRecord)
    requires (h4 % 2 == 1 <==> a.authenticatedWriteAccess) && (h5 % 2 == 1 <==> a.timeBasedAuthenticatedWriteAccess)
    requires h6 % 2 == 1 <==> a.appendWrite
    ensures AttributesFrom(v) == a
  {
    assert v / 1 == v;
  }

  lemma DivisionUnique(a: nat, m: nat, q: nat, r: nat)
    requires m > 0 && r < m && a == q * m + r
    ensures a % m == r
  {
    var k := a / m;
    assert k * m + a % m == a;
    assert q < k ==> (q + 1) * m <= k * m;
    assert q > k ==> (k + 1) * m <= q * m;
  }

  lemma LowestBit(raw: nat, n: nat)
    requires n > 0
    ensures raw % (2 * n) == raw % 2 + 2 * (raw / 2 % n)
  {
    var q, r := raw / 2 / n, raw / 2 % n;
    assert raw == q * (2 * n) + (2 * r + raw % 2);
    DivisionUnique(raw, 2 * n, q, 2 * r + raw % 2);
  }

  lemma LowSeven(raw: nat)
    ensures raw % 0x80 == raw % 2 + 2 * (raw / 2 % 2) + 4 * (raw / 4 % 2) + 8 * (raw / 8 % 2) + 16 * (raw / 16 % 2) +
      32 * (raw / 32 % 2) + 64 * (raw / 64 % 2)
  {
    var m1, m2, m3, m4, m5 := raw / 2 % 0x40, raw / 4 % 0x20, raw / 8 % 0x10, raw / 16 % 0x08, raw / 32 % 0x04;
    assert raw % 0x80 == raw % 2 + 2 * m1 by { LowestBit(raw, 0x40); }
    assert m1 == raw / 2 % 2 + 2 * m2 by { LowestBit(raw / 2, 0x20); Halved(raw); }
    assert m2 == raw / 4 % 2 + 2 * m3 by { LowestBit(raw / 4, 0x10); Halved(raw); }
    assert m3 == raw / 8 % 2 + 2 * m4 by { LowestBit(raw / 8, 0x08); Halved(raw); }
    assert m4 == raw / 16 % 2 + 2 * m5 by { LowestBit(raw / 16, 0x04); Halved(raw); }
    assert m5 == raw / 32 % 2 + 2 * (raw / 64 % 2) by { LowestBit(raw / 32, 0x02); Halved(raw); }
  }

  lemma BitWeight(raw: U32, weight: nat)
    requires weight > 0
    ensures Weight(HasBit(raw, weight), weight) == weight * (raw / weight % 2)
  {
  }

  lemma DecodeAttributes(raw: U32)
    ensures AttributesToU32(AttributesFrom(raw)) == raw % 0x80
  {
    LowSeven(raw);
    BitWeight(raw, 0x01);
    BitWeight(raw, 0x02);
    BitWeight(raw, 0x04);
    BitWeight(raw, 0x08);
    BitWeight(raw, 0x10);
    BitWeight(raw, 0x20);
    BitWeight(raw, 0x40);
  }

  /** Attributes survive encoding, and decoding keeps exactly the seven defined bits. */
  lemma AttributesRoundTrip(a: EfiAttributes, raw: U32)
    ensures AttributesFrom(AttributesToU32(a)) == a
    ensures AttributesToU32(AttributesFrom(raw)) == raw % 0x80
  {
    EncodeAttributes(a);
    DecodeAttributes(raw);
  }

  // ---------------------------------------------------------------------------
  // The BootOrder payload
  // ---------------------------------------------------------------------------

  function Chunks(payload: seq<Byte>): seq<U16> {
    if |payload| < 2 then [] else [FromLe16(payload[0], payload[1])] + Chunks(payload[2..])
  }

  /** `parse_boot_order`. */
  function ParseBootOrder(payload: seq<Byte>): Result<seq<U16>> {
    if |payload| % 2 != 0 then Err(MalformedValue) else Ok(Chunks(payload))
  }

  function EncodedOrder(indices: seq<U16>): seq<Byte> {
    if indices == [] then [] else EncodedOrder(indices[..|indices| - 1]) + Le16(indices[|indices| - 1])
  }

  /** `encode_boot_order`. */
  method EncodeBootOrder(indices: seq<U16>) returns (out: seq<Byte>)
    ensures out == EncodedOrder(indices)
    ensures ParseBootOrder(out) == Ok(indices)
  {
    out := [];
    for i := 0 to |indices|
      invariant out == EncodedOrder(indices[..i])
    {
      assert indices[..i + 1][..i] == indices[..i];
      out := out + Le16(indices[i]);
    }
    assert indices[..|indices|] == indices;
    ParseInvertsEncode(indices);
  }

  lemma {:induction false} ChunksAppend(a: seq<Byte>, n: U16)
    requires |a| % 2 == 0
    ensures Chunks(a + Le16(n)) == Chunks(a) + [n]
  {
    if a == [] {
      assert a + Le16(n) == Le16(n);
    } else {
      assert (a + Le16(n))[2..] == a[2..] + Le16(n);
      ChunksAppend(a[2..], n);
    }
  }

  /** Index `k` lies at offset `2k`, its low byte first. */
  lemma {:induction false} EncodedAt(indices: seq<U16>, k: nat)
    requires k < |indices|
    ensures |EncodedOrder(indices)| == 2 * |indices|
    ensures EncodedOrder(indices)[2 * k] == indices[k] % 0x100
    ensures EncodedOrder(indices)[2 * k + 1] == indices[k] / 0x100
  {
    var init := indices[..|indices| - 1];
    if |init| > 0 { EncodedAt(init, if k < |init| then k else 0); }
  }

  /** Parsing inverts encoding on every sequence of indices. */
  lemma {:induction false} ParseInvertsEncode(indices: seq<U16>)
    ensures |EncodedOrder(indices)| == 2 * |indices|
    ensures ParseBootOrder(EncodedOrder(indices)) == Ok(indices)
  {
    if indices != [] {
      var init, last := indices[..|indices| - 1], indices[|indices| - 1];
      ParseInvertsEncode(init);
      ChunksAppend(EncodedOrder(init), last);
      assert indices == init + [last];
    }
  }

  lemma {:induction false} EncodedFront(n: U16, rest: seq<U16>)
    ensures EncodedOrder([n] + rest) == Le16(n) + EncodedOrder(rest)
  {
    var all := [n] + rest;
    if rest == [] {
      assert all[..0] == [];
    } else {
      assert all[..|all| - 1] == [n] + rest[..|rest| - 1];
      EncodedFront(n, rest[..|rest| - 1]);
    }
  }

  /** Encoding inverts parsing on every payload of even length; others are rejected. */
  lemma {:induction false} EncodeInvertsParse(payload: seq<Byte>)
    ensures ParseBootOrder(payload).Ok? <==> |payload| % 2 == 0
    ensures ParseBootOrder(payload).Ok? ==> EncodedOrder(ParseBootOrder(payload).value) == payload
    decreases |payload|
  {
    if |payload| >= 2 && |payload| % 2 == 0 {
      EncodeInvertsParse(payload[2..]);
      var n := FromLe16(payload[0], payload[1]);
      EncodedFront(n, Chunks(payload[2..]));
      assert Le16(n) == payload[..2];
    }
  }

  /** `parse_single_u16_var`. */
  function ParseSingle(payload: seq<Byte>): Result<U16> {
    if |payload| != 2 then Err(MalformedValue) else Ok(FromLe16(payload[0], payload[1]))
  }

  // ---------------------------------------------------------------------------
  // Moving one entry
  // ---------------------------------------------------------------------------

  function Without<T>(xs: seq<T>, i: nat): seq<T>
    requires i < |xs|
  {
    xs[..i] + xs[i + 1..]
  }

  function WithAt<T>(xs: seq<T>, i: nat, x: T): seq<T>
    requires i <= |xs|
  {
    xs[..i] + [x] + xs[i..]
  }

  /** `remove(from)` and then `insert(min(to, len - 1), entry)`. */
  function Moved<T>(xs: seq<T>, from: nat, to: nat): seq<T>
    requires from < |xs|
  {
    WithAt(Without(xs, from), if to < |xs| then to else |xs| - 1, xs[from])
  }

  lemma WithoutWithAt<T>(xs: seq<T>, i: nat, x: T)
    requires i <= |xs|
    ensures Without(WithAt(xs, i, x), i) == xs && WithAt(xs, i, x)[i] == x
    ensures multiset(WithAt(xs, i, x)) == multiset(xs) + multiset{x}
  {
    assert xs == xs[..i] + xs[i..];
  }

  /** A move relocates one element, keeps the relative order of the others, clamps its
      target, and is undone by the opposite move. */
  lemma MoveLaws<T>(xs: seq<T>, i: nat, j: nat)
    requires i < |xs|
    ensures var ys, to := Moved(xs, i, j), if j < |xs| then j else |xs| - 1;
      && |ys| == |xs|
      && ys[to] == xs[i]
      && Without(ys, to) == Without(xs, i)
      && multiset(ys) == multiset(xs)
      && Moved(ys, to, i) == xs
  {
    var rest := Without(xs, i);
    assert WithAt(rest, i, xs[i]) == xs;
    WithoutWithAt(rest, i, xs[i]);
    WithoutWithAt(rest, if j < |xs| then j else |xs| - 1, xs[i]);
  }
}
