/** Decoding a `Boot####` variable (`EFI_LOAD_OPTION`, section 3.1.3 of UEFI 2.10): the header, the
    UTF-16LE description, its terminator, and what becomes of surrogates without a partner. */
module LoadOption {
  import opened BootOrder

  const HEADER_LEN := 6

  datatype EfiBootEntry = EfiBootEntry(index: U16, active: bool, hidden: bool, description: string)

  // ---------------------------------------------------------------------------
  // UTF-16 (section 2 of RFC 2781)
  // ---------------------------------------------------------------------------

  predicate IsHigh(u: U16) {
    0xD800 <= u < 0xDC00
  }

  predicate IsLow(u: U16) {
    0xDC00 <= u < 0xE000
  }

  function EncodeChar(c: char): seq<U16> {
    var n := c as int;
    if n < 0x1_0000 then [n] else [0xD800 + (n - 0x1_0000) / 0x400, 0xDC00 + (n - 0x1_0000) % 0x400]
  }

  function EncodeUtf16(s: string): seq<U16> {
    if s == "" then [] else EncodeChar(s[0]) + EncodeUtf16(s[1..])
  }

  const REPLACEMENT: char := '\U{FFFD}'

  /** The character of a surrogate pair. */
  function Combine(high: U16, low: U16): char
    requires IsHigh(high) && IsLow(low)
  {
    (0x1_0000 + (high - 0xD800) * 0x400 + (low - 0xDC00)) as char
  }

  /** `String::from_utf16_lossy`: an unpaired surrogate becomes the replacement character,
      and the unit after an unpaired high surrogate is looked at again. */
  function DecodeLossy(units: seq<U16>): string {
    if units == [] then ""
    else if !IsHigh(units[0]) && !IsLow(units[0]) then [units[0] as char] + DecodeLossy(units[1..])
    else if IsHigh(units[0]) && |units| > 1 && IsLow(units[1]) then
      [Combine(units[0], units[1])] + DecodeLossy(units[2..])
    else [REPLACEMENT] + DecodeLossy(units[1..])
  }

  // ---------------------------------------------------------------------------
  // The payload
  // ---------------------------------------------------------------------------

  /** The units of the description starting at offset `i`, up to its zero terminator. */
  function UnitsFrom(payload: seq<Byte>, i: nat): Result<seq<U16>>
    decreases |payload| - i
  {
    if i + 1 >= |payload| then Err(MalformedValue)
    else
      var unit := FromLe16(payload[i], payload[i + 1]);
      if unit == 0 then Ok([])
      else
        var rest := UnitsFrom(payload, i + 2);
        if rest.Err? then rest else Ok([unit] + rest.value)
  }

  function BootEntryOf(index: U16, payload: seq<Byte>): Result<EfiBootEntry> {
    if |payload| < HEADER_LEN then Err(MalformedValue)
    else
      var attrs := FromLe32(payload[0], payload[1], payload[2], payload[3]);
      var units := UnitsFrom(payload, HEADER_LEN);
      if units.Err? then Err(units.error)
      else Ok(EfiBootEntry(index, HasBit(attrs, 0x01), HasBit(attrs, 0x08), DecodeLossy(units.value)))
  }

  function AfterPrefix(prefix: seq<U16>, r: Result<seq<U16>>): Result<seq<U16>> {
    if r.Err? then r else Ok(prefix + r.value)
  }

  /** `parse_boot_entry`. */
  method ParseBootEntry(index: U16, payload: seq<Byte>) returns (r: Result<EfiBootEntry>)
    ensures r == BootEntryOf(index, payload)
  {
    if |payload| < HEADER_LEN {
      return Err(MalformedValue);
    }
    var attrs := FromLe32(payload[0], payload[1], payload[2], payload[3]);
    var chars: seq<U16> := [];
    var i := HEADER_LEN;
    ghost var whole := UnitsFrom(payload, HEADER_LEN);
    assert whole.Ok? ==> chars + whole.value == whole.value;
    while true
      invariant i >= HEADER_LEN
      invariant UnitsFrom(payload, HEADER_LEN) == AfterPrefix(chars, UnitsFrom(payload, i))
      decreases |payload| - i
    {
      if i + 1 >= |payload| {
        return Err(MalformedValue);
      }
      var unit := FromLe16(payload[i], payload[i + 1]);
      i := i + 2;
      if unit == 0 {
        break;
      }
      ghost var rest := UnitsFrom(payload, i);
      assert rest.Ok? ==> chars + ([unit] + rest.value) == (chars + [unit]) + rest.value;
      chars := chars + [unit];
    }
    assert chars + [] == chars;
    return Ok(EfiBootEntry(index, HasBit(attrs, 0x01), HasBit(attrs, 0x08), DecodeLossy(chars)));
  }

  // ---------------------------------------------------------------------------
  // When decoding succeeds
  // ---------------------------------------------------------------------------

  /** A zero 16-bit unit at offset `HEADER_LEN + 2k` fits in the payload. */
  predicate TerminatedAt(payload: seq<Byte>, k: nat) {
    HEADER_LEN + 2 * k + 1 < |payload| && payload[HEADER_LEN + 2 * k] == 0 && payload[HEADER_LEN + 2 * k + 1] == 0
  }

  /** The units read from the `k`-th on stop just before the first zero unit. */
  lemma {:induction false} UnitsEnd(payload: seq<Byte>, k: nat) returns (m: nat)
    requires UnitsFrom(payload, HEADER_LEN + 2 * k).Ok?
    ensures k <= m && TerminatedAt(payload, m)
    ensures |UnitsFrom(payload, HEADER_LEN + 2 * k).value| == m - k
    decreases |payload| - 2 * k
  {
    var i := HEADER_LEN + 2 * k;
    if FromLe16(payload[i], payload[i + 1]) == 0 {
      return k;
    }
    assert i + 2 == HEADER_LEN + 2 * (k + 1);
    m := UnitsEnd(payload, k + 1);
  }

  lemma {:induction false} UnitsFound(payload: seq<Byte>, k: nat, m: nat)
    requires k <= m && TerminatedAt(payload, m)
    ensures UnitsFrom(payload, HEADER_LEN + 2 * k).Ok?
    ensures |UnitsFrom(payload, HEADER_LEN + 2 * k).value| <= m - k
    decreases m - k
  {
    if k < m {
      assert HEADER_LEN + 2 * k + 2 == HEADER_LEN + 2 * (k + 1);
      UnitsFound(payload, k + 1, m);
    }
  }

  /** Decoding succeeds exactly when the header is there and some aligned zero unit fits. */
  lemma DecodesExactly(index: U16, payload: seq<Byte>)
    ensures BootEntryOf(index, payload).Ok? <==>
      (|payload| >= HEADER_LEN && exists m: nat :: TerminatedAt(payload, m))
  {
    if BootEntryOf(index, payload).Ok? {
      var m := UnitsEnd(payload, 0);
    }
    if m: nat :| TerminatedAt(payload, m) {
      UnitsFound(payload, 0, m);
    }
  }

  // ---------------------------------------------------------------------------
  // Round trip
  // ---------------------------------------------------------------------------

  function LeUnits(units: seq<U16>): seq<Byte> {
    if units == [] then [] else Le16(units[0]) + LeUnits(units[1..])
  }

  /** A load option: attributes, path-list length, description, terminator, anything. */
  function EncodedEntry(attrs: U32, pathLen: U16, description: string, tail: seq<Byte>): seq<Byte> {
    Le32(attrs) + Le16(pathLen) + (LeUnits(EncodeUtf16(description)) + (Le16(0) + tail))
  }

  lemma EncodeCharDecodes(c: char, rest: seq<U16>)
    ensures DecodeLossy(EncodeChar(c) + rest) == [c] + DecodeLossy(rest)
  {
    var n := c as int;
    var units := EncodeChar(c) + rest;
    if n < 0x1_0000 {
      assert units[1..] == rest;
      assert units[0] as char == c;
    } else {
      assert units[2..] == rest;
      assert (n - 0x1_0000) / 0x400 * 0x400 + (n - 0x1_0000) % 0x400 == n - 0x1_0000;
      assert Combine(units[0], units[1]) == c;
    }
  }

  /** Every Unicode text survives UTF-16. */
  lemma {:induction false} Utf16RoundTrip(s: string)
    ensures DecodeLossy(EncodeUtf16(s)) == s
  {
    if s != "" {
      EncodeCharDecodes(s[0], EncodeUtf16(s[1..]));
      Utf16RoundTrip(s[1..]);
    }
  }

  /** What units of a description stand for: a character, or a surrogate without its partner. */
  datatype Glyph = Text(c: char) | Lone(unit: U16)

  function GlyphUnits(g: Glyph): seq<U16> {
    if g.Text? then EncodeChar(g.c) else [g.unit]
  }

  function UnitsOf(gs: seq<Glyph>): seq<U16> {
    if gs == [] then [] else GlyphUnits(gs[0]) + UnitsOf(gs[1..])
  }

  /** The text shown for them. */
  function Shown(gs: seq<Glyph>): string {
    if gs == [] then "" else [if gs[0].Text? then gs[0].c else '\U{FFFD}'] + Shown(gs[1..])
  }

  /** A lone unit is a surrogate, and a high one has no low one behind it. */
  predicate LoneAt(gs: seq<Glyph>, k: nat)
    requires k < |gs|
  {
    gs[k].Lone? ==>
      (IsHigh(gs[k].unit) || IsLow(gs[k].unit))
      && (IsHigh(gs[k].unit) && k + 1 < |gs| && gs[k + 1].Lone? ==> !IsLow(gs[k + 1].unit))
  }

  lemma FirstUnitIsNotLow(gs: seq<Glyph>)
    requires gs != [] && (gs[0].Lone? ==> !IsLow(gs[0].unit))
    ensures UnitsOf(gs) != [] && !IsLow(UnitsOf(gs)[0])
  {
    if gs[0].Text? {
      var n := gs[0].c as int;
      assert EncodeChar(gs[0].c)[0] == if n < 0x1_0000 then n else 0xD800 + (n - 0x1_0000) / 0x400;
    }
  }

  /** Lossy decoding replaces exactly the surrogates without a partner, one character for each. */
  lemma {:induction false} LossyDecodes(gs: seq<Glyph>)
    requires forall k | 0 <= k < |gs| :: LoneAt(gs, k)
    ensures DecodeLossy(UnitsOf(gs)) == Shown(gs)
  {
    if gs != [] {
      var rest := UnitsOf(gs[1..]);
      forall k | 0 <= k < |gs| - 1 ensures LoneAt(gs[1..], k) { assert LoneAt(gs, k + 1); }
      LossyDecodes(gs[1..]);
      if gs[0].Text? {
        EncodeCharDecodes(gs[0].c, rest);
      } else {
        assert LoneAt(gs, 0);
        if gs[1..] != [] && IsHigh(gs[0].unit) { FirstUnitIsNotLow(gs[1..]); }
        assert ([gs[0].unit] + rest)[1..] == rest;
      }
    }
  }

  lemma {:induction false} NoZeroUnits(s: string)
    requires '\0' !in s
    ensures 0 !in EncodeUtf16(s)
  {
    if s != "" {
      NoZeroUnits(s[1..]);
      assert s[0] != '\0';
    }
  }

  lemma {:induction false} UnitsRead(payload: seq<Byte>, i: nat, units: seq<U16>, tail: seq<Byte>)
    requires i <= |payload| && payload[i..] == LeUnits(units) + (Le16(0) + tail)
    requires 0 !in units
    ensures UnitsFrom(payload, i) == Ok(units)
    decreases |units|
  {
    var bytes := payload[i..];
    if units == [] {
      assert bytes[0] == payload[i] && bytes[1] == payload[i + 1];
    } else {
      assert bytes[0] == payload[i] && bytes[1] == payload[i + 1];
      assert bytes[..2] == Le16(units[0]);
      assert payload[i + 2..] == bytes[2..] == LeUnits(units[1..]) + (Le16(0) + tail);
      assert units[0] != 0;
      assert FromLe16(payload[i], payload[i + 1]) == units[0];
      UnitsRead(payload, i + 2, units[1..], tail);
      assert units == [units[0]] + units[1..];
    }
  }

  /** For any attributes, NUL-free Unicode description and tail: encoding, then parsing,
      returns the description and the active and hidden bits. */
  lemma EntryRoundTrip(index: U16, attrs: U32, pathLen: U16, description: string, tail: seq<Byte>)
    requires '\0' !in description
    ensures BootEntryOf(index, EncodedEntry(attrs, pathLen, description, tail)) ==
      Ok(EfiBootEntry(index, HasBit(attrs, 0x01), HasBit(attrs, 0x08), description))
  {
    var payload := EncodedEntry(attrs, pathLen, description, tail);
    var units := EncodeUtf16(description);
    assert payload[HEADER_LEN..] == LeUnits(units) + (Le16(0) + tail);
    NoZeroUnits(description);
    UnitsRead(payload, HEADER_LEN, units, tail);
    Utf16RoundTrip(description);
    Le32RoundTrip(attrs);
    assert payload[0] == Le32(attrs)[0] && payload[1] == Le32(attrs)[1];
    assert payload[2] == Le32(attrs)[2] && payload[3] == Le32(attrs)[3];
  }
}
