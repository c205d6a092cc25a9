/** Listing the `Boot####` variables of a store, by index. */
module BootEntries {
  import opened Text
  import opened Sorting
  import opened Numerals
  import opened FixedWidth
  import opened BootOrder
  import opened LoadOption
  import opened EfivarStore

  // ---------------------------------------------------------------------------
  // Variable names
  // ---------------------------------------------------------------------------

  const U16_MAX := 0xFFFF

  /** `Boot` and four characters that `u16::from_str_radix(_, 16)` accepts. */
  function IndexOfName(name: string): Option<U16> {
    if |name| == 8 && "Boot" <= name then ParseUnsigned(16, name[4..], U16_MAX) else None
  }

  /** `Boot{index:04X}`. */
  function BootName(index: U16): string {
    "Boot" + Fixed(16, index, 4)
  }

  lemma FourDigits()
    ensures Power(16, 3) == 0x1000 && Power(16, 4) == 0x1_0000
  {
    assert Power(16, 1) == 16 && Power(16, 2) == 0x100;
  }

  /** The names that are listed: `Boot` and four hexadecimal digits in either case, or a plus sign
      and three. */
  lemma NamesExactly(name: string)
    ensures IndexOfName(name).Some? <==>
      (|name| == 8 && "Boot" <= name
       && (AllDigitsOf(16, name[4..]) || (name[4] == '+' && AllDigitsOf(16, name[5..]))))
  {
    if |name| == 8 {
      var tail := name[4..];
      FourDigits();
      assert tail[0] == name[4] && tail[1..] == name[5..];
      if AllDigitsOf(16, Unsigned(tail)) { ValueBound(16, Unsigned(tail)); }
    }
  }

  /** The test is looser than four digits: a sign and any three digits pass it too. */
  lemma SignedNamePasses(digits: string)
    requires |digits| == 3 && AllDigitsOf(16, digits)
    ensures IndexOfName("Boot+" + digits) == Some(Value(16, digits))
  {
    var name := "Boot+" + digits;
    FourDigits();
    ValueBound(16, digits);
    assert name[4..][1..] == digits && name[..4] == "Boot";
  }

  /** The name of an index parses to that index. */
  lemma NameRoundTrip(index: U16)
    ensures IndexOfName(BootName(index)) == Some(index) && Canonical(16, BootName(index)[4..])
  {
    FourDigits();
    ValueInvertsFixed(16, index, 4);
    FixedIsCanonical(16, index, 4);
    var digits := Fixed(16, index, 4);
    assert BootName(index)[4..] == digits && IsDigitOf(16, digits[0]);
  }

  lemma CanonicalIsName(name: string, index: U16)
    requires IndexOfName(name) == Some(index) && Canonical(16, name[4..])
    ensures name == BootName(index)
  {
    var digits := name[4..];
    assert IsDigitOf(16, digits[0]);
    FixedInvertsValue(16, digits);
    assert name == name[..4] + digits;
  }

  /** Of the names listed for an index, the one the firmware uses is the one whose four characters
      are digits as they are printed. */
  lemma CanonicalExactly(name: string, index: U16)
    ensures name == BootName(index) <==> IndexOfName(name) == Some(index) && Canonical(16, name[4..])
  {
    NameRoundTrip(index);
    if IndexOfName(name) == Some(index) && Canonical(16, name[4..]) { CanonicalIsName(name, index); }
  }

  // ---------------------------------------------------------------------------
  // The listing
  // ---------------------------------------------------------------------------

  predicate IndexFirst(a: EfiBootEntry, b: EfiBootEntry) {
    a.index < b.index
  }

  /** The entry of one variable with a matching name. */
  function ReadEntry(files: Store, name: string, index: U16, unreadable: set<string>): Result<EfiBootEntry> {
    var payload := ReadVar(files, name, name in unreadable);
    if payload.Err? then Err(payload.error) else BootEntryOf(index, payload.value)
  }

  /** The entries in the order of `names`; the first failure ends the listing. */
  function EntriesOf(files: Store, names: seq<string>, unreadable: set<string>): Result<seq<EfiBootEntry>> {
    if names == [] then Ok([])
    else
      var index := IndexOfName(names[0]);
      if index.None? then EntriesOf(files, names[1..], unreadable)
      else
        var entry := ReadEntry(files, names[0], index.value, unreadable);
        if entry.Err? then Err(entry.error)
        else
          var rest := EntriesOf(files, names[1..], unreadable);
          if rest.Err? then rest else Ok([entry.value] + rest.value)
  }

  function ListedEntries(files: Store, names: seq<string>, unreadable: set<string>): Result<seq<EfiBootEntry>> {
    var entries := EntriesOf(files, names, unreadable);
    if entries.Err? then entries else Ok(Sort(IndexFirst, entries.value))
  }

  /** `list_boot_entries`, given the variable names the directory returned. */
  method ListBootEntries(reader: EfivarFs, names: seq<string>, unreadable: set<string>)
    returns (r: Result<seq<EfiBootEntry>>)
    ensures r == ListedEntries(reader.files, names, unreadable)
  {
    var entries: seq<EfiBootEntry> := [];
    ghost var whole := EntriesOf(reader.files, names, unreadable);
    assert names[0..] == names;
    assert whole.Ok? ==> entries + whole.value == whole.value;
    for k := 0 to |names|
      invariant whole ==
        var rest := EntriesOf(reader.files, names[k..], unreadable);
        if rest.Err? then rest else Ok(entries + rest.value)
    {
      var name := names[k];
      assert names[k..][1..] == names[k + 1..];
      var index := IndexOfName(name);
      if index.None? {
        continue;
      }
      var payload := reader.ReadGlobal(name, name in unreadable);
      if payload.Err? {
        return Err(payload.error);
      }
      var entry := ParseBootEntry(index.value, payload.value);
      if entry.Err? {
        return Err(entry.error);
      }
      ghost var rest := EntriesOf(reader.files, names[k + 1..], unreadable);
      assert rest.Ok? ==> entries + ([entry.value] + rest.value) == (entries + [entry.value]) + rest.value;
      entries := entries + [entry.value];
    }
    assert entries + [] == entries;
    return Ok(Sort(IndexFirst, entries));
  }

  predicate IsBootName(name: string) {
    IndexOfName(name).Some?
  }

  predicate Readable(files: Store, name: string, unreadable: set<string>) {
    IsBootName(name) && ReadEntry(files, name, IndexOfName(name).value, unreadable).Ok?
  }

  function EntryOf(files: Store, name: string, unreadable: set<string>): EfiBootEntry
    requires Readable(files, name, unreadable)
  {
    ReadEntry(files, name, IndexOfName(name).value, unreadable).value
  }

  /** The entry of each name, in order. */
  function Decoded(files: Store, names: seq<string>, unreadable: set<string>): seq<EfiBootEntry>
    requires forall name | name in names :: Readable(files, name, unreadable)
  {
    seq(|names|, k requires 0 <= k < |names| =>
      assert names[k] in names; EntryOf(files, names[k], unreadable))
  }

  lemma {:induction false} EntriesExactly(files: Store, names: seq<string>, unreadable: set<string>)
    ensures
      var matching := Filter(IsBootName, names);
      && (EntriesOf(files, names, unreadable).Ok? <==>
            forall name | name in matching :: Readable(files, name, unreadable))
      && (EntriesOf(files, names, unreadable).Ok? ==>
            EntriesOf(files, names, unreadable).value == Decoded(files, matching, unreadable))
  {
    if names != [] {
      var rest := Filter(IsBootName, names[1..]);
      EntriesExactly(files, names[1..], unreadable);
      if IsBootName(names[0]) {
        var matching := [names[0]] + rest;
        assert names[0] in matching && forall name | name in rest :: name in matching;
      }
    }
  }

  function Indices(entries: seq<EfiBootEntry>): seq<U16> {
    seq(|entries|, k requires 0 <= k < |entries| => entries[k].index)
  }

  lemma {:induction false} InsertIndices(x: EfiBootEntry, entries: seq<EfiBootEntry>)
    ensures Indices(Insert(IndexFirst, x, entries)) == Insert(IndexLess, x.index, Indices(entries))
  {
    if entries != [] {
      assert Indices(entries)[1..] == Indices(entries[1..]);
      InsertIndices(x, entries[1..]);
    }
  }

  lemma {:induction false} SortIndices(entries: seq<EfiBootEntry>)
    ensures Indices(Sort(IndexFirst, entries)) == Sort(IndexLess, Indices(entries))
  {
    if entries != [] {
      assert Indices(entries)[1..] == Indices(entries[1..]);
      SortIndices(entries[1..]);
      InsertIndices(entries[0], Sort(IndexFirst, entries[1..]));
    }
  }

  /** The listing succeeds exactly when every variable named like a boot entry can be read and
      decoded; it then holds exactly the decoded entries, each as often as its variable was
      returned, in the order of their indices. */
  lemma ListingExactly(files: Store, names: seq<string>, unreadable: set<string>)
    ensures
      var matching := Filter(IsBootName, names);
      var listed := ListedEntries(files, names, unreadable);
      && (listed.Ok? <==> forall name | name in matching :: Readable(files, name, unreadable))
      && (listed.Ok? ==>
            SortedBy(IndexFirst, listed.value)
            && multiset(listed.value) == multiset(Decoded(files, matching, unreadable)))
  {
    EntriesExactly(files, names, unreadable);
    var entries := EntriesOf(files, names, unreadable);
    if entries.Ok? {
      SortIsSorted(IndexFirst, entries.value);
      SortHolds(IndexFirst, entries.value);
    }
  }

  predicate StrictlyIncreasing(entries: seq<EfiBootEntry>) {
    forall i, j | 0 <= i < j < |entries| :: entries[i].index < entries[j].index
  }

  predicate SharesNoIndex(names: seq<string>) {
    forall i, j | 0 <= i < j < |names| :: IndexOfName(names[i]) != IndexOfName(names[j])
  }

  /** No index is listed twice exactly when no two of the listed names stand for one index. */
  lemma ListsIndicesOnce(files: Store, names: seq<string>, unreadable: set<string>)
    requires ListedEntries(files, names, unreadable).Ok?
    ensures StrictlyIncreasing(ListedEntries(files, names, unreadable).value)
      <==> SharesNoIndex(Filter(IsBootName, names))
  {
    var matching := Filter(IsBootName, names);
    var listed := ListedEntries(files, names, unreadable).value;
    EntriesExactly(files, names, unreadable);
    ListingExactly(files, names, unreadable);
    var entries := Decoded(files, matching, unreadable);
    SortIndices(entries);
    SortDuplicates(IndexLess, Indices(entries));
    DecodedIndices(files, matching, unreadable);
    IncreasingIffDistinct(listed);
  }

  lemma DecodedIndices(files: Store, matching: seq<string>, unreadable: set<string>)
    requires forall name | name in matching :: Readable(files, name, unreadable)
    ensures NoDuplicates(Indices(Decoded(files, matching, unreadable))) <==> SharesNoIndex(matching)
  {
    var indices := Indices(Decoded(files, matching, unreadable));
    forall k | 0 <= k < |matching| ensures Some(indices[k]) == IndexOfName(matching[k]) {
      assert Readable(files, matching[k], unreadable);
    }
  }

  lemma IncreasingIffDistinct(entries: seq<EfiBootEntry>)
    requires SortedBy(IndexFirst, entries)
    ensures StrictlyIncreasing(entries) <==> NoDuplicates(Indices(entries))
  {
    var indices := Indices(entries);
    if NoDuplicates(indices) {
      forall i, j | 0 <= i < j < |entries| ensures entries[i].index < entries[j].index {
        assert indices[i] != indices[j] && !IndexFirst(entries[j], entries[i]);
      }
    }
  }

  /** Two spellings of one index: both are listed, whenever both variables are there. */
  lemma LowerCaseIsASecondName(upper: string, lower: string)
    requires |upper| == |lower| == 8 && upper[..4] == lower[..4] == "Boot"
    requires Canonical(16, upper[4..]) && AllDigitsOf(16, lower[4..])
    requires forall k | 4 <= k < 8 :: DigitValue(lower[k]) == DigitValue(upper[k])
    ensures IndexOfName(upper).Some? && IndexOfName(lower) == IndexOfName(upper)
  {
    NamesExactly(upper);
    SameValue(upper[4..], lower[4..]);
    assert IsDigitOf(16, upper[4..][0]) && IsDigitOf(16, lower[4..][0]);
  }

  lemma {:induction false} SameValue(a: string, b: string)
    requires AllDigitsOf(16, a) && AllDigitsOf(16, b) && |a| == |b|
    requires forall k | 0 <= k < |a| :: DigitValue(a[k]) == DigitValue(b[k])
    ensures Value(16, a) == Value(16, b)
  {
    if a != "" { SameValue(a[..|a| - 1], b[..|b| - 1]); }
  }

  /** A variable written as a load option is listed with its index, bits and description. */
  lemma StoredEntryIsListed(
    files: Store, names: seq<string>, index: U16, attrs: U32, pathLen: U16, description: string, tail: seq<Byte>,
    raw: EfiAttributes)
    requires '\0' !in description && BootName(index) in names
    requires BootName(index) in files
    requires files[BootName(index)] == RawEntry(raw, EncodedEntry(attrs, pathLen, description, tail))
    requires ListedEntries(files, names, {}).Ok?
    ensures EfiBootEntry(index, HasBit(attrs, 0x01), HasBit(attrs, 0x08), description)
      in ListedEntries(files, names, {}).value
  {
    var name := BootName(index);
    var matching := Filter(IsBootName, names);
    NameRoundTrip(index);
    FilterMembers(IsBootName, names, name);
    StoredEntryReads(files, index, attrs, pathLen, description, tail, raw);
    ListingExactly(files, names, {});
    var k :| 0 <= k < |matching| && matching[k] == name;
    assert Decoded(files, matching, {})[k] in multiset(ListedEntries(files, names, {}).value);
  }

  lemma StoredEntryReads(
    files: Store, index: U16, attrs: U32, pathLen: U16, description: string, tail: seq<Byte>, raw: EfiAttributes)
    requires '\0' !in description && BootName(index) in files
    requires files[BootName(index)] == RawEntry(raw, EncodedEntry(attrs, pathLen, description, tail))
    ensures ReadEntry(files, BootName(index), index, {})
      == Ok(EfiBootEntry(index, HasBit(attrs, 0x01), HasBit(attrs, 0x08), description))
  {
    var payload := EncodedEntry(attrs, pathLen, description, tail);
    assert files[BootName(index)][4..] == payload;
    EntryRoundTrip(index, attrs, pathLen, description, tail);
  }
}
