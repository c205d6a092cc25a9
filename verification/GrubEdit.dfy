/** The comment-preserving edit of `/etc/default/grub`. */
module GrubEdit {
  import opened Text
  import opened GrubConfig

  // Change the last assignment of each key, append what is absent, print, and read back: the text
  // edit refines a map update.

  type Change = (string, string)

  predicate NeedsQuotes(value: string) {
    ' ' in value || '\t' in value || value == ""
  }

  /** `build_assignment_line`. */
  function BuildAssignmentLine(key: string, value: string): string {
    if NeedsQuotes(value) then key + "=\"" + value + "\"" else key + "=" + value
  }

  /** `is_assignment_for_key`. */
  predicate IsAssignmentForKey(line: string, key: string) {
    key + "=" <= TrimStart(line)
  }

  function LastTrue(marks: seq<bool>): Option<nat> {
    if marks == [] then None
    else if marks[|marks| - 1] then Some(|marks| - 1)
    else LastTrue(marks[..|marks| - 1])
  }

  function Marks(lines: seq<string>, key: string): seq<bool> {
    seq(|lines|, i requires 0 <= i < |lines| => IsAssignmentForKey(lines[i], key))
  }

  /** Position of the last line that assigns `key`. */
  function LastIndex(lines: seq<string>, key: string): Option<nat> {
    LastTrue(Marks(lines, key))
  }

  /** One change, given as the new line for `key`. */
  function PutLine(lines: seq<string>, key: string, line: string): seq<string> {
    var i := LastIndex(lines, key);
    if i.Some? && i.value < |lines| then lines[i.value := line] else lines + [line]
  }

  /** All changes, in order. */
  function EditAll(lines: seq<string>, changes: seq<Change>): seq<string> {
    if changes == [] then lines
    else
      var (key, value) := changes[|changes| - 1];
      PutLine(EditAll(lines, changes[..|changes| - 1]), key, BuildAssignmentLine(key, value))
  }

  function UpdateAll(values: map<string, string>, changes: seq<Change>): map<string, string> {
    if changes == [] then values
    else UpdateAll(values, changes[..|changes| - 1])[changes[|changes| - 1].0 := changes[|changes| - 1].1]
  }

  function FileText(lines: seq<string>): string {
    Join(lines) + "\n"
  }

  /** What a write of `changes` to a file holding `text` leaves in the file. */
  function EditedText(text: string, changes: seq<Change>): string {
    FileText(EditAll(Lines(text), changes))
  }

  /** Every line of the written text ends with a line feed. */
  lemma EditedTextIsLines(text: string, changes: seq<Change>)
    requires changes != []
    ensures EditedText(text, changes) == Unlines(EditAll(Lines(text), changes))
  {
    JoinIsUnlines(EditAll(Lines(text), changes));
  }

  method FindLast(lines: seq<string>, key: string) returns (i: Option<nat>)
    ensures i == LastIndex(lines, key)
    ensures i.Some? ==> i.value < |lines|
  {
    ghost var marks := Marks(lines, key);
    var n := |lines|;
    assert marks[..n] == marks;
    while n > 0
      invariant n <= |lines|
      invariant LastIndex(lines, key) == LastTrue(marks[..n])
    {
      assert marks[..n][..n - 1] == marks[..n - 1];
      n := n - 1;
      if IsAssignmentForKey(lines[n], key) {
        return Some(n);
      }
    }
    return None;
  }

  /** The edit loop of `set_grub_values_with_prewrite`: the lines become the edited lines,
      the in-memory map becomes the updated map. */
  method ApplyChanges(config: Config, changes: seq<Change>) returns (edited: Config)
    ensures edited.lines == EditAll(config.lines, changes)
    ensures edited.values == UpdateAll(config.values, changes)
  {
    var lines, values := config.lines, config.values;
    for n := 0 to |changes|
      invariant lines == EditAll(config.lines, changes[..n])
      invariant values == UpdateAll(config.values, changes[..n])
    {
      var (key, value) := changes[n];
      assert changes[..n + 1][..n] == changes[..n];
      var newLine := BuildAssignmentLine(key, value);
      var i := FindLast(lines, key);
      if i.Some? {
        lines := lines[i.value := newLine];
      } else {
        lines := lines + [newLine];
      }
      values := values[key := value];
    }
    assert changes[..|changes|] == changes;
    return Config(lines, values);
  }

  // ---------------------------------------------------------------------------
  // Representable values
  // ---------------------------------------------------------------------------

  /** The exact condition on a value: one line, no trigger, and, when it will be written
      without quotes, no trailing carriage return and no quotes of its own around it. */
  predicate Representable(value: string) {
    && OneLine(value)
    && DangerIn(value).None?
    && (NeedsQuotes(value) || (!DoubleQuoted(value) && (value == "" || value[|value| - 1] != '\r')))
  }

  predicate GoodChanges(changes: seq<Change>) {
    forall c | c in changes :: IsValidKey(c.0) && Representable(c.1)
  }

  predicate ValidKeys(changes: seq<Change>) {
    forall c | c in changes :: IsValidKey(c.0)
  }

  lemma QuotedContains(value: string, needle: string)
    requires needle != "" && '"' !in needle
    ensures Contains("\"" + value + "\"", needle) ==> Contains(value, needle)
  {
    var s := "\"" + value + "\"";
    forall i | 0 <= i <= |s| && needle <= s[i..] ensures Contains(value, needle) {
      assert s[i] == needle[0] && s[i + |needle| - 1] == needle[|needle| - 1];
      assert i > 0 && i + |needle| <= |s| - 1;
      assert value[i - 1..][..|needle|] == s[i..][..|needle|];
      ContainsAt(value, needle, i - 1);
    }
  }

  lemma QuotedTriggers(value: string, triggers: seq<Described>)
    requires forall t | t in triggers :: t.0 != "" && '"' !in t.0
    requires FirstTrigger(value, triggers).None?
    ensures FirstTrigger("\"" + value + "\"", triggers).None?
  {
    if triggers != [] {
      var needle := triggers[0].0;
      assert triggers[0] in triggers;
      QuotedContains(value, needle);
      QuotedTriggers(value, triggers[1..]);
    }
  }

  lemma QuotedExtract(value: string)
    ensures ExtractValue("\"" + value + "\"") == value
  {
    var s := "\"" + value + "\"";
    assert TrimEndMatches(s, '\n') == s && TrimEndMatches(s, '\r') == s;
    assert s[1..|s| - 1] == value;
  }

  /** A quoted value is judged by its content: the quotes neither hide nor add a trigger. */
  lemma QuotedLine(key: string, value: string)
    requires IsValidKey(key) && NeedsQuotes(value)
    ensures ParseLine(BuildAssignmentLine(key, value)) == QuotedKind(key, "\"" + value + "\"")
  {
    var raw := "\"" + value + "\"";
    QuotedText(key, value, raw);
    ParseKeyValue(key, raw);
    OrdinaryValue(key, raw);
  }

  lemma QuotedText(key: string, value: string, raw: string)
    requires NeedsQuotes(value) && raw == "\"" + value + "\""
    ensures BuildAssignmentLine(key, value) == key + "=" + raw
    ensures raw != "" && raw[0] == '"'
  {
  }

  function QuotedKind(key: string, raw: string): LineKind {
    if DangerIn(raw).Some? then BashConstruct(DangerIn(raw).value) else Assignment(key, ExtractValue(raw))
  }

  lemma BuildParseQuoted(key: string, value: string)
    requires IsValidKey(key) && DangerIn(value).None? && NeedsQuotes(value)
    ensures ParseLine(BuildAssignmentLine(key, value)) == Assignment(key, value)
  {
    QuotedLine(key, value);
    TriggersAreUnquoted();
    QuotedTriggers(value, BASH_TRIGGERS);
    QuotedExtract(value);
  }

  lemma TriggersAreUnquoted()
    ensures forall t | t in BASH_TRIGGERS :: t.0 != "" && '"' !in t.0
  {
  }

  lemma BuildParseBare(key: string, value: string)
    requires IsValidKey(key) && OneLine(value) && DangerIn(value).None? && !NeedsQuotes(value)
    ensures ParseLine(BuildAssignmentLine(key, value)) == Assignment(key, ExtractValue(value))
  {
    OrdinaryValue(key, value);
    ParseKeyValue(key, value);
  }

  /** A written pair is read back as itself on its own line. */
  lemma BuildParse(key: string, value: string)
    requires IsValidKey(key) && Representable(value)
    ensures ParseLine(BuildAssignmentLine(key, value)) == Assignment(key, value)
  {
    if NeedsQuotes(value) {
      BuildParseQuoted(key, value);
    } else {
      BuildParseBare(key, value);
      assert TrimEndMatches(value, '\n') == value && TrimEndMatches(value, '\r') == value;
    }
  }

  /** A one-line value without triggers that is not representable is read back as another value. */
  lemma BuildParseDiffers(key: string, value: string) returns (other: string)
    requires IsValidKey(key) && OneLine(value) && DangerIn(value).None? && !Representable(value)
    ensures ParseLine(BuildAssignmentLine(key, value)) == Assignment(key, other) && other != value
  {
    BuildParseBare(key, value);
    other := ExtractValue(value);
    ExtractShortens(value);
  }

  /** What a harmless one-line value is read back as. */
  function ReadAs(value: string): string {
    if NeedsQuotes(value) then value else ExtractValue(value)
  }

  predicate Harmless(value: string) {
    OneLine(value) && DangerIn(value).None?
  }

  lemma BuildReads(key: string, value: string)
    requires IsValidKey(key) && Harmless(value)
    ensures ParseLine(BuildAssignmentLine(key, value)) == Assignment(key, ReadAs(value))
  {
    if NeedsQuotes(value) { BuildParseQuoted(key, value); } else { BuildParseBare(key, value); }
  }

  /** A harmless value is read back as itself exactly when it is representable. */
  lemma ReadsAsItself(value: string)
    requires Harmless(value)
    ensures ReadAs(value) == value <==> Representable(value)
  {
    if Representable(value) {
      if !NeedsQuotes(value) {
        assert TrimEndMatches(value, '\n') == value && TrimEndMatches(value, '\r') == value;
      }
    } else {
      ExtractShortens(value);
    }
  }

  lemma ExtractShortens(value: string)
    requires OneLine(value) && value != "" && (DoubleQuoted(value) || value[|value| - 1] == '\r')
    ensures |ExtractValue(value)| < |value|
  {
    assert TrimEndMatches(value, '\n') == value;
    var m := TrimEndMatchesSplit(value, '\r');
  }

  // ---------------------------------------------------------------------------
  // One line per key
  // ---------------------------------------------------------------------------

  lemma SplitAtFirstEquals(a: string, b: string, a': string, b': string)
    requires '=' !in a && '=' !in a' && a + "=" + b == a' + "=" + b'
    ensures a == a' && b == b'
  {
    IndexOfAppend(a, '=', b);
    IndexOfAppend(a', '=', b');
    var s := a + "=" + b;
    assert s[..|a|] == a && s[|a| + 1..] == b;
    assert s[..|a'|] == a' && s[|a'| + 1..] == b';
  }

  lemma ValidKeyHasNoEquals(key: string)
    requires IsValidKey(key)
    ensures '=' !in key && !IsWhitespace(key[0])
  {
    assert IsKeyChar(key[0]);
  }

  /** A line assigns at most one valid key. */
  lemma AssignsOneKey(line: string, k: string, k': string)
    requires IsValidKey(k) && IsValidKey(k') && IsAssignmentForKey(line, k) && IsAssignmentForKey(line, k')
    ensures k == k'
  {
    ValidKeyHasNoEquals(k);
    ValidKeyHasNoEquals(k');
    var s := TrimStart(line);
    assert s == k + "=" + s[|k| + 1..] && s == k' + "=" + s[|k'| + 1..];
    SplitAtFirstEquals(k, s[|k| + 1..], k', s[|k'| + 1..]);
  }

  lemma BuildAssigns(key: string, value: string)
    requires IsValidKey(key)
    ensures IsAssignmentForKey(BuildAssignmentLine(key, value), key)
  {
    ValidKeyHasNoEquals(key);
    assert TrimStart(BuildAssignmentLine(key, value)) == BuildAssignmentLine(key, value);
  }

  /** In an accepted file the editor and the parser agree on which lines assign a key. */
  lemma EditorAgreesWithParser(line: string, key: string)
    requires IsValidKey(key) && !ParseLine(line).BashConstruct?
    ensures IsAssignmentForKey(line, key) <==> ParseLine(line).Assignment? && ParseLine(line).key == key
  {
    ValidKeyHasNoEquals(key);
    if ParseLine(line).Assignment? {
      var k, raw := AssignmentForm(line);
      ValidKeyHasNoEquals(k);
      assert TrimStart(line) == line;
      if IsAssignmentForKey(line, key) {
        AssignsOneKey(line, key, k);
      }
    } else {
      AssignmentStart(line, key);
    }
  }

  lemma AssignmentStart(line: string, key: string)
    requires IsValidKey(key)
    ensures IsAssignmentForKey(line, key) ==>
      Trim(line) != "" && TrimStart(line) != "" && TrimStart(line)[0] == key[0]
  {
    if IsAssignmentForKey(line, key) {
      TrimNonBlank(TrimStart(line));
      assert TrimStart(line)[0] == key[0];
    }
  }

  lemma {:induction false} LastTrueFacts(marks: seq<bool>)
    ensures var i := LastTrue(marks);
      if i.Some? then i.value < |marks| && marks[i.value] && forall j | i.value < j < |marks| :: !marks[j]
      else forall j | 0 <= j < |marks| :: !marks[j]
  {
    if marks != [] {
      LastTrueFacts(marks[..|marks| - 1]);
    }
  }

  lemma {:induction false} LastTrueAppend(a: seq<bool>, b: seq<bool>)
    ensures LastTrue(a + b) == if LastTrue(b).Some? then Some(|a| + LastTrue(b).value) else LastTrue(a)
  {
    if b == [] {
      assert a + b == a;
    } else {
      assert (a + b)[..|a + b| - 1] == a + b[..|b| - 1];
      LastTrueAppend(a, b[..|b| - 1]);
    }
  }

  function OneHot(n: nat, p: Option<nat>): seq<bool> {
    seq(n, i => p == Some(i))
  }

  lemma LastTrueOneHot(n: nat, p: Option<nat>)
    requires p.Some? ==> p.value < n
    ensures LastTrue(OneHot(n, p)) == p
  {
    LastTrueFacts(OneHot(n, p));
    if p.Some? {
      assert OneHot(n, p)[p.value];
    }
  }

  lemma LastIndexInRange(lines: seq<string>, key: string)
    ensures var i := LastIndex(lines, key); i.Some? ==> i.value < |lines| && IsAssignmentForKey(lines[i.value], key)
  {
    LastTrueFacts(Marks(lines, key));
  }

  // ---------------------------------------------------------------------------
  // The edited lines in closed form
  // ---------------------------------------------------------------------------

  /** Line `i` after all changes: rewritten by the last change whose key it last assigned. */
  function PatchedLine(lines: seq<string>, i: nat, changes: seq<Change>): string
    requires i < |lines|
  {
    if changes == [] then lines[i]
    else
      var (key, value) := changes[|changes| - 1];
      if LastIndex(lines, key) == Some(i) then BuildAssignmentLine(key, value)
      else PatchedLine(lines, i, changes[..|changes| - 1])
  }

  /** The changed keys the file did not assign, in order of first mention. */
  function NewKeys(lines: seq<string>, changes: seq<Change>): seq<string> {
    if changes == [] then []
    else
      var earlier, key := NewKeys(lines, changes[..|changes| - 1]), changes[|changes| - 1].0;
      if LastIndex(lines, key).None? && key !in earlier then earlier + [key] else earlier
  }

  /** The line the last change of `key` writes. */
  function FinalLine(changes: seq<Change>, key: string): string {
    if changes == [] then ""
    else
      var (k, value) := changes[|changes| - 1];
      if k == key then BuildAssignmentLine(k, value) else FinalLine(changes[..|changes| - 1], key)
  }

  function PatchedLines(lines: seq<string>, changes: seq<Change>): seq<string> {
    seq(|lines|, i requires 0 <= i < |lines| => PatchedLine(lines, i, changes))
  }

  function AddedLines(lines: seq<string>, changes: seq<Change>): seq<string> {
    var added := NewKeys(lines, changes);
    seq(|added|, j requires 0 <= j < |added| => FinalLine(changes, added[j]))
  }

  function EditedLines(lines: seq<string>, changes: seq<Change>): seq<string> {
    PatchedLines(lines, changes) + AddedLines(lines, changes)
  }

  lemma {:induction false} NewKeysAreNew(lines: seq<string>, changes: seq<Change>, key: string)
    ensures key in NewKeys(lines, changes) ==> LastIndex(lines, key).None?
  {
    if changes != [] {
      NewKeysAreNew(lines, changes[..|changes| - 1], key);
    }
  }

  function PositionIn(keys: seq<string>, key: string): Option<nat> {
    if keys == [] then None
    else if keys[|keys| - 1] == key then Some(|keys| - 1)
    else PositionIn(keys[..|keys| - 1], key)
  }

  lemma {:induction false} PositionFound(keys: seq<string>, key: string)
    ensures PositionIn(keys, key).Some? <==> key in keys
    ensures PositionIn(keys, key).Some? ==>
      PositionIn(keys, key).value < |keys| && keys[PositionIn(keys, key).value] == key
  {
    if keys != [] {
      PositionFound(keys[..|keys| - 1], key);
    }
  }

  /** No key is appended twice. */
  lemma {:induction false} NewKeysAreDistinct(lines: seq<string>, changes: seq<Change>, key: string, j: nat)
    requires j < |NewKeys(lines, changes)|
    ensures NewKeys(lines, changes)[j] == key <==> PositionIn(NewKeys(lines, changes), key) == Some(j)
  {
    var added, earlier := NewKeys(lines, changes), NewKeys(lines, changes[..|changes| - 1]);
    PositionFound(added, key);
    PositionFound(earlier, key);
    if added != earlier {
      assert added[..|added| - 1] == earlier;
    }
    if j < |earlier| {
      NewKeysAreDistinct(lines, changes[..|changes| - 1], key, j);
    }
  }

  lemma {:induction false} NewKeyLine(lines: seq<string>, changes: seq<Change>, key: string)
    requires ValidKeys(changes) && key in NewKeys(lines, changes)
    ensures IsValidKey(key) && IsAssignmentForKey(FinalLine(changes, key), key)
  {
    var init, last := changes[..|changes| - 1], changes[|changes| - 1];
    assert last in changes;
    if last.0 == key {
      BuildAssigns(last.0, last.1);
    } else {
      assert forall c | c in init :: c in changes;
      NewKeyLine(lines, init, key);
    }
  }

  /** Rewriting a line keeps the key it assigns. */
  lemma {:induction false} PatchedLineKeepsKey(lines: seq<string>, i: nat, changes: seq<Change>, key: string)
    requires i < |lines| && ValidKeys(changes) && IsValidKey(key)
    ensures IsAssignmentForKey(PatchedLine(lines, i, changes), key) <==> IsAssignmentForKey(lines[i], key)
  {
    if changes != [] {
      var init, last := changes[..|changes| - 1], changes[|changes| - 1];
      var (k, value) := last;
      assert (k, value) in changes;
      if LastIndex(lines, k) == Some(i) {
        LastIndexInRange(lines, k);
        BuildAssigns(k, value);
        if IsAssignmentForKey(lines[i], key) {
          AssignsOneKey(lines[i], k, key);
        }
        if IsAssignmentForKey(BuildAssignmentLine(k, value), key) {
          AssignsOneKey(BuildAssignmentLine(k, value), k, key);
        }
      } else {
        assert forall c | c in init :: c in changes;
        PatchedLineKeepsKey(lines, i, init, key);
      }
    }
  }

  lemma AddedLineKey(lines: seq<string>, changes: seq<Change>, key: string, j: nat)
    requires ValidKeys(changes) && IsValidKey(key) && j < |NewKeys(lines, changes)|
    ensures IsAssignmentForKey(FinalLine(changes, NewKeys(lines, changes)[j]), key) <==>
      PositionIn(NewKeys(lines, changes), key) == Some(j)
  {
    var k := NewKeys(lines, changes)[j];
    NewKeyLine(lines, changes, k);
    NewKeysAreDistinct(lines, changes, key, j);
    if IsAssignmentForKey(FinalLine(changes, k), key) {
      AssignsOneKey(FinalLine(changes, k), k, key);
    }
  }

  lemma PatchedMarks(lines: seq<string>, changes: seq<Change>, key: string)
    requires ValidKeys(changes) && IsValidKey(key)
    ensures Marks(PatchedLines(lines, changes), key) == Marks(lines, key)
  {
    forall i | 0 <= i < |lines|
      ensures IsAssignmentForKey(PatchedLines(lines, changes)[i], key) == IsAssignmentForKey(lines[i], key)
    {
      PatchedLineKeepsKey(lines, i, changes, key);
    }
  }

  lemma AddedMarks(lines: seq<string>, changes: seq<Change>, key: string)
    requires ValidKeys(changes) && IsValidKey(key)
    ensures var added := NewKeys(lines, changes);
      Marks(AddedLines(lines, changes), key) == OneHot(|added|, PositionIn(added, key))
  {
    var added := NewKeys(lines, changes);
    forall j | 0 <= j < |added|
      ensures IsAssignmentForKey(AddedLines(lines, changes)[j], key) == (PositionIn(added, key) == Some(j))
    {
      AddedLineKey(lines, changes, key, j);
    }
  }

  lemma MarksAppend(a: seq<string>, b: seq<string>, key: string)
    ensures Marks(a + b, key) == Marks(a, key) + Marks(b, key)
  {
  }

  lemma LastIndexOfParts(lines: seq<string>, es: seq<string>, key: string, n: nat, p: Option<nat>)
    requires Marks(es, key) == Marks(lines, key) + OneHot(n, p)
    requires p.Some? ==> p.value < n
    ensures LastIndex(es, key) == if p.Some? then Some(|lines| + p.value) else LastIndex(lines, key)
  {
    LastTrueAppend(Marks(lines, key), OneHot(n, p));
    LastTrueOneHot(n, p);
  }

  /** Where the edited lines last assign a key. */
  lemma EditedLastIndex(lines: seq<string>, changes: seq<Change>, key: string, es: seq<string>, p: Option<nat>)
    requires ValidKeys(changes) && IsValidKey(key)
    requires es == EditedLines(lines, changes) && p == PositionIn(NewKeys(lines, changes), key)
    ensures LastIndex(es, key) == if p.Some? then Some(|lines| + p.value) else LastIndex(lines, key)
  {
    PositionFound(NewKeys(lines, changes), key);
    PatchedMarks(lines, changes, key);
    AddedMarks(lines, changes, key);
    MarksAppend(PatchedLines(lines, changes), AddedLines(lines, changes), key);
    LastIndexOfParts(lines, es, key, |NewKeys(lines, changes)|, p);
  }

  lemma StepRewritesOld(lines: seq<string>, init: seq<Change>, key: string, value: string)
    requires LastIndex(lines, key).Some? && LastIndex(lines, key).value < |lines|
    ensures EditedLines(lines, init + [(key, value)]) ==
      EditedLines(lines, init)[LastIndex(lines, key).value := BuildAssignmentLine(key, value)]
  {
    var changes := init + [(key, value)];
    assert changes[..|changes| - 1] == init;
    assert NewKeys(lines, changes) == NewKeys(lines, init);
    forall j | 0 <= j < |NewKeys(lines, init)| ensures NewKeys(lines, init)[j] != key {
      NewKeysAreNew(lines, init, key);
    }
  }

  lemma StepRewritesNew(lines: seq<string>, init: seq<Change>, key: string, value: string, p: nat)
    requires p < |NewKeys(lines, init)| && PositionIn(NewKeys(lines, init), key) == Some(p)
    ensures EditedLines(lines, init + [(key, value)]) ==
      EditedLines(lines, init)[|lines| + p := BuildAssignmentLine(key, value)]
  {
    var changes, added, n := init + [(key, value)], NewKeys(lines, init), |lines|;
    assert changes[..|changes| - 1] == init;
    PositionFound(added, key);
    NewKeysAreNew(lines, init, key);
    assert NewKeys(lines, changes) == added;
    var before, after := EditedLines(lines, init), EditedLines(lines, changes);
    forall i | 0 <= i < |after| ensures after[i] == before[n + p := BuildAssignmentLine(key, value)][i] {
      if i < n {
        assert PatchedLine(lines, i, changes) == PatchedLine(lines, i, init);
      } else {
        NewKeysAreDistinct(lines, init, key, i - n);
      }
    }
  }

  lemma StepAppends(lines: seq<string>, init: seq<Change>, key: string, value: string)
    requires LastIndex(lines, key).None? && key !in NewKeys(lines, init)
    ensures EditedLines(lines, init + [(key, value)]) == EditedLines(lines, init) + [BuildAssignmentLine(key, value)]
  {
    var changes := init + [(key, value)];
    assert changes[..|changes| - 1] == init;
    assert NewKeys(lines, changes) == NewKeys(lines, init) + [key];
  }

  /** One more change on the closed form is the closed form of one more change. */
  lemma EditedStep(lines: seq<string>, init: seq<Change>, key: string, value: string)
    requires ValidKeys(init) && IsValidKey(key)
    ensures PutLine(EditedLines(lines, init), key, BuildAssignmentLine(key, value)) ==
      EditedLines(lines, init + [(key, value)])
  {
    var p := PositionIn(NewKeys(lines, init), key);
    PositionFound(NewKeys(lines, init), key);
    EditedLastIndex(lines, init, key, EditedLines(lines, init), p);
    LastIndexInRange(lines, key);
    if p.Some? {
      StepRewritesNew(lines, init, key, value, p.value);
    } else if LastIndex(lines, key).Some? {
      StepRewritesOld(lines, init, key, value);
    } else {
      StepAppends(lines, init, key, value);
    }
  }

  /** Every line except the last assignment of a changed key stays in place unchanged, and
      the absent keys are appended in order: the edit loop yields the closed form. */
  lemma {:induction false} EditIsLocal(lines: seq<string>, changes: seq<Change>)
    requires ValidKeys(changes)
    ensures EditAll(lines, changes) == EditedLines(lines, changes)
  {
    if changes == [] {
      assert EditedLines(lines, []) == lines;
    } else {
      var init, last := changes[..|changes| - 1], changes[|changes| - 1];
      assert last in changes && changes == init + [(last.0, last.1)];
      assert forall c | c in init :: c in changes;
      EditIsLocal(lines, init);
      EditedStep(lines, init, last.0, last.1);
    }
  }

  // ---------------------------------------------------------------------------
  // The edited lines as a map
  // ---------------------------------------------------------------------------

  /** The parser's side of `PutLine`: which lines assign `key`, and one of them replaced. */
  function KeyMarks(kinds: seq<LineKind>, key: string): seq<bool> {
    seq(|kinds|, i requires 0 <= i < |kinds| => kinds[i].Assignment? && kinds[i].key == key)
  }

  function PutKind(kinds: seq<LineKind>, key: string, kind: LineKind): seq<LineKind> {
    var i := LastTrue(KeyMarks(kinds, key));
    if i.Some? && i.value < |kinds| then kinds[i.value := kind] else kinds + [kind]
  }

  lemma PutKindSplit(init: seq<LineKind>, last: LineKind, key: string, kind: LineKind)
    ensures PutKind(init + [last], key, kind) ==
      if last.Assignment? && last.key == key then init + [kind]
      else if LastTrue(KeyMarks(init, key)).Some? then PutKind(init, key, kind) + [last]
      else init + [last] + [kind]
  {
    var kinds := init + [last];
    assert KeyMarks(kinds, key)[..|init|] == KeyMarks(init, key);
    LastTrueFacts(KeyMarks(init, key));
  }

  lemma PutKindAccepted(kinds: seq<LineKind>, key: string, kind: LineKind)
    requires NoConstruct(kinds) && !kind.BashConstruct?
    ensures NoConstruct(PutKind(kinds, key, kind))
  {
  }

  lemma AssignedCommutes(values: map<string, string>, kind: LineKind, key: string, value: string)
    ensures Assigned(values[key := value], kind) ==
      if kind.Assignment? && kind.key == key then Assigned(values, kind) else Assigned(values, kind)[key := value]
    ensures kind.Assignment? && kind.key == key ==> Assigned(values, kind)[key := value] == values[key := value]
  {
  }

  /** Replacing the last assignment of a key, or appending one, updates the map at that key
      and nowhere else. */
  lemma {:induction false} PutKindValues(kinds: seq<LineKind>, key: string, value: string)
    ensures ValuesOf(PutKind(kinds, key, Assignment(key, value))) == ValuesOf(kinds)[key := value]
  {
    var kind := Assignment(key, value);
    KindsGrow(kinds, kind);
    if kinds != [] {
      var init, last := kinds[..|kinds| - 1], kinds[|kinds| - 1];
      assert kinds == init + [last];
      PutKindSplit(init, last, key, kind);
      AssignedCommutes(ValuesOf(init), last, key, value);
      if last.Assignment? && last.key == key {
        KindsGrow(init, kind);
      } else if LastTrue(KeyMarks(init, key)).Some? {
        PutKindValues(init, key, value);
        KindsGrow(PutKind(init, key, kind), last);
      }
    }
  }

  lemma PutLineKinds(lines: seq<string>, key: string, line: string)
    requires Accepted(lines) && IsValidKey(key)
    ensures Kinds(PutLine(lines, key, line)) == PutKind(Kinds(lines), key, ParseLine(line))
  {
    var kinds := Kinds(lines);
    forall i | 0 <= i < |lines| ensures Marks(lines, key)[i] == KeyMarks(kinds, key)[i] {
      assert !kinds[i].BashConstruct?;
      EditorAgreesWithParser(lines[i], key);
    }
    assert Marks(lines, key) == KeyMarks(kinds, key);
    LastIndexInRange(lines, key);
  }

  /** One new assignment line updates the map at its key and nowhere else. */
  lemma PutLineValues(lines: seq<string>, key: string, line: string, value: string)
    requires Accepted(lines) && IsValidKey(key) && ParseLine(line) == Assignment(key, value)
    ensures Accepted(PutLine(lines, key, line))
    ensures Values(PutLine(lines, key, line)) == Values(lines)[key := value]
  {
    PutLineKinds(lines, key, line);
    PutKindAccepted(Kinds(lines), key, ParseLine(line));
    PutKindValues(Kinds(lines), key, value);
  }

  /** Valid keys and harmless values. */
  predicate HarmlessChanges(changes: seq<Change>) {
    forall c | c in changes :: IsValidKey(c.0) && Harmless(c.1)
  }

  /** The changes as they are read back. */
  function ReadChanges(changes: seq<Change>): seq<Change> {
    seq(|changes|, i requires 0 <= i < |changes| => (changes[i].0, ReadAs(changes[i].1)))
  }

  lemma ReadOneMore(edited: seq<string>, key: string, value: string)
    requires Accepted(edited) && IsValidKey(key) && Harmless(value)
    ensures
      var after := PutLine(edited, key, BuildAssignmentLine(key, value));
      Accepted(after) && Values(after) == Values(edited)[key := ReadAs(value)]
  {
    BuildReads(key, value);
    PutLineValues(edited, key, BuildAssignmentLine(key, value), ReadAs(value));
  }

  lemma UpdateOneMore(values: map<string, string>, changes: seq<Change>)
    requires changes != []
    ensures
      var (init, last) := (changes[..|changes| - 1], changes[|changes| - 1]);
      UpdateAll(values, ReadChanges(changes)) == UpdateAll(values, ReadChanges(init))[last.0 := ReadAs(last.1)]
  {
    assert ReadChanges(changes)[..|changes| - 1] == ReadChanges(changes[..|changes| - 1]);
  }

  lemma HarmlessInit(changes: seq<Change>)
    requires HarmlessChanges(changes) && changes != []
    ensures HarmlessChanges(changes[..|changes| - 1])
    ensures IsValidKey(changes[|changes| - 1].0) && Harmless(changes[|changes| - 1].1)
  {
    assert changes[|changes| - 1] in changes;
  }

  /** The lines are accepted and read as `values`. */
  predicate Reads(lines: seq<string>, values: map<string, string>) {
    Accepted(lines) && Values(lines) == values
  }

  /** The edited lines are accepted, and read as the map updated by the changes as read back. */
  lemma {:induction false} EditAllReads(lines: seq<string>, changes: seq<Change>, values: map<string, string>)
    requires Reads(lines, values) && HarmlessChanges(changes)
    ensures Reads(EditAll(lines, changes), UpdateAll(values, ReadChanges(changes)))
  {
    if changes != [] {
      var (init, last) := (changes[..|changes| - 1], changes[|changes| - 1]);
      HarmlessInit(changes);
      EditAllReads(lines, init, values);
      ReadOneMore(EditAll(lines, init), last.0, last.1);
      UpdateOneMore(values, changes);
    }
  }

  lemma GoodChangesRead(changes: seq<Change>)
    requires GoodChanges(changes)
    ensures HarmlessChanges(changes) && ReadChanges(changes) == changes
  {
    forall i | 0 <= i < |changes| ensures ReadChanges(changes)[i] == changes[i] {
      assert changes[i] in changes;
      ReadsAsItself(changes[i].1);
    }
  }

  lemma EditAllValues(lines: seq<string>, changes: seq<Change>)
    requires Accepted(lines) && GoodChanges(changes)
    ensures Accepted(EditAll(lines, changes))
    ensures Values(EditAll(lines, changes)) == UpdateAll(Values(lines), changes)
  {
    GoodChangesRead(changes);
    EditAllReads(lines, changes, Values(lines));
  }

  lemma BuildOneLine(key: string, value: string)
    requires IsValidKey(key) && OneLine(value)
    ensures OneLine(BuildAssignmentLine(key, value))
  {
    assert forall i | 0 <= i < |key| :: IsKeyChar(key[i]);
  }

  lemma {:induction false} EditAllOneLine(lines: seq<string>, changes: seq<Change>)
    requires AllOneLine(lines) && forall c | c in changes :: IsValidKey(c.0) && OneLine(c.1)
    ensures AllOneLine(EditAll(lines, changes))
  {
    if changes != [] {
      var init, last := changes[..|changes| - 1], changes[|changes| - 1];
      var (key, value) := last;
      assert (key, value) in changes;
      assert forall c | c in init :: c in changes;
      EditAllOneLine(lines, init);
      BuildOneLine(key, value);
    }
  }

  // ---------------------------------------------------------------------------
  // Reading the written file
  // ---------------------------------------------------------------------------

  lemma StrippedKinds(lines: seq<string>)
    requires AllOneLine(lines) && Accepted(lines)
    ensures Kinds(StripAll(lines)) == Kinds(lines)
  {
    forall i | 0 <= i < |lines| ensures ParseLine(StripAll(lines)[i]) == ParseLine(lines[i]) {
      assert !Kinds(lines)[i].BashConstruct?;
      CrKeepsMeaning(lines[i]);
    }
  }

  lemma ReadBackLines(lines: seq<string>)
    requires AllOneLine(lines)
    ensures Lines(FileText(lines)) == if lines == [] then [""] else StripAll(lines)
  {
    if lines == [] {
      LinesOfUnlines([""]);
      JoinIsUnlines([""]);
      assert StripAll([""]) == [""];
    } else {
      JoinIsUnlines(lines);
      LinesOfUnlines(lines);
    }
  }

  /** Writing accepted lines and reading the file back: accepted, with the same map. */
  lemma ReadBack(lines: seq<string>)
    requires AllOneLine(lines) && Accepted(lines)
    ensures Accepted(Lines(FileText(lines)))
    ensures ConfigOf(FileText(lines)).values == Values(lines)
  {
    ReadBackLines(lines);
    if lines == [] {
      assert Trim("") == "" && ParseLine("") == Blank;
      ValuesGrow([], "");
      assert [] + [""] == [""];
    } else {
      StrippedKinds(lines);
    }
  }

  /** The text edit refines the map update: for any accepted text, with any line endings, and
      any list of changes with valid keys and representable values, the written file is
      accepted again, reads back as the old map with the changes applied, and its lines are
      the closed form, up to one trailing carriage return per line. */
  lemma EditRefinesMapUpdate(text: string, changes: seq<Change>)
    requires Accepted(Lines(text)) && GoodChanges(changes)
    ensures Accepted(Lines(EditedText(text, changes)))
    ensures ConfigOf(EditedText(text, changes)).values == UpdateAll(ConfigOf(text).values, changes)
    ensures EditedLines(Lines(text), changes) != [] ==>
      Lines(EditedText(text, changes)) == StripAll(EditedLines(Lines(text), changes))
  {
    var lines := Lines(text);
    LinesAreOneLine(text);
    EditAllOneLine(lines, changes);
    EditAllValues(lines, changes);
    ReadBack(EditAll(lines, changes));
    ReadBackLines(EditAll(lines, changes));
    EditIsLocal(lines, changes);
  }

  predicate DistinctKeys(changes: seq<Change>) {
    forall i, j | 0 <= i < j < |changes| :: changes[i].0 != changes[j].0
  }

  lemma {:induction false} UpdateAllHas(values: map<string, string>, changes: seq<Change>, j: nat)
    requires DistinctKeys(changes) && j < |changes|
    ensures changes[j].0 in UpdateAll(values, changes) && UpdateAll(values, changes)[changes[j].0] == changes[j].1
  {
    var init := changes[..|changes| - 1];
    if j < |init| {
      UpdateAllHas(values, init, j);
      assert changes[j].0 != changes[|changes| - 1].0;
    }
  }

  lemma DistinctKeysRead(changes: seq<Change>)
    requires DistinctKeys(changes)
    ensures DistinctKeys(ReadChanges(changes))
  {
    forall i, j | 0 <= i < j < |changes| ensures ReadChanges(changes)[i].0 != ReadChanges(changes)[j].0 {
      assert changes[i].0 != changes[j].0;
    }
  }

  lemma PutLineHolds(lines: seq<string>, key: string, line: string) returns (i: nat)
    ensures i < |PutLine(lines, key, line)| && PutLine(lines, key, line)[i] == line
  {
    LastIndexInRange(lines, key);
    var last := LastIndex(lines, key);
    i := if last.Some? then last.value else |lines|;
  }

  lemma PutLineKeeps(lines: seq<string>, key: string, line: string, i: nat)
    requires i < |lines| && !IsAssignmentForKey(lines[i], key)
    ensures i < |PutLine(lines, key, line)| && PutLine(lines, key, line)[i] == lines[i]
  {
    LastIndexInRange(lines, key);
  }

  /** With distinct keys, the line written for each change stays. */
  lemma {:induction false} EditAllHolds(lines: seq<string>, changes: seq<Change>, j: nat) returns (i: nat)
    requires DistinctKeys(changes) && ValidKeys(changes) && j < |changes|
    ensures i < |EditAll(lines, changes)|
    ensures EditAll(lines, changes)[i] == BuildAssignmentLine(changes[j].0, changes[j].1)
  {
    var init, last := changes[..|changes| - 1], changes[|changes| - 1];
    var before := EditAll(lines, init);
    var line := BuildAssignmentLine(last.0, last.1);
    assert changes[j] in changes && last in changes;
    if j == |init| {
      i := PutLineHolds(before, last.0, line);
    } else {
      assert forall c | c in init :: c in changes;
      i := EditAllHolds(lines, init, j);
      BuildAssigns(changes[j].0, changes[j].1);
      if IsAssignmentForKey(before[i], last.0) { AssignsOneKey(before[i], changes[j].0, last.0); }
      PutLineKeeps(before, last.0, line, i);
    }
  }

  /** What a file that comes back says of each change: its key is valid, its value is one line,
      and harmless unless it is the vendor expression. */
  lemma ChangeIsHoldable(text: string, changes: seq<Change>, values: map<string, string>, j: nat)
    requires DistinctKeys(changes) && j < |changes|
    requires Accepted(Lines(text)) && ConfigOf(text).values == UpdateAll(values, changes)
    ensures Holdable(changes[j].0, changes[j].1)
  {
    UpdateAllHas(values, changes, j);
    LinesAreOneLine(text);
    ValuesAreHoldable(Lines(text), changes[j].0);
  }

  /** The vendor expression among the changes makes the written file unreadable. */
  lemma VendorEditIsRejected(lines: seq<string>, changes: seq<Change>, j: nat)
    requires AllOneLine(lines) && DistinctKeys(changes) && j < |changes|
    requires forall c | c in changes :: IsValidKey(c.0) && OneLine(c.1)
    requires changes[j] == ("GRUB_DISTRIBUTOR", UBUNTU_OS_RELEASE_DISTRIBUTOR)
    ensures !Accepted(Lines(FileText(EditAll(lines, changes))))
  {
    var (key, raw) := changes[j];
    var edited := EditAll(lines, changes);
    var i := EditAllHolds(lines, changes, j);
    VendorLineIsRejected(key, raw);
    EditAllOneLine(lines, changes);
    ReadBackLines(edited);
    assert StripCr(edited[i]) == edited[i];
    assert Kinds(StripAll(edited))[i].BashConstruct?;
  }

  /** Changes that come back are good: the harmless ones are read as themselves. */
  lemma ComesBackAsItself(text: string, changes: seq<Change>)
    requires Accepted(Lines(text)) && DistinctKeys(changes) && HarmlessChanges(changes)
    requires ConfigOf(EditedText(text, changes)).values == UpdateAll(ConfigOf(text).values, changes)
    ensures GoodChanges(changes)
  {
    var (lines, values) := (Lines(text), ConfigOf(text).values);
    LinesAreOneLine(text);
    EditAllReads(lines, changes, Values(lines));
    EditAllOneLine(lines, changes);
    ReadBack(EditAll(lines, changes));
    DistinctKeysRead(changes);
    forall j | 0 <= j < |changes| ensures Representable(changes[j].1) {
      assert changes[j] in changes;
      UpdateAllHas(values, changes, j);
      UpdateAllHas(values, ReadChanges(changes), j);
      ReadsAsItself(changes[j].1);
    }
  }

  /** Changes of distinct keys come back exactly when all their keys are valid and all their values
      representable: with any other, whatever the file, the result is rejected or differs. */
  lemma EditExact(text: string, changes: seq<Change>)
    requires Accepted(Lines(text)) && DistinctKeys(changes)
    ensures (Accepted(Lines(EditedText(text, changes)))
             && ConfigOf(EditedText(text, changes)).values == UpdateAll(ConfigOf(text).values, changes))
      <==> GoodChanges(changes)
  {
    var (after, values) := (EditedText(text, changes), ConfigOf(text).values);
    if GoodChanges(changes) {
      EditRefinesMapUpdate(text, changes);
    } else if Accepted(Lines(after)) && ConfigOf(after).values == UpdateAll(values, changes) {
      forall j | 0 <= j < |changes| ensures Holdable(changes[j].0, changes[j].1) {
        ChangeIsHoldable(after, changes, values, j);
      }
      LinesAreOneLine(text);
      if j :| 0 <= j < |changes| && changes[j] == ("GRUB_DISTRIBUTOR", UBUNTU_OS_RELEASE_DISTRIBUTOR) {
        VendorEditIsRejected(Lines(text), changes, j);
      } else {
        ComesBackAsItself(text, changes);
      }
    }
  }

  /** One change comes back exactly when its key is valid and its value is representable. */
  lemma SingleEditExact(text: string, key: string, value: string)
    requires Accepted(Lines(text))
    ensures (Accepted(Lines(EditedText(text, [(key, value)]))) &&
             ConfigOf(EditedText(text, [(key, value)])).values == ConfigOf(text).values[key := value])
      <==> IsValidKey(key) && Representable(value)
  {
    var changes := [(key, value)];
    var before := ConfigOf(text).values;
    assert changes[..0] == [] && UpdateAll(before, changes) == before[key := value];
    EditExact(text, changes);
    assert GoodChanges(changes) <==> IsValidKey(changes[0].0) && Representable(changes[0].1);
  }

  lemma VendorKeyIsValid()
    ensures IsValidKey("GRUB_DISTRIBUTOR")
  {
    assert forall i | 0 <= i < |"GRUB_DISTRIBUTOR"| :: IsKeyChar("GRUB_DISTRIBUTOR"[i]);
  }

  lemma QuotedIsRejected(key: string, value: string)
    requires IsValidKey(key) && value != "" && value[0] == '`' && NeedsQuotes(value)
    ensures ParseLine(BuildAssignmentLine(key, value)).BashConstruct?
  {
    QuotedLine(key, value);
    BacktickIsDangerous("\"" + value + "\"", 1);
  }

  /** The one shell expression the reader accepts cannot be written: the writer quotes it,
      and the quoted form is rejected on the next read. */
  lemma VendorLineIsRejected(key: string, raw: string)
    requires key == "GRUB_DISTRIBUTOR" && raw == UBUNTU_OS_RELEASE_DISTRIBUTOR
    ensures ParseLine(key + "=" + raw) == Assignment(key, raw)
    ensures ParseLine(BuildAssignmentLine(key, raw)).BashConstruct?
    ensures BuildAssignmentLine(key, raw)[|BuildAssignmentLine(key, raw)| - 1] == '"'
  {
    VendorKeyIsValid();
    UbuntuStart();
    ParseKeyValue(key, raw);
    assert raw[2] == ' ';
    QuotedIsRejected(key, raw);
  }
}
