/** The strict-subset parser for `/etc/default/grub`. */
module GrubConfig {
  import opened Text

  datatype LineKind =
    | Blank
    | Comment
    | Assignment(key: string, value: string)
    | BashConstruct(offender: string)

  datatype Result<+T> = Ok(value: T) | ComplexBashDetected(offender: string)

  /** All lines of the file in order, and the value each key ends up with. */
  datatype Config = Config(lines: seq<string>, values: map<string, string>)

  type Described = (string, string)

  const BASH_TRIGGERS: seq<Described> := [
    ("$(", "subshell: $(...)"), ("`", "backtick subshell"), ("<<", "here-document"),
    ("|", "pipe operator"), ("{", "compound command block")]

  const UBUNTU_OS_RELEASE_DISTRIBUTOR := "`( . /etc/os-release && echo ${NAME} )`"

  const BASH_KEYWORD_PREFIXES: seq<Described> := [
    ("if ", "if-statement"), ("if[", "if-statement (bracket)"), ("for ", "for-loop"), ("while ", "while-loop"),
    ("until ", "until-loop"), ("case ", "case-statement"), ("fi", "fi (end of if-statement)"),
    ("done", "done (end of loop)"), ("esac", "esac (end of case)"), ("do ", "do-keyword"), ("then", "then-keyword"),
    ("else", "else-keyword"), ("elif ", "elif-keyword"), ("function ", "function-definition"),
    ("export ", "export-keyword"), ("source ", "source-keyword"), (". ", "source-dot operator"),
    ("local ", "local-keyword"), ("unset ", "unset-keyword"), ("declare ", "declare-keyword"),
    ("typeset ", "typeset-keyword"), ("readonly ", "readonly-keyword"), ("return ", "return-keyword"),
    ("trap ", "trap-keyword"), ("eval ", "eval-keyword")]

  /** Description of the first trigger contained in `s`. */
  function FirstTrigger(s: string, triggers: seq<Described>): Option<string> {
    if triggers == [] then None
    else if Contains(s, triggers[0].0) then Some(triggers[0].1)
    else FirstTrigger(s, triggers[1..])
  }

  function FirstKeyword(trimmed: string, prefixes: seq<Described>): Option<string> {
    if prefixes == [] then None
    else if prefixes[0].0 <= trimmed || trimmed == TrimEnd(prefixes[0].0) then Some(prefixes[0].1)
    else FirstKeyword(trimmed, prefixes[1..])
  }

  /** `detect_dangerous_value`. */
  function DangerIn(value: string): Option<string> {
    FirstTrigger(value, BASH_TRIGGERS)
  }

  function Offender(line: string): string {
    var byTrigger := FirstTrigger(line, BASH_TRIGGERS);
    var byKeyword := FirstKeyword(TrimStart(line), BASH_KEYWORD_PREFIXES);
    if byTrigger.Some? then byTrigger.value
    else if byKeyword.Some? then byKeyword.value
    else "unrecognised non-assignment statement"
  }

  predicate IsAlpha(c: char) {
    'a' <= c <= 'z' || 'A' <= c <= 'Z' || c == '_'
  }

  predicate IsKeyChar(c: char) {
    IsAlpha(c) || '0' <= c <= '9'
  }

  predicate IsValidKey(key: string) {
    key != "" && IsAlpha(key[0]) && forall i | 0 <= i < |key| :: IsKeyChar(key[i])
  }

  function TrimEndMatches(s: string, c: char): string {
    if s != "" && s[|s| - 1] == c then TrimEndMatches(s[..|s| - 1], c) else s
  }

  predicate DoubleQuoted(s: string) {
    |s| >= 2 && s[0] == '"' && s[|s| - 1] == '"'
  }

  function ExtractValue(raw: string): string {
    var stripped := TrimEndMatches(TrimEndMatches(raw, '\n'), '\r');
    if DoubleQuoted(stripped) then stripped[1..|stripped| - 1] else stripped
  }

  function ParseValue(key: string, raw: string): LineKind {
    if key == "GRUB_DISTRIBUTOR" && raw == UBUNTU_OS_RELEASE_DISTRIBUTOR then Assignment(key, raw)
    else if DangerIn(raw).Some? then BashConstruct(DangerIn(raw).value)
    else Assignment(key, ExtractValue(raw))
  }

  /** `parse_line`. */
  function ParseLine(line: string): LineKind {
    var eq := IndexOf(line, '=');
    if Trim(line) == "" then Blank
    else if TrimStart(line) != "" && TrimStart(line)[0] == '#' then Comment
    else if eq < |line| && IsValidKey(line[..eq]) then ParseValue(line[..eq], line[eq + 1..])
    else BashConstruct(Offender(line))
  }

  function Kinds(lines: seq<string>): seq<LineKind> {
    seq(|lines|, i requires 0 <= i < |lines| => ParseLine(lines[i]))
  }

  predicate NoConstruct(kinds: seq<LineKind>) {
    forall i | 0 <= i < |kinds| :: !kinds[i].BashConstruct?
  }

  predicate Accepted(lines: seq<string>) {
    NoConstruct(Kinds(lines))
  }

  /** The last assignment of a key is the one that counts. */
  function ValuesOf(kinds: seq<LineKind>): map<string, string> {
    if kinds == [] then map[] else Assigned(ValuesOf(kinds[..|kinds| - 1]), kinds[|kinds| - 1])
  }

  function Assigned(values: map<string, string>, kind: LineKind): map<string, string> {
    if kind.Assignment? then values[kind.key := kind.value] else values
  }

  function Values(lines: seq<string>): map<string, string> {
    ValuesOf(Kinds(lines))
  }

  lemma ValuesGrow(lines: seq<string>, line: string)
    ensures Kinds(lines + [line]) == Kinds(lines) + [ParseLine(line)]
    ensures Values(lines + [line]) == Assigned(Values(lines), ParseLine(line))
    ensures Accepted(lines + [line]) <==> Accepted(lines) && !ParseLine(line).BashConstruct?
  {
    KindsGrow(Kinds(lines), ParseLine(line));
    assert Kinds(lines + [line]) == Kinds(lines) + [ParseLine(line)];
  }

  lemma KindsGrow(kinds: seq<LineKind>, kind: LineKind)
    ensures ValuesOf(kinds + [kind]) == Assigned(ValuesOf(kinds), kind)
    ensures NoConstruct(kinds + [kind]) <==> NoConstruct(kinds) && !kind.BashConstruct?
  {
    var all := kinds + [kind];
    assert all[..|all| - 1] == kinds;
    if NoConstruct(all) {
      assert all[|kinds|] == kind;
      forall i | 0 <= i < |kinds| ensures !kinds[i].BashConstruct? {
        assert all[i] == kinds[i];
      }
    }
  }

  /** What is read from `text` when it is accepted. */
  function ConfigOf(text: string): Config {
    Config(Lines(text), Values(Lines(text)))
  }

  /** The first line that is not accepted is the one reported. */
  ghost predicate FirstOffence(lines: seq<string>, offender: string) {
    exists i | 0 <= i < |lines| :: Accepted(lines[..i]) && ParseLine(lines[i]) == BashConstruct(offender)
  }

  lemma OffenceFound(lines: seq<string>, i: nat)
    requires i < |lines| && Accepted(lines[..i]) && ParseLine(lines[i]).BashConstruct?
    ensures FirstOffence(lines, ParseLine(lines[i]).offender) && !Accepted(lines)
  {
    assert Kinds(lines)[i].BashConstruct?;
  }

  /** `parse_grub_config`. */
  method ParseGrubConfig(input: string) returns (r: Result<Config>)
    ensures r.Ok? <==> Accepted(Lines(input))
    ensures r.Ok? ==> r.value == ConfigOf(input)
    ensures r.ComplexBashDetected? ==> FirstOffence(Lines(input), r.offender)
  {
    var raw := Lines(input);
    var lines: seq<string>, values: map<string, string> := [], map[];
    var i := 0;
    while i < |raw|
      invariant i <= |raw|
      invariant lines == raw[..i] && Accepted(lines) && values == Values(lines)
    {
      OneMoreLine(raw, i);
      lines := lines + [raw[i]];
      match ParseLine(raw[i]) {
        case Blank =>
        case Comment =>
        case Assignment(key, value) =>
          values := values[key := value];
        case BashConstruct(offender) =>
          OffenceFound(raw, i);
          return ComplexBashDetected(offender);
      }
      i := i + 1;
    }
    assert raw[..|raw|] == raw;
    return Ok(Config(lines, values));
  }

  lemma OneMoreLine(lines: seq<string>, i: nat)
    requires i < |lines|
    ensures lines[..i + 1] == lines[..i] + [lines[i]]
    ensures Values(lines[..i + 1]) == Assigned(Values(lines[..i]), ParseLine(lines[i]))
    ensures Accepted(lines[..i + 1]) <==> Accepted(lines[..i]) && !ParseLine(lines[i]).BashConstruct?
  {
    ValuesGrow(lines[..i], lines[i]);
    assert lines[..i + 1] == lines[..i] + [lines[i]];
  }

  /** `key=raw` is read as an assignment whatever white space surrounds or fills `raw`. */
  lemma ParseKeyValue(key: string, raw: string)
    requires IsValidKey(key)
    ensures ParseLine(key + "=" + raw) == ParseValue(key, raw)
  {
    var line := key + "=" + raw;
    assert '=' !in key;
    IndexOfAppend(key, '=', raw);
    assert line[..|key|] == key && line[|key| + 1..] == raw;
    assert IsKeyChar(line[0]);
    TrimNonBlank(line);
  }

  /** Every assignment line is its key, `=`, and the raw text of its value. */
  lemma AssignmentForm(line: string) returns (key: string, raw: string)
    requires ParseLine(line).Assignment?
    ensures IsValidKey(key) && line == key + "=" + raw && ParseLine(line) == ParseValue(key, raw)
  {
    var eq := IndexOf(line, '=');
    key, raw := line[..eq], line[eq + 1..];
    SplitAtEquals(line, eq);
  }

  lemma SplitAtEquals(line: string, eq: nat)
    requires eq < |line| && line[eq] == '='
    ensures line == line[..eq] + "=" + line[eq + 1..]
  {
  }

  // ---------------------------------------------------------------------------
  // What an accepted file can say
  // ---------------------------------------------------------------------------

  lemma {:induction false} TrimEndMatchesSplit(s: string, c: char) returns (n: nat)
    ensures n <= |s| && TrimEndMatches(s, c) == s[..n]
    ensures n > 0 ==> s[n - 1] != c
    ensures forall i | n <= i < |s| :: s[i] == c
  {
    if s != "" && s[|s| - 1] == c {
      n := TrimEndMatchesSplit(s[..|s| - 1], c);
    } else {
      n := |s|;
    }
  }

  lemma ContainsInPart(s: string, a: nat, b: nat, needle: string)
    requires a <= b <= |s| && Contains(s[a..b], needle)
    ensures Contains(s, needle)
  {
    var i :| 0 <= i <= b - a && needle <= s[a..b][i..];
    var part := s[a..b];
    forall j | 0 <= j < |needle| ensures s[a + i..][j] == needle[j] {
      assert part[i..][j] == needle[j] && part[i..][j] == part[i + j] && part[i + j] == s[a + i + j];
    }
    assert s[a + i..][..|needle|] == needle;
  }

  lemma {:induction false} NoTriggerInPart(s: string, a: nat, b: nat, triggers: seq<Described>)
    requires a <= b <= |s| && FirstTrigger(s, triggers).None?
    ensures FirstTrigger(s[a..b], triggers).None?
  {
    if triggers != [] {
      if Contains(s[a..b], triggers[0].0) {
        ContainsInPart(s, a, b, triggers[0].0);
      } else {
        NoTriggerInPart(s, a, b, triggers[1..]);
      }
    }
  }

  lemma SliceOfPrefix(s: string, m: nat, a: nat, b: nat)
    requires a <= b <= m <= |s|
    ensures s[..m][a..b] == s[a..b]
  {
  }

  /** An extracted value is a stretch of the raw text. */
  lemma ExtractValueIsPart(raw: string) returns (a: nat, b: nat)
    ensures a <= b <= |raw| && ExtractValue(raw) == raw[a..b]
  {
    var n := TrimEndMatchesSplit(raw, '\n');
    var m := TrimEndMatchesSplit(raw[..n], '\r');
    var stripped := raw[..m];
    assert raw[..n][..m] == stripped;
    if DoubleQuoted(stripped) {
      a, b := 1, m - 1;
      SliceOfPrefix(raw, m, a, b);
    } else {
      a, b := 0, m;
    }
  }

  /** A pair an accepted file can hold: a valid key and a one-line value without triggers,
      or the one vendor expression. */
  predicate Holdable(key: string, value: string) {
    IsValidKey(key) && OneLine(value) &&
    (DangerIn(value).None? || (key == "GRUB_DISTRIBUTOR" && value == UBUNTU_OS_RELEASE_DISTRIBUTOR))
  }

  lemma ParsedValueIsHoldable(key: string, raw: string)
    requires IsValidKey(key) && OneLine(raw) && ParseValue(key, raw).Assignment?
    ensures Holdable(key, ParseValue(key, raw).value)
  {
    if DangerIn(raw).None? {
      var a, b := ExtractValueIsPart(raw);
      NoTriggerInPart(raw, a, b, BASH_TRIGGERS);
    }
  }

  lemma AssignmentIsHoldable(line: string)
    requires OneLine(line) && ParseLine(line).Assignment?
    ensures Holdable(ParseLine(line).key, ParseLine(line).value)
  {
    var key, raw := AssignmentForm(line);
    ParsedValueIsHoldable(key, raw);
  }

  /** Nothing else ever comes out of the parser. */
  lemma {:induction false} ValuesAreHoldable(lines: seq<string>, key: string)
    requires AllOneLine(lines) && key in Values(lines)
    ensures Holdable(key, Values(lines)[key])
  {
    var init, last := lines[..|lines| - 1], lines[|lines| - 1];
    assert lines == init + [last];
    ValuesGrow(init, last);
    if ParseLine(last).Assignment? && ParseLine(last).key == key {
      AssignmentIsHoldable(last);
    } else {
      ValuesAreHoldable(init, key);
    }
  }

  // ---------------------------------------------------------------------------
  // Carriage returns
  // ---------------------------------------------------------------------------

  lemma {:induction false} TrimStartOfPrefix(s: string)
    requires s != "" && TrimStart(s) != "" && IsWhitespace(s[|s| - 1])
    ensures TrimStart(s[..|s| - 1]) == TrimStart(s)[..|TrimStart(s)| - 1]
  {
    if IsWhitespace(s[0]) {
      if |s| > 1 {
        assert s[1..][..|s| - 2] == s[..|s| - 1][1..];
        TrimStartOfPrefix(s[1..]);
      }
    }
  }

  /** An accepted line means the same with or without one trailing carriage return. */
  lemma CrKeepsMeaning(line: string)
    requires OneLine(line) && !ParseLine(line).BashConstruct?
    ensures ParseLine(StripCr(line)) == ParseLine(line)
  {
    var short := StripCr(line);
    if short != line {
      TrimIgnoresCr(line);
      if ParseLine(line).Comment? {
        TrimStartOfPrefix(line);
      } else if ParseLine(line).Assignment? {
        AssignmentWithCr(line);
      }
    }
  }

  lemma ValueWithCr(key: string, rest: string)
    requires OneLine(rest) && ParseValue(key, rest + "\r").Assignment?
    ensures ParseValue(key, rest) == ParseValue(key, rest + "\r")
  {
    var raw := rest + "\r";
    assert raw[|rest|] == '\r';
    assert raw != UBUNTU_OS_RELEASE_DISTRIBUTOR;
    NoTriggerInPart(raw, 0, |rest|, BASH_TRIGGERS);
    assert raw[0..|rest|] == rest;
    UbuntuIsDangerous();
    assert TrimEndMatches(raw, '\n') == raw && TrimEndMatches(rest, '\n') == rest;
    assert raw[..|raw| - 1] == rest;
  }

  lemma AssignmentWithCr(line: string)
    requires OneLine(line) && ParseLine(line).Assignment? && line[|line| - 1] == '\r'
    ensures ParseLine(line[..|line| - 1]) == ParseLine(line)
  {
    var key, raw := AssignmentForm(line);
    AssignmentWithoutCr(line, key, raw);
  }

  lemma AssignmentWithoutCr(line: string, key: string, raw: string)
    requires IsValidKey(key) && line == key + "=" + raw && line[|line| - 1] == '\r'
    requires OneLine(raw) && ParseValue(key, raw).Assignment?
    ensures ParseLine(line[..|line| - 1]) == ParseValue(key, raw)
  {
    assert raw != "";
    var rest := raw[..|raw| - 1];
    assert raw == rest + "\r";
    ParseKeyValue(key, rest);
    ValueWithCr(key, rest);
    DropLast(key, rest, line);
  }

  lemma DropLast(key: string, rest: string, line: string)
    requires line == key + "=" + (rest + "\r")
    ensures line[..|line| - 1] == key + "=" + rest
  {
  }

  // ---------------------------------------------------------------------------
  // What is dangerous, by position
  // ---------------------------------------------------------------------------

  /** No character of `s` starts, pipes or groups a command, or starts a here-document. */
  predicate Inert(s: string) {
    forall i | 0 <= i < |s| ::
      && s[i] != '`' && s[i] != '|' && s[i] != '{'
      && (i < |s| - 1 ==> !(s[i] == '$' && s[i + 1] == '(') && !(s[i] == '<' && s[i + 1] == '<'))
  }

  /** What is reported, and why: each kind of danger is a character, or two adjacent ones. */
  lemma DangerExactly(s: string)
    ensures DangerIn(s) ==
      if Adjacent(s, '$', '(') then Some("subshell: $(...)")
      else if '`' in s then Some("backtick subshell")
      else if Adjacent(s, '<', '<') then Some("here-document")
      else if '|' in s then Some("pipe operator")
      else if '{' in s then Some("compound command block")
      else None
  {
    ContainsTwo(s, '$', '(');
    ContainsOne(s, '`');
    ContainsTwo(s, '<', '<');
    ContainsOne(s, '|');
    ContainsOne(s, '{');
    var t2: seq<Described> := [("|", "pipe operator"), ("{", "compound command block")];
    var t1: seq<Described> := [("<<", "here-document")] + t2;
    var t0: seq<Described> := [("`", "backtick subshell")] + t1;
    assert BASH_TRIGGERS == [("$(", "subshell: $(...)")] + t0;
    FirstOf(s, ("$(", "subshell: $(...)"), t0);
    FirstOf(s, ("`", "backtick subshell"), t1);
    FirstOf(s, ("<<", "here-document"), t2);
    FirstOf(s, ("|", "pipe operator"), [("{", "compound command block")]);
    assert t2 == [("|", "pipe operator")] + [("{", "compound command block")];
    FirstOf(s, ("{", "compound command block"), []);
  }

  lemma FirstOf(s: string, first: Described, rest: seq<Described>)
    ensures FirstTrigger(s, [first] + rest) == if Contains(s, first.0) then Some(first.1) else FirstTrigger(s, rest)
    ensures FirstTrigger(s, [first]) == if Contains(s, first.0) then Some(first.1) else None
  {
    assert ([first] + rest)[1..] == rest && [first][1..] == [];
  }

  lemma InertExactly(s: string)
    ensures DangerIn(s).None? <==> Inert(s)
  {
    DangerExactly(s);
    forall i | 0 <= i < |s| ensures s[i] in s {}
  }

  /** The `=` at position `k` separates a valid key from a value that is not executed. */
  predicate AssignsInert(line: string, k: nat)
    requires k < |line|
  {
    line[k] == '=' && IsValidKey(line[..k])
    && (Inert(line[k + 1..]) || (line[..k] == "GRUB_DISTRIBUTOR" && line[k + 1..] == UBUNTU_OS_RELEASE_DISTRIBUTOR))
  }

  lemma BlankExactly(s: string)
    ensures Trim(s) == "" <==> AllWhitespace(s)
  {
    var w, w' := TrimSplit(s);
    assert Trim(s) == "" ==> s == w + w';
    if Trim(s) != "" {
      assert s[|w|] == Trim(s)[0] && !IsWhitespace(s[|w|]);
    }
  }

  /** The first character that is not white space is the `#` at position `k`. */
  predicate CommentsAt(line: string, k: nat)
    requires k < |line|
  {
    line[k] == '#' && AllWhitespace(line[..k])
  }

  lemma CommentFound(s: string)
    requires TrimStart(s) != "" && TrimStart(s)[0] == '#'
    ensures exists k | 0 <= k < |s| :: CommentsAt(s, k)
  {
    var w := TrimStartSplit(s);
    assert s[|w|] == TrimStart(s)[0] && s[..|w|] == w;
    assert CommentsAt(s, |w|);
  }

  lemma CommentTrims(s: string, k: nat)
    requires k < |s| && CommentsAt(s, k)
    ensures TrimStart(s) == s[k..]
  {
    var (w, rest) := (s[..k], s[k..]);
    TrimStartSkips(w, rest);
    assert s == w + rest;
    assert TrimStart(rest) == rest;
  }

  lemma CommentExactly(s: string)
    ensures TrimStart(s) != "" && TrimStart(s)[0] == '#' <==> exists k | 0 <= k < |s| :: CommentsAt(s, k)
  {
    if TrimStart(s) != "" && TrimStart(s)[0] == '#' { CommentFound(s); }
    forall k | 0 <= k < |s| && CommentsAt(s, k) ensures TrimStart(s) == s[k..] { CommentTrims(s, k); }
  }

  lemma AssignmentExactly(line: string, k: nat)
    requires k < |line| && line[k] == '=' && IsValidKey(line[..k])
    ensures IndexOf(line, '=') == k
  {
    assert '=' !in line[..k];
    IndexOfAppend(line[..k], '=', line[k + 1..]);
    assert line == line[..k] + ['='] + line[k + 1..];
  }

  /** The lines that are accepted: blank ones, comments, and a valid key before `=` and an inert
      text or the one vendor expression. */
  lemma AcceptedExactly(line: string)
    ensures !ParseLine(line).BashConstruct? <==>
      || AllWhitespace(line)
      || (exists k | 0 <= k < |line| :: CommentsAt(line, k))
      || (exists k | 0 <= k < |line| :: AssignsInert(line, k))
  {
    BlankExactly(line);
    CommentExactly(line);
    var eq := IndexOf(line, '=');
    if eq < |line| {
      InertExactly(line[eq + 1..]);
    }
    forall k | 0 <= k < |line| && AssignsInert(line, k) ensures k == eq {
      AssignmentExactly(line, k);
    }
    if !ParseLine(line).BashConstruct? && Trim(line) != "" && !(TrimStart(line) != "" && TrimStart(line)[0] == '#') {
      assert AssignsInert(line, eq);
    }
  }

  function CarriageReturns(n: nat): string {
    seq(n, _ => '\r')
  }

  /** A value as it may stand in a file: in a pair of double quotes or not, before carriage returns. */
  function Spelled(text: string, quoted: bool, crs: nat): string {
    (if quoted then "\"" + text + "\"" else text) + CarriageReturns(crs)
  }

  lemma {:induction false} TrimReturns(core: string, crs: nat)
    requires core == "" || core[|core| - 1] != '\r'
    ensures TrimEndMatches(core + CarriageReturns(crs), '\r') == core
  {
    var s := core + CarriageReturns(crs);
    if crs == 0 {
      assert s == core;
    } else {
      assert s[..|s| - 1] == core + CarriageReturns(crs - 1);
      TrimReturns(core, crs - 1);
    }
  }

  lemma SpelledIsInert(text: string, quoted: bool, crs: nat)
    requires Inert(text)
    ensures Inert(Spelled(text, quoted, crs))
  {
    var core, raw := if quoted then "\"" + text + "\"" else text, Spelled(text, quoted, crs);
    assert Inert(core);
    assert forall i | |core| <= i < |raw| :: raw[i] == '\r';
  }

  /** One pair of double quotes and any final carriage returns are not part of the value; everything
      else is. */
  lemma ValueIsRead(key: string, text: string, quoted: bool, crs: nat)
    requires IsValidKey(key) && OneLine(text) && Inert(text)
    requires quoted || (!DoubleQuoted(text) && (text == "" || text[|text| - 1] != '\r'))
    ensures ParseLine(key + "=" + Spelled(text, quoted, crs)) == Assignment(key, text)
  {
    var core, raw := if quoted then "\"" + text + "\"" else text, Spelled(text, quoted, crs);
    assert raw == "" || raw[|raw| - 1] != '\n';
    TrimReturns(core, crs);
    assert quoted ==> core[1..|core| - 1] == text;
    SpelledIsInert(text, quoted, crs);
    InertExactly(raw);
    ParseKeyValue(key, raw);
    OrdinaryValue(key, raw);
  }

  /** Whatever an accepted file says is inert, apart from the one vendor expression. */
  lemma ValuesAreInert(text: string, key: string)
    requires Accepted(Lines(text)) && key in ConfigOf(text).values
    ensures
      var value := ConfigOf(text).values[key];
      Inert(value) || (key == "GRUB_DISTRIBUTOR" && value == UBUNTU_OS_RELEASE_DISTRIBUTOR)
  {
    LinesAreOneLine(text);
    ValuesAreHoldable(Lines(text), key);
    InertExactly(ConfigOf(text).values[key]);
  }

  lemma BacktickIsDangerous(s: string, i: nat)
    requires i < |s| && s[i] == '`'
    ensures DangerIn(s).Some?
  {
    DangerExactly(s);
  }

  lemma UbuntuStart()
    ensures |UBUNTU_OS_RELEASE_DISTRIBUTOR| > 2
    ensures UBUNTU_OS_RELEASE_DISTRIBUTOR[0] == '`' && UBUNTU_OS_RELEASE_DISTRIBUTOR[2] == ' '
  {
  }

  lemma UbuntuIsDangerous()
    ensures DangerIn(UBUNTU_OS_RELEASE_DISTRIBUTOR).Some?
  {
    UbuntuStart();
    BacktickIsDangerous(UBUNTU_OS_RELEASE_DISTRIBUTOR, 0);
  }

  /** Away from the vendor expression a value is accepted exactly when it has no trigger. */
  lemma OrdinaryValue(key: string, raw: string)
    requires raw == "" || raw[0] != '`' || DangerIn(raw).None?
    ensures ParseValue(key, raw) ==
      if DangerIn(raw).Some? then BashConstruct(DangerIn(raw).value) else Assignment(key, ExtractValue(raw))
  {
    UbuntuStart();
    UbuntuIsDangerous();
  }

  // ---------------------------------------------------------------------------
  // Keys, and what a rejected line is called
  // ---------------------------------------------------------------------------

  predicate Among(c: char, others: string) {
    c in SMALL || c in CAPITALS || c in others
  }

  lemma KeyChars(c: char)
    ensures IsKeyChar(c) <==> Among(c, "0123456789_")
    ensures IsAlpha(c) <==> Among(c, "_")
  {
    IsSmall(c);
    IsCapital(c);
  }

  /** A key is a letter or underscore and then letters, digits and underscores. */
  lemma ValidKeyExactly(key: string)
    ensures IsValidKey(key) <==>
      key != "" && Among(key[0], "_") && forall i | 0 <= i < |key| :: Among(key[i], "0123456789_")
  {
    if key != "" { KeyChars(key[0]); }
    forall i | 0 <= i < |key| ensures IsKeyChar(key[i]) <==> Among(key[i], "0123456789_") { KeyChars(key[i]); }
  }

  /** The line starts with the keyword, or is all of it but the final blank. */
  predicate StartsWith(line: string, keyword: string) {
    keyword <= line || line + " " == keyword
  }

  lemma {:induction false} FirstKeywordExactly(line: string, table: seq<Described>, k: nat)
    requires k <= |table| && forall j | 0 <= j < |table| :: BlankAtMostLast(table[j].0)
    requires forall j | 0 <= j < k :: !StartsWith(line, table[j].0)
    requires k < |table| ==> StartsWith(line, table[k].0)
    ensures FirstKeyword(line, table) == if k < |table| then Some(table[k].1) else None
  {
    if table != [] {
      assert BlankAtMostLast(table[0].0);
      KeywordMatches(line, table[0].0);
      if k > 0 {
        assert forall j | 0 <= j < k - 1 :: table[1..][j] == table[j + 1];
        FirstKeywordExactly(line, table[1..], k - 1);
      }
    }
  }

  predicate BlankAtMostLast(keyword: string) {
    |keyword| >= 2 && !IsWhitespace(keyword[|keyword| - 2])
    && (IsWhitespace(keyword[|keyword| - 1]) ==> keyword[|keyword| - 1] == ' ')
  }

  lemma KeywordMatches(line: string, keyword: string)
    requires BlankAtMostLast(keyword)
    ensures keyword <= line || line == TrimEnd(keyword) <==> StartsWith(line, keyword)
  {
    var n := |keyword|;
    if IsWhitespace(keyword[n - 1]) {
      assert keyword == keyword[..n - 1] + " ";
      assert keyword[..n - 1][n - 2] == keyword[n - 2];
      assert TrimEnd(keyword) == keyword[..n - 1];
    } else {
      assert TrimEnd(keyword) == keyword;
      assert (line + " ")[|line|] == ' ';
    }
  }

  lemma KeywordsAreWords()
    ensures forall j | 0 <= j < |BASH_KEYWORD_PREFIXES| :: BlankAtMostLast(BASH_KEYWORD_PREFIXES[j].0)
  {
  }

  /** A line that is no assignment is named after the danger in it, or else after the first keyword it
      starts with. */
  lemma OffenderExactly(line: string, k: nat)
    requires k <= |BASH_KEYWORD_PREFIXES|
    requires forall j | 0 <= j < k :: !StartsWith(TrimStart(line), BASH_KEYWORD_PREFIXES[j].0)
    requires k < |BASH_KEYWORD_PREFIXES| ==> StartsWith(TrimStart(line), BASH_KEYWORD_PREFIXES[k].0)
    ensures Offender(line) ==
      if DangerIn(line).Some? then DangerIn(line).value
      else if k < |BASH_KEYWORD_PREFIXES| then BASH_KEYWORD_PREFIXES[k].1
      else "unrecognised non-assignment statement"
  {
    KeywordsAreWords();
    FirstKeywordExactly(TrimStart(line), BASH_KEYWORD_PREFIXES, k);
  }
}
