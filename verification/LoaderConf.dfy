/** `loader.conf`: setting and reading the default entry, where the first match wins. */
module LoaderConf {
  import opened Text

  /** `str::to_lowercase`, as far as comparison with an ASCII key can tell. */
  function Lower(s: string): string {
    seq(|s|, i requires 0 <= i < |s| => LowerChar(s[i]))
  }

  function LowerChar(c: char): char {
    if 'A' <= c <= 'Z' then c - 'A' + 'a' else c
  }

  /** What `splitn(2, char::is_whitespace)` leaves after the first word. */
  function AfterFirstWord(s: string): string {
    FirstWordIsPrefix(s);
    if |FirstWord(s)| < |s| then s[|FirstWord(s)| + 1..] else ""
  }

  predicate IsKeyLine(line: string, key: string) {
    var t := TrimStart(line);
    t != "" && t[0] != '#' && Lower(FirstWord(t)) == key
  }

  /** Index of the first line for `key`, or the number of lines. */
  function FirstKeyLine(lines: seq<string>, key: string): (i: nat)
    ensures i <= |lines|
  {
    if lines == [] || IsKeyLine(lines[0], key) then 0 else 1 + FirstKeyLine(lines[1..], key)
  }

  /** At most one line changes, or one is appended. */
  function UpdatedLines(lines: seq<string>, key: string, newLine: string): seq<string> {
    var i := FirstKeyLine(lines, key);
    if i < |lines| then lines[i := newLine] else lines + [newLine]
  }

  function Updated(content: string, key: string, value: string): string {
    Join(UpdatedLines(Lines(content), key, key + " " + value)) + "\n"
  }

  /** `update_or_append_key`. */
  method UpdateOrAppendKey(content: string, key: string, value: string) returns (text: string)
    ensures text == Updated(content, key, value)
  {
    var old' := Lines(content);
    var lines := old';
    var newLine := key + " " + value;
    var found := false;
    var i := 0;
    while i < |lines| && !found
      invariant i <= |lines| == |old'|
      invariant !found ==> lines == old' && FirstKeyLine(old', key) == i + FirstKeyLine(old'[i..], key)
      invariant found ==> FirstKeyLine(old', key) < |old'| && lines == old'[FirstKeyLine(old', key) := newLine]
    {
      assert old'[i..][1..] == old'[i + 1..];
      if IsKeyLine(lines[i], key) {
        lines := lines[i := newLine];
        found := true;
      }
      i := i + 1;
    }
    if !found {
      lines := lines + [newLine];
    }
    return Join(lines) + "\n";
  }

  /** The value of the first `default` line. */
  function DefaultIn(lines: seq<string>): string {
    if lines == [] then ""
    else
      var t := Trim(lines[0]);
      if t != "" && t[0] != '#' && Lower(FirstWord(t)) == "default" then TrimStart(AfterFirstWord(t))
      else DefaultIn(lines[1..])
  }

  /** `read_loader_conf_default`, on the content of the file. */
  method ReadLoaderConfDefault(content: string) returns (value: string)
    ensures value == DefaultIn(Lines(content))
  {
    var lines := Lines(content);
    var i := 0;
    assert lines[0..] == lines;
    while i < |lines|
      invariant i <= |lines| && DefaultIn(lines) == DefaultIn(lines[i..])
    {
      assert lines[i..][1..] == lines[i + 1..];
      var trimmed := Trim(lines[i]);
      i := i + 1;
      if trimmed == "" || trimmed[0] == '#' {
        continue;
      }
      if Lower(FirstWord(trimmed)) == "default" {
        return TrimStart(AfterFirstWord(trimmed));
      }
    }
    return "";
  }

  /** `validate_entry_id`. */
  predicate IsValidEntryId(id: string) {
    id != "" && '/' !in id && '\\' !in id && !Contains(id, "..")
  }

  /** By position: no separator, and no two dots in a row. */
  lemma ValidIdExactly(id: string)
    ensures IsValidEntryId(id) <==> id != "" && '/' !in id && '\\' !in id && !Adjacent(id, '.', '.')
  {
    ContainsTwo(id, '.', '.');
  }

  /** `trim_end_matches(".conf")`. */
  function StripConf(s: string): string {
    if EndsWithConf(s) then StripConf(s[..|s| - 5]) else s
  }

  predicate EndsWithConf(s: string) {
    |s| >= 5 && s[|s| - 5..] == ".conf"
  }

  /** `is_entry_default`. */
  predicate IsEntryDefault(entryId: string, loaderDefault: string) {
    var d := Trim(loaderDefault);
    d == entryId || d == entryId + ".conf" || StripConf(d) == entryId
  }

  // ---------------------------------------------------------------------------
  // The writer and the reader agree on lines
  // ---------------------------------------------------------------------------

  lemma {:induction false} FirstWordIgnoresTail(core: string, w: string)
    requires AllWhitespace(w)
    ensures FirstWord(core + w) == FirstWord(core)
  {
    if core == "" {
      assert core + w == w;
    } else {
      assert (core + w)[1..] == core[1..] + w;
      FirstWordIgnoresTail(core[1..], w);
    }
  }

  /** The writer trims only the left of a line, the reader both sides, and a line feed may
      have taken a carriage return with it: the key is the same in all three. */
  lemma KeyOfLine(line: string, key: string)
    requires key != ""
    ensures var t := Trim(line);
      IsKeyLine(line, key) <==> t != "" && t[0] != '#' && Lower(FirstWord(t)) == key
    ensures IsKeyLine(StripCr(line), key) <==> IsKeyLine(line, key)
  {
    KeyOfTrimmed(line, key);
    KeyOfTrimmed(StripCr(line), key);
    TrimIgnoresCr(line);
  }

  lemma KeyOfTrimmed(line: string, key: string)
    requires key != ""
    ensures var t := Trim(line);
      IsKeyLine(line, key) <==> t != "" && t[0] != '#' && Lower(FirstWord(t)) == key
  {
    var t := TrimStart(line);
    var v := TrimStartSplit(line);
    var w := TrimEndSplit(t);
    FirstWordIgnoresTail(Trim(line), w);
    if t != "" {
      TrimNonBlank(t);
    }
  }

  /** The reader stops at the first key line. */
  lemma {:induction false} DefaultAtFirstKeyLine(lines: seq<string>)
    ensures var i := FirstKeyLine(lines, "default");
      DefaultIn(lines) == if i < |lines| then TrimStart(AfterFirstWord(Trim(lines[i]))) else ""
  {
    if lines != [] {
      KeyOfLine(lines[0], "default");
      DefaultAtFirstKeyLine(lines[1..]);
    }
  }

  lemma {:induction false} FirstKeyLineFacts(lines: seq<string>, key: string)
    ensures var i := FirstKeyLine(lines, key);
      (forall j | 0 <= j < i :: !IsKeyLine(lines[j], key)) && (i < |lines| ==> IsKeyLine(lines[i], key))
  {
    if lines != [] && !IsKeyLine(lines[0], key) {
      FirstKeyLineFacts(lines[1..], key);
      var i := FirstKeyLine(lines[1..], key);
      forall j | 0 <= j < 1 + i ensures !IsKeyLine(lines[j], key) {
        if j > 0 { assert lines[j] == lines[1..][j - 1]; }
      }
    }
  }

  lemma {:induction false} FirstKeyLineIs(lines: seq<string>, key: string, i: nat)
    requires i < |lines| && IsKeyLine(lines[i], key)
    requires forall j | 0 <= j < i :: !IsKeyLine(lines[j], key)
    ensures FirstKeyLine(lines, key) == i
  {
    if i > 0 {
      forall j | 0 <= j < i - 1 ensures !IsKeyLine(lines[1..][j], key) {
        assert lines[1..][j] == lines[j + 1];
      }
      FirstKeyLineIs(lines[1..], key, i - 1);
    }
  }

  // ---------------------------------------------------------------------------
  // Keys in any case
  // ---------------------------------------------------------------------------

  /** Letter by letter the same, or the capital of the letter. */
  predicate SameLetters(word: string, key: string) {
    |word| == |key| && forall i | 0 <= i < |key| :: SameLetter(word[i], key[i])
  }

  predicate SameLetter(c: char, small: char) {
    (c == small && c !in CAPITALS) || exists k | 0 <= k < 26 :: c == CAPITALS[k] && small == SMALL[k]
  }

  lemma LowerLetter(c: char, d: char)
    ensures SameLetter(c, d) <==> LowerChar(c) == d
  {
    IsCapital(c);
    if c in CAPITALS {
      var k := c as int - 'A' as int;
      Alphabet(k);
      assert c == CAPITALS[k] && LowerChar(c) == SMALL[k];
    }
    forall k | 0 <= k < 26 && c == CAPITALS[k] ensures SMALL[k] == LowerChar(c) { Alphabet(k); }
  }

  lemma LowerExactly(word: string, key: string)
    ensures Lower(word) == key <==> SameLetters(word, key)
  {
    if |word| == |key| {
      forall i | 0 <= i < |word| ensures SameLetter(word[i], key[i]) <==> Lower(word)[i] == key[i] {
        LowerLetter(word[i], key[i]);
      }
    }
  }

  /** A default line in any case, with any white space around its parts, is read; a line whose first
      word is not `default` in some case is none. */
  lemma DefaultInAnyCase(indent: string, word: string, gap: string, id: string, end: string)
    requires AllWhitespace(indent) && AllWhitespace(gap) && gap != "" && AllWhitespace(end)
    requires word != "" && NoWhitespace(word) && word[0] != '#' && Clean(id) && id != ""
    ensures DefaultIn([indent + (word + gap + id) + end]) == if SameLetters(word, "default") then id else ""
    ensures IsKeyLine(indent + (word + gap + id) + end, "default") <==> SameLetters(word, "default")
  {
    var core := word + gap + id;
    var line := indent + core + end;
    CleanEnds(id);
    assert core[|core| - 1] == id[|id| - 1];
    TrimCore(indent, core, end);
    LowerExactly(word, "default");
    KeyOfLine(line, "default");
    SpacedParts(word, gap, id, core);
    DefaultInOne(line);
  }

  lemma CleanEnds(id: string)
    requires Clean(id) && id != ""
    ensures !IsWhitespace(id[0]) && !IsWhitespace(id[|id| - 1])
  {
    var w, w' := TrimSplit(id);
  }

  lemma SpacedParts(word: string, gap: string, id: string, core: string)
    requires NoWhitespace(word) && AllWhitespace(gap) && gap != "" && id != "" && !IsWhitespace(id[0])
    requires core == word + gap + id
    ensures FirstWord(core) == word && TrimStart(AfterFirstWord(core)) == id
  {
    assert core == word + (gap + id);
    FirstWordAppend(word, gap + id);
    assert core[|word| + 1..] == gap[1..] + id;
    TrimStartSkips(gap[1..], id);
  }

  lemma DefaultInOne(line: string)
    ensures DefaultIn([line]) ==
      if IsKeyLine(line, "default") then TrimStart(AfterFirstWord(Trim(line))) else ""
  {
    DefaultAtFirstKeyLine([line]);
    assert [line][1..] == [];
  }

  // ---------------------------------------------------------------------------
  // Read after write
  // ---------------------------------------------------------------------------

  /** One line, with no white space on either side. */
  predicate Clean(id: string) {
    OneLine(id) && Trim(id) == id
  }

  /** The line that is written for `id`. */
  function DefaultLine(id: string): string {
    "default" + " " + id
  }

  lemma DefaultLineKey(id: string)
    ensures FirstWord(DefaultLine(id)) == "default" && AfterFirstWord(DefaultLine(id)) == id
    ensures IsKeyLine(DefaultLine(id), "default")
  {
    var line := DefaultLine(id);
    assert line == "default" + (" " + id);
    FirstWordAppend("default", " " + id);
    assert Lower("default") == "default";
    TrimNonBlank(line);
  }

  lemma DefaultLineTrimmed(id: string)
    requires Clean(id)
    ensures Trim(DefaultLine(id)) == if id == "" then "default" else DefaultLine(id)
    ensures StripCr(DefaultLine(id)) == DefaultLine(id)
  {
    var line := DefaultLine(id);
    if id == "" {
      TrimCore("", "default", " ");
      assert "" + "default" + " " == line;
    } else {
      var w, w' := TrimSplit(id);
      assert line[|line| - 1] == id[|id| - 1];
      TrimCore("", line, "");
      assert "" + line + "" == line;
    }
  }

  lemma NewLineReads(id: string)
    requires Clean(id)
    ensures TrimStart(AfterFirstWord(Trim(DefaultLine(id)))) == id
  {
    DefaultLineTrimmed(id);
    if id == "" {
      OneWordLine("default");
    } else {
      CleanEnds(id);
      SpacedParts("default", " ", id, DefaultLine(id));
    }
  }

  lemma OneWordLine(word: string)
    requires NoWhitespace(word)
    ensures AfterFirstWord(word) == ""
  {
    FirstWordAppend(word, "");
    assert word + "" == word;
  }

  lemma SuffixIsClean(line: string, value: string, k: nat)
    requires OneLine(line) && k <= |Trim(line)| && value == Trim(line)[k..]
    requires value == "" || !IsWhitespace(value[0])
    ensures Clean(value)
  {
    var w, w' := TrimSplit(line);
    if value != "" {
      assert value[|value| - 1] == Trim(line)[|Trim(line)| - 1];
      TrimCore("", value, "");
      assert "" + value + "" == value;
    }
    forall i | 0 <= i < |value| ensures value[i] != '\n' {
      assert value[i] == line[|w| + k + i];
    }
  }

  /** Whatever is read as the default is a clean value. */
  lemma {:induction false} DefaultIsClean(lines: seq<string>)
    requires AllOneLine(lines)
    ensures Clean(DefaultIn(lines))
  {
    if lines != [] {
      var t := Trim(lines[0]);
      if t != "" && t[0] != '#' && Lower(FirstWord(t)) == "default" {
        FirstWordIsPrefix(t);
        var rest := AfterFirstWord(t);
        var v := TrimStartSplit(rest);
        var value := TrimStart(rest);
        assert OneLine(lines[0]);
        assert value == t[|t| - |value|..];
        SuffixIsClean(lines[0], value, |t| - |value|);
      } else {
        assert forall i | 0 <= i < |lines| - 1 :: lines[1..][i] == lines[i + 1];
        DefaultIsClean(lines[1..]);
      }
    }
  }

  /** The lines of an updated file: as the writer joined them, and as they are read again. */
  lemma UpdatedFileLines(content: string, id: string) returns (lines: seq<string>, i: nat)
    requires OneLine(id)
    ensures lines == UpdatedLines(Lines(content), "default", DefaultLine(id))
    ensures Updated(content, "default", id) == Unlines(lines)
    ensures Lines(Updated(content, "default", id)) == StripAll(lines)
    ensures i < |lines| && lines[i] == DefaultLine(id)
    ensures forall j | 0 <= j < i :: !IsKeyLine(lines[j], "default")
  {
    LinesAreOneLine(content);
    FirstKeyLineFacts(Lines(content), "default");
    lines := UpdatedLines(Lines(content), "default", DefaultLine(id));
    i := FirstKeyLine(Lines(content), "default");
    JoinIsUnlines(lines);
    UpdatedIsOneLine(content, id);
    LinesOfUnlines(lines);
  }

  lemma UpdatedIsFirst(lines: seq<string>, id: string, i: nat)
    requires i < |lines| && lines[i] == DefaultLine(id)
    requires forall j | 0 <= j < i :: !IsKeyLine(lines[j], "default")
    ensures FirstKeyLine(StripAll(lines), "default") == i
  {
    DefaultLineKey(id);
    KeyOfLine(lines[i], "default");
    forall j | 0 <= j < i ensures !IsKeyLine(StripAll(lines)[j], "default") {
      KeyOfLine(lines[j], "default");
    }
    FirstKeyLineIs(StripAll(lines), "default", i);
  }

  /** For any content, reading the default after writing `id` returns `id` exactly when `id`
      is one line without white space around it. */
  lemma ReadAfterWrite(content: string, id: string)
    ensures DefaultIn(Lines(Updated(content, "default", id))) == id <==> Clean(id)
  {
    var after := Lines(Updated(content, "default", id));
    LinesAreOneLine(Updated(content, "default", id));
    DefaultIsClean(after);
    if Clean(id) {
      var lines, i := UpdatedFileLines(content, id);
      UpdatedIsFirst(lines, id, i);
      DefaultLineTrimmed(id);
      NewLineReads(id);
      DefaultAtFirstKeyLine(after);
    }
  }

  /** No line but the default line ends in a carriage return of its own. */
  predicate OthersStripped(lines: seq<string>) {
    forall j | 0 <= j < |lines| && j != FirstKeyLine(lines, "default") :: StripCr(lines[j]) == lines[j]
  }

  /** A second identical update changes nothing exactly when the id is one line and no line of the
      content, its default line aside, keeps a carriage return when it is split. */
  lemma UpdateIsIdempotent(content: string, id: string)
    ensures Updated(Updated(content, "default", id), "default", id) == Updated(content, "default", id)
      <==> OneLine(id) && OthersStripped(Lines(content))
  {
    if OneLine(id) {
      SecondUpdate(content, id);
    } else {
      SecondUpdateGrows(content, id);
    }
  }

  lemma SecondUpdate(content: string, id: string)
    requires OneLine(id)
    ensures Updated(Updated(content, "default", id), "default", id) == Updated(content, "default", id)
      <==> OthersStripped(Lines(content))
  {
    var lines, again, i := SecondLines(content, id);
    if again != lines { UnlinesDiffer(again, lines); }
    SameLines(Lines(content), lines, again, i, DefaultLine(id));
  }

  /** The lines written by the first and by the second update. */
  lemma SecondLines(content: string, id: string) returns (lines: seq<string>, again: seq<string>, i: nat)
    requires OneLine(id)
    ensures i == FirstKeyLine(Lines(content), "default") < |lines|
    ensures lines == UpdatedLines(Lines(content), "default", DefaultLine(id))
    ensures again == StripAll(lines)[i := DefaultLine(id)]
    ensures AllOneLine(lines) && AllOneLine(again)
    ensures Unlines(lines) == Updated(content, "default", id)
    ensures Unlines(again) == Updated(Updated(content, "default", id), "default", id)
  {
    var text := Updated(content, "default", id);
    var k;
    lines, k := UpdatedFileLines(content, id);
    i := FirstKeyLine(Lines(content), "default");
    FirstKeyLineFacts(Lines(content), "default");
    UpdatedIsFirst(lines, id, i);
    again, k := UpdatedFileLines(text, id);
    UpdatedIsOneLine(content, id);
    UpdatedIsOneLine(text, id);
  }

  lemma UpdatedIsOneLine(content: string, id: string)
    requires OneLine(id)
    ensures AllOneLine(UpdatedLines(Lines(content), "default", DefaultLine(id)))
  {
    LinesAreOneLine(content);
  }

  lemma SameLines(before: seq<string>, lines: seq<string>, again: seq<string>, i: nat, line: string)
    requires i == FirstKeyLine(before, "default") && lines == UpdatedLines(before, "default", line)
    requires i < |lines| && again == StripAll(lines)[i := line]
    ensures again == lines <==> OthersStripped(before)
  {
    assert forall j | 0 <= j < |lines| && j != i :: j < |before| && lines[j] == before[j];
    assert forall j | 0 <= j < |before| && j != i :: j < |lines| && lines[j] == before[j];
    if again == lines {
      forall j | 0 <= j < |before| && j != i ensures StripCr(before[j]) == before[j] { assert again[j] == lines[j]; }
    }
  }

  lemma UnlinesDiffer(a: seq<string>, b: seq<string>)
    requires AllOneLine(a) && AllOneLine(b) && a != b
    ensures Unlines(a) != Unlines(b)
  {
    if Unlines(a) == Unlines(b) { UnlinesInjective(a, b); }
  }

  lemma SecondUpdateGrows(content: string, id: string)
    requires !OneLine(id)
    ensures Updated(Updated(content, "default", id), "default", id) != Updated(content, "default", id)
  {
    var text := Updated(content, "default", id);
    var line := DefaultLine(id);
    var again := UpdatedLines(Lines(text), "default", line);
    JoinIsUnlines(again);
    LinesCoverBreaks(text);
    var i := FirstKeyLine(Lines(text), "default");
    DefaultLineBreaks(id);
    UnlinesBreaks(again, i);
  }

  lemma DefaultLineBreaks(id: string)
    requires !OneLine(id)
    ensures !OneLine(DefaultLine(id))
  {
    var k :| 0 <= k < |id| && id[k] == '\n';
    assert DefaultLine(id)[8 + k] == '\n';
  }

  /** A text to which a second update still makes a change. */
  lemma CarriageReturnsWearOff(id: string)
    requires OneLine(id)
    ensures Updated(Updated("a\r\r\n", "default", id), "default", id) != Updated("a\r\r\n", "default", id)
  {
    var lines := ["a\r\r"];
    assert Unlines(lines[1..]) == "" && Unlines(lines) == "a\r\r\n";
    LinesOfUnlines(lines);
    assert lines[0][..2] == "a\r" && StripCr(lines[0]) == "a\r";
    assert StripAll(lines) == ["a\r"];
    OtherKey();
    UpdateIsIdempotent("a\r\r\n", id);
  }

  lemma OtherKey()
    ensures FirstKeyLine(["a\r"], "default") == 1
  {
    var line := "a\r";
    FirstWordIsPrefix(line);
    assert |FirstWord(line)| <= 2;
    assert |Lower(FirstWord(line))| <= 2;
    assert TrimStart(line) == line;
    assert !IsKeyLine(line, "default");
    assert ["a\r"][1..] == [];
  }

  // ---------------------------------------------------------------------------
  // Which entry is marked default
  // ---------------------------------------------------------------------------

  lemma ConfSuffix(e: string)
    ensures EndsWithConf(e + ".conf")
  {
    assert (e + ".conf")[|e|..] == ".conf";
  }

  lemma {:induction false} StripConfShortens(s: string)
    ensures |StripConf(s)| <= |s|
    ensures EndsWithConf(s) <==> StripConf(s) != s
  {
    if EndsWithConf(s) {
      StripConfShortens(s[..|s| - 5]);
    }
  }

  /** After `id` is made the default, exactly the entry `id` is marked, for every set of
      entries, precisely when `id` is read back at all and does not end in `.conf`. */
  lemma MarkedExactly(content: string, id: string)
    ensures (forall e: string :: IsEntryDefault(e, DefaultIn(Lines(Updated(content, "default", id)))) <==> e == id)
      <==> Clean(id) && !EndsWithConf(id)
  {
    var read := DefaultIn(Lines(Updated(content, "default", id)));
    ReadAfterWrite(content, id);
    LinesAreOneLine(Updated(content, "default", id));
    DefaultIsClean(Lines(Updated(content, "default", id)));
    assert IsEntryDefault(read, read);
    if Clean(id) { MarkedWhenRead(id); }
  }

  lemma MarkedWhenRead(id: string)
    requires Clean(id)
    ensures (forall e: string :: IsEntryDefault(e, id) <==> e == id) <==> !EndsWithConf(id)
  {
    StripConfShortens(id);
    if EndsWithConf(id) {
      assert IsEntryDefault(StripConf(id), id);
    } else {
      forall e: string ensures IsEntryDefault(e, id) <==> e == id {
        ConfSuffix(e);
      }
    }
  }

  /** The id check lets through ids that do not survive the file. */
  lemma AcceptedIdCanBeLost(content: string)
    ensures IsValidEntryId(" a") && DefaultIn(Lines(Updated(content, "default", " a"))) != " a"
  {
    assert TrimStart(" a") == TrimStart("a");
    TrimNonBlank("a");
    StartsWithoutSpace();
    ReadAfterWrite(content, " a");
  }

  lemma StartsWithoutSpace()
    ensures !Clean(" a") && IsValidEntryId(" a")
  {
    var w, w' := TrimSplit(" a");
    forall i {:trigger " a"[i..]} | 0 <= i <= |" a"| ensures !(".." <= " a"[i..]) {
      if i + 2 <= 2 {
        assert " a"[i..][0] == ' ';
      }
    }
  }
}
