/** Line-oriented text as the Rust standard library sees it: white space and trimming, prefixes and
    substrings, letters, and the split of a file into lines, each of which loses the line feed that
    ends it and one carriage return before that. */
module Text {

  datatype Option<+T> = None | Some(value: T)

  /** The Unicode `White_Space` property, the test behind `char::is_whitespace`. */
  predicate IsWhitespace(c: char) {
    '\U{0009}' <= c <= '\U{000D}' || c == ' ' || c == '\U{0085}' || c == '\U{00A0}' || c == '\U{1680}' ||
    '\U{2000}' <= c <= '\U{200A}' || c == '\U{2028}' || c == '\U{2029}' || c == '\U{202F}' ||
    c == '\U{205F}' || c == '\U{3000}'
  }

  predicate AllWhitespace(s: string) {
    forall i | 0 <= i < |s| :: IsWhitespace(s[i])
  }

  predicate NoWhitespace(s: string) {
    forall i | 0 <= i < |s| :: !IsWhitespace(s[i])
  }

  function TrimStart(s: string): string {
    if s != "" && IsWhitespace(s[0]) then TrimStart(s[1..]) else s
  }

  function TrimEnd(s: string): string {
    if s != "" && IsWhitespace(s[|s| - 1]) then TrimEnd(s[..|s| - 1]) else s
  }

  function Trim(s: string): string {
    TrimEnd(TrimStart(s))
  }

  /** The part of `s` before its first white-space character. */
  function FirstWord(s: string): string {
    if s == "" || IsWhitespace(s[0]) then "" else [s[0]] + FirstWord(s[1..])
  }

  predicate Contains(s: string, needle: string) {
    exists i {:trigger s[i..]} | 0 <= i <= |s| :: needle <= s[i..]
  }

  /** Position of the first `c` in `s`, or `|s|` when there is none. */
  function IndexOf(s: string, c: char): (i: nat)
    ensures i <= |s|
    ensures c !in s[..i]
    ensures i < |s| ==> s[i] == c
  {
    if s == "" || s[0] == c then 0 else 1 + IndexOf(s[1..], c)
  }

  /** One optional carriage return, removed only where a line feed followed it. */
  function StripCr(s: string): string {
    if s != "" && s[|s| - 1] == '\r' then s[..|s| - 1] else s
  }

  /** `str::lines`. */
  function Lines(s: string): seq<string>
    decreases |s|
  {
    if s == "" then [] else
      var i := IndexOf(s, '\n');
      if i == |s| then [s] else [StripCr(s[..i])] + Lines(s[i + 1..])
  }

  /** `lines.join("\n")`. */
  function Join(ls: seq<string>): string {
    if ls == [] then "" else if |ls| == 1 then ls[0] else ls[0] + "\n" + Join(ls[1..])
  }

  /** Every line followed by a line feed. */
  function Unlines(ls: seq<string>): string {
    if ls == [] then "" else ls[0] + "\n" + Unlines(ls[1..])
  }

  function StripAll(ls: seq<string>): (r: seq<string>)
    ensures |r| == |ls|
    ensures forall i | 0 <= i < |ls| :: r[i] == StripCr(ls[i])
  {
    seq(|ls|, i requires 0 <= i < |ls| => StripCr(ls[i]))
  }

  predicate OneLine(s: string) {
    '\n' !in s
  }

  predicate AllOneLine(ls: seq<string>) {
    forall i | 0 <= i < |ls| :: OneLine(ls[i])
  }

  // ---------------------------------------------------------------------------
  // Lines
  // ---------------------------------------------------------------------------

  lemma {:induction false} LinesAreOneLine(s: string)
    ensures AllOneLine(Lines(s))
    decreases |s|
  {
    if s != "" {
      var i := IndexOf(s, '\n');
      if i < |s| {
        LinesAreOneLine(s[i + 1..]);
        var head, tail := StripCr(s[..i]), Lines(s[i + 1..]);
        forall k | 0 <= k < |Lines(s)| ensures OneLine(Lines(s)[k]) {
          if k > 0 { assert Lines(s)[k] == tail[k - 1]; }
        }
      }
    }
  }

  lemma {:induction false} IndexOfAppend(a: string, c: char, b: string)
    requires c !in a
    ensures IndexOf(a + [c] + b, c) == |a|
  {
    if a != "" {
      assert (a + [c] + b)[1..] == a[1..] + [c] + b;
      IndexOfAppend(a[1..], c, b);
    }
  }

  lemma {:induction false} LinesOfUnlines(ls: seq<string>)
    requires AllOneLine(ls)
    ensures Lines(Unlines(ls)) == StripAll(ls)
  {
    if ls != [] {
      assert OneLine(ls[0]);
      var rest := Unlines(ls[1..]);
      var s := Unlines(ls);
      assert s == ls[0] + ['\n'] + rest;
      IndexOfAppend(ls[0], '\n', rest);
      assert s[..|ls[0]|] == ls[0] && s[|ls[0]| + 1..] == rest;
      LinesOfUnlines(ls[1..]);
      assert StripAll(ls) == [StripCr(ls[0])] + StripAll(ls[1..]);
    }
  }

  lemma FirstLine(s: string, line: string, rest: string)
    requires OneLine(line) && s == line + ['\n'] + rest
    ensures Lines(s) == [StripCr(line)] + Lines(rest)
  {
    IndexOfAppend(line, '\n', rest);
    assert s[..|line|] == line && s[|line| + 1..] == rest;
  }

  lemma UnlinesFirst(ls: seq<string>, last: string, rest: string)
    requires ls != [] && rest == Unlines(ls[1..]) + last
    ensures Unlines(ls) + last == ls[0] + ['\n'] + rest
  {
  }

  /** The line that no line feed ends. */
  function LastPart(last: string): seq<string> {
    if last == "" then [] else [last]
  }

  lemma LastLine(last: string)
    requires OneLine(last)
    ensures Lines(last) == LastPart(last)
  {
    NoneFound(last, '\n');
  }

  /** Text after the last line feed is a line of its own, and keeps its carriage return. */
  lemma {:induction false} LinesOfText(s: string, ls: seq<string>, last: string)
    requires AllOneLine(ls) && OneLine(last) && s == Unlines(ls) + last
    ensures Lines(s) == StripAll(ls) + LastPart(last)
    decreases |ls|
  {
    if ls == [] {
      assert s == last;
      LastLine(last);
    } else {
      var rest := Unlines(ls[1..]) + last;
      UnlinesFirst(ls, last, rest);
      assert OneLine(ls[0]);
      FirstLine(s, ls[0], rest);
      LinesOfText(rest, ls[1..], last);
      StripFirst(ls, LastPart(last));
    }
  }

  lemma StripFirst(ls: seq<string>, rest: seq<string>)
    requires ls != []
    ensures StripAll(ls) + rest == [StripCr(ls[0])] + (StripAll(ls[1..]) + rest)
  {
  }

  lemma NoneFound(s: string, c: char)
    requires c !in s
    ensures IndexOf(s, c) == |s|
  {
  }

  lemma {:induction false} JoinIsUnlines(ls: seq<string>)
    requires ls != []
    ensures Join(ls) + "\n" == Unlines(ls)
  {
    if |ls| == 1 {
      assert Unlines(ls[1..]) == "";
    } else {
      JoinIsUnlines(ls[1..]);
      assert Join(ls) + "\n" == ls[0] + "\n" + (Join(ls[1..]) + "\n");
    }
  }

  lemma {:induction false} UnlinesInjective(a: seq<string>, b: seq<string>)
    requires AllOneLine(a) && AllOneLine(b) && Unlines(a) == Unlines(b)
    ensures a == b
    decreases |a|
  {
    if a != [] && b != [] {
      var s := Unlines(a);
      assert OneLine(a[0]) && OneLine(b[0]);
      assert s == a[0] + ['\n'] + Unlines(a[1..]) && s == b[0] + ['\n'] + Unlines(b[1..]);
      IndexOfAppend(a[0], '\n', Unlines(a[1..]));
      IndexOfAppend(b[0], '\n', Unlines(b[1..]));
      assert a[0] == s[..|a[0]|] == b[0];
      assert Unlines(a[1..]) == s[|a[0]| + 1..] == Unlines(b[1..]);
      UnlinesInjective(a[1..], b[1..]);
      assert a == [a[0]] + a[1..] && b == [b[0]] + b[1..];
    }
  }

  /** The number of line feeds. */
  function Breaks(s: string): nat {
    if s == "" then 0 else (if s[0] == '\n' then 1 else 0) + Breaks(s[1..])
  }

  lemma {:induction false} BreaksAppend(a: string, b: string)
    ensures Breaks(a + b) == Breaks(a) + Breaks(b)
  {
    if a == "" {
      assert a + b == b;
    } else {
      assert (a + b)[1..] == a[1..] + b;
      BreaksAppend(a[1..], b);
    }
  }

  lemma {:induction false} NoBreaks(s: string)
    ensures Breaks(s) == 0 <==> OneLine(s)
  {
    if s != "" {
      NoBreaks(s[1..]);
      assert s == [s[0]] + s[1..];
    }
  }

  /** Every line feed ends a line. */
  lemma {:induction false} LinesCoverBreaks(s: string)
    ensures Breaks(s) <= |Lines(s)|
    decreases |s|
  {
    var i := IndexOf(s, '\n');
    if i == |s| {
      NoBreaks(s);
    } else {
      LinesCoverBreaks(s[i + 1..]);
      NoBreaks(s[..i]);
      BreaksAppend(s[..i], s[i..]);
      assert s == s[..i] + s[i..] && s[i..][1..] == s[i + 1..];
    }
  }

  /** A line that is none adds a line feed of its own. */
  lemma {:induction false} UnlinesBreaks(ls: seq<string>, i: nat)
    requires i < |ls| && !OneLine(ls[i])
    ensures Breaks(Unlines(ls)) > |ls|
  {
    NoBreaks(ls[0]);
    BreaksAppend(ls[0] + "\n", Unlines(ls[1..]));
    BreaksAppend(ls[0], "\n");
    if i == 0 {
      UnlinesHaveBreaks(ls[1..]);
    } else {
      UnlinesBreaks(ls[1..], i - 1);
    }
  }

  lemma {:induction false} UnlinesHaveBreaks(ls: seq<string>)
    ensures Breaks(Unlines(ls)) >= |ls|
  {
    if ls != [] {
      BreaksAppend(ls[0] + "\n", Unlines(ls[1..]));
      BreaksAppend(ls[0], "\n");
      UnlinesHaveBreaks(ls[1..]);
    }
  }

  // ---------------------------------------------------------------------------
  // Trimming
  // ---------------------------------------------------------------------------

  lemma {:induction false} TrimStartSkips(w: string, s: string)
    requires AllWhitespace(w)
    ensures TrimStart(w + s) == TrimStart(s)
  {
    if w == "" {
      assert w + s == s;
    } else {
      assert (w + s)[1..] == w[1..] + s;
      TrimStartSkips(w[1..], s);
    }
  }

  lemma {:induction false} TrimEndSkips(s: string, w: string)
    requires AllWhitespace(w)
    ensures TrimEnd(s + w) == TrimEnd(s)
  {
    if w == "" {
      assert s + w == s;
    } else {
      var n := |w| - 1;
      assert (s + w)[|s + w| - 1] == w[n];
      assert (s + w)[..|s + w| - 1] == s + w[..n];
      TrimEndSkips(s, w[..n]);
    }
  }

  /** `s` splits into leading white space and its left-trimmed part. */
  lemma {:induction false} TrimStartSplit(s: string) returns (w: string)
    ensures s == w + TrimStart(s) && AllWhitespace(w)
    ensures TrimStart(s) != "" ==> !IsWhitespace(TrimStart(s)[0])
  {
    if s != "" && IsWhitespace(s[0]) {
      var v := TrimStartSplit(s[1..]);
      w := [s[0]] + v;
    } else {
      w := "";
    }
  }

  lemma {:induction false} TrimEndSplit(s: string) returns (w: string)
    ensures s == TrimEnd(s) + w && AllWhitespace(w)
    ensures TrimEnd(s) != "" ==> !IsWhitespace(TrimEnd(s)[|TrimEnd(s)| - 1])
  {
    if s != "" && IsWhitespace(s[|s| - 1]) {
      var v := TrimEndSplit(s[..|s| - 1]);
      w := v + [s[|s| - 1]];
    } else {
      w := "";
    }
  }

  /** A core that neither starts nor ends with white space survives trimming. */
  lemma TrimCore(w: string, core: string, w': string)
    requires AllWhitespace(w) && AllWhitespace(w')
    requires core == "" || (!IsWhitespace(core[0]) && !IsWhitespace(core[|core| - 1]))
    ensures Trim(w + core + w') == core
  {
    assert w + core + w' == w + (core + w');
    TrimStartSkips(w, core + w');
    if core == "" {
      assert core + w' == w' + "";
      TrimStartSkips(w', "");
    } else {
      assert TrimStart(core + w') == core + w';
      TrimEndSkips(core, w');
    }
  }

  /** Every text is white space, its trimmed core, and white space again. */
  lemma TrimSplit(s: string) returns (w: string, w': string)
    ensures s == w + Trim(s) + w' && AllWhitespace(w) && AllWhitespace(w')
    ensures Trim(s) != "" ==> !IsWhitespace(Trim(s)[0]) && !IsWhitespace(Trim(s)[|Trim(s)| - 1])
  {
    w := TrimStartSplit(s);
    w' := TrimEndSplit(TrimStart(s));
    if Trim(s) != "" {
      assert TrimStart(s)[0] == Trim(s)[0];
    }
  }

  lemma TrimNonBlank(s: string)
    requires s != "" && !IsWhitespace(s[0])
    ensures TrimStart(s) == s && Trim(s) != ""
  {
    var w := TrimEndSplit(s);
    assert s[0] == (TrimEnd(s) + w)[0];
  }

  /** A carriage return that a line feed would swallow is white space to `Trim` anyway. */
  lemma TrimIgnoresCr(s: string)
    ensures Trim(StripCr(s)) == Trim(s)
  {
    if StripCr(s) != s {
      var n := |s| - 1;
      assert s == s[..n] + "\r";
      var w, w' := TrimSplit(s[..n]);
      assert s == w + Trim(s[..n]) + (w' + "\r");
      TrimCore(w, Trim(s[..n]), w' + "\r");
    }
  }

  lemma {:induction false} FirstWordIsPrefix(s: string)
    ensures FirstWord(s) <= s && NoWhitespace(FirstWord(s))
    ensures |FirstWord(s)| < |s| ==> IsWhitespace(s[|FirstWord(s)|])
  {
    if s != "" && !IsWhitespace(s[0]) {
      FirstWordIsPrefix(s[1..]);
    }
  }

  lemma {:induction false} FirstWordAppend(word: string, rest: string)
    requires NoWhitespace(word)
    requires rest == "" || IsWhitespace(rest[0])
    ensures FirstWord(word + rest) == word
  {
    if word == "" {
      assert word + rest == rest;
    } else {
      assert (word + rest)[1..] == word[1..] + rest;
      FirstWordAppend(word[1..], rest);
    }
  }

  // ---------------------------------------------------------------------------
  // Substrings
  // ---------------------------------------------------------------------------

  lemma ContainsFirst(s: string, needle: string)
    requires needle != ""
    ensures Contains(s, needle) ==> needle[0] in s
  {
    forall i | 0 <= i <= |s| && needle <= s[i..] ensures needle[0] in s {
      assert s[i] == needle[0];
    }
  }

  lemma ContainsAt(s: string, needle: string, i: nat)
    requires i <= |s| && needle <= s[i..]
    ensures Contains(s, needle)
  {
  }

  predicate Adjacent(s: string, a: char, b: char) {
    exists i | 0 <= i < |s| - 1 :: s[i] == a && s[i + 1] == b
  }

  lemma ContainsOne(s: string, c: char)
    ensures Contains(s, [c]) <==> c in s
  {
    if c in s {
      var i :| 0 <= i < |s| && s[i] == c;
      ContainsAt(s, [c], i);
    }
    forall i | 0 <= i <= |s| && [c] <= s[i..] ensures c in s {
      assert s[i] == c;
    }
  }

  lemma ContainsTwo(s: string, a: char, b: char)
    ensures Contains(s, [a, b]) <==> Adjacent(s, a, b)
  {
    if i :| 0 <= i < |s| - 1 && s[i] == a && s[i + 1] == b {
      ContainsAt(s, [a, b], i);
    }
    forall i | 0 <= i <= |s| && [a, b] <= s[i..] ensures Adjacent(s, a, b) {
      assert s[i] == s[i..][0] && s[i + 1] == s[i..][1];
    }
  }

  // ---------------------------------------------------------------------------
  // Letters
  // ---------------------------------------------------------------------------

  const CAPITALS := "ABCDEFGHIJKLMNOPQRSTUVWXYZ"
  const SMALL := "abcdefghijklmnopqrstuvwxyz"

  lemma Alphabet(k: nat)
    requires k < 26
    ensures CAPITALS[k] == 'A' + k as char && SMALL[k] == 'a' + k as char
  {
  }

  lemma IsCapital(c: char)
    ensures c in CAPITALS <==> 'A' <= c <= 'Z'
  {
    forall k | 0 <= k < 26 ensures CAPITALS[k] == 'A' + k as char { Alphabet(k); }
    if 'A' <= c <= 'Z' {
      assert c == CAPITALS[c as int - 'A' as int];
    }
  }

  lemma IsSmall(c: char)
    ensures c in SMALL <==> 'a' <= c <= 'z'
  {
    forall k | 0 <= k < 26 ensures SMALL[k] == 'a' + k as char { Alphabet(k); }
    if 'a' <= c <= 'z' {
      assert c == SMALL[c as int - 'a' as int];
    }
  }
}
