/** Words as a shell line spells them, piece by piece, and the proof that the tokenizer reads every
    spelling back: every branch of the scan is used by one kind of piece. The brace scanner is shown
    to see the same braces. */
module MenuWords {
  import opened Text
  import opened MenuLine

  /** A stretch of a word: plain characters, text in single or double quotes, or one character
      after a backslash. */
  datatype Piece = Plain(text: string) | InSingle(text: string) | InDouble(text: string) | Escaped(c: char)

  type WordText = seq<Piece>

  predicate IsBare(c: char) {
    !IsWhitespace(c) && c !in "'\"\\{}"
  }

  predicate GoodPiece(p: Piece) {
    match p
    case Plain(t) => forall i | 0 <= i < |t| :: IsBare(t[i])
    case InSingle(t) => '\'' !in t
    case InDouble(t) => '"' !in t
    case Escaped(_) => true
  }

  function PieceText(p: Piece): string {
    if p.Escaped? then [p.c] else p.text
  }

  predicate PieceQuotes(p: Piece) {
    p.InSingle? || p.InDouble?
  }

  function PrintPiece(p: Piece): string {
    match p
    case Plain(t) => t
    case InSingle(t) => "'" + t + "'"
    case InDouble(t) => "\"" + t + "\""
    case Escaped(c) => ['\\', c]
  }

  function Printed(ps: WordText): string {
    if ps == [] then "" else PrintPiece(ps[0]) + Printed(ps[1..])
  }

  /** What the word says. */
  function TextOf(ps: WordText): string {
    if ps == [] then "" else PieceText(ps[0]) + TextOf(ps[1..])
  }

  predicate Quotes(ps: WordText) {
    exists k | 0 <= k < |ps| :: PieceQuotes(ps[k])
  }

  /** A word of good pieces that leaves a trace: some text, or a pair of quotes. */
  predicate GoodWord(ps: WordText) {
    (forall k | 0 <= k < |ps| :: GoodPiece(ps[k])) && (TextOf(ps) != "" || Quotes(ps))
  }

  function TokenOf(ps: WordText): Token {
    Word(TextOf(ps), Quotes(ps))
  }

  // ---------------------------------------------------------------------------
  // Reading one word
  // ---------------------------------------------------------------------------

  /** The word under construction after `text` more, `quoted` or not. */
  function Grown(word: Option<Partial>, text: string, quoted: bool): Option<Partial> {
    if text == "" && !quoted then word
    else Some(Partial(Current(word).text + text, Current(word).quoted || quoted))
  }

  lemma {:induction false} ScanPlain(t: string, word: Option<Partial>, rest: string)
    requires forall i | 0 <= i < |t| :: IsBare(t[i])
    ensures Scan(t + rest, Unquoted, word) == Scan(rest, Unquoted, Grown(word, t, false))
  {
    if t == "" {
      assert t + rest == rest;
    } else {
      var w := Pushed(word, t[0]);
      assert (t + rest)[1..] == t[1..] + rest && IsBare(t[0]);
      ScanPlain(t[1..], w, rest);
      assert Current(word).text + t == Current(word).text + [t[0]] + t[1..];
      assert t[1..] == "" ==> Current(w).text == Current(word).text + t;
    }
  }

  lemma {:induction false} ScanSingle(t: string, word: Partial, rest: string)
    requires '\'' !in t
    ensures Scan(t + ("'" + rest), Single, Some(word)) == Scan(rest, Unquoted, Some(word.(text := word.text + t)))
  {
    if t == "" {
      assert t + ("'" + rest) == "'" + rest && ("'" + rest)[1..] == rest && word.text + t == word.text;
    } else {
      assert (t + ("'" + rest))[1..] == t[1..] + ("'" + rest);
      ScanSingle(t[1..], word.(text := word.text + [t[0]]), rest);
      assert word.text + t == word.text + [t[0]] + t[1..];
    }
  }

  lemma {:induction false} ScanDouble(t: string, word: Partial, rest: string)
    requires '"' !in t
    ensures Scan(t + ("\"" + rest), Double, Some(word)) == Scan(rest, Unquoted, Some(word.(text := word.text + t)))
  {
    if t == "" {
      assert t + ("\"" + rest) == "\"" + rest && ("\"" + rest)[1..] == rest && word.text + t == word.text;
    } else {
      assert (t + ("\"" + rest))[1..] == t[1..] + ("\"" + rest);
      ScanDouble(t[1..], word.(text := word.text + [t[0]]), rest);
      assert word.text + t == word.text + [t[0]] + t[1..];
    }
  }

  lemma ScanSingleQuoted(t: string, word: Option<Partial>, rest: string)
    requires '\'' !in t
    ensures Scan("'" + t + "'" + rest, Unquoted, word) == Scan(rest, Unquoted, Grown(word, t, true))
  {
    var s := "'" + t + "'" + rest;
    assert s[1..] == t + ("'" + rest);
    ScanSingle(t, Marked(word).value, rest);
  }

  lemma ScanDoubleQuoted(t: string, word: Option<Partial>, rest: string)
    requires '"' !in t
    ensures Scan("\"" + t + "\"" + rest, Unquoted, word) == Scan(rest, Unquoted, Grown(word, t, true))
  {
    var s := "\"" + t + "\"" + rest;
    assert s[1..] == t + ("\"" + rest);
    ScanDouble(t, Marked(word).value, rest);
  }

  lemma ScanEscaped(c: char, word: Option<Partial>, rest: string)
    ensures Scan(['\\', c] + rest, Unquoted, word) == Scan(rest, Unquoted, Grown(word, [c], false))
  {
    var s := ['\\', c] + rest;
    assert s[1..][0] == c && s[1..][1..] == rest;
  }

  lemma ScanPiece(p: Piece, word: Option<Partial>, rest: string)
    requires GoodPiece(p)
    ensures Scan(PrintPiece(p) + rest, Unquoted, word)
      == Scan(rest, Unquoted, Grown(word, PieceText(p), PieceQuotes(p)))
  {
    match p
    case Plain(t) => ScanPlain(t, word, rest);
    case InSingle(t) => ScanSingleQuoted(t, word, rest);
    case InDouble(t) => ScanDoubleQuoted(t, word, rest);
    case Escaped(c) => ScanEscaped(c, word, rest);
  }

  lemma QuotesFirst(ps: WordText)
    requires ps != []
    ensures Quotes(ps) <==> PieceQuotes(ps[0]) || Quotes(ps[1..])
  {
    if k :| 0 <= k < |ps| && PieceQuotes(ps[k]) {
      if k > 0 { assert PieceQuotes(ps[1..][k - 1]); }
    }
    if k :| 0 <= k < |ps| - 1 && PieceQuotes(ps[1..][k]) { assert PieceQuotes(ps[k + 1]); }
  }

  lemma GrownTwice(word: Option<Partial>, a: string, p: bool, b: string, q: bool)
    ensures Grown(Grown(word, a, p), b, q) == Grown(word, a + b, p || q)
  {
    assert Current(word).text + a + b == Current(word).text + (a + b);
    if a == "" {
      assert a + b == b;
      assert Current(word).text + a == Current(word).text;
    }
    if b == "" {
      assert a + b == a;
      assert Current(word).text + a + b == Current(word).text + a;
    }
  }

  lemma {:induction false} ScanPieces(ps: WordText, word: Option<Partial>, rest: string)
    requires forall k | 0 <= k < |ps| :: GoodPiece(ps[k])
    ensures Scan(Printed(ps) + rest, Unquoted, word) == Scan(rest, Unquoted, Grown(word, TextOf(ps), Quotes(ps)))
  {
    if ps == [] {
      assert Printed(ps) + rest == rest;
    } else {
      var tail := Printed(ps[1..]) + rest;
      assert Printed(ps) + rest == PrintPiece(ps[0]) + tail;
      ScanPiece(ps[0], word, tail);
      ScanPieces(ps[1..], Grown(word, PieceText(ps[0]), PieceQuotes(ps[0])), rest);
      GrownTwice(word, PieceText(ps[0]), PieceQuotes(ps[0]), TextOf(ps[1..]), Quotes(ps[1..]));
      QuotesFirst(ps);
    }
  }

  /** A blank ends the word under construction. */
  lemma ScanBlank(blank: char, word: Option<Partial>, rest: string)
    requires IsWhitespace(blank)
    ensures Scan([blank] + rest, Unquoted, word) == Prepend(Flushed(word), Scan(rest, Unquoted, None))
  {
    assert ([blank] + rest)[1..] == rest;
  }

  /** A brace ends it too. */
  lemma ScanBrace(open: bool, word: Option<Partial>, rest: string)
    ensures Scan([BraceChar(open)] + rest, Unquoted, word)
      == Prepend(Flushed(word) + [if open then Open else Close], Scan(rest, Unquoted, None))
  {
    assert ([BraceChar(open)] + rest)[1..] == rest;
  }

  lemma GrownFromNothing(ps: WordText)
    requires ps == [] || GoodWord(ps)
    ensures Flushed(Grown(None, TextOf(ps), Quotes(ps))) == if ps == [] then [] else [TokenOf(ps)]
  {
    assert "" + TextOf(ps) == TextOf(ps);
  }

  /** A spelled word is read back as one word, quoted exactly if some piece of it is. */
  lemma ScanWord(ps: WordText, blank: char, rest: string)
    requires GoodWord(ps) && IsWhitespace(blank)
    ensures Scan(Printed(ps) + ([blank] + rest), Unquoted, None) == Prepend([TokenOf(ps)], Scan(rest, Unquoted, None))
  {
    ScanPieces(ps, None, [blank] + rest);
    ScanBlank(blank, Grown(None, TextOf(ps), Quotes(ps)), rest);
    GrownFromNothing(ps);
  }

  // ---------------------------------------------------------------------------
  // Reading a whole line
  // ---------------------------------------------------------------------------

  /** A word followed by a blank, a blank, or a brace, which also ends the word before it. */
  datatype Lexeme = Spaced(word: WordText, blank: char) | Blank(blank: char) | Brace(word: WordText, open: bool)

  predicate GoodLexeme(l: Lexeme) {
    match l
    case Spaced(w, b) => GoodWord(w) && IsWhitespace(b)
    case Blank(b) => IsWhitespace(b)
    case Brace(w, _) => w == [] || GoodWord(w)
  }

  function QuoteChar(single: bool): char {
    if single then '\'' else '"'
  }

  function BraceChar(open: bool): char {
    if open then '{' else '}'
  }

  function PrintLexeme(l: Lexeme): string {
    match l
    case Spaced(w, b) => Printed(w) + [b]
    case Blank(b) => [b]
    case Brace(w, open) => Printed(w) + [BraceChar(open)]
  }

  function LexemeTokens(l: Lexeme): seq<Token> {
    match l
    case Spaced(w, _) => [TokenOf(w)]
    case Blank(_) => []
    case Brace(w, open) => (if w == [] then [] else [TokenOf(w)]) + [if open then Open else Close]
  }

  function PrintLine(ls: seq<Lexeme>): string {
    if ls == [] then "" else PrintLexeme(ls[0]) + PrintLine(ls[1..])
  }

  function LineTokens(ls: seq<Lexeme>): seq<Token> {
    if ls == [] then [] else LexemeTokens(ls[0]) + LineTokens(ls[1..])
  }

  lemma ScanLexeme(l: Lexeme, rest: string)
    requires GoodLexeme(l)
    ensures Scan(PrintLexeme(l) + rest, Unquoted, None) == Prepend(LexemeTokens(l), Scan(rest, Unquoted, None))
  {
    match l
    case Spaced(w, b) =>
      assert Printed(w) + [b] + rest == Printed(w) + ([b] + rest);
      ScanWord(w, b, rest);
    case Blank(b) =>
      ScanBlank(b, None, rest);
    case Brace(w, open) =>
      assert Printed(w) + [BraceChar(open)] + rest == Printed(w) + ([BraceChar(open)] + rest);
      ScanPieces(w, None, [BraceChar(open)] + rest);
      ScanBrace(open, Grown(None, TextOf(w), Quotes(w)), rest);
      GrownFromNothing(w);
  }

  lemma {:induction false} ScanLexemes(ls: seq<Lexeme>, rest: string)
    requires forall k | 0 <= k < |ls| :: GoodLexeme(ls[k])
    ensures Scan(PrintLine(ls) + rest, Unquoted, None) == Prepend(LineTokens(ls), Scan(rest, Unquoted, None))
  {
    if ls == [] {
      assert PrintLine(ls) + rest == rest;
      PrependTwice([], [], Scan(rest, Unquoted, None));
    } else {
      var tail := PrintLine(ls[1..]) + rest;
      assert PrintLine(ls) + rest == PrintLexeme(ls[0]) + tail;
      ScanLexeme(ls[0], tail);
      ScanLexemes(ls[1..], rest);
      PrependTwice(LexemeTokens(ls[0]), LineTokens(ls[1..]), Scan(rest, Unquoted, None));
    }
  }

  /** The tokenizer inverts spelling: however the words of a line are quoted and escaped, and
      wherever its blanks and braces stand, it returns exactly those words and braces. A last word
      needs no blank after it. */
  lemma TokensInvertSpelling(ls: seq<Lexeme>, last: WordText)
    requires forall k | 0 <= k < |ls| :: GoodLexeme(ls[k])
    requires last == [] || GoodWord(last)
    ensures Tokens(PrintLine(ls) + Printed(last))
      == Ok(LineTokens(ls) + if last == [] then [] else [TokenOf(last)])
  {
    ScanLexemes(ls, Printed(last));
    ScanPieces(last, None, "");
    assert Printed(last) + "" == Printed(last) && "" + TextOf(last) == TextOf(last);
  }

  /** A quote that is never closed makes the line malformed. */
  lemma OpenQuoteIsRejected(ls: seq<Lexeme>, before: WordText, single: bool, text: string)
    requires forall k | 0 <= k < |ls| :: GoodLexeme(ls[k])
    requires forall k | 0 <= k < |before| :: GoodPiece(before[k])
    requires QuoteChar(single) !in text
    ensures Tokens(PrintLine(ls) + (Printed(before) + ([QuoteChar(single)] + text))) == Err(UnterminatedQuote)
  {
    var quote := QuoteChar(single);
    ScanLexemes(ls, Printed(before) + ([quote] + text));
    ScanPieces(before, None, [quote] + text);
    assert ([quote] + text)[1..] == text;
    NeverClosed(text, single, Marked(Grown(None, TextOf(before), Quotes(before))));
  }

  lemma {:induction false} NeverClosed(text: string, single: bool, word: Option<Partial>)
    requires QuoteChar(single) !in text
    ensures Scan(text, if single then Single else Double, word) == Err(UnterminatedQuote)
  {
    if text != "" { NeverClosed(text[1..], single, Pushed(word, text[0])); }
  }

  /** A backslash at the end of a line escapes nothing and is dropped. */
  lemma LastBackslashIsDropped(ls: seq<Lexeme>, last: WordText)
    requires forall k | 0 <= k < |ls| :: GoodLexeme(ls[k])
    requires last == [] || GoodWord(last)
    ensures Tokens(PrintLine(ls) + (Printed(last) + "\\")) == Tokens(PrintLine(ls) + Printed(last))
  {
    TokensInvertSpelling(ls, last);
    ScanLexemes(ls, Printed(last) + "\\");
    ScanPieces(last, None, "\\");
    assert "\\"[1..] == "" && "" + TextOf(last) == TextOf(last);
    assert Scan("\\", Unquoted, Grown(None, TextOf(last), Quotes(last)))
      == Ok(Flushed(Grown(None, TextOf(last), Quotes(last))));
  }

  // ---------------------------------------------------------------------------
  // The brace scanner on the same lines
  // ---------------------------------------------------------------------------

  lemma {:induction false} BracesInside(text: string, single: bool, rest: string)
    requires QuoteChar(single) !in text
    ensures Braces(text + rest, if single then Single else Double)
      == Braces(rest, if single then Single else Double)
  {
    if text == "" {
      assert text + rest == rest;
    } else {
      assert (text + rest)[1..] == text[1..] + rest;
      BracesInside(text[1..], single, rest);
    }
  }

  lemma {:induction false} BracesPlain(t: string, rest: string)
    requires forall i | 0 <= i < |t| :: IsBare(t[i])
    ensures Braces(t + rest, Unquoted) == Braces(rest, Unquoted)
  {
    if t == "" {
      assert t + rest == rest;
    } else {
      assert (t + rest)[1..] == t[1..] + rest && IsBare(t[0]);
      BracesPlain(t[1..], rest);
    }
  }

  /** Nothing between two quotes is a brace. */
  lemma BracesQuoted(text: string, single: bool, rest: string)
    requires QuoteChar(single) !in text
    ensures Braces([QuoteChar(single)] + text + [QuoteChar(single)] + rest, Unquoted) == Braces(rest, Unquoted)
  {
    var quote := QuoteChar(single);
    var s := [quote] + text + [quote] + rest;
    assert s[1..] == text + ([quote] + rest) && ([quote] + rest)[1..] == rest;
    BracesInside(text, single, [quote] + rest);
  }

  lemma BracesPiece(p: Piece, rest: string)
    requires GoodPiece(p)
    ensures Braces(PrintPiece(p) + rest, Unquoted) == Braces(rest, Unquoted)
  {
    match p
    case Plain(t) => BracesPlain(t, rest);
    case InSingle(t) => BracesQuoted(t, true, rest);
    case InDouble(t) => BracesQuoted(t, false, rest);
    case Escaped(c) =>
      assert (['\\', c] + rest)[1..][1..] == rest;
  }

  lemma {:induction false} BracesPieces(ps: WordText, rest: string)
    requires forall k | 0 <= k < |ps| :: GoodPiece(ps[k])
    ensures Braces(Printed(ps) + rest, Unquoted) == Braces(rest, Unquoted)
  {
    if ps == [] {
      assert Printed(ps) + rest == rest;
    } else {
      assert Printed(ps) + rest == PrintPiece(ps[0]) + (Printed(ps[1..]) + rest);
      BracesPiece(ps[0], Printed(ps[1..]) + rest);
      BracesPieces(ps[1..], rest);
    }
  }

  /** The braces of the lexemes. */
  function LineBracesOf(ls: seq<Lexeme>): seq<char> {
    if ls == [] then [] else LexemeBraces(ls[0]) + LineBracesOf(ls[1..])
  }

  function LexemeBraces(l: Lexeme): seq<char> {
    if l.Brace? then [BraceChar(l.open)] else []
  }

  lemma BracesOfLexeme(l: Lexeme, rest: string)
    requires GoodLexeme(l)
    ensures Braces(PrintLexeme(l) + rest, Unquoted) == LexemeBraces(l) + Braces(rest, Unquoted)
  {
    var word := if l.Blank? then [] else l.word;
    var c := if l.Brace? then BraceChar(l.open) else l.blank;
    assert Printed([]) == "";
    assert PrintLexeme(l) + rest == Printed(word) + ([c] + rest);
    BracesPieces(word, [c] + rest);
    assert ([c] + rest)[1..] == rest;
    assert l.Brace? || (c != '\'' && c != '"' && c != '\\' && c != '{' && c != '}');
  }

  lemma PrintLineFirst(ls: seq<Lexeme>, rest: string)
    requires ls != []
    ensures PrintLine(ls) + rest == PrintLexeme(ls[0]) + (PrintLine(ls[1..]) + rest)
  {
  }

  lemma BracesFirst(ls: seq<Lexeme>, rest: seq<char>)
    requires ls != []
    ensures LineBracesOf(ls) + rest == LexemeBraces(ls[0]) + (LineBracesOf(ls[1..]) + rest)
  {
  }

  lemma {:induction false} BracesOfLexemes(ls: seq<Lexeme>, rest: string)
    requires forall k | 0 <= k < |ls| :: GoodLexeme(ls[k])
    ensures Braces(PrintLine(ls) + rest, Unquoted) == LineBracesOf(ls) + Braces(rest, Unquoted)
  {
    if ls == [] {
      assert PrintLine(ls) + rest == rest;
    } else {
      var tail := PrintLine(ls[1..]) + rest;
      PrintLineFirst(ls, rest);
      BracesOfLexeme(ls[0], tail);
      BracesOfLexemes(ls[1..], rest);
      BracesFirst(ls, Braces(rest, Unquoted));
    }
  }

  /** On a line whose last quote is never closed, the brace scanner still reports exactly the braces
      before that quote. */
  lemma BracesBeforeOpenQuote(ls: seq<Lexeme>, before: WordText, single: bool, text: string)
    requires forall k | 0 <= k < |ls| :: GoodLexeme(ls[k])
    requires forall k | 0 <= k < |before| :: GoodPiece(before[k])
    requires QuoteChar(single) !in text
    ensures Braces(PrintLine(ls) + (Printed(before) + ([QuoteChar(single)] + text)), Unquoted)
      == LineBracesOf(ls)
  {
    var quote := QuoteChar(single);
    BracesOfLexemes(ls, Printed(before) + ([quote] + text));
    BracesPieces(before, [quote] + text);
    assert ([quote] + text)[1..] == text && text + "" == text;
    BracesInside(text, single, "");
  }
}
