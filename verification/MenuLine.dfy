/** One header line of a generated `grub.cfg`: tokens, braces, and title, id and blocks. */
module MenuLine {
  import opened Text

  datatype Token = Word(text: string, quoted: bool) | Open | Close

  datatype MenuError = UnterminatedQuote | NoOpeningBrace | NoQuotedTitle | UnclosedBlock

  datatype Result<+T> = Ok(value: T) | Err(error: MenuError)

  datatype Mode = Unquoted | Single | Double

  /** A word under construction: its text and whether any part of it was quoted. */
  datatype Partial = Partial(text: string, quoted: bool)

  function Current(word: Option<Partial>): Partial {
    if word.Some? then word.value else Partial("", false)
  }

  function Pushed(word: Option<Partial>, c: char): Option<Partial> {
    var w := Current(word);
    Some(w.(text := w.text + [c]))
  }

  function Marked(word: Option<Partial>): Option<Partial> {
    Some(Current(word).(quoted := true))
  }

  function Flushed(word: Option<Partial>): seq<Token> {
    if word.Some? then [Word(word.value.text, word.value.quoted)] else []
  }

  function Prepend(tokens: seq<Token>, r: Result<seq<Token>>): Result<seq<Token>> {
    if r.Ok? then Ok(tokens + r.value) else r
  }

  lemma PrependTwice(a: seq<Token>, b: seq<Token>, r: Result<seq<Token>>)
    ensures Prepend(a, Prepend(b, r)) == Prepend(a + b, r)
    ensures Prepend([], r) == r
  {
    if r.Ok? {
      assert a + (b + r.value) == (a + b) + r.value;
      assert [] + r.value == r.value;
    }
  }

  /** The tokens of `s`, read from the given quoting mode with `word` under construction. */
  function Scan(s: string, mode: Mode, word: Option<Partial>): Result<seq<Token>>
    decreases |s|
  {
    if s == "" then
      if mode == Unquoted then Ok(Flushed(word)) else Err(UnterminatedQuote)
    else
      var c, rest := s[0], s[1..];
      match mode
      case Single => if c == '\'' then Scan(rest, Unquoted, word) else Scan(rest, Single, Pushed(word, c))
      case Double => if c == '"' then Scan(rest, Unquoted, word) else Scan(rest, Double, Pushed(word, c))
      case Unquoted =>
        if c == '\'' then Scan(rest, Single, Marked(word))
        else if c == '"' then Scan(rest, Double, Marked(word))
        else if c == '\\' then
          if rest == "" then Scan("", Unquoted, word) else Scan(rest[1..], Unquoted, Pushed(word, rest[0]))
        else if c == '{' then Prepend(Flushed(word) + [Open], Scan(rest, Unquoted, None))
        else if c == '}' then Prepend(Flushed(word) + [Close], Scan(rest, Unquoted, None))
        else if IsWhitespace(c) then Prepend(Flushed(word), Scan(rest, Unquoted, None))
        else Scan(rest, Unquoted, Pushed(word, c))
  }

  function Tokens(line: string): Result<seq<Token>> {
    Scan(line, Unquoted, None)
  }

  /** `tokenize_menu_line`. */
  method TokenizeMenuLine(line: string) returns (r: Result<seq<Token>>)
    ensures r == Tokens(line)
  {
    var tokens: seq<Token> := [];
    var word: Option<Partial> := None;
    var mode := Unquoted;
    var i := 0;
    PrependTwice([], [], Tokens(line));
    assert line[0..] == line;
    while i < |line|
      invariant i <= |line|
      invariant Tokens(line) == Prepend(tokens, Scan(line[i..], mode, word))
    {
      var c := line[i];
      assert line[i..][0] == c && line[i..][1..] == line[i + 1..];
      i := i + 1;
      match mode {
        case Unquoted =>
          if c == '\'' {
            mode, word := Single, Marked(word);
          } else if c == '"' {
            mode, word := Double, Marked(word);
          } else if c == '\\' {
            if i < |line| {
              assert line[i..][1..] == line[i + 1..];
              word := Pushed(word, line[i]);
              i := i + 1;
            }
          } else if c == '{' {
            PrependTwice(tokens, Flushed(word) + [Open], Scan(line[i..], Unquoted, None));
            tokens, word := tokens + (Flushed(word) + [Open]), None;
          } else if c == '}' {
            PrependTwice(tokens, Flushed(word) + [Close], Scan(line[i..], Unquoted, None));
            tokens, word := tokens + (Flushed(word) + [Close]), None;
          } else if IsWhitespace(c) {
            PrependTwice(tokens, Flushed(word), Scan(line[i..], Unquoted, None));
            tokens, word := tokens + Flushed(word), None;
          } else {
            word := Pushed(word, c);
          }
        case Single =>
          if c == '\'' {
            mode := Unquoted;
          } else {
            word := Pushed(word, c);
          }
        case Double =>
          if c == '"' {
            mode := Unquoted;
          } else {
            word := Pushed(word, c);
          }
      }
    }
    if mode != Unquoted {
      return Err(UnterminatedQuote);
    }
    return Ok(tokens + Flushed(word));
  }

  /** The unquoted braces of `s`, read from the given quoting mode. */
  function Braces(s: string, mode: Mode): seq<char>
    decreases |s|
  {
    if s == "" then [] else
      var c, rest := s[0], s[1..];
      match mode
      case Single => Braces(rest, if c == '\'' then Unquoted else Single)
      case Double => Braces(rest, if c == '"' then Unquoted else Double)
      case Unquoted =>
        if c == '\'' then Braces(rest, Single)
        else if c == '"' then Braces(rest, Double)
        else if c == '\\' then if rest == "" then [] else Braces(rest[1..], Unquoted)
        else if c == '{' || c == '}' then [c] + Braces(rest, Unquoted)
        else Braces(rest, Unquoted)
  }

  /** `unquoted_braces`. */
  method UnquotedBraces(line: string) returns (braces: seq<char>)
    ensures braces == Braces(line, Unquoted)
  {
    braces := [];
    var inSingle, inDouble := false, false;
    var i := 0;
    while i < |line|
      invariant i <= |line| && !(inSingle && inDouble)
      invariant Braces(line, Unquoted) ==
        braces + Braces(line[i..], if inSingle then Single else if inDouble then Double else Unquoted)
    {
      var c := line[i];
      assert line[i..][0] == c && line[i..][1..] == line[i + 1..];
      i := i + 1;
      if inSingle {
        inSingle := c != '\'';
      } else if inDouble {
        inDouble := c != '"';
      } else if c == '\'' {
        inSingle := true;
      } else if c == '"' {
        inDouble := true;
      } else if c == '\\' {
        if i < |line| {
          assert line[i..][1..] == line[i + 1..];
          i := i + 1;
        }
      } else if c == '{' || c == '}' {
        braces := braces + [c];
      }
    }
  }

  /** The braces among `tokens`, in order. */
  function BracesOf(tokens: seq<Token>): seq<char> {
    if tokens == [] then [] else BraceOf(tokens[0]) + BracesOf(tokens[1..])
  }

  function BraceOf(t: Token): seq<char> {
    match t case Open => ['{'] case Close => ['}'] case Word(_, _) => []
  }

  lemma {:induction false} BracesOfAppend(a: seq<Token>, b: seq<Token>)
    ensures BracesOf(a + b) == BracesOf(a) + BracesOf(b)
  {
    if a == [] {
      assert a + b == b;
    } else {
      assert (a + b)[1..] == a[1..] + b;
      BracesOfAppend(a[1..], b);
    }
  }

  lemma {:induction false} ScannersAgreeFrom(s: string, mode: Mode, word: Option<Partial>)
    requires Scan(s, mode, word).Ok?
    ensures BracesOf(Scan(s, mode, word).value) == Braces(s, mode)
    decreases |s|
  {
    if s != "" {
      var c, rest := s[0], s[1..];
      match mode
      case Single =>
        ScannersAgreeFrom(rest, if c == '\'' then Unquoted else Single, if c == '\'' then word else Pushed(word, c));
      case Double =>
        ScannersAgreeFrom(rest, if c == '"' then Unquoted else Double, if c == '"' then word else Pushed(word, c));
      case Unquoted =>
        if c == '\'' {
          ScannersAgreeFrom(rest, Single, Marked(word));
        } else if c == '"' {
          ScannersAgreeFrom(rest, Double, Marked(word));
        } else if c == '\\' {
          if rest != "" {
            ScannersAgreeFrom(rest[1..], Unquoted, Pushed(word, rest[0]));
          }
        } else if c == '{' || c == '}' || IsWhitespace(c) {
          ScannersAgreeFrom(rest, Unquoted, None);
          var brace := if c == '{' then [Open] else if c == '}' then [Close] else [];
          BracesOfAppend(Flushed(word), brace);
          assert Flushed(word) + [] == Flushed(word);
          BracesOfAppend(Flushed(word) + brace, Scan(rest, Unquoted, None).value);
        } else {
          ScannersAgreeFrom(rest, Unquoted, Pushed(word, c));
        }
    }
  }

  /** On every line the tokenizer accepts, the two scanners see the same braces. */
  lemma ScannersAgree(line: string)
    requires Tokens(line).Ok?
    ensures BracesOf(Tokens(line).value) == Braces(line, Unquoted)
  {
    ScannersAgreeFrom(line, Unquoted, None);
  }

  // ---------------------------------------------------------------------------
  // Header lines
  // ---------------------------------------------------------------------------

  const ID_OPTION := "$menuentry_id_option"

  datatype MenuLineParts = MenuLineParts(title: string, id: Option<string>, bodyDepth: nat)

  /** What has been read of a header line so far. */
  datatype Header = Header(title: Option<string>, id: Option<string>, sawOpen: bool, depth: nat)

  const EMPTY_HEADER := Header(None, None, false, 0)

  predicate IsIdOption(h: Header, t: Token) {
    !h.sawOpen && t == Word(ID_OPTION, false)
  }

  /** The header after one token that is not a consumed id. */
  function Absorb(h: Header, t: Token): Header {
    match t
    case Open => h.(sawOpen := true, depth := h.depth + 1)
    case Close => h.(depth := if h.depth > 0 then h.depth - 1 else 0)
    case Word(text, quoted) =>
      if !h.sawOpen && quoted && h.title.None? then h.(title := Some(text)) else h
  }

  function ReadHeader(h: Header, tokens: seq<Token>): Header
    decreases |tokens|
  {
    if tokens == [] then h
    else if IsIdOption(h, tokens[0]) && |tokens| > 1 && tokens[1].Word? then
      ReadHeader(h.(id := Some(tokens[1].text)), tokens[2..])
    else ReadHeader(Absorb(h, tokens[0]), tokens[1..])
  }

  function Finish(h: Header): Result<MenuLineParts> {
    if !h.sawOpen then Err(NoOpeningBrace)
    else if h.title.None? then Err(NoQuotedTitle)
    else Ok(MenuLineParts(h.title.value, h.id, h.depth))
  }

  function HeaderOf(line: string): Result<MenuLineParts> {
    var tokens := Tokens(line);
    if tokens.Err? then Err(tokens.error)
    else Finish(ReadHeader(EMPTY_HEADER, if tokens.value == [] then [] else tokens.value[1..]))
  }

  /** `parse_menu_line`. */
  method ParseMenuLine(line: string) returns (r: Result<MenuLineParts>)
    ensures r == HeaderOf(line)
  {
    var scanned := TokenizeMenuLine(line);
    if scanned.Err? {
      return Err(scanned.error);
    }
    var tokens := scanned.value;
    var title, id: Option<string>, sawOpen, bodyDepth: nat := None, None, false, 0;
    var i := 1;
    while i < |tokens|
      invariant 1 <= i
      invariant HeaderOf(line) ==
        Finish(ReadHeader(Header(title, id, sawOpen, bodyDepth), if i <= |tokens| then tokens[i..] else []))
    {
      assert tokens[i..][1..] == tokens[i + 1..];
      match tokens[i] {
        case Word(text, quoted) =>
          if !sawOpen {
            if quoted && title.None? {
              title := Some(text);
            } else if !quoted && text == ID_OPTION {
              if i + 1 < |tokens| && tokens[i + 1].Word? {
                assert tokens[i..][2..] == tokens[i + 2..];
                id := Some(tokens[i + 1].text);
                i := i + 1;
              }
            }
          }
        case Open =>
          sawOpen, bodyDepth := true, bodyDepth + 1;
        case Close =>
          bodyDepth := if bodyDepth > 0 then bodyDepth - 1 else 0;
      }
      i := i + 1;
    }
    if !sawOpen {
      return Err(NoOpeningBrace);
    }
    if title.None? {
      return Err(NoQuotedTitle);
    }
    return Ok(MenuLineParts(title.value, id, bodyDepth));
  }

  /** Brace balance that ignores a `}` when nothing is open. */
  function Saturating(depth: nat, braces: seq<char>): nat
    decreases |braces|
  {
    if braces == [] then depth
    else if braces[0] == '{' then Saturating(depth + 1, braces[1..])
    else Saturating(if depth > 0 then depth - 1 else 0, braces[1..])
  }

  lemma {:induction false} HeaderDepth(h: Header, tokens: seq<Token>)
    ensures ReadHeader(h, tokens).depth == Saturating(h.depth, BracesOf(tokens))
    decreases |tokens|
  {
    if tokens != [] {
      if IsIdOption(h, tokens[0]) && |tokens| > 1 && tokens[1].Word? {
        HeaderDepth(h.(id := Some(tokens[1].text)), tokens[2..]);
        assert tokens[1..][1..] == tokens[2..];
        assert BracesOf(tokens[1..]) == BracesOf(tokens[2..]);
      } else {
        HeaderDepth(Absorb(h, tokens[0]), tokens[1..]);
        assert BracesOf(tokens)[|BraceOf(tokens[0])|..] == BracesOf(tokens[1..]);
      }
    }
  }

  /** A header line opens exactly the blocks that the brace scanner would count on it:
      the depth taken from the tokens is the balance of the independently scanned braces. */
  lemma HeaderDepthIsScanned(line: string)
    requires HeaderOf(line).Ok?
    requires Tokens(line).value != [] && Tokens(line).value[0].Word?
    ensures HeaderOf(line).value.bodyDepth == Saturating(0, Braces(line, Unquoted))
  {
    var tokens := Tokens(line).value;
    HeaderDepth(EMPTY_HEADER, tokens[1..]);
    ScannersAgree(line);
    assert BracesOf(tokens) == BracesOf(tokens[1..]);
  }
}
