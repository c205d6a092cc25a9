/** Header lines of menu items, in every quoting style, read back. */
module MenuHeader {
  import opened Text
  import opened MenuLine
  import opened MenuWords

  /** What stands beside the title: an option such as `--class` or `ubuntu`, or the id option
      followed by an id. */
  datatype HeaderOption = Flag(word: WordText) | Id(word: WordText)

  /** A menu item as its header line spells it: each word quoted in single or double quotes,
      escaped or bare. */
  datatype Item = Item(leading: seq<HeaderOption>, title: WordText, options: seq<HeaderOption>)

  function Or(a: Option<string>, b: Option<string>): Option<string> {
    if a.Some? then a else b
  }

  /** The id given last. */
  function LastId(options: seq<HeaderOption>): Option<string> {
    if options == [] then None
    else Or(LastId(options[1..]), if options[0].Id? then Some(TextOf(options[0].word)) else None)
  }

  function ItemTitle(item: Item): string {
    TextOf(item.title)
  }

  function ItemId(item: Item): Option<string> {
    Or(LastId(item.options), LastId(item.leading))
  }

  // ---------------------------------------------------------------------------
  // Printing
  // ---------------------------------------------------------------------------

  function Bare(text: string): WordText {
    [Plain(text)]
  }

  function OptionWords(o: HeaderOption): seq<WordText> {
    match o
    case Flag(w) => [w]
    case Id(w) => [Bare(ID_OPTION), w]
  }

  function AllWords(options: seq<HeaderOption>): seq<WordText> {
    if options == [] then [] else OptionWords(options[0]) + AllWords(options[1..])
  }

  function SpaceAfterEach(words: seq<WordText>): string {
    if words == [] then "" else Printed(words[0]) + " " + SpaceAfterEach(words[1..])
  }

  function HeaderWords(keyword: string, item: Item): seq<WordText> {
    [Bare(keyword)] + (AllWords(item.leading) + ([item.title] + AllWords(item.options)))
  }

  /** The words, the opening brace, and whatever else stands on the line. */
  function HeaderLine(keyword: string, item: Item, tail: string): string {
    SpaceAfterEach(HeaderWords(keyword, item)) + ("{" + tail)
  }

  // ---------------------------------------------------------------------------
  // Which items are meant
  // ---------------------------------------------------------------------------

  predicate IsKeyword(word: string) {
    word == "menuentry" || word == "submenu"
  }

  predicate GoodOption(o: HeaderOption) {
    GoodWord(o.word) && (o.Flag? ==> TokenOf(o.word) != Word(ID_OPTION, false))
  }

  predicate GoodOptions(options: seq<HeaderOption>) {
    forall k | 0 <= k < |options| :: GoodOption(options[k])
  }

  predicate NoQuotedFlag(options: seq<HeaderOption>) {
    forall k | 0 <= k < |options| && options[k].Flag? :: !Quotes(options[k].word)
  }

  /** The title is the first quoted word, apart from ids. */
  predicate GoodItem(item: Item) {
    && GoodOptions(item.leading) && NoQuotedFlag(item.leading)
    && GoodWord(item.title) && Quotes(item.title)
    && GoodOptions(item.options)
  }

  // ---------------------------------------------------------------------------
  // Tokens of a printed header
  // ---------------------------------------------------------------------------

  function WordTokens(words: seq<WordText>): (r: seq<Token>)
    ensures |r| == |words|
    ensures forall i | 0 <= i < |words| :: r[i] == TokenOf(words[i])
  {
    seq(|words|, i requires 0 <= i < |words| => TokenOf(words[i]))
  }

  lemma WordTokensAppend(a: seq<WordText>, b: seq<WordText>)
    ensures WordTokens(a + b) == WordTokens(a) + WordTokens(b)
  {
  }

  lemma WordTokensOne(w: WordText)
    ensures WordTokens([w]) == [TokenOf(w)]
  {
  }

  predicate GoodWords(words: seq<WordText>) {
    forall k | 0 <= k < |words| :: GoodWord(words[k])
  }

  lemma {:induction false} ScanWords(words: seq<WordText>, rest: string)
    requires GoodWords(words)
    ensures Scan(SpaceAfterEach(words) + rest, Unquoted, None) ==
      Prepend(WordTokens(words), Scan(rest, Unquoted, None))
  {
    if words == [] {
      assert SpaceAfterEach(words) + rest == rest;
      PrependTwice([], [], Scan(rest, Unquoted, None));
    } else {
      var tail := SpaceAfterEach(words[1..]) + rest;
      assert SpaceAfterEach(words) + rest == Printed(words[0]) + ([' '] + tail);
      ScanWord(words[0], ' ', tail);
      ScanWords(words[1..], rest);
      PrependTwice([TokenOf(words[0])], WordTokens(words[1..]), Scan(rest, Unquoted, None));
      WordTokensOne(words[0]);
      assert [words[0]] + words[1..] == words;
      WordTokensAppend([words[0]], words[1..]);
    }
  }

  lemma BareIsGood(text: string)
    requires text != "" && forall i | 0 <= i < |text| :: IsBare(text[i])
    ensures GoodWord(Bare(text)) && TokenOf(Bare(text)) == Word(text, false) && Printed(Bare(text)) == text
  {
    assert Bare(text)[1..] == [];
    assert Printed([]) == "" && TextOf([]) == "";
    assert Printed(Bare(text)) == text + Printed([]);
    assert TextOf(Bare(text)) == text + TextOf([]);
    assert forall k | 0 <= k < |Bare(text)| :: !PieceQuotes(Bare(text)[k]);
  }

  lemma {:induction false} OptionWordsAreGood(options: seq<HeaderOption>)
    requires GoodOptions(options)
    ensures GoodWords(AllWords(options))
  {
    if options != [] {
      assert GoodOption(options[0]);
      BareIsGood(ID_OPTION);
      OptionWordsAreGood(options[1..]);
    }
  }

  lemma KeywordIsBare(keyword: string)
    requires IsKeyword(keyword)
    ensures forall i | 0 <= i < |keyword| :: IsBare(keyword[i])
  {
  }

  lemma ScanHeader(words: seq<WordText>, tail: string)
    requires GoodWords(words) && Tokens(tail).Ok?
    ensures Tokens(SpaceAfterEach(words) + ("{" + tail)) == Ok(WordTokens(words) + ([Open] + Tokens(tail).value))
  {
    ScanWords(words, "{" + tail);
    ScanBrace(true, None, tail);
    assert [] + [Open] == [Open] && [BraceChar(true)] + tail == "{" + tail;
  }

  /** What one option leaves in the header. */
  function WithOption(h: Header, o: HeaderOption): Header {
    if o.Id? then h.(id := Some(TextOf(o.word))) else h
  }

  lemma ReadFlag(h: Header, w: WordText, rest: seq<Token>)
    requires GoodOption(Flag(w)) && !h.sawOpen && (h.title.Some? || !Quotes(w))
    ensures ReadHeader(h, [TokenOf(w)] + rest) == ReadHeader(h, rest)
  {
    assert ([TokenOf(w)] + rest)[1..] == rest;
  }

  lemma ReadId(h: Header, w: WordText, rest: seq<Token>)
    requires !h.sawOpen
    ensures ReadHeader(h, [Word(ID_OPTION, false), TokenOf(w)] + rest) == ReadHeader(h.(id := Some(TextOf(w))), rest)
  {
    assert ([Word(ID_OPTION, false), TokenOf(w)] + rest)[2..] == rest;
  }

  lemma ReadOption(h: Header, o: HeaderOption, rest: seq<Token>)
    requires GoodOption(o) && !h.sawOpen && (h.title.Some? || o.Id? || !Quotes(o.word))
    ensures ReadHeader(h, WordTokens(OptionWords(o)) + rest) == ReadHeader(WithOption(h, o), rest)
  {
    WordTokensOne(o.word);
    if o.Flag? {
      ReadFlag(h, o.word, rest);
    } else {
      BareIsGood(ID_OPTION);
      WordTokensOne(Bare(ID_OPTION));
      WordTokensAppend([Bare(ID_OPTION)], [o.word]);
      ReadId(h, o.word, rest);
    }
  }

  /** Options change the id alone, and the last id stays. */
  lemma {:induction false} OptionsGiveId(h: Header, options: seq<HeaderOption>, rest: seq<Token>)
    requires GoodOptions(options) && !h.sawOpen && (h.title.Some? || NoQuotedFlag(options))
    ensures ReadHeader(h, WordTokens(AllWords(options)) + rest) ==
      ReadHeader(h.(id := Or(LastId(options), h.id)), rest)
    decreases |options|
  {
    if options == [] {
      assert WordTokens(AllWords(options)) + rest == rest;
    } else {
      var o, more := options[0], WordTokens(AllWords(options[1..])) + rest;
      WordTokensAppend(OptionWords(o), AllWords(options[1..]));
      assert WordTokens(AllWords(options)) + rest == WordTokens(OptionWords(o)) + more;
      assert GoodOption(o);
      ReadOption(h, o, more);
      OptionsGiveId(WithOption(h, o), options[1..], rest);
    }
  }

  /** Behind the opening brace only braces matter. */
  lemma {:induction false} OnlyBracesAfterOpen(h: Header, tokens: seq<Token>)
    requires h.sawOpen
    ensures ReadHeader(h, tokens) == h.(depth := ReadHeader(h, tokens).depth)
    decreases |tokens|
  {
    if tokens != [] {
      OnlyBracesAfterOpen(Absorb(h, tokens[0]), tokens[1..]);
    }
  }

  /** Reading the tokens of a header, once the words before the brace are known to give `h`. */
  lemma ReadTail(h: Header, tail: string)
    requires !h.sawOpen && h.depth == 0 && Tokens(tail).Ok?
    ensures ReadHeader(h, [Open] + Tokens(tail).value)
      == Header(h.title, h.id, true, Saturating(1, Braces(tail, Unquoted)))
  {
    var tokens := Tokens(tail).value;
    assert ([Open] + tokens)[1..] == tokens;
    var inside := h.(sawOpen := true, depth := 1);
    OnlyBracesAfterOpen(inside, tokens);
    HeaderDepth(inside, tokens);
    ScannersAgree(tail);
  }

  lemma HeaderWordsAreGood(keyword: string, item: Item)
    requires IsKeyword(keyword) && GoodItem(item)
    ensures GoodWords(HeaderWords(keyword, item))
  {
    KeywordIsBare(keyword);
    BareIsGood(keyword);
    OptionWordsAreGood(item.leading);
    OptionWordsAreGood(item.options);
  }

  lemma HeaderTokens(keyword: string, item: Item)
    requires IsKeyword(keyword)
    ensures WordTokens(HeaderWords(keyword, item)) == [Word(keyword, false)]
      + (WordTokens(AllWords(item.leading)) + ([TokenOf(item.title)] + WordTokens(AllWords(item.options))))
  {
    var a, b := AllWords(item.leading), AllWords(item.options);
    KeywordIsBare(keyword);
    BareIsGood(keyword);
    WordTokensAppend([Bare(keyword)], a + ([item.title] + b));
    WordTokensAppend(a, [item.title] + b);
    WordTokensAppend([item.title], b);
    WordTokensOne(Bare(keyword));
    WordTokensOne(item.title);
  }

  lemma HeaderOfTokens(line: string, first: Token, tokens: seq<Token>)
    requires Tokens(line) == Ok([first] + tokens)
    ensures HeaderOf(line) == Finish(ReadHeader(EMPTY_HEADER, tokens))
  {
    assert ([first] + tokens)[1..] == tokens;
  }

  /** Reading the words of an item, up to the brace. */
  lemma ReadItem(item: Item, rest: seq<Token>)
    requires GoodItem(item)
    ensures ReadHeader(EMPTY_HEADER, WordTokens(AllWords(item.leading))
          + ([TokenOf(item.title)] + (WordTokens(AllWords(item.options)) + rest)))
      == ReadHeader(Header(Some(ItemTitle(item)), ItemId(item), false, 0), rest)
  {
    var afterTitle := WordTokens(AllWords(item.options)) + rest;
    OptionsGiveId(EMPTY_HEADER, item.leading, [TokenOf(item.title)] + afterTitle);
    var h := EMPTY_HEADER.(id := LastId(item.leading));
    assert ([TokenOf(item.title)] + afterTitle)[1..] == afterTitle;
    OptionsGiveId(h.(title := Some(ItemTitle(item))), item.options, rest);
  }

  /** A header line in any quoting style parses to its own title and its last id, with as many
      blocks open as the braces of the line leave open. */
  lemma HeaderRoundTrip(keyword: string, item: Item, tail: string)
    requires IsKeyword(keyword) && GoodItem(item) && Tokens(tail).Ok?
    ensures HeaderOf(HeaderLine(keyword, item, tail))
      == Ok(MenuLineParts(ItemTitle(item), ItemId(item), Saturating(1, Braces(tail, Unquoted))))
  {
    var a, b := WordTokens(AllWords(item.leading)), WordTokens(AllWords(item.options));
    var rest := [Open] + Tokens(tail).value;
    HeaderTokens(keyword, item);
    HeaderWordsAreGood(keyword, item);
    ScanHeader(HeaderWords(keyword, item), tail);
    Reassociate(Word(keyword, false), a, TokenOf(item.title), b, rest);
    HeaderOfTokens(HeaderLine(keyword, item, tail), Word(keyword, false), a + ([TokenOf(item.title)] + (b + rest)));
    ReadItem(item, rest);
    ReadTail(Header(Some(ItemTitle(item)), ItemId(item), false, 0), tail);
  }

  lemma Reassociate(t: Token, a: seq<Token>, u: Token, b: seq<Token>, c: seq<Token>)
    ensures [t] + (a + ([u] + b)) + c == [t] + (a + ([u] + (b + c)))
  {
  }

  /** Without a quoted word before the brace the line is malformed, whatever follows the brace. */
  lemma UntitledIsRejected(keyword: string, options: seq<HeaderOption>, tail: string)
    requires IsKeyword(keyword) && GoodOptions(options) && NoQuotedFlag(options) && Tokens(tail).Ok?
    ensures HeaderOf(SpaceAfterEach([Bare(keyword)] + AllWords(options)) + ("{" + tail)) == Err(NoQuotedTitle)
  {
    var words := [Bare(keyword)] + AllWords(options);
    var rest := [Open] + Tokens(tail).value;
    KeywordIsBare(keyword);
    BareIsGood(keyword);
    OptionWordsAreGood(options);
    ScanHeader(words, tail);
    assert Tokens(SpaceAfterEach(words) + ("{" + tail)).value[1..] == WordTokens(AllWords(options)) + rest;
    OptionsGiveId(EMPTY_HEADER, options, rest);
    ReadTail(EMPTY_HEADER.(id := LastId(options)), tail);
  }

  lemma {:induction false} OpenIsSeen(h: Header, tokens: seq<Token>)
    ensures ReadHeader(h, tokens).sawOpen <==> h.sawOpen || Open in tokens
    decreases |tokens|
  {
    if tokens != [] {
      if IsIdOption(h, tokens[0]) && |tokens| > 1 && tokens[1].Word? {
        OpenIsSeen(h.(id := Some(tokens[1].text)), tokens[2..]);
        assert tokens == [tokens[0], tokens[1]] + tokens[2..];
      } else {
        OpenIsSeen(Absorb(h, tokens[0]), tokens[1..]);
        assert tokens == [tokens[0]] + tokens[1..];
      }
    }
  }

  /** A line of closed quotes is refused for its brace exactly when it opens none. */
  lemma NoBraceExactly(line: string)
    requires Tokens(line).Ok? && Tokens(line).value != []
    ensures HeaderOf(line) == Err(NoOpeningBrace) <==> Open !in Tokens(line).value[1..]
  {
    OpenIsSeen(EMPTY_HEADER, Tokens(line).value[1..]);
  }

  // ---------------------------------------------------------------------------
  // The spelling of grub-mkconfig
  // ---------------------------------------------------------------------------

  /** Every apostrophe becomes: close quote, escaped apostrophe, reopen quote. */
  function Escape(s: string): string {
    if s == "" then "" else (if s[0] == '\'' then "'\\''" else [s[0]]) + Escape(s[1..])
  }

  function Quote(s: string): string {
    "'" + Escape(s) + "'"
  }

  /** The pieces of that idiom. */
  function QuotePieces(s: string): WordText
    decreases |s|
  {
    var i := IndexOf(s, '\'');
    if i == |s| then [InSingle(s)] else [InSingle(s[..i]), Escaped('\'')] + QuotePieces(s[i + 1..])
  }

  lemma {:induction false} EscapePlain(s: string, rest: string)
    requires '\'' !in s
    ensures Escape(s + rest) == s + Escape(rest)
  {
    if s == "" {
      assert s + rest == rest;
    } else {
      assert (s + rest)[1..] == s[1..] + rest;
      EscapePlain(s[1..], rest);
    }
  }

  lemma TextOne(p: Piece)
    ensures TextOf([p]) == PieceText(p)
  {
    assert [p][1..] == [] && TextOf([]) == "";
    assert PieceText(p) + "" == PieceText(p);
  }

  lemma SplitAt(s: string, i: nat)
    requires i < |s|
    ensures s == s[..i] + ([s[i]] + s[i + 1..])
  {
  }

  lemma {:induction false} QuotePiecesText(s: string)
    ensures TextOf(QuotePieces(s)) == s
    decreases |s|
  {
    var i := IndexOf(s, '\'');
    if i == |s| {
      TextOne(InSingle(s));
    } else {
      QuotePiecesText(s[i + 1..]);
      TextTwo(InSingle(s[..i]), Escaped('\''), QuotePieces(s[i + 1..]));
      SplitAt(s, i);
    }
  }

  lemma TextTwo(p: Piece, q: Piece, ps: WordText)
    ensures TextOf([p, q] + ps) == PieceText(p) + (PieceText(q) + TextOf(ps))
  {
    assert ([p, q] + ps)[1..] == [q] + ps && ([q] + ps)[1..] == ps;
  }

  lemma PrintedTwo(p: Piece, q: Piece, ps: WordText)
    ensures Printed([p, q] + ps) == PrintPiece(p) + (PrintPiece(q) + Printed(ps))
  {
    assert ([p, q] + ps)[1..] == [q] + ps && ([q] + ps)[1..] == ps;
  }

  lemma Regroup(q: string, a: string, m: string, e: string)
    ensures q + (a + ((q + m + q) + e)) + q == (q + a + q) + (m + (q + e + q))
  {
  }

  lemma {:induction false} QuotePiecesPrinted(s: string)
    ensures Printed(QuotePieces(s)) == Quote(s)
    decreases |s|
  {
    var i := IndexOf(s, '\'');
    if i == |s| {
      assert s[..i] == s && s + "" == s;
      EscapePlain(s, "");
      assert [InSingle(s)][1..] == [] && Printed([]) == "";
      assert Printed([InSingle(s)]) == PrintPiece(InSingle(s)) + "";
    } else {
      var a, b := s[..i], s[i + 1..];
      QuotePiecesPrinted(b);
      EscapeApostrophe(a, b);
      assert s == a + (['\''] + b);
      PrintedTwo(InSingle(a), Escaped('\''), QuotePieces(b));
      Regroup("'", a, "\\'", Escape(b));
    }
  }

  lemma EscapeApostrophe(a: string, b: string)
    requires '\'' !in a
    ensures Escape(a + (['\''] + b)) == a + (("'" + "\\'" + "'") + Escape(b))
  {
    EscapePlain(a, ['\''] + b);
    assert (['\''] + b)[1..] == b;
    assert "'" + "\\'" + "'" == "'\\''";
  }

  lemma {:induction false} QuotePiecesAreGood(s: string)
    ensures forall k | 0 <= k < |QuotePieces(s)| :: GoodPiece(QuotePieces(s)[k])
    decreases |s|
  {
    var i := IndexOf(s, '\'');
    assert i == |s| ==> s[..i] == s;
    if i < |s| {
      QuotePiecesAreGood(s[i + 1..]);
    }
  }

  /** `Quote` spells every text, apostrophes included, as one quoted word. */
  lemma QuoteSpells(s: string)
    ensures GoodWord(QuotePieces(s)) && Quotes(QuotePieces(s))
    ensures TextOf(QuotePieces(s)) == s && Printed(QuotePieces(s)) == Quote(s)
  {
    QuotePiecesText(s);
    QuotePiecesPrinted(s);
    QuotePiecesAreGood(s);
    assert PieceQuotes(QuotePieces(s)[0]);
  }

  /** So does a pair of double quotes, for every text without one. */
  lemma DoubleQuotesSpell(s: string)
    requires '"' !in s
    ensures GoodWord([InDouble(s)]) && Quotes([InDouble(s)])
    ensures TextOf([InDouble(s)]) == s && Printed([InDouble(s)]) == "\"" + s + "\""
  {
    var ps := [InDouble(s)];
    assert PieceQuotes(ps[0]) && ps[1..] == [];
    assert TextOf([]) == "" && Printed([]) == "";
    assert TextOf(ps) == s + "" && Printed(ps) == "\"" + s + "\"" + "";
  }
}
