/** What a shell makes of a written line: the assignment is one word, or it would run the rest of
    the line as a command. */
module ShellWords {
  import opened Text
  import opened MenuWords
  import MenuLine
  import GrubConfig
  import GrubEdit

  /** Nothing in `value` quotes, escapes or groups. */
  predicate Unmarked(value: string) {
    forall i | 0 <= i < |value| :: value[i] !in "'\"\\{}"
  }

  /** The word `key=value`, quoted or not. */
  function AssignmentWord(key: string, value: string, quoted: bool): MenuLine.Token {
    MenuLine.Word(key + "=" + value, quoted)
  }

  predicate HasBlank(value: string) {
    exists i | 0 <= i < |value| :: value[i] == ' ' || value[i] == '\t'
  }

  lemma KeyIsBare(key: string)
    requires GrubConfig.IsValidKey(key)
    ensures forall i | 0 <= i < |key + "="| :: IsBare((key + "=")[i])
  {
    forall i | 0 <= i < |key| ensures IsBare(key[i]) {
      assert GrubConfig.IsKeyChar(key[i]);
    }
  }

  /** A line spelled as one word is tokenized as that word. */
  lemma OneWord(word: WordText)
    requires GoodWord(word)
    ensures MenuLine.Tokens(Printed(word)) == MenuLine.Ok([TokenOf(word)])
  {
    TokensInvertSpelling([], word);
    assert PrintLine([]) + Printed(word) == Printed(word);
    assert LineTokens([]) + [TokenOf(word)] == [TokenOf(word)];
  }

  lemma TwoPieces(a: Piece, b: Piece)
    ensures Printed([a, b]) == PrintPiece(a) + PrintPiece(b)
    ensures TextOf([a, b]) == PieceText(a) + PieceText(b)
    ensures Quotes([a, b]) <==> PieceQuotes(a) || PieceQuotes(b)
  {
    var ps := [a, b];
    assert ps[1..] == [b] && [b][1..] == [];
    assert Printed([]) == "" && TextOf([]) == "";
    assert ps[0] == a && ps[1] == b;
  }

  /** The value between double quotes. */
  lemma QuotedWord(key: string, value: string)
    requires GrubConfig.IsValidKey(key) && '"' !in value
    ensures MenuLine.Tokens(key + "=" + ("\"" + value + "\"")) == MenuLine.Ok([AssignmentWord(key, value, true)])
  {
    var a, b := Plain(key + "="), InDouble(value);
    KeyIsBare(key);
    TwoPieces(a, b);
    OneWord([a, b]);
  }

  /** The bare value. */
  lemma BareWord(key: string, value: string)
    requires GrubConfig.IsValidKey(key) && forall i | 0 <= i < |value| :: IsBare(value[i])
    ensures MenuLine.Tokens(key + "=" + value) == MenuLine.Ok([AssignmentWord(key, value, false)])
  {
    var a, b := Plain(key + "="), Plain(value);
    KeyIsBare(key);
    TwoPieces(a, b);
    OneWord([a, b]);
  }

  lemma FirstToken(word: WordText, blank: char, rest: string)
    requires GoodWord(word) && IsWhitespace(blank)
    ensures
      var tokens := MenuLine.Tokens(Printed(word) + ([blank] + rest));
      tokens.Ok? ==> tokens.value != [] && tokens.value[0] == TokenOf(word)
  {
    ScanWord(word, blank, rest);
  }

  lemma SplitText(key: string, value: string, k: nat)
    requires k < |value|
    ensures key + "=" + value == (key + "=" + value[..k]) + ([value[k]] + value[k + 1..])
    ensures key + "=" + value[..k] != key + "=" + value
  {
    assert |key + "=" + value[..k]| < |key + "=" + value|;
  }

  /** A bare value with other white space falls apart there. */
  lemma SplitWord(key: string, value: string, k: nat, quoted: bool)
    requires GrubConfig.IsValidKey(key) && k < |value| && IsWhitespace(value[k])
    requires forall i | 0 <= i < k :: IsBare(value[i])
    ensures MenuLine.Tokens(key + "=" + value) != MenuLine.Ok([AssignmentWord(key, value, quoted)])
  {
    var a, b := Plain(key + "="), Plain(value[..k]);
    KeyIsBare(key);
    TwoPieces(a, b);
    SplitText(key, value, k);
    FirstToken([a, b], value[k], value[k + 1..]);
  }

  /** The written line of a value without quotes, backslashes and braces is the one word
      `key=value`, and that word is quoted, exactly when the value is empty or has a blank or a tab;
      it is that word unquoted exactly when the value is a non-empty text without white space. */
  lemma WrittenLineIsOneWord(key: string, value: string)
    requires GrubConfig.IsValidKey(key) && Unmarked(value)
    ensures
      var tokens := MenuLine.Tokens(GrubEdit.BuildAssignmentLine(key, value));
      && (tokens == MenuLine.Ok([AssignmentWord(key, value, true)]) <==> value == "" || HasBlank(value))
      && (tokens == MenuLine.Ok([AssignmentWord(key, value, false)]) <==> value != "" && NoWhitespace(value))
  {
    if value == "" || HasBlank(value) {
      QuotedWord(key, value);
      assert key + "=" + ("\"" + value + "\"") == key + "=\"" + value + "\"";
    } else if NoWhitespace(value) {
      BareWord(key, value);
    } else {
      FirstWordIsPrefix(value);
      SplitWord(key, value, |FirstWord(value)|, true);
      SplitWord(key, value, |FirstWord(value)|, false);
    }
  }
}
