/** Printing a menu in any quoting style, and the parser that inverts it. */
module MenuRender {
  import opened Text
  import opened MenuLine
  import opened MenuWords
  import opened MenuHeader
  import opened MenuParser
  import opened MenuForest

  /** A menu level: its first member and everything after it. `tail` is what stands behind the
      opening brace of a header line; an inline item is closed again there. */
  datatype Menu =
    | End
    | Noise(line: string, rest: Menu)
    | Block(header: string, body: seq<string>, rest: Menu)
    | Inline(isSubmenu: bool, item: Item, tail: string, rest: Menu)
    | Entry(item: Item, tail: string, body: seq<string>, rest: Menu)
    | Submenu(item: Item, tail: string, children: Menu, rest: Menu)

  // ---------------------------------------------------------------------------
  // Printing
  // ---------------------------------------------------------------------------

  function Keyword(isSubmenu: bool): string {
    if isSubmenu then "submenu" else "menuentry"
  }

  function Tabs(n: nat): string {
    seq(n, _ => '\t')
  }

  function RenderLines(m: Menu, depth: nat): seq<string> {
    match m
    case End => []
    case Noise(line, rest) => [line] + RenderLines(rest, depth)
    case Block(header, body, rest) => Braced(header, body, depth, RenderLines(rest, depth))
    case Inline(sub, item, tail, rest) => [ItemLine(sub, item, tail, depth)] + RenderLines(rest, depth)
    case Entry(item, tail, body, rest) =>
      Braced(ItemLine(false, item, tail, depth), body, depth, RenderLines(rest, depth))
    case Submenu(item, tail, children, rest) =>
      Braced(ItemLine(true, item, tail, depth), RenderLines(children, depth + 1), depth, RenderLines(rest, depth))
  }

  function ItemLine(isSubmenu: bool, item: Item, tail: string, depth: nat): string {
    Tabs(depth) + HeaderLine(Keyword(isSubmenu), item, tail)
  }

  /** A line that opens a block, the lines inside it, its closing line, and what follows. */
  function Braced(header: string, inner: seq<string>, depth: nat, tail: seq<string>): seq<string> {
    [header] + (inner + ([Tabs(depth) + "}"] + tail))
  }

  function Render(m: Menu): string {
    Unlines(RenderLines(m, 0))
  }

  // ---------------------------------------------------------------------------
  // Which menus are meant
  // ---------------------------------------------------------------------------

  /** A header line of an item whose closed quotes and final `tail` leave `OpenAfter(tail)` blocks open. */
  predicate GoodHeader(isSubmenu: bool, item: Item, tail: string) {
    GoodItem(item) && Tokens(TrimEnd(tail)).Ok? && OneLine(HeaderLine(Keyword(isSubmenu), item, tail))
  }

  function OpenAfter(tail: string): nat {
    Saturating(1, Braces(TrimEnd(tail), Unquoted))
  }

  predicate Ignored(trimmed: string) {
    trimmed == "" || trimmed[0] == '#'
  }

  /** The unquoted braces a line contributes; a comment contributes none. */
  function LineBraces(line: string): seq<char> {
    if Ignored(Trim(line)) then [] else Braces(Trim(line), Unquoted)
  }

  function AllBraces(body: seq<string>): seq<char> {
    if body == [] then [] else LineBraces(body[0]) + AllBraces(body[1..])
  }

  function Net(braces: seq<char>): int {
    if braces == [] then 0 else (if braces[0] == '{' then 1 else -1) + Net(braces[1..])
  }

  /** No prefix closes more blocks than the `depth` that are open and those it opens itself. */
  ghost predicate Covered(depth: int, braces: seq<char>) {
    forall k | 0 <= k <= |braces| :: depth + Net(braces[..k]) >= 0
  }

  /** Lines inside `depth` ignored blocks that close all of them but one, which stays open throughout. */
  ghost predicate GoodBody(depth: nat, body: seq<string>) {
    AllOneLine(body) && depth + Net(AllBraces(body)) == 1 && Covered(depth - 1, AllBraces(body))
  }

  ghost predicate GoodNoise(line: string) {
    OneLine(line) && Covered(0, LineBraces(line)) && (Ignored(Trim(line)) || !IsKeyword(FirstWord(Trim(line))))
  }

  ghost predicate WellFormed(m: Menu) {
    match m
    case End => true
    case Noise(line, rest) => GoodNoise(line) && Net(LineBraces(line)) == 0 && WellFormed(rest)
    case Block(header, body, rest) =>
      var depth := Net(LineBraces(header));
      GoodNoise(header) && depth > 0 && GoodBody(depth, body) && WellFormed(rest)
    case Inline(sub, item, tail, rest) => GoodHeader(sub, item, tail) && OpenAfter(tail) == 0 && WellFormed(rest)
    case Entry(item, tail, body, rest) =>
      GoodHeader(false, item, tail) && OpenAfter(tail) > 0 && GoodBody(OpenAfter(tail), body) && WellFormed(rest)
    case Submenu(item, tail, children, rest) =>
      GoodHeader(true, item, tail) && OpenAfter(tail) > 0 && WellFormed(children) && WellFormed(rest)
  }

  /** What the menu should list: every item in preorder, numbered within its level. */
  function Listing(m: Menu, prefix: Path, next: nat): seq<GrubMenuEntry> {
    match m
    case End => []
    case Noise(_, rest) => Listing(rest, prefix, next)
    case Block(_, _, rest) => Listing(rest, prefix, next)
    case Inline(sub, item, _, rest) => [Listed(item, prefix, next, sub)] + Listing(rest, prefix, next + 1)
    case Entry(item, _, _, rest) => [Listed(item, prefix, next, false)] + Listing(rest, prefix, next + 1)
    case Submenu(item, _, children, rest) =>
      [Listed(item, prefix, next, true)] + Listing(children, prefix + [next], 0) + Listing(rest, prefix, next + 1)
  }

  function Listed(item: Item, prefix: Path, next: nat, sub: bool): GrubMenuEntry {
    GrubMenuEntry(ItemTitle(item), ItemId(item), PathString(prefix + [next]), |prefix|, sub)
  }

  function Count(m: Menu): nat {
    match m
    case End => 0
    case Noise(_, rest) => Count(rest)
    case Block(_, _, rest) => Count(rest)
    case Inline(_, _, _, rest) => 1 + Count(rest)
    case Entry(_, _, _, rest) => 1 + Count(rest)
    case Submenu(_, _, _, rest) => 1 + Count(rest)
  }

  // ---------------------------------------------------------------------------
  // The scan over printed lines
  // ---------------------------------------------------------------------------

  lemma TabsTrim(n: nat, core: string)
    requires core != "" && !IsWhitespace(core[0]) && !IsWhitespace(core[|core| - 1])
    ensures Trim(Tabs(n) + core) == core
  {
    TrimCore(Tabs(n), core, "");
    assert Tabs(n) + core + "" == Tabs(n) + core;
  }

  lemma SpaceAfterFirst(keyword: string, words: seq<WordText>)
    requires IsKeyword(keyword)
    ensures SpaceAfterEach([Bare(keyword)] + words) == keyword + ([' '] + SpaceAfterEach(words))
  {
    KeywordIsBare(keyword);
    BareIsGood(keyword);
    assert ([Bare(keyword)] + words)[1..] == words;
  }

  lemma HeaderShape(keyword: string, item: Item, tail: string) returns (words: string)
    requires IsKeyword(keyword)
    ensures HeaderLine(keyword, item, tail) == keyword + ([' '] + words) + ['{'] + tail
    ensures HeaderLine(keyword, item, TrimEnd(tail)) == keyword + ([' '] + words) + ['{'] + TrimEnd(tail)
  {
    var rest := AllWords(item.leading) + ([item.title] + AllWords(item.options));
    words := SpaceAfterEach(rest);
    SpaceAfterFirst(keyword, rest);
    Regrouped(keyword + ([' '] + words), tail);
    Regrouped(keyword + ([' '] + words), TrimEnd(tail));
  }

  lemma Regrouped(a: string, b: string)
    ensures a + ("{" + b) == a + ['{'] + b
  {
  }

  predicate Solid(s: string) {
    s != "" && !IsWhitespace(s[0]) && !IsWhitespace(s[|s| - 1])
  }

  lemma SolidAppend(a: string, b: string)
    requires Solid(a) && (b != "" ==> !IsWhitespace(b[|b| - 1]))
    ensures Solid(a + b)
  {
    assert b == "" ==> a + b == a;
  }

  lemma TrimAround(w: string, core: string, last: string, w': string)
    requires AllWhitespace(w) && AllWhitespace(w') && Solid(core)
    requires last != "" ==> !IsWhitespace(last[|last| - 1])
    ensures Trim(w + (core + (last + w'))) == core + last
  {
    SolidAppend(core, last);
    TrimCore(w, core + last, w');
    Rebracketed(w, core, last, w');
  }

  lemma Rebracketed(a: string, b: string, c: string, d: string)
    ensures a + (b + (c + d)) == a + (b + c) + d
  {
  }

  lemma TrimIndented(w: string, core: string, tail: string)
    requires AllWhitespace(w) && Solid(core)
    ensures Trim(w + (core + tail)) == core + TrimEnd(tail)
  {
    var w' := TrimEndSplit(tail);
    TrimAround(w, core, TrimEnd(tail), w');
  }

  /** The header line without its indentation and final white space. */
  lemma TrimHeader(sub: bool, item: Item, tail: string, depth: nat)
    ensures Trim(ItemLine(sub, item, tail, depth)) == HeaderLine(Keyword(sub), item, TrimEnd(tail))
  {
    var words := HeaderShape(Keyword(sub), item, tail);
    TrimIndented(Tabs(depth), Keyword(sub) + ([' '] + words) + ['{'], tail);
  }

  lemma FirstWordSpaced(word: string, words: string, tail: string)
    requires NoWhitespace(word)
    ensures FirstWord(word + ([' '] + words) + ['{'] + tail) == word
  {
    FirstWordAppend(word, [' '] + (words + ['{'] + tail));
    assert word + ([' '] + words) + ['{'] + tail == word + ([' '] + (words + ['{'] + tail));
  }

  lemma HeaderFirstWord(sub: bool, item: Item, tail: string)
    ensures var line := HeaderLine(Keyword(sub), item, tail);
      FirstWord(line) == Keyword(sub) && line != "" && line[0] != '#'
  {
    var words := HeaderShape(Keyword(sub), item, tail);
    FirstWordSpaced(Keyword(sub), words, tail);
  }

  lemma StepHeader(st: State, depth: nat, sub: bool, item: Item, tail: string)
    requires GoodHeader(sub, item, tail) && st.opaqueDepth == 0
    ensures Step(st, ItemLine(sub, item, tail, depth)) ==
      Running(AddItem(st, MenuLineParts(ItemTitle(item), ItemId(item), OpenAfter(tail)), sub))
  {
    TrimHeader(sub, item, tail, depth);
    HeaderFirstWord(sub, item, TrimEnd(tail));
    HeaderRoundTrip(Keyword(sub), item, TrimEnd(tail));
  }

  /** `}` on its own line closes whatever is innermost. */
  lemma StepClose(st: State, depth: nat)
    ensures Step(st, Tabs(depth) + "}") == Running(
      if st.opaqueDepth > 0 then st.(opaqueDepth := st.opaqueDepth - 1)
      else if st.submenus != [] then st.(submenus := st.submenus[..|st.submenus| - 1])
      else st)
  {
    TabsTrim(depth, "}");
    assert Braces("}", Unquoted) == ['}'] + Braces("", Unquoted) == ['}'];
    assert FirstWord("}") == "}" + FirstWord("");
    assert ['}'][1..] == [];
    assert OpaqueAfter(st.opaqueDepth, ['}']) == if st.opaqueDepth > 0 then st.opaqueDepth - 1 else 0;
  }

  lemma {:induction false} NetAppend(a: seq<char>, b: seq<char>)
    ensures Net(a + b) == Net(a) + Net(b)
  {
    if a == [] {
      assert a + b == b;
    } else {
      assert (a + b)[1..] == a[1..] + b;
      NetAppend(a[1..], b);
    }
  }

  /** While no prefix closes more than it opens, the block depth is the running sum. */
  lemma {:induction false} OpaqueIsNet(depth: nat, braces: seq<char>)
    requires depth > 0
    requires forall k | 0 <= k <= |braces| :: depth + Net(braces[..k]) > 0
    ensures OpaqueAfter(depth, braces) == depth + Net(braces)
    decreases |braces|
  {
    if braces != [] {
      var d := depth + (if braces[0] == '{' then 1 else -1);
      assert Net(braces[..1]) == d - depth by {
        assert braces[..1][1..] == [];
      }
      forall k | 0 <= k <= |braces[1..]| ensures d + Net(braces[1..][..k]) > 0 {
        assert braces[..k + 1][1..] == braces[1..][..k];
        assert depth + Net(braces[..k + 1]) > 0;
      }
      OpaqueIsNet(d, braces[1..]);
    }
  }

  lemma {:induction false} RunBody(st: State, body: seq<string>)
    requires st.opaqueDepth > 0
    requires forall k | 0 <= k <= |AllBraces(body)| :: st.opaqueDepth + Net(AllBraces(body)[..k]) > 0
    ensures st.opaqueDepth + Net(AllBraces(body)) > 0
    ensures Run(st, body) == Running(st.(opaqueDepth := st.opaqueDepth + Net(AllBraces(body))))
    decreases |body|
  {
    if body != [] {
      var a, b := LineBraces(body[0]), AllBraces(body[1..]);
      var all := AllBraces(body);
      forall k | 0 <= k <= |a| ensures st.opaqueDepth + Net(a[..k]) > 0 {
        assert all[..k] == a[..k];
      }
      OpaqueIsNet(st.opaqueDepth, a);
      NetAppend(a, b);
      assert all[..|a|] == a && all[..|all|] == all;
      var st' := st.(opaqueDepth := st.opaqueDepth + Net(a));
      assert Step(st, body[0]) == Running(st');
      forall k | 0 <= k <= |b| ensures st'.opaqueDepth + Net(b[..k]) > 0 {
        assert all[..|a| + k] == a + b[..k];
        NetAppend(a, b[..k]);
      }
      RunBody(st', body[1..]);
    }
  }

  function AdvanceBy(st: State, k: nat): State {
    if st.submenus == [] then st.(topNext := st.topNext + k)
    else
      var last := |st.submenus| - 1;
      st.(submenus := st.submenus[last := st.submenus[last].(nextChild := st.submenus[last].nextChild + k)])
  }

  /** `st` with `k` more indices handed out at its innermost level and `added` listed. */
  function Moved(st: State, k: nat, added: seq<GrubMenuEntry>): State {
    AdvanceBy(st, k).(entries := st.entries + added)
  }

  /** The state after a whole menu level has been scanned. */
  function After(st: State, m: Menu): State {
    Moved(st, Count(m), Listing(m, Indices(st.submenus), NextIndex(st.submenus, st.topNext)))
  }

  lemma MovedTwice(st: State, j: nat, a: seq<GrubMenuEntry>, k: nat, b: seq<GrubMenuEntry>)
    ensures Moved(Moved(st, j, a), k, b) == Moved(st, j + k, a + b)
  {
    assert st.entries + a + b == st.entries + (a + b);
    assert Moved(Moved(st, j, a), k, b).submenus == Moved(st, j + k, a + b).submenus;
  }

  lemma MovedNothing(st: State)
    ensures Moved(st, 0, []) == st
  {
    assert st.entries + [] == st.entries;
    assert AdvanceBy(st, 0).submenus == st.submenus;
  }

  lemma MovedCursor(st: State, k: nat, added: seq<GrubMenuEntry>)
    ensures var st' := Moved(st, k, added);
      && |st'.submenus| == |st.submenus| && st'.opaqueDepth == st.opaqueDepth
      && Indices(st'.submenus) == Indices(st.submenus)
      && NextIndex(st'.submenus, st'.topNext) == NextIndex(st.submenus, st.topNext) + k
  {
    assert Indices(Moved(st, k, added).submenus) == Indices(st.submenus);
  }

  lemma AddItemMoves(st: State, item: Item, sub: bool, depth: nat)
    ensures AddItem(st, MenuLineParts(ItemTitle(item), ItemId(item), depth), sub) ==
      if depth == 0 then Moved(st, 1, [ItemEntry(st, item, sub)])
      else if sub then Opened(st, item)
      else Moved(st, 1, [ItemEntry(st, item, sub)]).(opaqueDepth := depth)
  {
    PrefixIsPathString(st.submenus, NextIndex(st.submenus, st.topNext));
  }

  /** The entry an item listed at the cursor of `st` becomes. */
  function ItemEntry(st: State, item: Item, sub: bool): GrubMenuEntry {
    GrubMenuEntry(ItemTitle(item), ItemId(item), PathString(Cursor(st)), |st.submenus|, sub)
  }

  lemma RunCons(st: State, line: string, rest: seq<string>, st': State)
    requires Step(st, line) == Running(st')
    ensures Run(st, [line] + rest) == Run(st', rest)
  {
    assert ([line] + rest)[1..] == rest;
  }

  lemma RunThen(st: State, a: seq<string>, b: seq<string>, st': State)
    requires Run(st, a) == Running(st')
    ensures Run(st, a + b) == Run(st', b)
  {
    RunAppend(st, a, b);
  }

  /** An ignored block, from the line that opens it to past its closing line, leaves no
      trace beyond what its first line did. */
  lemma RunBlock(st: State, st': State, header: string, body: seq<string>, depth: nat, tail: seq<string>)
    requires st'.opaqueDepth > 0 && Step(st, header) == Running(st') && GoodBody(st'.opaqueDepth, body)
    ensures Run(st, Braced(header, body, depth, tail)) == Run(st'.(opaqueDepth := 0), tail)
  {
    var close := Tabs(depth) + "}";
    var last := st'.(opaqueDepth := 1);
    var braces := AllBraces(body);
    forall k | 0 <= k <= |braces| ensures st'.opaqueDepth + Net(braces[..k]) > 0 {
      assert st'.opaqueDepth - 1 + Net(braces[..k]) >= 0;
    }
    RunBody(st', body);
    StepClose(last, depth);
    RunCons(last, close, tail, st'.(opaqueDepth := 0));
    RunThen(st', body, [close] + tail, last);
    RunCons(st, header, body + ([close] + tail), st');
  }

  lemma {:induction false} OpaqueEnds(depth: nat, braces: seq<char>, k: nat)
    requires depth > 0 && k <= |braces| && depth + Net(braces[..k]) <= 0
    ensures OpaqueAfter(depth, braces) == 0
    decreases |braces|
  {
    if k > 0 {
      var d := depth + (if braces[0] == '{' then 1 else -1);
      assert braces[..k][1..] == braces[1..][..k - 1];
      if d > 0 {
        OpaqueEnds(d, braces[1..], k - 1);
      }
    }
  }

  /** Inside ignored text a line ends the block at its first brace that closes it, whatever follows;
      otherwise it changes the depth by its balance. */
  lemma OpaqueExactly(depth: nat, braces: seq<char>)
    requires depth > 0
    ensures OpaqueAfter(depth, braces) ==
      if forall k | 0 <= k <= |braces| :: depth + Net(braces[..k]) > 0 then depth + Net(braces) else 0
  {
    if forall k | 0 <= k <= |braces| :: depth + Net(braces[..k]) > 0 {
      OpaqueIsNet(depth, braces);
    } else {
      var k :| 0 <= k <= |braces| && depth + Net(braces[..k]) <= 0;
      OpaqueEnds(depth, braces, k);
    }
  }

  /** The lowest number of open blocks that `braces` pass through, starting from `depth`. */
  function Lowest(depth: nat, braces: seq<char>): nat
    decreases |braces|
  {
    if braces == [] then depth
    else
      var low := Lowest(Saturating(depth, braces[..1]), braces[1..]);
      if depth < low then depth else low
  }

  lemma LevelOne(st: State, braces: seq<char>)
    requires braces != []
    ensures var (all, one) := (|st.submenus| + st.opaqueDepth, LevelBraces(st, braces[..1]));
      && LevelBraces(st, braces) == LevelBraces(one, braces[1..])
      && Saturating(all, braces) == Saturating(Saturating(all, braces[..1]), braces[1..])
      && one.entries == st.entries && one.topNext == st.topNext
      && |one.submenus| == Smaller(|st.submenus|, Saturating(all, braces[..1]))
      && one.submenus == st.submenus[..|one.submenus|]
      && |one.submenus| + one.opaqueDepth == Saturating(all, braces[..1])
  {
    var first := braces[..1];
    assert first == [braces[0]] && first[1..] == [];
    assert forall st' :: LevelBraces(st', first[1..]) == st';
    assert forall d: nat :: Saturating(d, first[1..]) == d;
  }

  /** At menu level, braces close ignored blocks before submenus and ignore what nothing is open for:
      the submenus that stay are those never closed, and whatever else is open at the end is ignored. */
  lemma {:induction false} LevelExactly(st: State, braces: seq<char>)
    ensures var (all, st') := (|st.submenus| + st.opaqueDepth, LevelBraces(st, braces));
      && st'.entries == st.entries && st'.topNext == st.topNext
      && |st'.submenus| == Smaller(|st.submenus|, Lowest(all, braces))
      && st'.submenus == st.submenus[..|st'.submenus|]
      && |st'.submenus| + st'.opaqueDepth == Saturating(all, braces)
    decreases |braces|
  {
    if braces != [] {
      LevelOne(st, braces);
      LevelExactly(LevelBraces(st, braces[..1]), braces[1..]);
    }
  }

  function Smaller(a: nat, b: nat): nat {
    if a < b then a else b
  }

  /** At menu level, a line that closes nothing it did not open leaves its balance of blocks open. */
  lemma {:induction false} LevelIsNet(st: State, braces: seq<char>)
    requires Covered(st.opaqueDepth, braces)
    ensures st.opaqueDepth + Net(braces) >= 0
    ensures LevelBraces(st, braces) == st.(opaqueDepth := st.opaqueDepth + Net(braces))
    decreases |braces|
  {
    assert braces[..|braces|] == braces;
    if braces != [] {
      var d := st.opaqueDepth + (if braces[0] == '{' then 1 else -1);
      assert braces[..1][1..] == [] && Net([]) == 0;
      assert Net(braces[..1]) == d - st.opaqueDepth;
      forall k | 0 <= k <= |braces[1..]| ensures d + Net(braces[1..][..k]) >= 0 {
        assert braces[..k + 1][1..] == braces[1..][..k];
        assert st.opaqueDepth + Net(braces[..k + 1]) >= 0;
      }
      LevelIsNet(st.(opaqueDepth := d), braces[1..]);
    }
  }

  lemma StepNoise(st: State, line: string)
    requires GoodNoise(line) && st.opaqueDepth == 0
    ensures Net(LineBraces(line)) >= 0
    ensures Step(st, line) == Running(st.(opaqueDepth := Net(LineBraces(line))))
  {
    LevelIsNet(st, LineBraces(line));
  }

  /** The state just inside a submenu: its header is listed and its frame is on the stack. */
  function Opened(st: State, item: Item): State {
    var moved := Moved(st, 1, [ItemEntry(st, item, true)]);
    moved.(submenus := moved.submenus + [Frame(NextIndex(st.submenus, st.topNext), 0)])
  }

  lemma OpenedCursor(st: State, item: Item)
    ensures Indices(Opened(st, item).submenus) == Cursor(st)
    ensures NextIndex(Opened(st, item).submenus, Opened(st, item).topNext) == 0
  {
    MovedCursor(st, 1, [ItemEntry(st, item, true)]);
    var moved := Moved(st, 1, [ItemEntry(st, item, true)]);
    assert Indices(Opened(st, item).submenus) == Indices(moved.submenus) + [NextIndex(st.submenus, st.topNext)];
  }

  /** Popping the frame of a scanned submenu leaves its level one index further, with
      everything inside it listed. */
  lemma ShutSubmenu(st: State, item: Item, k: nat, inner: seq<GrubMenuEntry>)
    ensures var full := Moved(Opened(st, item), k, inner);
      full.submenus != [] &&
      full.(submenus := full.submenus[..|full.submenus| - 1]) == Moved(st, 1, [ItemEntry(st, item, true)] + inner)
  {
    var first := [ItemEntry(st, item, true)];
    var full := Moved(Opened(st, item), k, inner);
    ShutFrames(st, item, k, inner);
    assert full.entries == st.entries + (first + inner);
    assert Moved(st, 1, first + inner).submenus == Moved(st, 1, first).submenus;
  }

  /** The frames of the levels around the submenu. */
  lemma ShutFrames(st: State, item: Item, k: nat, inner: seq<GrubMenuEntry>)
    ensures
      var full := Moved(Opened(st, item), k, inner);
      full.submenus != []
      && full.submenus[..|full.submenus| - 1] == Moved(st, 1, [ItemEntry(st, item, true)]).submenus
      && full.topNext == Moved(st, 1, [ItemEntry(st, item, true)]).topNext
  {
    var moved := Moved(st, 1, [ItemEntry(st, item, true)]);
    var inside := Opened(st, item);
    assert inside.submenus[..|inside.submenus| - 1] == moved.submenus;
    var frames := Moved(inside, k, inner).submenus;
    assert frames[..|frames| - 1] == inside.submenus[..|inside.submenus| - 1];
  }

  lemma RunSubmenuLines(
    st: State, item: Item, behind: string, k: nat, entries: seq<GrubMenuEntry>, inner: seq<string>, depth: nat,
    tail: seq<string>)
    requires GoodHeader(true, item, behind) && OpenAfter(behind) > 0 && st.opaqueDepth == 0
    requires Run(Opened(st, item), inner) == Running(Moved(Opened(st, item), k, entries))
    ensures Run(st, Braced(ItemLine(true, item, behind, depth), inner, depth, tail)) ==
      Run(Moved(st, 1, [ItemEntry(st, item, true)] + entries), tail)
  {
    var header, close := ItemLine(true, item, behind, depth), Tabs(depth) + "}";
    var full, shut := Moved(Opened(st, item), k, entries), Moved(st, 1, [ItemEntry(st, item, true)] + entries);
    assert Step(st, header) == Running(Opened(st, item)) by {
      StepHeader(st, depth, true, item, behind);
      AddItemMoves(st, item, true, OpenAfter(behind));
    }
    assert Step(full, close) == Running(shut) by {
      StepClose(full, depth);
      ShutSubmenu(st, item, k, entries);
    }
    RunCons(full, close, tail, shut);
    RunThen(Opened(st, item), inner, [close] + tail, full);
    RunCons(st, header, inner + ([close] + tail), Opened(st, item));
  }

  /** Listing an item with its contents and then the rest of its level is listing the level. */
  lemma AfterItem(st: State, m: Menu, added: seq<GrubMenuEntry>)
    requires m.Inline? || m.Entry? || m.Submenu?
    requires added == [ItemEntry(st, m.item, m.Submenu? || (m.Inline? && m.isSubmenu))]
      + if m.Submenu? then Listing(m.children, Cursor(st), 0) else []
    ensures After(Moved(st, 1, added), m.rest) == After(st, m)
  {
    var prefix, next := Indices(st.submenus), NextIndex(st.submenus, st.topNext);
    MovedCursor(st, 1, added);
    MovedTwice(st, 1, added, Count(m.rest), Listing(m.rest, prefix, next + 1));
    assert Listing(m, prefix, next) == added + Listing(m.rest, prefix, next + 1);
  }

  lemma {:induction false} RunMenu(st: State, m: Menu, depth: nat)
    requires WellFormed(m) && st.opaqueDepth == 0
    ensures Run(st, RenderLines(m, depth)) == Running(After(st, m))
    decreases m
  {
    match m
    case End =>
      MovedNothing(st);
    case Noise(line, rest) =>
      StepNoise(st, line);
      RunCons(st, line, RenderLines(rest, depth), st);
      RunMenu(st, rest, depth);
    case Block(header, body, rest) =>
      StepNoise(st, header);
      RunBlock(st, st.(opaqueDepth := Net(LineBraces(header))), header, body, depth, RenderLines(rest, depth));
      RunMenu(st, rest, depth);
    case Inline(sub, item, tail, rest) =>
      var added := [ItemEntry(st, item, sub)];
      assert added + [] == added;
      StepHeader(st, depth, sub, item, tail);
      AddItemMoves(st, item, sub, 0);
      RunCons(st, ItemLine(sub, item, tail, depth), RenderLines(rest, depth), Moved(st, 1, added));
      MovedCursor(st, 1, added);
      RunMenu(Moved(st, 1, added), rest, depth);
      AfterItem(st, m, added);
    case Entry(item, tail, body, rest) =>
      var added := [ItemEntry(st, item, false)];
      assert added + [] == added;
      StepHeader(st, depth, false, item, tail);
      AddItemMoves(st, item, false, OpenAfter(tail));
      RunBlock(st, Moved(st, 1, added).(opaqueDepth := OpenAfter(tail)), ItemLine(false, item, tail, depth), body,
        depth, RenderLines(rest, depth));
      MovedCursor(st, 1, added);
      RunMenu(Moved(st, 1, added), rest, depth);
      AfterItem(st, m, added);
    case Submenu(item, tail, children, rest) =>
      var inner := Listing(children, Cursor(st), 0);
      var added := [ItemEntry(st, item, true)] + inner;
      OpenedCursor(st, item);
      RunMenu(Opened(st, item), children, depth + 1);
      RunSubmenuLines(st, item, tail, Count(children), inner, RenderLines(children, depth + 1), depth,
        RenderLines(rest, depth));
      MovedCursor(st, 1, added);
      RunMenu(Moved(st, 1, added), rest, depth);
      AfterItem(st, m, added);
  }

  // ---------------------------------------------------------------------------
  // From lines back to text
  // ---------------------------------------------------------------------------

  lemma BracedOneLine(header: string, inner: seq<string>, depth: nat, tail: seq<string>)
    requires OneLine(header) && AllOneLine(inner) && AllOneLine(tail)
    ensures AllOneLine(Braced(header, inner, depth, tail))
  {
  }

  lemma {:induction false} RenderedOneLine(m: Menu, depth: nat)
    requires WellFormed(m)
    ensures AllOneLine(RenderLines(m, depth))
  {
    match m
    case End =>
    case Noise(_, rest) =>
      RenderedOneLine(rest, depth);
    case Block(header, body, rest) =>
      RenderedOneLine(rest, depth);
      BracedOneLine(header, body, depth, RenderLines(rest, depth));
    case Inline(_, _, _, rest) =>
      RenderedOneLine(rest, depth);
    case Entry(item, tail, body, rest) =>
      RenderedOneLine(rest, depth);
      BracedOneLine(ItemLine(false, item, tail, depth), body, depth, RenderLines(rest, depth));
    case Submenu(item, tail, children, rest) =>
      RenderedOneLine(children, depth + 1);
      RenderedOneLine(rest, depth);
      BracedOneLine(ItemLine(true, item, tail, depth), RenderLines(children, depth + 1), depth,
        RenderLines(rest, depth));
  }

  lemma {:induction false} RunIgnoresCr(st: State, lines: seq<string>)
    ensures Run(st, StripAll(lines)) == Run(st, lines)
    decreases |lines|
  {
    if lines != [] {
      TrimIgnoresCr(lines[0]);
      assert StripAll(lines)[1..] == StripAll(lines[1..]);
      if Step(st, lines[0]).Running? {
        RunIgnoresCr(Step(st, lines[0]).state, lines[1..]);
      }
    }
  }

  lemma AfterWholeMenu(m: Menu)
    ensures Closing(Running(After(INITIAL, m))) == Ok(Listing(m, [], 0))
  {
    assert Indices(INITIAL.submenus) == [];
    assert [] + Listing(m, [], 0) == Listing(m, [], 0);
  }

  lemma EntriesOfLines(lines: seq<string>)
    requires AllOneLine(lines)
    ensures MenuEntries(Unlines(lines)) == Closing(Run(INITIAL, lines))
  {
    LinesOfUnlines(lines);
    RunIgnoresCr(INITIAL, lines);
  }

  /** Parsing inverts printing: every well-formed menu, of any depth and in any quoting style, with
      ignored lines and balanced ignored blocks anywhere, is read back as exactly its preorder listing. */
  lemma ParseInvertsRender(m: Menu)
    requires WellFormed(m)
    ensures MenuEntries(Render(m)) == Ok(Listing(m, [], 0))
  {
    RenderedOneLine(m, 0);
    EntriesOfLines(RenderLines(m, 0));
    RunMenu(INITIAL, m, 0);
    AfterWholeMenu(m);
  }

  lemma StepMalformed(st: State, line: string)
    requires IsKeyword(FirstWord(Trim(line))) && HeaderOf(Trim(line)).Err? && st.opaqueDepth == 0
    ensures Step(st, line) == Failed(HeaderOf(Trim(line)).error)
  {
    FirstWordIsPrefix(Trim(line));
    assert FirstWord(Trim(line))[0] == Trim(line)[0];
  }

  /** The first malformed header at menu level fails the parse, whatever follows it. */
  lemma MalformedHeaderFails(m: Menu, line: string, more: seq<string>)
    requires WellFormed(m) && OneLine(line) && AllOneLine(more)
    requires IsKeyword(FirstWord(Trim(line))) && HeaderOf(Trim(line)).Err?
    ensures MenuEntries(Unlines(RenderLines(m, 0) + ([line] + more))) == Err(HeaderOf(Trim(line)).error)
  {
    RenderedOneLine(m, 0);
    EntriesOfLines(RenderLines(m, 0) + ([line] + more));
    RunMenu(INITIAL, m, 0);
    RunThen(INITIAL, RenderLines(m, 0), [line] + more, After(INITIAL, m));
    StepMalformed(After(INITIAL, m), line);
  }

  /** So does a file that ends while the block of an item is open. */
  lemma OpenBlockFails(m: Menu, sub: bool, item: Item, tail: string)
    requires WellFormed(m) && GoodHeader(sub, item, tail) && OpenAfter(tail) > 0
    ensures MenuEntries(Unlines(RenderLines(m, 0) + [ItemLine(sub, item, tail, 0)])) == Err(UnclosedBlock)
  {
    var st, line := After(INITIAL, m), ItemLine(sub, item, tail, 0);
    RenderedOneLine(m, 0);
    EntriesOfLines(RenderLines(m, 0) + [line]);
    RunMenu(INITIAL, m, 0);
    RunThen(INITIAL, RenderLines(m, 0), [line], st);
    StepHeader(st, 0, sub, item, tail);
    AddItemMoves(st, item, sub, OpenAfter(tail));
    RunOne(st, line);
  }

  lemma RunOne(st: State, line: string)
    ensures Run(st, [line]) == Step(st, line)
  {
    assert [line][1..] == [];
  }
}
