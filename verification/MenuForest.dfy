/** The entries of a menu scan form a forest listed in preorder. */
module MenuForest {
  import opened Text
  import opened Numerals
  import opened Decimal
  import opened MenuLine
  import opened MenuParser

  // Whatever the text is: paths are distinct, parents come first, siblings are numbered without
  // gaps, and every submenu is followed by its descendants as one block.

  /** An index path as numbers; `[1, 0]` prints as `1>0`. */
  type Path = seq<nat>

  function PathString(p: Path): string
    requires p != []
  {
    if |p| == 1 then Digits(p[0]) else PathString(p[..|p| - 1]) + ">" + Digits(p[|p| - 1])
  }

  function Arrows(s: string): nat {
    if s == "" then 0 else (if s[|s| - 1] == '>' then 1 else 0) + Arrows(s[..|s| - 1])
  }

  /** `next` may come right after `prev` in a preorder listing: it is the first child of a
      submenu, or the next sibling of `prev` or of one of its ancestors. */
  ghost predicate Follows(prev: Path, prevIsSubmenu: bool, next: Path) {
    (prevIsSubmenu && next == prev + [0])
    || exists d {:trigger prev[d]} | 0 <= d < |prev| :: next == NextSibling(prev, d)
  }

  /** The path of the sibling after the ancestor of `p` at depth `d`. */
  function NextSibling(p: Path, d: nat): (r: Path)
    requires d < |p|
    ensures |r| == d + 1 && r[..d] == p[..d] && r[d] == p[d] + 1
  {
    p[..d] + [p[d] + 1]
  }

  /** A preorder listing of a forest: the first path is `[0]` and each path follows the one before it. */
  ghost predicate Preorder(ps: seq<Path>, subs: seq<bool>) {
    |ps| == |subs| && (ps != [] ==> ps[0] == [0]) &&
    forall i | 0 < i < |ps| :: Follows(ps[i - 1], subs[i - 1], ps[i])
  }

  function Submenus(entries: seq<GrubMenuEntry>): seq<bool> {
    seq(|entries|, i requires 0 <= i < |entries| => entries[i].isSubmenu)
  }

  /** `ps` are the numeric paths of `entries`. */
  ghost predicate Numbered(entries: seq<GrubMenuEntry>, ps: seq<Path>) {
    |ps| == |entries| && forall i | 0 <= i < |ps| :: NumberedAt(entries[i], ps[i])
  }

  predicate NumberedAt(e: GrubMenuEntry, p: Path) {
    p != [] && e.path == PathString(p) && e.depth == |p| - 1
  }

  // ---------------------------------------------------------------------------
  // Path strings
  // ---------------------------------------------------------------------------

  lemma NoArrowInDigits(n: nat)
    ensures '>' !in Digits(n)
  {
    DigitsValue(n);
  }

  lemma {:induction false} ArrowsAppend(a: string, b: string)
    ensures Arrows(a + b) == Arrows(a) + Arrows(b)
  {
    if b == "" {
      assert a + b == a;
    } else {
      assert (a + b)[..|a + b| - 1] == a + b[..|b| - 1];
      ArrowsAppend(a, b[..|b| - 1]);
    }
  }

  lemma {:induction false} NoArrows(s: string)
    requires '>' !in s
    ensures Arrows(s) == 0
  {
    if s != "" {
      NoArrows(s[..|s| - 1]);
    }
  }

  /** The number of `>` in a printed path is its depth. */
  lemma {:induction false} PathArrows(p: Path)
    requires p != []
    ensures Arrows(PathString(p)) == |p| - 1
  {
    var last := Digits(p[|p| - 1]);
    NoArrowInDigits(p[|p| - 1]);
    NoArrows(last);
    if |p| > 1 {
      PathArrows(p[..|p| - 1]);
      ArrowsAppend(PathString(p[..|p| - 1]), ">");
      ArrowsAppend(PathString(p[..|p| - 1]) + ">", last);
    }
  }

  lemma {:induction false} SplitAtLastArrow(a: string, b: string, a': string, b': string)
    requires '>' !in b && '>' !in b'
    requires a + ">" + b == a' + ">" + b'
    ensures a == a' && b == b'
  {
    var s := a + ">" + b;
    var last := s[|s| - 1];
    if last == '>' {
      assert a == s[..|s| - 1] == a';
    } else {
      assert s[..|s| - 1] == a + ">" + b[..|b| - 1];
      assert s[..|s| - 1] == a' + ">" + b'[..|b'| - 1];
      SplitAtLastArrow(a, b[..|b| - 1], a', b'[..|b'| - 1]);
      assert b == b[..|b| - 1] + [last] && b' == b'[..|b'| - 1] + [last];
    }
  }

  /** Different index paths print differently. */
  lemma {:induction false} PathStringInjective(p: Path, q: Path)
    requires p != [] && q != []
    requires PathString(p) == PathString(q)
    ensures p == q
  {
    PathArrows(p);
    PathArrows(q);
    if |p| == 1 {
      DigitsInjective(p[0], q[0]);
    } else {
      var m, n := p[|p| - 1], q[|q| - 1];
      NoArrowInDigits(m);
      NoArrowInDigits(n);
      SplitAtLastArrow(PathString(p[..|p| - 1]), Digits(m), PathString(q[..|q| - 1]), Digits(n));
      PathStringInjective(p[..|p| - 1], q[..|q| - 1]);
      DigitsInjective(m, n);
      assert p == p[..|p| - 1] + [m] && q == q[..|q| - 1] + [n];
    }
  }

  function Indices(submenus: seq<Frame>): Path {
    seq(|submenus|, i requires 0 <= i < |submenus| => submenus[i].index)
  }

  lemma {:induction false} PrefixIsPathString(submenus: seq<Frame>, index: nat)
    ensures PathPrefix(submenus) + Digits(index) == PathString(Indices(submenus) + [index])
  {
    var p := Indices(submenus) + [index];
    if submenus != [] {
      var init, last := submenus[..|submenus| - 1], submenus[|submenus| - 1];
      PrefixIsPathString(init, last.index);
      assert p[..|p| - 1] == Indices(init) + [last.index];
    }
  }

  // ---------------------------------------------------------------------------
  // The scan keeps a preorder listing
  // ---------------------------------------------------------------------------

  /** Index the next item at level `j` receives. */
  function NextAt(st: State, j: nat): nat
    requires j <= |st.submenus|
  {
    if j == 0 then st.topNext else st.submenus[j - 1].nextChild
  }

  /** The path the next item receives. */
  function Cursor(st: State): Path {
    Indices(st.submenus) + [NextIndex(st.submenus, st.topNext)]
  }

  ghost predicate Valid(st: State, ps: seq<Path>) {
    && Numbered(st.entries, ps)
    && Preorder(ps, Submenus(st.entries))
    && (forall j | 0 <= j < |st.submenus| :: st.submenus[j].index + 1 == NextAt(st, j))
    && (if ps == [] then st.submenus == [] && st.topNext == 0
        else Follows(ps[|ps| - 1], st.entries[|ps| - 1].isSubmenu, Cursor(st)))
  }

  /** A cursor that may follow `last`, cut back one level, may still follow it. */
  lemma PopFollows(last: Path, sub: bool, c: Path)
    requires Follows(last, sub, c) && |c| >= 2
    ensures Follows(last, sub, NextSibling(c, |c| - 2))
  {
    var e := |c| - 2;
    if sub && c == last + [0] {
      assert NextSibling(c, e) == NextSibling(last, e) && last[e] >= 0;
    } else {
      var d :| 0 <= d < |last| && c == NextSibling(last, d);
      assert |NextSibling(last, d)| == d + 1;
      assert c[..e] == last[..e] && c[e] == last[e];
      assert NextSibling(c, e) == NextSibling(last, e);
    }
  }

  /** Closing a submenu moves the cursor to a sibling of that submenu, again a legal place. */
  lemma PopKeepsValid(st: State, ps: seq<Path>)
    requires Valid(st, ps) && st.submenus != []
    ensures Valid(st.(submenus := st.submenus[..|st.submenus| - 1]), ps)
  {
    var m := |st.submenus|;
    var st' := st.(submenus := st.submenus[..m - 1]);
    PopMovesCursor(st, st');
    PopFollows(ps[|ps| - 1], st.entries[|ps| - 1].isSubmenu, Cursor(st));
  }

  lemma PopMovesCursor(st: State, st': State)
    requires st.submenus != [] && st' == st.(submenus := st.submenus[..|st.submenus| - 1])
    requires forall j | 0 <= j < |st.submenus| :: st.submenus[j].index + 1 == NextAt(st, j)
    ensures Cursor(st') == NextSibling(Cursor(st), |st.submenus| - 1)
    ensures forall j | 0 <= j < |st'.submenus| :: st'.submenus[j].index + 1 == NextAt(st', j)
  {
    forall j | 0 <= j < |st'.submenus| ensures st'.submenus[j].index + 1 == NextAt(st', j) {
      assert NextAt(st', j) == NextAt(st, j);
    }
  }

  lemma {:induction false} BracesKeepValid(st: State, braces: seq<char>, ps: seq<Path>)
    requires Valid(st, ps)
    ensures Valid(LevelBraces(st, braces), ps)
    decreases |braces|
  {
    if braces != [] {
      if braces[0] == '{' {
        BracesKeepValid(st.(opaqueDepth := st.opaqueDepth + 1), braces[1..], ps);
      } else if st.opaqueDepth > 0 {
        BracesKeepValid(st.(opaqueDepth := st.opaqueDepth - 1), braces[1..], ps);
      } else if st.submenus != [] {
        PopKeepsValid(st, ps);
        BracesKeepValid(st.(submenus := st.submenus[..|st.submenus| - 1]), braces[1..], ps);
      } else {
        BracesKeepValid(st, braces[1..], ps);
      }
    }
  }

  lemma PreorderAppend(ps: seq<Path>, subs: seq<bool>, p: Path, sub: bool)
    requires Preorder(ps, subs)
    requires if ps == [] then p == [0] else Follows(ps[|ps| - 1], subs[|ps| - 1], p)
    ensures Preorder(ps + [p], subs + [sub])
  {
    var ps', subs' := ps + [p], subs + [sub];
    forall i | 0 < i < |ps'| ensures Follows(ps'[i - 1], subs'[i - 1], ps'[i]) {
      if i < |ps| {
        assert Follows(ps[i - 1], subs[i - 1], ps[i]);
      }
    }
  }

  lemma NumberedAppend(entries: seq<GrubMenuEntry>, ps: seq<Path>, e: GrubMenuEntry, p: Path)
    requires Numbered(entries, ps)
    requires NumberedAt(e, p)
    ensures Numbered(entries + [e], ps + [p])
  {
    forall i | 0 <= i < |ps| + 1 ensures NumberedAt((entries + [e])[i], (ps + [p])[i]) {
      if i < |ps| { assert NumberedAt(entries[i], ps[i]); }
    }
  }

  /** Handing out an index moves the cursor to the next sibling and keeps the levels in step. */
  lemma AdvanceMovesCursor(st: State)
    requires forall j | 0 <= j < |st.submenus| :: st.submenus[j].index + 1 == NextAt(st, j)
    ensures var st' := Advance(st);
      && Cursor(st') == NextSibling(Cursor(st), |st.submenus|)
      && |st'.submenus| == |st.submenus|
      && Indices(st'.submenus) == Indices(st.submenus)
      && forall j | 0 <= j < |st'.submenus| :: st'.submenus[j].index + 1 == NextAt(st', j)
  {
    var st', m := Advance(st), |st.submenus|;
    assert Indices(st'.submenus) == Indices(st.submenus);
    assert Cursor(st)[..m] == Indices(st.submenus);
    forall j | 0 <= j < m ensures st'.submenus[j].index + 1 == NextAt(st', j) {
      assert NextAt(st', j) == NextAt(st, j);
    }
  }

  lemma AddListsCursor(st: State, parts: MenuLineParts, isSubmenu: bool, ps: seq<Path>)
    requires Valid(st, ps)
    ensures Numbered(AddItem(st, parts, isSubmenu).entries, ps + [Cursor(st)])
    ensures Preorder(ps + [Cursor(st)], Submenus(AddItem(st, parts, isSubmenu).entries))
  {
    var e := EntryAt(st, parts, isSubmenu);
    PrefixIsPathString(st.submenus, NextIndex(st.submenus, st.topNext));
    NumberedAppend(st.entries, ps, e, Cursor(st));
    PreorderAppend(ps, Submenus(st.entries), Cursor(st), isSubmenu);
    assert Submenus(st.entries + [e]) == Submenus(st.entries) + [isSubmenu];
  }

  lemma AddedCursor(st: State, parts: MenuLineParts, isSubmenu: bool)
    requires forall j | 0 <= j < |st.submenus| :: st.submenus[j].index + 1 == NextAt(st, j)
    ensures Follows(Cursor(st), isSubmenu, Cursor(AddItem(st, parts, isSubmenu)))
  {
    var c, adv, st' := Cursor(st), Advance(st), AddItem(st, parts, isSubmenu);
    AdvanceMovesCursor(st);
    if parts.bodyDepth > 0 && isSubmenu {
      assert Indices(st'.submenus) == Indices(adv.submenus) + [NextIndex(st.submenus, st.topNext)];
      assert Cursor(st') == c + [0];
    } else {
      var d := |c| - 1;
      assert Cursor(st') == NextSibling(c, d) && c[d] >= 0;
    }
  }

  /** A new item takes the cursor as its path and leaves the cursor at a legal successor. */
  lemma AddKeepsValid(st: State, parts: MenuLineParts, isSubmenu: bool, ps: seq<Path>)
    requires Valid(st, ps)
    ensures Valid(AddItem(st, parts, isSubmenu), ps + [Cursor(st)])
  {
    AddListsCursor(st, parts, isSubmenu, ps);
    AddedCursor(st, parts, isSubmenu);
    AdvanceMovesCursor(st);
    if parts.bodyDepth > 0 && isSubmenu {
      OpenedLevels(st, parts);
    } else {
      LevelsIgnoreEntries(Advance(st), AddItem(st, parts, isSubmenu));
    }
  }

  lemma LevelsIgnoreEntries(a: State, b: State)
    requires a.submenus == b.submenus && a.topNext == b.topNext
    requires forall j | 0 <= j < |a.submenus| :: a.submenus[j].index + 1 == NextAt(a, j)
    ensures forall j | 0 <= j < |b.submenus| :: b.submenus[j].index + 1 == NextAt(b, j)
  {
    forall j | 0 <= j < |b.submenus| ensures b.submenus[j].index + 1 == NextAt(b, j) {
      assert NextAt(a, j) == NextAt(b, j);
    }
  }

  lemma OpenedLevels(st: State, parts: MenuLineParts)
    requires parts.bodyDepth > 0
    requires forall j | 0 <= j < |st.submenus| :: st.submenus[j].index + 1 == NextAt(st, j)
    ensures var st' := AddItem(st, parts, true);
      forall j | 0 <= j < |st'.submenus| :: st'.submenus[j].index + 1 == NextAt(st', j)
  {
    var adv, st' := Advance(st), AddItem(st, parts, true);
    AdvanceMovesCursor(st);
    forall j | 0 <= j < |st'.submenus| ensures st'.submenus[j].index + 1 == NextAt(st', j) {
      if j < |adv.submenus| {
        assert NextAt(st', j) == NextAt(adv, j);
      }
    }
  }

  lemma StepKeepsValid(st: State, line: string, ps: seq<Path>) returns (ps': seq<Path>)
    requires Valid(st, ps) && Step(st, line).Running?
    ensures Valid(Step(st, line).state, ps')
  {
    var trimmed := Trim(line);
    ps' := ps;
    if trimmed != "" && trimmed[0] != '#' && st.opaqueDepth == 0 {
      var first := FirstWord(trimmed);
      if first == "menuentry" || first == "submenu" {
        AddKeepsValid(st, HeaderOf(trimmed).value, first == "submenu", ps);
        ps' := ps + [Cursor(st)];
      } else {
        BracesKeepValid(st, Braces(trimmed, Unquoted), ps);
      }
    }
  }

  lemma {:induction false} RunKeepsValid(st: State, lines: seq<string>, ps: seq<Path>) returns (ps': seq<Path>)
    requires Valid(st, ps) && Run(st, lines).Running?
    ensures Valid(Run(st, lines).state, ps')
    decreases |lines|
  {
    if lines == [] {
      ps' := ps;
    } else {
      var next := StepKeepsValid(st, lines[0], ps);
      ps' := RunKeepsValid(Step(st, lines[0]).state, lines[1..], next);
    }
  }

  /** At every point of the scan of any text, after any number of its lines, the entries
      emitted so far are a preorder listing of a forest. */
  lemma ScanIsPreorder(lines: seq<string>, k: nat) returns (ps: seq<Path>)
    requires k <= |lines| && Run(INITIAL, lines[..k]).Running?
    ensures Numbered(Run(INITIAL, lines[..k]).state.entries, ps)
    ensures Preorder(ps, Submenus(Run(INITIAL, lines[..k]).state.entries))
  {
    ps := RunKeepsValid(INITIAL, lines[..k], []);
  }

  // ---------------------------------------------------------------------------
  // What a preorder listing guarantees
  // ---------------------------------------------------------------------------

  /** Lexicographic order, a prefix coming first. */
  predicate Before(p: Path, q: Path) {
    q != [] && (p == [] || p[0] < q[0] || (p[0] == q[0] && Before(p[1..], q[1..])))
  }

  lemma {:induction false} ChildIsAfter(p: Path)
    ensures Before(p, p + [0])
  {
    if p != [] {
      ChildIsAfter(p[1..]);
      assert (p + [0])[1..] == p[1..] + [0];
    }
  }

  lemma {:induction false} NextSiblingIsAfter(p: Path, d: nat)
    requires d < |p|
    ensures Before(p, NextSibling(p, d))
  {
    if d > 0 {
      NextSiblingIsAfter(p[1..], d - 1);
      assert NextSibling(p, d)[1..] == NextSibling(p[1..], d - 1);
    }
  }

  lemma FollowsIsBefore(p: Path, sub: bool, q: Path)
    requires Follows(p, sub, q)
    ensures Before(p, q)
  {
    if sub && q == p + [0] {
      ChildIsAfter(p);
    } else {
      var d :| 0 <= d < |p| && q == NextSibling(p, d);
      NextSiblingIsAfter(p, d);
    }
  }

  lemma {:induction false} BeforeTransitive(p: Path, q: Path, r: Path)
    requires Before(p, q) && Before(q, r)
    ensures Before(p, r)
  {
    if p != [] && p[0] == q[0] && q[0] == r[0] {
      BeforeTransitive(p[1..], q[1..], r[1..]);
    }
  }

  lemma {:induction false} BeforeIrreflexive(p: Path)
    ensures !Before(p, p)
  {
    if p != [] {
      BeforeIrreflexive(p[1..]);
    }
  }

  lemma {:induction false} PreorderIsSorted(ps: seq<Path>, subs: seq<bool>, i: nat, j: nat)
    requires Preorder(ps, subs) && i < j < |ps|
    ensures Before(ps[i], ps[j])
    decreases j
  {
    FollowsIsBefore(ps[j - 1], subs[j - 1], ps[j]);
    if i < j - 1 {
      PreorderIsSorted(ps, subs, i, j - 1);
      BeforeTransitive(ps[i], ps[j - 1], ps[j]);
    }
  }

  /** Every level of a path is accounted for earlier in the listing: the ancestor at that
      level is an earlier submenu, and so is every smaller sibling present. */
  lemma {:induction false} AncestorsComeFirst(ps: seq<Path>, subs: seq<bool>, j: nat, k: nat)
    requires Preorder(ps, subs) && j < |ps| && 0 < k < |ps[j]|
    ensures exists i | 0 <= i < j :: ps[i] == ps[j][..k] && subs[i]
    decreases j
  {
    var prev := ps[j - 1];
    if subs[j - 1] && ps[j] == prev + [0] {
      if k == |prev| {
        assert ps[j - 1] == ps[j][..k];
      } else {
        AncestorsComeFirst(ps, subs, j - 1, k);
        assert ps[j][..k] == prev[..k];
      }
    } else {
      var d :| 0 <= d < |prev| && ps[j] == NextSibling(prev, d);
      assert |NextSibling(prev, d)| == d + 1;
      assert ps[j][..k] == prev[..k];
      AncestorsComeFirst(ps, subs, j - 1, k);
    }
  }

  lemma {:induction false} SiblingsComeFirst(ps: seq<Path>, subs: seq<bool>, j: nat, k: nat, v: nat)
    requires Preorder(ps, subs) && j < |ps| && k < |ps[j]| && v < ps[j][k]
    ensures exists i | 0 <= i < j :: ps[i] == ps[j][..k] + [v]
    decreases j
  {
    var prev := ps[j - 1];
    if subs[j - 1] && ps[j] == prev + [0] {
      SiblingsComeFirst(ps, subs, j - 1, k, v);
      assert ps[j][..k] == prev[..k];
    } else {
      var d :| 0 <= d < |prev| && ps[j] == NextSibling(prev, d);
      assert |NextSibling(prev, d)| == d + 1;
      assert ps[j][..k] == prev[..k];
      if k < d || v < prev[d] {
        SiblingsComeFirst(ps, subs, j - 1, k, v);
      } else {
        assert v == prev[d] && prev[..k] + [v] == prev[..d + 1];
        if d + 1 < |prev| {
          AncestorsComeFirst(ps, subs, j - 1, d + 1);
        } else {
          assert ps[j - 1] == ps[j][..k] + [v];
        }
      }
    }
  }

  /** Between two members of one subtree only members of that subtree are listed. */
  lemma {:induction false} BetweenSharesPrefix(p: Path, q: Path, r: Path)
    requires p <= r && Before(p, q) && Before(q, r)
    ensures p <= q
  {
    if p != [] {
      assert p[1..] <= r[1..];
      BetweenSharesPrefix(p[1..], q[1..], r[1..]);
      assert p == [p[0]] + p[1..] && q == [q[0]] + q[1..];
    }
  }

  /** Distinct entries of a preorder listing have distinct printed paths. */
  lemma PathsAreDistinct(entries: seq<GrubMenuEntry>, ps: seq<Path>, i: nat, j: nat)
    requires Numbered(entries, ps) && Preorder(ps, Submenus(entries)) && i < j < |ps|
    ensures entries[i].path != entries[j].path
  {
    PreorderIsSorted(ps, Submenus(entries), i, j);
    BeforeIrreflexive(ps[i]);
    if entries[i].path == entries[j].path {
      PathStringInjective(ps[i], ps[j]);
    }
  }

  lemma ParentComesFirst(entries: seq<GrubMenuEntry>, ps: seq<Path>, j: nat)
    requires Numbered(entries, ps) && Preorder(ps, Submenus(entries)) && j < |ps| && entries[j].depth > 0
    ensures exists i | 0 <= i < j ::
      entries[i].isSubmenu && entries[j].path == entries[i].path + ">" + Digits(ps[j][|ps[j]| - 1])
  {
    var k := |ps[j]| - 1;
    AncestorsComeFirst(ps, Submenus(entries), j, k);
    var i :| 0 <= i < j && ps[i] == ps[j][..k] && Submenus(entries)[i];
    assert entries[i].isSubmenu;
  }

  lemma SmallerSiblingComesFirst(entries: seq<GrubMenuEntry>, ps: seq<Path>, j: nat, v: nat)
    requires Numbered(entries, ps) && Preorder(ps, Submenus(entries)) && j < |ps| && v < ps[j][|ps[j]| - 1]
    ensures exists i | 0 <= i < j :: entries[i].path == PathString(ps[j][..|ps[j]| - 1] + [v])
  {
    var k := |ps[j]| - 1;
    SiblingsComeFirst(ps, Submenus(entries), j, k, v);
    var i :| 0 <= i < j && ps[i] == ps[j][..k] + [v];
    assert entries[i].path == PathString(ps[i]);
  }

  lemma SubtreeIsContiguous(ps: seq<Path>, subs: seq<bool>, i: nat, k: nat, j: nat)
    requires Preorder(ps, subs) && i <= k < j < |ps| && ps[i] <= ps[j]
    ensures ps[i] <= ps[k]
  {
    PreorderIsSorted(ps, subs, k, j);
    if i < k {
      PreorderIsSorted(ps, subs, i, k);
      BetweenSharesPrefix(ps[i], ps[k], ps[j]);
    }
  }

  ghost predicate DistinctPaths(es: seq<GrubMenuEntry>) {
    forall i, j | 0 <= i < j < |es| :: es[i].path != es[j].path
  }

  /** The structural promise about any text the parser accepts: depth is the number of `>`;
      paths are pairwise distinct; the path of a nested entry extends the path of an earlier
      submenu; the smaller siblings of an entry are all present before it; and the
      descendants of an entry are one contiguous block starting at it. */
  lemma ParsedMenuIsForest(cfg: string) returns (ps: seq<Path>)
    requires MenuEntries(cfg).Ok?
    ensures Numbered(MenuEntries(cfg).value, ps)
    ensures forall i | 0 <= i < |ps| :: MenuEntries(cfg).value[i].depth == Arrows(MenuEntries(cfg).value[i].path)
    ensures DistinctPaths(MenuEntries(cfg).value)
    ensures var es := MenuEntries(cfg).value; forall j | 0 <= j < |es| && es[j].depth > 0 ::
      exists i | 0 <= i < j :: es[i].isSubmenu && es[j].path == es[i].path + ">" + Digits(ps[j][|ps[j]| - 1])
    ensures var es := MenuEntries(cfg).value; forall j, v | 0 <= j < |es| && 0 <= v < ps[j][|ps[j]| - 1] ::
      exists i | 0 <= i < j :: es[i].path == PathString(ps[j][..|ps[j]| - 1] + [v])
    ensures forall i, k, j | 0 <= i <= k < j < |ps| && ps[i] <= ps[j] :: ps[i] <= ps[k]
  {
    var lines := Lines(cfg);
    var es := MenuEntries(cfg).value;
    assert lines[..|lines|] == lines;
    ps := ScanIsPreorder(lines, |lines|);
    var subs := Submenus(es);
    forall i | 0 <= i < |es| ensures es[i].depth == Arrows(es[i].path) {
      PathArrows(ps[i]);
    }
    forall i, j | 0 <= i < j < |es| ensures es[i].path != es[j].path {
      PathsAreDistinct(es, ps, i, j);
    }
    forall j | 0 <= j < |es| && es[j].depth > 0
      ensures exists i | 0 <= i < j :: es[i].isSubmenu && es[j].path == es[i].path + ">" + Digits(ps[j][|ps[j]| - 1])
    {
      ParentComesFirst(es, ps, j);
    }
    forall j, v | 0 <= j < |es| && 0 <= v < ps[j][|ps[j]| - 1]
      ensures exists i | 0 <= i < j :: es[i].path == PathString(ps[j][..|ps[j]| - 1] + [v])
    {
      SmallerSiblingComesFirst(es, ps, j, v);
    }
    forall i, k, j | 0 <= i <= k < j < |es| && ps[i] <= ps[j] ensures ps[i] <= ps[k] {
      SubtreeIsContiguous(ps, subs, i, k, j);
    }
  }
}
