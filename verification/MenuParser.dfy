/** The line-driven stack machine that reads the menu of a `grub.cfg`. */
module MenuParser {
  import opened Text
  import opened Decimal
  import opened MenuLine

  datatype GrubMenuEntry =
    GrubMenuEntry(title: string, id: Option<string>, path: string, depth: nat, isSubmenu: bool)

  /** One open `submenu` block: its own index and the index its next child receives. */
  datatype Frame = Frame(index: nat, nextChild: nat)

  /** The whole state of the scan between two lines. */
  datatype State =
    State(entries: seq<GrubMenuEntry>, submenus: seq<Frame>, topNext: nat, opaqueDepth: nat)

  const INITIAL := State([], [], 0, 0)

  /** Index the next item at the innermost open level receives. */
  function NextIndex(submenus: seq<Frame>, topNext: nat): nat {
    if submenus == [] then topNext else submenus[|submenus| - 1].nextChild
  }

  function PathPrefix(submenus: seq<Frame>): string {
    if submenus == [] then ""
    else PathPrefix(submenus[..|submenus| - 1]) + Digits(submenus[|submenus| - 1].index) + ">"
  }

  /** The state after the innermost level has handed out its next index. */
  function Advance(st: State): State {
    if st.submenus == [] then st.(topNext := st.topNext + 1)
    else
      var last := |st.submenus| - 1;
      st.(submenus := st.submenus[last := st.submenus[last].(nextChild := st.submenus[last].nextChild + 1)])
  }

  function EntryAt(st: State, parts: MenuLineParts, isSubmenu: bool): GrubMenuEntry {
    var path := PathPrefix(st.submenus) + Digits(NextIndex(st.submenus, st.topNext));
    GrubMenuEntry(parts.title, parts.id, path, |st.submenus|, isSubmenu)
  }

  /** The state after a menu header line: one more entry, and the block it opens, if any. */
  function AddItem(st: State, parts: MenuLineParts, isSubmenu: bool): State {
    var st' := Advance(st).(entries := st.entries + [EntryAt(st, parts, isSubmenu)]);
    if parts.bodyDepth == 0 then st'
    else if isSubmenu then
      st'.(submenus := st'.submenus + [Frame(NextIndex(st.submenus, st.topNext), 0)])
    else st'.(opaqueDepth := parts.bodyDepth)
  }

  /** Depth of an ignored block after a line of it; braces past its end are not looked at. */
  function OpaqueAfter(depth: nat, braces: seq<char>): nat
    decreases |braces|
  {
    if depth == 0 || braces == [] then depth
    else OpaqueAfter(if braces[0] == '{' then depth + 1 else depth - 1, braces[1..])
  }

  /** Effect of the braces of a line that stands at menu level and is not a menu item. */
  function LevelBraces(st: State, braces: seq<char>): State
    decreases |braces|
  {
    if braces == [] then st
    else
      var st' :=
        if braces[0] == '{' then st.(opaqueDepth := st.opaqueDepth + 1)
        else if st.opaqueDepth > 0 then st.(opaqueDepth := st.opaqueDepth - 1)
        else if st.submenus != [] then st.(submenus := st.submenus[..|st.submenus| - 1])
        else st;
      LevelBraces(st', braces[1..])
  }

  datatype Outcome = Running(state: State) | Failed(error: MenuError)

  /** The scan step for one line, given without its surrounding white space. */
  function StepTrimmed(st: State, trimmed: string): Outcome {
    if trimmed == "" || trimmed[0] == '#' then Running(st)
    else if st.opaqueDepth > 0 then
      Running(st.(opaqueDepth := OpaqueAfter(st.opaqueDepth, Braces(trimmed, Unquoted))))
    else
      var first := FirstWord(trimmed);
      if first == "menuentry" || first == "submenu" then
        var parts := HeaderOf(trimmed);
        if parts.Err? then Failed(parts.error)
        else Running(AddItem(st, parts.value, first == "submenu"))
      else Running(LevelBraces(st, Braces(trimmed, Unquoted)))
  }

  function Step(st: State, line: string): Outcome {
    StepTrimmed(st, Trim(line))
  }

  /** The scan over a sequence of lines, from any state. */
  function Run(st: State, lines: seq<string>): Outcome
    decreases |lines|
  {
    if lines == [] then Running(st)
    else
      var o := Step(st, lines[0]);
      if o.Failed? then o else Run(o.state, lines[1..])
  }

  function Closing(o: Outcome): Result<seq<GrubMenuEntry>> {
    if o.Failed? then Err(o.error)
    else if o.state.opaqueDepth > 0 || o.state.submenus != [] then Err(UnclosedBlock)
    else Ok(o.state.entries)
  }

  function MenuEntries(cfg: string): Result<seq<GrubMenuEntry>> {
    Closing(Run(INITIAL, Lines(cfg)))
  }

  method ScanOpaque(depth: nat, trimmed: string) returns (opaqueDepth: nat)
    requires depth > 0
    ensures opaqueDepth == OpaqueAfter(depth, Braces(trimmed, Unquoted))
  {
    opaqueDepth := depth;
    var braces := UnquotedBraces(trimmed);
    var i := 0;
    assert braces[0..] == braces;
    while i < |braces|
      invariant i <= |braces| && opaqueDepth > 0
      invariant OpaqueAfter(depth, braces) == OpaqueAfter(opaqueDepth, braces[i..])
    {
      assert braces[i..][1..] == braces[i + 1..];
      if braces[i] == '{' {
        opaqueDepth := opaqueDepth + 1;
      } else {
        opaqueDepth := opaqueDepth - 1;
        if opaqueDepth == 0 {
          break;
        }
      }
      i := i + 1;
    }
  }

  method BuildPath(submenus: seq<Frame>, index: nat) returns (path: string)
    ensures path == PathPrefix(submenus) + Digits(index)
  {
    path := "";
    for i := 0 to |submenus|
      invariant path == PathPrefix(submenus[..i])
    {
      assert submenus[..i + 1][..i] == submenus[..i];
      path := path + Digits(submenus[i].index) + ">";
    }
    assert submenus[..|submenus|] == submenus;
    path := path + Digits(index);
  }

  /** `parse_menu_entries`. */
  method ParseMenuEntries(cfg: string) returns (r: Result<seq<GrubMenuEntry>>)
    ensures r == MenuEntries(cfg)
  {
    var entries: seq<GrubMenuEntry> := [];
    var submenus: seq<Frame> := [];
    var topNext, opaqueDepth: nat := 0, 0;
    var lines := Lines(cfg);
    var n := 0;
    assert lines[0..] == lines;
    while n < |lines|
      invariant n <= |lines|
      invariant Run(INITIAL, lines) == Run(State(entries, submenus, topNext, opaqueDepth), lines[n..])
    {
      ghost var st := State(entries, submenus, topNext, opaqueDepth);
      assert lines[n..][1..] == lines[n + 1..];
      var trimmed := Trim(lines[n]);
      n := n + 1;
      if trimmed == "" || trimmed[0] == '#' {
        continue;
      }
      if opaqueDepth > 0 {
        opaqueDepth := ScanOpaque(opaqueDepth, trimmed);
        continue;
      }
      var first := FirstWord(trimmed);
      if first == "menuentry" || first == "submenu" {
        var parts := ParseMenuLine(trimmed);
        if parts.Err? {
          return Err(parts.error);
        }
        var isSubmenu := first == "submenu";
        var depth := |submenus|;
        var index := NextIndex(submenus, topNext);
        if submenus != [] {
          submenus := submenus[depth - 1 := submenus[depth - 1].(nextChild := index + 1)];
        } else {
          topNext := topNext + 1;
        }
        assert submenus == Advance(st).submenus && topNext == Advance(st).topNext;
        PrefixReadsIndices(st.submenus, submenus);
        var path := BuildPath(submenus, index);
        entries := entries + [GrubMenuEntry(parts.value.title, parts.value.id, path, depth, isSubmenu)];
        if parts.value.bodyDepth > 0 {
          if isSubmenu {
            submenus := submenus + [Frame(index, 0)];
          } else {
            opaqueDepth := parts.value.bodyDepth;
          }
        }
        assert State(entries, submenus, topNext, opaqueDepth) == AddItem(st, parts.value, isSubmenu);
      } else {
        var braces := UnquotedBraces(trimmed);
        var i := 0;
        assert braces[0..] == braces;
        while i < |braces|
          invariant i <= |braces|
          invariant LevelBraces(st, braces) ==
            LevelBraces(State(entries, submenus, topNext, opaqueDepth), braces[i..])
        {
          assert braces[i..][1..] == braces[i + 1..];
          if braces[i] == '{' {
            opaqueDepth := opaqueDepth + 1;
          } else if opaqueDepth > 0 {
            opaqueDepth := opaqueDepth - 1;
          } else if submenus != [] {
            submenus := submenus[..|submenus| - 1];
          }
          i := i + 1;
        }
      }
    }
    if opaqueDepth > 0 || submenus != [] {
      return Err(UnclosedBlock);
    }
    return Ok(entries);
  }

  /** A path prefix depends only on the frames' own indices. */
  lemma {:induction false} PrefixReadsIndices(a: seq<Frame>, b: seq<Frame>)
    requires |a| == |b|
    requires forall i | 0 <= i < |a| :: a[i].index == b[i].index
    ensures PathPrefix(a) == PathPrefix(b)
  {
    if a != [] {
      PrefixReadsIndices(a[..|a| - 1], b[..|b| - 1]);
    }
  }

  lemma {:induction false} RunAppend(st: State, a: seq<string>, b: seq<string>)
    ensures Run(st, a + b) == if Run(st, a).Failed? then Run(st, a) else Run(Run(st, a).state, b)
    decreases |a|
  {
    if a == [] {
      assert a + b == b;
    } else {
      assert (a + b)[1..] == a[1..] + b;
      if Step(st, a[0]).Running? {
        RunAppend(Step(st, a[0]).state, a[1..], b);
      }
    }
  }
}
