/** Choosing a generated menu entry as the persistent default. */
module MenuSelection {
  import opened Text
  import opened Numerals
  import opened Decimal
  import opened Hash
  import MenuLine
  import opened MenuParser
  import opened MenuForest
  import opened GrubConfig
  import opened GrubEdit
  import opened GrubSettings

  datatype Selection = Selected | StateMismatch | MalformedMenu(error: MenuLine.MenuError) | IsSubmenu | NoSuchPath

  function FindByPath(entries: seq<GrubMenuEntry>, path: string): Option<GrubMenuEntry> {
    if entries == [] then None
    else if entries[0].path == path then Some(entries[0])
    else FindByPath(entries[1..], path)
  }

  /** `validate_menu_selection`, on the menu text it reads. */
  function ValidateMenuSelection(menu: string, selected: string, menuEtag: ETag<string>): Selection {
    if !VerifyEtag(menuEtag, menu) then StateMismatch
    else
      var entries := MenuEntries(menu);
      if entries.Err? then MalformedMenu(entries.error)
      else
        var entry := FindByPath(entries.value, selected);
        if entry.None? then NoSuchPath else if entry.value.isSubmenu then IsSubmenu else Selected
  }

  lemma {:induction false} FindsUnique(entries: seq<GrubMenuEntry>, i: nat)
    requires DistinctPaths(entries) && i < |entries|
    ensures FindByPath(entries, entries[i].path) == Some(entries[i])
  {
    if i > 0 {
      assert entries[0].path != entries[i].path;
      assert DistinctPaths(entries[1..]);
      FindsUnique(entries[1..], i - 1);
    }
  }

  lemma {:induction false} FindsListed(entries: seq<GrubMenuEntry>, path: string)
    ensures var e := FindByPath(entries, path); e.Some? ==> e.value in entries && e.value.path == path
  {
    if entries != [] && entries[0].path != path {
      FindsListed(entries[1..], path);
    }
  }

  lemma {:induction false} PathStringIsPlain(p: Path)
    requires p != []
    ensures Plain(PathString(p))
  {
    DigitsArePlain(p[|p| - 1]);
    if |p| > 1 {
      PathStringIsPlain(p[..|p| - 1]);
    }
  }

  /** The selection check accepts exactly the paths of bootable entries of the menu the
      caller saw, and each such path belongs to one entry only. */
  lemma SelectionExact(menu: string, selected: string, menuEtag: ETag<string>)
    ensures ValidateMenuSelection(menu, selected, menuEtag) == Selected <==>
      menuEtag == Digest(menu) && MenuEntries(menu).Ok? &&
      exists i | 0 <= i < |MenuEntries(menu).value| ::
        && MenuEntries(menu).value[i].path == selected && !MenuEntries(menu).value[i].isSubmenu
        && forall j | 0 <= j < |MenuEntries(menu).value| && MenuEntries(menu).value[j].path == selected :: j == i
  {
    if MenuEntries(menu).Ok? {
      var es := MenuEntries(menu).value;
      var ps := ParsedMenuIsForest(menu);
      FindsListed(es, selected);
      if ValidateMenuSelection(menu, selected, menuEtag) == Selected {
        var i :| 0 <= i < |es| && es[i] == FindByPath(es, selected).value;
        assert es[i].path == selected && !es[i].isSubmenu;
      }
      forall i | 0 <= i < |es| && es[i].path == selected ensures FindByPath(es, selected) == Some(es[i]) {
        FindsUnique(es, i);
      }
    }
  }

  /** What each refusal means. */
  lemma SelectionErrors(menu: string, selected: string, menuEtag: ETag<string>)
    ensures
      var r := ValidateMenuSelection(menu, selected, menuEtag);
      var entries := MenuEntries(menu);
      && (r == StateMismatch <==> menuEtag != Digest(menu))
      && (forall e :: r == MalformedMenu(e) <==> menuEtag == Digest(menu) && entries == MenuLine.Err(e))
      && (r == IsSubmenu <==> menuEtag == Digest(menu) && entries.Ok?
                              && exists e | e in entries.value :: e.path == selected && e.isSubmenu)
      && (r == NoSuchPath <==> menuEtag == Digest(menu) && entries.Ok?
                               && forall e | e in entries.value :: e.path != selected)
  {
    if MenuEntries(menu).Ok? {
      var es := MenuEntries(menu).value;
      var ps := ParsedMenuIsForest(menu);
      FindsListed(es, selected);
      forall e | e in es && e.path == selected ensures FindByPath(es, selected) == Some(e) {
        var i :| 0 <= i < |es| && es[i] == e;
        FindsUnique(es, i);
      }
    }
  }

  /** End to end: the path the parser gave any bootable entry passes the check, can be
      written, and is what `GRUB_DEFAULT` reads back as, with every other key unchanged. */
  lemma ChosenEntryBecomesDefault(menu: string, config: string, i: nat)
    requires MenuEntries(menu).Ok? && i < |MenuEntries(menu).value| && !MenuEntries(menu).value[i].isSubmenu
    requires Accepted(Lines(config))
    ensures var path := MenuEntries(menu).value[i].path;
      var written := EditedText(config, [("GRUB_DEFAULT", path)]);
      && ValidateMenuSelection(menu, path, Digest(menu)) == Selected
      && Accepted(Lines(written))
      && ConfigOf(written).values == ConfigOf(config).values["GRUB_DEFAULT" := path]
  {
    var path := MenuEntries(menu).value[i].path;
    var ps := ParsedMenuIsForest(menu);
    FindsUnique(MenuEntries(menu).value, i);
    PathStringIsPlain(ps[i]);
    PlainIsRepresentable(path);
    SettingKeysAreValid();
    SingleEditExact(config, "GRUB_DEFAULT", path);
  }
}
