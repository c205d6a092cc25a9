/** Paths as the snapshot module compares and flattens them. */
module PathNames {
  import opened Text
  import opened Sorting
  import opened FixedWidth

  // ---------------------------------------------------------------------------
  // Components
  // ---------------------------------------------------------------------------

  datatype Component = RootDir | CurDir | ParentDir | Normal(name: string)

  type Path = seq<Component>

  function SplitSlash(s: string): (r: seq<string>)
    ensures r != []
    decreases |s|
  {
    var i := IndexOf(s, '/');
    if i < |s| then [s[..i]] + SplitSlash(s[i + 1..]) else [s]
  }

  /** The components of the parts of a path; empty parts and `.` disappear, except for a
      leading `.` of a relative path. */
  function PartComponents(parts: seq<string>, leading: bool): Path {
    if parts == [] then []
    else
      var rest := PartComponents(parts[1..], false);
      if parts[0] == "" then rest
      else if parts[0] == "." then (if leading then [CurDir] else []) + rest
      else if parts[0] == ".." then [ParentDir] + rest
      else [Normal(parts[0])] + rest
  }

  predicate IsAbsolute(s: string) {
    s != "" && s[0] == '/'
  }

  /** `Path::components`. */
  function Components(s: string): Path {
    if IsAbsolute(s) then [RootDir] + PartComponents(SplitSlash(s), false)
    else PartComponents(SplitSlash(s), true)
  }

  /** A snapshot id must be one plain directory name. */
  predicate IsPlainComponent(id: string) {
    id != "" && '/' !in id && '\\' !in id && |Components(id)| == 1 && Components(id)[0].Normal?
  }

  predicate Under(target: string, dir: string) {
    Components(dir) <= Components(target)
  }

  predicate UnderAny(target: string, allowed: seq<string>) {
    allowed != [] && (Under(target, allowed[0]) || UnderAny(target, allowed[1..]))
  }

  /** The lexical half of `is_managed_target`; there are no symbolic links in this model. */
  predicate IsManaged(target: string, allowed: seq<string>) {
    IsAbsolute(target) && ParentDir !in Components(target) && CurDir !in Components(target)
    && UnderAny(target, allowed)
  }

  lemma NoSlashSplit(s: string)
    requires '/' !in s
    ensures SplitSlash(s) == [s]
  {
    if IndexOf(s, '/') < |s| { assert s[IndexOf(s, '/')] in s; }
  }

  /** An accepted id names a directory of that name directly under the snapshot root. */
  lemma PlainIdExactly(id: string)
    ensures IsPlainComponent(id) <==> (id != "" && id != "." && id != ".." && '/' !in id && '\\' !in id)
    ensures IsPlainComponent(id) ==> Components(id) == [Normal(id)]
  {
    if '/' !in id {
      NoSlashSplit(id);
      assert PartComponents([id][1..], false) == [];
    }
  }

  // ---------------------------------------------------------------------------
  // The order in which restore locks its targets
  // ---------------------------------------------------------------------------

  function Rank(c: Component): nat {
    match c
    case RootDir => 0
    case CurDir => 1
    case ParentDir => 2
    case Normal(_) => 3
  }

  predicate ComponentLess(a: Component, b: Component) {
    Rank(a) < Rank(b) || (a.Normal? && b.Normal? && StringLess(a.name, b.name))
  }

  predicate PathLess(p: Path, q: Path) {
    Lex(ComponentLess, p, q)
  }

  lemma StringOrder()
    ensures Asymmetric(StringLess) && Splits(StringLess) && Connected(StringLess)
  {
    forall a, b | StringLess(a, b) ensures !StringLess(b, a) { LexAsymmetric(CharLess, a, b); }
    forall a, b, c | StringLess(a, b) ensures StringLess(a, c) || StringLess(c, b) { LexSplits(CharLess, a, b, c); }
    forall a, b ensures a == b || StringLess(a, b) || StringLess(b, a) { LexConnected(CharLess, a, b); }
  }

  lemma PathOrder()
    ensures Asymmetric(PathLess) && Splits(PathLess) && Connected(PathLess)
  {
    StringOrder();
    forall p, q | PathLess(p, q) ensures !PathLess(q, p) { LexAsymmetric(ComponentLess, p, q); }
    forall p, q, x | PathLess(p, q) ensures PathLess(p, x) || PathLess(x, q) { LexSplits(ComponentLess, p, q, x); }
    forall p, q ensures p == q || PathLess(p, q) || PathLess(q, p) { LexConnected(ComponentLess, p, q); }
  }

  // ---------------------------------------------------------------------------
  // Flat names
  // ---------------------------------------------------------------------------

  function TrimSlashes(s: string): string {
    if s != "" && s[0] == '/' then TrimSlashes(s[1..]) else s
  }

  /** `replace('/', "__")`. */
  function Underscored(s: string): string {
    if s == "" then "" else (if s[0] == '/' then "__" else [s[0]]) + Underscored(s[1..])
  }

  function FlattenPath(s: string): string {
    Underscored(TrimSlashes(s))
  }

  /** The absolute path with the given component names. */
  function PathOf(names: seq<string>): string {
    if names == [] then "" else "/" + names[0] + PathOf(names[1..])
  }

  /** A name whose end can be found again in a flat name. */
  predicate Flattenable(name: string) {
    name != "" && '/' !in name && name[|name| - 1] != '_'
    && forall i | 0 <= i < |name| - 1 :: !(name[i] == '_' && name[i + 1] == '_')
  }

  predicate AllFlattenable(names: seq<string>) {
    forall k | 0 <= k < |names| :: Flattenable(names[k])
  }

  /** The offset of the first double underscore, or the length of the text. */
  function Gap(s: string): (i: nat)
    ensures i <= |s|
  {
    if |s| < 2 then |s| else if s[0] == '_' && s[1] == '_' then 0 else 1 + Gap(s[1..])
  }

  /** The names read back from a flat name. */
  function Unflatten(s: string): seq<string>
    decreases |s|
  {
    var i := Gap(s);
    if i + 2 <= |s| then [s[..i]] + Unflatten(s[i + 2..]) else [s]
  }

  function FlatNames(names: seq<string>): string {
    if names == [] then "" else if |names| == 1 then names[0] else names[0] + "__" + FlatNames(names[1..])
  }

  lemma {:induction false} UnderscoredAppend(a: string, b: string)
    ensures Underscored(a + b) == Underscored(a) + Underscored(b)
  {
    if a == "" {
      assert a + b == b;
    } else {
      assert (a + b)[1..] == a[1..] + b;
      UnderscoredAppend(a[1..], b);
    }
  }

  lemma {:induction false} UnderscoredName(s: string)
    requires '/' !in s
    ensures Underscored(s) == s
  {
    if s != "" { UnderscoredName(s[1..]); }
  }

  lemma {:induction false} UnderscoredPath(names: seq<string>)
    requires forall k | 0 <= k < |names| :: '/' !in names[k]
    ensures Underscored(PathOf(names)) == if names == [] then "" else "__" + FlatNames(names)
  {
    if names != [] {
      var rest := PathOf(names[1..]);
      UnderscoredPath(names[1..]);
      UnderscoredStep(names[0], rest);
      var flat := Underscored(rest);
      assert |names| == 1 ==> names[0] + flat == names[0];
      assert |names| > 1 ==> flat == "__" + FlatNames(names[1..]);
      assert |names| > 1 ==> names[0] + ("__" + FlatNames(names[1..])) == FlatNames(names);
    }
  }

  lemma UnderscoredStep(name: string, rest: string)
    requires '/' !in name
    ensures Underscored("/" + name + rest) == "__" + (name + Underscored(rest))
  {
    UnderscoredName(name);
    UnderscoredAppend(name, rest);
    UnderscoredSlash(name + rest);
    assert "/" + name + rest == "/" + (name + rest);
  }

  lemma UnderscoredSlash(s: string)
    ensures Underscored("/" + s) == "__" + Underscored(s)
  {
    assert ("/" + s)[1..] == s;
  }

  lemma FlattenIsFlatNames(names: seq<string>)
    requires names != [] && AllFlattenable(names)
    ensures FlattenPath(PathOf(names)) == FlatNames(names)
  {
    var s := PathOf(names);
    var rest := names[0] + PathOf(names[1..]);
    assert s == ['/'] + rest && s[1..] == rest;
    assert rest[0] == names[0][0] && names[0][0] in names[0];
    assert TrimSlashes(s) == rest;
    UnderscoredPath(names);
    assert Underscored(s) == "__" + Underscored(rest);
    assert ("__" + Underscored(rest))[2..] == ("__" + FlatNames(names))[2..];
  }

  lemma {:induction false} GapAfterName(name: string, rest: string)
    requires Flattenable(name) || (name == "" && rest != "")
    requires rest == "" || (|rest| >= 2 && rest[0] == '_' && rest[1] == '_')
    ensures Gap(name + rest) == |name|
    decreases |name|
  {
    var s := name + rest;
    if |name| >= 2 {
      assert s[0] == name[0] && s[1] == name[1];
      assert s[1..] == name[1..] + rest;
      forall i | 0 <= i < |name[1..]| - 1 ensures !(name[1..][i] == '_' && name[1..][i + 1] == '_') {
        assert !(name[i + 1] == '_' && name[i + 2] == '_');
      }
      GapAfterName(name[1..], rest);
    } else if |name| == 1 {
      assert s[0] != '_' && s[1..] == rest;
    }
  }

  lemma {:induction false} UnflattenInverts(names: seq<string>)
    requires names != [] && AllFlattenable(names)
    ensures Unflatten(FlatNames(names)) == names
    decreases |names|
  {
    var s := FlatNames(names);
    if |names| == 1 {
      GapAfterName(names[0], "");
      assert names[0] + "" == names[0];
    } else {
      var rest := FlatNames(names[1..]);
      assert s == names[0] + ("__" + rest);
      GapAfterName(names[0], "__" + rest);
      assert s[..|names[0]|] == names[0] && s[|names[0]| + 2..] == rest;
      UnflattenInverts(names[1..]);
    }
  }

  /** Flat names tell apart all absolute paths whose components neither end in `_` nor contain
      `__`. */
  lemma FlattenInjective(a: seq<string>, b: seq<string>)
    requires a != [] && b != [] && AllFlattenable(a) && AllFlattenable(b)
    requires FlattenPath(PathOf(a)) == FlattenPath(PathOf(b))
    ensures a == b
  {
    FlattenIsFlatNames(a);
    FlattenIsFlatNames(b);
    UnflattenInverts(a);
    UnflattenInverts(b);
  }

  /** Neither condition can be dropped. */
  lemma FlatNamesCollide(a: string, b: string)
    requires a != "" && '/' !in a && '/' !in b
    ensures FlattenPath("/" + (a + "_") + "/" + b) == FlattenPath("/" + a + "/" + ("_" + b))
    ensures FlattenPath("/" + (a + "__" + b)) == FlattenPath("/" + a + "/" + b)
  {
    FlattenAt(a + "_", b);
    FlattenAt(a, "_" + b);
    FlattenAt(a, b);
    assert (a + "_") + "__" + b == a + "__" + ("_" + b);
    var flat := a + "__" + b;
    assert flat[0] == a[0] && a[0] in a;
    UnderscoredName(flat);
    TrimOne(flat);
  }

  lemma FlattenAt(a: string, b: string)
    requires a != "" && '/' !in a && '/' !in b
    ensures FlattenPath("/" + a + "/" + b) == a + "__" + b
  {
    var tail := "/" + b;
    assert "/" + a + "/" + b == "/" + (a + tail);
    assert (a + tail)[0] == a[0] && a[0] in a;
    TrimOne(a + tail);
    assert tail[1..] == b;
    UnderscoredAppend(a, tail);
    UnderscoredName(a);
    UnderscoredName(b);
    assert Underscored(tail) == "__" + b;
    assert a + ("__" + b) == a + "__" + b;
  }

  lemma TrimOne(s: string)
    requires s != "" && s[0] != '/'
    ensures TrimSlashes("/" + s) == s
  {
    assert ("/" + s)[1..] == s;
  }
}
