/** Which paths a restore may write, said over the names between the slashes. */
module ManagedPaths {
  import opened Text
  import opened Sorting
  import opened FixedWidth
  import opened PathNames

  predicate NoSlash(parts: seq<string>) {
    forall k | 0 <= k < |parts| :: '/' !in parts[k]
  }

  /** The parts that count: neither empty nor `.`. */
  function Kept(parts: seq<string>): seq<string> {
    if parts == [] then []
    else (if parts[0] == "" || parts[0] == "." then [] else [parts[0]]) + Kept(parts[1..])
  }

  function ComponentOf(name: string): Component {
    if name == ".." then ParentDir else Normal(name)
  }

  function ComponentsOf(names: seq<string>): (r: Path)
    ensures |r| == |names|
    ensures forall i | 0 <= i < |names| :: r[i] == ComponentOf(names[i])
  {
    seq(|names|, i requires 0 <= i < |names| => ComponentOf(names[i]))
  }

  // ---------------------------------------------------------------------------
  // The components of an absolute path
  // ---------------------------------------------------------------------------

  lemma SplitFirst(s: string, part: string, tail: string)
    requires '/' !in part && s == part + ['/'] + tail
    ensures SplitSlash(s) == [part] + SplitSlash(tail)
  {
    IndexOfAppend(part, '/', tail);
    assert s[..|part|] == part && s[|part| + 1..] == tail;
  }

  lemma PathFirst(part: string, rest: seq<string>, tail: string)
    requires rest != [] && tail == rest[0] + PathOf(rest[1..])
    ensures part + PathOf(rest) == part + ['/'] + tail
  {
    var (a, b) := (rest[0], PathOf(rest[1..]));
    assert "/" + a + b == ['/'] + (a + b);
  }

  lemma {:induction false} SplitAfter(s: string, part: string, rest: seq<string>)
    requires '/' !in part && NoSlash(rest) && s == part + PathOf(rest)
    ensures SplitSlash(s) == [part] + rest
    decreases |rest|
  {
    if rest == [] {
      assert s == part;
      NoSlashSplit(part);
    } else {
      var tail := rest[0] + PathOf(rest[1..]);
      PathFirst(part, rest, tail);
      SplitFirst(s, part, tail);
      SplitAfter(tail, rest[0], rest[1..]);
    }
  }

  lemma {:induction false} PartsKept(parts: seq<string>)
    ensures PartComponents(parts, false) == ComponentsOf(Kept(parts))
  {
    if parts != [] {
      PartsKept(parts[1..]);
    }
  }

  lemma AbsoluteComponents(parts: seq<string>)
    requires parts != [] && NoSlash(parts)
    ensures IsAbsolute(PathOf(parts)) && Components(PathOf(parts)) == [RootDir] + ComponentsOf(Kept(parts))
  {
    var s := PathOf(parts);
    assert "" + s == s;
    SplitAfter(s, "", parts);
    PartsKept([""] + parts);
    assert ([""] + parts)[1..] == parts;
    assert [] + Kept(parts) == Kept(parts);
  }

  /** Every absolute path is made of such parts. */
  lemma {:induction false} AbsoluteIsPathOf(s: string) returns (parts: seq<string>)
    requires IsAbsolute(s)
    ensures parts != [] && NoSlash(parts) && s == PathOf(parts)
    decreases |s|
  {
    var i := 1 + IndexOf(s[1..], '/');
    var name := s[1..i];
    assert s[1..][..i - 1] == name;
    if i < |s| {
      var rest := AbsoluteIsPathOf(s[i..]);
      parts := [name] + rest;
      assert parts[1..] == rest;
      assert s == "/" + name + s[i..];
    } else {
      parts := [name];
      assert parts[1..] == [];
      assert s == "/" + name + "";
    }
  }

  // ---------------------------------------------------------------------------
  // Managed paths
  // ---------------------------------------------------------------------------

  lemma PrefixOfComponents(a: seq<string>, b: seq<string>)
    requires ".." !in b
    ensures [RootDir] + ComponentsOf(a) <= [RootDir] + ComponentsOf(b) <==> a <= b
  {
    var (p, q) := ([RootDir] + ComponentsOf(a), [RootDir] + ComponentsOf(b));
    if p <= q {
      forall i | 0 <= i < |a| ensures a[i] == b[i] {
        assert p[i + 1] == q[i + 1];
        assert b[i] in b;
      }
    }
    if a <= b {
      forall i | 0 <= i < |p| ensures p[i] == q[i] {
        assert i > 0 ==> a[i - 1] == b[i - 1];
      }
    }
  }

  lemma {:induction false} UnderSome(target: string, dirs: seq<string>)
    ensures UnderAny(target, dirs) <==> exists k | 0 <= k < |dirs| :: Under(target, dirs[k])
  {
    if dirs != [] {
      UnderSome(target, dirs[1..]);
      if k :| 0 <= k < |dirs| && Under(target, dirs[k]) {
        if k > 0 { assert Under(target, dirs[1..][k - 1]); }
      }
      if k :| 0 <= k < |dirs[1..]| && Under(target, dirs[1..][k]) { assert Under(target, dirs[k + 1]); }
    }
  }

  function PathsOf(dirs: seq<seq<string>>): (r: seq<string>)
    ensures |r| == |dirs|
    ensures forall k | 0 <= k < |dirs| :: r[k] == PathOf(dirs[k])
  {
    seq(|dirs|, k requires 0 <= k < |dirs| => PathOf(dirs[k]))
  }

  lemma UnderExactly(a: seq<string>, dir: seq<string>)
    requires a != [] && NoSlash(a) && NoSlash(dir) && ".." !in Kept(a)
    ensures Under(PathOf(a), PathOf(dir)) <==> Kept(dir) <= Kept(a)
  {
    AbsoluteComponents(a);
    if dir == [] {
      NoSlashSplit("");
    } else {
      AbsoluteComponents(dir);
      PrefixOfComponents(Kept(dir), Kept(a));
    }
  }

  lemma {:induction false} KeptParent(parts: seq<string>)
    ensures ".." in Kept(parts) <==> ".." in parts
  {
    if parts != [] {
      KeptParent(parts[1..]);
      assert parts == [parts[0]] + parts[1..];
    }
  }

  lemma ParentExactly(names: seq<string>)
    ensures ParentDir in ComponentsOf(names) <==> ".." in names
    ensures CurDir !in ComponentsOf(names)
  {
    var parts := ComponentsOf(names);
    if ".." in names {
      var i :| 0 <= i < |names| && names[i] == "..";
      assert parts[i] == ParentDir;
    }
    forall i | 0 <= i < |parts| && parts[i] == ParentDir ensures ".." in names {
      assert names[i] in names;
    }
  }

  lemma MarksExactly(a: seq<string>)
    requires a != [] && NoSlash(a)
    ensures IsAbsolute(PathOf(a)) && CurDir !in Components(PathOf(a))
    ensures ParentDir in Components(PathOf(a)) <==> ".." in a
  {
    AbsoluteComponents(a);
    KeptParent(a);
    ParentExactly(Kept(a));
  }

  /** An absolute path is managed exactly when it has no `..` and the names of some managed path are
      the first of its own, whole names being compared; empty parts and `.` do not count. */
  lemma ManagedExactly(a: seq<string>, dirs: seq<seq<string>>)
    requires a != [] && NoSlash(a) && forall k | 0 <= k < |dirs| :: NoSlash(dirs[k])
    ensures IsManaged(PathOf(a), PathsOf(dirs))
      <==> ".." !in a && exists k | 0 <= k < |dirs| :: Kept(dirs[k]) <= Kept(a)
  {
    MarksExactly(a);
    if ".." !in a {
      UnderSome(PathOf(a), PathsOf(dirs));
      forall k | 0 <= k < |dirs| ensures Under(PathOf(a), PathsOf(dirs)[k]) <==> Kept(dirs[k]) <= Kept(a) {
        KeptParent(a);
        UnderExactly(a, dirs[k]);
      }
    }
  }

  /** A relative path never is. */
  lemma RelativeIsNotManaged(target: string, allowed: seq<string>)
    requires target == "" || target[0] != '/'
    ensures !IsManaged(target, allowed)
  {
  }

  /** The order in which a restore locks its targets: name by name, each compared as text. */
  lemma {:induction false} NamesOrder(a: seq<string>, b: seq<string>)
    requires ".." !in a && ".." !in b
    ensures PathLess(ComponentsOf(a), ComponentsOf(b)) <==> Lex(StringLess, a, b)
    decreases |a|
  {
    if a != [] && b != [] {
      assert ComponentsOf(a)[1..] == ComponentsOf(a[1..]) && ComponentsOf(b)[1..] == ComponentsOf(b[1..]);
      assert a[0] in a && b[0] in b && (forall x | x in a[1..] :: x in a) && (forall x | x in b[1..] :: x in b);
      NamesOrder(a[1..], b[1..]);
    }
  }

  lemma LockOrder(a: seq<string>, b: seq<string>)
    requires a != [] && b != [] && NoSlash(a) && NoSlash(b) && ".." !in a && ".." !in b
    ensures PathLess(Components(PathOf(a)), Components(PathOf(b))) <==> Lex(StringLess, Kept(a), Kept(b))
  {
    var (p, q) := (ComponentsOf(Kept(a)), ComponentsOf(Kept(b)));
    AbsoluteComponents(a);
    AbsoluteComponents(b);
    KeptParent(a);
    KeptParent(b);
    NamesOrder(Kept(a), Kept(b));
    assert ([RootDir] + p)[1..] == p && ([RootDir] + q)[1..] == q;
  }

  predicate IsName(part: string) {
    part != "" && part != "." && part != ".." && '/' !in part
  }

  lemma {:induction false} NamesAreKept(names: seq<string>)
    requires AllNames(names)
    ensures Kept(names) == names && ".." !in names && NoSlash(names)
  {
    if names != [] { NamesAreKept(names[1..]); }
  }

  predicate AllNames(names: seq<string>) {
    forall k | 0 <= k < |names| :: IsName(names[k])
  }

  /** For paths of plain names: the names of the managed path come first. */
  lemma ManagedByOne(a: seq<string>, dir: seq<string>)
    requires a != [] && AllNames(a) && AllNames(dir)
    ensures IsManaged(PathOf(a), [PathOf(dir)]) <==> dir <= a
  {
    NamesAreKept(a);
    NamesAreKept(dir);
    ManagedExactly(a, [dir]);
    assert PathsOf([dir]) == [PathOf(dir)];
    assert [dir][0] == dir;
  }

  /** So a path inside a managed directory is managed, and one that only shares the first characters
      of its name is not. */
  lemma InsideAndBeside(dir: seq<string>, inside: seq<string>, name: string, more: string)
    requires AllNames(dir) && AllNames(inside) && IsName(name) && IsName(name + more) && more != ""
    ensures IsManaged(PathOf(dir + [name] + inside), [PathOf(dir + [name])])
    ensures !IsManaged(PathOf(dir + [name + more] + inside), [PathOf(dir + [name])])
  {
    var d, b := dir + [name], dir + [name + more] + inside;
    ManagedByOne(d + inside, d);
    ManagedByOne(b, d);
    assert d[|dir|] == name && b[|dir|] == name + more && |name + more| > |name|;
  }
}
