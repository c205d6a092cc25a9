/** What tells snapshots apart, and what their manifests say. */
module SnapshotIds {
  import opened Text
  import opened Hash
  import opened Sorting
  import opened Numerals
  import opened PathNames
  import opened FixedWidth
  import opened SnapshotData
  import opened SnapshotRestore
  import Instants
  import Retention

  // ---------------------------------------------------------------------------
  // Ids
  // ---------------------------------------------------------------------------

  lemma {:induction false} WithoutColonsAppend(a: string, b: string)
    ensures WithoutColons(a + b) == WithoutColons(a) + WithoutColons(b)
  {
    if a == "" {
      assert a + b == b;
    } else {
      assert (a + b)[1..] == a[1..] + b;
      WithoutColonsAppend(a[1..], b);
    }
  }

  lemma {:induction false} NoColons(s: string)
    requires ':' !in s
    ensures WithoutColons(s) == s
  {
    if s != "" { NoColons(s[1..]); }
  }

  lemma DigitsHaveNoColon(n: nat, w: nat)
    requires n < Power(10, w)
    ensures ':' !in Fixed(10, n, w)
  {
    ValueInvertsFixed(10, n, w);
    var s := Fixed(10, n, w);
    forall k | 0 <= k < |s| ensures s[k] != ':' { assert IsDigitOf(10, s[k]); }
  }

  /** A printed field without its colon. */
  lemma FieldWithoutColons(f: Instants.Field, rest: string)
    requires f.value < Power(10, f.width)
    ensures WithoutColons(Fixed(10, f.value, f.width) + ([f.mark] + rest))
      == Fixed(10, f.value, f.width) + ((if f.mark == ':' then "" else [f.mark]) + WithoutColons(rest))
  {
    var digits := Fixed(10, f.value, f.width);
    DigitsHaveNoColon(f.value, f.width);
    NoColons(digits);
    WithoutColonsAppend(digits, [f.mark] + rest);
    assert ([f.mark] + rest)[1..] == rest;
  }

  /** Equal texts that start with compact timestamps have the same timestamp and the same rest. */
  lemma {:induction false} CompactInjective(a: seq<Instants.Field>, b: seq<Instants.Field>, x: string, y: string)
    requires Instants.SameShape(a, b) && Instants.InRange(a) && Instants.InRange(b)
    requires WithoutColons(Instants.PrintFields(a)) + x == WithoutColons(Instants.PrintFields(b)) + y
    ensures a == b && x == y
    decreases |a|
  {
    if a == [] {
      assert WithoutColons(Instants.PrintFields(a)) + x == x;
      assert WithoutColons(Instants.PrintFields(b)) + y == y;
    } else {
      var (p, q) := (Instants.PrintFields(a[1..]), Instants.PrintFields(b[1..]));
      var mark := if a[0].mark == ':' then "" else [a[0].mark];
      FieldWithoutColons(a[0], p);
      FieldWithoutColons(b[0], q);
      SplitEqual(Fixed(10, a[0].value, a[0].width), Fixed(10, b[0].value, b[0].width), mark,
        WithoutColons(p), WithoutColons(q), x, y);
      FixedInjective(10, a[0].value, b[0].value, a[0].width);
      CompactInjective(a[1..], b[1..], x, y);
      assert a == [a[0]] + a[1..] && b == [b[0]] + b[1..];
    }
  }

  lemma SplitEqual(a: string, b: string, mark: string, p: string, q: string, x: string, y: string)
    requires |a| == |b| && (a + (mark + p)) + x == (b + (mark + q)) + y
    ensures a == b && p + x == q + y
  {
    var (s, t) := ((a + (mark + p)) + x, (b + (mark + q)) + y);
    assert s[..|a|] == a && t[..|b|] == b;
    assert s[|a| + |mark|..] == p + x && t[|b| + |mark|..] == q + y;
  }

  lemma SameEnds(a: string, b: string, x: string, y: string)
    requires |x| == |y| && "-" + a + "-" + x == "-" + b + "-" + y
    ensures a == b && x == y
  {
    var (s, t) := ("-" + a + "-" + x, "-" + b + "-" + y);
    assert |a| == |b|;
    assert s[1..|a| + 1] == a && t[1..|b| + 1] == b;
    assert s[|a| + 2..] == x && t[|b| + 2..] == y;
  }

  /** Two captures have the same id exactly when their second, their operation and their job tag
      are the same: jobs with different tags never collide, not even within one second. */
  lemma IdsExactly(a: SnapshotData.Request, b: SnapshotData.Request, s: Instants.Instant, t: Instants.Instant)
    requires Instants.Calendar(s) && Instants.Calendar(t)
    requires a.ts == Instants.Rfc3339(s) && b.ts == Instants.Rfc3339(t) && |a.jobTag| == |b.jobTag|
    ensures SnapshotId(a) == SnapshotId(b) <==> s == t && a.op == b.op && a.jobTag == b.jobTag
  {
    if SnapshotId(a) == SnapshotId(b) {
      var (x, y) := ("-" + a.op + "-" + a.jobTag, "-" + b.op + "-" + b.jobTag);
      assert SnapshotId(a) == WithoutColons(a.ts) + x && SnapshotId(b) == WithoutColons(b.ts) + y;
      assert Power(10, 1) == 10 && Power(10, 2) == 100 && Power(10, 3) == 1000 && Power(10, 4) == 10000;
      CompactInjective(Instants.Fields(s), Instants.Fields(t), x, y);
      SameInstant(s, t);
      SameEnds(a.op, b.op, a.jobTag, b.jobTag);
    }
  }

  lemma SameInstant(s: Instants.Instant, t: Instants.Instant)
    requires Instants.Fields(s) == Instants.Fields(t)
    ensures s == t
  {
    var (f, g) := (Instants.Fields(s), Instants.Fields(t));
    assert f[0] == g[0] && f[1] == g[1] && f[2] == g[2] && f[3] == g[3] && f[4] == g[4] && f[5] == g[5];
  }

  lemma {:induction false} OnlyColonsGo(s: string, c: char)
    requires c != ':'
    ensures c in WithoutColons(s) <==> c in s
  {
    if s != "" {
      OnlyColonsGo(s[1..], c);
      assert s == [s[0]] + s[1..];
    }
  }

  predicate HasSeparator(s: string) {
    '/' in s || '\\' in s
  }

  /** The id of a capture is one that a restore accepts exactly when no part of it brings in a separator. */
  lemma IdIsPlainExactly(req: SnapshotData.Request)
    ensures IsPlainComponent(SnapshotId(req))
      <==> !HasSeparator(req.ts) && !HasSeparator(req.op) && !HasSeparator(req.jobTag)
  {
    var id := SnapshotId(req);
    var k := |WithoutColons(req.ts)|;
    PlainIdExactly(id);
    OnlyColonsGo(req.ts, '/');
    OnlyColonsGo(req.ts, '\\');
    assert id[k] == '-';
    assert "."[0] == '.' && ".."[0] == '.' && ".."[1] == '.';
    assert id != "." && id != ".." && id != "";
  }

  // ---------------------------------------------------------------------------
  // Manifests
  // ---------------------------------------------------------------------------

  /** Row `k` names the file, the digest of its bytes and its mode. */
  predicate RowOf(row: ManifestFile, file: CapturedFile) {
    row.path == file.path && row.sha == Digest(file.data) && row.mode == file.mode
  }

  /** After a successful capture the manifest that a restore reads says what was asked for and what
      was captured, each field in its place. */
  lemma CapturedManifestIsRead(
    dirs: Dirs, req: SnapshotData.Request, captured: seq<CapturedFile>, faults: set<CreateCall>, torn: Option<string>)
    requires CreateEffect(dirs, req, captured, faults, torn).1.Ok?
    requires captured != [] && IsPlainComponent(SnapshotId(req))
    ensures
      var read := ReadManifestOf(CreateEffect(dirs, req, captured, faults, torn).0, SnapshotId(req), {});
      && read.Ok? && read.value.ts == req.ts && read.value.op == req.op
      && read.value.etagBefore == req.etagBefore && read.value.jobId == req.jobId
      && |read.value.files| == |captured| == |req.files|
      && forall k | 0 <= k < |captured| ::
           RowOf(read.value.files[k], captured[k]) && read.value.files[k].path == req.files[k]
  {
    CreateAddsOne(dirs, req, captured, faults, torn);
    var rows := Rows(captured);
    assert rows[0] == rows[0];
  }

  /** And the listing shows it under its id, with the operation, time and job of the request. */
  lemma CapturedIsListed(
    dirs: Dirs, req: SnapshotData.Request, captured: seq<CapturedFile>, faults: set<CreateCall>, torn: Option<string>,
    order: seq<string>, unreadable: set<string>)
    requires CreateEffect(dirs, req, captured, faults, torn).1.Ok? && SnapshotId(req) in order
    requires Retention.Listed(CreateEffect(dirs, req, captured, faults, torn).0, order, unreadable).Ok?
    ensures Retention.SnapshotInfo(SnapshotId(req), req.op, req.ts, req.jobId)
      in Retention.Listed(CreateEffect(dirs, req, captured, faults, torn).0, order, unreadable).value
  {
    var after := CreateEffect(dirs, req, captured, faults, torn).0;
    CreateAddsOne(dirs, req, captured, faults, torn);
    Retention.ListingExactly(after, order, unreadable,
      Retention.SnapshotInfo(SnapshotId(req), req.op, req.ts, req.jobId));
  }

  /** The manifest is written last: none of the payloads has its name. */
  predicate NoneIsManifest(captured: seq<CapturedFile>) {
    forall k | 0 <= k < |captured| :: FlattenPath(captured[k].path) != "manifest.json"
  }

  lemma {:induction false} FailedDirHasNoManifest(
    dir: Dir, req: SnapshotData.Request, captured: seq<CapturedFile>, k: nat, faults: set<CreateCall>,
    torn: Option<string>)
    requires k <= |captured| && MANIFEST !in dir && NoneIsManifest(captured)
    requires CreateDirFrom(dir, req, captured, k, faults, torn).1.Err?
    ensures
      var after := CreateDirFrom(dir, req, captured, k, faults, torn).0;
      MANIFEST in after ==> after[MANIFEST].Raw?
    decreases |captured| - k
  {
    if k < |captured| && WriteFile(k) !in faults {
      FailedDirHasNoManifest(
        dir[FlattenPath(captured[k].path) := captured[k].data], req, captured, k + 1, faults, torn);
    }
  }

  /** A capture that fails half-way can never be restored: its directory has no manifest, or a torn one. */
  lemma FailedCaptureIsNotRestorable(
    dirs: Dirs, req: SnapshotData.Request, captured: seq<CapturedFile>, faults: set<CreateCall>, torn: Option<string>,
    calls: Faults)
    requires CreateEffect(dirs, req, captured, faults, torn).1.Err?
    requires SnapshotId(req) !in dirs && NoneIsManifest(captured)
    ensures ReadManifestOf(CreateEffect(dirs, req, captured, faults, torn).0, SnapshotId(req), calls).Err?
  {
    var made := CreateDirFrom(map[], req, captured, 0, faults, torn);
    if made.1.Err? { FailedDirHasNoManifest(map[], req, captured, 0, faults, torn); }
  }

  // ---------------------------------------------------------------------------
  // What an error of a restore means
  // ---------------------------------------------------------------------------

  predicate HasManifest(dirs: Dirs, id: string) {
    id in dirs && "manifest.json" in dirs[id]
  }

  lemma {:induction false} CheckErrors(rows: seq<ManifestFile>, allowed: seq<string>, faults: Faults, k: nat)
    requires k <= |rows|
    ensures
      var r := CheckTargets(rows, allowed, faults, k);
      r.Err? ==> r == Err(Io) || exists j | k <= j < |rows| :: FirstUnmanaged(rows, allowed, k, j, r)
    decreases |rows| - k
  {
    if k < |rows| {
      CheckErrors(rows, allowed, faults, k + 1);
      var r := CheckTargets(rows, allowed, faults, k);
      if !IsManaged(rows[k].path, allowed) {
        assert FirstUnmanaged(rows, allowed, k, k, r);
      } else if r.Err? && r != Err(Io) {
        var j :| k + 1 <= j < |rows| && FirstUnmanaged(rows, allowed, k + 1, j, r);
        assert FirstUnmanaged(rows, allowed, k, j, r);
      }
    }
  }

  /** `r` reports row `j`, the first from row `k` on that is not managed. */
  predicate FirstUnmanaged(rows: seq<ManifestFile>, allowed: seq<string>, k: nat, j: nat, r: SnapshotData.Result<()>)
    requires k <= j < |rows|
  {
    r == Err(UnmanagedTarget(rows[j].path)) && !IsManaged(rows[j].path, allowed)
    && forall i | k <= i < j :: IsManaged(rows[i].path, allowed)
  }

  lemma {:induction false} LockErrors(files: Files, targets: seq<Path>, busy: set<Path>, faults: Faults, k: nat)
    requires k <= |targets|
    ensures
      var r := LockTargets(files, targets, busy, faults, k);
      r.Err? ==>
        r == Err(Io) || exists p | p in targets :: p in files && p in busy && r == Err(ConcurrentModification(p))
    decreases |targets| - k
  {
    if k < |targets| {
      assert targets[k] in targets;
      LockErrors(files, targets, busy, faults, k + 1);
    }
  }

  predicate Plainly(e: SnapshotData.Error) {
    e == Io || e == Corrupt
  }

  lemma {:induction false} LoadErrors(dir: Dir, rows: seq<ManifestFile>, faults: Faults, k: nat)
    requires k <= |rows|
    ensures LoadPayloads(dir, rows, faults, k).Err? ==> Plainly(LoadPayloads(dir, rows, faults, k).error)
    decreases |rows| - k
  {
    if k < |rows| { LoadErrors(dir, rows, faults, k + 1); }
  }

  lemma {:induction false} ReplaceErrors(files: Files, rs: seq<Replacement>, faults: Faults, k: nat)
    requires k <= |rs|
    ensures ReplaceAll(files, rs, faults, k).1.Err? ==> Plainly(ReplaceAll(files, rs, faults, k).1.error)
    decreases |rs| - k
  {
    if k < |rs| { ReplaceErrors(ReplaceOne(files, rs[k], faults, k).0, rs, faults, k + 1); }
  }

  /** The four errors of reading the manifest, in terms of the id and the snapshot directory. */
  ghost predicate ManifestErrors(dirs: Dirs, id: string, faults: Faults, r: SnapshotData.Result<()>) {
    && (r == Err(InvalidId) <==> !IsPlainComponent(id))
    && (r == Err(NotFound) <==> IsPlainComponent(id) && !HasManifest(dirs, id))
    && (r == Err(Serde) <==>
          IsPlainComponent(id) && HasManifest(dirs, id) && ReadManifest !in faults && dirs[id]["manifest.json"].Raw?)
    && (r == Err(SchemaUpgradeRequired) <==>
          IsPlainComponent(id) && HasManifest(dirs, id) && ReadManifest !in faults
          && dirs[id]["manifest.json"].Json? && dirs[id]["manifest.json"].manifest.schemaVersion > 1)
  }

  /** The errors of everything after that. */
  ghost predicate LaterError(
    files: Files, rows: seq<ManifestFile>, allowed: seq<string>, etag: ETag<Data>, busy: set<Path>,
    e: SnapshotData.Error)
  {
    match e
    case Io => true
    case Corrupt => true
    case UnmanagedTarget(_) => exists j | 0 <= j < |rows| :: FirstUnmanaged(rows, allowed, 0, j, Err(e))
    case ConcurrentModification(p) => p in Targets(rows) && p in files && p in busy
    case StateMismatch => rows != [] && Targets(rows)[0] in files && etag != Digest(files[Targets(rows)[0]].data)
    case _ => false
  }

  lemma SortedTargets(rows: seq<ManifestFile>)
    ensures forall p :: p in Sort(PathLess, Targets(rows)) <==> p in Targets(rows)
  {
    forall p ensures p in Sort(PathLess, Targets(rows)) <==> p in Targets(rows) {
      SortMembers(PathLess, Targets(rows), p);
    }
  }

  lemma LaterErrors(
    files: Files, dirs: Dirs, id: string, allowed: seq<string>, etag: ETag<Data>, busy: set<Path>, faults: Faults)
    requires ReadManifestOf(dirs, id, faults).Ok?
    ensures
      var r := RestoreEffect(files, dirs, id, allowed, etag, busy, faults).1;
      r.Err? ==> LaterError(files, RowsOf(dirs, id), allowed, etag, busy, r.error)
  {
    var rows := RowsOf(dirs, id);
    var plan := RestorePlan(files, dirs, id, allowed, etag, busy, faults);
    CheckErrors(rows, allowed, faults, 0);
    LockErrors(files, Sort(PathLess, Targets(rows)), busy, faults, 0);
    SortedTargets(rows);
    LoadErrors(dirs[id], rows, faults, 0);
    if plan.Ok? { ReplaceErrors(files, plan.value, faults, 0); }
  }

  /** What each error of a restore says about the call, whatever fails beside it. */
  lemma RestoreErrors(
    files: Files, dirs: Dirs, id: string, allowed: seq<string>, etag: ETag<Data>, busy: set<Path>, faults: Faults)
    ensures
      var r := RestoreEffect(files, dirs, id, allowed, etag, busy, faults).1;
      && ManifestErrors(dirs, id, faults, r)
      && (ReadManifestOf(dirs, id, faults).Ok? && r.Err? ==>
            LaterError(files, RowsOf(dirs, id), allowed, etag, busy, r.error))
  {
    if ReadManifestOf(dirs, id, faults).Ok? { LaterErrors(files, dirs, id, allowed, etag, busy, faults); }
  }
}
