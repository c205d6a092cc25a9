/** Snapshot directories, manifests, and the capture that writes them. */
module SnapshotData {
  import opened Text
  import opened Hash
  import opened PathNames
  import opened FixedWidth

  /** The content of a file: plain text, or the serialisation of a manifest. */
  datatype Data = Raw(text: string) | Json(manifest: Manifest)

  datatype ManifestFile = ManifestFile(path: string, sha: ETag<Data>, mode: string)

  datatype Manifest = Manifest(
    schemaVersion: nat, ts: string, op: string, etagBefore: string, files: seq<ManifestFile>, jobId: string)

  datatype File = File(data: Data, mode: Mode)

  /** The managed files, keyed by path components. */
  type Files = map<Path, File>

  type Dir = map<string, Data>

  /** The snapshot directories by name. */
  type Dirs = map<string, Dir>

  datatype Error =
    | Io | Serde | NotFound | SchemaUpgradeRequired | InvalidId
    | UnmanagedTarget(target: string) | ConcurrentModification(path: Path) | StateMismatch | Corrupt

  datatype Result<+T> = Ok(value: T) | Err(error: Error)

  const SCHEMA_VERSION := 1
  const MANIFEST := "manifest.json"

  /** `jobTag` stands for the first 16 hex digits of the hash of `jobId`. */
  datatype Request = Request(
    ts: string, op: string, etagBefore: string, files: seq<string>, jobId: string, jobTag: string)

  datatype CapturedFile = CapturedFile(path: string, data: Data, mode: string)

  function WithoutColons(s: string): string {
    if s == "" then "" else (if s[0] == ':' then "" else [s[0]]) + WithoutColons(s[1..])
  }

  function SnapshotId(req: Request): string {
    WithoutColons(req.ts) + "-" + req.op + "-" + req.jobTag
  }

  predicate CapturesRequest(req: Request, captured: seq<CapturedFile>) {
    |captured| == |req.files| && forall k | 0 <= k < |captured| :: captured[k].path == req.files[k]
  }

  function Rows(captured: seq<CapturedFile>): seq<ManifestFile> {
    seq(|captured|, k requires 0 <= k < |captured| =>
      ManifestFile(captured[k].path, Digest(captured[k].data), captured[k].mode))
  }

  function ManifestOf(req: Request, captured: seq<CapturedFile>): Manifest {
    Manifest(SCHEMA_VERSION, req.ts, req.op, req.etagBefore, Rows(captured), req.jobId)
  }

  /** The directory after the payloads were written in order. */
  function Payloads(captured: seq<CapturedFile>): Dir {
    if captured == [] then map[]
    else
      var last := captured[|captured| - 1];
      Payloads(captured[..|captured| - 1])[FlattenPath(last.path) := last.data]
  }

  /** A finished snapshot: the manifest is written last. */
  function SnapshotDir(req: Request, captured: seq<CapturedFile>): Dir {
    Payloads(captured)[MANIFEST := Json(ManifestOf(req, captured))]
  }

  // ---------------------------------------------------------------------------
  // Capturing
  // ---------------------------------------------------------------------------

  /** The calls of one capture that may fail. */
  datatype CreateCall = ReadFile(k: nat) | CreateRoot | CreateDir | WriteFile(k: nat) | WriteManifest

  /** A failed write leaves nothing, or some text. */
  function Torn(dir: Dir, name: string, torn: Option<string>): Dir {
    if torn.None? then dir else dir[name := Raw(torn.value)]
  }

  function CreateDirFrom(
    dir: Dir, req: Request, captured: seq<CapturedFile>, k: nat, faults: set<CreateCall>, torn: Option<string>)
    : (Dir, Result<string>)
    requires k <= |captured|
    decreases |captured| - k
  {
    if k == |captured| then
      if WriteManifest in faults then (Torn(dir, MANIFEST, torn), Err(Io))
      else (dir[MANIFEST := Json(ManifestOf(req, captured))], Ok(SnapshotId(req)))
    else
      var name := FlattenPath(captured[k].path);
      if WriteFile(k) in faults then (Torn(dir, name, torn), Err(Io))
      else CreateDirFrom(dir[name := captured[k].data], req, captured, k + 1, faults, torn)
  }

  /** `create_captured_at`. */
  function CreateEffect(
    dirs: Dirs, req: Request, captured: seq<CapturedFile>, faults: set<CreateCall>, torn: Option<string>)
    : (Dirs, Result<string>)
  {
    var id := SnapshotId(req);
    if !CapturesRequest(req, captured) then (dirs, Err(Corrupt))
    else if CreateRoot in faults || CreateDir in faults || id in dirs then (dirs, Err(Io))
    else
      var made := CreateDirFrom(map[], req, captured, 0, faults, torn);
      (dirs[id := made.0], made.1)
  }

  /** The bytes and modes of the requested files, if all can be read. */
  function Capture(files: Files, paths: seq<string>, k: nat, faults: set<CreateCall>): Result<seq<CapturedFile>>
    requires k <= |paths|
    decreases |paths| - k
  {
    if k == |paths| then Ok([])
    else
      var path := Components(paths[k]);
      if ReadFile(k) in faults || path !in files then Err(Io)
      else
        var rest := Capture(files, paths, k + 1, faults);
        if rest.Err? then rest
        else Ok([CapturedFile(paths[k], files[path].data, ModeOctal(files[path].mode))] + rest.value)
  }

  lemma {:induction false} CreateDirFromSucceeds(
    dir: Dir, req: Request, captured: seq<CapturedFile>, k: nat, faults: set<CreateCall>, torn: Option<string>)
    requires k <= |captured| && dir == Payloads(captured[..k])
    requires CreateDirFrom(dir, req, captured, k, faults, torn).1.Ok?
    ensures CreateDirFrom(dir, req, captured, k, faults, torn) == (SnapshotDir(req, captured), Ok(SnapshotId(req)))
    decreases |captured| - k
  {
    if k < |captured| {
      assert captured[..k + 1][..k] == captured[..k];
      CreateDirFromSucceeds(
        dir[FlattenPath(captured[k].path) := captured[k].data], req, captured, k + 1, faults, torn);
    } else {
      assert captured[..k] == captured;
    }
  }

  /** A capture adds one directory and touches no other; when it succeeds that directory is new
      and complete. */
  lemma CreateAddsOne(
    dirs: Dirs, req: Request, captured: seq<CapturedFile>, faults: set<CreateCall>, torn: Option<string>)
    ensures
      var (after, r) := CreateEffect(dirs, req, captured, faults, torn);
      && (forall id | id in dirs :: id in after && after[id] == dirs[id])
      && (r.Ok? ==> r.value == SnapshotId(req) && r.value !in dirs && CapturesRequest(req, captured)
                    && after == dirs[r.value := SnapshotDir(req, captured)])
  {
    var made := CreateDirFrom(map[], req, captured, 0, faults, torn);
    if made.1.Ok? {
      assert captured[..0] == [];
      CreateDirFromSucceeds(map[], req, captured, 0, faults, torn);
    }
  }

  lemma {:induction false} CaptureReads(files: Files, paths: seq<string>, k: nat, faults: set<CreateCall>)
    requires k <= |paths| && Capture(files, paths, k, faults).Ok?
    ensures
      var captured := Capture(files, paths, k, faults).value;
      && |captured| == |paths| - k
      && forall j | k <= j < |paths| ::
        Components(paths[j]) in files
        && captured[j - k] == CapturedFile(
          paths[j], files[Components(paths[j])].data, ModeOctal(files[Components(paths[j])].mode))
    decreases |paths| - k
  {
    if k < |paths| { CaptureReads(files, paths, k + 1, faults); }
  }

  lemma {:induction false} CaptureExactly(files: Files, paths: seq<string>, k: nat, faults: set<CreateCall>)
    requires k <= |paths|
    ensures Capture(files, paths, k, faults).Ok?
      <==> forall j | k <= j < |paths| :: Components(paths[j]) in files && ReadFile(j) !in faults
    decreases |paths| - k
  {
    if k < |paths| { CaptureExactly(files, paths, k + 1, faults); }
  }

  lemma {:induction false} DirExactly(
    dir: Dir, req: Request, captured: seq<CapturedFile>, k: nat, faults: set<CreateCall>, torn: Option<string>)
    requires k <= |captured|
    ensures
      var r := CreateDirFrom(dir, req, captured, k, faults, torn).1;
      && (r.Ok? <==> WriteManifest !in faults && forall j | k <= j < |captured| :: WriteFile(j) !in faults)
      && (r.Err? ==> r.error == Io)
    decreases |captured| - k
  {
    if k < |captured| {
      DirExactly(dir[FlattenPath(captured[k].path) := captured[k].data], req, captured, k + 1, faults, torn);
    }
  }

  /** A capture succeeds exactly when the rows match the request, the id is new and no call fails; rows
      that do not match, and an id that is taken, change nothing. */
  lemma CreateExactly(
    dirs: Dirs, req: Request, captured: seq<CapturedFile>, faults: set<CreateCall>, torn: Option<string>)
    ensures
      var (after, r) := CreateEffect(dirs, req, captured, faults, torn);
      && (r.Ok? <==>
            CapturesRequest(req, captured) && SnapshotId(req) !in dirs
            && CreateRoot !in faults && CreateDir !in faults && WriteManifest !in faults
            && forall j | 0 <= j < |captured| :: WriteFile(j) !in faults)
      && (r == Err(Corrupt) <==> !CapturesRequest(req, captured))
      && (!CapturesRequest(req, captured) || SnapshotId(req) in dirs ==> after == dirs)
  {
    DirExactly(map[], req, captured, 0, faults, torn);
  }

  // ---------------------------------------------------------------------------
  // Payloads and flat names
  // ---------------------------------------------------------------------------

  /** Every payload can still be found under its flat name. */
  predicate Intact(req: Request, captured: seq<CapturedFile>) {
    var dir := SnapshotDir(req, captured);
    forall k | 0 <= k < |captured| :: PayloadKept(dir, captured[k])
  }

  predicate PayloadKept(dir: Dir, file: CapturedFile) {
    FlattenPath(file.path) in dir && dir[FlattenPath(file.path)] == file.data
  }

  /** The flat name of payload `k` is not taken by a later payload or by the manifest. */
  predicate Survives(captured: seq<CapturedFile>, k: nat)
    requires k < |captured|
  {
    FlattenPath(captured[k].path) != MANIFEST
    && forall j | k < j < |captured| ::
      FlattenPath(captured[j].path) == FlattenPath(captured[k].path) ==> captured[j].data == captured[k].data
  }

  /** Payload `j` is the last one of that flat name, and its content is found under it. */
  predicate HoldsName(captured: seq<CapturedFile>, name: string, j: nat)
    requires j < |captured|
  {
    FlattenPath(captured[j].path) == name && name in Payloads(captured) && Payloads(captured)[name] == captured[j].data
    && forall i | j < i < |captured| :: FlattenPath(captured[i].path) != name
  }

  lemma {:induction false} PayloadAt(captured: seq<CapturedFile>, k: nat)
    requires k < |captured|
    ensures FlattenPath(captured[k].path) in Payloads(captured)
    ensures exists j | k <= j < |captured| :: HoldsName(captured, FlattenPath(captured[k].path), j)
    decreases |captured|
  {
    var n := |captured| - 1;
    var name := FlattenPath(captured[k].path);
    if FlattenPath(captured[n].path) == name {
      assert HoldsName(captured, name, n);
    } else {
      PayloadAt(captured[..n], k);
      var j :| k <= j < n && HoldsName(captured[..n], name, j);
      assert forall i | j < i < |captured| :: i == n || captured[i] == captured[..n][i];
      assert HoldsName(captured, name, j);
    }
  }

  /** A manifest holds the digests of its files, so it is none of them. */
  lemma NotOwnManifest(req: Request, captured: seq<CapturedFile>, k: nat)
    requires k < |captured|
    ensures captured[k].data != Json(ManifestOf(req, captured))
  {
    var data := captured[k].data;
    if data.Json? && |data.manifest.files| == |captured| {
      var row := data.manifest.files[k];
      assert row.sha.Digest? ==> row.sha.content != data;
      assert Rows(captured)[k].sha == Digest(data);
    }
  }

  /** The payloads are intact exactly when no flat name is `manifest.json` and files sharing one
      have the same content. */
  lemma IntactExactly(req: Request, captured: seq<CapturedFile>)
    ensures Intact(req, captured) <==> forall k | 0 <= k < |captured| :: Survives(captured, k)
  {
    var dir := SnapshotDir(req, captured);
    if Intact(req, captured) {
      forall k | 0 <= k < |captured| ensures Survives(captured, k) {
        NotOwnManifest(req, captured, k);
        assert PayloadKept(dir, captured[k]);
        forall j | k < j < |captured| && FlattenPath(captured[j].path) == FlattenPath(captured[k].path)
          ensures captured[j].data == captured[k].data
        {
          assert PayloadKept(dir, captured[j]);
        }
      }
    }
    if forall k | 0 <= k < |captured| :: Survives(captured, k) {
      forall k | 0 <= k < |captured|
        ensures PayloadKept(dir, captured[k])
      {
        PayloadAt(captured, k);
        var j :| k <= j < |captured| && HoldsName(captured, FlattenPath(captured[k].path), j);
        assert Survives(captured, k);
      }
    }
  }

  lemma FlatHasGap(names: seq<string>)
    requires |names| >= 2
    ensures exists i | 0 <= i < |FlatNames(names)| - 1 :: FlatNames(names)[i] == '_' && FlatNames(names)[i + 1] == '_'
  {
    var i := |names[0]|;
    assert FlatNames(names) == names[0] + ("__" + FlatNames(names[1..]));
    assert FlatNames(names)[i] == '_' && FlatNames(names)[i + 1] == '_';
  }

  /** Distinct paths in a directory below the root, with components that neither end in `_` nor
      contain `__`, keep their payloads apart. */
  lemma PlainPathsAreIntact(req: Request, captured: seq<CapturedFile>, names: seq<seq<string>>)
    requires |names| == |captured|
    requires forall k | 0 <= k < |captured| ::
      captured[k].path == PathOf(names[k]) && |names[k]| >= 2 && AllFlattenable(names[k])
    requires forall j, k | 0 <= j < k < |captured| :: names[j] != names[k]
    ensures Intact(req, captured)
  {
    forall k | 0 <= k < |captured| ensures Survives(captured, k) {
      FlattenIsFlatNames(names[k]);
      FlatHasGap(names[k]);
      forall j | k < j < |captured| && FlattenPath(captured[j].path) == FlattenPath(captured[k].path) ensures false {
        FlattenInjective(names[j], names[k]);
      }
    }
    IntactExactly(req, captured);
  }
}
