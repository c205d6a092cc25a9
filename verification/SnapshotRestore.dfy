/** The restore transaction: every check comes before the first write. */
module SnapshotRestore {
  import opened Text
  import opened Hash
  import opened Sorting
  import opened PathNames
  import opened FixedWidth
  import opened SnapshotData

  /** The calls of one restore that may fail. */
  datatype RestoreCall =
    | ReadManifest | Inspect(k: nat) | OpenTarget(k: nat) | LockTarget(k: nat) | ReadPrimary
    | ReadPayload(k: nat) | Replace(k: nat) | SyncParent(k: nat)

  type Faults = set<RestoreCall>

  datatype Replacement = Replacement(target: Path, file: File)

  function Targets(rows: seq<ManifestFile>): seq<Path> {
    seq(|rows|, k requires 0 <= k < |rows| => Components(rows[k].path))
  }

  function CheckTargets(rows: seq<ManifestFile>, allowed: seq<string>, faults: Faults, k: nat): Result<()>
    requires k <= |rows|
    decreases |rows| - k
  {
    if k == |rows| then Ok(())
    else if !IsManaged(rows[k].path, allowed) then Err(UnmanagedTarget(rows[k].path))
    else if Inspect(k) in faults then Err(Io)
    else CheckTargets(rows, allowed, faults, k + 1)
  }

  /** `busy` are the targets other writers have locked. */
  function LockTargets(files: Files, targets: seq<Path>, busy: set<Path>, faults: Faults, k: nat): Result<()>
    requires k <= |targets|
    decreases |targets| - k
  {
    if k == |targets| then Ok(())
    else if OpenTarget(k) in faults || targets[k] !in files then Err(Io)
    else if targets[k] in busy then Err(ConcurrentModification(targets[k]))
    else if LockTarget(k) in faults then Err(Io)
    else LockTargets(files, targets, busy, faults, k + 1)
  }

  function LoadPayload(dir: Dir, row: ManifestFile): Result<Replacement> {
    var name := FlattenPath(row.path);
    if name !in dir then Err(Io)
    else if Digest(dir[name]) != row.sha then Err(Corrupt)
    else if ParseMode(row.mode).None? then Err(Corrupt)
    else
      ModeRoundTrip(0, row.mode);
      Ok(Replacement(Components(row.path), File(dir[name], ParseMode(row.mode).value)))
  }

  function LoadPayloads(dir: Dir, rows: seq<ManifestFile>, faults: Faults, k: nat): Result<seq<Replacement>>
    requires k <= |rows|
    decreases |rows| - k
  {
    if k == |rows| then Ok([])
    else if ReadPayload(k) in faults then Err(Io)
    else
      var first := LoadPayload(dir, rows[k]);
      if first.Err? then Err(first.error)
      else
        var rest := LoadPayloads(dir, rows, faults, k + 1);
        if rest.Err? then rest else Ok([first.value] + rest.value)
  }

  function ReadManifestOf(dirs: Dirs, id: string, faults: Faults): Result<Manifest> {
    if !IsPlainComponent(id) then Err(InvalidId)
    else if id !in dirs || MANIFEST !in dirs[id] then Err(NotFound)
    else if ReadManifest in faults then Err(Io)
    else if dirs[id][MANIFEST].Raw? then Err(Serde)
    else if dirs[id][MANIFEST].manifest.schemaVersion > SCHEMA_VERSION then Err(SchemaUpgradeRequired)
    else if dirs[id][MANIFEST].manifest.files == [] then Err(Corrupt)
    else Ok(dirs[id][MANIFEST].manifest)
  }

  /** Everything `restore` does before its first write: the replacements to make, or the error. */
  function RestorePlan(
    files: Files, dirs: Dirs, id: string, allowed: seq<string>, etag: ETag<Data>, busy: set<Path>, faults: Faults)
    : Result<seq<Replacement>>
  {
    var manifest := ReadManifestOf(dirs, id, faults);
    if manifest.Err? then Err(manifest.error)
    else
      var rows := manifest.value.files;
      var targets := Sort(PathLess, Targets(rows));
      var checked := CheckTargets(rows, allowed, faults, 0);
      if checked.Err? then Err(checked.error)
      else if !NoNeighbours(targets) then Err(Corrupt)
      else
        var locked := LockTargets(files, targets, busy, faults, 0);
        if locked.Err? then Err(locked.error)
        else if ReadPrimary in faults || Targets(rows)[0] !in files then Err(Io)
        else if !VerifyEtag(etag, files[Targets(rows)[0]].data) then Err(StateMismatch)
        else LoadPayloads(dirs[id], rows, faults, 0)
  }

  predicate HasFileName(p: Path) {
    p != [] && p[|p| - 1].Normal?
  }

  /** `atomic_restore_file`: the rename replaces bytes and mode at once; syncing the parent
      directory may still fail afterwards. */
  function ReplaceOne(files: Files, r: Replacement, faults: Faults, k: nat): (Files, Result<()>) {
    if !HasFileName(r.target) then (files, Err(Corrupt))
    else if Replace(k) in faults then (files, Err(Io))
    else (files[r.target := r.file], if SyncParent(k) in faults then Err(Io) else Ok(()))
  }

  function ReplaceAll(files: Files, rs: seq<Replacement>, faults: Faults, k: nat): (Files, Result<()>)
    requires k <= |rs|
    decreases |rs| - k
  {
    if k == |rs| then (files, Ok(()))
    else
      var one := ReplaceOne(files, rs[k], faults, k);
      if one.1.Err? then one else ReplaceAll(one.0, rs, faults, k + 1)
  }

  /** `restore`. */
  function RestoreEffect(
    files: Files, dirs: Dirs, id: string, allowed: seq<string>, etag: ETag<Data>, busy: set<Path>, faults: Faults)
    : (Files, Result<()>)
  {
    var plan := RestorePlan(files, dirs, id, allowed, etag, busy, faults);
    if plan.Err? then (files, Err(plan.error)) else ReplaceAll(files, plan.value, faults, 0)
  }

  // ---------------------------------------------------------------------------
  // What a restore leaves behind
  // ---------------------------------------------------------------------------

  /** The files with the first `n` replacements made. */
  function Replaced(files: Files, rs: seq<Replacement>, n: nat): Files
    requires n <= |rs|
  {
    if n == 0 then files else Replaced(files, rs, n - 1)[rs[n - 1].target := rs[n - 1].file]
  }

  lemma {:induction false} ReplaceAllStops(files: Files, rs: seq<Replacement>, faults: Faults, k: nat) returns (n: nat)
    requires k <= |rs|
    ensures k <= n <= |rs|
    ensures
      var (after, r) := ReplaceAll(Replaced(files, rs, k), rs, faults, k);
      && after == Replaced(files, rs, n)
      && (r.Ok? ==> n == |rs|)
      && (r.Err? && n > k ==> SyncParent(n - 1) in faults || n < |rs|)
    decreases |rs| - k
  {
    if k == |rs| { return k; }
    var one := ReplaceOne(Replaced(files, rs, k), rs[k], faults, k);
    if one.1.Err? {
      return if one.0 == Replaced(files, rs, k) then k else k + 1;
    }
    n := ReplaceAllStops(files, rs, faults, k + 1);
  }

  lemma {:induction false} LoadedRow(dir: Dir, rows: seq<ManifestFile>, faults: Faults, k: nat, j: nat)
    requires k <= j < |rows| && LoadPayloads(dir, rows, faults, k).Ok?
    ensures |LoadPayloads(dir, rows, faults, k).value| == |rows| - k
    ensures ReadPayload(j) !in faults
    ensures LoadPayload(dir, rows[j]) == Ok(LoadPayloads(dir, rows, faults, k).value[j - k])
    decreases |rows| - k
  {
    if j == k {
      if k + 1 < |rows| { LoadedRow(dir, rows, faults, k + 1, k + 1); }
    } else {
      LoadedRow(dir, rows, faults, k + 1, j);
    }
  }

  lemma {:induction false} LoadsAll(dir: Dir, rows: seq<ManifestFile>, faults: Faults, k: nat)
    requires k <= |rows|
    requires forall j | k <= j < |rows| :: ReadPayload(j) !in faults && LoadPayload(dir, rows[j]).Ok?
    ensures LoadPayloads(dir, rows, faults, k).Ok? && |LoadPayloads(dir, rows, faults, k).value| == |rows| - k
    decreases |rows| - k
  {
    if k < |rows| { LoadsAll(dir, rows, faults, k + 1); }
  }

  lemma {:induction false} ReplacedAt(files: Files, rs: seq<Replacement>, n: nat, j: nat)
    requires j < n <= |rs|
    requires forall i | j < i < n :: rs[i].target != rs[j].target
    ensures rs[j].target in Replaced(files, rs, n) && Replaced(files, rs, n)[rs[j].target] == rs[j].file
  {
    if j < n - 1 { ReplacedAt(files, rs, n - 1, j); }
  }

  lemma {:induction false} ReplacedElsewhere(files: Files, rs: seq<Replacement>, n: nat, p: Path)
    requires n <= |rs| && forall i | 0 <= i < n :: rs[i].target != p
    ensures p in Replaced(files, rs, n) <==> p in files
    ensures p in files ==> Replaced(files, rs, n)[p] == files[p]
  {
    if n > 0 { ReplacedElsewhere(files, rs, n - 1, p); }
  }

  /** Check-all-then-write: a restore that fails has replaced a prefix of the manifest, each file
      whole, and none at all unless every check passed and a write failed. */
  lemma FailedRestoreKeepsPrefix(
    files: Files, dirs: Dirs, id: string, allowed: seq<string>, etag: ETag<Data>, busy: set<Path>, faults: Faults)
    returns (n: nat)
    requires RestoreEffect(files, dirs, id, allowed, etag, busy, faults).1.Err?
    ensures
      var after := RestoreEffect(files, dirs, id, allowed, etag, busy, faults).0;
      var plan := RestorePlan(files, dirs, id, allowed, etag, busy, faults);
      if plan.Err? then after == files
      else n <= |plan.value| && after == Replaced(files, plan.value, n)
           && (n == |plan.value| > 0 ==> SyncParent(n - 1) in faults)
  {
    var plan := RestorePlan(files, dirs, id, allowed, etag, busy, faults);
    n := 0;
    if plan.Ok? { n := ReplaceAllStops(files, plan.value, faults, 0); }
  }

  lemma {:induction false} TargetsChecked(rows: seq<ManifestFile>, allowed: seq<string>, faults: Faults, k: nat)
    requires k <= |rows|
    ensures CheckTargets(rows, allowed, faults, k).Ok? <==>
      (forall j | k <= j < |rows| :: IsManaged(rows[j].path, allowed) && Inspect(j) !in faults)
    decreases |rows| - k
  {
    if k < |rows| { TargetsChecked(rows, allowed, faults, k + 1); }
  }

  predicate Lockable(files: Files, p: Path, busy: set<Path>) {
    p in files && p !in busy
  }

  lemma {:induction false} TargetsLocked(files: Files, targets: seq<Path>, busy: set<Path>, faults: Faults, k: nat)
    requires k <= |targets|
    ensures LockTargets(files, targets, busy, faults, k).Ok? <==>
      (forall j | k <= j < |targets| ::
        Lockable(files, targets[j], busy) && OpenTarget(j) !in faults && LockTarget(j) !in faults)
    decreases |targets| - k
  {
    if k < |targets| { TargetsLocked(files, targets, busy, faults, k + 1); }
  }

  /** The targets are pairwise different, all exist and nobody else has locked one. */
  predicate Available(files: Files, targets: seq<Path>, busy: set<Path>) {
    NoDuplicates(targets) && forall k | 0 <= k < |targets| :: Lockable(files, targets[k], busy)
  }

  predicate Quiet(faults: Faults, n: nat) {
    ReadManifest !in faults && ReadPrimary !in faults
    && forall k | 0 <= k < n ::
      Inspect(k) !in faults && OpenTarget(k) !in faults && LockTarget(k) !in faults && ReadPayload(k) !in faults
      && Replace(k) !in faults && SyncParent(k) !in faults
  }

  lemma LocksExactly(files: Files, targets: seq<Path>, busy: set<Path>, faults: Faults)
    ensures
      var sorted := Sort(PathLess, targets);
      NoNeighbours(sorted) && LockTargets(files, sorted, busy, faults, 0).Ok? <==>
      (Available(files, targets, busy)
       && forall k | 0 <= k < |targets| :: OpenTarget(k) !in faults && LockTarget(k) !in faults)
  {
    var sorted := Sort(PathLess, targets);
    PathOrder();
    NeighboursFindDuplicates(PathLess, targets);
    SortIsSorted(PathLess, targets);
    TargetsLocked(files, sorted, busy, faults, 0);
    forall p ensures p in sorted <==> p in targets { SortMembers(PathLess, targets, p); }
    if forall k | 0 <= k < |targets| :: Lockable(files, targets[k], busy) {
      forall k | 0 <= k < |sorted| ensures Lockable(files, sorted[k], busy) { assert sorted[k] in targets; }
    }
    if forall k | 0 <= k < |sorted| :: Lockable(files, sorted[k], busy) {
      forall k | 0 <= k < |targets| ensures Lockable(files, targets[k], busy) { assert targets[k] in sorted; }
    }
  }

  /** The rows of the manifest a restore of `id` follows, none if it has no usable manifest. */
  function RowsOf(dirs: Dirs, id: string): seq<ManifestFile> {
    var manifest := ReadManifestOf(dirs, id, {});
    if manifest.Ok? then manifest.value.files else []
  }

  /** The id names a readable manifest of managed, distinct, existing, unlocked targets, the ETag is
      the primary target's, and every payload has its recorded digest and a valid mode. */
  predicate Restorable(
    files: Files, dirs: Dirs, id: string, allowed: seq<string>, etag: ETag<Data>, busy: set<Path>)
  {
    var rows := RowsOf(dirs, id);
    && rows != []
    && (forall k | 0 <= k < |rows| :: IsManaged(rows[k].path, allowed))
    && Available(files, Targets(rows), busy)
    && Targets(rows)[0] in files && etag == Digest(files[Targets(rows)[0]].data)
    && (forall k | 0 <= k < |rows| :: LoadPayload(dirs[id], rows[k]).Ok? && HasFileName(Components(rows[k].path)))
  }

  /** The row's payload is what its digest vouches for. */
  lemma LoadedPayload(dir: Dir, row: ManifestFile)
    requires LoadPayload(dir, row).Ok?
    ensures LoadPayload(dir, row).value.target == Components(row.path)
    ensures row.sha == Digest(LoadPayload(dir, row).value.file.data)
    ensures row.mode == ModeOctal(LoadPayload(dir, row).value.file.mode)
  {
    ModeRoundTrip(0, row.mode);
  }

  lemma LoadsExactly(dir: Dir, rows: seq<ManifestFile>, faults: Faults)
    ensures LoadPayloads(dir, rows, faults, 0).Ok? <==>
      (forall k | 0 <= k < |rows| :: ReadPayload(k) !in faults && LoadPayload(dir, rows[k]).Ok?)
  {
    if LoadPayloads(dir, rows, faults, 0).Ok? {
      forall k | 0 <= k < |rows| ensures ReadPayload(k) !in faults && LoadPayload(dir, rows[k]).Ok? {
        LoadedRow(dir, rows, faults, 0, k);
      }
    }
    if forall k | 0 <= k < |rows| :: ReadPayload(k) !in faults && LoadPayload(dir, rows[k]).Ok? {
      LoadsAll(dir, rows, faults, 0);
    }
  }

  lemma {:induction false} ReplacesExactly(files: Files, rs: seq<Replacement>, faults: Faults, k: nat)
    requires k <= |rs|
    ensures ReplaceAll(files, rs, faults, k).1.Ok? <==>
      (forall j | k <= j < |rs| :: HasFileName(rs[j].target) && Replace(j) !in faults && SyncParent(j) !in faults)
    decreases |rs| - k
  {
    if k < |rs| { ReplacesExactly(ReplaceOne(files, rs[k], faults, k).0, rs, faults, k + 1); }
  }

  /** The plan follows the manifest row by row. */
  predicate Follows(rs: seq<Replacement>, dir: Dir, rows: seq<ManifestFile>) {
    |rs| == |rows| && forall k | 0 <= k < |rows| :: LoadPayload(dir, rows[k]) == Ok(rs[k])
  }

  lemma PlanExactly(
    files: Files, dirs: Dirs, id: string, allowed: seq<string>, etag: ETag<Data>, busy: set<Path>, faults: Faults)
    ensures
      var rows := RowsOf(dirs, id);
      var plan := RestorePlan(files, dirs, id, allowed, etag, busy, faults);
      (plan.Ok? <==>
        rows != [] && ReadManifest !in faults && ReadPrimary !in faults
        && CheckTargets(rows, allowed, faults, 0).Ok?
        && NoNeighbours(Sort(PathLess, Targets(rows)))
        && LockTargets(files, Sort(PathLess, Targets(rows)), busy, faults, 0).Ok?
        && Targets(rows)[0] in files && etag == Digest(files[Targets(rows)[0]].data)
        && LoadPayloads(dirs[id], rows, faults, 0).Ok?)
      && (plan.Ok? ==> plan == LoadPayloads(dirs[id], rows, faults, 0))
  {
  }

  lemma LoadedFollow(dir: Dir, rows: seq<ManifestFile>, faults: Faults)
    requires rows != [] && LoadPayloads(dir, rows, faults, 0).Ok?
    ensures Follows(LoadPayloads(dir, rows, faults, 0).value, dir, rows)
  {
    var rs := LoadPayloads(dir, rows, faults, 0).value;
    forall k | 0 <= k < |rows| ensures |rs| == |rows| && LoadPayload(dir, rows[k]) == Ok(rs[k]) {
      LoadedRow(dir, rows, faults, 0, k);
    }
    LoadedRow(dir, rows, faults, 0, 0);
  }

  lemma FollowedTarget(rs: seq<Replacement>, dir: Dir, rows: seq<ManifestFile>, k: nat)
    requires Follows(rs, dir, rows) && k < |rows|
    ensures rs[k].target == Components(rows[k].path) == Targets(rows)[k]
    ensures rows[k].sha == Digest(rs[k].file.data) && rows[k].mode == ModeOctal(rs[k].file.mode)
  {
    LoadedPayload(dir, rows[k]);
  }

  lemma WritesExactly(files: Files, rs: seq<Replacement>, dir: Dir, rows: seq<ManifestFile>, faults: Faults)
    requires Follows(rs, dir, rows)
    ensures ReplaceAll(files, rs, faults, 0).1.Ok? <==>
      (forall k | 0 <= k < |rows| ::
        HasFileName(Components(rows[k].path)) && Replace(k) !in faults && SyncParent(k) !in faults)
  {
    ReplacesExactly(files, rs, faults, 0);
    forall k | 0 <= k < |rows| ensures rs[k].target == Components(rows[k].path) { FollowedTarget(rs, dir, rows, k); }
  }

  /** A restore succeeds exactly when the snapshot is restorable and no call fails. */
  lemma RestoreExactly(
    files: Files, dirs: Dirs, id: string, allowed: seq<string>, etag: ETag<Data>, busy: set<Path>, faults: Faults)
    ensures RestoreEffect(files, dirs, id, allowed, etag, busy, faults).1.Ok? <==>
      Restorable(files, dirs, id, allowed, etag, busy) && Quiet(faults, |RowsOf(dirs, id)|)
  {
    var rows := RowsOf(dirs, id);
    PlanExactly(files, dirs, id, allowed, etag, busy, faults);
    TargetsChecked(rows, allowed, faults, 0);
    LocksExactly(files, Targets(rows), busy, faults);
    if rows != [] {
      LoadsExactly(dirs[id], rows, faults);
      if RestorePlan(files, dirs, id, allowed, etag, busy, faults).Ok? {
        var rs := LoadPayloads(dirs[id], rows, faults, 0).value;
        LoadedFollow(dirs[id], rows, faults);
        WritesExactly(files, rs, dirs[id], rows, faults);
      }
    }
  }

  lemma InstalledAt(
    files: Files, rs: seq<Replacement>, dir: Dir, rows: seq<ManifestFile>, k: nat)
    requires Follows(rs, dir, rows) && NoDuplicates(Targets(rows)) && k < |rows|
    ensures
      var (after, p) := (Replaced(files, rs, |rs|), Targets(rows)[k]);
      p in after && rows[k].sha == Digest(after[p].data) && rows[k].mode == ModeOctal(after[p].mode)
  {
    FollowedTarget(rs, dir, rows, k);
    forall i | k < i < |rs| ensures rs[i].target != rs[k].target {
      FollowedTarget(rs, dir, rows, i);
      assert Targets(rows)[k] != Targets(rows)[i];
    }
    ReplacedAt(files, rs, |rs|, k);
  }

  lemma InstalledElsewhere(
    files: Files, rs: seq<Replacement>, dir: Dir, rows: seq<ManifestFile>, p: Path)
    requires Follows(rs, dir, rows) && p !in Targets(rows)
    ensures
      var after := Replaced(files, rs, |rs|);
      (p in after <==> p in files) && (p in files ==> after[p] == files[p])
  {
    forall i | 0 <= i < |rs| ensures rs[i].target != p {
      FollowedTarget(rs, dir, rows, i);
      assert Targets(rows)[i] in Targets(rows);
    }
    ReplacedElsewhere(files, rs, |rs|, p);
  }

  /** `after` holds, at every target of the manifest, the bytes its digest vouches for and the
      recorded mode, and differs from `files` nowhere else. */
  ghost predicate Installs(files: Files, rows: seq<ManifestFile>, after: Files) {
    (forall k | 0 <= k < |rows| ::
      var p := Targets(rows)[k];
      p in after && rows[k].sha == Digest(after[p].data) && rows[k].mode == ModeOctal(after[p].mode))
    && (forall p | p !in Targets(rows) :: (p in after <==> p in files) && (p in files ==> after[p] == files[p]))
  }

  lemma FollowInstalls(
    files: Files, rs: seq<Replacement>, dir: Dir, rows: seq<ManifestFile>, after: Files)
    requires Follows(rs, dir, rows) && NoDuplicates(Targets(rows)) && after == Replaced(files, rs, |rs|)
    ensures Installs(files, rows, after)
  {
    forall k | 0 <= k < |rows|
      ensures
        var p := Targets(rows)[k];
        p in after && rows[k].sha == Digest(after[p].data) && rows[k].mode == ModeOctal(after[p].mode)
    {
      InstalledAt(files, rs, dir, rows, k);
    }
    forall p | p !in Targets(rows) ensures (p in after <==> p in files) && (p in files ==> after[p] == files[p]) {
      InstalledElsewhere(files, rs, dir, rows, p);
    }
  }

  /** A successful restore installs its manifest, all of whose targets are managed, and touches
      nothing else. */
  lemma RestoreInstalls(
    files: Files, dirs: Dirs, id: string, allowed: seq<string>, etag: ETag<Data>, busy: set<Path>, faults: Faults)
    requires RestoreEffect(files, dirs, id, allowed, etag, busy, faults).1.Ok?
    ensures Installs(files, RowsOf(dirs, id), RestoreEffect(files, dirs, id, allowed, etag, busy, faults).0)
    ensures forall k | 0 <= k < |RowsOf(dirs, id)| :: IsManaged(RowsOf(dirs, id)[k].path, allowed)
  {
    var rows := RowsOf(dirs, id);
    RestoreExactly(files, dirs, id, allowed, etag, busy, faults);
    PlanExactly(files, dirs, id, allowed, etag, busy, faults);
    var rs := LoadPayloads(dirs[id], rows, faults, 0).value;
    LoadedFollow(dirs[id], rows, faults);
    var n := ReplaceAllStops(files, rs, faults, 0);
    FollowInstalls(files, rs, dirs[id], rows, Replaced(files, rs, n));
  }
}
