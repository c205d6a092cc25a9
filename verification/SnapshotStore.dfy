/** The snapshot store as it is changed in place: a class with the managed files and the snapshot
    directories, whose methods follow the loops of the source and are each proved to have the effect
    that the specification functions of the other modules give. */
module SnapshotStore {
  import opened Text
  import opened Hash
  import opened Sorting
  import opened PathNames
  import opened FixedWidth
  import opened SnapshotData
  import opened SnapshotRestore
  import opened Retention

  /** The managed files and the snapshot directories; the directories lie under no managed path. */
  class Store {
    var files: Files
    var dirs: Dirs

    constructor (initial: Files)
      ensures files == initial && dirs == map[]
    {
      files := initial;
      dirs := map[];
    }

    /** `create_at`: read the requested files, then capture them. */
    method Create(req: Request, faults: set<CreateCall>, torn: Option<string>) returns (r: Result<string>)
      modifies this`dirs
      ensures
        var captured := Capture(files, req.files, 0, faults);
        if captured.Err? then dirs == old(dirs) && r == Err(captured.error)
        else (dirs, r) == CreateEffect(old(dirs), req, captured.value, faults, torn)
    {
      var captured: seq<CapturedFile> := [];
      ghost var whole := Capture(files, req.files, 0, faults);
      assert whole.Ok? ==> captured + whole.value == whole.value;
      for k := 0 to |req.files|
        invariant whole ==
          var rest := Capture(files, req.files, k, faults);
          if rest.Err? then rest else Ok(captured + rest.value)
        invariant dirs == old(dirs)
      {
        var path := Components(req.files[k]);
        if ReadFile(k) in faults || path !in files {
          return Err(Io);
        }
        var file := CapturedFile(req.files[k], files[path].data, ModeOctal(files[path].mode));
        ghost var rest := Capture(files, req.files, k + 1, faults);
        assert rest.Ok? ==> captured + ([file] + rest.value) == (captured + [file]) + rest.value;
        captured := captured + [file];
      }
      assert captured + [] == captured;
      r := CreateCapturedAt(req, captured, faults, torn);
    }

    method CreateCapturedAt(req: Request, captured: seq<CapturedFile>, faults: set<CreateCall>, torn: Option<string>)
      returns (r: Result<string>)
      modifies this`dirs
      ensures (dirs, r) == CreateEffect(old(dirs), req, captured, faults, torn)
    {
      if !CapturesRequest(req, captured) {
        return Err(Corrupt);
      }
      var id := SnapshotId(req);
      if CreateRoot in faults || CreateDir in faults || id in dirs {
        return Err(Io);
      }
      dirs := dirs[id := map[]];
      r := FillSnapshot(id, req, captured, faults, torn);
      assert dirs == old(dirs)[id := dirs[id]];
    }

    /** Write the payloads into the fresh directory `id`, and the manifest last. */
    method FillSnapshot(
      id: string, req: Request, captured: seq<CapturedFile>, faults: set<CreateCall>, torn: Option<string>)
      returns (r: Result<string>)
      requires id == SnapshotId(req) && id in dirs && dirs[id] == map[]
      modifies this`dirs
      ensures
        var made := CreateDirFrom(map[], req, captured, 0, faults, torn);
        dirs == old(dirs)[id := made.0] && r == made.1
    {
      var rows: seq<ManifestFile> := [];
      for k := 0 to |captured|
        invariant id in dirs && dirs == old(dirs)[id := dirs[id]]
        invariant rows == Rows(captured[..k])
        invariant CreateDirFrom(map[], req, captured, 0, faults, torn)
          == CreateDirFrom(dirs[id], req, captured, k, faults, torn)
      {
        var name := FlattenPath(captured[k].path);
        if WriteFile(k) in faults {
          dirs := dirs[id := Torn(dirs[id], name, torn)];
          return Err(Io);
        }
        dirs := dirs[id := dirs[id][name := captured[k].data]];
        rows := rows + [ManifestFile(captured[k].path, Digest(captured[k].data), captured[k].mode)];
      }
      assert captured[..|captured|] == captured;
      var manifest := Manifest(SCHEMA_VERSION, req.ts, req.op, req.etagBefore, rows, req.jobId);
      if WriteManifest in faults {
        dirs := dirs[id := Torn(dirs[id], MANIFEST, torn)];
        return Err(Io);
      }
      dirs := dirs[id := dirs[id][MANIFEST := Json(manifest)]];
      return Ok(id);
    }

    method List(order: seq<string>, faults: set<string>) returns (r: Result<seq<SnapshotInfo>>)
      ensures r == Listed(dirs, order, faults)
    {
      var infos: seq<SnapshotInfo> := [];
      ghost var whole := Scanned(dirs, order, faults);
      assert order[0..] == order;
      assert whole.Ok? ==> infos + whole.value == whole.value;
      for k := 0 to |order|
        invariant whole ==
          var rest := Scanned(dirs, order[k..], faults);
          if rest.Err? then rest else Ok(infos + rest.value)
      {
        var id := order[k];
        assert order[k..][1..] == order[k + 1..];
        if id in dirs && MANIFEST in dirs[id] {
          if id in faults {
            return Err(Io);
          }
          if dirs[id][MANIFEST].Raw? {
            return Err(Serde);
          }
          var m := dirs[id][MANIFEST].manifest;
          if m.schemaVersion > SCHEMA_VERSION {
            return Err(SchemaUpgradeRequired);
          }
          var info := SnapshotInfo(id, m.op, m.ts, m.jobId);
          ghost var rest := Scanned(dirs, order[k + 1..], faults);
          assert rest.Ok? ==> infos + ([info] + rest.value) == (infos + [info]) + rest.value;
          infos := infos + [info];
        }
      }
      assert infos + [] == infos;
      return Ok(Sort(Newer, infos));
    }

    method Reap(
      order: seq<string>, keepCount: nat, cutoff: string,
      unreadable: set<string>, stuck: set<string>, survivors: set<string>)
      returns (r: Result<nat>)
      modifies this`dirs
      ensures (dirs, r) == ReapEffect(old(dirs), order, keepCount, cutoff, unreadable, stuck, survivors)
    {
      var listed := List(order, unreadable);
      if listed.Err? {
        return Err(listed.error);
      }
      var snapshots := listed.value;
      if |snapshots| <= keepCount {
        return Ok(0);
      }
      var doomed := SelectDoomed(snapshots, keepCount, cutoff);
      var removed := RemoveDirs(doomed, stuck, survivors);
      if removed.Err? {
        return Err(removed.error);
      }
      return Ok(|doomed|);
    }

    method SelectDoomed(snapshots: seq<SnapshotInfo>, keepCount: nat, cutoff: string) returns (doomed: seq<string>)
      ensures doomed == Doomed(snapshots, keepCount, cutoff, 0)
    {
      doomed := [];
      for i := 0 to |snapshots|
        invariant Doomed(snapshots, keepCount, cutoff, 0) == doomed + Doomed(snapshots, keepCount, cutoff, i)
      {
        if i >= keepCount && StringLess(snapshots[i].ts, cutoff) {
          ghost var rest := Doomed(snapshots, keepCount, cutoff, i + 1);
          assert doomed + ([snapshots[i].id] + rest) == (doomed + [snapshots[i].id]) + rest;
          doomed := doomed + [snapshots[i].id];
        }
      }
    }

    method RemoveDirs(ids: seq<string>, stuck: set<string>, survivors: set<string>) returns (r: Result<()>)
      modifies this`dirs
      ensures (dirs, r) == RemoveAll(old(dirs), ids, stuck, survivors)
    {
      assert ids[0..] == ids;
      for k := 0 to |ids|
        invariant RemoveAll(old(dirs), ids, stuck, survivors) == RemoveAll(dirs, ids[k..], stuck, survivors)
      {
        var id := ids[k];
        assert ids[k..][1..] == ids[k + 1..];
        if id in stuck {
          if id in dirs { dirs := dirs[id := Remains(dirs[id], survivors)]; }
          return Err(Io);
        }
        dirs := dirs - {id};
      }
      return Ok(());
    }

    method Restore(id: string, allowed: seq<string>, etag: ETag<Data>, busy: set<Path>, faults: Faults)
      returns (r: Result<()>)
      modifies this`files
      ensures (files, r) == RestoreEffect(old(files), dirs, id, allowed, etag, busy, faults)
    {
      if !IsPlainComponent(id) {
        return Err(InvalidId);
      }
      if id !in dirs || MANIFEST !in dirs[id] {
        return Err(NotFound);
      }
      if ReadManifest in faults {
        return Err(Io);
      }
      if dirs[id][MANIFEST].Raw? {
        return Err(Serde);
      }
      var manifest := dirs[id][MANIFEST].manifest;
      if manifest.schemaVersion > SCHEMA_VERSION {
        return Err(SchemaUpgradeRequired);
      }
      if manifest.files == [] {
        return Err(Corrupt);
      }
      var rows := manifest.files;
      var targets := Sort(PathLess, Targets(rows));
      var checked := CheckAll(rows, allowed, faults);
      if checked.Err? {
        return checked;
      }
      if !NoNeighbours(targets) {
        return Err(Corrupt);
      }
      var locked := LockAll(targets, busy, faults);
      if locked.Err? {
        return locked;
      }
      if ReadPrimary in faults || Targets(rows)[0] !in files {
        return Err(Io);
      }
      if !VerifyEtag(etag, files[Targets(rows)[0]].data) {
        return Err(StateMismatch);
      }
      var loaded := LoadAll(dirs[id], rows, faults);
      if loaded.Err? {
        return Err(loaded.error);
      }
      var replacements := loaded.value;
      for k := 0 to |replacements|
        invariant ReplaceAll(old(files), replacements, faults, 0) == ReplaceAll(files, replacements, faults, k)
      {
        var one := AtomicRestoreFile(replacements[k], faults, k);
        if one.Err? {
          return one;
        }
      }
      return Ok(());
    }

    method CheckAll(rows: seq<ManifestFile>, allowed: seq<string>, faults: Faults) returns (r: Result<()>)
      ensures r == CheckTargets(rows, allowed, faults, 0)
    {
      for k := 0 to |rows|
        invariant CheckTargets(rows, allowed, faults, 0) == CheckTargets(rows, allowed, faults, k)
      {
        if !IsManaged(rows[k].path, allowed) {
          return Err(UnmanagedTarget(rows[k].path));
        }
        if Inspect(k) in faults {
          return Err(Io);
        }
      }
      return Ok(());
    }

    method LockAll(targets: seq<Path>, busy: set<Path>, faults: Faults) returns (r: Result<()>)
      ensures r == LockTargets(files, targets, busy, faults, 0)
    {
      for k := 0 to |targets|
        invariant LockTargets(files, targets, busy, faults, 0) == LockTargets(files, targets, busy, faults, k)
      {
        if OpenTarget(k) in faults || targets[k] !in files {
          return Err(Io);
        }
        if targets[k] in busy {
          return Err(ConcurrentModification(targets[k]));
        }
        if LockTarget(k) in faults {
          return Err(Io);
        }
      }
      return Ok(());
    }

    method LoadAll(dir: Dir, rows: seq<ManifestFile>, faults: Faults) returns (r: Result<seq<Replacement>>)
      ensures r == LoadPayloads(dir, rows, faults, 0)
    {
      var replacements: seq<Replacement> := [];
      ghost var whole := LoadPayloads(dir, rows, faults, 0);
      assert whole.Ok? ==> replacements + whole.value == whole.value;
      for k := 0 to |rows|
        invariant whole ==
          var rest := LoadPayloads(dir, rows, faults, k);
          if rest.Err? then rest else Ok(replacements + rest.value)
      {
        if ReadPayload(k) in faults {
          return Err(Io);
        }
        var one := LoadPayload(dir, rows[k]);
        if one.Err? {
          return Err(one.error);
        }
        ghost var rest := LoadPayloads(dir, rows, faults, k + 1);
        assert rest.Ok? ==> replacements + ([one.value] + rest.value) == (replacements + [one.value]) + rest.value;
        replacements := replacements + [one.value];
      }
      assert replacements + [] == replacements;
      return Ok(replacements);
    }

    method AtomicRestoreFile(replacement: Replacement, faults: Faults, k: nat) returns (r: Result<()>)
      modifies this`files
      ensures (files, r) == ReplaceOne(old(files), replacement, faults, k)
    {
      if !HasFileName(replacement.target) {
        return Err(Corrupt);
      }
      if Replace(k) in faults {
        return Err(Io);
      }
      files := files[replacement.target := replacement.file];
      if SyncParent(k) in faults {
        return Err(Io);
      }
      return Ok(());
    }
  }
}
