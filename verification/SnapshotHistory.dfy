/** Runs of captures, writes, restores and reaps: what a later restore brings back. */
module SnapshotHistory {
  import opened Text
  import opened Hash
  import opened Sorting
  import opened PathNames
  import opened FixedWidth
  import opened SnapshotData
  import opened SnapshotRestore
  import opened Retention
  import FlockProtocol

  /** What a finished snapshot was given, and the files as they were at that moment. */
  datatype Taken = Taken(req: Request, captured: seq<CapturedFile>, at: Files)

  datatype State = State(files: Files, dirs: Dirs, taken: map<string, Taken>)

  datatype Event =
    /** `create_with_captured_files`: the caller supplies bytes and modes. */
    | Snapshot(req: Request, captured: seq<CapturedFile>, createFaults: set<CreateCall>, torn: Option<string>)
    /** A manager replaces a managed file. */
    | Write(path: string, file: File)
    | Delete(path: string)
    | Restore(id: string, allowed: seq<string>, etag: ETag<Data>, busy: set<Path>, faults: Faults)
    | Reap(
        order: seq<string>, keepCount: nat, cutoff: string,
        unreadable: set<string>, stuck: set<string>, survivors: set<string>)

  function NextSnapshot(
    s: State, req: Request, captured: seq<CapturedFile>, faults: set<CreateCall>, torn: Option<string>): State
  {
    var (dirs, r) := CreateEffect(s.dirs, req, captured, faults, torn);
    s.(dirs := dirs, taken := if r.Ok? then s.taken[r.value := Taken(req, captured, s.files)] else s.taken)
  }

  /** Snapshots whose directories a reap removed or damaged are forgotten. */
  function Untouched(taken: map<string, Taken>, before: Dirs, after: Dirs): map<string, Taken> {
    map id | id in taken && id in before && id in after && after[id] == before[id] :: taken[id]
  }

  function Next(s: State, e: Event): State {
    match e
    case Snapshot(req, captured, faults, torn) => NextSnapshot(s, req, captured, faults, torn)
    case Write(path, file) => s.(files := s.files[Components(path) := file])
    case Delete(path) => s.(files := s.files - {Components(path)})
    case Restore(id, allowed, etag, busy, faults) =>
      s.(files := RestoreEffect(s.files, s.dirs, id, allowed, etag, busy, faults).0)
    case Reap(order, keep, cutoff, unreadable, stuck, survivors) =>
      var dirs := ReapEffect(s.dirs, order, keep, cutoff, unreadable, stuck, survivors).0;
      s.(dirs := dirs, taken := Untouched(s.taken, s.dirs, dirs))
  }

  function Run(s: State, events: seq<Event>): State
    decreases |events|
  {
    if events == [] then s else Run(Next(s, events[0]), events[1..])
  }

  function Init(files: Files): State {
    State(files, map[], map[])
  }

  /** The rows are the bytes and modes the files had when the snapshot was taken. */
  predicate Recorded(t: Taken) {
    forall k | 0 <= k < |t.captured| ::
      var p := Components(t.captured[k].path);
      p in t.at && t.captured[k].data == t.at[p].data && t.captured[k].mode == ModeOctal(t.at[p].mode)
  }

  predicate Stored(s: State, id: string)
    requires id in s.taken
  {
    CapturesRequest(s.taken[id].req, s.taken[id].captured)
    && id in s.dirs && s.dirs[id] == SnapshotDir(s.taken[id].req, s.taken[id].captured)
  }

  ghost predicate Faithful(s: State) {
    forall id | id in s.taken :: Stored(s, id)
  }

  /** Rows read from the files themselves are recorded. */
  lemma CapturedIsRecorded(files: Files, req: Request, faults: set<CreateCall>)
    requires Capture(files, req.files, 0, faults).Ok?
    ensures Recorded(Taken(req, Capture(files, req.files, 0, faults).value, files))
  {
    var captured := Capture(files, req.files, 0, faults).value;
    CaptureReads(files, req.files, 0, faults);
    forall k | 0 <= k < |captured|
      ensures
        var p := Components(captured[k].path);
        p in files && captured[k].data == files[p].data && captured[k].mode == ModeOctal(files[p].mode)
    {
      assert captured[k - 0].path == req.files[k];
    }
  }

  lemma SnapshotKeepsFaithful(
    s: State, req: Request, captured: seq<CapturedFile>, faults: set<CreateCall>, torn: Option<string>)
    requires Faithful(s)
    ensures Faithful(NextSnapshot(s, req, captured, faults, torn))
    ensures forall id | id in s.taken ::
      id in NextSnapshot(s, req, captured, faults, torn).taken
      && NextSnapshot(s, req, captured, faults, torn).taken[id] == s.taken[id]
  {
    CreateAddsOne(s.dirs, req, captured, faults, torn);
    AddedKeepsFaithful(s, NextSnapshot(s, req, captured, faults, torn), Taken(req, captured, s.files));
  }

  lemma AddedKeepsFaithful(s: State, t: State, added: Taken)
    requires Faithful(s)
    requires forall id | id in s.dirs :: id in t.dirs && t.dirs[id] == s.dirs[id]
    requires
      t.taken == s.taken
      || exists id :: id !in s.dirs && t.taken == s.taken[id := added] && CapturesRequest(added.req, added.captured)
                      && t.dirs == s.dirs[id := SnapshotDir(added.req, added.captured)]
    ensures Faithful(t)
    ensures forall id | id in s.taken :: id in t.taken && t.taken[id] == s.taken[id]
  {
    forall id | id in t.taken ensures Stored(t, id) {
      if id in s.taken { assert Stored(s, id); }
    }
    forall id | id in s.taken ensures id in t.taken && t.taken[id] == s.taken[id] { assert Stored(s, id); }
  }

  lemma NextKeepsFaithful(s: State, e: Event)
    requires Faithful(s)
    ensures Faithful(Next(s, e))
  {
    var t := Next(s, e);
    if e.Snapshot? {
      SnapshotKeepsFaithful(s, e.req, e.captured, e.createFaults, e.torn);
    } else {
      forall id | id in t.taken ensures Stored(t, id) { assert Stored(s, id); }
    }
  }

  lemma {:induction false} RunKeepsFaithful(s: State, events: seq<Event>)
    requires Faithful(s)
    ensures Faithful(Run(s, events))
    decreases |events|
  {
    if events != [] {
      NextKeepsFaithful(s, events[0]);
      RunKeepsFaithful(Next(s, events[0]), events[1..]);
    }
  }

  lemma {:induction false} TakenPersists(s: State, events: seq<Event>, id: string)
    requires Faithful(s) && id in s.taken
    requires forall k | 0 <= k < |events| :: !events[k].Reap?
    ensures id in Run(s, events).taken && Run(s, events).taken[id] == s.taken[id]
    decreases |events|
  {
    if events != [] {
      NextKeepsFaithful(s, events[0]);
      if events[0].Snapshot? {
        SnapshotKeepsFaithful(s, events[0].req, events[0].captured, events[0].createFaults, events[0].torn);
      }
      TakenPersists(Next(s, events[0]), events[1..], id);
    }
  }

  /** Only a reap ever forgets a finished snapshot or changes a file in its directory. */
  lemma SnapshotsPersist(initial: Files, before: seq<Event>, events: seq<Event>, id: string)
    requires id in Run(Init(initial), before).taken
    requires forall k | 0 <= k < |events| :: !events[k].Reap?
    ensures
      var s := Run(Init(initial), before);
      var t := Run(s, events);
      && id in t.taken && t.taken[id] == s.taken[id]
      && id in s.dirs && id in t.dirs && t.dirs[id] == s.dirs[id]
  {
    var s := Run(Init(initial), before);
    RunKeepsFaithful(Init(initial), before);
    RunKeepsFaithful(s, events);
    TakenPersists(s, events, id);
    assert Stored(s, id) && Stored(Run(s, events), id);
  }

  lemma StoredRows(s: State, id: string, k: nat)
    requires id in s.taken && Stored(s, id) && IsPlainComponent(id) && k < |s.taken[id].captured|
    ensures
      var c := s.taken[id].captured;
      |RowsOf(s.dirs, id)| == |c| && RowsOf(s.dirs, id)[k] == ManifestFile(c[k].path, Digest(c[k].data), c[k].mode)
  {
  }

  /** `after` holds every row of the snapshot, at managed paths, and otherwise equals `files`. */
  ghost predicate Reinstated(files: Files, t: Taken, allowed: seq<string>, after: Files) {
    (forall k | 0 <= k < |t.captured| ::
      var p := Components(t.captured[k].path);
      IsManaged(t.captured[k].path, allowed)
      && p in after && after[p].data == t.captured[k].data && ModeOctal(after[p].mode) == t.captured[k].mode)
    && (forall p | p !in Paths(t.req.files) :: (p in after <==> p in files) && (p in files ==> after[p] == files[p]))
  }

  /** Whatever happened since, and whatever flat names collide: a restore that succeeds installs
      exactly the rows the snapshot was given, and changes no other file. */
  lemma UndoInstallsCaptured(
    initial: Files, events: seq<Event>, id: string, allowed: seq<string>, etag: ETag<Data>, busy: set<Path>,
    faults: Faults)
    requires id in Run(Init(initial), events).taken
    requires
      var s := Run(Init(initial), events);
      RestoreEffect(s.files, s.dirs, id, allowed, etag, busy, faults).1.Ok?
    ensures
      var s := Run(Init(initial), events);
      Reinstated(s.files, s.taken[id], allowed, RestoreEffect(s.files, s.dirs, id, allowed, etag, busy, faults).0)
  {
    var s := Run(Init(initial), events);
    var after := RestoreEffect(s.files, s.dirs, id, allowed, etag, busy, faults).0;
    var t := s.taken[id];
    var rows := RowsOf(s.dirs, id);
    RunKeepsFaithful(Init(initial), events);
    assert Stored(s, id);
    RestoreExactly(s.files, s.dirs, id, allowed, etag, busy, faults);
    RestoreInstalls(s.files, s.dirs, id, allowed, etag, busy, faults);
    RowsAreTaken(s, id);
    forall k | 0 <= k < |t.captured|
      ensures
        var p := Components(t.captured[k].path);
        IsManaged(t.captured[k].path, allowed)
        && p in after && after[p].data == t.captured[k].data && ModeOctal(after[p].mode) == t.captured[k].mode
    {
      StoredRows(s, id, k);
      assert Targets(rows)[k] == Components(t.captured[k].path);
    }
    forall p | p !in Paths(t.req.files)
      ensures (p in after <==> p in s.files) && (p in s.files ==> after[p] == s.files[p])
    {
      assert p !in Targets(rows);
    }
  }

  /** So a successful restore returns every target to its bytes and mode at the time of the snapshot
      exactly when the rows supplied were those of the targets. */
  lemma UndoReturnsToSnapshot(
    initial: Files, events: seq<Event>, id: string, allowed: seq<string>, etag: ETag<Data>, busy: set<Path>,
    faults: Faults)
    requires id in Run(Init(initial), events).taken
    requires
      var s := Run(Init(initial), events);
      RestoreEffect(s.files, s.dirs, id, allowed, etag, busy, faults).1.Ok?
    ensures
      var s := Run(Init(initial), events);
      var after := RestoreEffect(s.files, s.dirs, id, allowed, etag, busy, faults).0;
      var t := s.taken[id];
      (forall k | 0 <= k < |t.captured| ::
        var p := Components(t.captured[k].path);
        p in after && p in t.at && after[p] == t.at[p])
      <==> Recorded(t)
  {
    var s := Run(Init(initial), events);
    var after := RestoreEffect(s.files, s.dirs, id, allowed, etag, busy, faults).0;
    var t := s.taken[id];
    UndoInstallsCaptured(initial, events, id, allowed, etag, busy, faults);
    forall k | 0 <= k < |t.captured|
      ensures
        var p := Components(t.captured[k].path);
        p in after
        && (p in t.at ==>
              (after[p] == t.at[p] <==>
                t.captured[k].data == t.at[p].data && t.captured[k].mode == ModeOctal(t.at[p].mode)))
    {
      var p := Components(t.captured[k].path);
      if p in t.at { SameMode(after[p].mode, t.at[p].mode); }
    }
  }

  lemma SameMode(m: Mode, n: Mode)
    ensures ModeOctal(m) == ModeOctal(n) <==> m == n
  {
    ModeRoundTrip(m, "");
    ModeRoundTrip(n, "");
  }

  /** The row the daemon supplies for a file it read under the lock. */
  function RowOf(path: string, file: FlockProtocol.File): CapturedFile {
    CapturedFile(path, Raw(file.text), ModeOctal(file.mode))
  }

  /** Together with the write protocol: when no writer locked late, restoring the snapshot that a
      commit's writer took brings back exactly the file, bytes and mode, that the commit replaced. */
  lemma CommitCanBeUndone(
    content: FlockProtocol.File, schedule: FlockProtocol.Schedule, j: nat, taken: FlockProtocol.File, path: string,
    initial: Files, events: seq<Event>, id: string, allowed: seq<string>, etag: ETag<Data>, busy: set<Path>,
    faults: Faults)
    requires FlockProtocol.GapFree(FlockProtocol.Init(content), schedule)
    requires
      var d := FlockProtocol.Run(FlockProtocol.Init(content), schedule).disk;
      j < |d.commits| && FlockProtocol.Snapshot(d.commits[j].writer, taken) in d.snapshots
    requires id in Run(Init(initial), events).taken
    requires
      var s := Run(Init(initial), events);
      s.taken[id].captured == [RowOf(path, taken)]
      && RestoreEffect(s.files, s.dirs, id, allowed, etag, busy, faults).1.Ok?
    ensures
      var replaced := FlockProtocol.Run(FlockProtocol.Init(content), schedule).disk.commits[j].replaced;
      var s := Run(Init(initial), events);
      var after := RestoreEffect(s.files, s.dirs, id, allowed, etag, busy, faults).0;
      Components(path) in after && after[Components(path)] == File(Raw(replaced.text), replaced.mode)
  {
    var s := Run(Init(initial), events);
    var after := RestoreEffect(s.files, s.dirs, id, allowed, etag, busy, faults).0;
    FlockProtocol.SnapshotHoldsReplaced(content, schedule, j);
    UndoInstallsCaptured(initial, events, id, allowed, etag, busy, faults);
    assert s.taken[id].captured[0].path == path;
    SameMode(after[Components(path)].mode, taken.mode);
  }

  function Paths(files: seq<string>): seq<Path> {
    seq(|files|, k requires 0 <= k < |files| => Components(files[k]))
  }

  lemma RowsAreTaken(s: State, id: string)
    requires id in s.taken && Stored(s, id) && IsPlainComponent(id)
    ensures Targets(RowsOf(s.dirs, id)) == Paths(s.taken[id].req.files)
  {
    var t := s.taken[id];
    forall k | 0 <= k < |t.captured|
      ensures |RowsOf(s.dirs, id)| == |t.captured| && RowsOf(s.dirs, id)[k].path == t.req.files[k]
    {
      StoredRows(s, id, k);
    }
  }

  /** The id is plain, the targets are managed, distinct, present and unlocked, the ETag is the
      primary target's, the modes are four octal digits, and no flat name was reused for other
      content or for the manifest. */
  predicate Undoable(
    files: Files, id: string, t: Taken, allowed: seq<string>, etag: ETag<Data>, busy: set<Path>)
  {
    var paths := Paths(t.req.files);
    && IsPlainComponent(id) && paths != [] && Available(files, paths, busy)
    && (forall k | 0 <= k < |paths| :: IsManaged(t.req.files[k], allowed))
    && (forall k | 0 <= k < |paths| :: HasFileName(paths[k]))
    && paths[0] in files && etag == Digest(files[paths[0]].data)
    && (forall k | 0 <= k < |t.captured| :: ParseMode(t.captured[k].mode).Some?)
    && (forall k | 0 <= k < |t.captured| :: Survives(t.captured, k))
  }

  /** A snapshot of a run can be restored exactly when it is undoable. */
  lemma RestorableExactly(
    initial: Files, events: seq<Event>, id: string, allowed: seq<string>, etag: ETag<Data>, busy: set<Path>)
    requires id in Run(Init(initial), events).taken
    ensures
      var s := Run(Init(initial), events);
      Restorable(s.files, s.dirs, id, allowed, etag, busy) <==> Undoable(s.files, id, s.taken[id], allowed, etag, busy)
  {
    var s := Run(Init(initial), events);
    RunKeepsFaithful(Init(initial), events);
    assert Stored(s, id);
    StoredRestorable(s, id, allowed, etag, busy);
  }

  lemma StoredRestorable(s: State, id: string, allowed: seq<string>, etag: ETag<Data>, busy: set<Path>)
    requires id in s.taken && Stored(s, id)
    ensures Restorable(s.files, s.dirs, id, allowed, etag, busy)
      <==> Undoable(s.files, id, s.taken[id], allowed, etag, busy)
  {
    var t := s.taken[id];
    var rows := RowsOf(s.dirs, id);
    if IsPlainComponent(id) {
      RowsAreTaken(s, id);
      PayloadsLoad(s, id);
      IntactExactly(t.req, t.captured);
      forall k | 0 <= k < |rows| ensures rows[k].path == t.req.files[k] { StoredRows(s, id, k); }
      SameConditions(s.files, s.dirs, id, rows, t, allowed, etag, busy);
    }
  }

  lemma SameConditions(
    files: Files, dirs: Dirs, id: string, rows: seq<ManifestFile>, t: Taken,
    allowed: seq<string>, etag: ETag<Data>, busy: set<Path>)
    requires IsPlainComponent(id) && rows == RowsOf(dirs, id)
    requires Targets(rows) == Paths(t.req.files) && |rows| == |t.req.files|
    requires forall k | 0 <= k < |rows| :: rows[k].path == t.req.files[k]
    requires rows != [] ==> id in dirs
    requires (forall k | 0 <= k < |rows| :: LoadPayload(dirs[id], rows[k]).Ok?)
      <==> ((forall k | 0 <= k < |t.captured| :: ParseMode(t.captured[k].mode).Some?)
            && (forall k | 0 <= k < |t.captured| :: Survives(t.captured, k)))
    ensures Restorable(files, dirs, id, allowed, etag, busy) <==> Undoable(files, id, t, allowed, etag, busy)
  {
    var paths := Paths(t.req.files);
    assert forall k | 0 <= k < |paths| :: paths[k] == Components(rows[k].path);
    if Undoable(files, id, t, allowed, etag, busy) {
      forall k | 0 <= k < |rows| ensures HasFileName(Components(rows[k].path)) { assert HasFileName(paths[k]); }
    }
  }

  lemma PayloadsLoad(s: State, id: string)
    requires id in s.taken && Stored(s, id) && IsPlainComponent(id)
    ensures |RowsOf(s.dirs, id)| == |s.taken[id].captured|
    ensures (forall k | 0 <= k < |RowsOf(s.dirs, id)| :: LoadPayload(s.dirs[id], RowsOf(s.dirs, id)[k]).Ok?)
      <==> ((forall k | 0 <= k < |s.taken[id].captured| :: ParseMode(s.taken[id].captured[k].mode).Some?)
            && Intact(s.taken[id].req, s.taken[id].captured))
  {
    var c := s.taken[id].captured;
    if |c| > 0 { StoredRows(s, id, 0); }
    forall k | 0 <= k < |c|
      ensures LoadPayload(s.dirs[id], RowsOf(s.dirs, id)[k]).Ok? <==>
        (ParseMode(c[k].mode).Some? && PayloadKept(s.dirs[id], c[k]))
    {
      StoredRows(s, id, k);
    }
    assert Intact(s.taken[id].req, c) <==> forall k | 0 <= k < |c| :: PayloadKept(s.dirs[id], c[k]);
  }

  /** A reap during a run leaves in the listing exactly what it is to keep. */
  lemma ReapInRun(s: State, e: Event)
    requires e.Reap? && NoDuplicates(e.order)
    requires ReapEffect(s.dirs, e.order, e.keepCount, e.cutoff, e.unreadable, e.stuck, e.survivors).1.Ok?
    ensures
      var infos := Listed(s.dirs, e.order, e.unreadable).value;
      Listed(Next(s, e).dirs, e.order, e.unreadable) == Ok(infos[..Kept(infos, e.keepCount, e.cutoff)])
  {
    ReapKeepsNewest(s.dirs, e.order, e.keepCount, e.cutoff, e.unreadable, e.stuck, e.survivors);
  }
}
