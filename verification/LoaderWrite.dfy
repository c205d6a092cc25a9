/** `set_loader_default` as a whole, for one caller and for overlapping ones. */
module LoaderWrite {
  import opened Text
  import opened Hash
  import opened LoaderConf
  import opened Schedules
  import opened FixedWidth
  import FlockProtocol

  // The function computes the new text before the lock is taken, and the lock taken for the ETag
  // check is dropped before the temporary file is written.

  datatype Request = Request(id: string, etag: ETag<string>)

  datatype Error = MalformedValue | EspScanFailed | ConcurrentModification | StateMismatch

  datatype Result = Ok | Err(error: Error)

  /** The text that will be written, given what the file holds. */
  function NewContent(content: Option<string>, id: string): string {
    if content.Some? then Updated(content.value, "default", id) else "default " + id + "\n"
  }

  /** An empty ETag switches the check off. */
  predicate Passes(etag: ETag<string>, content: string) {
    etag == Foreign("") || VerifyEtag(etag, content)
  }

  // ---------------------------------------------------------------------------
  // One caller at a time
  // ---------------------------------------------------------------------------

  /** What goes wrong in one call: the first reading, a lock held by another process, the reading
      under the lock, or the writing. */
  datatype Faults = Faults(prepare: bool, busy: bool, check: bool, write: bool)

  function SetDefaultEffect(content: Option<string>, r: Request, faults: Faults): (Option<string>, Result) {
    if !IsValidEntryId(r.id) then (content, Err(MalformedValue))
    else if content.Some? && faults.prepare then (content, Err(EspScanFailed))
    else if content.Some? && faults.busy then (content, Err(ConcurrentModification))
    else if content.Some? && faults.check then (content, Err(EspScanFailed))
    else if content.Some? && !Passes(r.etag, content.value) then (content, Err(StateMismatch))
    else if faults.write then (content, Err(EspScanFailed))
    else (Some(NewContent(content, r.id)), Result.Ok)
  }

  /** `loader.conf` with its only writer. */
  class LoaderFile {
    var content: Option<string>

    constructor (initial: Option<string>)
      ensures content == initial
    {
      content := initial;
    }

    method SetLoaderDefault(r: Request, faults: Faults) returns (result: Result)
      modifies this
      ensures (content, result) == SetDefaultEffect(old(content), r, faults)
    {
      if !IsValidEntryId(r.id) {
        return Err(MalformedValue);
      }
      var text;
      if content.Some? {
        if faults.prepare {
          return Err(EspScanFailed);
        }
        text := UpdateOrAppendKey(content.value, "default", r.id);
      } else {
        text := "default " + r.id + "\n";
      }
      result := AtomicWriteWithEtag(text, r.etag, faults);
    }

    /** `atomic_write_with_etag`. */
    method AtomicWriteWithEtag(text: string, etag: ETag<string>, faults: Faults) returns (result: Result)
      modifies this
      ensures result ==
        if old(content).Some? && faults.busy then Err(ConcurrentModification)
        else if old(content).Some? && faults.check then Err(EspScanFailed)
        else if old(content).Some? && !Passes(etag, old(content).value) then Err(StateMismatch)
        else if faults.write then Err(EspScanFailed)
        else Result.Ok
      ensures content == if result.Ok? then Some(text) else old(content)
    {
      if content.Some? {
        if faults.busy {
          return Err(ConcurrentModification);
        }
        if faults.check {
          return Err(EspScanFailed);
        }
        if !Passes(etag, content.value) {
          return Err(StateMismatch);
        }
      }
      if faults.write {
        return Err(EspScanFailed);
      }
      content := Some(text);
      return Result.Ok;
    }
  }

  /** The update succeeds exactly if the id is accepted, the writing succeeds, and the file is absent
      or could be read and locked while the check is switched off or the ETag is current; a failure
      changes nothing; and the id is read back exactly when it has no line break and no outer
      white space. */
  lemma SetDefaultExactly(content: Option<string>, r: Request, faults: Faults)
    ensures
      var (after, result) := SetDefaultEffect(content, r, faults);
      && (result.Ok? <==>
            IsValidEntryId(r.id) && !faults.write
            && (content.None?
                || (!faults.prepare && !faults.busy && !faults.check
                    && (r.etag == Foreign("") || r.etag == Digest(content.value)))))
      && (result.Err? ==> after == content)
      && (result.Ok? ==> after.Some? && (DefaultIn(Lines(after.value)) == r.id <==> Clean(r.id)))
  {
    if content.Some? {
      ReadAfterWrite(content.value, r.id);
    } else {
      FreshFile(r.id);
      ReadAfterWrite("", r.id);
    }
  }

  /** What each failure means. */
  lemma SetDefaultErrors(content: Option<string>, r: Request, faults: Faults)
    ensures
      var result := SetDefaultEffect(content, r, faults).1;
      && (result == Err(MalformedValue) <==> !IsValidEntryId(r.id))
      && (result == Err(ConcurrentModification) ==> content.Some? && faults.busy)
      && (result == Err(StateMismatch) ==>
            content.Some? && r.etag != Digest(content.value) && r.etag != Foreign(""))
      && (result == Err(EspScanFailed) ==> faults.prepare || faults.check || faults.write)
  {
  }

  /** A new file is what updating an empty one gives. */
  lemma FreshFile(id: string)
    ensures Updated("", "default", id) == "default " + id + "\n"
  {
    assert Lines("") == [];
    assert UpdatedLines([], "default", "default" + " " + id) == [DefaultLine(id)];
    assert Join([DefaultLine(id)]) == DefaultLine(id);
  }

  /** Contrary to the documentation of `set_loader_default`, an absent file is created whatever
      ETag the caller presents, and an existing file is changed without any ETag. */
  lemma EtagIsOptional(content: string, id: string, stale: ETag<string>)
    requires IsValidEntryId(id)
    ensures SetDefaultEffect(None, Request(id, stale), Faults(false, false, false, false)).1.Ok?
    ensures SetDefaultEffect(Some(content), Request(id, Foreign("")), Faults(false, false, false, false)).1.Ok?
  {
  }

  // ---------------------------------------------------------------------------
  // Overlapping callers
  // ---------------------------------------------------------------------------

  /** `before` is the content the new text was computed from, `checked` the one the ETag check
      saw, if there was a file to check. */
  datatype Pc =
    | Ready
    | Prepared(before: Option<string>, next: string)
    | Opened(before: Option<string>, next: string, inode: nat)
    | Locked(before: Option<string>, next: string, inode: nat)
    | Checked(before: Option<string>, next: string, checked: Option<string>)
    | TmpCreated(before: Option<string>, next: string, checked: Option<string>, tmp: nat)
    | TmpWritten(before: Option<string>, next: string, checked: Option<string>, tmp: nat)
    | Ended

  datatype Action = Prepare | Open | Lock | Check | CreateTmp | WriteTmp | Rename | Fail(written: nat)

  /** One successful update. */
  datatype Done = Done(
    request: Request, before: Option<string>, checked: Option<string>, replaced: Option<string>, installed: string)

  /** The files, and the updates made so far. */
  datatype World = World(files: FlockProtocol.Disk, done: seq<Done>)

  type System = State<World, Request, Pc>

  type Schedule = seq<Event<Request, Action>>

  function Contents(d: FlockProtocol.Disk): Option<string> {
    if d.target in d.bytes then Some(d.bytes[d.target].text) else None
  }

  function Init(content: Option<string>): System {
    var bytes := if content.Some? then map[0 := FlockProtocol.File(content.value, NEW_MODE)] else map[];
    State(World(FlockProtocol.Disk(0, None, bytes, map[], 1, 0, [], []), []), map[])
  }

  /** The temporary name is fixed, as for GRUB. */
  const SHARED := FlockProtocol.Request(None, (text: string) => None, true, Some(NEW_MODE), false)

  /** The mode of a new file; that of the replaced one is not kept. */
  const NEW_MODE: Mode := 420

  function Renamed(d: FlockProtocol.Disk, source: nat): FlockProtocol.Disk {
    d.(target := source, tmp := None, epoch := d.epoch + 1)
  }

  function Step(x: World, w: nat, r: Request, pc: Pc, a: Action): (World, Pc) {
    var d := x.files;
    match (a, pc)
    case (Prepare, Ready) =>
      (x, if IsValidEntryId(r.id) then Prepared(Contents(d), NewContent(Contents(d), r.id)) else Ended)
    case (Open, Prepared(b, n)) => (x, if Contents(d).Some? then Opened(b, n, d.target) else Checked(b, n, None))
    case (Lock, Opened(b, n, i)) =>
      if i in d.lock then (x, Ended) else (x.(files := d.(lock := d.lock[i := w])), Locked(b, n, i))
    case (Check, Locked(b, n, i)) =>
      // the lock is dropped at the end of the check, whatever its outcome
      var text := FlockProtocol.BytesAt(d, i).text;
      (x.(files := FlockProtocol.Unlock(d, w, i)), if Passes(r.etag, text) then Checked(b, n, Some(text)) else Ended)
    case (CreateTmp, Checked(b, n, c)) =>
      (x.(files := FlockProtocol.CreateTmpFile(d, SHARED, FlockProtocol.Current(d))),
       TmpCreated(b, n, c, FlockProtocol.TmpInode(d, SHARED)))
    case (WriteTmp, TmpCreated(b, n, c, t)) => (x.(files := FlockProtocol.WriteTo(d, t, n)), TmpWritten(b, n, c, t))
    case (Rename, TmpWritten(b, n, c, t)) =>
      if d.tmp.None? then (x, Ended)
      else
        var installed := FlockProtocol.BytesAt(d, d.tmp.value).text;
        (World(Renamed(d, d.tmp.value), x.done + [Done(r, b, c, Contents(d), installed)]), Ended)
    case (Fail(k), Locked(_, _, i)) => (x.(files := FlockProtocol.Unlock(d, w, i)), Ended)
    case (Fail(k), TmpCreated(_, n, _, t)) =>
      (x.(files := FlockProtocol.WriteTo(d, t, FlockProtocol.Prefix(n, k))), Ended)
    case (Fail(k), _) => (x, Ended)
    case _ => (x, pc)
  }

  function Next(s: System, e: Event<Request, Action>): System {
    Advance(Step, Ready, s, e)
  }

  function Run(s: System, events: Schedule): System {
    RunAll(Step, Ready, s, events)
  }

  /** The target may be absent. */
  predicate Files(d: FlockProtocol.Disk) {
    d.target < d.unused && (forall i | i in d.bytes :: i < d.unused)
    && (d.tmp.Some? ==> d.tmp.value in d.bytes && d.tmp.value != d.target)
  }

  /** The check passed on `checked`, and the text is the update of `before`. */
  predicate PcChecked(r: Request, pc: Pc) {
    match pc
    case Checked(b, n, c) => n == NewContent(b, r.id) && (c.Some? ==> Passes(r.etag, c.value))
    case TmpCreated(b, n, c, _) => n == NewContent(b, r.id) && (c.Some? ==> Passes(r.etag, c.value))
    case TmpWritten(b, n, c, _) => n == NewContent(b, r.id) && (c.Some? ==> Passes(r.etag, c.value))
    case Prepared(b, n) => n == NewContent(b, r.id)
    case Opened(b, n, _) => n == NewContent(b, r.id)
    case Locked(b, n, _) => n == NewContent(b, r.id)
    case _ => true
  }

  predicate DoneChecked(d: Done) {
    d.checked.Some? ==> Passes(d.request.etag, d.checked.value)
  }

  ghost predicate AllChecked(s: System) {
    (forall w | w in s.writers :: PcChecked(s.writers[w].request, s.writers[w].pc))
    && (forall k | 0 <= k < |s.disk.done| :: DoneChecked(s.disk.done[k]))
  }

  lemma StepChecks(x: World, w: nat, r: Request, pc: Pc, a: Action)
    requires PcChecked(r, pc)
    ensures PcChecked(r, Step(x, w, r, pc, a).1)
    ensures Step(x, w, r, pc, a).0.done == x.done
      || exists one :: DoneChecked(one) && Step(x, w, r, pc, a).0.done == x.done + [one]
  {
  }

  lemma {:induction false} RunKeepsChecked(s: System, events: Schedule)
    requires AllChecked(s)
    ensures AllChecked(Run(s, events))
    decreases |events|
  {
    if events != [] {
      var e := events[0];
      if e.Call? && e.writer in s.writers {
        var writer := s.writers[e.writer];
        StepChecks(s.disk, e.writer, writer.request, writer.pc, e.action);
      }
      RunKeepsChecked(Next(s, e), events[1..]);
    }
  }

  /** In every interleaving an update that found a file was checked against content its ETag
      vouches for, unless the check was switched off. */
  lemma EveryUpdateIsChecked(content: Option<string>, events: Schedule, k: nat)
    requires k < |Run(Init(content), events).disk.done|
    ensures
      var d := Run(Init(content), events).disk.done[k];
      d.checked.Some? ==> d.request.etag == Foreign("") || d.request.etag == Digest(d.checked.value)
  {
    RunKeepsChecked(Init(content), events);
    assert DoneChecked(Run(Init(content), events).disk.done[k]);
  }

  // ---------------------------------------------------------------------------
  // The check is not a lock
  // ---------------------------------------------------------------------------

  const CHECK: seq<Action> := [Prepare, Open, Lock, Check]
  const STORE: seq<Action> := [CreateTmp, WriteTmp, Rename]

  function Alone(x: World, w: nat, r: Request, pc: Pc, actions: seq<Action>): (World, Pc) {
    Solo(Step, x, w, r, pc, actions)
  }

  lemma CheckAlone(x: World, w: nat, r: Request)
    requires
      var d := x.files;
      IsValidEntryId(r.id) && Contents(d).Some? && d.target !in d.lock && Passes(r.etag, Contents(d).value)
    ensures
      var b := Contents(x.files);
      Alone(x, w, r, Ready, CHECK) == (x, Checked(b, NewContent(b, r.id), b))
  {
    var (d, b, i) := (x.files, Contents(x.files), x.files.target);
    var n := NewContent(b, r.id);
    var d1 := d.(lock := d.lock[i := w]);
    assert CHECK[1..] == [Open, Lock, Check];
    calc {
      Alone(x, w, r, Ready, CHECK);
      Alone(x, w, r, Prepared(b, n), [Open, Lock, Check]);
      Alone(x, w, r, Opened(b, n, i), [Lock, Check]);
      Alone(x.(files := d1), w, r, Locked(b, n, i), [Check]);
      (x.(files := FlockProtocol.Unlock(d1, w, i)), Checked(b, n, b));
    }
    assert d.lock[i := w] - {i} == d.lock;
  }

  function NewFile(d: FlockProtocol.Disk, next: string): FlockProtocol.File {
    FlockProtocol.TmpFile(d, SHARED, FlockProtocol.Current(d), next)
  }

  /** The disk once `next` has been installed. */
  function Installed(d: FlockProtocol.Disk, next: string): FlockProtocol.Disk {
    var t := FlockProtocol.TmpInode(d, SHARED);
    Renamed(d.(bytes := d.bytes[t := NewFile(d, next)], unused := if t == d.unused then t + 1 else d.unused), t)
  }

  lemma InstalledIsRenamed(d: FlockProtocol.Disk, n: string)
    requires Files(d)
    ensures
      var t := FlockProtocol.TmpInode(d, SHARED);
      var filled := FlockProtocol.WriteTo(FlockProtocol.CreateTmpFile(d, SHARED, FlockProtocol.Current(d)), t, n);
      && filled.tmp == Some(t) && FlockProtocol.BytesAt(filled, t).text == n
      && Contents(filled) == Contents(d) && Renamed(filled, t) == Installed(d, n)
    ensures Contents(Installed(d, n)) == Some(n) && Files(Installed(d, n))
  {
    var t := FlockProtocol.TmpInode(d, SHARED);
    var filled := FlockProtocol.WriteTo(FlockProtocol.CreateTmpFile(d, SHARED, FlockProtocol.Current(d)), t, n);
    assert t != d.target && filled.bytes == d.bytes[t := NewFile(d, n)];
  }

  lemma StoreAlone(x: World, w: nat, r: Request, b: Option<string>, n: string, c: Option<string>)
    requires Files(x.files)
    ensures Alone(x, w, r, Checked(b, n, c), STORE)
      == (World(Installed(x.files, n), x.done + [Done(r, b, c, Contents(x.files), n)]), Ended)
    ensures Contents(Installed(x.files, n)) == Some(n) && Files(Installed(x.files, n))
  {
    var t := FlockProtocol.TmpInode(x.files, SHARED);
    var y := x.(files := FlockProtocol.CreateTmpFile(x.files, SHARED, FlockProtocol.Current(x.files)));
    var z := y.(files := FlockProtocol.WriteTo(y.files, t, n));
    InstalledIsRenamed(x.files, n);
    assert STORE[1..] == [WriteTmp, Rename];
    calc {
      Alone(x, w, r, Checked(b, n, c), STORE);
      Alone(y, w, r, TmpCreated(b, n, c, t), [WriteTmp, Rename]);
      Alone(z, w, r, TmpWritten(b, n, c, t), [Rename]);
      (World(Renamed(z.files, t), x.done + [Done(r, b, c, Contents(z.files), n)]), Ended);
    }
  }

  /** The writers of the trace below, at their start and after both have passed the check. */
  function Two(content: string, r0: Request, pc0: Pc, r1: Request, pc1: Pc): System {
    Init(Some(content)).(writers := map[0 := Writer(r0, pc0), 1 := Writer(r1, pc1)])
  }

  function Overlapping(r0: Request, r1: Request): Schedule {
    [Start(0, r0), Start(1, r1)] + Calls(0, CHECK) + Calls(1, CHECK) + Calls(0, STORE) + Calls(1, STORE)
  }

  lemma BothPassTheCheck(content: string, r0: Request, r1: Request)
    requires IsValidEntryId(r0.id) && IsValidEntryId(r1.id) && r0.etag == r1.etag == Digest(content)
    ensures
      var (b, n0, n1) := (Some(content), Updated(content, "default", r0.id), Updated(content, "default", r1.id));
      Run(Init(b), [Start(0, r0), Start(1, r1)] + Calls(0, CHECK) + Calls(1, CHECK))
      == Two(content, r0, Checked(b, n0, b), r1, Checked(b, n1, b))
  {
    var s := Init(Some(content));
    var (b, n0, n1) := (Some(content), Updated(content, "default", r0.id), Updated(content, "default", r1.id));
    var starts: Schedule := [Start(0, r0), Start(1, r1)];
    BothStart(content, r0, r1);
    RunAppend(Step, Ready, s, starts, Calls(0, CHECK));
    RunAppend(Step, Ready, s, starts + Calls(0, CHECK), Calls(1, CHECK));
    var s1 := Two(content, r0, Ready, r1, Ready);
    var s2 := Two(content, r0, Checked(b, n0, b), r1, Ready);
    RunCalls(Step, Ready, s1, 0, CHECK);
    CheckAlone(s.disk, 0, r0);
    assert Run(s1, Calls(0, CHECK)).writers == s2.writers;
    RunCalls(Step, Ready, s2, 1, CHECK);
    CheckAlone(s.disk, 1, r1);
    assert Run(s2, Calls(1, CHECK)).writers == Two(content, r0, Checked(b, n0, b), r1, Checked(b, n1, b)).writers;
  }

  lemma BothStart(content: string, r0: Request, r1: Request)
    ensures Run(Init(Some(content)), [Start(0, r0), Start(1, r1)]) == Two(content, r0, Ready, r1, Ready)
  {
    var s := Init(Some(content));
    var starts: Schedule := [Start(0, r0), Start(1, r1)];
    var s1 := Next(s, starts[0]);
    var rest: Schedule := [Start(1, r1)];
    assert starts[1..] == rest && rest[1..] == [];
    assert Next(s1, Start(1, r1)) == Two(content, r0, Ready, r1, Ready);
    calc {
      Run(s, starts);
      Run(s1, rest);
      Run(Next(s1, Start(1, r1)), []);
    }
  }

  /** Two callers with the same, current ETag can both succeed, whatever they set: the second
      update is computed from the text before the first, and the first is lost. */
  lemma CheckIsNotALock(content: string, r0: Request, r1: Request)
    requires IsValidEntryId(r0.id) && IsValidEntryId(r1.id) && r0.etag == r1.etag == Digest(content)
    ensures
      var (b, n0, n1) := (Some(content), Updated(content, "default", r0.id), Updated(content, "default", r1.id));
      var s := Run(Init(b), Overlapping(r0, r1));
      s.disk.done == [Done(r0, b, b, b, n0), Done(r1, b, b, Some(n0), n1)] && Contents(s.disk.files) == Some(n1)
  {
    var s := Init(Some(content));
    var (b, n0, n1) := (Some(content), Updated(content, "default", r0.id), Updated(content, "default", r1.id));
    var checks := [Start(0, r0), Start(1, r1)] + Calls(0, CHECK) + Calls(1, CHECK);
    BothPassTheCheck(content, r0, r1);
    var s2 := Run(s, checks);
    RunAppend(Step, Ready, s, checks, Calls(0, STORE));
    RunAppend(Step, Ready, s, checks + Calls(0, STORE), Calls(1, STORE));
    RunCalls(Step, Ready, s2, 0, STORE);
    StoreAlone(s2.disk, 0, r0, b, n0, b);
    var s3 := Run(s2, Calls(0, STORE));
    RunCalls(Step, Ready, s3, 1, STORE);
    StoreAlone(s3.disk, 1, r1, b, n1, b);
  }

  /** Both writers filling the one temporary file: the second truncates it before the first renames. */
  function Tearing(r0: Request, r1: Request): Schedule {
    [Start(0, r0), Start(1, r1)] + Calls(0, CHECK) + Calls(1, CHECK)
    + [Call(0, CreateTmp), Call(0, WriteTmp), Call(1, CreateTmp), Call(0, Rename)]
  }

  /** Nobody opens before another's rename and locks after it, and writer 0 checks and stores the very
      content it prepared from; still the file ends up empty, and the call reports success. */
  lemma StoresTearTheFile(content: string, r0: Request, r1: Request) returns (s: System)
    requires IsValidEntryId(r0.id) && IsValidEntryId(r1.id) && r0.etag == r1.etag == Digest(content)
    ensures s == Run(Init(Some(content)), Tearing(r0, r1))
    ensures
      var b := Some(content);
      s.disk.done == [Done(r0, b, b, b, "")] && Contents(s.disk.files) == Some("")
    ensures 1 in s.writers && s.writers[1].request == r1
    ensures s.writers[1].pc == TmpCreated(Some(content), Updated(content, "default", r1.id), Some(content), 1)
    ensures s.disk.files.target == 1 && s.disk.files.tmp == None
  {
    var (b, n0, n1) := (Some(content), Updated(content, "default", r0.id), Updated(content, "default", r1.id));
    var checks := [Start(0, r0), Start(1, r1)] + Calls(0, CHECK) + Calls(1, CHECK);
    var tears: Schedule := [Call(0, CreateTmp), Call(0, WriteTmp), Call(1, CreateTmp), Call(0, Rename)];
    BothPassTheCheck(content, r0, r1);
    RunAppend(Step, Ready, Init(b), checks, tears);
    s := StoresTear(content, r0, n0, r1, n1);
  }

  lemma StoresTear(content: string, r0: Request, n0: string, r1: Request, n1: string) returns (s: System)
    ensures
      var b := Some(content);
      s == Run(Two(content, r0, Checked(b, n0, b), r1, Checked(b, n1, b)),
        [Call(0, CreateTmp), Call(0, WriteTmp), Call(1, CreateTmp), Call(0, Rename)])
    ensures
      var b := Some(content);
      s.disk.done == [Done(r0, b, b, b, "")] && Contents(s.disk.files) == Some("")
    ensures 1 in s.writers && s.writers[1] == Writer(r1, TmpCreated(Some(content), n1, Some(content), 1))
    ensures s.disk.files.target == 1 && s.disk.files.tmp == None
  {
    var b := Some(content);
    RunFour(Two(content, r0, Checked(b, n0, b), r1, Checked(b, n1, b)),
      Call(0, CreateTmp), Call(0, WriteTmp), Call(1, CreateTmp), Call(0, Rename));
    var t := TmpTruncated(content, r0, n0, r1, n1);
    s := Next(t, Call(0, Rename));
  }

  /** Both have checked; writer 0 has filled the temporary file, and writer 1 truncated it. */
  lemma TmpTruncated(content: string, r0: Request, n0: string, r1: Request, n1: string) returns (s: System)
    ensures
      var b := Some(content);
      var checked := Two(content, r0, Checked(b, n0, b), r1, Checked(b, n1, b));
      s == Next(Next(Next(checked, Call(0, CreateTmp)), Call(0, WriteTmp)), Call(1, CreateTmp))
    ensures
      var b := Some(content);
      s.writers == map[0 := Writer(r0, TmpWritten(b, n0, b, 1)), 1 := Writer(r1, TmpCreated(b, n1, b, 1))]
    ensures Contents(s.disk.files) == Some(content) && s.disk.done == [] && s.disk.files.tmp == Some(1)
    ensures 1 in s.disk.files.bytes && s.disk.files.bytes[1].text == ""
  {
    var b := Some(content);
    var s2 := Two(content, r0, Checked(b, n0, b), r1, Checked(b, n1, b));
    var s3 := Next(s2, Call(0, CreateTmp));
    assert s3.writers == map[0 := Writer(r0, TmpCreated(b, n0, b, 1)), 1 := Writer(r1, Checked(b, n1, b))];
    var s4 := Next(s3, Call(0, WriteTmp));
    assert s4.writers == map[0 := Writer(r0, TmpWritten(b, n0, b, 1)), 1 := Writer(r1, Checked(b, n1, b))];
    assert s4.disk.files.tmp == Some(1) && s4.disk.files.target == 0 && Contents(s4.disk.files) == b;
    s := Next(s4, Call(1, CreateTmp));
  }

  lemma RunFour(
    s: System, a: Event<Request, Action>, b: Event<Request, Action>,
    c: Event<Request, Action>, d: Event<Request, Action>)
    ensures Run(s, [a, b, c, d]) == Next(Next(Next(Next(s, a), b), c), d)
  {
    assert [a, b, c, d] == [a] + ([b] + ([c] + ([d] + [])));
    RunCons(Step, Ready, s, a, [b] + ([c] + ([d] + [])));
    RunCons(Step, Ready, Next(s, a), b, [c] + ([d] + []));
    RunCons(Step, Ready, Next(Next(s, a), b), c, [d] + []);
    RunCons(Step, Ready, Next(Next(Next(s, a), b), c), d, []);
  }

  /** Going on, writer 1 writes into the file that is installed now, then finds no temporary file to
      rename: a call that reports an error has changed the file. */
  lemma FailedCallWrites(content: string, r0: Request, r1: Request)
    requires IsValidEntryId(r0.id) && IsValidEntryId(r1.id) && r0.etag == r1.etag == Digest(content)
    ensures
      var s := Run(Init(Some(content)), Tearing(r0, r1) + Calls(1, [WriteTmp, Rename]));
      && Contents(s.disk.files) == Some(Updated(content, "default", r1.id))
      && 1 in s.writers && s.writers[1].pc == Ended
      && (forall k | 0 <= k < |s.disk.done| :: s.disk.done[k].request == r0)
      && |s.disk.done| == 1
  {
    var n1 := Updated(content, "default", r1.id);
    var last: seq<Action> := [WriteTmp, Rename];
    var s := StoresTearTheFile(content, r0, r1);
    RunAppend(Step, Ready, Init(Some(content)), Tearing(r0, r1), Calls(1, last));
    RunCalls(Step, Ready, s, 1, last);
    var x := s.disk;
    var y := x.(files := FlockProtocol.WriteTo(x.files, 1, n1));
    var b := Some(content);
    assert last[1..] == [Rename];
    calc {
      Alone(x, 1, r1, TmpCreated(b, n1, b, 1), last);
      Alone(y, 1, r1, TmpWritten(b, n1, b, 1), [Rename]);
      (y, Ended);
    }
  }

  // ---------------------------------------------------------------------------
  // Stores that do not overlap
  // ---------------------------------------------------------------------------

  predicate Storing(pc: Pc) {
    pc.TmpCreated? || pc.TmpWritten?
  }

  /** Nobody creates the temporary file while another is between creating and renaming it. */
  ghost predicate StoresAlone(s: System, e: Event<Request, Action>) {
    e.Call? && e.action.CreateTmp? ==> forall v | v in s.writers && v != e.writer :: !Storing(s.writers[v].pc)
  }

  ghost predicate StoresApart(s: System, events: Schedule)
    decreases |events|
  {
    events == [] || (StoresAlone(s, events[0]) && StoresApart(Next(s, events[0]), events[1..]))
  }

  predicate StoreFits(d: FlockProtocol.Disk, pc: Pc) {
    (pc.TmpCreated? ==> OwnsTmp(d, pc.tmp, "")) && (pc.TmpWritten? ==> OwnsTmp(d, pc.tmp, pc.next))
  }

  /** The update replaced what the previous one left, by the whole text that was prepared. */
  predicate LinkedAt(content: Option<string>, done: seq<Done>, k: nat)
    requires k < |done|
  {
    done[k].replaced == ContentBefore(content, done, k)
    && done[k].installed == NewContent(done[k].before, done[k].request.id)
  }

  ghost predicate Linked(content: Option<string>, x: World) {
    (forall k | 0 <= k < |x.done| :: LinkedAt(content, x.done, k))
    && Contents(x.files) == ContentBefore(content, x.done, |x.done|)
  }

  ghost predicate StoreByStore(content: Option<string>, s: System) {
    && Files(s.disk.files) && Linked(content, s.disk)
    && (forall w | w in s.writers ::
          PcChecked(s.writers[w].request, s.writers[w].pc) && StoreFits(s.disk.files, s.writers[w].pc))
    && (forall v, w | v in s.writers && w in s.writers && Storing(s.writers[v].pc) && Storing(s.writers[w].pc) ::
          v == w)
  }

  lemma StepStores(x: World, w: nat, r: Request, pc: Pc, a: Action)
    requires Files(x.files) && PcChecked(r, pc) && StoreFits(x.files, pc)
    ensures
      var (y, q) := Step(x, w, r, pc, a);
      && Files(y.files) && PcChecked(r, q) && StoreFits(y.files, q)
      && (Storing(q) && !Storing(pc) ==> a.CreateTmp?)
      && (!Storing(pc) && !a.CreateTmp? ==> y == x.(files := x.files.(lock := y.files.lock)))
  {
  }

  lemma StepLinks(content: Option<string>, x: World, w: nat, r: Request, pc: Pc, a: Action)
    requires Files(x.files) && PcChecked(r, pc) && StoreFits(x.files, pc) && Linked(content, x)
    ensures Linked(content, Step(x, w, r, pc, a).0)
  {
    var y := Step(x, w, r, pc, a).0;
    if y.done == x.done {
      assert Contents(y.files) == Contents(x.files);
    } else {
      var last := y.done[|x.done|];
      assert y.done == x.done + [last] && last.replaced == Contents(x.files);
      assert last.installed == NewContent(last.before, last.request.id) && Contents(y.files) == Some(last.installed);
      forall k | 0 <= k < |y.done| ensures LinkedAt(content, y.done, k) {
        if k < |x.done| { assert LinkedAt(content, x.done, k); }
      }
    }
  }

  lemma NextKeepsStores(content: Option<string>, s: System, e: Event<Request, Action>)
    requires StoreByStore(content, s) && StoresAlone(s, e)
    ensures StoreByStore(content, Next(s, e))
  {
    if e.Call? && e.writer in s.writers {
      var (w, t) := (e.writer, Next(s, e));
      var (r, pc) := (s.writers[w].request, s.writers[w].pc);
      assert PcChecked(r, pc) && StoreFits(s.disk.files, pc);
      StepStores(s.disk, w, r, pc, e.action);
      StepLinks(content, s.disk, w, r, pc, e.action);
      forall v | v in t.writers && v != w
        ensures PcChecked(t.writers[v].request, t.writers[v].pc) && StoreFits(t.disk.files, t.writers[v].pc)
        ensures Storing(t.writers[v].pc) ==> !Storing(t.writers[w].pc)
      {
        assert PcChecked(s.writers[v].request, s.writers[v].pc) && StoreFits(s.disk.files, s.writers[v].pc);
      }
    }
  }

  lemma {:induction false} RunKeepsStores(content: Option<string>, s: System, events: Schedule)
    requires StoreByStore(content, s) && StoresApart(s, events)
    ensures StoreByStore(content, Run(s, events))
    decreases |events|
  {
    if events != [] {
      NextKeepsStores(content, s, events[0]);
      RunKeepsStores(content, Next(s, events[0]), events[1..]);
    }
  }

  /** When stores do not overlap, every update installs the whole text it prepared, over what the
      update before it left; and the history is serial exactly when every update prepared from,
      checked and replaced one and the same content. */
  lemma ApartStoresAreSerialExactly(content: Option<string>, events: Schedule)
    requires StoresApart(Init(content), events)
    ensures
      var x := Run(Init(content), events).disk;
      && (forall k | 0 <= k < |x.done| :: x.done[k].installed == NewContent(x.done[k].before, x.done[k].request.id))
      && Contents(x.files) == ContentBefore(content, x.done, |x.done|)
      && (Serial(content, x) <==>
            forall k | 0 <= k < |x.done| :: x.done[k].before == x.done[k].checked == x.done[k].replaced)
  {
    var x := Run(Init(content), events).disk;
    RunKeepsStores(content, Init(content), events);
    forall k | 0 <= k < |x.done|
      ensures x.done[k].installed == NewContent(x.done[k].before, x.done[k].request.id)
      ensures Chained(content, x.done, k) <==> x.done[k].before == x.done[k].checked == x.done[k].replaced
    {
      assert LinkedAt(content, x.done, k);
    }
  }

  // ---------------------------------------------------------------------------
  // Callers that do not overlap
  // ---------------------------------------------------------------------------

  predicate Active(pc: Pc) {
    !pc.Ready? && !pc.Ended?
  }

  /** Nobody starts preparing while another writer is on its way. */
  ghost predicate StartsAlone(s: System, e: Event<Request, Action>) {
    e.Call? && e.action.Prepare? ==> forall v | v in s.writers && v != e.writer :: !Active(s.writers[v].pc)
  }

  ghost predicate Exclusive(s: System, events: Schedule)
    decreases |events|
  {
    events == [] || (StartsAlone(s, events[0]) && Exclusive(Next(s, events[0]), events[1..]))
  }

  predicate OwnsTmp(d: FlockProtocol.Disk, t: nat, text: string) {
    d.tmp == Some(t) && t in d.bytes && t != d.target && d.bytes[t].text == text
  }

  /** What the only writer on its way may rely on. */
  predicate Fits(d: FlockProtocol.Disk, r: Request, pc: Pc) {
    match pc
    case Ready => true
    case Ended => true
    case Prepared(b, n) => b == Contents(d) && n == NewContent(b, r.id)
    case Opened(b, n, i) => b == Contents(d) && n == NewContent(b, r.id) && i == d.target && b.Some?
    case Locked(b, n, i) => b == Contents(d) && n == NewContent(b, r.id) && i == d.target && b.Some?
    case Checked(b, n, c) => b == c == Contents(d) && n == NewContent(b, r.id)
    case TmpCreated(b, n, c, t) => b == c == Contents(d) && n == NewContent(b, r.id) && OwnsTmp(d, t, "")
    case TmpWritten(b, n, c, t) => b == c == Contents(d) && n == NewContent(b, r.id) && OwnsTmp(d, t, n)
  }

  function ContentBefore(content: Option<string>, done: seq<Done>, k: nat): Option<string>
    requires k <= |done|
  {
    if k == 0 then content else Some(done[k - 1].installed)
  }

  /** The update found what the previous one left, checked it, and built on it. */
  predicate Chained(content: Option<string>, done: seq<Done>, k: nat)
    requires k < |done|
  {
    var d := done[k];
    d.before == d.checked == d.replaced == ContentBefore(content, done, k)
    && d.installed == NewContent(d.before, d.request.id)
  }

  ghost predicate Serial(content: Option<string>, x: World) {
    (forall k | 0 <= k < |x.done| :: Chained(content, x.done, k))
    && Contents(x.files) == ContentBefore(content, x.done, |x.done|)
  }

  ghost predicate OneByOne(content: Option<string>, s: System) {
    && Files(s.disk.files) && Serial(content, s.disk)
    && (forall v, w | v in s.writers && w in s.writers && Active(s.writers[v].pc) && Active(s.writers[w].pc) :: v == w)
    && (forall w | w in s.writers ::
          Fits(s.disk.files, s.writers[w].request, s.writers[w].pc))
  }

  lemma StepFits(x: World, w: nat, r: Request, pc: Pc, a: Action)
    requires Files(x.files) && Fits(x.files, r, pc)
    ensures Files(Step(x, w, r, pc, a).0.files)
    ensures Fits(Step(x, w, r, pc, a).0.files, r, Step(x, w, r, pc, a).1)
    ensures Active(Step(x, w, r, pc, a).1) && !Active(pc) ==> a.Prepare?
  {
  }

  lemma StepChains(content: Option<string>, x: World, w: nat, r: Request, pc: Pc, a: Action)
    requires Files(x.files) && Fits(x.files, r, pc) && Serial(content, x)
    ensures Serial(content, Step(x, w, r, pc, a).0)
  {
    var y := Step(x, w, r, pc, a).0;
    var b := Contents(x.files);
    if y.done == x.done {
      assert Contents(y.files) == b;
    } else {
      var one := Done(r, b, b, b, NewContent(b, r.id));
      assert y.done == x.done + [one] && Contents(y.files) == Some(one.installed);
      forall k | 0 <= k < |y.done| ensures Chained(content, y.done, k) {
        if k < |x.done| { assert Chained(content, x.done, k); }
      }
    }
  }

  lemma NextKeepsOneByOne(content: Option<string>, s: System, e: Event<Request, Action>)
    requires OneByOne(content, s) && StartsAlone(s, e)
    ensures OneByOne(content, Next(s, e))
  {
    if e.Call? && e.writer in s.writers {
      var w := e.writer;
      var (r, pc) := (s.writers[w].request, s.writers[w].pc);
      assert Fits(s.disk.files, r, pc);
      StepFits(s.disk, w, r, pc, e.action);
      StepChains(content, s.disk, w, r, pc, e.action);
      OthersRest(content, s, e, Step(s.disk, w, r, pc, e.action));
    }
  }

  /** Either the others are inactive, or the step was one of an inactive writer. */
  lemma OthersRest(content: Option<string>, s: System, e: Event<Request, Action>, step: (World, Pc))
    requires OneByOne(content, s) && StartsAlone(s, e) && e.Call? && e.writer in s.writers
    requires step == Step(s.disk, e.writer, s.writers[e.writer].request, s.writers[e.writer].pc, e.action)
    requires Active(step.1) && !Active(s.writers[e.writer].pc) ==> e.action.Prepare?
    ensures forall v | v in s.writers && v != e.writer :: Fits(step.0.files, s.writers[v].request, s.writers[v].pc)
    ensures forall v | v in s.writers && v != e.writer && Active(s.writers[v].pc) :: !Active(step.1)
  {
    var pc := s.writers[e.writer].pc;
    assert !Active(pc) ==> step.0 == s.disk;
    forall v | v in s.writers && v != e.writer
      ensures Fits(step.0.files, s.writers[v].request, s.writers[v].pc)
    {
      assert Fits(s.disk.files, s.writers[v].request, s.writers[v].pc);
    }
  }

  /** Callers that do not overlap lose nothing: every update is checked against, built on and put
      in place of what the one before it left. */
  lemma ExclusiveRunsAreSerial(content: Option<string>, events: Schedule)
    requires Exclusive(Init(content), events)
    ensures Serial(content, Run(Init(content), events).disk)
  {
    RunKeepsOneByOne(content, Init(content), events);
  }

  lemma {:induction false} RunKeepsOneByOne(content: Option<string>, s: System, events: Schedule)
    requires OneByOne(content, s) && Exclusive(s, events)
    ensures OneByOne(content, Run(s, events))
    decreases |events|
  {
    if events != [] {
      NextKeepsOneByOne(content, s, events[0]);
      RunKeepsOneByOne(content, Next(s, events[0]), events[1..]);
    }
  }

  /** The exact condition: an update that passed its check and is then undisturbed keeps the history
      serial if and only if the text it was computed from and the text it checked are both what the
      file still holds. */
  lemma UndisturbedUpdate(s: System, w: nat)
    requires Files(s.disk.files) && w in s.writers && s.writers[w].pc.Checked?
    requires PcChecked(s.writers[w].request, s.writers[w].pc)
    ensures
      var (r, pc, held) := (s.writers[w].request, s.writers[w].pc, Contents(s.disk.files));
      var x := Run(s, Calls(w, STORE)).disk;
      && x.done == s.disk.done + [Done(r, pc.before, pc.checked, held, NewContent(pc.before, r.id))]
      && Contents(x.files) == Some(NewContent(pc.before, r.id))
      && (forall content :: Serial(content, s.disk) ==> (Serial(content, x) <==> pc.before == pc.checked == held))
  {
    var (r, pc) := (s.writers[w].request, s.writers[w].pc);
    var x := Run(s, Calls(w, STORE)).disk;
    RunCalls(Step, Ready, s, w, STORE);
    StoreAlone(s.disk, w, r, pc.before, pc.next, pc.checked);
    forall content | Serial(content, s.disk)
      ensures Serial(content, x) <==> pc.before == pc.checked == Contents(s.disk.files)
    {
      LastLink(content, s.disk, x);
    }
  }

  /** One more update keeps a serial history serial exactly if it is linked. */
  lemma LastLink(content: Option<string>, x: World, y: World)
    requires Serial(content, x) && |y.done| == |x.done| + 1 && y.done[..|x.done|] == x.done
    requires
      var last := y.done[|x.done|];
      last.replaced == Contents(x.files) && last.installed == NewContent(last.before, last.request.id)
      && Contents(y.files) == Some(last.installed)
    ensures
      var last := y.done[|x.done|];
      Serial(content, y) <==> last.before == last.checked == Contents(x.files)
  {
    var (n, last) := (|x.done|, y.done[|x.done|]);
    forall k | 0 <= k < n ensures Chained(content, y.done, k) {
      assert Chained(content, x.done, k) && y.done[k] == x.done[k] && (k > 0 ==> y.done[k - 1] == x.done[k - 1]);
    }
    assert ContentBefore(content, y.done, n) == ContentBefore(content, x.done, n) by {
      assert n > 0 ==> y.done[n - 1] == x.done[n - 1];
    }
    assert Chained(content, y.done, n) <==> last.before == last.checked == Contents(x.files);
    if last.before == last.checked == Contents(x.files) {
      forall k | 0 <= k < |y.done| ensures Chained(content, y.done, k) {}
    }
  }
}
