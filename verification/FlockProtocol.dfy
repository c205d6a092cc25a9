/** The flock/ETag write protocol on one file, system call by system call. */
module FlockProtocol {
  import opened Text
  import opened Hash
  import opened Schedules
  import opened FixedWidth

  // Any number of writers interleave. A writer opens the file, locks the inode it opened, reads
  // through the locked handle, checks the caller's ETag, transforms, snapshots, fills a temporary
  // file and renames it over the target. `open` and `flock` are two calls, and `rename` gives the
  // name a new inode that nobody has locked: a writer that opened before another's rename then
  // locks an inode the name no longer refers to.

  type Content = string

  /** What an inode holds. */
  datatype File = File(text: Content, mode: Mode)

  type Inode = nat
  type WriterId = nat

  /** What a caller asks for. A restore checks the ETag of its primary target only: on the others
      it is a writer without one. GRUB writers use one fixed temporary name, the others a name of
      their own; a new temporary file gets the given mode, or else that of the locked inode;
      `snapshots` says whether the replaced file is captured first. */
  datatype Request = Request(
    etag: Option<ETag<Content>>, transform: Content -> Option<Content>,
    sharedTemp: bool, mode: Option<Mode>, snapshots: bool)

  datatype Pc =
    | Ready
    | Opened(inode: Inode, seen: nat)
    | Locked(inode: Inode)
    | HasRead(inode: Inode, bytes: File)
    | Verified(inode: Inode, bytes: File, next: Content)
    | Captured(inode: Inode, bytes: File, next: Content)
    | TmpCreated(inode: Inode, bytes: File, next: Content, tmp: Inode)
    | TmpWritten(inode: Inode, bytes: File, next: Content, tmp: Inode)
    | Committed(inode: Inode)
    | Ended

  /** One rename over the target: the file the ETag check passed, the file that was replaced, and
      the file that was installed. */
  datatype Commit = Commit(
    writer: WriterId, request: Request, authorised: File, replaced: File, installed: File)

  datatype Snapshot = Snapshot(writer: WriterId, bytes: File)

  /** `target` and `tmp` are the inodes the two names refer to; `epoch` counts the renames. */
  datatype Disk = Disk(
    target: Inode, tmp: Option<Inode>, bytes: map<Inode, File>, lock: map<Inode, WriterId>, unused: Inode,
    epoch: nat, snapshots: seq<Snapshot>, commits: seq<Commit>)

  type System = State<Disk, Request, Pc>

  datatype Action =
    | Open | Lock | Read | Verify | Capture | CreateTmp | WriteTmp | Rename | Close
    /** Any call fails; a failing `write` may have stored the first `written` characters. */
    | Fail(written: nat)

  type Schedule = seq<Event<Request, Action>>

  function Init(content: File): System {
    State(Disk(0, None, map[0 := content], map[], 1, 0, [], []), map[])
  }

  function BytesAt(d: Disk, i: Inode): File {
    if i in d.bytes then d.bytes[i] else File("", 0)
  }

  function Current(d: Disk): File {
    BytesAt(d, d.target)
  }

  /** Writing from the start of a file that was not truncated again. */
  function Overlay(text: Content, before: Content): Content {
    if |text| >= |before| then text else text + before[|text|..]
  }

  function Prefix(text: Content, n: nat): Content {
    if n <= |text| then text[..n] else text
  }

  /** Closing the handle drops the lock taken through it. */
  function Unlock(d: Disk, w: WriterId, i: Inode): Disk {
    if i in d.lock && d.lock[i] == w then d.(lock := d.lock - {i}) else d
  }

  /** `File::create` truncates a shared temporary file that is already there. */
  function TmpInode(d: Disk, r: Request): Inode {
    if r.sharedTemp && d.tmp.Some? then d.tmp.value else d.unused
  }

  /** The temporary file for `next`; one that is already there keeps its mode. */
  function TmpFile(d: Disk, r: Request, held: File, next: Content): File {
    var t := TmpInode(d, r);
    if t in d.bytes then File(next, d.bytes[t].mode) else Made(r, held, next)
  }

  /** A new file for a request that found `held`. */
  function Made(r: Request, held: File, next: Content): File {
    File(next, if r.mode.Some? then r.mode.value else held.mode)
  }

  function CreateTmpFile(d: Disk, r: Request, held: File): Disk {
    var t := TmpInode(d, r);
    d.(bytes := d.bytes[t := TmpFile(d, r, held, "")],
       unused := if t == d.unused then t + 1 else d.unused,
       tmp := if r.sharedTemp then Some(t) else d.tmp)
  }

  function WriteTo(d: Disk, t: Inode, text: Content): Disk {
    d.(bytes := d.bytes[t := File(Overlay(text, BytesAt(d, t).text), BytesAt(d, t).mode)])
  }

  /** The rename is by name: whatever the temporary name refers to becomes the target. */
  function RenameOver(d: Disk, w: WriterId, r: Request, bytes: File, source: Inode): Disk {
    d.(target := source,
       tmp := if r.sharedTemp then None else d.tmp,
       epoch := d.epoch + 1,
       commits := d.commits + [Commit(w, r, bytes, Current(d), BytesAt(d, source))])
  }

  function Failed(d: Disk, w: WriterId, pc: Pc, written: nat): Disk {
    match pc
    case Ready => d
    case Ended => d
    case TmpCreated(i, _, n, t) => Unlock(WriteTo(d, t, Prefix(n, written)), w, i)
    case _ => Unlock(d, w, pc.inode)
  }

  /** The ETag check, which a request without an ETag does not make. */
  predicate Admits(r: Request, text: Content) {
    r.etag.Some? ==> VerifyEtag(r.etag.value, text)
  }

  /** One system call of writer `w`; one it is not ready for changes nothing. */
  function Step(d: Disk, w: WriterId, r: Request, pc: Pc, a: Action): (Disk, Pc) {
    match (a, pc)
    case (Open, Ready) => (d, Opened(d.target, d.epoch))
    case (Lock, Opened(i, _)) =>
      // non-blocking: a held lock ends the attempt
      if i in d.lock then (d, Ended) else (d.(lock := d.lock[i := w]), Locked(i))
    case (Read, Locked(i)) => (d, HasRead(i, BytesAt(d, i)))
    case (Verify, HasRead(i, b)) =>
      if Admits(r, b.text) && r.transform(b.text).Some? then (d, Verified(i, b, r.transform(b.text).value))
      else (Unlock(d, w, i), Ended)
    case (Capture, Verified(i, b, n)) =>
      (if r.snapshots then d.(snapshots := d.snapshots + [Snapshot(w, b)]) else d, Captured(i, b, n))
    case (CreateTmp, Captured(i, b, n)) => (CreateTmpFile(d, r, b), TmpCreated(i, b, n, TmpInode(d, r)))
    case (WriteTmp, TmpCreated(i, b, n, t)) => (WriteTo(d, t, n), TmpWritten(i, b, n, t))
    case (Rename, TmpWritten(i, b, n, t)) =>
      if !r.sharedTemp then (RenameOver(d, w, r, b, t), Committed(i))
      else if d.tmp.Some? then (RenameOver(d, w, r, b, d.tmp.value), Committed(i))
      else (Unlock(d, w, i), Ended)
    case (Close, Committed(i)) => (Unlock(d, w, i), Ended)
    case (Fail(k), _) => (Failed(d, w, pc, k), Ended)
    case _ => (d, pc)
  }

  function Next(s: System, e: Event<Request, Action>): System {
    Advance(Step, Ready, s, e)
  }

  function Run(s: System, events: Schedule): System {
    RunAll(Step, Ready, s, events)
  }

  // ---------------------------------------------------------------------------
  // Any interleaving: commits are authorised
  // ---------------------------------------------------------------------------

  /** The request admits `text`, and `next` is what its transformation makes of it. */
  predicate Vouched(r: Request, text: Content, next: Content) {
    Admits(r, text) && r.transform(text) == Some(next)
  }

  /** The writer took a snapshot if asked to, and none of anything but `bytes`. */
  predicate Saved(d: Disk, w: WriterId, r: Request, bytes: File) {
    (r.snapshots ==> Snapshot(w, bytes) in d.snapshots)
    && forall x | x in d.snapshots && x.writer == w :: x.bytes == bytes
  }

  predicate HasNext(pc: Pc) {
    pc.Verified? || pc.Captured? || pc.TmpCreated? || pc.TmpWritten?
  }

  predicate BeforeCapture(pc: Pc) {
    pc.Ready? || pc.Opened? || pc.Locked? || pc.HasRead? || pc.Verified?
  }

  predicate PcVouched(d: Disk, w: WriterId, r: Request, pc: Pc) {
    && (HasNext(pc) ==> Vouched(r, pc.bytes.text, pc.next))
    && (HasNext(pc) && !pc.Verified? ==> Saved(d, w, r, pc.bytes))
    && (BeforeCapture(pc) ==> forall x | x in d.snapshots :: x.writer != w)
  }

  /** The request admitted the bytes, they were captured if asked for, and nothing else was. */
  predicate CommitVouched(d: Disk, c: Commit) {
    Admits(c.request, c.authorised.text) && c.request.transform(c.authorised.text).Some?
    && Saved(d, c.writer, c.request, c.authorised)
  }

  ghost predicate AllVouched(s: System) {
    (forall w | w in s.writers :: PcVouched(s.disk, w, s.writers[w].request, s.writers[w].pc))
    && (forall k | 0 <= k < |s.disk.commits| :: CommitVouched(s.disk, s.disk.commits[k]))
    && (forall k | 0 <= k < |s.disk.commits| :: Finished(s, s.disk.commits[k].writer))
    && (forall x | x in s.disk.snapshots :: x.writer in s.writers)
  }

  /** A writer that has committed makes no further snapshot. */
  predicate Finished(s: System, w: WriterId) {
    w in s.writers && (s.writers[w].pc.Committed? || s.writers[w].pc.Ended?)
  }

  /** `c` extends `d` by at most one snapshot or one commit, of writer `w`. */
  ghost predicate Grows(d: Disk, w: WriterId, c: Disk) {
    (c.snapshots == d.snapshots || exists b :: c.snapshots == d.snapshots + [Snapshot(w, b)])
    && (c.commits == d.commits || exists k: Commit :: k.writer == w && c.commits == d.commits + [k])
  }

  lemma StepGrows(d: Disk, w: WriterId, r: Request, pc: Pc, a: Action, c: Disk, q: Pc)
    requires (c, q) == Step(d, w, r, pc, a)
    ensures Grows(d, w, c)
    ensures c.commits != d.commits ==> q.Committed?
    ensures c.snapshots != d.snapshots ==> BeforeCapture(pc)
    ensures pc.Committed? || pc.Ended? ==> q == pc || q.Ended?
  {
  }

  lemma StepVouches(d: Disk, w: WriterId, r: Request, pc: Pc, a: Action, c: Disk, q: Pc)
    requires (c, q) == Step(d, w, r, pc, a) && PcVouched(d, w, r, pc)
    ensures PcVouched(c, w, r, q)
    ensures |c.commits| > |d.commits| ==> CommitVouched(c, c.commits[|d.commits|])
  {
  }

  /** What one writer adds does not concern the others. */
  lemma OthersVouched(d: Disk, w: WriterId, c: Disk, v: WriterId, r: Request, pc: Pc)
    requires Grows(d, w, c) && v != w && PcVouched(d, v, r, pc)
    ensures PcVouched(c, v, r, pc)
  {
    forall x | x in c.snapshots && x.writer == v ensures x in d.snapshots {}
  }

  lemma CommitStaysVouched(d: Disk, w: WriterId, c: Disk, k: nat)
    requires Grows(d, w, c) && k < |d.commits| && CommitVouched(d, d.commits[k])
    requires d.commits[k].writer == w ==> c.snapshots == d.snapshots
    ensures k < |c.commits| && c.commits[k] == d.commits[k] && CommitVouched(c, c.commits[k])
  {
  }

  lemma NextKeepsVouched(s: System, e: Event<Request, Action>, t: System)
    requires AllVouched(s) && t == Next(s, e)
    ensures AllVouched(t)
  {
    if e.Call? && e.writer in s.writers {
      var (w, d, c) := (e.writer, s.disk, t.disk);
      var (r, pc, q) := (s.writers[w].request, s.writers[w].pc, t.writers[w].pc);
      StepGrows(d, w, r, pc, e.action, c, q);
      StepVouches(d, w, r, pc, e.action, c, q);
      forall v | v in t.writers ensures PcVouched(c, v, t.writers[v].request, t.writers[v].pc) {
        if v != w { OthersVouched(d, w, c, v, s.writers[v].request, s.writers[v].pc); }
      }
      forall k | 0 <= k < |c.commits| ensures CommitVouched(c, c.commits[k]) && Finished(t, c.commits[k].writer) {
        if k < |d.commits| {
          assert CommitVouched(d, d.commits[k]) && Finished(s, d.commits[k].writer);
          CommitStaysVouched(d, w, c, k);
        }
      }
    }
  }

  lemma {:induction false} RunKeepsVouched(s: System, events: Schedule)
    requires AllVouched(s)
    ensures AllVouched(Run(s, events))
    decreases |events|
  {
    if events != [] {
      var t := Next(s, events[0]);
      NextKeepsVouched(s, events[0], t);
      RunKeepsVouched(t, events[1..]);
    }
  }

  lemma CommitsAreAccepted(content: File, events: Schedule, k: nat)
    requires k < |Run(Init(content), events).disk.commits|
    ensures
      var c := Run(Init(content), events).disk.commits[k];
      Admits(c.request, c.authorised.text) && c.request.transform(c.authorised.text).Some?
  {
    RunKeepsVouched(Init(content), events);
    assert CommitVouched(Run(Init(content), events).disk, Run(Init(content), events).disk.commits[k]);
  }

  // ---------------------------------------------------------------------------
  // Runs without a rename between open and lock
  // ---------------------------------------------------------------------------

  /** A lock that succeeds is taken with no rename since the writer's `open`. */
  predicate LocksInTime(d: Disk, pc: Pc, a: Action) {
    a.Lock? && pc.Opened? && pc.inode !in d.lock ==> pc.seen == d.epoch
  }

  predicate EventInTime(s: System, e: Event<Request, Action>) {
    e.Call? && e.writer in s.writers ==> LocksInTime(s.disk, s.writers[e.writer].pc, e.action)
  }

  predicate GapFree(s: System, events: Schedule)
    decreases |events|
  {
    events == [] || (EventInTime(s, events[0]) && GapFree(Next(s, events[0]), events[1..]))
  }

  predicate Files(d: Disk) {
    d.target in d.bytes
    && (forall i | i in d.bytes :: i < d.unused)
    && (d.tmp.Some? ==> d.tmp.value in d.bytes && d.tmp.value != d.target)
  }

  /** The writer is between its lock and its rename. */
  predicate Critical(pc: Pc) {
    pc.Locked? || pc.HasRead? || HasNext(pc)
  }

  /** The writer owns its temporary file, which holds `text`. */
  predicate OwnsTmp(d: Disk, r: Request, t: Inode, text: Content) {
    t in d.bytes && t != d.target && d.bytes[t].text == text && (r.sharedTemp <==> d.tmp == Some(t))
  }

  /** What a writer that locked in time may rely on. */
  predicate PcInTime(d: Disk, w: WriterId, r: Request, pc: Pc) {
    && (pc.Opened? ==> pc.seen <= d.epoch && (pc.seen == d.epoch ==> pc.inode == d.target))
    && (Critical(pc) ==> pc.inode == d.target && d.target in d.lock && d.lock[d.target] == w)
    && (Critical(pc) && !pc.Locked? ==> pc.bytes == Current(d))
    && (pc.TmpCreated? ==> OwnsTmp(d, r, pc.tmp, ""))
    && (pc.TmpWritten? ==> OwnsTmp(d, r, pc.tmp, pc.next))
  }

  /** The content the `k`-th commit found. */
  function ContentBefore(content: File, commits: seq<Commit>, k: nat): File
    requires k <= |commits|
  {
    if k == 0 then content else commits[k - 1].installed
  }

  /** Commit `k` continues the chain: it replaced the bytes its ETag vouched for, which are
      those the previous commit left, by its caller's transformation of them. */
  predicate Chained(content: File, commits: seq<Commit>, k: nat)
    requires k < |commits|
  {
    commits[k].authorised == commits[k].replaced == ContentBefore(content, commits, k)
    && Vouched(commits[k].request, commits[k].replaced.text, commits[k].installed.text)
  }

  ghost predicate Serial(content: File, d: Disk) {
    (forall k | 0 <= k < |d.commits| :: Chained(content, d.commits, k))
    && Current(d) == ContentBefore(content, d.commits, |d.commits|)
  }

  ghost predicate InTime(content: File, s: System) {
    Files(s.disk) && AllVouched(s) && Serial(content, s.disk)
    && (forall w | w in s.writers :: PcInTime(s.disk, w, s.writers[w].request, s.writers[w].pc))
  }

  /** The writer's own state stays in time, and so do the files. */
  lemma OwnStep(d: Disk, w: WriterId, r: Request, pc: Pc, a: Action, c: Disk, q: Pc)
    requires (c, q) == Step(d, w, r, pc, a) && LocksInTime(d, pc, a)
    requires Files(d) && PcInTime(d, w, r, pc)
    ensures Files(c) && PcInTime(c, w, r, q)
  {
  }

  /** What a step leaves alone: everything but the lock of `w` when `w` is not critical; the
      target and its content, unless it renames. */
  lemma StepFrame(d: Disk, w: WriterId, r: Request, pc: Pc, a: Action, c: Disk, q: Pc)
    requires (c, q) == Step(d, w, r, pc, a)
    requires Files(d) && PcInTime(d, w, r, pc)
    ensures forall i | i in d.lock && d.lock[i] != w :: i in c.lock && c.lock[i] == d.lock[i]
    ensures !Critical(pc) ==> c == d.(lock := c.lock)
    ensures c.epoch == d.epoch ==> c.target == d.target && Current(c) == Current(d) && c.commits == d.commits
    ensures d.epoch <= c.epoch
  {
  }

  lemma OtherStep(
    d: Disk, w: WriterId, r: Request, pc: Pc, a: Action, c: Disk, q: Pc, v: WriterId, vr: Request, vpc: Pc)
    requires (c, q) == Step(d, w, r, pc, a)
    requires Files(d) && PcInTime(d, w, r, pc) && PcInTime(d, v, vr, vpc) && v != w
    ensures PcInTime(c, v, vr, vpc)
  {
    StepFrame(d, w, r, pc, a, c, q);
    OthersUnaffected(d, w, r, pc, c, v, vr, vpc);
  }

  lemma OthersUnaffected(d: Disk, w: WriterId, r: Request, pc: Pc, c: Disk, v: WriterId, vr: Request, vpc: Pc)
    requires PcInTime(d, w, r, pc) && PcInTime(d, v, vr, vpc) && v != w
    requires forall i | i in d.lock && d.lock[i] != w :: i in c.lock && c.lock[i] == d.lock[i]
    requires !Critical(pc) ==> c == d.(lock := c.lock)
    requires c.epoch == d.epoch ==> c.target == d.target
    requires d.epoch <= c.epoch
    ensures PcInTime(c, v, vr, vpc)
  {
  }

  /** A rename continues the chain. */
  lemma StepKeepsSerial(content: File, d: Disk, w: WriterId, r: Request, pc: Pc, a: Action, c: Disk, q: Pc)
    requires (c, q) == Step(d, w, r, pc, a)
    requires Files(d) && PcInTime(d, w, r, pc) && PcVouched(d, w, r, pc) && Serial(content, d)
    ensures Serial(content, c)
  {
    StepFrame(d, w, r, pc, a, c, q);
    if c.epoch != d.epoch {
      assert a.Rename? && pc.TmpWritten?;
      assert c.commits == d.commits + [Commit(w, r, Current(d), Current(d), Current(c))] && Current(c).text == pc.next;
      SerialExtends(content, d, c, w, r);
    }
  }

  lemma SerialExtends(content: File, d: Disk, c: Disk, w: WriterId, r: Request)
    requires Serial(content, d)
    requires c.commits == d.commits + [Commit(w, r, Current(d), Current(d), Current(c))]
    requires Vouched(r, Current(d).text, Current(c).text)
    ensures Serial(content, c)
  {
    forall k | 0 <= k < |c.commits| ensures Chained(content, c.commits, k) {
      if k < |d.commits| { assert Chained(content, d.commits, k); }
    }
  }

  lemma NextKeepsInTime(content: File, s: System, e: Event<Request, Action>, t: System)
    requires InTime(content, s) && EventInTime(s, e) && t == Next(s, e)
    ensures InTime(content, t)
  {
    NextKeepsVouched(s, e, t);
    if e.Call? && e.writer in s.writers {
      var w := e.writer;
      var (r, pc, c, q) := (s.writers[w].request, s.writers[w].pc, t.disk, t.writers[w].pc);
      assert PcInTime(s.disk, w, r, pc) && PcVouched(s.disk, w, r, pc);
      OwnStep(s.disk, w, r, pc, e.action, c, q);
      StepKeepsSerial(content, s.disk, w, r, pc, e.action, c, q);
      forall v | v in t.writers ensures PcInTime(c, v, t.writers[v].request, t.writers[v].pc) {
        if v != w {
          OtherStep(s.disk, w, r, pc, e.action, c, q, v, s.writers[v].request, s.writers[v].pc);
        }
      }
    }
  }

  lemma {:induction false} RunKeepsInTime(content: File, s: System, events: Schedule)
    requires InTime(content, s) && GapFree(s, events)
    ensures InTime(content, Run(s, events))
    decreases |events|
  {
    if events != [] {
      var t := Next(s, events[0]);
      NextKeepsInTime(content, s, events[0], t);
      RunKeepsInTime(content, t, events[1..]);
    }
  }

  /** When no rename falls between a successful lock and its `open`, the history is serial: every
      commit replaces exactly the bytes its ETag vouched for by their transformation, and the
      file always holds one whole version. */
  lemma GapFreeRunsAreSerial(content: File, events: Schedule)
    requires GapFree(Init(content), events)
    ensures InTime(content, Run(Init(content), events))
    ensures Serial(content, Run(Init(content), events).disk)
  {
    RunKeepsInTime(content, Init(content), events);
  }

  /** In such a run at most one writer at a time is between its lock and its rename. */
  lemma MutualExclusion(content: File, events: Schedule, v: WriterId, w: WriterId)
    requires GapFree(Init(content), events)
    requires
      var s := Run(Init(content), events);
      v in s.writers && w in s.writers && Critical(s.writers[v].pc) && Critical(s.writers[w].pc)
    ensures v == w
  {
    var s := Run(Init(content), events);
    GapFreeRunsAreSerial(content, events);
    assert PcInTime(s.disk, v, s.writers[v].request, s.writers[v].pc);
    assert PcInTime(s.disk, w, s.writers[w].request, s.writers[w].pc);
  }

  /** What undoing a commit needs: in such a run the snapshot of its writer holds exactly the bytes
      the commit replaced. */
  lemma SnapshotHoldsReplaced(content: File, events: Schedule, k: nat)
    requires GapFree(Init(content), events)
    requires k < |Run(Init(content), events).disk.commits|
    ensures
      var d := Run(Init(content), events).disk;
      var c := d.commits[k];
      && (c.request.snapshots ==> Snapshot(c.writer, c.replaced) in d.snapshots)
      && (forall x | x in d.snapshots && x.writer == c.writer :: x.bytes == c.replaced)
  {
    RunKeepsVouched(Init(content), events);
    GapFreeRunsAreSerial(content, events);
    assert CommitVouched(Run(Init(content), events).disk, Run(Init(content), events).disk.commits[k]);
    assert Chained(content, Run(Init(content), events).disk.commits, k);
  }

  /** Of two commits with the same ETag the later one found the bytes the earlier one found; if
      they are adjacent, the earlier one left the file as it was. */
  lemma NoLostUpdate(content: File, events: Schedule, i: nat, j: nat)
    requires GapFree(Init(content), events)
    requires i < j < |Run(Init(content), events).disk.commits|
    requires
      var commits := Run(Init(content), events).disk.commits;
      commits[i].request.etag == commits[j].request.etag && commits[i].request.etag.Some?
    ensures
      var commits := Run(Init(content), events).disk.commits;
      commits[i].replaced.text == commits[j].replaced.text && commits[j].replaced == commits[j - 1].installed
  {
    GapFreeRunsAreSerial(content, events);
    var commits := Run(Init(content), events).disk.commits;
    assert Chained(content, commits, i) && Chained(content, commits, j);
  }
}
