/** Runs of the write protocol: one undisturbed writer, and what a gap costs. */
module FlockTraces {
  import opened Text
  import opened Hash
  import opened Schedules
  import opened FlockProtocol
  import opened FlockOwnNames

  const CHECK: seq<Action> := [Lock, Read, Verify]
  const STORE: seq<Action> := [Capture, CreateTmp, WriteTmp]
  const FILL: seq<Action> := CHECK + STORE
  const FINISH: seq<Action> := FILL + [Rename, Close]

  function Alone(d: Disk, w: WriterId, r: Request, pc: Pc, actions: seq<Action>): (Disk, Pc) {
    Solo(Step, d, w, r, pc, actions)
  }

  lemma CheckAlone(d: Disk, w: WriterId, r: Request, i: Inode, seen: nat, next: Content)
    requires i !in d.lock && Vouched(r, BytesAt(d, i).text, next)
    ensures Alone(d, w, r, Opened(i, seen), CHECK)
      == (d.(lock := d.lock[i := w]), Verified(i, BytesAt(d, i), next))
  {
    var b := BytesAt(d, i);
    var d1 := d.(lock := d.lock[i := w]);
    assert CHECK[1..] == [Read, Verify];
    calc {
      Alone(d, w, r, Opened(i, seen), CHECK);
      Alone(d1, w, r, Locked(i), [Read, Verify]);
      Alone(d1, w, r, HasRead(i, b), [Verify]);
      (d1, Verified(i, b, next));
    }
  }

  /** The disk once writer `r` has captured `b` and filled its temporary file. */
  function Stored(d: Disk, w: WriterId, r: Request, b: File, next: Content): Disk {
    var t := TmpInode(d, r);
    d.(snapshots := if r.snapshots then d.snapshots + [Snapshot(w, b)] else d.snapshots,
       tmp := if r.sharedTemp then Some(t) else d.tmp,
       bytes := d.bytes[t := TmpFile(d, r, b, next)],
       unused := if t == d.unused then t + 1 else d.unused)
  }

  lemma StoreAlone(d: Disk, w: WriterId, r: Request, i: Inode, b: File, next: Content)
    ensures Alone(d, w, r, Verified(i, b, next), STORE)
      == (Stored(d, w, r, b, next), TmpWritten(i, b, next, TmpInode(d, r)))
  {
    var d2 := if r.snapshots then d.(snapshots := d.snapshots + [Snapshot(w, b)]) else d;
    var d3 := CreateTmpFile(d2, r, b);
    var t := TmpInode(d, r);
    assert WriteTo(d3, t, next).bytes == d.bytes[t := TmpFile(d, r, b, next)];
    assert STORE[1..] == [CreateTmp, WriteTmp];
    calc {
      Alone(d, w, r, Verified(i, b, next), STORE);
      Alone(d2, w, r, Captured(i, b, next), [CreateTmp, WriteTmp]);
      Alone(d3, w, r, TmpCreated(i, b, next, t), [WriteTmp]);
      (WriteTo(d3, t, next), TmpWritten(i, b, next, t));
    }
  }

  /** From `open` to a filled temporary file. */
  lemma FillAlone(d: Disk, w: WriterId, r: Request, i: Inode, seen: nat, next: Content)
    requires i !in d.lock && Vouched(r, BytesAt(d, i).text, next)
    ensures
      var locked := d.(lock := d.lock[i := w]);
      Alone(d, w, r, Opened(i, seen), FILL)
      == (Stored(locked, w, r, BytesAt(d, i), next), TmpWritten(i, BytesAt(d, i), next, TmpInode(d, r)))
  {
    CheckAlone(d, w, r, i, seen, next);
    AloneAppend(Step, d, w, r, Opened(i, seen), CHECK, STORE);
    StoreAlone(d.(lock := d.lock[i := w]), w, r, i, BytesAt(d, i), next);
  }

  /** The disk once the temporary file has been renamed over the target. */
  function Replaced(d: Disk, w: WriterId, r: Request, b: File, next: Content): Disk {
    Stored(d, w, r, b, next).(
      target := TmpInode(d, r),
      tmp := if r.sharedTemp then None else d.tmp,
      epoch := d.epoch + 1,
      commits := d.commits + [Commit(w, r, b, Current(d), TmpFile(d, r, b, next))])
  }

  /** An undisturbed writer that opened inode `i` replaces the current content by the
      transformation of what inode `i` holds, and leaves no lock behind. */
  lemma FinishAlone(d: Disk, w: WriterId, r: Request, i: Inode, seen: nat, next: Content)
    requires Files(d) && i !in d.lock && Vouched(r, BytesAt(d, i).text, next)
    ensures Alone(d, w, r, Opened(i, seen), FINISH) == (Replaced(d, w, r, BytesAt(d, i), next), Ended)
  {
    var b := BytesAt(d, i);
    var t := TmpInode(d, r);
    var mid := Stored(d.(lock := d.lock[i := w]), w, r, b, next);
    FillAlone(d, w, r, i, seen, next);
    AloneAppend(Step, d, w, r, Opened(i, seen), FILL, [Rename, Close]);
    StoredRenames(d, w, r, i, b, next, mid);
    calc {
      Alone(mid, w, r, TmpWritten(i, b, next, t), [Rename, Close]);
      Alone(RenameOver(mid, w, r, b, t), w, r, Committed(i), [Close]);
      (Unlock(RenameOver(mid, w, r, b, t), w, i), Ended);
    }
  }

  lemma StoredRenames(d: Disk, w: WriterId, r: Request, i: Inode, b: File, next: Content, mid: Disk)
    requires Files(d) && i !in d.lock
    requires mid == Stored(d.(lock := d.lock[i := w]), w, r, b, next)
    ensures Unlock(RenameOver(mid, w, r, b, TmpInode(d, r)), w, i) == Replaced(d, w, r, b, next)
    ensures r.sharedTemp ==> mid.tmp == Some(TmpInode(d, r))
  {
    assert Current(mid) == Current(d) && BytesAt(mid, TmpInode(d, r)) == TmpFile(d, r, b, next);
    assert d.lock[i := w] - {i} == d.lock;
  }

  /** A writer that runs from `open` to the end undisturbed commits, with a snapshot of the bytes
      its ETag vouched for; the history stays serial exactly when the inode it opened still
      holds the current content. */
  lemma UndisturbedWriterCommits(s: System, w: WriterId, next: Content)
    requires Files(s.disk) && w in s.writers && s.writers[w].pc.Opened?
    requires
      var i := s.writers[w].pc.inode;
      i !in s.disk.lock && Vouched(s.writers[w].request, BytesAt(s.disk, i).text, next)
    ensures
      var r := s.writers[w].request;
      var held := BytesAt(s.disk, s.writers[w].pc.inode);
      var t := Run(s, Calls(w, FINISH)).disk;
      && t.commits == s.disk.commits + [Commit(w, r, held, Current(s.disk), Current(t))]
      && Current(t) == TmpFile(s.disk, r, held, next)
      && (r.snapshots ==> t.snapshots == s.disk.snapshots + [Snapshot(w, held)])
      && (forall content :: Serial(content, s.disk) ==> (Serial(content, t) <==> held == Current(s.disk)))
  {
    var r := s.writers[w].request;
    var i := s.writers[w].pc.inode;
    var t := Run(s, Calls(w, FINISH)).disk;
    RunCalls(Step, Ready, s, w, FINISH);
    FinishAlone(s.disk, w, r, i, s.writers[w].pc.seen, next);
    forall content | Serial(content, s.disk)
      ensures Serial(content, t) <==> BytesAt(s.disk, i) == Current(s.disk)
    {
      if BytesAt(s.disk, i) == Current(s.disk) {
        SerialExtends(content, s.disk, t, w, r);
      } else {
        assert !Chained(content, t.commits, |s.disk.commits|);
      }
    }
  }

  lemma {:induction false} EndedStays(d: Disk, w: WriterId, r: Request, actions: seq<Action>)
    ensures Alone(d, w, r, Ended, actions) == (d, Ended)
    decreases |actions|
  {
    if actions != [] { EndedStays(d, w, r, actions[1..]); }
  }

  lemma RejectedAlone(d: Disk, w: WriterId, r: Request, i: Inode, seen: nat)
    requires i !in d.lock && !(Admits(r, BytesAt(d, i).text) && r.transform(BytesAt(d, i).text).Some?)
    ensures Alone(d, w, r, Opened(i, seen), FINISH) == (d, Ended)
  {
    var d1 := d.(lock := d.lock[i := w]);
    var rest := STORE + [Rename, Close];
    assert FINISH == CHECK + rest;
    assert CHECK[1..] == [Read, Verify];
    calc {
      Alone(d, w, r, Opened(i, seen), CHECK);
      Alone(d1, w, r, Locked(i), [Read, Verify]);
      Alone(d1, w, r, HasRead(i, BytesAt(d, i)), [Verify]);
      (Unlock(d1, w, i), Ended);
    }
    assert d.lock[i := w] - {i} == d.lock;
    AloneAppend(Step, d, w, r, Opened(i, seen), CHECK, rest);
    EndedStays(d, w, r, rest);
  }

  /** Which undisturbed writers commit: those whose ETag is that of the inode they opened, or that
      have none, and whose transformation accepts it. So without an ETag a commit may replace
      content its caller has never seen; the others change nothing when they are refused. */
  lemma CommitsExactly(s: System, w: WriterId)
    requires Files(s.disk) && w in s.writers && s.writers[w].pc.Opened? && s.writers[w].pc.inode !in s.disk.lock
    ensures
      var r := s.writers[w].request;
      var held := BytesAt(s.disk, s.writers[w].pc.inode);
      var t := Run(s, Calls(w, FINISH)).disk;
      && (t.commits != s.disk.commits <==>
            (r.etag.None? || r.etag.value == Digest(held.text)) && r.transform(held.text).Some?)
      && (t.commits == s.disk.commits ==> t == s.disk)
  {
    var (r, i, seen) := (s.writers[w].request, s.writers[w].pc.inode, s.writers[w].pc.seen);
    var held := BytesAt(s.disk, i);
    RunCalls(Step, Ready, s, w, FINISH);
    if Admits(r, held.text) && r.transform(held.text).Some? {
      FinishAlone(s.disk, w, r, i, seen, r.transform(held.text).value);
    } else {
      RejectedAlone(s.disk, w, r, i, seen);
    }
  }

  // ---------------------------------------------------------------------------
  // What a gap costs
  // ---------------------------------------------------------------------------

  /** Two writers open the same file before either commits. */
  function BothOpened(content: File, r0: Request, r1: Request): System {
    Init(content).(writers := map[0 := Writer(r0, Opened(0, 0)), 1 := Writer(r1, Opened(0, 0))])
  }

  function OpenBoth(r0: Request, r1: Request): Schedule {
    [Start(0, r0), Start(1, r1), Call(0, Open), Call(1, Open)]
  }

  lemma OpenBothReaches(content: File, r0: Request, r1: Request)
    ensures Run(Init(content), OpenBoth(r0, r1)) == BothOpened(content, r0, r1)
  {
    var s := Init(content);
    var s1 := Next(s, Start(0, r0));
    var s2 := Next(s1, Start(1, r1));
    var s3 := Next(s2, Call(0, Open));
    var s4 := Next(s3, Call(1, Open));
    assert s4 == BothOpened(content, r0, r1);
    var opens: Schedule := [Call(0, Open), Call(1, Open)];
    var last: Schedule := [Call(1, Open)];
    assert OpenBoth(r0, r1)[1..][1..] == opens && opens[1..] == last && last[1..] == [];
    calc {
      Run(s, OpenBoth(r0, r1));
      Run(s1, OpenBoth(r0, r1)[1..]);
      Run(s2, opens);
      Run(s3, last);
      Run(s4, []);
    }
  }

  /** The disk after the second writer finished: its content sits in a new inode, the first
      writer still has the old one open. */
  lemma SecondFinished(content: File, r0: Request, r1: Request, n1: Content) returns (s: System)
    requires Vouched(r1, content.text, n1)
    ensures s == Run(Run(Init(content), OpenBoth(r0, r1)), Calls(1, FINISH))
    ensures s.writers == map[0 := Writer(r0, Opened(0, 0)), 1 := Writer(r1, Ended)]
    ensures Files(s.disk) && s.disk.lock == map[] && s.disk.epoch == 1 && s.disk.tmp == None && s.disk.unused == 2
    ensures s.disk.target == 1 && s.disk.bytes == map[0 := content, 1 := Made(r1, content, n1)]
    ensures s.disk.commits == [Commit(1, r1, content, content, Made(r1, content, n1))]
  {
    var s0 := BothOpened(content, r0, r1);
    OpenBothReaches(content, r0, r1);
    RunCalls(Step, Ready, s0, 1, FINISH);
    FinishAlone(s0.disk, 1, r1, 0, 0, n1);
    s := Run(s0, Calls(1, FINISH));
  }

  /** The gap loses updates: whatever two callers ask for on the same ETag, some interleaving
      lets both commit, the later one over content its ETag never vouched for. */
  lemma StaleWriterOverwrites(content: File, r0: Request, n0: Content, r1: Request, n1: Content)
    requires Vouched(r0, content.text, n0) && Vouched(r1, content.text, n1)
    ensures
      var (f0, f1) := (Made(r0, content, n0), Made(r1, content, n1));
      Run(Init(content), OpenBoth(r0, r1) + Calls(1, FINISH) + Calls(0, FINISH)).disk.commits
      == [Commit(1, r1, content, content, f1), Commit(0, r0, content, f1, f0)]
  {
    var s := SecondFinished(content, r0, r1, n1);
    RunAppend(Step, Ready, Init(content), OpenBoth(r0, r1), Calls(1, FINISH));
    RunAppend(Step, Ready, Init(content), OpenBoth(r0, r1) + Calls(1, FINISH), Calls(0, FINISH));
    RunCalls(Step, Ready, s, 0, FINISH);
    FinishAlone(s.disk, 0, r0, 0, 0, n0);
  }

  lemma RunOne(s: System, e: Event<Request, Action>)
    ensures Run(s, [e]) == Next(s, e)
  {
    assert Run(Next(s, e), [e][1..]) == Next(s, e);
  }

  /** The schedule up to the point where a third writer, which opens after the second finished,
      has filled its temporary file. */
  function ThirdOpens(r0: Request, r1: Request, r2: Request): Schedule {
    OpenBoth(r0, r1) + Calls(1, FINISH) + [Start(2, r2), Call(2, Open)]
  }

  function ThirdFills(r0: Request, r1: Request, r2: Request): Schedule {
    ThirdOpens(r0, r1, r2) + Calls(2, FILL)
  }

  /** Nobody holds a lock then: writer 0 has the old inode open, writer 2 the new one. */
  lemma ThirdReady(content: File, r0: Request, r1: Request, n1: Content, r2: Request) returns (s: System)
    requires Vouched(r1, content.text, n1)
    ensures s == Run(Init(content), ThirdOpens(r0, r1, r2))
    ensures s.writers
      == map[0 := Writer(r0, Opened(0, 0)), 1 := Writer(r1, Ended), 2 := Writer(r2, Opened(1, 1))]
    ensures Files(s.disk) && s.disk.lock == map[] && s.disk.epoch == 1 && s.disk.tmp == None && s.disk.unused == 2
    ensures s.disk.target == 1 && s.disk.bytes == map[0 := content, 1 := Made(r1, content, n1)]
    ensures s.disk.commits == [Commit(1, r1, content, content, Made(r1, content, n1))]
  {
    var s1 := SecondFinished(content, r0, r1, n1);
    RunAppend(Step, Ready, Init(content), OpenBoth(r0, r1), Calls(1, FINISH));
    RunAppend(Step, Ready, Init(content), OpenBoth(r0, r1) + Calls(1, FINISH), [Start(2, r2), Call(2, Open)]);
    s := ThirdOpened(s1, r2);
  }

  lemma ThirdFilled(content: File, r0: Request, r1: Request, n1: Content, r2: Request, n2: Content)
    returns (s: System, t: System)
    requires Vouched(r1, content.text, n1) && Vouched(r2, n1, n2)
    ensures s == Run(Init(content), ThirdOpens(r0, r1, r2)) && t == Run(Init(content), ThirdFills(r0, r1, r2))
    ensures EventInTime(s, Call(2, Lock)) && s.writers.Keys == t.writers.Keys == {0, 1, 2}
    ensures t.writers[0] == Writer(r0, Opened(0, 0))
    ensures t.writers[2] == Writer(r2, TmpWritten(1, Made(r1, content, n1), n2, 2))
    ensures Files(t.disk) && t.disk.lock == map[1 := 2] && t.disk.target == 1
    ensures
      var f1 := Made(r1, content, n1);
      t.disk.bytes == map[0 := content, 1 := f1, 2 := Made(r2, f1, n2)] && t.disk.unused == 3
    ensures t.disk.tmp == (if r2.sharedTemp then Some(2) else None)
    ensures t.disk.commits == [Commit(1, r1, content, content, Made(r1, content, n1))]
  {
    s := ThirdReady(content, r0, r1, n1, r2);
    RunAppend(Step, Ready, Init(content), ThirdOpens(r0, r1, r2), Calls(2, FILL));
    RunCalls(Step, Ready, s, 2, FILL);
    FillAlone(s.disk, 2, r2, 1, 1, n2);
    t := Run(s, Calls(2, FILL));
  }

  lemma ThirdOpened(s: System, r: Request) returns (t: System)
    requires 2 !in s.writers
    ensures t == Run(s, [Start(2, r), Call(2, Open)])
    ensures t == s.(writers := s.writers[2 := Writer(r, Opened(s.disk.target, s.disk.epoch))])
  {
    var begin := Start(2, r);
    RunAppend(Step, Ready, s, [begin], [Call(2, Open)]);
    RunOne(s, begin);
    RunOne(Next(s, begin), Call(2, Open));
    assert [begin] + [Call(2, Open)] == [begin, Call(2, Open)];
    t := Next(Next(s, begin), Call(2, Open));
  }

  /** Locking in time does not protect a writer from the others' gaps: writer 2 locks in time, and
      still overwrites what writer 0, which locked late, committed in the meantime. */
  lemma InTimeWriterOverwrites(
    content: File, r0: Request, n0: Content, r1: Request, n1: Content, r2: Request, n2: Content)
    requires Vouched(r0, content.text, n0) && Vouched(r1, content.text, n1) && Vouched(r2, n1, n2) && !r2.sharedTemp
    ensures EventInTime(Run(Init(content), ThirdOpens(r0, r1, r2)), Call(2, Lock))
    ensures
      var (f0, f1) := (Made(r0, content, n0), Made(r1, content, n1));
      var f2 := Made(r2, f1, n2);
      Run(Init(content), ThirdFills(r0, r1, r2) + Calls(0, FINISH) + [Call(2, Rename)]).disk.commits
      == [Commit(1, r1, content, content, f1), Commit(0, r0, content, f1, f0), Commit(2, r2, f1, f0, f2)]
  {
    var s, t := ThirdFilled(content, r0, r1, n1, r2, n2);
    RunAppend(Step, Ready, Init(content), ThirdFills(r0, r1, r2), Calls(0, FINISH));
    RunCalls(Step, Ready, t, 0, FINISH);
    FinishAlone(t.disk, 0, r0, 0, 0, n0);
    var u := Run(t, Calls(0, FINISH));
    assert u.writers[2] == t.writers[2] && BytesAt(u.disk, 2) == t.disk.bytes[2];
    RunAppend(Step, Ready, Init(content), ThirdFills(r0, r1, r2) + Calls(0, FINISH), [Call(2, Rename)]);
    RunOne(u, Call(2, Rename));
  }

  /** With the fixed temporary name, another's gap can even tear the file: writer 0, which locked
      late, truncates the temporary file that writer 2, which locked in time, then installs. */
  lemma GapTearsTheFile(
    content: File, r0: Request, n0: Content, r1: Request, n1: Content, r2: Request, n2: Content)
    requires Vouched(r0, content.text, n0) && Vouched(r1, content.text, n1) && Vouched(r2, n1, n2)
    requires r0.sharedTemp && r2.sharedTemp
    ensures EventInTime(Run(Init(content), ThirdOpens(r0, r1, r2)), Call(2, Lock))
    ensures
      Current(Run(Init(content), ThirdFills(r0, r1, r2) + Calls(0, CREATE) + [Call(2, Rename)]).disk).text == ""
  {
    var s, t := ThirdFilled(content, r0, r1, n1, r2, n2);
    RunAppend(Step, Ready, Init(content), ThirdFills(r0, r1, r2), Calls(0, CREATE));
    RunCalls(Step, Ready, t, 0, CREATE);
    var u := Run(t, Calls(0, CREATE));
    CreateAlone(t.disk, 0, r0, 0, 0, n0);
    assert u.writers[2] == t.writers[2] && u.disk.tmp == Some(2) && BytesAt(u.disk, 2).text == "";
    RunAppend(Step, Ready, Init(content), ThirdFills(r0, r1, r2) + Calls(0, CREATE), [Call(2, Rename)]);
    RunOne(u, Call(2, Rename));
  }

  /** Or install another's text: here writer 0 writes the temporary file as well. */
  lemma GapInstallsAnothersText(
    content: File, r0: Request, n0: Content, r1: Request, n1: Content, r2: Request, n2: Content)
    requires Vouched(r0, content.text, n0) && Vouched(r1, content.text, n1) && Vouched(r2, n1, n2)
    requires r0.sharedTemp && r2.sharedTemp
    ensures
      var commits := Run(Init(content), ThirdFills(r0, r1, r2) + Calls(0, FILL) + [Call(2, Rename)]).disk.commits;
      |commits| == 2 && commits[1].request == r2 && commits[1].authorised.text == n1 && commits[1].installed.text == n0
  {
    var s, t := ThirdFilled(content, r0, r1, n1, r2, n2);
    RunAppend(Step, Ready, Init(content), ThirdFills(r0, r1, r2), Calls(0, FILL));
    RunCalls(Step, Ready, t, 0, FILL);
    FillAlone(t.disk, 0, r0, 0, 0, n0);
    var u := Run(t, Calls(0, FILL));
    assert u.writers[2] == t.writers[2] && u.disk.tmp == Some(2) && BytesAt(u.disk, 2).text == n0;
    RunAppend(Step, Ready, Init(content), ThirdFills(r0, r1, r2) + Calls(0, FILL), [Call(2, Rename)]);
    RunOne(u, Call(2, Rename));
  }

  /** Whatever the schedule, the other requests and the initial file. */
  ghost predicate AlwaysWhole(r: Request) {
    forall content, events, k: nat | k < |Run(Init(content), events).disk.commits| ::
      Run(Init(content), events).disk.commits[k].request == r ==> Whole(Run(Init(content), events).disk.commits[k])
  }

  /** The commits of a request are whole in every interleaving exactly when its temporary name is its
      own, or it accepts no content at all. */
  lemma WholeExactly(r: Request)
    ensures AlwaysWhole(r) <==> !r.sharedTemp || !exists text, next :: Vouched(r, text, next)
  {
    if !r.sharedTemp {
      forall content, events, k: nat | k < |Run(Init(content), events).disk.commits|
        ensures Run(Init(content), events).disk.commits[k].request == r
          ==> Whole(Run(Init(content), events).disk.commits[k])
      {
        if Run(Init(content), events).disk.commits[k].request == r { OwnNameCommitsAreWhole(content, events, k); }
      }
    } else if text, next :| Vouched(r, text, next) {
      SharedNameCanFail(r, text, next);
    } else {
      NeverCommits(r);
    }
  }

  lemma SharedNameCanFail(r: Request, text: Content, next: Content)
    requires r.sharedTemp && Vouched(r, text, next)
    ensures !AlwaysWhole(r)
  {
    var other := next + "x";
    var r0 := Request(None, (b: Content) => Some(other), true, None, false);
    var r1 := Request(None, (b: Content) => Some(text), true, None, false);
    var content := File("", 0);
    GapInstallsAnothersText(content, r0, other, r1, text, r, next);
    var events := ThirdFills(r0, r1, r) + Calls(0, FILL) + [Call(2, Rename)];
    assert !Whole(Run(Init(content), events).disk.commits[1]);
  }

  lemma NeverCommits(r: Request)
    requires !exists text, next :: Vouched(r, text, next)
    ensures AlwaysWhole(r)
  {
    forall content, events, k: nat | k < |Run(Init(content), events).disk.commits|
      ensures Run(Init(content), events).disk.commits[k].request != r
    {
      CommitsAreAccepted(content, events, k);
      var c := Run(Init(content), events).disk.commits[k];
      if c.request == r { assert Vouched(r, c.authorised.text, r.transform(c.authorised.text).value); }
    }
  }

  /** From `open` to a temporary file that is empty again. */
  lemma CreateAlone(d: Disk, w: WriterId, r: Request, i: Inode, seen: nat, next: Content)
    requires i !in d.lock && Vouched(r, BytesAt(d, i).text, next)
    ensures
      var b := BytesAt(d, i);
      Alone(d, w, r, Opened(i, seen), CREATE)
      == (CreateTmpFile(Taken(d, w, r, i), r, b), TmpCreated(i, b, next, TmpInode(d, r)))
  {
    var (b, d1, d2) := (BytesAt(d, i), d.(lock := d.lock[i := w]), Taken(d, w, r, i));
    CheckAlone(d, w, r, i, seen, next);
    AloneAppend(Step, d, w, r, Opened(i, seen), CHECK, [Capture, CreateTmp]);
    calc {
      Alone(d1, w, r, Verified(i, b, next), [Capture, CreateTmp]);
      Alone(d2, w, r, Captured(i, b, next), [CreateTmp]);
      (CreateTmpFile(d2, r, b), TmpCreated(i, b, next, TmpInode(d, r)));
    }
  }

  const CREATE: seq<Action> := CHECK + [Capture, CreateTmp]

  /** The disk once `w` has locked inode `i` and captured it if asked to. */
  function Taken(d: Disk, w: WriterId, r: Request, i: Inode): Disk {
    d.(lock := d.lock[i := w],
       snapshots := if r.snapshots then d.snapshots + [Snapshot(w, BytesAt(d, i))] else d.snapshots)
  }

  lemma PartAlone(d: Disk, w: WriterId, r: Request, i: Inode, seen: nat, next: Content, k: nat)
    requires i !in d.lock && Vouched(r, BytesAt(d, i).text, next) && r.sharedTemp && k <= |next|
    ensures
      var (t, end) := (TmpInode(d, r), Alone(d, w, r, Opened(i, seen), CREATE + [Fail(k)]).0);
      end.tmp == Some(t) && t in end.bytes && end.bytes[t].text == next[..k]
  {
    CreateAlone(d, w, r, i, seen, next);
    AloneAppend(Step, d, w, r, Opened(i, seen), CREATE, [Fail(k)]);
    assert [Action.Fail(k)][1..] == [];
  }

  /** A call that fails while writing leaves a part of its text behind: with the fixed name another
      writer, which locked in time, installs that part. */
  lemma GapInstallsAPart(
    content: File, r0: Request, n0: Content, r1: Request, n1: Content, r2: Request, n2: Content, k: nat)
    requires Vouched(r0, content.text, n0) && Vouched(r1, content.text, n1) && Vouched(r2, n1, n2)
    requires r0.sharedTemp && r2.sharedTemp && k <= |n0|
    ensures
      Current(Run(Init(content), ThirdFills(r0, r1, r2) + Calls(0, CREATE + [Fail(k)]) + [Call(2, Rename)]).disk).text
      == n0[..k]
  {
    var part := CREATE + [Fail(k)];
    var s, t := ThirdFilled(content, r0, r1, n1, r2, n2);
    RunAppend(Step, Ready, Init(content), ThirdFills(r0, r1, r2), Calls(0, part));
    RunCalls(Step, Ready, t, 0, part);
    var u := Run(t, Calls(0, part));
    PartAlone(t.disk, 0, r0, 0, 0, n0, k);
    assert u.writers[2] == t.writers[2] && u.disk.tmp == Some(2) && BytesAt(u.disk, 2).text == n0[..k];
    RunAppend(Step, Ready, Init(content), ThirdFills(r0, r1, r2) + Calls(0, part), [Call(2, Rename)]);
    RunOne(u, Call(2, Rename));
  }

  /** Both writers have created the file of the fixed temporary name, and writer 0 has written it. */
  lemma BothCreated(
    content: File, r0: Request, n0: Content, r1: Request, n1: Content, r2: Request, n2: Content) returns (v: System)
    requires Vouched(r0, content.text, n0) && Vouched(r1, content.text, n1) && Vouched(r2, n1, n2)
    requires r0.sharedTemp && r2.sharedTemp
    ensures v == Run(Init(content), ThirdOpens(r0, r1, r2) + Calls(2, CREATE) + Calls(0, FILL))
    ensures 2 in v.writers && v.writers[2] == Writer(r2, TmpCreated(1, Made(r1, content, n1), n2, 2))
    ensures v.disk.tmp == Some(2) && BytesAt(v.disk, 2).text == n0
  {
    var s := ThirdReady(content, r0, r1, n1, r2);
    var opens := ThirdOpens(r0, r1, r2);
    CreateAlone(s.disk, 2, r2, 1, 1, n2);
    RunCalls(Step, Ready, s, 2, CREATE);
    RunAppend(Step, Ready, Init(content), opens, Calls(2, CREATE));
    var u := Run(s, Calls(2, CREATE));
    FillAlone(u.disk, 0, r0, 0, 0, n0);
    RunCalls(Step, Ready, u, 0, FILL);
    RunAppend(Step, Ready, Init(content), opens + Calls(2, CREATE), Calls(0, FILL));
    v := Run(u, Calls(0, FILL));
  }

  /** Two writers of the fixed temporary name that both created it before either wrote it: the one
      that writes last leaves its text followed by the rest of the other's, and installs that. */
  lemma GapMixesTexts(
    content: File, r0: Request, n0: Content, r1: Request, n1: Content, r2: Request, n2: Content)
    requires Vouched(r0, content.text, n0) && Vouched(r1, content.text, n1) && Vouched(r2, n1, n2)
    requires r0.sharedTemp && r2.sharedTemp
    ensures
      var events := ThirdOpens(r0, r1, r2) + Calls(2, CREATE) + Calls(0, FILL) + Calls(2, [WriteTmp, Rename]);
      Current(Run(Init(content), events).disk).text == n2 + n0[(if |n2| <= |n0| then |n2| else |n0|)..]
  {
    var v := BothCreated(content, r0, n0, r1, n1, r2, n2);
    var before := ThirdOpens(r0, r1, r2) + Calls(2, CREATE) + Calls(0, FILL);
    RunCalls(Step, Ready, v, 2, [WriteTmp, Rename]);
    RunAppend(Step, Ready, Init(content), before, Calls(2, [WriteTmp, Rename]));
    var (b, c) := (Made(r1, content, n1), WriteTo(v.disk, 2, n2));
    assert [WriteTmp, Rename][1..] == [Action.Rename] && [Action.Rename][1..] == [];
    calc {
      Alone(v.disk, 2, r2, TmpCreated(1, b, n2, 2), [WriteTmp, Rename]);
      Alone(c, 2, r2, TmpWritten(1, b, n2, 2), [Rename]);
      (RenameOver(c, 2, r2, b, 2), Committed(1));
    }
    assert BytesAt(c, 2).text == Overlay(n2, n0);
  }
}
