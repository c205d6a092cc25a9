/** Who holds a lock: a writer between its lock and its end, and nobody else. */
module FlockLocks {
  import opened Text
  import opened Hash
  import opened Schedules
  import opened FlockProtocol
  import opened FlockOwnNames
  import opened FlockTraces

  /** The writer stands between its successful lock on `i` and its end. */
  predicate Holds(pc: Pc, i: Inode) {
    (Critical(pc) || pc.Committed?) && pc.inode == i
  }

  predicate HoldsAny(pc: Pc) {
    Critical(pc) || pc.Committed?
  }

  /** The locks `w` has taken on `d` are those `pc` says. */
  ghost predicate LocksOf(d: Disk, w: WriterId, pc: Pc) {
    forall i :: i in d.lock && d.lock[i] == w <==> Holds(pc, i)
  }

  ghost predicate LocksKept(s: System) {
    (forall w | w in s.writers :: LocksOf(s.disk, w, s.writers[w].pc))
    && (forall i | i in s.disk.lock :: s.disk.lock[i] in s.writers)
  }

  lemma StepLocks(d: Disk, w: WriterId, r: Request, pc: Pc, a: Action, c: Disk, q: Pc)
    requires (c, q) == Step(d, w, r, pc, a) && LocksOf(d, w, pc)
    ensures LocksOf(c, w, q)
    ensures forall i | i in c.lock && c.lock[i] != w :: i in d.lock && d.lock[i] == c.lock[i]
    ensures forall i | i in d.lock && d.lock[i] != w :: i in c.lock && d.lock[i] == c.lock[i]
  {
    assert forall i :: i in d.lock && d.lock[i] == w <==> Holds(pc, i);
  }

  lemma NextKeepsLocks(s: System, e: Event<Request, Action>, t: System)
    requires LocksKept(s) && t == Next(s, e)
    ensures LocksKept(t)
  {
    if e.Call? && e.writer in s.writers {
      var w := e.writer;
      StepLocks(s.disk, w, s.writers[w].request, s.writers[w].pc, e.action, t.disk, t.writers[w].pc);
      forall v | v in t.writers ensures LocksOf(t.disk, v, t.writers[v].pc) {
        if v != w { assert LocksOf(s.disk, v, s.writers[v].pc); }
      }
    } else if e.Start? && e.writer !in s.writers {
      assert LocksOf(t.disk, e.writer, Ready);
    }
  }

  lemma {:induction false} RunKeepsLocks(s: System, events: Schedule)
    requires LocksKept(s)
    ensures LocksKept(Run(s, events))
    decreases |events|
  {
    if events != [] {
      NextKeepsLocks(s, events[0], Next(s, events[0]));
      RunKeepsLocks(Next(s, events[0]), events[1..]);
    }
  }

  /** In every interleaving, with any gaps and failures, an inode is locked exactly by the writer
      that stands between its successful lock on it and its end. */
  lemma LockedExactly(content: File, events: Schedule, i: Inode)
    ensures
      var s := Run(Init(content), events);
      && (i in s.disk.lock <==> exists w :: w in s.writers && Holds(s.writers[w].pc, i))
      && (forall w | w in s.writers && Holds(s.writers[w].pc, i) :: i in s.disk.lock && s.disk.lock[i] == w)
  {
    var s := Run(Init(content), events);
    RunKeepsLocks(Init(content), events);
    forall w | w in s.writers && Holds(s.writers[w].pc, i) ensures i in s.disk.lock && s.disk.lock[i] == w {
      assert LocksOf(s.disk, w, s.writers[w].pc);
    }
    if i in s.disk.lock {
      assert LocksOf(s.disk, s.disk.lock[i], s.writers[s.disk.lock[i]].pc);
    }
  }

  // ---------------------------------------------------------------------------
  // The next caller
  // ---------------------------------------------------------------------------

  lemma StepFiles(d: Disk, w: WriterId, r: Request, pc: Pc, a: Action, c: Disk, q: Pc)
    requires (c, q) == Step(d, w, r, pc, a) && Files(d) && PcPrivate(d, r, pc)
    ensures Files(c)
  {
  }

  lemma {:induction false} RunKeepsFiles(s: System, events: Schedule)
    requires Files(s.disk) && Private(s) && AllVouched(s)
    ensures Files(Run(s, events).disk)
    decreases |events|
  {
    if events != [] {
      var (e, t) := (events[0], Next(s, events[0]));
      NextKeepsVouched(s, e, t);
      NextKeepsPrivate(s, e, t);
      if e.Call? && e.writer in s.writers {
        var writer := s.writers[e.writer];
        assert PcPrivate(s.disk, writer.request, writer.pc);
        StepFiles(s.disk, e.writer, writer.request, writer.pc, e.action, t.disk, t.writers[e.writer].pc);
      }
      RunKeepsFiles(t, events[1..]);
    }
  }

  ghost predicate NobodyUnderWay(s: System) {
    forall w | w in s.writers :: !HoldsAny(s.writers[w].pc)
  }

  lemma NoLockIsLeft(content: File, events: Schedule)
    requires NobodyUnderWay(Run(Init(content), events))
    ensures Run(Init(content), events).disk.lock == map[]
  {
    var lock := Run(Init(content), events).disk.lock;
    forall i | i in lock ensures false {
      LockedExactly(content, events, i);
    }
    assert lock.Keys == {};
  }

  lemma StartAndOpen(s: System, w: WriterId, r: Request)
    requires w !in s.writers
    ensures Run(s, [Start(w, r), Call(w, Open)])
      == s.(writers := s.writers[w := Writer(r, Opened(s.disk.target, s.disk.epoch))])
  {
    RunCons(Step, Ready, s, Start(w, r), [Call(w, Open)]);
    RunOne(Next(s, Start(w, r)), Call(w, Open));
    var begin: Schedule := [Event.Start(w, r)];
    assert begin + [Call(w, Open)] == [Start(w, r), Call(w, Open)];
  }

  /** Whatever happened before, failed calls included, once nobody is under way the next caller
      whose request admits the file commits its transformation of it, over exactly that file. */
  lemma NextCallerCommits(content: File, events: Schedule, w: WriterId, r: Request, next: Content)
    requires
      var s := Run(Init(content), events);
      NobodyUnderWay(s) && w !in s.writers && Vouched(r, Current(s.disk).text, next)
    ensures
      var d := Run(Init(content), events).disk;
      var t := Run(Init(content), events + [Start(w, r), Call(w, Open)] + Calls(w, FINISH)).disk;
      && t.commits == d.commits + [Commit(w, r, Current(d), Current(d), Current(t))] && t.lock == map[]
      && Current(t).text == next
      && Current(t).mode == (
        if r.sharedTemp && d.tmp.Some? then BytesAt(d, d.tmp.value).mode
        else if r.mode.Some? then r.mode.value else Current(d).mode)
  {
    var s := Run(Init(content), events);
    RunKeepsFiles(Init(content), events);
    NoLockIsLeft(content, events);
    StartAndOpen(s, w, r);
    var begun := Run(s, [Start(w, r), Call(w, Open)]);
    RunAppend(Step, Ready, Init(content), events, [Start(w, r), Call(w, Open)]);
    RunAppend(Step, Ready, Init(content), events + [Start(w, r), Call(w, Open)], Calls(w, FINISH));
    RunCalls(Step, Ready, begun, w, FINISH);
    FinishAlone(s.disk, w, r, s.disk.target, s.disk.epoch, next);
  }
}
