/** Who holds a lock on `loader.conf`: in every interleaving, a caller that is about to check the
    ETag and nobody else. */
module LoaderLocks {
  import opened Text
  import opened Schedules
  import opened LoaderWrite

  /** The caller has locked inode `i` and not checked yet. */
  predicate Holds(pc: Pc, i: nat) {
    pc.Locked? && pc.inode == i
  }

  ghost predicate LocksOf(x: World, w: nat, pc: Pc) {
    forall i :: i in x.files.lock && x.files.lock[i] == w <==> Holds(pc, i)
  }

  ghost predicate LocksKept(s: System) {
    (forall w | w in s.writers :: LocksOf(s.disk, w, s.writers[w].pc))
    && (forall i | i in s.disk.files.lock :: s.disk.files.lock[i] in s.writers)
  }

  lemma StepLocks(x: World, w: nat, r: Request, pc: Pc, a: Action, y: World, q: Pc)
    requires (y, q) == Step(x, w, r, pc, a) && LocksOf(x, w, pc)
    ensures LocksOf(y, w, q)
    ensures forall i | i in y.files.lock && y.files.lock[i] != w ::
      i in x.files.lock && x.files.lock[i] == y.files.lock[i]
    ensures forall i | i in x.files.lock && x.files.lock[i] != w ::
      i in y.files.lock && x.files.lock[i] == y.files.lock[i]
  {
    assert forall i :: i in x.files.lock && x.files.lock[i] == w <==> Holds(pc, i);
  }

  lemma NextKeepsLocks(s: System, e: Event<Request, Action>, t: System)
    requires LocksKept(s) && t == Next(s, e)
    ensures LocksKept(t)
  {
    if e.Call? && e.writer in s.writers {
      var w := e.writer;
      StepLocks(s.disk, w, s.writers[w].request, s.writers[w].pc, e.action, t.disk, t.writers[w].pc);
      forall v | v in t.writers ensures LocksOf(t.disk, v, t.writers[v].pc) {
        if v != w { assert LocksOf(s.disk, v, s.writers[v].pc); }
      }
    } else if e.Start? && e.writer !in s.writers {
      assert LocksOf(t.disk, e.writer, Ready);
    }
  }

  lemma {:induction false} RunKeepsLocks(s: System, events: Schedule)
    requires LocksKept(s)
    ensures LocksKept(Run(s, events))
    decreases |events|
  {
    if events != [] {
      NextKeepsLocks(s, events[0], Next(s, events[0]));
      RunKeepsLocks(Next(s, events[0]), events[1..]);
    }
  }

  /** In every interleaving an inode is locked exactly by the caller that stands between its
      successful lock and the end of its check, so no failed call blocks a later one. */
  lemma LockedExactly(content: Option<string>, events: Schedule, i: nat)
    ensures
      var s := Run(Init(content), events);
      && (i in s.disk.files.lock <==> exists w :: w in s.writers && Holds(s.writers[w].pc, i))
      && (forall w | w in s.writers && Holds(s.writers[w].pc, i) ::
            i in s.disk.files.lock && s.disk.files.lock[i] == w)
  {
    var s := Run(Init(content), events);
    RunKeepsLocks(Init(content), events);
    forall w | w in s.writers && Holds(s.writers[w].pc, i)
      ensures i in s.disk.files.lock && s.disk.files.lock[i] == w
    {
      assert LocksOf(s.disk, w, s.writers[w].pc);
    }
    if i in s.disk.files.lock {
      assert LocksOf(s.disk, s.disk.files.lock[i], s.writers[s.disk.files.lock[i]].pc);
    }
  }
}
