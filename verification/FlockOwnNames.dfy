/** Temporary names: a commit under a name of its own is whole in every interleaving. */
module FlockOwnNames {
  import opened Text
  import opened Hash
  import opened Schedules
  import opened FlockProtocol

  predicate HasTmp(pc: Pc) {
    pc.TmpCreated? || pc.TmpWritten?
  }

  predicate Allocated(d: Disk) {
    d.target in d.bytes && (forall i | i in d.bytes :: i < d.unused) && (d.tmp.Some? ==> d.tmp.value in d.bytes)
  }

  /** A temporary file under a name of its own is not the target, nor under the shared name, and
      holds what its writer put there. */
  predicate PcPrivate(d: Disk, r: Request, pc: Pc) {
    HasTmp(pc) ==>
      pc.tmp in d.bytes
      && (!r.sharedTemp ==>
            pc.tmp != d.target && d.tmp != Some(pc.tmp)
            && d.bytes[pc.tmp] == Made(r, pc.bytes, if pc.TmpCreated? then "" else pc.next))
  }

  /** No other writer has it. */
  predicate Apart(r: Request, pc: Pc, vr: Request, vpc: Pc) {
    HasTmp(pc) && HasTmp(vpc) && !(r.sharedTemp && vr.sharedTemp) ==> pc.tmp != vpc.tmp
  }

  /** The installed text is the transformation of the one that was checked. */
  predicate Whole(c: Commit) {
    c.request.transform(c.authorised.text) == Some(c.installed.text)
  }

  /** The installed mode is the one asked for, or else that of the file that was checked. */
  predicate ModeKept(c: Commit) {
    c.installed.mode == if c.request.mode.Some? then c.request.mode.value else c.authorised.mode
  }

  predicate OwnWhole(c: Commit) {
    Whole(c) && ModeKept(c)
  }

  ghost predicate Private(s: System) {
    && Allocated(s.disk)
    && (forall w | w in s.writers :: PcPrivate(s.disk, s.writers[w].request, s.writers[w].pc))
    && (forall v, w | v in s.writers && w in s.writers && v != w ::
          Apart(s.writers[w].request, s.writers[w].pc, s.writers[v].request, s.writers[v].pc))
    && (forall k | 0 <= k < |s.disk.commits| && !s.disk.commits[k].request.sharedTemp ::
          OwnWhole(s.disk.commits[k]))
  }

  lemma StepPrivate(d: Disk, w: WriterId, r: Request, pc: Pc, a: Action, c: Disk, q: Pc)
    requires (c, q) == Step(d, w, r, pc, a) && Allocated(d) && PcPrivate(d, r, pc) && PcVouched(d, w, r, pc)
    ensures Allocated(c) && PcPrivate(c, r, q)
    ensures |c.commits| > |d.commits| && !r.sharedTemp ==> OwnWhole(c.commits[|d.commits|])
    ensures |c.commits| > |d.commits| ==> c.commits[|d.commits|].request == r
  {
  }

  lemma StepApart(d: Disk, w: WriterId, r: Request, pc: Pc, a: Action, c: Disk, q: Pc, vr: Request, vpc: Pc)
    requires (c, q) == Step(d, w, r, pc, a) && Allocated(d)
    requires PcPrivate(d, r, pc) && PcPrivate(d, vr, vpc) && Apart(r, pc, vr, vpc)
    ensures PcPrivate(c, vr, vpc) && Apart(r, q, vr, vpc)
  {
  }

  lemma NextKeepsPrivate(s: System, e: Event<Request, Action>, t: System)
    requires Private(s) && AllVouched(s) && t == Next(s, e)
    ensures Private(t)
  {
    if e.Call? && e.writer in s.writers {
      var (w, d, c) := (e.writer, s.disk, t.disk);
      var (r, pc, q) := (s.writers[w].request, s.writers[w].pc, t.writers[w].pc);
      assert PcPrivate(d, r, pc) && PcVouched(d, w, r, pc);
      StepPrivate(d, w, r, pc, e.action, c, q);
      StepGrows(d, w, r, pc, e.action, c, q);
      forall v | v in s.writers && v != w
        ensures PcPrivate(c, t.writers[v].request, t.writers[v].pc)
        ensures Apart(r, q, t.writers[v].request, t.writers[v].pc)
      {
        assert PcPrivate(d, s.writers[v].request, s.writers[v].pc);
        assert Apart(r, pc, s.writers[v].request, s.writers[v].pc);
        StepApart(d, w, r, pc, e.action, c, q, s.writers[v].request, s.writers[v].pc);
      }
      ApartStays(s, t, w);
      CommitsStayWhole(d, c, r);
    }
  }

  lemma ApartStays(s: System, t: System, w: WriterId)
    requires Private(s) && w in s.writers && w in t.writers && t.writers == s.writers[w := t.writers[w]]
    requires forall v | v in s.writers && v != w ::
      Apart(t.writers[w].request, t.writers[w].pc, t.writers[v].request, t.writers[v].pc)
    ensures forall v, x | v in t.writers && x in t.writers && v != x ::
      Apart(t.writers[x].request, t.writers[x].pc, t.writers[v].request, t.writers[v].pc)
  {
    forall v, x | v in t.writers && x in t.writers && v != x
      ensures Apart(t.writers[x].request, t.writers[x].pc, t.writers[v].request, t.writers[v].pc)
    {
      if v == w {
        assert Apart(t.writers[w].request, t.writers[w].pc, t.writers[x].request, t.writers[x].pc);
      } else if x != w {
        assert Apart(s.writers[x].request, s.writers[x].pc, s.writers[v].request, s.writers[v].pc);
      }
    }
  }

  lemma CommitsStayWhole(d: Disk, c: Disk, r: Request)
    requires forall k | 0 <= k < |d.commits| && !d.commits[k].request.sharedTemp :: OwnWhole(d.commits[k])
    requires c.commits == d.commits || exists k: Commit :: c.commits == d.commits + [k]
    requires |c.commits| > |d.commits| ==> c.commits[|d.commits|].request == r
    requires |c.commits| > |d.commits| && !r.sharedTemp ==> OwnWhole(c.commits[|d.commits|])
    ensures forall k | 0 <= k < |c.commits| && !c.commits[k].request.sharedTemp :: OwnWhole(c.commits[k])
  {
  }

  lemma {:induction false} RunKeepsPrivate(s: System, events: Schedule)
    requires Private(s) && AllVouched(s)
    ensures Private(Run(s, events)) && AllVouched(Run(s, events))
    decreases |events|
  {
    if events != [] {
      var t := Next(s, events[0]);
      NextKeepsVouched(s, events[0], t);
      NextKeepsPrivate(s, events[0], t);
      RunKeepsPrivate(t, events[1..]);
    }
  }

  /** In every interleaving, with any gaps and failures and whatever the others do, a commit whose
      temporary name is its own installs exactly the transformation of what was checked, under the mode
      asked for or that of the checked file. */
  lemma OwnNameCommitsAreWhole(content: File, events: Schedule, k: nat)
    requires k < |Run(Init(content), events).disk.commits|
    requires !Run(Init(content), events).disk.commits[k].request.sharedTemp
    ensures Whole(Run(Init(content), events).disk.commits[k])
    ensures ModeKept(Run(Init(content), events).disk.commits[k])
  {
    RunKeepsPrivate(Init(content), events);
  }

  /** Every writer of the schedule has a temporary name of its own. */
  predicate OwnNames(events: Schedule) {
    forall k | 0 <= k < |events| && events[k].Start? :: !events[k].request.sharedTemp
  }

  ghost predicate AllOwn(s: System) {
    s.disk.tmp.None? && forall w | w in s.writers :: !s.writers[w].request.sharedTemp
  }

  predicate LinkedAt(content: File, commits: seq<Commit>, k: nat)
    requires k < |commits|
  {
    commits[k].replaced == ContentBefore(content, commits, k) && !commits[k].request.sharedTemp
  }

  /** Each commit found what the one before it left, and the last one is what the file holds. */
  ghost predicate Linked(content: File, d: Disk) {
    (forall k | 0 <= k < |d.commits| :: LinkedAt(content, d.commits, k))
    && Current(d) == ContentBefore(content, d.commits, |d.commits|)
  }

  lemma StepLinks(content: File, d: Disk, w: WriterId, r: Request, pc: Pc, a: Action, c: Disk, q: Pc)
    requires (c, q) == Step(d, w, r, pc, a) && Allocated(d) && PcPrivate(d, r, pc)
    requires !r.sharedTemp && d.tmp.None? && Linked(content, d)
    ensures c.tmp.None? && Linked(content, c)
  {
    if c.commits == d.commits {
      assert Current(c) == Current(d);
    } else {
      var last := c.commits[|d.commits|];
      assert c.commits == d.commits + [last] && last.replaced == Current(d) && last.installed == Current(c);
      LinkExtends(content, d, c, last);
    }
  }

  lemma LinkExtends(content: File, d: Disk, c: Disk, last: Commit)
    requires Linked(content, d) && c.commits == d.commits + [last] && !last.request.sharedTemp
    requires last.replaced == Current(d) && last.installed == Current(c)
    ensures Linked(content, c)
  {
    forall k | 0 <= k < |c.commits| ensures LinkedAt(content, c.commits, k) {
      if k < |d.commits| { assert LinkedAt(content, d.commits, k); }
    }
  }

  lemma {:induction false} RunLinks(content: File, s: System, events: Schedule)
    requires Private(s) && AllVouched(s) && AllOwn(s) && Linked(content, s.disk) && OwnNames(events)
    ensures Linked(content, Run(s, events).disk)
    decreases |events|
  {
    if events != [] {
      var (e, t) := (events[0], Next(s, events[0]));
      NextKeepsVouched(s, e, t);
      NextKeepsPrivate(s, e, t);
      if e.Call? && e.writer in s.writers {
        var writer := s.writers[e.writer];
        assert PcPrivate(s.disk, writer.request, writer.pc);
        StepLinks(content, s.disk, e.writer, writer.request, writer.pc, e.action, t.disk, t.writers[e.writer].pc);
      }
      RunLinks(content, t, events[1..]);
    }
  }

  /** When every temporary name is a writer's own, the file holds, at every point of every
      interleaving, exactly what the last commit installed: it is never torn. */
  lemma OwnNamesNeverTear(content: File, events: Schedule)
    requires OwnNames(events)
    ensures
      var d := Run(Init(content), events).disk;
      Current(d) == ContentBefore(content, d.commits, |d.commits|)
  {
    RunLinks(content, Init(content), events);
  }

  /** And the history is serial exactly when every commit replaced the file that it checked. */
  lemma OwnNamesAreSerialExactly(content: File, events: Schedule)
    requires OwnNames(events)
    ensures
      var d := Run(Init(content), events).disk;
      Serial(content, d) <==> forall k | 0 <= k < |d.commits| :: d.commits[k].authorised == d.commits[k].replaced
  {
    var d := Run(Init(content), events).disk;
    RunLinks(content, Init(content), events);
    RunKeepsPrivate(Init(content), events);
    forall k | 0 <= k < |d.commits|
      ensures Chained(content, d.commits, k) <==> d.commits[k].authorised == d.commits[k].replaced
    {
      assert LinkedAt(content, d.commits, k) && Whole(d.commits[k]) && CommitVouched(d, d.commits[k]);
    }
  }

  /** In every interleaving, whatever gaps and failures it has, each commit of a request with an
      ETag was authorised against bytes hashing to it; it installs the transformation of those
      bytes if its temporary name is its own; and its writer captured exactly the file it
      transformed, when asked to. */
  lemma EveryCommitIsAuthorised(content: File, events: Schedule, k: nat)
    requires k < |Run(Init(content), events).disk.commits|
    ensures
      var d := Run(Init(content), events).disk;
      var c := d.commits[k];
      && (c.request.etag.Some? ==> c.request.etag.value == Digest(c.authorised.text))
      && (!c.request.sharedTemp ==> Whole(c) && ModeKept(c))
      && (c.request.snapshots ==> Snapshot(c.writer, c.authorised) in d.snapshots)
      && (forall x | x in d.snapshots && x.writer == c.writer :: x.bytes == c.authorised)
  {
    RunKeepsVouched(Init(content), events);
    assert CommitVouched(Run(Init(content), events).disk, Run(Init(content), events).disk.commits[k]);
    if !Run(Init(content), events).disk.commits[k].request.sharedTemp {
      OwnNameCommitsAreWhole(content, events, k);
    }
  }
}
