/** The idle-lifecycle tracker and the waiter that ends the daemon. */
module Lifecycle {
  // An operation counter and generation under a mutex, a watch channel that publishes them, and the
  // waiter that decides when the daemon may exit.

  const USIZE_MAX := 0xFFFF_FFFF_FFFF_FFFF
  const GENERATIONS := 0x1_0000_0000_0000_0000

  /** `usize` counter, `u64` generation. */
  datatype ActivityState = ActivityState(active: nat, generation: nat)

  datatype Kind = Begin | Record | Finish

  /** What the mutation of one `update` does, with `saturating_add`, `saturating_sub` and
      `wrapping_add`. */
  function Updated(s: ActivityState, kind: Kind): ActivityState {
    var active := match kind
      case Begin => if s.active >= USIZE_MAX then USIZE_MAX else s.active + 1
      case Record => s.active
      case Finish => if s.active == 0 then 0 else s.active - 1;
    ActivityState(active, (s.generation + 1) % GENERATIONS)
  }

  /** The tracker as one thread uses it: `published` is the value in the watch channel. */
  class ActivityTracker {
    var state: ActivityState
    var published: ActivityState

    constructor ()
      ensures state == published == ActivityState(0, 0)
    {
      state := ActivityState(0, 0);
      published := ActivityState(0, 0);
    }

    method Update(kind: Kind)
      modifies this
      ensures state == published == Updated(old(state), kind)
    {
      match kind {
        case Begin => if state.active < USIZE_MAX { state := state.(active := state.active + 1); }
          else { state := state.(active := USIZE_MAX); }
        case Record =>
        case Finish => if state.active > 0 { state := state.(active := state.active - 1); }
      }
      state := state.(generation := (state.generation + 1) % GENERATIONS);
      published := state;
    }

    method BeginOperation() returns (guard: OperationGuard)
      modifies this
      ensures state == published == Updated(old(state), Begin)
      ensures fresh(guard) && guard.tracker == this && guard.active
    {
      Update(Begin);
      guard := new OperationGuard(this);
    }

    method RecordActivity()
      modifies this
      ensures state == published == Updated(old(state), Record)
    {
      Update(Record);
    }

    method ActiveOperations() returns (n: nat)
      ensures n == state.active
    {
      n := state.active;
    }
  }

  /** The token of one running operation; only its first drop ends the operation. */
  class OperationGuard {
    const tracker: ActivityTracker
    var active: bool

    constructor (tracker: ActivityTracker)
      ensures this.tracker == tracker && active
    {
      this.tracker := tracker;
      active := true;
    }

    method Drop()
      modifies this, tracker
      ensures !active
      ensures tracker.state == if old(active) then Updated(old(tracker.state), Finish) else old(tracker.state)
      ensures tracker.published
        == if old(active) then Updated(old(tracker.state), Finish) else old(tracker.published)
    {
      if active {
        tracker.Update(Finish);
        active := false;
      }
    }
  }

  // ---------------------------------------------------------------------------
  // Interleavings
  // ---------------------------------------------------------------------------

  /** Where the waiter is. `seen` is the channel version it has marked as seen, `at` the version
      and `since` the time at which it made its observation. */
  datatype Waiter =
    | Top
    | AwaitChange(seen: nat)
    | Observed(observed: ActivityState, at: nat, since: nat)
    | Sleeping(observed: ActivityState, at: nat, since: nat, deadline: nat)
    | Elapsed(observed: ActivityState, at: nat, since: nat, deadline: nat)
    | Returned

  /** `inFlight` is the update that holds the mutex: mutated, not yet published. `guards` are the
      operations begun and not finished; `version` counts the publications, `published` at
      `lastChange` for the last time. */
  datatype System = System(
    state: ActivityState, inFlight: seq<Kind>, channel: ActivityState, version: nat, lastChange: nat,
    guards: nat, now: nat, timeout: nat, waiter: Waiter)

  datatype Action =
    | Mutate(kind: Kind) | Publish | Tick(d: nat)
    /** The waiter's own steps; `Timer` and `Changed` are the two branches of its race. */
    | Observe | StartSleep | Timer | Changed | Check

  function Init(timeout: nat): System {
    System(ActivityState(0, 0), [], ActivityState(0, 0), 0, 0, 0, 0, timeout, Top)
  }

  /** Locking and mutating; a finishing operation has a guard to drop. */
  function NextMutate(s: System, kind: Kind): System {
    if s.inFlight != [] || (kind.Finish? && s.guards == 0) then s
    else
      s.(state := Updated(s.state, kind), inFlight := [kind],
         guards := match kind case Begin => s.guards + 1 case Record => s.guards case Finish => s.guards - 1)
  }

  function NextPublish(s: System): System {
    if s.inFlight == [] then s
    else s.(inFlight := [], channel := s.state, version := s.version + 1, lastChange := s.now)
  }

  function NextChanged(s: System): System {
    match s.waiter
    case AwaitChange(seen) => if s.version != seen then s.(waiter := Top) else s
    case Sleeping(_, at, _, _) => if s.version != at then s.(waiter := Top) else s
    case _ => s
  }

  /** The check after the timer reads the channel without taking the mutex. */
  function NextCheck(s: System): System {
    match s.waiter
    case Elapsed(observed, _, _, _) =>
      if s.channel.active == 0 && s.channel.generation == observed.generation then s.(waiter := Returned)
      else s.(waiter := Top)
    case _ => s
  }

  function Next(s: System, a: Action): System {
    match a
    case Mutate(kind) => NextMutate(s, kind)
    case Publish => NextPublish(s)
    case Tick(d) => s.(now := s.now + d)
    case Observe =>
      if !s.waiter.Top? then s
      else if s.channel.active > 0 then s.(waiter := AwaitChange(s.version))
      else s.(waiter := Observed(s.channel, s.version, s.now))
    case StartSleep =>
      if !s.waiter.Observed? then s
      else s.(waiter := Sleeping(s.waiter.observed, s.waiter.at, s.waiter.since, s.now + s.timeout))
    case Timer =>
      if !s.waiter.Sleeping? || s.now < s.waiter.deadline then s
      else s.(waiter := Elapsed(s.waiter.observed, s.waiter.at, s.waiter.since, s.waiter.deadline))
    case Changed => NextChanged(s)
    case Check => NextCheck(s)
  }

  function Run(s: System, actions: seq<Action>): System
    decreases |actions|
  {
    if actions == [] then s else Run(Next(s, actions[0]), actions[1..])
  }

  // ---------------------------------------------------------------------------
  // What every interleaving keeps
  // ---------------------------------------------------------------------------

  /** The channel holds the locked state, except while an update is in flight; the generation
      counts the updates modulo 2^64. */
  predicate Synchronised(s: System) {
    |s.inFlight| <= 1
    && (s.inFlight == [] ==> s.channel == s.state)
    && (s.inFlight != [] ==> s.state == Updated(s.channel, s.inFlight[0]))
    && s.channel.generation == s.version % GENERATIONS
    && s.lastChange <= s.now
  }

  /** What the waiter has observed is still the channel's value while the version is the same. */
  predicate WaiterKnows(s: System) {
    match s.waiter
    case AwaitChange(seen) => seen <= s.version && (seen == s.version ==> s.channel.active > 0)
    case Observed(o, at, since) => Known(s, o, at, since)
    case Sleeping(o, at, since, deadline) =>
      Known(s, o, at, since) && since + s.timeout <= deadline <= s.now + s.timeout
    case Elapsed(o, at, since, deadline) =>
      Known(s, o, at, since) && since + s.timeout <= deadline <= s.now
    case _ => true
  }

  predicate Known(s: System, o: ActivityState, at: nat, since: nat) {
    at <= s.version && since <= s.now && o.active == 0 && o.generation == at % GENERATIONS
    && (at == s.version ==> o == s.channel && s.lastChange <= since)
  }

  predicate Sound(s: System) {
    Synchronised(s) && WaiterKnows(s)
  }

  lemma NextKeepsSynchronised(s: System, a: Action)
    requires Synchronised(s)
    ensures Synchronised(Next(s, a))
  {
  }

  lemma NextKeepsKnown(s: System, a: Action)
    requires Sound(s)
    ensures WaiterKnows(Next(s, a))
  {
  }

  lemma {:induction false} RunKeepsSound(s: System, actions: seq<Action>)
    requires Sound(s)
    ensures Sound(Run(s, actions))
    decreases |actions|
  {
    if actions != [] {
      NextKeepsSynchronised(s, actions[0]);
      NextKeepsKnown(s, actions[0]);
      RunKeepsSound(Next(s, actions[0]), actions[1..]);
    }
  }

  /** In every interleaving the channel equals the locked state whenever the mutex is free. */
  lemma ChannelIsState(timeout: nat, actions: seq<Action>)
    ensures
      var s := Run(Init(timeout), actions);
      s.inFlight == [] ==> s.channel == s.state
  {
    RunKeepsSound(Init(timeout), actions);
  }

  /** The counter never saturates in this run. */
  predicate Unsaturated(s: System, actions: seq<Action>)
    decreases |actions|
  {
    s.guards <= USIZE_MAX && (actions == [] || Unsaturated(Next(s, actions[0]), actions[1..]))
  }

  /** At every point of the run the counter is the number of live guards. */
  predicate CountsThroughout(s: System, actions: seq<Action>)
    decreases |actions|
  {
    s.state.active == s.guards && (actions == [] || CountsThroughout(Next(s, actions[0]), actions[1..]))
  }

  lemma {:induction false} CountsExactly(s: System, actions: seq<Action>)
    requires s.state.active == s.guards <= USIZE_MAX
    ensures CountsThroughout(s, actions) <==> Unsaturated(s, actions)
    ensures Unsaturated(s, actions) ==> Run(s, actions).state.active == Run(s, actions).guards
    decreases |actions|
  {
    if actions != [] {
      var t := Next(s, actions[0]);
      assert t.state.active <= USIZE_MAX && (t.guards <= USIZE_MAX ==> t.state.active == t.guards);
      if t.guards <= USIZE_MAX { CountsExactly(t, actions[1..]); }
    }
  }

  /** The counter equals the number of live guards at every point of a run exactly when there are
      never more than `usize::MAX` of them at once. */
  lemma CounterIsGuards(timeout: nat, actions: seq<Action>)
    ensures CountsThroughout(Init(timeout), actions) <==> Unsaturated(Init(timeout), actions)
    ensures Unsaturated(Init(timeout), actions) ==>
      Run(Init(timeout), actions).state.active == Run(Init(timeout), actions).guards
  {
    CountsExactly(Init(timeout), actions);
  }

  lemma {:induction false} RunAppend(s: System, a: seq<Action>, b: seq<Action>)
    ensures Run(s, a + b) == Run(Run(s, a), b)
    decreases |a|
  {
    if a == [] {
      assert a + b == b;
    } else {
      assert (a + b)[1..] == a[1..] + b;
      RunAppend(Next(s, a[0]), a[1..], b);
    }
  }

  lemma RunTwo(s: System, a: Action, b: Action)
    ensures Run(s, [a, b]) == Next(Next(s, a), b)
  {
    assert [a, b][1..] == [b];
    assert Run(Next(s, a), [b]) == Run(Next(Next(s, a), b), []);
  }

  function Begins(n: nat): seq<Action> {
    if n == 0 then [] else Begins(n - 1) + [Mutate(Begin), Publish]
  }

  lemma {:induction false} BeginsReach(timeout: nat, n: nat)
    ensures
      var s := Run(Init(timeout), Begins(n));
      s.inFlight == [] && s.guards == n && s.state.active == (if n < USIZE_MAX then n else USIZE_MAX)
  {
    if n > 0 {
      BeginsReach(timeout, n - 1);
      RunAppend(Init(timeout), Begins(n - 1), [Mutate(Begin), Publish]);
      RunTwo(Run(Init(timeout), Begins(n - 1)), Mutate(Begin), Publish);
    }
  }

  /** Beyond that the count is lost for good: after `usize::MAX` + 1 begins and one finish the
      counter is one too low. */
  lemma SaturationLosesAGuard(timeout: nat)
    ensures
      var t := Run(Init(timeout), Begins(USIZE_MAX + 1) + [Mutate(Finish), Publish]);
      t.guards == USIZE_MAX && t.state.active == USIZE_MAX - 1
  {
    BeginsReach(timeout, USIZE_MAX + 1);
    RunAppend(Init(timeout), Begins(USIZE_MAX + 1), [Mutate(Finish), Publish]);
    RunTwo(Run(Init(timeout), Begins(USIZE_MAX + 1)), Mutate(Finish), Publish);
  }

  // ---------------------------------------------------------------------------
  // When the waiter returns
  // ---------------------------------------------------------------------------

  /** The check returns exactly when nothing is published as active and the number of updates
      since the observation is a multiple of 2^64. */
  lemma CheckExactly(timeout: nat, actions: seq<Action>)
    requires Run(Init(timeout), actions).waiter.Elapsed?
    ensures
      var s := Run(Init(timeout), actions);
      Next(s, Check).waiter.Returned? <==>
        s.channel.active == 0 && (s.version - s.waiter.at) % GENERATIONS == 0
  {
    RunKeepsSound(Init(timeout), actions);
    var s := Run(Init(timeout), actions);
    SameResidue(s.waiter.at, s.version, GENERATIONS);
  }

  lemma SameResidue(a: nat, b: nat, m: nat)
    requires a <= b && m > 0
    ensures a % m == b % m <==> (b - a) % m == 0
  {
    var (p, q) := (a / m, b / m);
    assert a == p * m + a % m && b == q * m + b % m;
    if a % m == b % m {
      assert b - a == (q - p) * m;
      MultipleHasNoRest(b - a, q - p, m);
    }
    if (b - a) % m == 0 {
      var k := (b - a) / m;
      assert b - a == k * m;
      assert b == (p + k) * m + a % m;
      RestIsUnique(b, p + k, a % m, m);
    }
  }

  lemma MultipleHasNoRest(n: nat, k: int, m: nat)
    requires m > 0 && n == k * m
    ensures n % m == 0
  {
    RestIsUnique(n, k, 0, m);
  }

  lemma RestIsUnique(n: nat, k: int, r: nat, m: nat)
    requires m > 0 && r < m && n == k * m + r
    ensures n % m == r
  {
    var d := n / m;
    assert n == d * m + n % m;
    assert d > k ==> d * m >= (k + 1) * m;
    assert d < k ==> (d + 1) * m <= k * m;
  }

  lemma IdleAtReturn(timeout: nat, actions: seq<Action>)
    requires
      var s := Run(Init(timeout), actions);
      s.waiter.Elapsed? && s.version - s.waiter.at < GENERATIONS && Next(s, Check).waiter.Returned?
    ensures
      var s := Run(Init(timeout), actions);
      && s.version == s.waiter.at && s.waiter.since + timeout <= s.now && s.channel.active == 0
      && s.state.active == (if s.inFlight == [Begin] then 1 else 0)
  {
    CheckExactly(timeout, actions);
    RunKeepsSound(Init(timeout), actions);
    RunKeepsTimeout(Init(timeout), actions);
  }

  /** The waiter has observed and not yet decided. */
  predicate Waiting(w: Waiter) {
    w.Observed? || w.Sleeping? || w.Elapsed?
  }

  /** A waiting waiter made its observation at some point of the run, and has waited since. */
  lemma {:induction false} ObservationPoint(timeout: nat, actions: seq<Action>) returns (j: nat)
    requires Waiting(Run(Init(timeout), actions).waiter)
    ensures j < |actions| && actions[j] == Observe
    ensures
      var (s, o) := (Run(Init(timeout), actions), Run(Init(timeout), actions[..j]));
      o.waiter.Top? && o.channel.active == 0 && o.version == s.waiter.at && o.now == s.waiter.since
    ensures forall k | j < k <= |actions| ::
      Waiting(Run(Init(timeout), actions[..k]).waiter)
      && Run(Init(timeout), actions[..k]).waiter.at == Run(Init(timeout), actions).waiter.at
    decreases |actions|
  {
    var n := |actions| - 1;
    var (init, last) := (actions[..n], actions[n]);
    var p := Run(Init(timeout), init);
    assert actions == init + [last] && actions[..n + 1] == actions;
    RunAppend(Init(timeout), init, [last]);
    assert Run(p, [last]) == Run(Next(p, last), []);
    if Waiting(p.waiter) {
      j := ObservationPoint(timeout, init);
      assert forall k | 0 <= k <= n :: init[..k] == actions[..k];
    } else {
      j := n;
    }
  }

  lemma {:induction false} VersionGrows(s: System, actions: seq<Action>)
    ensures s.version <= Run(s, actions).version
    decreases |actions|
  {
    if actions != [] { VersionGrows(Next(s, actions[0]), actions[1..]); }
  }

  lemma VersionBetween(timeout: nat, actions: seq<Action>, k: nat, n: nat)
    requires k <= n <= |actions|
    ensures Run(Init(timeout), actions[..k]).version <= Run(Init(timeout), actions[..n]).version
  {
    assert actions[..n] == actions[..k] + actions[k..n];
    RunAppend(Init(timeout), actions[..k], actions[k..n]);
    VersionGrows(Run(Init(timeout), actions[..k]), actions[k..n]);
  }

  /** Nothing is published as active, no update is published until `version`, and the only
      operation alive is one that has begun and not published. */
  predicate Idle(s: System, version: nat) {
    s.version == version && s.channel.active == 0 && s.state.active == (if s.inFlight == [Begin] then 1 else 0)
  }

  /** Idle soundness: when the waiter returns after fewer than 2^64 updates since its observation,
      then that observation lies at least the timeout back, and at every point of the run from it
      to the return the system was idle: no update was published, none is active, and at most one
      operation has begun, unpublished. */
  lemma IdleSoundness(timeout: nat, actions: seq<Action>) returns (j: nat)
    requires
      var s := Run(Init(timeout), actions);
      s.waiter.Elapsed? && s.version - s.waiter.at < GENERATIONS && Next(s, Check).waiter.Returned?
    ensures j < |actions| && actions[j] == Observe
    ensures Run(Init(timeout), actions[..j]).now + timeout <= Run(Init(timeout), actions).now
    ensures forall k | j <= k <= |actions| ::
      Idle(Run(Init(timeout), actions[..k]), Run(Init(timeout), actions).version)
  {
    var s := Run(Init(timeout), actions);
    assert actions[..|actions|] == actions;
    IdleAtReturn(timeout, actions);
    j := ObservationPoint(timeout, actions);
    forall k | j <= k <= |actions| ensures Idle(Run(Init(timeout), actions[..k]), s.version) {
      VersionBetween(timeout, actions, j, k);
      VersionBetween(timeout, actions, k, |actions|);
      RunKeepsSound(Init(timeout), actions[..k]);
    }
  }

  /** So, without saturation, no guard is alive when the waiter returns, unless an operation has
      begun and not published yet: then exactly that one is. */
  lemma NoGuardIsAlive(timeout: nat, actions: seq<Action>)
    requires Unsaturated(Init(timeout), actions)
    requires
      var s := Run(Init(timeout), actions);
      s.waiter.Elapsed? && s.version - s.waiter.at < GENERATIONS && Next(s, Check).waiter.Returned?
    ensures
      var s := Run(Init(timeout), actions);
      s.guards == (if s.inFlight == [Begin] then 1 else 0)
  {
    IdleAtReturn(timeout, actions);
    CounterIsGuards(timeout, actions);
  }

  lemma {:induction false} RunKeepsTimeout(s: System, actions: seq<Action>)
    ensures Run(s, actions).timeout == s.timeout
    decreases |actions|
  {
    if actions != [] { RunKeepsTimeout(Next(s, actions[0]), actions[1..]); }
  }

  /** Recorded traffic restarts the period: a waiter whose timer has elapsed starts again. */
  lemma TrafficRestartsTheWait(timeout: nat, actions: seq<Action>)
    requires
      var s := Run(Init(timeout), actions);
      s.waiter.Elapsed? && s.inFlight == [] && s.version - s.waiter.at < GENERATIONS - 1
    ensures Next(Run(Init(timeout), actions + [Mutate(Record), Publish]), Check).waiter.Top?
  {
    var s := Run(Init(timeout), actions);
    RunKeepsSound(Init(timeout), actions);
    RunAppend(Init(timeout), actions, [Mutate(Record), Publish]);
    RunTwo(s, Mutate(Record), Publish);
    CheckExactly(timeout, actions + [Mutate(Record), Publish]);
  }

  /** The waiter returns by that check and in no other way. */
  lemma ReturnsByCheck(s: System, a: Action)
    requires !s.waiter.Returned? && Next(s, a).waiter.Returned?
    ensures a == Check && s.waiter.Elapsed?
  {
  }

  /** The waiter's own steps: first those that end whatever it was doing, then one quiet period. */
  const SETTLE: seq<Action> := [StartSleep, Changed, Check]

  function QuietPeriod(timeout: nat): seq<Action> {
    [Observe, StartSleep, Tick(timeout), Timer, Check]
  }

  /** After settling, the waiter stands at the top again, or it sleeps on an observation that still
      holds, or it has returned. */
  predicate Settled(s: System) {
    || s.waiter.Top? || s.waiter.Returned?
    || (s.waiter.Sleeping? && s.waiter.observed.generation == s.channel.generation
        && s.waiter.deadline <= s.now + s.timeout)
  }

  lemma SettleSettles(s: System)
    requires Sound(s) && s.channel.active == 0
    ensures Settled(Run(s, SETTLE))
    ensures Run(s, SETTLE).channel == s.channel && Run(s, SETTLE).timeout == s.timeout
  {
    var s1 := Next(s, StartSleep);
    var s2 := Next(s1, Changed);
    assert SETTLE[1..] == [Changed, Check];
    assert [Changed, Check][1..] == [Check];
    calc {
      Run(s, SETTLE);
      Run(s1, [Changed, Check]);
      Run(s2, [Check]);
      Run(Next(s2, Check), []);
    }
  }

  lemma SettledReturns(s: System)
    requires Settled(s) && s.channel.active == 0
    ensures Run(s, QuietPeriod(s.timeout)).waiter.Returned?
  {
    var s1 := Next(s, Observe);
    var s2 := Next(s1, StartSleep);
    var s3 := Next(s2, Tick(s.timeout));
    var s4 := Next(s3, Timer);
    var all := QuietPeriod(s.timeout);
    var end: seq<Action> := [Timer, Check];
    assert all[1..][1..][1..] == end && end[1..] == [Check];
    calc {
      Run(s, all);
      Run(s1, all[1..]);
      Run(s2, all[1..][1..]);
      Run(s3, end);
      Run(s4, [Check]);
      Run(Next(s4, Check), []);
    }
  }

  /** A waiter that is left alone for the timeout returns. */
  lemma QuietWaiterReturns(s: System)
    requires Synchronised(s) && s.waiter.Top? && s.channel.active == 0
    ensures Run(s, QuietPeriod(s.timeout)).waiter.Returned?
  {
    SettledReturns(s);
  }

  /** No wake-up is ever lost: wherever the waiter stands, also when it waits for the end of an
      operation it saw, once no operation is published as active its own steps and one more timeout
      make it return. */
  lemma IdleWaiterReturns(timeout: nat, actions: seq<Action>)
    requires Run(Init(timeout), actions).channel.active == 0
    ensures Run(Init(timeout), actions + SETTLE + QuietPeriod(timeout)).waiter.Returned?
  {
    var s := Run(Init(timeout), actions);
    RunKeepsSound(Init(timeout), actions);
    RunKeepsTimeout(Init(timeout), actions);
    RunAppend(Init(timeout), actions, SETTLE);
    RunAppend(Init(timeout), actions + SETTLE, QuietPeriod(timeout));
    SettleSettles(s);
    SettledReturns(Run(s, SETTLE));
  }

  /** The exception is real: an operation that began, but has not published, when the waiter
      checks is alive when the waiter returns. */
  lemma ReturnsWhileBeginning(timeout: nat)
    ensures
      var s := Run(Init(timeout), [Observe, StartSleep, Tick(timeout), Timer, Mutate(Begin), Check]);
      s.waiter.Returned? && s.guards == 1 && s.state.active == 1
  {
    var s0 := Init(timeout);
    var s1 := Next(s0, Observe);
    var s2 := Next(s1, StartSleep);
    var s3 := Next(s2, Tick(timeout));
    var s4 := Next(s3, Timer);
    var all := [Observe, StartSleep, Tick(timeout), Timer, Mutate(Begin), Check];
    var end: seq<Action> := [Mutate(Begin), Check];
    assert all[1..][1..][1..][1..] == end;
    assert end[1..] == [Check];
    calc {
      Run(s0, all);
      Run(s1, all[1..]);
      Run(s2, all[1..][1..]);
      Run(s3, all[1..][1..][1..]);
      Run(s4, end);
      Run(Next(s4, Mutate(Begin)), [Check]);
      Run(Next(Next(s4, Mutate(Begin)), Check), []);
    }
  }
}
