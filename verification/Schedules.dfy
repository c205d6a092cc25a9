/** Writers that take their steps in any order over one shared state, for any type of state, of
    request and of program counter: runs of a schedule, the calls of one writer with nobody in between,
    and how the two compose. */
module Schedules {

  datatype Writer<R, P> = Writer(request: R, pc: P)

  datatype State<D, R, P> = State(disk: D, writers: map<nat, Writer<R, P>>)

  datatype Event<R, A> = Start(writer: nat, request: R) | Call(writer: nat, action: A)

  /** `step` is one call of one writer: on the disk, for its request, from its program counter. */
  function Advance<D, R, P, A>(
    step: (D, nat, R, P, A) -> (D, P), ready: P, s: State<D, R, P>, e: Event<R, A>): State<D, R, P>
  {
    match e
    case Start(w, r) => if w in s.writers then s else s.(writers := s.writers[w := Writer(r, ready)])
    case Call(w, a) =>
      if w !in s.writers then s
      else
        var r := s.writers[w].request;
        var after := step(s.disk, w, r, s.writers[w].pc, a);
        State(after.0, s.writers[w := Writer(r, after.1)])
  }

  function RunAll<D, R, P, A>(
    step: (D, nat, R, P, A) -> (D, P), ready: P, s: State<D, R, P>, events: seq<Event<R, A>>): State<D, R, P>
    decreases |events|
  {
    if events == [] then s else RunAll(step, ready, Advance(step, ready, s, events[0]), events[1..])
  }

  /** Several calls of one writer with nobody in between. */
  function Calls<R, A>(w: nat, actions: seq<A>): seq<Event<R, A>> {
    seq(|actions|, k requires 0 <= k < |actions| => Call(w, actions[k]))
  }

  function Solo<D, R, P, A>(
    step: (D, nat, R, P, A) -> (D, P), d: D, w: nat, r: R, pc: P, actions: seq<A>): (D, P)
    decreases |actions|
  {
    if actions == [] then (d, pc)
    else
      var after := step(d, w, r, pc, actions[0]);
      Solo(step, after.0, w, r, after.1, actions[1..])
  }

  lemma {:induction false} RunCalls<D, R, P, A>(
    step: (D, nat, R, P, A) -> (D, P), ready: P, s: State<D, R, P>, w: nat, actions: seq<A>)
    requires w in s.writers
    ensures
      var r := s.writers[w].request;
      var end := Solo(step, s.disk, w, r, s.writers[w].pc, actions);
      RunAll(step, ready, s, Calls(w, actions)) == State(end.0, s.writers[w := Writer(r, end.1)])
    decreases |actions|
  {
    var calls: seq<Event<R, A>> := Calls(w, actions);
    if actions == [] {
      assert s.writers == s.writers[w := s.writers[w]];
    } else {
      assert calls[0] == Call(w, actions[0]) && calls[1..] == Calls(w, actions[1..]);
      RunCalls(step, ready, Advance(step, ready, s, calls[0]), w, actions[1..]);
    }
  }

  lemma {:induction false} RunAppend<D, R, P, A>(
    step: (D, nat, R, P, A) -> (D, P), ready: P, s: State<D, R, P>, a: seq<Event<R, A>>, b: seq<Event<R, A>>)
    ensures RunAll(step, ready, s, a + b) == RunAll(step, ready, RunAll(step, ready, s, a), b)
    decreases |a|
  {
    if a == [] {
      assert a + b == b;
    } else {
      assert (a + b)[1..] == a[1..] + b;
      RunAppend(step, ready, Advance(step, ready, s, a[0]), a[1..], b);
    }
  }

  lemma {:induction false} AloneAppend<D, R, P, A>(
    step: (D, nat, R, P, A) -> (D, P), d: D, w: nat, r: R, pc: P, a: seq<A>, b: seq<A>)
    ensures
      var mid := Solo(step, d, w, r, pc, a);
      Solo(step, d, w, r, pc, a + b) == Solo(step, mid.0, w, r, mid.1, b)
    decreases |a|
  {
    if a == [] {
      assert a + b == b;
    } else {
      assert (a + b)[1..] == a[1..] + b;
      var after := step(d, w, r, pc, a[0]);
      AloneAppend(step, after.0, w, r, after.1, a[1..], b);
    }
  }

  lemma RunCons<D, R, P, A>(
    step: (D, nat, R, P, A) -> (D, P), ready: P, s: State<D, R, P>, e: Event<R, A>, rest: seq<Event<R, A>>)
    ensures RunAll(step, ready, s, [e] + rest) == RunAll(step, ready, Advance(step, ready, s, e), rest)
  {
    assert ([e] + rest)[1..] == rest;
  }
}
