/**
 The request counter of the collector, as interleaved steps of any number of
 calls: of other threads, or of terminators inside a pass.
 */
module GcProtocol {

  /** Where a call stands, with the value its last atomic operation gave it. */
  datatype Pc = Tested(newCount: nat) | Passing(start: nat) | Looping(newCount: nat) | Returned

  datatype Call = Call(time: nat, pc: Pc)

  datatype Pass = Pass(start: nat, end: nat)

  /** `gcCount` is shared; the clock and the finished passes record the history. */
  datatype State = State(gcCount: nat, calls: seq<Call>, clock: nat, passes: seq<Pass>)

  const START := State(0, [], 0, [])

  datatype Action = Increment | Test(i: nat) | Decrement(i: nat) | Loop(i: nat)

  ghost predicate Enabled(s: State, a: Action) {
    match a
    case Increment => true
    case Test(i) => i < |s.calls| && s.calls[i].pc.Tested?
    case Decrement(i) => i < |s.calls| && s.calls[i].pc.Passing? && s.gcCount > 0
    case Loop(i) => i < |s.calls| && s.calls[i].pc.Looping?
  }

  ghost function Moved(s: State, i: nat, pc: Pc): State
    requires i < |s.calls|
  {
    s.(calls := s.calls[i := s.calls[i].(pc := pc)], clock := s.clock + 1)
  }

  ghost function Step(s: State, a: Action): State
    requires Enabled(s, a)
  {
    match a
    case Increment =>
      State(s.gcCount + 1, s.calls + [Call(s.clock, Tested(s.gcCount + 1))], s.clock + 1, s.passes)
    case Test(i) =>
      Moved(s, i, if s.calls[i].pc.newCount != 1 then Returned else Passing(s.clock))
    case Decrement(i) =>
      Moved(s, i, Looping(s.gcCount - 1)).(gcCount := s.gcCount - 1, passes := s.passes + [Pass(s.calls[i].pc.start, s.clock)])
    case Loop(i) =>
      Moved(s, i, if s.calls[i].pc.newCount > 0 then Passing(s.clock) else Returned)
  }

  // ----- the invariant -----

  /** A call that runs a pass, or is bound to start one. */
  ghost predicate Owns(s: State, i: nat) {
    i < |s.calls| && (s.calls[i].pc == Tested(1) || s.calls[i].pc.Passing? || (s.calls[i].pc.Looping? && s.calls[i].pc.newCount > 0))
  }

  ghost predicate OneOwner(s: State) {
    && (forall i: nat, j: nat :: Owns(s, i) && Owns(s, j) ==> i == j)
    && (s.gcCount > 0 <==> exists i: nat :: Owns(s, i))
  }

  /** A finished pass started after the call. */
  ghost predicate Served(s: State, c: Call) {
    exists p :: 0 <= p < |s.passes| && IsAfter(s.passes[p], c)
  }

  predicate IsAfter(p: Pass, c: Call) { c.time < p.start < p.end }

  function CallsAfter(calls: seq<Call>, time: nat): nat {
    if calls == [] then 0
    else CallsAfter(calls[..|calls| - 1], time) + if calls[|calls| - 1].time > time then 1 else 0
  }

  ghost predicate TimesBelow(s: State) {
    forall i :: 0 <= i < |s.calls| ==> s.calls[i].time < s.clock && (s.calls[i].pc.Passing? ==> s.calls[i].pc.start < s.clock)
  }

  /** The counter holds the pass that runs and every request made since it started. */
  ghost predicate CountsLateCalls(s: State) {
    forall i :: 0 <= i < |s.calls| && s.calls[i].pc.Passing? ==>
      s.gcCount >= 1 + CallsAfter(s.calls, s.calls[i].pc.start)
      && forall j :: 0 <= j < |s.calls| ==> s.calls[j].time != s.calls[i].pc.start
  }

  ghost predicate Inv(s: State) {
    && TimesBelow(s) && OneOwner(s) && CountsLateCalls(s)
    && |s.passes| + s.gcCount == |s.calls|
    && (s.gcCount == 0 ==> forall i :: 0 <= i < |s.calls| ==> Served(s, s.calls[i]))
  }

  lemma {:induction false} CallsAfterSame(a: seq<Call>, b: seq<Call>, time: nat)
    requires |a| == |b| && forall i :: 0 <= i < |a| ==> a[i].time == b[i].time
    ensures CallsAfter(a, time) == CallsAfter(b, time)
  {
    if a != [] {
      CallsAfterSame(a[..|a| - 1], b[..|b| - 1], time);
    }
  }

  lemma {:induction false} NoCallsAfter(calls: seq<Call>, time: nat)
    ensures CallsAfter(calls, time) == 0 <==> forall i :: 0 <= i < |calls| ==> calls[i].time <= time
  {
    if calls != [] {
      NoCallsAfter(calls[..|calls| - 1], time);
      assert forall i :: 0 <= i < |calls| - 1 ==> calls[..|calls| - 1][i] == calls[i];
    }
  }

  lemma {:induction false} IncrementKeepsInv(s: State)
    requires Inv(s)
    ensures Inv(Step(s, Increment))
  {
    var r := Step(s, Increment);
    assert r.calls[..|s.calls|] == s.calls;
    assert forall i :: 0 <= i < |s.calls| ==> r.calls[i] == s.calls[i];
    assert forall i: nat :: i < |s.calls| ==> (Owns(r, i) <==> Owns(s, i));
    if s.gcCount == 0 {
      assert Owns(r, |s.calls|);
    } else {
      var i: nat :| Owns(s, i);
      assert Owns(r, i);
    }
  }

  /** A step that neither touches the counter nor ends a pass, and keeps ownership. */
  lemma {:induction false} MoveKeepsInv(s: State, i: nat, pc: Pc)
    requires Inv(s) && i < |s.calls|
    requires Owns(s, i) <==> pc == Passing(s.clock)
    requires pc == Passing(s.clock) || pc == Returned
    ensures Inv(Moved(s, i, pc))
  {
    var r := Moved(s, i, pc);
    assert forall j :: 0 <= j < |s.calls| && j != i ==> r.calls[j] == s.calls[j];
    assert forall j: nat :: Owns(r, j) <==> Owns(s, j);
    forall j | 0 <= j < |r.calls| && r.calls[j].pc.Passing?
      ensures r.gcCount >= 1 + CallsAfter(r.calls, r.calls[j].pc.start)
    {
      CallsAfterSame(s.calls, r.calls, r.calls[j].pc.start);
      if j == i {
        NoCallsAfter(r.calls, s.clock);
      }
    }
    if s.gcCount == 0 {
      forall j | 0 <= j < |r.calls| ensures Served(r, r.calls[j]) {
        assert Served(s, s.calls[j]);
        var p :| 0 <= p < |s.passes| && IsAfter(s.passes[p], s.calls[j]);
        assert IsAfter(r.passes[p], r.calls[j]);
      }
    }
  }

  lemma {:induction false} DecrementKeepsInv(s: State, i: nat)
    requires Inv(s) && Enabled(s, Decrement(i))
    ensures Inv(Step(s, Decrement(i)))
  {
    var r, start := Step(s, Decrement(i)), s.calls[i].pc.start;
    assert Owns(s, i);
    assert forall j :: 0 <= j < |s.calls| && j != i ==> r.calls[j] == s.calls[j];
    assert forall j: nat :: j != i ==> (Owns(r, j) <==> Owns(s, j));
    assert Owns(r, i) <==> r.gcCount > 0;
    forall j | 0 <= j < |r.calls| && r.calls[j].pc.Passing? ensures false {
      assert Owns(s, j);
    }
    if r.gcCount == 0 {
      NoCallsAfter(s.calls, start);
      forall j | 0 <= j < |r.calls| ensures Served(r, r.calls[j]) {
        assert s.calls[j].time < start;
        assert IsAfter(r.passes[|s.passes|], r.calls[j]);
      }
    }
  }

  lemma {:induction false} StepKeepsInv(s: State, a: Action)
    requires Inv(s) && Enabled(s, a)
    ensures Inv(Step(s, a))
  {
    match a
    case Increment => IncrementKeepsInv(s);
    case Test(i) => MoveKeepsInv(s, i, if s.calls[i].pc.newCount != 1 then Returned else Passing(s.clock));
    case Decrement(i) => DecrementKeepsInv(s, i);
    case Loop(i) => MoveKeepsInv(s, i, if s.calls[i].pc.newCount > 0 then Passing(s.clock) else Returned);
  }

  // ----- runs -----

  ghost predicate IsRun(states: seq<State>, actions: seq<Action>) {
    && |states| == |actions| + 1 && states[0] == START
    && forall k {:trigger actions[k]} :: 0 <= k < |actions| ==>
         Enabled(states[k], actions[k]) && states[k + 1] == Step(states[k], actions[k])
  }

  lemma {:induction false} RunKeepsInv(states: seq<State>, actions: seq<Action>, k: nat)
    requires IsRun(states, actions) && k <= |actions|
    ensures Inv(states[k])
  {
    if k > 0 {
      RunKeepsInv(states, actions, k - 1);
      StepKeepsInv(states[k - 1], actions[k - 1]);
    }
  }

  /** No two calls are ever collecting at once, and none while the counter is zero. */
  lemma {:induction false} OneCollector(states: seq<State>, actions: seq<Action>, k: nat, i: nat, j: nat)
    requires IsRun(states, actions) && k <= |actions|
    requires i < |states[k].calls| && j < |states[k].calls|
    requires states[k].calls[i].pc.Passing? && states[k].calls[j].pc.Passing?
    ensures i == j && states[k].gcCount > 0
  {
    RunKeepsInv(states, actions, k);
    assert Owns(states[k], i) && Owns(states[k], j);
  }

  /** A positive counter always belongs to a call that still has a pass to run. */
  lemma {:induction false} RequestsAreOwned(states: seq<State>, actions: seq<Action>, k: nat)
    requires IsRun(states, actions) && k <= |actions|
    ensures states[k].gcCount > 0 <==> exists i: nat :: Owns(states[k], i)
    ensures states[k].gcCount + |states[k].passes| == |states[k].calls|
  {
    RunKeepsInv(states, actions, k);
  }

  /** When the counter is back at zero, a complete pass started after every request, and there was one for each. */
  lemma {:induction false} EveryRequestIsServed(states: seq<State>, actions: seq<Action>, k: nat, i: nat)
    requires IsRun(states, actions) && k <= |actions| && states[k].gcCount == 0 && i < |states[k].calls|
    ensures Served(states[k], states[k].calls[i])
    ensures |states[k].passes| == |states[k].calls|
  {
    RunKeepsInv(states, actions, k);
  }

  /** A call that is in the middle of a pass can always end it: the counter is positive. */
  lemma {:induction false} DecrementIsEnabled(states: seq<State>, actions: seq<Action>, k: nat, i: nat)
    requires IsRun(states, actions) && k <= |actions| && i < |states[k].calls| && states[k].calls[i].pc.Passing?
    ensures Enabled(states[k], Decrement(i))
  {
    RunKeepsInv(states, actions, k);
  }
}
