/**
 Running initializers once: calls of `runInitialzersBottomUp` interleave, each
 initializer may start further calls, and the list of images changes meanwhile.
 */
module Initializers {
  import opened Lists
  import opened Reaper

  datatype ImageState = Unmapped | Mapped | FixedUp | BeingInited | Inited

  /** `serial` numbers the loads: an image loaded again has the old number and a new serial. */
  datatype Entry = Entry(image: Image, state: ImageState, serial: nat)

  function FirstRep(loaded: seq<Entry>, num: nat, from: nat): (i: nat)
    requires from <= |loaded|
    ensures from <= i <= |loaded|
    ensures i < |loaded| ==> Represents(loaded[i].image, num)
    ensures forall k :: from <= k < i ==> !Represents(loaded[k].image, num)
    decreases |loaded| - from
  {
    if from == |loaded| || Represents(loaded[from].image, num) then from else FirstRep(loaded, num, from + 1)
  }

  /** Where the image with the number is found, the hint tried first. */
  function Lookup(loaded: seq<Entry>, num: nat, hint: nat): nat {
    if hint < |loaded| && Represents(loaded[hint].image, num) then hint else FirstRep(loaded, num, 0)
  }

  ghost predicate IsLoaded(loaded: seq<Entry>, num: nat) {
    exists i :: 0 <= i < |loaded| && Represents(loaded[i].image, num)
  }

  class ImageList {
    var loaded: seq<Entry>

    method UpdateHint(num: nat, hint: nat) returns (index: nat)
      requires IsLoaded(loaded, num)
      ensures index == Lookup(loaded, num, hint) < |loaded|
    {
      index := hint;
      if index >= |loaded| || !Represents(loaded[index].image, num) {
        index := 0;
        while index < |loaded| && !Represents(loaded[index].image, num)
          invariant index <= |loaded|
          invariant FirstRep(loaded, num, 0) == FirstRep(loaded, num, index)
        {
          index := index + 1;
        }
      }
    }

    method FindImageNum(num: nat, hint: nat) returns (copy: Entry, index: nat)
      requires IsLoaded(loaded, num)
      ensures index == Lookup(loaded, num, hint) < |loaded| && copy == loaded[index]
    {
      index := UpdateHint(num, hint);
      copy := loaded[index];
    }

    method SwapImageState(num: nat, hint: nat, expected: ImageState, newState: ImageState) returns (swapped: bool, index: nat)
      requires IsLoaded(loaded, num)
      modifies this
      ensures index == Lookup(old(loaded), num, hint) < |old(loaded)|
      ensures swapped <==> old(loaded)[index].state == expected
      ensures loaded == if swapped then old(loaded)[index := old(loaded)[index].(state := newState)] else old(loaded)
    {
      index := UpdateHint(num, hint);
      swapped := loaded[index].state == expected;
      if swapped {
        loaded := loaded[index := loaded[index].(state := newState)];
      }
    }
  }

  // ----- interleaved calls -----

  datatype Pc = Find | Swap(hint: nat) | Running(hint: nat)

  /** One call: its list of image numbers, and how far it has got. */
  datatype Frame = Frame(list: seq<nat>, pos: nat, pc: Pc)

  /** `loads` is how many images were ever loaded; `started` records the loads whose initializers were started. */
  datatype State = State(loaded: seq<Entry>, frames: seq<Frame>, loads: nat, started: seq<nat>)

  datatype Action = Begin(list: seq<nat>) | Advance(f: nat) | Append(entries: seq<Entry>) | Remove(i: nat)

  /** No two images stand for the same number. */
  ghost predicate OneRepresentative(loaded: seq<Entry>) {
    forall i: nat, j: nat, num: nat {:trigger Represents(loaded[i].image, num), Represents(loaded[j].image, num)} ::
      i < |loaded| && j < |loaded| && Represents(loaded[i].image, num) && Represents(loaded[j].image, num) ==> i == j
  }

  predicate IsActive(frame: Frame) { frame.pos < |frame.list| }

  /** The frame still has to look the image up. */
  ghost predicate Awaits(frame: Frame, image: Image) {
    exists k :: frame.pos <= k < |frame.list| && Represents(image, frame.list[k])
  }

  ghost predicate IsFixedUp(e: Entry) { e.state.FixedUp? || e.state.BeingInited? || e.state.Inited? }

  ghost predicate Enabled(s: State, a: Action) {
    match a
    case Begin(list) => forall k :: 0 <= k < |list| ==> IsLoaded(s.loaded, list[k])
    case Advance(f) => f < |s.frames| && IsActive(s.frames[f])
    case Append(entries) =>
      && OneRepresentative(s.loaded + entries)
      && forall k :: 0 <= k < |entries| ==> IsFixedUp(entries[k]) && entries[k].serial == s.loads + k
    case Remove(i) => i < |s.loaded| && forall f :: 0 <= f < |s.frames| ==> !Awaits(s.frames[f], s.loaded[i].image)
  }

  /** The list and the frame after one atomic step of a call, and whether it started initializers. */
  ghost function Advanced(loaded: seq<Entry>, frame: Frame): (seq<Entry>, Frame, bool)
    requires IsActive(frame) && IsLoaded(loaded, frame.list[frame.pos])
  {
    var num, next := frame.list[frame.pos], Frame(frame.list, frame.pos + 1, Find);
    match frame.pc
    case Find =>
      var i := Lookup(loaded, num, 0);
      (loaded, if loaded[i].state.FixedUp? then frame.(pc := Swap(i)) else next, false)
    case Swap(hint) =>
      var i := Lookup(loaded, num, hint);
      if loaded[i].state.FixedUp? then
        (loaded[i := loaded[i].(state := BeingInited)], frame.(pc := Running(i)), true)
      else (loaded, next, false)
    case Running(hint) =>
      var i := Lookup(loaded, num, hint);
      (if loaded[i].state.BeingInited? then loaded[i := loaded[i].(state := Inited)] else loaded, next, false)
  }

  ghost predicate ListsLoaded(s: State) {
    forall f, k {:trigger s.frames[f].list[k]} :: 0 <= f < |s.frames| && s.frames[f].pos <= k < |s.frames[f].list| ==>
      IsLoaded(s.loaded, s.frames[f].list[k])
  }

  ghost function Step(s: State, a: Action): State
    requires Enabled(s, a) && ListsLoaded(s)
  {
    match a
    case Begin(list) => s.(frames := s.frames + [Frame(list, 0, Find)])
    case Advance(f) =>
      var frame := s.frames[f];
      var num := frame.list[frame.pos];
      var (loaded, moved, starts) := Advanced(s.loaded, frame);
      s.(loaded := loaded, frames := s.frames[f := moved],
         started := if starts then s.started + [s.loaded[Lookup(s.loaded, num, frame.pc.hint)].serial] else s.started)
    case Append(entries) => s.(loaded := s.loaded + entries, loads := s.loads + |entries|)
    case Remove(i) => s.(loaded := s.loaded[..i] + s.loaded[i + 1..])
  }

  // ----- lookup -----

  /** A stale hint does no harm: there is one image to find. */
  lemma {:induction false} LookupIsRight(loaded: seq<Entry>, num: nat, hint: nat, i: nat)
    requires OneRepresentative(loaded) && i < |loaded| && Represents(loaded[i].image, num)
    ensures Lookup(loaded, num, hint) == i
  {
    var j := Lookup(loaded, num, hint);
    assert j < |loaded| && Represents(loaded[j].image, num);
  }

  // ----- the invariant -----

  /** The frame is running the initializers of the image at i. */
  ghost predicate Runs(s: State, f: nat, i: nat) {
    && f < |s.frames| && IsActive(s.frames[f]) && s.frames[f].pc.Running?
    && i < |s.loaded| && Represents(s.loaded[i].image, s.frames[f].list[s.frames[f].pos])
  }

  ghost predicate HasStarted(s: State, i: nat) { i < |s.loaded| && s.loaded[i].serial in s.started }

  /** What has started is marked as such, and is being run or is done. */
  ghost predicate StartedOk(s: State) {
    && (forall i: nat :: HasStarted(s, i) ==> s.loaded[i].state.BeingInited? || s.loaded[i].state.Inited?)
    && (forall i: nat :: HasStarted(s, i) && s.loaded[i].state.BeingInited? ==> exists f: nat :: Runs(s, f, i))
    && (forall f: nat, i: nat :: Runs(s, f, i) ==> HasStarted(s, i) && s.loaded[i].state.BeingInited?)
    && (forall f: nat, g: nat, i: nat :: Runs(s, f, i) && Runs(s, g, i) ==> f == g)
  }

  /** Every load has its own serial. */
  ghost predicate SerialsOk(s: State) {
    && (forall i: nat, j: nat :: i < |s.loaded| && j < |s.loaded| && s.loaded[i].serial == s.loaded[j].serial ==> i == j)
    && (forall i: nat :: i < |s.loaded| ==> s.loaded[i].serial < s.loads)
    && forall x :: x in s.started ==> x < s.loads
  }

  ghost predicate Inv(s: State) {
    && OneRepresentative(s.loaded) && ListsLoaded(s) && StartedOk(s) && SerialsOk(s) && Distinct(s.started)
    && (forall i :: 0 <= i < |s.loaded| ==> IsFixedUp(s.loaded[i]))
    && (forall f :: 0 <= f < |s.frames| ==> s.frames[f].pos <= |s.frames[f].list|)
  }

  ghost predicate HasBegun(e: Entry) { e.state.BeingInited? || e.state.Inited? }

  // ----- steps of a call -----

  /** Only the state of the image at i changes. */
  ghost predicate OnlyState(a: seq<Entry>, b: seq<Entry>, i: nat) {
    && |a| == |b| && (forall k :: 0 <= k < |a| ==> b[k].image == a[k].image && b[k].serial == a[k].serial)
    && forall k :: 0 <= k < |a| && k != i ==> b[k] == a[k]
  }

  lemma {:induction false} SameImages(s: State, r: State, i: nat, f: nat)
    requires Inv(s) && OnlyState(s.loaded, r.loaded, i) && |r.frames| == |s.frames|
    requires f < |s.frames| && r.frames[f].list == s.frames[f].list && r.frames[f].pos >= s.frames[f].pos
    requires forall g :: 0 <= g < |s.frames| && g != f ==> r.frames[g] == s.frames[g]
    ensures OneRepresentative(r.loaded) && ListsLoaded(r)
  {
    forall g, k | 0 <= g < |r.frames| && r.frames[g].pos <= k < |r.frames[g].list|
      ensures IsLoaded(r.loaded, r.frames[g].list[k])
    {
      var num := s.frames[g].list[k];
      var j :| 0 <= j < |s.loaded| && Represents(s.loaded[j].image, num);
      assert Represents(r.loaded[j].image, num);
    }
  }

  lemma {:induction false} SubjectOf(s: State, f: nat, hint: nat) returns (i: nat)
    requires Inv(s) && Enabled(s, Advance(f))
    ensures var num := s.frames[f].list[s.frames[f].pos];
      i == Lookup(s.loaded, num, hint) < |s.loaded| && Represents(s.loaded[i].image, num) && IsLoaded(s.loaded, num)
  {
    var frame := s.frames[f];
    assert IsLoaded(s.loaded, frame.list[frame.pos]);
    i := Lookup(s.loaded, frame.list[frame.pos], hint);
  }

  /** A step that leaves the images alone and does not run anything. */
  lemma {:induction false} LookKeepsInv(s: State, r: State, f: nat, moved: Frame)
    requires Inv(s) && Enabled(s, Advance(f)) && !s.frames[f].pc.Running? && !moved.pc.Running?
    requires r == s.(frames := s.frames[f := moved]) && moved.list == s.frames[f].list && moved.pos >= s.frames[f].pos
    requires moved.pos <= |moved.list|
    ensures Inv(r)
  {
    SameImages(s, r, 0, f);
    assert forall g: nat, i: nat :: Runs(r, g, i) <==> Runs(s, g, i);
    forall i: nat | HasStarted(r, i) && r.loaded[i].state.BeingInited? ensures exists g: nat :: Runs(r, g, i) {
      assert HasStarted(s, i);
      var g: nat :| Runs(s, g, i);
      assert Runs(r, g, i);
    }
  }

  /** The step that starts the initializers of the image at i. */
  ghost predicate Starts(s: State, f: nat, i: nat) {
    && Inv(s) && Enabled(s, Advance(f)) && s.frames[f].pc.Swap? && i < |s.loaded| && s.loaded[i].state.FixedUp?
    && i == Lookup(s.loaded, s.frames[f].list[s.frames[f].pos], s.frames[f].pc.hint)
    && Represents(s.loaded[i].image, s.frames[f].list[s.frames[f].pos])
  }

  lemma {:induction false} StartKeepsStarted(s: State, f: nat, i: nat)
    requires Starts(s, f, i)
    ensures StartedOk(Step(s, Advance(f))) && Distinct(Step(s, Advance(f)).started)
  {
    var r := Step(s, Advance(f));
    forall j: nat ensures HasStarted(r, j) <==> HasStarted(s, j) || j == i {
    }
    assert !HasStarted(s, i);
    assert Runs(r, f, i);
    forall g: nat, j: nat ensures Runs(r, g, j) <==> Runs(s, g, j) || (g == f && j == i) {
    }
    forall j: nat | HasStarted(r, j) && r.loaded[j].state.BeingInited? ensures exists g: nat :: Runs(r, g, j) {
      if j != i {
        var g: nat :| Runs(s, g, j);
        assert Runs(r, g, j);
      }
    }
  }

  lemma {:induction false} StartKeepsInv(s: State, f: nat, i: nat)
    requires Starts(s, f, i)
    ensures Inv(Step(s, Advance(f)))
  {
    var r := Step(s, Advance(f));
    SameImages(s, r, i, f);
    StartKeepsStarted(s, f, i);
  }

  /** The step that ends the initializers of the image at i. */
  ghost predicate Finishes(s: State, f: nat, i: nat) {
    && Inv(s) && Enabled(s, Advance(f)) && Runs(s, f, i) && s.loaded[i].state.BeingInited?
    && i == Lookup(s.loaded, s.frames[f].list[s.frames[f].pos], s.frames[f].pc.hint)
  }

  lemma {:induction false} FinishKeepsStarted(s: State, f: nat, i: nat)
    requires Finishes(s, f, i)
    ensures StartedOk(Step(s, Advance(f)))
  {
    var r := Step(s, Advance(f));
    assert r.loaded == s.loaded[i := s.loaded[i].(state := Inited)];
    forall j: nat ensures HasStarted(r, j) <==> HasStarted(s, j) {
    }
    forall g: nat, j: nat ensures Runs(r, g, j) <==> Runs(s, g, j) && g != f {
    }
    forall j: nat | HasStarted(r, j) && r.loaded[j].state.BeingInited? ensures exists g: nat :: Runs(r, g, j) {
      var g: nat :| Runs(s, g, j);
      assert Runs(r, g, j);
    }
  }

  lemma {:induction false} FinishKeepsInv(s: State, f: nat)
    requires Inv(s) && Enabled(s, Advance(f)) && s.frames[f].pc.Running?
    ensures Inv(Step(s, Advance(f)))
  {
    var i := SubjectOf(s, f, s.frames[f].pc.hint);
    assert Runs(s, f, i);
    SameImages(s, Step(s, Advance(f)), i, f);
    FinishKeepsStarted(s, f, i);
  }

  lemma {:induction false} AdvanceKeepsInv(s: State, f: nat)
    requires Inv(s) && Enabled(s, Advance(f))
    ensures Inv(Step(s, Advance(f)))
  {
    var frame := s.frames[f];
    if frame.pc.Running? {
      FinishKeepsInv(s, f);
    } else {
      var i := SubjectOf(s, f, if frame.pc.Find? then 0 else frame.pc.hint);
      if frame.pc.Swap? && s.loaded[i].state.FixedUp? {
        StartKeepsInv(s, f, i);
      } else {
        LookKeepsInv(s, Step(s, Advance(f)), f, Step(s, Advance(f)).frames[f]);
      }
    }
  }

  // ----- other steps -----

  lemma {:induction false} BeginKeepsInv(s: State, list: seq<nat>)
    requires Inv(s) && Enabled(s, Begin(list))
    ensures Inv(Step(s, Begin(list)))
  {
    var r := Step(s, Begin(list));
    assert forall f: nat, i: nat :: Runs(r, f, i) <==> Runs(s, f, i);
    forall i: nat | HasStarted(r, i) && r.loaded[i].state.BeingInited? ensures exists f: nat :: Runs(r, f, i) {
      assert HasStarted(s, i);
      var f: nat :| Runs(s, f, i);
      assert Runs(r, f, i);
    }
  }

  /** r has the images of s and then the new ones. */
  ghost predicate Gains(s: State, entries: seq<Entry>, r: State) {
    && Enabled(s, Append(entries)) && |r.loaded| == |s.loaded| + |entries|
    && r.frames == s.frames && r.loads == s.loads + |entries| && r.started == s.started
    && (forall i: nat {:trigger r.loaded[i]} :: i < |s.loaded| ==> r.loaded[i] == s.loaded[i])
    && forall i: nat {:trigger r.loaded[i]} :: |s.loaded| <= i < |r.loaded| ==> r.loaded[i] == entries[i - |s.loaded|]
  }

  lemma {:induction false} AppendKeepsSerials(s: State, entries: seq<Entry>, r: State)
    requires SerialsOk(s) && Gains(s, entries, r)
    ensures SerialsOk(r)
    ensures forall i: nat :: HasStarted(r, i) <==> HasStarted(s, i)
  {
    forall i: nat | |s.loaded| <= i < |r.loaded| ensures r.loaded[i].serial == s.loads + (i - |s.loaded|) {
    }
  }

  lemma {:induction false} AppendKeepsLists(s: State, entries: seq<Entry>, r: State)
    requires ListsLoaded(s) && Gains(s, entries, r)
    ensures ListsLoaded(r)
  {
    forall f, k | 0 <= f < |r.frames| && r.frames[f].pos <= k < |r.frames[f].list|
      ensures IsLoaded(r.loaded, r.frames[f].list[k])
    {
      assert IsLoaded(s.loaded, s.frames[f].list[k]);
      var j :| 0 <= j < |s.loaded| && Represents(s.loaded[j].image, s.frames[f].list[k]);
      assert Represents(r.loaded[j].image, s.frames[f].list[k]);
    }
  }

  lemma {:induction false} AppendKeepsInv(s: State, entries: seq<Entry>)
    requires Inv(s) && Enabled(s, Append(entries))
    ensures Inv(Step(s, Append(entries)))
  {
    var r := Step(s, Append(entries));
    assert Gains(s, entries, r);
    AppendKeepsLists(s, entries, r);
    AppendKeepsSerials(s, entries, r);
    forall f: nat, i: nat ensures Runs(r, f, i) <==> Runs(s, f, i) {
      if Runs(r, f, i) {
        RunIsNotNew(s, f, r, i);
      }
    }
    forall i: nat | HasStarted(r, i) && r.loaded[i].state.BeingInited? ensures exists f: nat :: Runs(r, f, i) {
      var f: nat :| Runs(s, f, i);
      assert Runs(r, f, i);
    }
  }

  /** The image that a frame runs was there before: the number still has its old representative. */
  lemma {:induction false} RunIsNotNew(s: State, f: nat, r: State, i: nat)
    requires Inv(s) && OneRepresentative(r.loaded) && r.frames == s.frames && s.loaded <= r.loaded && Runs(r, f, i)
    ensures i < |s.loaded|
  {
    var num := s.frames[f].list[s.frames[f].pos];
    assert IsLoaded(s.loaded, num);
    var j :| 0 <= j < |s.loaded| && Represents(s.loaded[j].image, num);
    assert r.loaded[j] == s.loaded[j] && Represents(r.loaded[j].image, num) && Represents(r.loaded[i].image, num);
  }

  function Shift(i: nat, j: nat): nat { if j < i then j else j + 1 }

  /** r has the images of s but the one at i. */
  ghost predicate Lacks(s: State, i: nat, r: State) {
    && i < |s.loaded| && |r.loaded| == |s.loaded| - 1 && r.frames == s.frames && r.loads == s.loads && r.started == s.started
    && forall j: nat {:trigger r.loaded[j]} :: j < |r.loaded| ==> r.loaded[j] == s.loaded[Shift(i, j)]
  }

  lemma {:induction false} RemoveKeepsLists(s: State, i: nat, r: State)
    requires Inv(s) && Lacks(s, i, r) && Enabled(s, Remove(i))
    ensures OneRepresentative(r.loaded) && ListsLoaded(r)
  {
    forall a: nat, b: nat, num: nat | a < |r.loaded| && b < |r.loaded| && Represents(r.loaded[a].image, num)
      && Represents(r.loaded[b].image, num) ensures a == b
    {
      assert Represents(s.loaded[Shift(i, a)].image, num) && Represents(s.loaded[Shift(i, b)].image, num);
    }
    forall f, k | 0 <= f < |r.frames| && r.frames[f].pos <= k < |r.frames[f].list|
      ensures IsLoaded(r.loaded, r.frames[f].list[k])
    {
      var num := s.frames[f].list[k];
      assert IsLoaded(s.loaded, num);
      var j: nat :| j < |s.loaded| && Represents(s.loaded[j].image, num);
      assert Awaits(s.frames[f], s.loaded[j].image);
      var a := if j < i then j else j - 1;
      assert Represents(r.loaded[a].image, num);
    }
  }

  lemma {:induction false} RemoveKeepsStarted(s: State, i: nat, r: State)
    requires StartedOk(s) && Lacks(s, i, r)
    ensures StartedOk(r)
  {
    assert forall j: nat :: j < |r.loaded| ==> (HasStarted(r, j) <==> HasStarted(s, Shift(i, j)));
    assert forall f: nat, j: nat :: j < |r.loaded| ==> (Runs(r, f, j) <==> Runs(s, f, Shift(i, j)));
    forall j: nat | HasStarted(r, j) && r.loaded[j].state.BeingInited? ensures exists f: nat :: Runs(r, f, j) {
      assert HasStarted(s, Shift(i, j));
      var f: nat :| Runs(s, f, Shift(i, j));
      assert Runs(r, f, j);
    }
  }

  lemma {:induction false} RemoveKeepsInv(s: State, i: nat)
    requires Inv(s) && Enabled(s, Remove(i))
    ensures Inv(Step(s, Remove(i)))
  {
    var r := Step(s, Remove(i));
    assert Lacks(s, i, r);
    RemoveKeepsLists(s, i, r);
    RemoveKeepsStarted(s, i, r);
  }

  lemma {:induction false} StepKeepsInv(s: State, a: Action)
    requires Inv(s) && Enabled(s, a)
    ensures Inv(Step(s, a))
  {
    match a
    case Begin(list) => BeginKeepsInv(s, list);
    case Advance(f) => AdvanceKeepsInv(s, f);
    case Append(entries) => AppendKeepsInv(s, entries);
    case Remove(i) => RemoveKeepsInv(s, i);
  }

  // ----- runs -----

  ghost predicate IsRun(states: seq<State>, actions: seq<Action>) {
    && |states| == |actions| + 1 && states[0] == State([], [], 0, [])
    && forall k {:trigger actions[k]} :: 0 <= k < |actions| ==>
         Enabled(states[k], actions[k]) && ListsLoaded(states[k]) && states[k + 1] == Step(states[k], actions[k])
  }

  lemma {:induction false} RunKeepsInv(states: seq<State>, actions: seq<Action>, k: nat)
    requires IsRun(states, actions) && k <= |actions|
    ensures Inv(states[k])
  {
    if k > 0 {
      RunKeepsInv(states, actions, k - 1);
      StepKeepsInv(states[k - 1], actions[k - 1]);
    }
  }

  /** Whatever interleaves, and whatever is unloaded and loaded again, each load starts its initializers at most once. */
  lemma {:induction false} StartedOnce(states: seq<State>, actions: seq<Action>, k: nat)
    requires IsRun(states, actions) && k <= |actions|
    ensures Distinct(states[k].started)
    ensures forall i: nat, j: nat :: i < j < |states[k].loaded| ==> states[k].loaded[i].serial != states[k].loaded[j].serial
    ensures forall i: nat :: HasStarted(states[k], i) ==> HasBegun(states[k].loaded[i])
  {
    RunKeepsInv(states, actions, k);
  }

  lemma {:induction false} OnlyImageFound(e: Entry, hint: nat)
    ensures IsLoaded([e], e.image.num) && Lookup([e], e.image.num, hint) == 0
  {
    assert Represents([e][0].image, e.image.num);
    LookupAlone(e, hint);
  }

  lemma {:induction false} LookupAlone(e: Entry, hint: nat)
    ensures Lookup([e], e.image.num, hint) == 0
  {
    assert FirstRep([e], e.image.num, 0) == 0;
  }

  /** Some run ends in the state. */
  ghost predicate Reachable(s: State) {
    exists states: seq<State>, actions: seq<Action> :: IsRun(states, actions) && states[|actions|] == s
  }

  lemma {:induction false} RunGrows(states: seq<State>, actions: seq<Action>, a: Action, k: nat)
    requires IsRun(states, actions) && k <= |actions| && Enabled(states[|actions|], a) && ListsLoaded(states[|actions|])
    ensures var longer, all := states + [Step(states[|actions|], a)], actions + [a];
      Enabled(longer[k], all[k]) && ListsLoaded(longer[k]) && longer[k + 1] == Step(longer[k], all[k])
  {
    var longer, all := states + [Step(states[|actions|], a)], actions + [a];
    if k < |actions| {
      assert all[k] == actions[k] && longer[k] == states[k] && longer[k + 1] == states[k + 1];
    }
  }

  lemma {:induction false} ReachableNext(s: State, a: Action)
    requires Reachable(s) && Enabled(s, a) && ListsLoaded(s)
    ensures Reachable(Step(s, a))
  {
    var states: seq<State>, actions: seq<Action> :| IsRun(states, actions) && states[|actions|] == s;
    var longer, all := states + [Step(s, a)], actions + [a];
    forall k | 0 <= k < |all|
      ensures Enabled(longer[k], all[k]) && ListsLoaded(longer[k]) && longer[k + 1] == Step(longer[k], all[k])
    {
      RunGrows(states, actions, a, k);
    }
    assert IsRun(longer, all) && longer[|all|] == Step(s, a);
  }

  /** A call for the only image, which is ready, starts its initializers in its third step. */
  lemma {:induction false} AloneStarts(s: State, e: Entry)
    requires Reachable(s) && s.loaded == [e] && e.state.FixedUp? && ListsLoaded(s)
    ensures Reachable(State([e.(state := BeingInited)], s.frames + [Frame([e.image.num], 0, Running(0))], s.loads, s.started + [e.serial]))
  {
    var list, f := [e.image.num], |s.frames|;
    OnlyImageFound(e, 0);
    ReachableNext(s, Begin(list));
    var looking := s.(frames := s.frames + [Frame(list, 0, Find)]);
    assert looking == Step(s, Begin(list)) && looking.frames[f] == Frame(list, 0, Find);
    ReachableNext(looking, Advance(f));
    var found := s.(frames := s.frames + [Frame(list, 0, Swap(0))]);
    assert found.frames == looking.frames[f := Frame(list, 0, Swap(0))];
    assert found == Step(looking, Advance(f)) && found.frames[f] == Frame(list, 0, Swap(0));
    ReachableNext(found, Advance(f));
    assert s.frames + [Frame(list, 0, Running(0))] == found.frames[f := Frame(list, 0, Running(0))];
  }

  lemma {:induction false} AloneFinishes(e: Entry, loads: nat, started: seq<nat>)
    requires e.state.BeingInited? && Reachable(State([e], [Frame([e.image.num], 0, Running(0))], loads, started))
    ensures Reachable(State([e.(state := Inited)], [Frame([e.image.num], 1, Find)], loads, started))
  {
    OnlyImageFound(e, 0);
    ReachableNext(State([e], [Frame([e.image.num], 0, Running(0))], loads, started), Advance(0));
  }

  lemma {:induction false} AloneReplaced(e: Entry, next: Entry, loads: nat, started: seq<nat>)
    requires Reachable(State([e], [Frame([e.image.num], 1, Find)], loads, started))
    requires IsFixedUp(next) && next.serial == loads
    ensures Reachable(State([next], [Frame([e.image.num], 1, Find)], loads + 1, started))
  {
    ReachableNext(State([e], [Frame([e.image.num], 1, Find)], loads, started), Remove(0));
    var none := State([], [Frame([e.image.num], 1, Find)], loads, started);
    assert Step(State([e], [Frame([e.image.num], 1, Find)], loads, started), Remove(0)) == none;
    assert [] + [next] == [next];
    ReachableNext(none, Append([next]));
  }

  /** An image that was initialized, unloaded and loaded again is initialized again: its second load has a serial of its own. */
  lemma {:induction false} ReloadStartsAgain(image: Image)
    ensures Reachable(State([Entry(image, BeingInited, 1)], [Frame([image.num], 1, Find), Frame([image.num], 0, Running(0))], 2, [0, 1]))
  {
    var first, second := Entry(image, FixedUp, 0), Entry(image, FixedUp, 1);
    var none := State([], [], 0, []);
    assert IsRun([none], []) && [none][0] == none;
    assert [] + [first] == [first];
    ReachableNext(none, Append([first]));
    AloneStarts(State([first], [], 1, []), first);
    assert [] + [Frame([image.num], 0, Running(0))] == [Frame([image.num], 0, Running(0))] && [] + [0] == [0];
    AloneFinishes(Entry(image, BeingInited, 0), 1, [0]);
    AloneReplaced(Entry(image, Inited, 0), second, 1, [0]);
    AloneStarts(State([second], [Frame([image.num], 1, Find)], 2, [0]), second);
    assert [0] + [1] == [0, 1];
  }

  /**
   What a call owes to the load with the serial z, found under the number at m of
   its list: before it gets there the image stays, and afterwards it has begun.
   */
  ghost predicate IsDue(s: State, f: nat, m: nat, z: nat, image: Image) {
    && f < |s.frames| && m < |s.frames[f].list| && z < s.loads && Represents(image, s.frames[f].list[m])
    && (s.frames[f].pos <= m ==> exists i: nat :: i < |s.loaded| && s.loaded[i].serial == z)
    && forall i: nat :: i < |s.loaded| && s.loaded[i].serial == z ==>
         s.loaded[i].image == image && (s.frames[f].pos > m ==> HasBegun(s.loaded[i]))
  }

  /** The call deals with the image in this step. */
  lemma {:induction false} CrossingBegins(s: State, f: nat, i: nat)
    requires Inv(s) && Enabled(s, Advance(f)) && i < |s.loaded|
    requires Represents(s.loaded[i].image, s.frames[f].list[s.frames[f].pos])
    ensures var r := Step(s, Advance(f)); r.frames[f].pos > s.frames[f].pos ==> HasBegun(r.loaded[i])
  {
    var frame := s.frames[f];
    var j := SubjectOf(s, f, if frame.pc.Find? then 0 else frame.pc.hint);
    assert i == j;
    if frame.pc.Running? {
      assert Runs(s, f, i);
    }
  }

  lemma {:induction false} DueAdvances(s: State, g: nat, f: nat, m: nat, z: nat, image: Image)
    requires Inv(s) && Enabled(s, Advance(g)) && IsDue(s, f, m, z, image)
    ensures IsDue(Step(s, Advance(g)), f, m, z, image)
  {
    var r := Step(s, Advance(g));
    forall i: nat | i < |s.loaded|
      ensures r.loaded[i].serial == s.loaded[i].serial && r.loaded[i].image == s.loaded[i].image
      ensures HasBegun(s.loaded[i]) ==> HasBegun(r.loaded[i])
    {
      StepMovesOne(s, g, i);
    }
    if s.frames[f].pos <= m {
      var i: nat :| i < |s.loaded| && s.loaded[i].serial == z;
      assert r.loaded[i].serial == z;
      if f == g && s.frames[f].pos == m {
        CrossingBegins(s, f, i);
      }
    }
  }

  lemma {:induction false} DueStays(s: State, a: Action, f: nat, m: nat, z: nat, image: Image)
    requires Inv(s) && Enabled(s, a) && IsDue(s, f, m, z, image)
    ensures IsDue(Step(s, a), f, m, z, image)
  {
    var r := Step(s, a);
    match a
    case Begin(list) =>
    case Advance(g) => DueAdvances(s, g, f, m, z, image);
    case Append(entries) =>
      if s.frames[f].pos <= m {
        var i: nat :| i < |s.loaded| && s.loaded[i].serial == z;
        assert r.loaded[i] == s.loaded[i];
      }
    case Remove(j) =>
      assert Lacks(s, j, r);
      if s.frames[f].pos <= m {
        var i: nat :| i < |s.loaded| && s.loaded[i].serial == z;
        assert Awaits(s.frames[f], s.loaded[i].image);
        assert r.loaded[if i < j then i else i - 1] == s.loaded[i];
      }
  }

  lemma {:induction false} DueUntil(states: seq<State>, actions: seq<Action>, b: nat, k: nat, f: nat, m: nat, z: nat,
                                    image: Image)
    requires IsRun(states, actions) && b <= k <= |actions| && IsDue(states[b], f, m, z, image)
    ensures IsDue(states[k], f, m, z, image) && states[k].frames[f].list == states[b].frames[f].list
    decreases k
  {
    if b < k {
      DueUntil(states, actions, b, k - 1, f, m, z, image);
      RunKeepsInv(states, actions, k - 1);
      DueStays(states[k - 1], actions[k - 1], f, m, z, image);
    }
  }

  /**
   When a call is over, every image that was loaded when it began, that is on its
   list and that was not unloaded since has at least begun to be initialized.
   */
  lemma {:induction false} FinishedHasBegun(states: seq<State>, actions: seq<Action>, b: nat, k: nat, f: nat, m: nat,
                                            i: nat, j: nat)
    requires IsRun(states, actions) && b <= k <= |actions|
    requires f < |states[b].frames| && states[b].frames[f].pos == 0 && m < |states[b].frames[f].list|
    requires i < |states[b].loaded| && Represents(states[b].loaded[i].image, states[b].frames[f].list[m])
    requires f < |states[k].frames| && !IsActive(states[k].frames[f])
    requires j < |states[k].loaded| && states[k].loaded[j].serial == states[b].loaded[i].serial
    ensures states[k].loaded[j].image == states[b].loaded[i].image && HasBegun(states[k].loaded[j])
  {
    RunKeepsInv(states, actions, b);
    RunKeepsInv(states, actions, k);
    DueUntil(states, actions, b, k, f, m, states[b].loaded[i].serial, states[b].loaded[i].image);
  }

  /** When no call is active, everything that was started and is still loaded is done. */
  lemma {:induction false} QuietMeansInited(states: seq<State>, actions: seq<Action>, k: nat, i: nat)
    requires IsRun(states, actions) && k <= |actions| && HasStarted(states[k], i)
    requires forall f :: 0 <= f < |states[k].frames| ==> !IsActive(states[k].frames[f])
    ensures states[k].loaded[i].state.Inited?
  {
    RunKeepsInv(states, actions, k);
    assert forall f: nat :: !Runs(states[k], f, i);
  }

  /**
   One step of a call moves at most one image on, by one state: to being
   initialized only with a start, and to initialized only by the call that started it.
   */
  lemma {:induction false} StatesOnlyAdvance(states: seq<State>, actions: seq<Action>, k: nat, f: nat, i: nat)
    requires IsRun(states, actions) && k < |actions| && actions[k] == Advance(f) && i < |states[k].loaded|
    ensures |states[k + 1].loaded| == |states[k].loaded| && states[k + 1].loaded[i].image == states[k].loaded[i].image
    ensures var was, now := states[k].loaded[i].state, states[k + 1].loaded[i].state;
      was != now ==>
        || (was.FixedUp? && now.BeingInited? && states[k + 1].started == states[k].started + [states[k].loaded[i].serial])
        || (was.BeingInited? && now.Inited? && Runs(states[k], f, i))
  {
    RunKeepsInv(states, actions, k);
    StepMovesOne(states[k], f, i);
  }

  lemma {:induction false} StepMovesOne(s: State, f: nat, i: nat)
    requires Inv(s) && Enabled(s, Advance(f)) && i < |s.loaded|
    ensures var r := Step(s, Advance(f));
      && |r.loaded| == |s.loaded| && r.loaded[i].image == s.loaded[i].image && r.loaded[i].serial == s.loaded[i].serial
      && (r.loaded[i] != s.loaded[i] ==>
           || (s.loaded[i].state.FixedUp? && r.loaded[i].state.BeingInited? && r.started == s.started + [s.loaded[i].serial])
           || (s.loaded[i].state.BeingInited? && r.loaded[i].state.Inited? && Runs(s, f, i)))
  {
    match s.frames[f].pc
    case Find =>
    case Swap(hint) => var j := SubjectOf(s, f, hint);
    case Running(hint) =>
      var j := SubjectOf(s, f, hint);
      assert Runs(s, f, j);
  }
}
