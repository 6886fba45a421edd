/**
 Which opens a collection leaves and which images it removes, told from the state
 before it: terminators close images, and what only those opens held goes too.
 */
module UnloadingCounts {
  import opened Reaper
  import opened Unloading
  import opened UnloadingProof

  // ----- taking opens off many addresses at once -----

  function LoweredEntry(c: OpenCount, closes: multiset<nat>): seq<OpenCount> {
    if c.count > closes[c.address] then [OpenCount(c.address, c.count - closes[c.address])] else []
  }

  /** Every count less the closes of its address; what would fall to zero or below goes away. */
  function Lowered(counts: seq<OpenCount>, closes: multiset<nat>): seq<OpenCount> {
    if counts == [] then [] else LoweredEntry(counts[0], closes) + Lowered(counts[1..], closes)
  }

  lemma {:induction false} LoweredAppend(a: seq<OpenCount>, b: seq<OpenCount>, closes: multiset<nat>)
    ensures Lowered(a + b, closes) == Lowered(a, closes) + Lowered(b, closes)
  {
    if a == [] {
      assert a + b == b;
    } else {
      LoweredAppend(a[1..], b, closes);
      assert (a + b)[1..] == a[1..] + b;
    }
  }

  /** Only the closes of addresses with a count matter. */
  lemma {:induction false} LoweredSame(counts: seq<OpenCount>, a: multiset<nat>, b: multiset<nat>)
    requires forall c :: c in counts ==> a[c.address] == b[c.address]
    ensures Lowered(counts, a) == Lowered(counts, b)
  {
    if counts != [] {
      assert counts[0] in counts;
      LoweredSame(counts[1..], a, b);
    }
  }

  ghost predicate Untouched(counts: seq<OpenCount>, closes: multiset<nat>) {
    forall i :: 0 <= i < |counts| ==> counts[i].count > 0 && closes[counts[i].address] == 0
  }

  lemma {:induction false} LoweredNot(counts: seq<OpenCount>, closes: multiset<nat>)
    requires Untouched(counts, closes)
    ensures Lowered(counts, closes) == counts
  {
    if counts != [] {
      LoweredNot(counts[1..], closes);
      assert LoweredEntry(counts[0], closes) == [counts[0]];
    }
  }

  lemma {:induction false} LoweredTwice(counts: seq<OpenCount>, a: multiset<nat>, b: multiset<nat>)
    ensures Lowered(Lowered(counts, a), b) == Lowered(counts, a + b)
  {
    if counts != [] {
      var c, rest := counts[0], Lowered(counts[1..], a);
      LoweredTwice(counts[1..], a, b);
      LoweredAppend(LoweredEntry(c, a), rest, b);
      EntryTwice(c, a, b);
    }
  }

  lemma {:induction false} EntryTwice(c: OpenCount, a: multiset<nat>, b: multiset<nat>)
    ensures Lowered(LoweredEntry(c, a), b) == LoweredEntry(c, a + b)
  {
    if c.count > a[c.address] {
      LoweredOne(OpenCount(c.address, c.count - a[c.address]), b);
    }
  }

  lemma {:induction false} LoweredOne(c: OpenCount, closes: multiset<nat>)
    ensures Lowered([c], closes) == LoweredEntry(c, closes)
  {
    assert [c][1..] == [];
    assert LoweredEntry(c, closes) + [] == LoweredEntry(c, closes);
  }

  lemma {:induction false} LoweredAround(front: seq<OpenCount>, c: OpenCount, back: seq<OpenCount>, closes: multiset<nat>)
    requires Untouched(front, closes) && Untouched(back, closes)
    ensures Lowered(front + ([c] + back), closes) == front + (LoweredEntry(c, closes) + back)
  {
    LoweredAppend(front, [c] + back, closes);
    LoweredAppend([c], back, closes);
    LoweredOne(c, closes);
    LoweredNot(front, closes);
    LoweredNot(back, closes);
  }

  lemma {:induction false} UpdateSplit<T>(a: seq<T>, e: nat, x: T)
    requires e < |a|
    ensures a[e := x] == a[..e] + ([x] + a[e + 1..])
  {
  }

  lemma {:induction false} RemoveSplit<T>(a: seq<T>, e: nat)
    requires e < |a|
    ensures a[..e] + a[e + 1..] == a[..e] + ([] + a[e + 1..])
  {
    assert [] + a[e + 1..] == a[e + 1..];
  }

  /** What a close does to the counts, split at the entry of the address. */
  lemma {:induction false} DecAround(counts: seq<OpenCount>, address: nat, e: nat)
    requires CountsValid(counts) && e == FirstCount(counts, address, 0) < |counts|
    ensures Dec(counts, address).0 == counts[..e] + (LoweredEntry(counts[e], multiset{address}) + counts[e + 1..])
  {
    if counts[e].count == 1 {
      RemoveSplit(counts, e);
    } else {
      UpdateSplit(counts, e, OpenCount(address, counts[e].count - 1));
    }
  }

  lemma {:induction false} OthersUntouched(counts: seq<OpenCount>, address: nat, e: nat)
    requires CountsValid(counts) && e == FirstCount(counts, address, 0)
    ensures Untouched(counts[..e], multiset{address})
    ensures e < |counts| ==> Untouched(counts[e + 1..], multiset{address})
  {
  }

  /** One dlclose() is the least case. */
  lemma {:induction false} DecIsLowered(counts: seq<OpenCount>, address: nat)
    requires CountsValid(counts)
    ensures Dec(counts, address).0 == Lowered(counts, multiset{address})
  {
    var e, one := FirstCount(counts, address, 0), multiset{address};
    OthersUntouched(counts, address, e);
    if e == |counts| {
      assert counts[..e] == counts;
      LoweredNot(counts, one);
    } else {
      LoweredAround(counts[..e], counts[e], counts[e + 1..], one);
      DecAround(counts, address, e);
      assert counts == counts[..e] + ([counts[e]] + counts[e + 1..]);
    }
  }

  lemma {:induction false} LoweredHolds(counts: seq<OpenCount>, closes: multiset<nat>, address: nat)
    ensures IsOpen(Lowered(counts, closes), address)
      <==> exists c :: c in counts && c.address == address && c.count > closes[address]
  {
    if counts != [] {
      var r, first, rest := Lowered(counts, closes), LoweredEntry(counts[0], closes), Lowered(counts[1..], closes);
      LoweredHolds(counts[1..], closes, address);
      if IsOpen(r, address) {
        var i :| 0 <= i < |r| && Holds(r[i], address);
        assert counts[0] in counts;
        if i >= |first| {
          assert Holds(rest[i - |first|], address);
        }
      }
      if IsOpen(rest, address) {
        var i :| 0 <= i < |rest| && Holds(rest[i], address);
        assert Holds(r[|first| + i], address);
      }
      if counts[0].address == address && counts[0].count > closes[address] {
        assert Holds(r[0], address);
      }
    }
  }

  /** More closes leave fewer open. */
  lemma {:induction false} LoweredShrinks(counts: seq<OpenCount>, a: multiset<nat>, b: multiset<nat>)
    requires a <= b
    ensures OpenShrinks(Lowered(counts, a), Lowered(counts, b))
  {
    forall address ensures IsOpen(Lowered(counts, b), address) ==> IsOpen(Lowered(counts, a), address) {
      LoweredHolds(counts, a, address);
      LoweredHolds(counts, b, address);
    }
  }

  lemma {:induction false} OpenShrinksFrom(counts: seq<OpenCount>, closes: multiset<nat>)
    requires CountsValid(counts)
    ensures OpenShrinks(counts, Lowered(counts, closes))
  {
    LoweredNot(counts, multiset{});
    LoweredShrinks(counts, multiset{}, closes);
  }

  // ----- the dlclose() calls of terminators -----

  /** The first k calls that have an effect: those for an address at which an image that can be unloaded is loaded. */
  function Effective(all: seq<Loaded>, closes: seq<nat>, k: nat): multiset<nat>
    requires k <= |closes|
  {
    if k == 0 then multiset{}
    else Effective(all, closes, k - 1) + if IsUnloadableAt(all, closes[k - 1]) then multiset{closes[k - 1]} else multiset{}
  }

  /** Their order does not matter, only how often each address is closed. */
  lemma {:induction false} EffectiveAt(all: seq<Loaded>, closes: seq<nat>, k: nat, a: nat)
    requires k <= |closes|
    ensures Effective(all, closes, k)[a] == if IsUnloadableAt(all, a) then multiset(closes[..k])[a] else 0
  {
    if k > 0 {
      EffectiveAt(all, closes, k - 1, a);
      assert closes[..k] == closes[..k - 1] + [closes[k - 1]];
    }
  }

  lemma {:induction false} CloseEachLowers(s: State, closes: seq<nat>, k: nat)
    requires Valid(s) && k <= |closes|
    ensures CloseEach(s, closes, k).counts == Lowered(s.counts, Effective(s.loaded, closes, k))
  {
    if k == 0 {
      LoweredNot(s.counts, multiset{});
    } else {
      CloseEachLowers(s, closes, k - 1);
      var before, a := CloseEach(s, closes, k - 1), closes[k - 1];
      if IsUnloadableAt(s.loaded, a) {
        DecIsLowered(before.counts, a);
        LoweredTwice(s.counts, Effective(s.loaded, closes, k - 1), multiset{a});
      } else {
        assert Effective(s.loaded, closes, k) == Effective(s.loaded, closes, k - 1);
      }
    }
  }

  function CallsOf(all: seq<Loaded>, x: Loaded): multiset<nat> { Effective(all, x.image.closes, |x.image.closes|) }

  /** The effective calls of the terminators of the first k images. */
  function Calls(all: seq<Loaded>, images: seq<Loaded>, k: nat): multiset<nat>
    requires k <= |images|
  {
    if k == 0 then multiset{} else Calls(all, images, k - 1) + CallsOf(all, images[k - 1])
  }

  lemma {:induction false} OneTerminatorLowers(s: State, x: Loaded)
    requires Valid(s)
    ensures CloseEach(s, x.image.closes, |x.image.closes|).counts == Lowered(s.counts, CallsOf(s.loaded, x))
  {
    CloseEachLowers(s, x.image.closes, |x.image.closes|);
  }

  lemma {:induction false} NextTerminatorLowers(s: State, t: State, x: Loaded, before: multiset<nat>)
    requires Valid(t) && t.loaded == s.loaded && t.counts == Lowered(s.counts, before)
    ensures CloseEach(t, x.image.closes, |x.image.closes|).counts == Lowered(s.counts, before + CallsOf(s.loaded, x))
  {
    OneTerminatorLowers(t, x);
    LoweredTwice(s.counts, before, CallsOf(s.loaded, x));
  }

  lemma {:induction false} TerminateLowers(s: State, dead: seq<Loaded>, k: nat)
    requires Valid(s) && k <= |dead|
    ensures Terminate(s, dead, k).counts == Lowered(s.counts, Calls(s.loaded, dead, k))
  {
    if k == 0 {
      LoweredNot(s.counts, multiset{});
    } else {
      TerminateLowers(s, dead, k - 1);
      NextTerminatorLowers(s, Terminate(s, dead, k - 1), dead[k - 1], Calls(s.loaded, dead, k - 1));
    }
  }

  /** The effective calls of the terminators of the images at the given addresses. */
  function CallsAt(all: seq<Loaded>, images: seq<Loaded>, gone: set<nat>): multiset<nat> {
    if images == [] then multiset{}
    else (if images[0].address in gone then CallsOf(all, images[0]) else multiset{}) + CallsAt(all, images[1..], gone)
  }

  lemma {:induction false} CallsAtSnoc(all: seq<Loaded>, images: seq<Loaded>, x: Loaded, gone: set<nat>)
    ensures CallsAt(all, images + [x], gone)
         == CallsAt(all, images, gone) + if x.address in gone then CallsOf(all, x) else multiset{}
  {
    if images == [] {
      assert ([] + [x])[1..] == [];
    } else {
      CallsAtSnoc(all, images[1..], x, gone);
      assert (images + [x])[1..] == images[1..] + [x];
    }
  }

  lemma {:induction false} CallsAtSame(all: seq<Loaded>, images: seq<Loaded>, a: set<nat>, b: set<nat>)
    requires forall x :: x in images ==> (x.address in a <==> x.address in b)
    ensures CallsAt(all, images, a) == CallsAt(all, images, b)
  {
    if images != [] {
      assert images[0] in images;
      CallsAtSame(all, images[1..], a, b);
    }
  }

  lemma {:induction false} CallsAtGrows(all: seq<Loaded>, images: seq<Loaded>, a: set<nat>, b: set<nat>)
    requires a <= b
    ensures CallsAt(all, images, a) <= CallsAt(all, images, b)
  {
    if images != [] {
      CallsAtGrows(all, images[1..], a, b);
    }
  }

  /** The calls of two removals, one after the other. */
  lemma {:induction false} CallsAtSplit(all: seq<Loaded>, images: seq<Loaded>, a: set<nat>, b: set<nat>)
    ensures CallsAt(all, images, a + b) == CallsAt(all, images, a) + CallsAt(all, Without(images, a), b)
  {
    if images != [] {
      CallsAtSplit(all, images[1..], a, b);
      var x, rest := images[0], Without(images[1..], a);
      if x.address in a {
        assert Without(images, a) == [] + rest == rest;
      } else {
        assert ([x] + rest)[1..] == rest;
      }
    }
  }

  /** Where the two lists agree on what can be unloaded, the same calls have an effect. */
  lemma {:induction false} CallsAtAgree(all: seq<Loaded>, other: seq<Loaded>, images: seq<Loaded>, gone: set<nat>, a: nat)
    requires IsUnloadableAt(all, a) == IsUnloadableAt(other, a)
    ensures CallsAt(all, images, gone)[a] == CallsAt(other, images, gone)[a]
  {
    if images != [] {
      CallsAtAgree(all, other, images[1..], gone, a);
      var closes := images[0].image.closes;
      EffectiveAt(all, closes, |closes|, a);
      EffectiveAt(other, closes, |closes|, a);
    }
  }

  // ----- one pass -----

  lemma {:induction false} CallsPrefix(all: seq<Loaded>, a: seq<Loaded>, b: seq<Loaded>, k: nat)
    requires k <= |a| && k <= |b| && forall j :: 0 <= j < k ==> a[j] == b[j]
    ensures Calls(all, a, k) == Calls(all, b, k)
  {
    if k > 0 {
      CallsPrefix(all, a, b, k - 1);
    }
  }

  lemma {:induction false} CallsSnoc(all: seq<Loaded>, images: seq<Loaded>, x: Loaded)
    ensures Calls(all, images + [x], |images| + 1) == Calls(all, images, |images|) + CallsOf(all, x)
  {
    CallsPrefix(all, images, images + [x], |images|);
  }

  lemma {:induction false} UnmarkedStep(all: seq<Loaded>, before: seq<Loaded>, front: seq<Loaded>, x: Loaded, gone: set<nat>)
    requires Calls(all, before, |before|) == CallsAt(all, front, gone)
    ensures var after := before + if x.address in gone then [x] else [];
      Calls(all, after, |after|) == CallsAt(all, front + [x], gone)
  {
    CallsAtSnoc(all, front, x, gone);
    if x.address in gone {
      CallsSnoc(all, before, x);
    } else {
      assert before + [] == before;
    }
  }

  lemma {:induction false} UnmarkedNext(u: seq<Loaded>, flags: seq<bool>, k: nat, gone: set<nat>)
    requires |flags| == |u| && 0 < k <= |u| && (flags[k - 1] <==> u[k - 1].address !in gone)
    ensures Unmarked(u, flags, k) == Unmarked(u, flags, k - 1) + if u[k - 1].address in gone then [u[k - 1]] else []
  {
  }

  lemma {:induction false} UnmarkedMore(all: seq<Loaded>, u: seq<Loaded>, flags: seq<bool>, k: nat, gone: set<nat>,
                                        before: seq<Loaded>, after: seq<Loaded>)
    requires |flags| == |u| && 0 < k <= |u| && after == before + if u[k - 1].address in gone then [u[k - 1]] else []
    requires Calls(all, before, |before|) == CallsAt(all, u[..k - 1], gone)
    ensures Calls(all, after, |after|) == CallsAt(all, u[..k], gone)
  {
    UnmarkedStep(all, before, u[..k - 1], u[k - 1], gone);
    assert u[..k] == u[..k - 1] + [u[k - 1]];
  }

  lemma {:induction false} UnmarkedCalls(all: seq<Loaded>, u: seq<Loaded>, flags: seq<bool>, k: nat, gone: set<nat>)
    requires |flags| == |u| && k <= |u| && forall j :: 0 <= j < k ==> (flags[j] <==> u[j].address !in gone)
    ensures var dead := Unmarked(u, flags, k); Calls(all, dead, |dead|) == CallsAt(all, u[..k], gone)
  {
    if k > 0 {
      UnmarkedCalls(all, u, flags, k - 1, gone);
      UnmarkedNext(u, flags, k, gone);
      UnmarkedMore(all, u, flags, k, gone, Unmarked(u, flags, k - 1), Unmarked(u, flags, k));
    }
  }

  lemma {:induction false} UnloadablesStep(all: seq<Loaded>, kept: seq<Loaded>, front: seq<Loaded>, x: Loaded, gone: set<nat>)
    requires CallsAt(all, kept, gone) == CallsAt(all, front, gone) && (x.image.neverUnload ==> x.address !in gone)
    ensures CallsAt(all, kept + (if x.image.neverUnload then [] else [x]), gone) == CallsAt(all, front + [x], gone)
  {
    CallsAtSnoc(all, front, x, gone);
    CallsAtSnoc(all, kept, x, gone);
    if x.image.neverUnload {
      assert kept + [] == kept;
      assert CallsAt(all, front, gone) + multiset{} == CallsAt(all, front, gone);
    }
  }

  lemma {:induction false} UnloadablesCalls(all: seq<Loaded>, loaded: seq<Loaded>, k: nat, gone: set<nat>)
    requires k <= |loaded| && forall i :: 0 <= i < |loaded| && loaded[i].image.neverUnload ==> loaded[i].address !in gone
    ensures CallsAt(all, Unloadables(loaded[..k]), gone) == CallsAt(all, loaded[..k], gone)
  {
    if k == 0 {
      assert loaded[..0] == [];
    } else {
      UnloadablesCalls(all, loaded, k - 1, gone);
      UnloadablesStep(all, Unloadables(loaded[..k - 1]), loaded[..k - 1], loaded[k - 1], gone);
      UnloadablesSnoc(loaded[..k - 1], loaded[k - 1]);
      assert loaded[..k] == loaded[..k - 1] + [loaded[k - 1]];
    }
  }

  /** The counts after the terminators of the images at the given addresses have run. */
  function CountsLeft(loaded: seq<Loaded>, counts: seq<OpenCount>, gone: set<nat>): seq<OpenCount> {
    Lowered(counts, CallsAt(loaded, loaded, gone))
  }

  lemma {:induction false} UnheldIsUnloadable(loaded: seq<Loaded>, counts: seq<OpenCount>, x: Loaded)
    requires DistinctAddresses(loaded) && x in loaded && x.address in Unheld(loaded, counts)
    ensures !x.image.neverUnload && !IsOpen(counts, x.address)
  {
    UnheldAt(loaded, counts, x);
    UnloadablesAre(loaded, x);
    if IsOpen(counts, x.address) && !x.image.neverUnload {
      RootIsNeeded(Unloadables(loaded), counts, x);
    }
  }

  lemma {:induction false} FlagsAreHeld(loaded: seq<Loaded>, counts: seq<OpenCount>, j: nat)
    requires DistinctAddresses(loaded) && j < |Unloadables(loaded)|
    ensures var u := Unloadables(loaded); LiveFlags(u, counts)[j] <==> u[j].address !in Unheld(loaded, counts)
  {
    var u := Unloadables(loaded);
    UnloadablesAre(loaded, u[j]);
    DeadAt(loaded, counts, j);
    DeadIsUnheld(loaded, counts, u[j]);
    UnheldAt(loaded, counts, u[j]);
  }

  /** What a pass leaves of the counts. */
  lemma {:induction false} PassLowers(s: State)
    requires Valid(s) && s.gcCount > 0 && DistinctAddresses(s.loaded)
    ensures Pass(s).counts == CountsLeft(s.loaded, s.counts, Unheld(s.loaded, s.counts))
  {
    var u, gone := Unloadables(s.loaded), Unheld(s.loaded, s.counts);
    var dead := Dead(s.loaded, s.counts);
    TerminateLowers(s, dead, |dead|);
    forall j | 0 <= j < |u| ensures LiveFlags(u, s.counts)[j] <==> u[j].address !in gone {
      FlagsAreHeld(s.loaded, s.counts, j);
    }
    UnmarkedCalls(s.loaded, u, LiveFlags(u, s.counts), |u|, gone);
    forall i | 0 <= i < |s.loaded| && s.loaded[i].image.neverUnload ensures s.loaded[i].address !in gone {
      if s.loaded[i].address in gone {
        UnheldIsUnloadable(s.loaded, s.counts, s.loaded[i]);
      }
    }
    UnloadablesCalls(s.loaded, s.loaded, |s.loaded|, gone);
    assert u[..|u|] == u && s.loaded[..|s.loaded|] == s.loaded;
  }

  // ----- one removal after another -----

  /** Closes of an address that was removed do nothing any more, and nothing is open there. */
  lemma {:induction false} LeftTwice(loaded: seq<Loaded>, counts: seq<OpenCount>, more: set<nat>)
    requires DistinctAddresses(loaded) && CountsValid(counts)
    ensures var gone := Unheld(loaded, counts);
      CountsLeft(Without(loaded, gone), CountsLeft(loaded, counts, gone), more) == CountsLeft(loaded, counts, gone + more)
  {
    var gone := Unheld(loaded, counts);
    var rest, left := Without(loaded, gone), CountsLeft(loaded, counts, gone);
    forall c | c in left ensures CallsAt(rest, rest, more)[c.address] == CallsAt(loaded, rest, more)[c.address] {
      StaysUnloadable(loaded, counts, c.address, c);
      CallsAtAgree(rest, loaded, rest, more, c.address);
    }
    LoweredSame(left, CallsAt(rest, rest, more), CallsAt(loaded, rest, more));
    LoweredTwice(counts, CallsAt(loaded, loaded, gone), CallsAt(loaded, rest, more));
    CallsAtSplit(loaded, loaded, gone, more);
  }

  lemma {:induction false} LoweredFrom(counts: seq<OpenCount>, closes: multiset<nat>, c: OpenCount)
    requires c in Lowered(counts, closes)
    ensures exists b :: b in counts && b.address == c.address && b.count >= c.count > 0
  {
    if c in LoweredEntry(counts[0], closes) {
      assert counts[0] in counts;
    } else {
      LoweredFrom(counts[1..], closes, c);
    }
  }

  lemma {:induction false} StaysUnloadable(loaded: seq<Loaded>, counts: seq<OpenCount>, a: nat, c: OpenCount)
    requires DistinctAddresses(loaded) && CountsValid(counts)
    requires c in CountsLeft(loaded, counts, Unheld(loaded, counts)) && c.address == a
    ensures IsUnloadableAt(Without(loaded, Unheld(loaded, counts)), a) == IsUnloadableAt(loaded, a)
  {
    var gone := Unheld(loaded, counts);
    var rest := Without(loaded, gone);
    LoweredFrom(counts, CallsAt(loaded, loaded, gone), c);
    var b :| b in counts && b.address == a && b.count > 0;
    var e :| 0 <= e < |counts| && counts[e] == b;
    assert Holds(counts[e], a);
    if IsUnloadableAt(loaded, a) {
      var i :| 0 <= i < |loaded| && UnloadableAt(loaded[i], a);
      if a in gone {
        UnheldIsUnloadable(loaded, counts, loaded[i]);
      }
      assert loaded[i] in rest;
      var k :| 0 <= k < |rest| && rest[k] == loaded[i];
      assert UnloadableAt(rest[k], a);
    }
    if IsUnloadableAt(rest, a) {
      var k :| 0 <= k < |rest| && UnloadableAt(rest[k], a);
      assert rest[k] in loaded;
      var i :| 0 <= i < |loaded| && loaded[i] == rest[k];
      assert UnloadableAt(loaded[i], a);
    }
  }

  // ----- the whole collection -----

  lemma {:induction false} LeftShrinks(loaded: seq<Loaded>, counts: seq<OpenCount>, a: set<nat>, b: set<nat>)
    requires a <= b
    ensures OpenShrinks(CountsLeft(loaded, counts, a), CountsLeft(loaded, counts, b))
  {
    CallsAtGrows(loaded, loaded, a, b);
    LoweredShrinks(counts, CallsAt(loaded, loaded, a), CallsAt(loaded, loaded, b));
  }

  /** With fewer open, fewer are held. */
  lemma {:induction false} UnheldGrows(loaded: seq<Loaded>, before: seq<OpenCount>, after: seq<OpenCount>)
    requires OpenShrinks(before, after)
    ensures Unheld(loaded, before) <= Unheld(loaded, after)
  {
    var u := Unloadables(loaded);
    forall a | a in Unheld(loaded, before) ensures a in Unheld(loaded, after) {
      var x :| x in u && !Needed(u, before, x) && x.address == a;
      if Needed(u, after, x) {
        NeededMonotone(u, before, after, x);
      }
    }
  }

  /** What is not held at the end went now, or is not held among what stays now. */
  lemma {:induction false} UnheldSplits(loaded: seq<Loaded>, before: seq<OpenCount>, after: seq<OpenCount>)
    requires DistinctAddresses(loaded) && OpenShrinks(before, after)
    ensures var gone := Unheld(loaded, before);
      Unheld(loaded, after) == gone + Unheld(Without(loaded, gone), after)
  {
    var gone := Unheld(loaded, before);
    var rest := Without(loaded, gone);
    WithoutDistinct(loaded, gone);
    UnheldGrows(loaded, before, after);
    forall a | a in Unheld(loaded, after) ensures a in gone + Unheld(rest, after) {
      var x := UnheldImage(loaded, after, a);
      HeldSplits(loaded, before, after, x);
      UnheldAt(loaded, before, x);
      UnheldAt(loaded, after, x);
      if x in rest {
        UnheldAt(rest, after, x);
      }
    }
    forall a | a in Unheld(rest, after) ensures a in Unheld(loaded, after) {
      var x := UnheldImage(rest, after, a);
      HeldSplits(loaded, before, after, x);
      UnheldAt(loaded, after, x);
      UnheldAt(rest, after, x);
    }
  }

  lemma {:induction false} UnheldImage(loaded: seq<Loaded>, counts: seq<OpenCount>, a: nat) returns (x: Loaded)
    requires DistinctAddresses(loaded) && a in Unheld(loaded, counts)
    ensures x in loaded && x.address == a
  {
    x :| x in Unloadables(loaded) && !Needed(Unloadables(loaded), counts, x) && x.address == a;
    UnloadablesAre(loaded, x);
  }

  lemma {:induction false} SameOpenSameUnheld(loaded: seq<Loaded>, before: seq<OpenCount>, after: seq<OpenCount>)
    requires SameOpen(before, after)
    ensures Unheld(loaded, before) == Unheld(loaded, after)
  {
    SameOpenSameUnneeded(Unloadables(loaded), before, after);
  }

  /** The counts that a collection leaves: less by the dlclose() calls of the terminators of what it removed. */
  lemma {:induction false} CollectLowers(s: State)
    requires Valid(s) && s.gcCount > 0 && DistinctAddresses(s.loaded)
    ensures Collect(s).counts == CountsLeft(s.loaded, s.counts, Unheld(s.loaded, Collect(s).counts))
    decreases |s.counts| + s.gcCount
  {
    var gone, dead, t := Unheld(s.loaded, s.counts), Dead(s.loaded, s.counts), Pass(s);
    TerminateNarrows(s, dead, |dead|);
    PassLowers(s);
    PassRemoves(s);
    if t.gcCount > 0 {
      WithoutDistinct(s.loaded, gone);
      CollectLowers(t);
      CollectIsExact(s);
      UnheldSplits(s.loaded, s.counts, Collect(s).counts);
      LeftTwice(s.loaded, s.counts, Unheld(t.loaded, Collect(s).counts));
    } else {
      SameOpenSameUnheld(s.loaded, s.counts, t.counts);
    }
  }

  // ----- the least removal -----

  /** With the images at these addresses gone, and what their terminators close, nothing else is without a hold. */
  ghost predicate Settles(loaded: seq<Loaded>, counts: seq<OpenCount>, gone: set<nat>) {
    Unheld(loaded, CountsLeft(loaded, counts, gone)) <= gone
  }

  /** A set that settles the state settles what the first pass leaves of it. */
  lemma {:induction false} SettlesRest(loaded: seq<Loaded>, counts: seq<OpenCount>, other: set<nat>)
    requires DistinctAddresses(loaded) && CountsValid(counts) && Settles(loaded, counts, other)
    ensures var gone := Unheld(loaded, counts);
      gone <= other && Settles(Without(loaded, gone), CountsLeft(loaded, counts, gone), other)
  {
    var gone, left := Unheld(loaded, counts), CountsLeft(loaded, counts, other);
    OpenShrinksFrom(counts, CallsAt(loaded, loaded, other));
    UnheldGrows(loaded, counts, left);
    LeftTwice(loaded, counts, other);
    assert gone + other == other;
    UnheldSplits(loaded, counts, left);
  }

  lemma {:induction false} RemovedIsLeast(s: State, other: set<nat>)
    requires Valid(s) && s.gcCount > 0 && DistinctAddresses(s.loaded) && Settles(s.loaded, s.counts, other)
    ensures Unheld(s.loaded, Collect(s).counts) <= other
    decreases |s.counts| + s.gcCount
  {
    var gone, dead, t := Unheld(s.loaded, s.counts), Dead(s.loaded, s.counts), Pass(s);
    TerminateNarrows(s, dead, |dead|);
    PassLowers(s);
    PassRemoves(s);
    SettlesRest(s.loaded, s.counts, other);
    if t.gcCount > 0 {
      WithoutDistinct(s.loaded, gone);
      RemovedIsLeast(t, other);
      CollectIsExact(s);
      UnheldSplits(s.loaded, s.counts, Collect(s).counts);
    } else {
      SameOpenSameUnheld(s.loaded, s.counts, t.counts);
    }
  }

  /** The addresses of the images that can be unloaded. */
  function Places(loaded: seq<Loaded>): set<nat> { set x | x in loaded :: x.address }

  lemma {:induction false} UnheldIsPlaced(loaded: seq<Loaded>, counts: seq<OpenCount>)
    requires DistinctAddresses(loaded)
    ensures Unheld(loaded, counts) <= Places(loaded)
  {
    forall a | a in Unheld(loaded, counts) ensures a in Places(loaded) {
      var x := UnheldImage(loaded, counts, a);
    }
  }

  /** Adds what has lost its last hold until nothing has. */
  ghost function GoneFrom(loaded: seq<Loaded>, counts: seq<OpenCount>, gone: set<nat>): set<nat>
    requires DistinctAddresses(loaded)
    decreases Places(loaded) - gone
  {
    var next := Unheld(loaded, CountsLeft(loaded, counts, gone));
    if next <= gone then gone
    else
      UnheldIsPlaced(loaded, CountsLeft(loaded, counts, gone));
      assert Places(loaded) - (gone + next) < Places(loaded) - gone by {
        var a :| a in next && a !in gone;
        assert a in Places(loaded) - gone;
      }
      GoneFrom(loaded, counts, gone + next)
  }

  /** Where the images stand that a collection removes, told before it. */
  ghost function Gone(loaded: seq<Loaded>, counts: seq<OpenCount>): set<nat>
    requires DistinctAddresses(loaded)
  {
    GoneFrom(loaded, counts, {})
  }

  lemma {:induction false} GoneFromIsLeast(loaded: seq<Loaded>, counts: seq<OpenCount>, gone: set<nat>, other: set<nat>)
    requires DistinctAddresses(loaded)
    ensures Settles(loaded, counts, GoneFrom(loaded, counts, gone))
    ensures gone <= other && Settles(loaded, counts, other) ==> GoneFrom(loaded, counts, gone) <= other
    decreases Places(loaded) - gone
  {
    var next := Unheld(loaded, CountsLeft(loaded, counts, gone));
    if !(next <= gone) {
      UnheldIsPlaced(loaded, CountsLeft(loaded, counts, gone));
      var a :| a in next && a !in gone;
      assert a in Places(loaded) - gone;
      if gone <= other && Settles(loaded, counts, other) {
        LeftShrinks(loaded, counts, gone, other);
        UnheldGrows(loaded, CountsLeft(loaded, counts, gone), CountsLeft(loaded, counts, other));
      }
      GoneFromIsLeast(loaded, counts, gone + next, other);
    }
  }

  /** It is the least set with which everything else is held, whatever the order of terminators. */
  lemma {:induction false} GoneIsLeast(loaded: seq<Loaded>, counts: seq<OpenCount>, other: set<nat>)
    requires DistinctAddresses(loaded)
    ensures Settles(loaded, counts, Gone(loaded, counts))
    ensures Settles(loaded, counts, other) ==> Gone(loaded, counts) <= other
  {
    GoneFromIsLeast(loaded, counts, {}, other);
  }

  /** A set with which the counts leave just it without a hold, and which is within every set that settles, is that set. */
  lemma {:induction false} LeastIsGone(loaded: seq<Loaded>, counts: seq<OpenCount>, removed: set<nat>)
    requires DistinctAddresses(loaded) && removed == Unheld(loaded, CountsLeft(loaded, counts, removed))
    requires Settles(loaded, counts, Gone(loaded, counts)) ==> removed <= Gone(loaded, counts)
    ensures removed == Gone(loaded, counts)
  {
    GoneIsLeast(loaded, counts, removed);
  }

  lemma {:induction false} RemovedIsGone(s: State, left: seq<OpenCount>)
    requires Valid(s) && s.gcCount > 0 && DistinctAddresses(s.loaded) && left == Collect(s).counts
    ensures left == CountsLeft(s.loaded, s.counts, Unheld(s.loaded, left))
    ensures Unheld(s.loaded, left) == Gone(s.loaded, s.counts)
  {
    CollectLowers(s);
    if Settles(s.loaded, s.counts, Gone(s.loaded, s.counts)) {
      RemovedIsLeast(s, Gone(s.loaded, s.counts));
    }
    LeastIsGone(s.loaded, s.counts, Unheld(s.loaded, left));
  }

  /** The outcome of a collection, in terms of the state before it alone. */
  lemma {:induction false} CollectOutcome(s: State)
    requires Valid(s) && s.gcCount > 0 && DistinctAddresses(s.loaded)
    ensures var gone := Gone(s.loaded, s.counts);
      Collect(s) == State(Without(s.loaded, gone), CountsLeft(s.loaded, s.counts, gone), 0)
  {
    RemovedIsGone(s, Collect(s).counts);
    CollectIsExact(s);
  }
}
