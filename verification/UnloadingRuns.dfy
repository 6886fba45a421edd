/** Whole runs of dlopen() and dlclose(): what stays loaded, what goes, and when a dependency can be lost. */
module UnloadingRuns {
  import opened Lists
  import opened Reaper
  import opened Unloading
  import opened UnloadingCounts
  import opened UnloadingProof

  datatype Event = Load(images: seq<Loaded>) | Reopen(num: nat) | Close(address: nat)

  ghost function Step(s: State, e: Event): (r: State)
    requires Valid(s) && (e.Load? ==> e.images != [])
    ensures Valid(r)
  {
    match e
    case Load(images) =>
      IncIsValid(s.counts, images[0].address);
      AfterLoad(s, images)
    case Reopen(num) =>
      var i := FirstNumbered(s.loaded, num, 0);
      if i < |s.loaded| then IncIsValid(s.counts, s.loaded[i].address); Reopened(s, num) else Reopened(s, num)
    case Close(address) => Closed(s, address)
  }

  // ----- counts -----

  lemma {:induction false} IncIsValid(counts: seq<OpenCount>, address: nat)
    requires CountsValid(counts)
    ensures CountsValid(Inc(counts, address))
  {
  }

  /** How many opens of the address are outstanding. */
  function Outstanding(counts: seq<OpenCount>, address: nat): nat {
    var e := FirstCount(counts, address, 0);
    if e < |counts| then counts[e].count else 0
  }

  lemma {:induction false} OutstandingAt(counts: seq<OpenCount>, e: nat)
    requires CountsValid(counts) && e < |counts|
    ensures Outstanding(counts, counts[e].address) == counts[e].count
  {
  }

  lemma {:induction false} OutstandingNone(counts: seq<OpenCount>, address: nat)
    requires forall e :: 0 <= e < |counts| ==> counts[e].address != address
    ensures Outstanding(counts, address) == 0
  {
  }

  lemma {:induction false} IncCounts(counts: seq<OpenCount>, a: nat, b: nat)
    requires CountsValid(counts)
    ensures Outstanding(Inc(counts, a), b) == Outstanding(counts, b) + if a == b then 1 else 0
  {
    var r, e := Inc(counts, a), FirstCount(counts, b, 0);
    IncIsValid(counts, a);
    if e < |counts| {
      assert r[e].address == b;
      OutstandingAt(r, e);
    } else if a == b {
      assert r[|counts|] == OpenCount(a, 1);
      OutstandingAt(r, |counts|);
    } else {
      OutstandingNone(r, b);
    }
  }

  /** Closing takes one open off the address, and the last one takes the entry with it. */
  lemma {:induction false} DecCounts(counts: seq<OpenCount>, a: nat, b: nat)
    requires CountsValid(counts)
    ensures var (r, erased) := Dec(counts, a);
      && Outstanding(r, b) == Outstanding(counts, b) - (if a == b && Outstanding(counts, a) > 0 then 1 else 0)
      && (erased <==> Outstanding(counts, a) == 1)
  {
    var (r, erased) := Dec(counts, a);
    var d, e := FirstCount(counts, a, 0), FirstCount(counts, b, 0);
    if e == |counts| || (erased && e == d) {
      forall i | 0 <= i < |r| ensures r[i].address != b {
        assert r[i].address == counts[if erased && i >= d then i + 1 else i].address;
      }
      OutstandingNone(r, b);
    } else {
      OutstandingAt(r, if erased && e > d then e - 1 else e);
    }
  }

  lemma {:induction false} OpenMeansOutstanding(counts: seq<OpenCount>, address: nat)
    requires CountsValid(counts)
    ensures IsOpen(counts, address) <==> Outstanding(counts, address) > 0
  {
    if IsOpen(counts, address) {
      var e :| 0 <= e < |counts| && Holds(counts[e], address);
      OutstandingAt(counts, e);
    }
    if Outstanding(counts, address) > 0 {
      assert Holds(counts[FirstCount(counts, address, 0)], address);
    }
  }

  lemma {:induction false} IncOpens(counts: seq<OpenCount>, a: nat)
    requires CountsValid(counts)
    ensures OpenShrinks(Inc(counts, a), counts) && IsOpen(Inc(counts, a), a)
    ensures forall b :: IsOpen(Inc(counts, a), b) ==> b == a || IsOpen(counts, b)
  {
    IncIsValid(counts, a);
    forall b ensures IsOpen(Inc(counts, a), b) <==> b == a || IsOpen(counts, b) {
      IncCounts(counts, a, b);
      OpenMeansOutstanding(counts, b);
      OpenMeansOutstanding(Inc(counts, a), b);
    }
  }

  function Monus(n: nat, m: nat): nat { if n > m then n - m else 0 }

  /** Many closes at once: each address loses as many opens as it is closed, down to none. */
  lemma {:induction false} LoweredCounts(counts: seq<OpenCount>, closes: multiset<nat>, a: nat)
    requires CountsValid(counts)
    ensures Outstanding(Lowered(counts, closes), a) == Monus(Outstanding(counts, a), closes[a])
    decreases |closes|
  {
    if closes == multiset{} {
      assert Untouched(counts, closes);
      LoweredNot(counts, closes);
    } else {
      var b :| b in closes;
      var rest := closes - multiset{b};
      DecIsLowered(counts, b);
      LoweredTwice(counts, multiset{b}, rest);
      assert multiset{b} + rest == closes;
      DecCounts(counts, b, a);
      LoweredCounts(Dec(counts, b).0, rest, a);
    }
  }

  // ----- one dlclose() -----

  /** A dlclose() of the address takes the last open of an image that can be unloaded. */
  predicate IsLastClose(s: State, address: nat)
    requires Valid(s)
  {
    IsUnloadableAt(s.loaded, address) && Dec(s.counts, address).1
  }

  /** Where the images stand that a dlclose() removes. */
  ghost function RemovedByClose(s: State, address: nat): set<nat>
    requires Valid(s) && DistinctAddresses(s.loaded)
  {
    if IsLastClose(s, address) then Gone(s.loaded, Dec(s.counts, address).0) else {}
  }

  /** The dlclose() itself, and those that terminators of removed images make. */
  ghost function ClosesMade(s: State, address: nat): multiset<nat>
    requires Valid(s) && DistinctAddresses(s.loaded)
  {
    (if IsUnloadableAt(s.loaded, address) then multiset{address} else multiset{})
    + CallsAt(s.loaded, s.loaded, RemovedByClose(s, address))
  }

  /** The counts that a dlclose() leaves. */
  ghost function CountsAfterClose(s: State, address: nat): seq<OpenCount>
    requires Valid(s) && DistinctAddresses(s.loaded)
  {
    Lowered(s.counts, ClosesMade(s, address))
  }

  lemma {:induction false} NoCalls(all: seq<Loaded>, images: seq<Loaded>)
    ensures CallsAt(all, images, {}) == multiset{}
  {
    if images != [] {
      NoCalls(all, images[1..]);
    }
  }

  lemma {:induction false} NothingRemoved(s: State, address: nat)
    requires Valid(s) && s.gcCount == 0 && DistinctAddresses(s.loaded) && !IsLastClose(s, address)
    ensures Closed(s, address) == State(s.loaded, Lowered(s.counts, ClosesMade(s, address)), 0)
  {
    NoCalls(s.loaded, s.loaded);
    if IsUnloadableAt(s.loaded, address) {
      DecIsLowered(s.counts, address);
      assert ClosesMade(s, address) == multiset{address};
    } else {
      assert ClosesMade(s, address) == multiset{};
      LoweredNot(s.counts, multiset{});
    }
  }

  /**
   What a dlclose() does, told from the state before it: it removes the least set
   of images without which everything else is held, and every address loses the
   opens that were closed.
   */
  lemma {:induction false} CloseOutcome(s: State, address: nat)
    requires Valid(s) && s.gcCount == 0 && DistinctAddresses(s.loaded)
    ensures Closed(s, address)
         == State(Without(s.loaded, RemovedByClose(s, address)), CountsAfterClose(s, address), 0)
  {
    if IsLastClose(s, address) {
      var counts, gone := Dec(s.counts, address).0, RemovedByClose(s, address);
      CollectOutcome(State(s.loaded, counts, 1));
      DecIsLowered(s.counts, address);
      LoweredTwice(s.counts, multiset{address}, CallsAt(s.loaded, s.loaded, gone));
    } else {
      NothingRemoved(s, address);
      WithoutNone(s.loaded, {});
    }
  }

  /** The opens outstanding after a dlclose(): at each address, the former ones less the closes made, down to none. */
  lemma {:induction false} CloseCounts(s: State, address: nat, a: nat)
    requires Valid(s) && s.gcCount == 0 && DistinctAddresses(s.loaded)
    ensures Outstanding(Closed(s, address).counts, a) == Monus(Outstanding(s.counts, a), ClosesMade(s, address)[a])
    ensures !IsUnloadableAt(s.loaded, a) ==> ClosesMade(s, address)[a] == 0
  {
    CloseOutcome(s, address);
    LoweredCounts(s.counts, ClosesMade(s, address), a);
    CallsAreEffective(s.loaded, s.loaded, RemovedByClose(s, address), a);
  }

  lemma {:induction false} CallsAreEffective(all: seq<Loaded>, images: seq<Loaded>, gone: set<nat>, a: nat)
    ensures !IsUnloadableAt(all, a) ==> CallsAt(all, images, gone)[a] == 0
  {
    if images != [] {
      CallsAreEffective(all, images[1..], gone, a);
      EffectiveAt(all, images[0].image.closes, |images[0].image.closes|, a);
    }
  }

  // ----- the invariant -----

  ghost predicate IsLinked(loaded: seq<Loaded>, link: Link) {
    IsFollowed(link) ==> exists y :: y in loaded && LeadsTo(link, y.image)
  }

  /** Every dependent of a loaded image is loaded. */
  ghost predicate Complete(loaded: seq<Loaded>) {
    forall x, k {:trigger IsLinked(loaded, x.image.dependents[k])} ::
      x in loaded && 0 <= k < |x.image.dependents| ==> IsLinked(loaded, x.image.dependents[k])
  }

  ghost predicate OpenAreLoaded(s: State) {
    forall a :: IsOpen(s.counts, a) ==> exists x :: x in s.loaded && x.address == a
  }

  ghost predicate AllNeeded(s: State) {
    forall x {:trigger Needed(s.loaded, s.counts, x)} :: x in s.loaded ==> Needed(s.loaded, s.counts, x)
  }

  ghost predicate Inv(s: State) {
    && s.gcCount == 0 && Valid(s) && DistinctAddresses(s.loaded) && PinnedClosed(s.loaded)
    && Complete(s.loaded) && OpenAreLoaded(s) && AllNeeded(s)
  }

  /**
   What a load brings: images at new addresses, with all their dependents, each
   reached from the one asked for, which is never unloaded if it is in the cache.
   */
  ghost predicate Admissible(s: State, e: Event) {
    e.Load? ==>
      var all := s.loaded + e.images;
      && e.images != [] && DistinctAddresses(all) && PinnedClosed(all) && Complete(all)
      && (e.images[0].image.inDyldCache ==> e.images[0].image.neverUnload)
      && forall y :: y in e.images ==> Reaches(all, e.images[0], y)
  }

  lemma {:induction false} NeededGrows(a: seq<Loaded>, b: seq<Loaded>, before: seq<OpenCount>, after: seq<OpenCount>,
                                       x: Loaded)
    requires Needed(a, before, x) && OpenShrinks(after, before) && forall y :: y in a ==> y in b
    ensures Needed(b, after, x)
  {
    NeededMonotone(a, after, before, x);
    forall y | Needed(a, after, y) ensures y in b {
      NeededIsLoaded(a, after, y);
    }
    NeededWithin(a, b, after, x);
  }

  lemma {:induction false} LoadIsNeeded(s: State, images: seq<Loaded>, x: Loaded)
    requires Inv(s) && Admissible(s, Load(images)) && x in s.loaded + images
    ensures Needed(s.loaded + images, AfterLoad(s, images).counts, x)
  {
    var r, top := AfterLoad(s, images), images[0];
    IncOpens(s.counts, top.address);
    if x in s.loaded {
      assert Needed(s.loaded, s.counts, x);
      NeededGrows(s.loaded, r.loaded, s.counts, r.counts, x);
    } else {
      assert IsRoot(r.counts, top) && Reaches(r.loaded, top, x);
    }
  }

  lemma {:induction false} LoadKeepsInv(s: State, images: seq<Loaded>)
    requires Inv(s) && Admissible(s, Load(images))
    ensures Inv(Step(s, Load(images)))
  {
    var r, top := Step(s, Load(images)), images[0];
    IncOpens(s.counts, top.address);
    assert top in r.loaded;
    forall x | x in r.loaded ensures Needed(r.loaded, r.counts, x) {
      LoadIsNeeded(s, images, x);
    }
    forall a | IsOpen(r.counts, a) ensures exists x :: x in r.loaded && x.address == a {
      if a != top.address {
        assert IsOpen(s.counts, a);
        var x :| x in s.loaded && x.address == a;
        assert x in r.loaded;
      }
    }
  }

  lemma {:induction false} ReopenKeepsInv(s: State, num: nat)
    requires Inv(s)
    ensures Inv(Step(s, Reopen(num)))
  {
    var r, i := Step(s, Reopen(num)), FirstNumbered(s.loaded, num, 0);
    if r != s {
      IncOpens(s.counts, s.loaded[i].address);
      assert s.loaded[i] in r.loaded;
      forall x | x in r.loaded ensures Needed(r.loaded, r.counts, x) {
        NeededGrows(s.loaded, r.loaded, s.counts, r.counts, x);
      }
    }
  }

  /** A dlclose() leaves exactly what its outcome needs. */
  lemma {:induction false} CloseIsExact(s: State, address: nat)
    requires Inv(s)
    ensures var r := Closed(s, address);
      r.gcCount == 0 && OpenShrinks(s.counts, r.counts) && r.loaded == Without(s.loaded, Unneeded(s.loaded, r.counts))
  {
    var r := Closed(s, address);
    var (counts, erased) := Dec(s.counts, address);
    DecOpen(s.counts, address);
    if IsUnloadableAt(s.loaded, address) && erased {
      CollectIsExact(State(s.loaded, counts, 1));
      UnheldIsUnneeded(s.loaded, r.counts);
    } else {
      forall x | x in s.loaded ensures x.address !in Unneeded(s.loaded, r.counts) {
        UnneededAt(s.loaded, r.counts, x);
        NeededMonotone(s.loaded, r.counts, s.counts, x);
      }
      WithoutNone(s.loaded, Unneeded(s.loaded, r.counts));
    }
  }

  /** What is left is closed under dependence, and everything in it is still needed. */
  lemma {:induction false} ShrinkKeeps(s: State, r: State)
    requires Inv(s) && Valid(r) && r.gcCount == 0 && OpenShrinks(s.counts, r.counts)
    requires r.loaded == Without(s.loaded, Unneeded(s.loaded, r.counts))
    ensures Inv(r)
  {
    WithoutDistinct(s.loaded, Unneeded(s.loaded, r.counts));
    forall x | x in s.loaded ensures x in r.loaded <==> Needed(s.loaded, r.counts, x) {
      UnneededAt(s.loaded, r.counts, x);
    }
    forall y | Needed(s.loaded, r.counts, y) ensures y in r.loaded {
      NeededIsLoaded(s.loaded, r.counts, y);
    }
    forall x | x in r.loaded ensures Needed(r.loaded, r.counts, x) {
      NeededWithin(s.loaded, r.loaded, r.counts, x);
    }
    forall x, k | x in r.loaded && 0 <= k < |x.image.dependents| ensures IsLinked(r.loaded, x.image.dependents[k]) {
      var link := x.image.dependents[k];
      assert x in s.loaded && IsLinked(s.loaded, link);
      if IsFollowed(link) {
        var y :| y in s.loaded && LeadsTo(link, y.image);
        assert LinksTo(x.image, y.image);
        NeededNext(s.loaded, r.counts, x, y);
      }
    }
    forall a | IsOpen(r.counts, a) ensures exists x :: x in r.loaded && x.address == a {
      var x :| x in s.loaded && x.address == a;
      RootIsNeeded(s.loaded, r.counts, x);
    }
  }

  lemma {:induction false} StepKeepsInv(s: State, e: Event)
    requires Inv(s) && Admissible(s, e)
    ensures Inv(Step(s, e))
  {
    match e
    case Load(images) => LoadKeepsInv(s, images);
    case Reopen(num) => ReopenKeepsInv(s, num);
    case Close(address) =>
      CloseIsExact(s, address);
      ShrinkKeeps(s, Closed(s, address));
  }

  // ----- runs -----

  ghost predicate IsRun(states: seq<State>, events: seq<Event>) {
    && |states| == |events| + 1 && states[0] == State([], [], 0)
    && forall k {:trigger events[k]} :: 0 <= k < |events| ==>
         && Valid(states[k]) && Admissible(states[k], events[k])
         && states[k + 1] == Step(states[k], events[k])
  }

  /**
   At every point of every run the loaded images are the ones that open or
   permanent images reach, and all their dependents are among them.
   */
  lemma {:induction false} RunKeepsInv(states: seq<State>, events: seq<Event>, k: nat)
    requires IsRun(states, events) && k <= |events|
    ensures Inv(states[k])
  {
    if k > 0 {
      RunKeepsInv(states, events, k - 1);
      StepKeepsInv(states[k - 1], events[k - 1]);
    }
  }

  /** Nothing is leaked and nothing is missing: a loaded image is reached from a root, and its dependents are loaded. */
  lemma {:induction false} LoadedMeansNeeded(states: seq<State>, events: seq<Event>, k: nat, x: Loaded)
    requires IsRun(states, events) && k <= |events| && x in states[k].loaded
    ensures exists r :: r in states[k].loaded && IsRoot(states[k].counts, r) && Reaches(states[k].loaded, r, x)
    ensures forall m {:trigger x.image.dependents[m]} :: 0 <= m < |x.image.dependents| && IsFollowed(x.image.dependents[m]) ==>
      exists y :: y in states[k].loaded && LeadsTo(x.image.dependents[m], y.image)
  {
    RunKeepsInv(states, events, k);
    var s := states[k];
    assert Needed(s.loaded, s.counts, x);
    var r :| IsRoot(s.counts, r) && Reaches(s.loaded, r, x);
    var p :| IsTrail(s.loaded, p) && p[0] == r && p[|p| - 1] == x;
    assert p[0] in s.loaded;
    forall m | 0 <= m < |x.image.dependents| && IsFollowed(x.image.dependents[m])
      ensures exists y :: y in s.loaded && LeadsTo(x.image.dependents[m], y.image)
    {
      assert IsLinked(s.loaded, x.image.dependents[m]);
    }
  }

  ghost predicate HeldOpen(states: seq<State>, i: nat, k: nat, x: Loaded)
    requires i <= k < |states|
  {
    forall j :: i <= j <= k ==> IsRoot(states[j].counts, x)
  }

  lemma {:induction false} RunKeepsReach(states: seq<State>, events: seq<Event>, k: nat, x: Loaded, y: Loaded)
    requires IsRun(states, events) && k < |events|
    requires Reaches(states[k].loaded, x, y) && IsRoot(states[k + 1].counts, x)
    ensures Reaches(states[k + 1].loaded, x, y)
  {
    RunKeepsInv(states, events, k);
    StepKeepsReach(states[k], events[k], x, y);
  }

  lemma {:induction false} OpenKeepsReach(states: seq<State>, events: seq<Event>, i: nat, k: nat, x: Loaded, y: Loaded)
    requires IsRun(states, events) && i <= k < |states|
    requires Reaches(states[i].loaded, x, y) && forall j :: i < j <= k ==> IsRoot(states[j].counts, x)
    ensures Reaches(states[k].loaded, x, y)
  {
    if i < k {
      OpenKeepsReach(states, events, i, k - 1, x, y);
      RunKeepsReach(states, events, k - 1, x, y);
    }
  }

  /** As long as an image has opens outstanding, it and everything it reaches stay loaded. */
  lemma {:induction false} OpenIsNeverRemoved(states: seq<State>, events: seq<Event>, i: nat, k: nat, x: Loaded,
                                              y: Loaded)
    requires IsRun(states, events) && i <= k < |states|
    requires Reaches(states[i].loaded, x, y) && HeldOpen(states, i, k, x)
    ensures Reaches(states[k].loaded, x, y) && y in states[k].loaded
  {
    OpenKeepsReach(states, events, i, k, x, y);
    ReachedIsLoaded(states[k].loaded, x, y);
  }

  lemma {:induction false} ReachedIsLoaded(loaded: seq<Loaded>, x: Loaded, y: Loaded)
    requires Reaches(loaded, x, y)
    ensures y in loaded
  {
  }

  lemma {:induction false} StepKeepsReach(s: State, e: Event, x: Loaded, y: Loaded)
    requires Inv(s) && Admissible(s, e) && Reaches(s.loaded, x, y) && IsRoot(Step(s, e).counts, x)
    ensures Reaches(Step(s, e).loaded, x, y)
  {
    var r := Step(s, e);
    var p :| IsTrail(s.loaded, p) && p[0] == x && p[|p| - 1] == y;
    if e.Close? {
      CloseIsExact(s, e.address);
      forall z | Needed(s.loaded, r.counts, z) ensures z in r.loaded {
        NeededIsLoaded(s.loaded, r.counts, z);
        UnneededAt(s.loaded, r.counts, z);
      }
      TrailMoves(s.loaded, r.loaded, r.counts, p);
    } else {
      assert IsTrail(r.loaded, p);
    }
  }

  // ----- a permanent image is not enough to hold its dependents -----

  /** The link leads to a loaded image that is permanent, or that an open image reaches inside the unloadable ones. */
  ghost predicate LinkIsHeld(loaded: seq<Loaded>, counts: seq<OpenCount>, link: Link) {
    IsFollowed(link) ==> exists y :: IsHeld(loaded, counts, y) && LeadsTo(link, y.image)
  }

  /** The links of permanent images are. */
  ghost predicate PinnedAreHeld(loaded: seq<Loaded>, counts: seq<OpenCount>) {
    forall x, k {:trigger LinkIsHeld(loaded, counts, x.image.dependents[k])} ::
      x in loaded && x.image.neverUnload && 0 <= k < |x.image.dependents| ==> LinkIsHeld(loaded, counts, x.image.dependents[k])
  }

  lemma {:induction false} HeldStep(loaded: seq<Loaded>, counts: seq<OpenCount>, x: Loaded, y: Loaded)
    requires DistinctAddresses(loaded) && IsHeld(loaded, counts, x) && !x.image.neverUnload
    requires y in loaded && LinksTo(x.image, y.image)
    ensures IsHeld(loaded, counts, y)
  {
    UnloadablesAre(loaded, y);
    if !y.image.neverUnload {
      NeededNext(Unloadables(loaded), counts, x, y);
    }
  }

  /** Of a complete list, what is held is complete exactly if permanent images depend on held images. */
  lemma {:induction false} HeldIsComplete(loaded: seq<Loaded>, counts: seq<OpenCount>)
    requires DistinctAddresses(loaded) && Complete(loaded)
    ensures Complete(Without(loaded, Unheld(loaded, counts))) <==> PinnedAreHeld(loaded, counts)
  {
    var r := Without(loaded, Unheld(loaded, counts));
    forall x ensures x in r <==> IsHeld(loaded, counts, x) {
      if x in loaded {
        UnheldAt(loaded, counts, x);
      }
    }
    if Complete(r) {
      forall x, k | x in loaded && x.image.neverUnload && 0 <= k < |x.image.dependents|
        ensures LinkIsHeld(loaded, counts, x.image.dependents[k])
      {
        assert IsLinked(r, x.image.dependents[k]);
      }
    }
    if PinnedAreHeld(loaded, counts) {
      forall x, k | x in r && 0 <= k < |x.image.dependents| ensures IsLinked(r, x.image.dependents[k]) {
        HeldIsLinked(loaded, counts, x, k);
      }
    }
  }

  lemma {:induction false} HeldIsLinked(loaded: seq<Loaded>, counts: seq<OpenCount>, x: Loaded, k: nat)
    requires DistinctAddresses(loaded) && Complete(loaded) && PinnedAreHeld(loaded, counts)
    requires IsHeld(loaded, counts, x) && k < |x.image.dependents|
    ensures LinkIsHeld(loaded, counts, x.image.dependents[k])
  {
    var link := x.image.dependents[k];
    assert IsLinked(loaded, link);
    if IsFollowed(link) && !x.image.neverUnload {
      var y :| y in loaded && LeadsTo(link, y.image);
      assert LinksTo(x.image, y.image);
      HeldStep(loaded, counts, x, y);
    }
  }

  /** After a pass every dependent is loaded, exactly if permanent images depend on held images only. */
  lemma {:induction false} PassStaysComplete(s: State)
    requires Valid(s) && s.gcCount > 0 && DistinctAddresses(s.loaded) && Complete(s.loaded)
    ensures Complete(Pass(s).loaded) <==> PinnedAreHeld(s.loaded, s.counts)
  {
    PassRemoves(s);
    HeldIsComplete(s.loaded, s.counts);
  }

  /**
   After a dlclose() every dependent is loaded, exactly if it is not a last close
   or permanent images depend only on images that the remaining opens hold.
   */
  lemma {:induction false} CloseStaysComplete(s: State, address: nat)
    requires Valid(s) && s.gcCount == 0 && DistinctAddresses(s.loaded) && Complete(s.loaded)
    ensures Complete(Closed(s, address).loaded)
      <==> !IsLastClose(s, address) || PinnedAreHeld(s.loaded, CountsAfterClose(s, address))
  {
    CloseOutcome(s, address);
    if IsLastClose(s, address) {
      var t := State(s.loaded, Dec(s.counts, address).0, 1);
      CollectIsExact(t);
      HeldIsComplete(s.loaded, Collect(t).counts);
    }
  }

  /** No terminator closes anything. */
  ghost predicate Quiet(loaded: seq<Loaded>) {
    forall x :: x in loaded ==> x.image.closes == []
  }

  lemma {:induction false} QuietTerminate(s: State, dead: seq<Loaded>, k: nat)
    requires Valid(s) && k <= |dead| && Quiet(dead)
    ensures Terminate(s, dead, k) == s
  {
    if k > 0 {
      QuietTerminate(s, dead, k - 1);
      assert dead[k - 1] in dead;
    }
  }

  /** Without closing terminators the outcome's counts are known before the close. */
  lemma {:induction false} QuietClose(s: State, address: nat)
    requires Valid(s) && s.gcCount == 0 && DistinctAddresses(s.loaded) && Quiet(s.loaded) && IsUnloadableAt(s.loaded, address)
    ensures Closed(s, address).counts == Dec(s.counts, address).0
  {
    if IsLastClose(s, address) {
      var t := State(s.loaded, Dec(s.counts, address).0, 1);
      var dead := Dead(t.loaded, t.counts);
      forall x | x in dead ensures x.image.closes == [] {
        DeadAre(t.loaded, t.counts, x);
      }
      QuietTerminate(t, dead, |dead|);
    }
  }

  /** Without closing terminators it is enough to look at the counts less the one open. */
  lemma {:induction false} QuietCloseStaysComplete(s: State, address: nat)
    requires Valid(s) && s.gcCount == 0 && DistinctAddresses(s.loaded) && Complete(s.loaded) && Quiet(s.loaded)
    ensures Complete(Closed(s, address).loaded)
      <==> !IsLastClose(s, address) || PinnedAreHeld(s.loaded, Dec(s.counts, address).0)
  {
    CloseStaysComplete(s, address);
    CloseOutcome(s, address);
    if IsLastClose(s, address) {
      QuietClose(s, address);
    }
  }

  lemma {:induction false} PassKeepsUndead(s: State, x: Loaded)
    requires Valid(s) && s.gcCount > 0 && DistinctAddresses(s.loaded)
    ensures x in Pass(s).loaded <==> x in s.loaded && x !in Dead(s.loaded, s.counts)
  {
    var dead := Dead(s.loaded, s.counts);
    EraseEachRemoves(s.loaded, dead, |dead|);
    AddressesAre(dead, |dead|, x.address);
    if x in s.loaded && x.address in Addresses(dead, |dead|) {
      var i :| 0 <= i < |dead| && dead[i].address == x.address;
      DeadAre(s.loaded, s.counts, dead[i]);
      SameAddress(s.loaded, x, dead[i]);
    }
  }

  const PLUGIN := Loaded(Image(0x2000, true, false, None, false, [], []), 0x1000)
  const PERMANENT := Loaded(Image(0x2001, true, false, None, true, [Link(Regular, 0x2000)], []), 0x2000)
  const OPEN_PLUGIN := State([PLUGIN, PERMANENT], [OpenCount(0x1000, 1)], 0)

  lemma {:induction false} PluginIsDead()
    ensures PLUGIN in Dead(OPEN_PLUGIN.loaded, []) && PERMANENT !in Dead(OPEN_PLUGIN.loaded, [])
  {
    var loaded := OPEN_PLUGIN.loaded;
    var u := Unloadables(loaded);
    UnloadablesAre(loaded, PLUGIN);
    var j: nat :| j < |u| && u[j] == PLUGIN;
    assert forall i: nat :: !Opened(u, [], i);
    DeadAt(loaded, [], j);
    RootIsKept(loaded, [], PERMANENT);
  }

  lemma {:induction false} PluginPass(t: State)
    requires t == State(OPEN_PLUGIN.loaded, [], 1)
    ensures Pass(t).gcCount == 0 && PLUGIN !in Pass(t).loaded && PERMANENT in Pass(t).loaded
    ensures !IsLinked(Pass(t).loaded, Link(Regular, 0x2000))
  {
    PluginIsDead();
    PassKeepsUndead(t, PLUGIN);
    PassKeepsUndead(t, PERMANENT);
    forall y | y in Pass(t).loaded ensures y == PERMANENT {
      PassKeepsUndead(t, y);
    }
  }

  /** Closing a plugin unloads it although an image that is never unloaded depends on it. */
  lemma {:induction false} PermanentLosesDependent()
    ensures Valid(OPEN_PLUGIN) && DistinctAddresses(OPEN_PLUGIN.loaded) && Complete(OPEN_PLUGIN.loaded)
    ensures PLUGIN !in Closed(OPEN_PLUGIN, 0x1000).loaded && PERMANENT in Closed(OPEN_PLUGIN, 0x1000).loaded
    ensures !Complete(Closed(OPEN_PLUGIN, 0x1000).loaded)
  {
    var s, t := OPEN_PLUGIN, State(OPEN_PLUGIN.loaded, [], 1);
    assert LeadsTo(Link(Regular, 0x2000), PLUGIN.image) && s.loaded[0] == PLUGIN && UnloadableAt(PLUGIN, 0x1000);
    assert forall x :: x in s.loaded ==> x == PLUGIN || x == PERMANENT;
    assert Dec(s.counts, 0x1000) == ([], true);
    PluginPass(t);
    var r := Closed(s, 0x1000);
    assert r == Pass(t);
    assert PERMANENT.image.dependents[0] == Link(Regular, 0x2000);
  }
}
