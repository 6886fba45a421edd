/** What unloading removes: exactly the images that no open or permanent image reaches, over whole runs. */
module UnloadingProof {
  import opened Reaper
  import opened Unloading

  // ----- which images are needed -----

  ghost predicate IsRoot(counts: seq<OpenCount>, x: Loaded) { x.image.neverUnload || IsOpen(counts, x.address) }

  ghost predicate IsTrail(loaded: seq<Loaded>, p: seq<Loaded>) {
    && |p| >= 1 && (forall k :: 0 <= k < |p| ==> p[k] in loaded)
    && forall k :: 0 <= k < |p| - 1 ==> LinksTo(p[k].image, p[k + 1].image)
  }

  ghost predicate Reaches(loaded: seq<Loaded>, x: Loaded, y: Loaded) {
    exists p: seq<Loaded> :: IsTrail(loaded, p) && p[0] == x && p[|p| - 1] == y
  }

  ghost predicate Needed(loaded: seq<Loaded>, counts: seq<OpenCount>, y: Loaded) {
    exists x: Loaded :: IsRoot(counts, x) && Reaches(loaded, x, y)
  }

  /** Images that are never unloaded depend only on such images. */
  ghost predicate PinnedClosed(loaded: seq<Loaded>) {
    forall x, y :: x in loaded && y in loaded && LinksTo(x.image, y.image) && x.image.neverUnload ==> y.image.neverUnload
  }

  lemma {:induction false} RootIsNeeded(loaded: seq<Loaded>, counts: seq<OpenCount>, x: Loaded)
    requires x in loaded && IsRoot(counts, x)
    ensures Needed(loaded, counts, x)
  {
    var p := [x];
    assert IsTrail(loaded, p) && p[0] == x && p[|p| - 1] == x;
  }

  lemma {:induction false} ReachesNext(loaded: seq<Loaded>, x: Loaded, y: Loaded, z: Loaded)
    requires Reaches(loaded, x, y) && z in loaded && LinksTo(y.image, z.image)
    ensures Reaches(loaded, x, z)
  {
    var p :| IsTrail(loaded, p) && p[0] == x && p[|p| - 1] == y;
    var q := p + [z];
    assert IsTrail(loaded, q) && q[0] == x && q[|q| - 1] == z;
  }

  lemma {:induction false} NeededNext(loaded: seq<Loaded>, counts: seq<OpenCount>, y: Loaded, z: Loaded)
    requires Needed(loaded, counts, y) && z in loaded && LinksTo(y.image, z.image)
    ensures Needed(loaded, counts, z)
  {
    var x :| IsRoot(counts, x) && Reaches(loaded, x, y);
    ReachesNext(loaded, x, y, z);
  }

  /** A trail among the images of a is one among those of b if b has what the trail visits. */
  lemma {:induction false} TrailMoves(a: seq<Loaded>, b: seq<Loaded>, counts: seq<OpenCount>, p: seq<Loaded>)
    requires IsTrail(a, p) && IsRoot(counts, p[0])
    requires forall y :: Needed(a, counts, y) ==> y in b
    ensures Reaches(b, p[0], p[|p| - 1]) && Needed(b, counts, p[|p| - 1])
    ensures Needed(a, counts, p[|p| - 1])
    decreases |p|
  {
    if |p| == 1 {
      RootIsNeeded(a, counts, p[0]);
      assert IsTrail(b, p);
    } else {
      var front, y, z := p[..|p| - 1], p[|p| - 2], p[|p| - 1];
      TrailMoves(a, b, counts, front);
      assert LinksTo(p[|p| - 2].image, p[|p| - 2 + 1].image);
      NeededNext(a, counts, y, z);
      ReachesNext(b, p[0], y, z);
    }
  }

  // ----- what one pass removes -----

  lemma {:induction false} UnloadablesAre(loaded: seq<Loaded>, x: Loaded)
    requires DistinctAddresses(loaded)
    ensures x in Unloadables(loaded) <==> x in loaded && !x.image.neverUnload
    ensures DistinctAddresses(Unloadables(loaded))
    decreases |loaded|
  {
    if loaded != [] {
      var n := |loaded| - 1;
      UnloadablesAre(loaded[..n], x);
      assert loaded == loaded[..n] + [loaded[n]];
      var u := Unloadables(loaded[..n]);
      forall i | 0 <= i < |u| ensures u[i].address != loaded[n].address {
        UnloadablesAre(loaded[..n], u[i]);
        assert u[i] in u;
      }
    }
  }

  lemma {:induction false} UnmarkedAre(u: seq<Loaded>, flags: seq<bool>, k: nat, x: Loaded)
    requires |flags| == |u| && k <= |u|
    ensures x in Unmarked(u, flags, k) <==> exists j :: 0 <= j < k && u[j] == x && !flags[j]
  {
    if k > 0 {
      UnmarkedAre(u, flags, k - 1, x);
    }
  }

  lemma {:induction false} DeadAt(loaded: seq<Loaded>, counts: seq<OpenCount>, j: nat)
    requires DistinctAddresses(loaded) && j < |Unloadables(loaded)|
    ensures var u := Unloadables(loaded);
      u[j] in Dead(loaded, counts) <==> !Live(u, counts, j)
  {
    var u := Unloadables(loaded);
    UnloadablesAre(loaded, u[j]);
    UnmarkedAre(u, LiveFlags(u, counts), |u|, u[j]);
  }

  lemma {:induction false} DeadAre(loaded: seq<Loaded>, counts: seq<OpenCount>, x: Loaded)
    requires DistinctAddresses(loaded) && x in Dead(loaded, counts)
    ensures x in loaded && !x.image.neverUnload
  {
    var u := Unloadables(loaded);
    UnmarkedAre(u, LiveFlags(u, counts), |u|, x);
    UnloadablesAre(loaded, x);
  }

  lemma {:induction false} RootIsKept(loaded: seq<Loaded>, counts: seq<OpenCount>, x: Loaded)
    requires DistinctAddresses(loaded) && x in loaded && IsRoot(counts, x)
    ensures x !in Dead(loaded, counts)
  {
    if x in Dead(loaded, counts) {
      DeadAre(loaded, counts, x);
      UnloadablesAre(loaded, x);
      var u := Unloadables(loaded);
      var j: nat :| j < |u| && u[j] == x;
      assert Opened(u, counts, j);
      OpenedIsLive(u, counts, j);
      DeadAt(loaded, counts, j);
      assert false;
    }
  }

  lemma {:induction false} UsedIsKept(loaded: seq<Loaded>, counts: seq<OpenCount>, y: Loaded, z: Loaded)
    requires DistinctAddresses(loaded) && y in loaded && z in loaded && LinksTo(y.image, z.image)
    requires y !in Dead(loaded, counts) && (y.image.neverUnload ==> z.image.neverUnload)
    ensures z !in Dead(loaded, counts)
  {
    if z in Dead(loaded, counts) {
      DeadAre(loaded, counts, z);
      UnloadablesAre(loaded, z);
      UnloadablesAre(loaded, y);
      var u := Unloadables(loaded);
      var j: nat :| j < |u| && u[j] == z;
      var i: nat :| i < |u| && u[i] == y;
      DeadAt(loaded, counts, i);
      assert Uses(u, i, j);
      UsedIsLive(u, counts, i, j);
      DeadAt(loaded, counts, j);
      assert false;
    }
  }

  lemma {:induction false} TrailIsKept(loaded: seq<Loaded>, counts: seq<OpenCount>, p: seq<Loaded>)
    requires DistinctAddresses(loaded) && PinnedClosed(loaded) && IsTrail(loaded, p) && IsRoot(counts, p[0])
    ensures p[|p| - 1] !in Dead(loaded, counts)
    decreases |p|
  {
    if |p| == 1 {
      RootIsKept(loaded, counts, p[0]);
    } else {
      TrailIsKept(loaded, counts, p[..|p| - 1]);
      assert LinksTo(p[|p| - 2].image, p[|p| - 2 + 1].image);
      UsedIsKept(loaded, counts, p[|p| - 2], p[|p| - 1]);
    }
  }

  lemma {:induction false} ChainIsNeeded(loaded: seq<Loaded>, counts: seq<OpenCount>, p: seq<nat>)
    requires DistinctAddresses(loaded) && IsChain(Unloadables(loaded), counts, p)
    ensures p[|p| - 1] < |Unloadables(loaded)| && Needed(loaded, counts, Unloadables(loaded)[p[|p| - 1]])
    decreases |p|
  {
    var u, j := Unloadables(loaded), p[|p| - 1];
    if |p| == 1 {
      UnloadablesAre(loaded, u[j]);
      RootIsNeeded(loaded, counts, u[j]);
    } else {
      ChainIsNeeded(loaded, counts, p[..|p| - 1]);
      assert Uses(u, p[|p| - 2], p[|p| - 2 + 1]);
      UnloadablesAre(loaded, u[j]);
      NeededNext(loaded, counts, u[p[|p| - 2]], u[j]);
    }
  }

  /** A pass condemns exactly the images that no root reaches. */
  lemma {:induction false} DeadIsUnneeded(loaded: seq<Loaded>, counts: seq<OpenCount>, x: Loaded)
    requires DistinctAddresses(loaded) && PinnedClosed(loaded) && x in loaded
    ensures x in Dead(loaded, counts) <==> !Needed(loaded, counts, x)
  {
    if Needed(loaded, counts, x) {
      var r :| IsRoot(counts, r) && Reaches(loaded, r, x);
      var p :| IsTrail(loaded, p) && p[0] == r && p[|p| - 1] == x;
      TrailIsKept(loaded, counts, p);
    } else if x.image.neverUnload {
      RootIsNeeded(loaded, counts, x);
    } else {
      UnloadablesAre(loaded, x);
      var u := Unloadables(loaded);
      var j: nat :| j < |u| && u[j] == x;
      DeadAt(loaded, counts, j);
      if Live(u, counts, j) {
        var p: seq<nat> :| IsChain(u, counts, p) && p[|p| - 1] == j;
        ChainIsNeeded(loaded, counts, p);
      }
    }
  }

  // ----- removal keeps the order -----

  function Without(loaded: seq<Loaded>, gone: set<nat>): (r: seq<Loaded>)
    ensures forall x :: x in r <==> x in loaded && x.address !in gone
  {
    if loaded == [] then []
    else (if loaded[0].address in gone then [] else [loaded[0]]) + Without(loaded[1..], gone)
  }

  lemma {:induction false} WithoutSame(loaded: seq<Loaded>, a: set<nat>, b: set<nat>)
    requires forall x :: x in loaded ==> (x.address in a <==> x.address in b)
    ensures Without(loaded, a) == Without(loaded, b)
  {
    if loaded != [] {
      WithoutSame(loaded[1..], a, b);
    }
  }

  lemma {:induction false} WithoutNone(loaded: seq<Loaded>, gone: set<nat>)
    requires forall x :: x in loaded ==> x.address !in gone
    ensures Without(loaded, gone) == loaded
  {
    if loaded != [] {
      WithoutNone(loaded[1..], gone);
    }
  }

  lemma {:induction false} WithoutBoth(loaded: seq<Loaded>, a: set<nat>, b: set<nat>)
    ensures Without(Without(loaded, a), b) == Without(loaded, a + b)
  {
    if loaded != [] {
      WithoutBoth(loaded[1..], a, b);
      var rest := Without(loaded[1..], a);
      if loaded[0].address in a {
        assert Without(loaded, a) == [] + rest == rest;
      } else {
        assert Without(loaded, a) == [loaded[0]] + rest;
        assert ([loaded[0]] + rest)[1..] == rest;
      }
    }
  }

  lemma {:induction false} WithoutDistinct(loaded: seq<Loaded>, gone: set<nat>)
    requires DistinctAddresses(loaded)
    ensures DistinctAddresses(Without(loaded, gone))
  {
    if loaded != [] {
      WithoutDistinct(loaded[1..], gone);
      var rest := Without(loaded[1..], gone);
      forall i | 0 <= i < |rest| ensures rest[i].address != loaded[0].address {
        assert rest[i] in rest;
      }
    }
  }

  lemma {:induction false} EraseFirstRemoves(loaded: seq<Loaded>, address: nat)
    requires DistinctAddresses(loaded)
    ensures EraseFirst(loaded, address) == Without(loaded, {address})
  {
    if loaded != [] {
      if loaded[0].address == address {
        assert forall x :: x in loaded[1..] ==> x.address != address;
        WithoutNone(loaded[1..], {address});
        assert Without(loaded, {address}) == [] + loaded[1..];
      } else {
        EraseFirstRemoves(loaded[1..], address);
      }
    }
  }

  function Addresses(gone: seq<Loaded>, k: nat): set<nat>
    requires k <= |gone|
  {
    if k == 0 then {} else Addresses(gone, k - 1) + {gone[k - 1].address}
  }

  lemma {:induction false} AddressesAre(gone: seq<Loaded>, k: nat, a: nat)
    requires k <= |gone|
    ensures a in Addresses(gone, k) <==> exists i :: 0 <= i < k && gone[i].address == a
  {
    if k > 0 {
      AddressesAre(gone, k - 1, a);
    }
  }

  lemma {:induction false} EraseOneMore(loaded: seq<Loaded>, before: set<nat>, address: nat)
    requires DistinctAddresses(loaded)
    ensures EraseFirst(Without(loaded, before), address) == Without(loaded, before + {address})
  {
    WithoutDistinct(loaded, before);
    EraseFirstRemoves(Without(loaded, before), address);
    WithoutBoth(loaded, before, {address});
  }

  lemma {:induction false} EraseEachRemoves(loaded: seq<Loaded>, gone: seq<Loaded>, k: nat)
    requires DistinctAddresses(loaded) && k <= |gone|
    ensures EraseEach(loaded, gone, k) == Without(loaded, Addresses(gone, k))
  {
    if k == 0 {
      WithoutNone(loaded, Addresses(gone, 0));
    } else {
      EraseEachRemoves(loaded, gone, k - 1);
      EraseOneMore(loaded, Addresses(gone, k - 1), gone[k - 1].address);
    }
  }

  lemma {:induction false} SameAddress(loaded: seq<Loaded>, x: Loaded, y: Loaded)
    requires DistinctAddresses(loaded) && x in loaded && y in loaded && x.address == y.address
    ensures x == y
  {
  }

  ghost function Unneeded(loaded: seq<Loaded>, counts: seq<OpenCount>): set<nat> {
    set x | x in loaded && !Needed(loaded, counts, x) :: x.address
  }

  lemma {:induction false} UnneededAt(loaded: seq<Loaded>, counts: seq<OpenCount>, x: Loaded)
    requires DistinctAddresses(loaded) && x in loaded
    ensures x.address in Unneeded(loaded, counts) <==> !Needed(loaded, counts, x)
  {
    if x.address in Unneeded(loaded, counts) {
      var y :| y in loaded && !Needed(loaded, counts, y) && y.address == x.address;
      SameAddress(loaded, x, y);
    }
  }

  // ----- what holds an image, whatever permanent images depend on -----

  /** The image is permanent, or an open image reaches it inside the unloadable ones. */
  ghost predicate IsHeld(loaded: seq<Loaded>, counts: seq<OpenCount>, x: Loaded) {
    x in loaded && (x.image.neverUnload || Needed(Unloadables(loaded), counts, x))
  }

  ghost function Unheld(loaded: seq<Loaded>, counts: seq<OpenCount>): set<nat> { Unneeded(Unloadables(loaded), counts) }

  lemma {:induction false} UnloadablesTwice(loaded: seq<Loaded>)
    ensures Unloadables(Unloadables(loaded)) == Unloadables(loaded)
  {
    if loaded != [] {
      var front, li := loaded[..|loaded| - 1], loaded[|loaded| - 1];
      UnloadablesTwice(front);
      if li.image.neverUnload {
        assert Unloadables(loaded) == Unloadables(front);
      } else {
        assert Unloadables(loaded)[..|Unloadables(front)|] == Unloadables(front);
      }
    }
  }

  lemma {:induction false} WithoutSnoc(loaded: seq<Loaded>, li: Loaded, gone: set<nat>)
    ensures Without(loaded + [li], gone) == Without(loaded, gone) + if li.address in gone then [] else [li]
  {
    if loaded != [] {
      WithoutSnoc(loaded[1..], li, gone);
      var all, first := loaded + [li], if loaded[0].address in gone then [] else [loaded[0]];
      assert all[0] == loaded[0] && all[1..] == loaded[1..] + [li];
      assert Without(all, gone) == first + Without(all[1..], gone);
    } else {
      assert [li][1..] == [] && loaded + [li] == [li];
    }
  }

  lemma {:induction false} UnloadablesSnoc(loaded: seq<Loaded>, li: Loaded)
    ensures Unloadables(loaded + [li]) == Unloadables(loaded) + if li.image.neverUnload then [] else [li]
  {
    assert (loaded + [li])[..|loaded|] == loaded;
  }

  lemma {:induction false} UnloadablesWithoutSnoc(front: seq<Loaded>, li: Loaded, gone: set<nat>)
    requires Unloadables(Without(front, gone)) == Without(Unloadables(front), gone)
    ensures Unloadables(Without(front + [li], gone)) == Without(Unloadables(front + [li]), gone)
  {
    var kept, u := Without(front, gone), Unloadables(front);
    WithoutSnoc(front, li, gone);
    UnloadablesSnoc(front, li);
    if li.image.neverUnload {
      assert Unloadables(front + [li]) == u;
      if li.address in gone {
        assert Without(front + [li], gone) == kept;
      } else {
        UnloadablesSnoc(kept, li);
      }
    } else {
      WithoutSnoc(u, li, gone);
      if li.address in gone {
        assert Without(front + [li], gone) == kept;
      } else {
        UnloadablesSnoc(kept, li);
      }
    }
  }

  lemma {:induction false} UnloadablesWithoutUpTo(loaded: seq<Loaded>, k: nat, gone: set<nat>)
    requires k <= |loaded|
    ensures Unloadables(Without(loaded[..k], gone)) == Without(Unloadables(loaded[..k]), gone)
  {
    if k == 0 {
      assert loaded[..k] == [];
    } else {
      UnloadablesWithoutUpTo(loaded, k - 1, gone);
      UnloadablesWithoutSnoc(loaded[..k - 1], loaded[k - 1], gone);
      assert loaded[..k - 1] + [loaded[k - 1]] == loaded[..k];
    }
  }

  lemma {:induction false} UnloadablesWithout(loaded: seq<Loaded>, gone: set<nat>)
    ensures Unloadables(Without(loaded, gone)) == Without(Unloadables(loaded), gone)
  {
    UnloadablesWithoutUpTo(loaded, |loaded|, gone);
    assert loaded[..|loaded|] == loaded;
  }

  /** A pass condemns exactly the images that nothing holds. */
  lemma {:induction false} DeadIsUnheld(loaded: seq<Loaded>, counts: seq<OpenCount>, x: Loaded)
    requires DistinctAddresses(loaded) && x in loaded
    ensures x in Dead(loaded, counts) <==> !IsHeld(loaded, counts, x)
  {
    var u := Unloadables(loaded);
    UnloadablesTwice(loaded);
    UnloadablesAre(loaded, x);
    if x.image.neverUnload {
      RootIsKept(loaded, counts, x);
    } else {
      UnloadablesArePinless(loaded);
      DeadIsUnneeded(u, counts, x);
    }
  }

  lemma {:induction false} UnloadablesArePinless(loaded: seq<Loaded>)
    requires DistinctAddresses(loaded)
    ensures DistinctAddresses(Unloadables(loaded)) && PinnedClosed(Unloadables(loaded))
  {
    var u := Unloadables(loaded);
    forall x | x in u ensures !x.image.neverUnload {
      UnloadablesAre(loaded, x);
    }
    if loaded != [] {
      UnloadablesAre(loaded, loaded[0]);
    }
  }

  lemma {:induction false} UnheldAt(loaded: seq<Loaded>, counts: seq<OpenCount>, x: Loaded)
    requires DistinctAddresses(loaded) && x in loaded
    ensures x.address in Unheld(loaded, counts) <==> !IsHeld(loaded, counts, x)
  {
    var u := Unloadables(loaded);
    UnloadablesAre(loaded, x);
    if x in u {
      UnneededAt(u, counts, x);
    } else if x.address in Unheld(loaded, counts) {
      var y :| y in u && !Needed(u, counts, y) && y.address == x.address;
      UnloadablesAre(loaded, y);
      SameAddress(loaded, x, y);
    }
  }

  /** A pass removes exactly the images that nothing holds, and keeps the order of the others. */
  lemma {:induction false} PassRemoves(s: State)
    requires Valid(s) && s.gcCount > 0 && DistinctAddresses(s.loaded)
    ensures Pass(s).loaded == Without(s.loaded, Unheld(s.loaded, s.counts))
  {
    var dead := Dead(s.loaded, s.counts);
    EraseEachRemoves(s.loaded, dead, |dead|);
    var addresses := Addresses(dead, |dead|);
    forall x | x in s.loaded ensures x.address in addresses <==> x.address in Unheld(s.loaded, s.counts) {
      DeadIsUnheld(s.loaded, s.counts, x);
      UnheldAt(s.loaded, s.counts, x);
      AddressesAre(dead, |dead|, x.address);
      if x.address in addresses {
        var i :| 0 <= i < |dead| && dead[i].address == x.address;
        DeadAre(s.loaded, s.counts, dead[i]);
        SameAddress(s.loaded, x, dead[i]);
      }
    }
    WithoutSame(s.loaded, addresses, Unheld(s.loaded, s.counts));
  }

  // ----- the collector -----

  ghost predicate OpenShrinks(before: seq<OpenCount>, after: seq<OpenCount>) {
    forall a :: IsOpen(after, a) ==> IsOpen(before, a)
  }

  ghost predicate SameOpen(before: seq<OpenCount>, after: seq<OpenCount>) {
    forall a :: IsOpen(after, a) <==> IsOpen(before, a)
  }

  lemma {:induction false} DecOpen(counts: seq<OpenCount>, address: nat)
    requires CountsValid(counts)
    ensures var (r, erased) := Dec(counts, address);
      OpenShrinks(counts, r) && (!erased ==> SameOpen(counts, r))
  {
    var e := FirstCount(counts, address, 0);
    var (r, erased) := Dec(counts, address);
    forall a ensures IsOpen(r, a) ==> IsOpen(counts, a) {
      if IsOpen(r, a) {
        var i :| 0 <= i < |r| && Holds(r[i], a);
        assert Holds(counts[if erased && i >= e then i + 1 else i], a);
      }
    }
    if !erased {
      forall a ensures IsOpen(counts, a) ==> IsOpen(r, a) {
        if IsOpen(counts, a) {
          var i :| 0 <= i < |counts| && Holds(counts[i], a);
          assert Holds(r[i], a);
        }
      }
    }
  }

  ghost predicate Narrowed(s: State, r: State) {
    OpenShrinks(s.counts, r.counts) && (r.gcCount == s.gcCount ==> SameOpen(s.counts, r.counts))
  }

  lemma {:induction false} CloseEachNarrows(s: State, closes: seq<nat>, k: nat)
    requires Valid(s) && k <= |closes|
    ensures Narrowed(s, CloseEach(s, closes, k))
  {
    if k > 0 {
      CloseEachNarrows(s, closes, k - 1);
      DecOpen(CloseEach(s, closes, k - 1).counts, closes[k - 1]);
    }
  }

  lemma {:induction false} TerminateNarrows(s: State, dead: seq<Loaded>, k: nat)
    requires Valid(s) && k <= |dead|
    ensures Narrowed(s, Terminate(s, dead, k))
  {
    if k > 0 {
      TerminateNarrows(s, dead, k - 1);
      var before, closes := Terminate(s, dead, k - 1), dead[k - 1].image.closes;
      CloseEachNarrows(before, closes, |closes|);
    }
  }

  lemma {:induction false} NeededMonotone(loaded: seq<Loaded>, before: seq<OpenCount>, after: seq<OpenCount>, x: Loaded)
    requires OpenShrinks(before, after) && Needed(loaded, after, x)
    ensures Needed(loaded, before, x)
  {
    var r :| IsRoot(after, r) && Reaches(loaded, r, x);
    assert IsRoot(before, r);
  }

  lemma {:induction false} NeededWithin(a: seq<Loaded>, b: seq<Loaded>, counts: seq<OpenCount>, x: Loaded)
    requires Needed(a, counts, x) && forall y :: Needed(a, counts, y) ==> y in b
    ensures Needed(b, counts, x)
  {
    var r :| IsRoot(counts, r) && Reaches(a, r, x);
    var p :| IsTrail(a, p) && p[0] == r && p[|p| - 1] == x;
    TrailMoves(a, b, counts, p);
  }

  lemma {:induction false} NeededIsLoaded(loaded: seq<Loaded>, counts: seq<OpenCount>, x: Loaded)
    requires Needed(loaded, counts, x)
    ensures x in loaded
  {
  }

  /** An image is needed at the end exactly if it is needed now, and needed at the end among what stays now. */
  lemma {:induction false} NeededSplits(loaded: seq<Loaded>, before: seq<OpenCount>, after: seq<OpenCount>, x: Loaded)
    requires DistinctAddresses(loaded) && x in loaded && OpenShrinks(before, after)
    ensures var rest := Without(loaded, Unneeded(loaded, before));
      Needed(loaded, after, x) <==> Needed(loaded, before, x) && Needed(rest, after, x)
  {
    var rest := Without(loaded, Unneeded(loaded, before));
    forall y | Needed(loaded, after, y) ensures y in rest {
      NeededIsLoaded(loaded, after, y);
      NeededMonotone(loaded, before, after, y);
      UnneededAt(loaded, before, y);
    }
    if Needed(loaded, after, x) {
      NeededMonotone(loaded, before, after, x);
      NeededWithin(loaded, rest, after, x);
    }
    if Needed(rest, after, x) {
      forall y | Needed(rest, after, y) ensures y in loaded {
        NeededIsLoaded(rest, after, y);
      }
      NeededWithin(rest, loaded, after, x);
    }
  }

  /** An image is held at the end exactly if it is held now, and held at the end among what stays now. */
  lemma {:induction false} HeldSplits(loaded: seq<Loaded>, before: seq<OpenCount>, after: seq<OpenCount>, x: Loaded)
    requires DistinctAddresses(loaded) && x in loaded && OpenShrinks(before, after)
    ensures var rest := Without(loaded, Unheld(loaded, before));
      IsHeld(loaded, after, x) <==> IsHeld(loaded, before, x) && IsHeld(rest, after, x)
  {
    UnloadablesAre(loaded, x);
    UnheldAt(loaded, before, x);
    UnloadablesWithout(loaded, Unheld(loaded, before));
    if !x.image.neverUnload {
      NeededSplits(Unloadables(loaded), before, after, x);
    }
  }

  lemma {:induction false} SplitRemoval(loaded: seq<Loaded>, before: seq<OpenCount>, after: seq<OpenCount>)
    requires DistinctAddresses(loaded) && OpenShrinks(before, after)
    ensures var rest := Without(loaded, Unheld(loaded, before));
      Without(rest, Unheld(rest, after)) == Without(loaded, Unheld(loaded, after))
  {
    var gone := Unheld(loaded, before);
    var rest := Without(loaded, gone);
    WithoutDistinct(loaded, gone);
    WithoutBoth(loaded, gone, Unheld(rest, after));
    forall x | x in loaded
      ensures x.address in gone + Unheld(rest, after) <==> x.address in Unheld(loaded, after)
    {
      HeldSplits(loaded, before, after, x);
      UnheldAt(loaded, before, x);
      UnheldAt(loaded, after, x);
      if x in rest {
        UnheldAt(rest, after, x);
      }
    }
    WithoutSame(loaded, gone + Unheld(rest, after), Unheld(loaded, after));
  }

  lemma {:induction false} SameOpenSameUnneeded(loaded: seq<Loaded>, before: seq<OpenCount>, after: seq<OpenCount>)
    requires SameOpen(before, after)
    ensures Unneeded(loaded, before) == Unneeded(loaded, after)
  {
    forall x ensures Needed(loaded, before, x) <==> Needed(loaded, after, x) {
      if Needed(loaded, before, x) {
        NeededMonotone(loaded, after, before, x);
      }
      if Needed(loaded, after, x) {
        NeededMonotone(loaded, before, after, x);
      }
    }
  }

  /**
   However many passes it takes, whatever the terminators close meanwhile and
   whatever permanent images depend on, what is left is what the counts at the
   end hold, in the old order.
   */
  lemma {:induction false} CollectIsExact(s: State)
    requires Valid(s) && s.gcCount > 0 && DistinctAddresses(s.loaded)
    ensures OpenShrinks(s.counts, Collect(s).counts)
    ensures Collect(s).loaded == Without(s.loaded, Unheld(s.loaded, Collect(s).counts))
    decreases |s.counts| + s.gcCount
  {
    var dead := Dead(s.loaded, s.counts);
    TerminateNarrows(s, dead, |dead|);
    PassRemoves(s);
    var t := Pass(s);
    if t.gcCount > 0 {
      WithoutDistinct(s.loaded, Unheld(s.loaded, s.counts));
      CollectIsExact(t);
      SplitRemoval(s.loaded, s.counts, Collect(s).counts);
    } else {
      SameOpenSameUnneeded(Unloadables(s.loaded), s.counts, t.counts);
    }
  }

  /** If permanent images depend on permanent images only, held means reached from an open or permanent image. */
  lemma {:induction false} HeldIsNeeded(loaded: seq<Loaded>, counts: seq<OpenCount>, x: Loaded)
    requires DistinctAddresses(loaded) && PinnedClosed(loaded) && x in loaded
    ensures IsHeld(loaded, counts, x) <==> Needed(loaded, counts, x)
  {
    DeadIsUnheld(loaded, counts, x);
    DeadIsUnneeded(loaded, counts, x);
  }

  lemma {:induction false} UnheldIsUnneeded(loaded: seq<Loaded>, counts: seq<OpenCount>)
    requires DistinctAddresses(loaded) && PinnedClosed(loaded)
    ensures Without(loaded, Unheld(loaded, counts)) == Without(loaded, Unneeded(loaded, counts))
  {
    forall x | x in loaded ensures x.address in Unheld(loaded, counts) <==> x.address in Unneeded(loaded, counts) {
      HeldIsNeeded(loaded, counts, x);
      UnheldAt(loaded, counts, x);
      UnneededAt(loaded, counts, x);
    }
    WithoutSame(loaded, Unheld(loaded, counts), Unneeded(loaded, counts));
  }

  /** Passes made by the collector: one for each request, those made meanwhile included. */
  ghost function Passes(s: State): nat
    requires Valid(s) && s.gcCount > 0
    decreases |s.counts| + s.gcCount
  {
    var t := Pass(s);
    1 + if t.gcCount > 0 then Passes(t) else 0
  }

  lemma {:induction false} OnePassForEachRequest(s: State)
    requires Valid(s) && s.gcCount > 0
    ensures Passes(s) == s.gcCount + (|s.counts| - |Collect(s).counts|)
    decreases |s.counts| + s.gcCount
  {
    var t := Pass(s);
    if t.gcCount > 0 {
      OnePassForEachRequest(t);
    }
  }
}
