/** What dlclose() does to the image at an address, and what a run keeps loaded, told in terms of the images alone. */
module UnloadingEffects {
  import opened Lists
  import opened Reaper
  import opened Unloading
  import opened UnloadingCounts
  import opened UnloadingProof
  import opened UnloadingRuns

  // ----- dependents -----

  /**
   At every point of every run: whatever a loaded image links to, in whatever way, is
   loaded, as the image with the number or a library outside the cache that overrides
   it. Only a weak link to the number of the missing image asks for nothing.
   */
  lemma {:induction false} DependentsAreLoaded(states: seq<State>, events: seq<Event>, k: nat, x: Loaded, m: nat)
    requires IsRun(states, events) && k <= |events| && x in states[k].loaded && m < |x.image.dependents|
    requires x.image.dependents[m] != Link(Weak, 0x0FFF_FFFF)
    ensures var num := x.image.dependents[m].num;
      exists y :: y in states[k].loaded
                  && (y.image.num == num || (y.image.isDylib && !y.image.inDyldCache && y.image.overrideOf == Some(num)))
  {
    LoadedMeansNeeded(states, events, k, x);
    assert IsFollowed(x.image.dependents[m]);
    var y :| y in states[k].loaded && LeadsTo(x.image.dependents[m], y.image);
  }

  // ----- dlclose() -----

  /** Closing an image that is open and not permanent, whatever kind it is of, takes at least one open off it. */
  lemma {:induction false} CloseLowers(s: State, x: Loaded)
    requires Valid(s) && s.gcCount == 0 && DistinctAddresses(s.loaded)
    requires x in s.loaded && !x.image.neverUnload && Outstanding(s.counts, x.address) > 0
    ensures Outstanding(Closed(s, x.address).counts, x.address) < Outstanding(s.counts, x.address)
  {
    var i :| 0 <= i < |s.loaded| && s.loaded[i] == x;
    assert UnloadableAt(s.loaded[i], x.address);
    CloseCounts(s, x.address, x.address);
  }

  /** With an open taken off, an image that only its own open held is held by nothing. */
  lemma {:induction false} HeldByItselfOnly(s: State, x: Loaded, left: seq<OpenCount>)
    requires Valid(s) && DistinctAddresses(s.loaded) && x in s.loaded && !x.image.neverUnload
    requires Outstanding(s.counts, x.address) == 1 && OpenShrinks(Dec(s.counts, x.address).0, left)
    requires forall r :: r in s.loaded && r != x && (r.image.neverUnload || Outstanding(s.counts, r.address) > 0) ==>
      !Reaches(s.loaded, r, x)
    ensures x.address in Unheld(s.loaded, left)
  {
    UnheldAt(s.loaded, left, x);
    var u, counts := Unloadables(s.loaded), Dec(s.counts, x.address).0;
    if Needed(u, left, x) {
      var r :| IsRoot(left, r) && Reaches(u, r, x);
      var p: seq<Loaded> :| IsTrail(u, p) && p[0] == r && p[|p| - 1] == x;
      forall k | 0 <= k < |p| ensures p[k] in s.loaded && !p[k].image.neverUnload {
        UnloadablesAre(s.loaded, p[k]);
      }
      assert p[0] in s.loaded && IsTrail(s.loaded, p) && Reaches(s.loaded, r, x);
      OpenMeansOutstanding(counts, r.address);
      DecCounts(s.counts, x.address, r.address);
      assert false;
    }
  }

  /** The last dlclose() of an image that no other open or permanent image reaches unloads it, whatever kind it is of. */
  lemma {:induction false} LastCloseRemoves(s: State, x: Loaded)
    requires Valid(s) && s.gcCount == 0 && DistinctAddresses(s.loaded) && x in s.loaded && !x.image.neverUnload
    requires Outstanding(s.counts, x.address) == 1
    requires forall r :: r in s.loaded && r != x && (r.image.neverUnload || Outstanding(s.counts, r.address) > 0) ==>
      !Reaches(s.loaded, r, x)
    ensures x !in Closed(s, x.address).loaded
  {
    var i :| 0 <= i < |s.loaded| && s.loaded[i] == x;
    assert UnloadableAt(s.loaded[i], x.address);
    DecCounts(s.counts, x.address, x.address);
    var counts := Dec(s.counts, x.address).0;
    var gone := Gone(s.loaded, counts);
    CloseOutcome(s, x.address);
    GoneIsLeast(s.loaded, counts, gone);
    LoweredShrinks(counts, multiset{}, CallsAt(s.loaded, s.loaded, gone));
    LoweredNot(counts, multiset{});
    HeldByItselfOnly(s, x, CountsLeft(s.loaded, counts, gone));
  }

  /** A dlclose() of an address where there is no image, or a permanent one, changes nothing. */
  lemma {:induction false} CloseChangesNothing(s: State, address: nat)
    requires Valid(s) && forall x :: x in s.loaded && x.address == address ==> x.image.neverUnload
    ensures Closed(s, address) == s
  {
  }

  // ----- dlopen() -----

  /** Opening an image that is loaded, the first with its number, counts one open of it unless it is in the cache. */
  lemma {:induction false} ReopenCounts(s: State, i: nat, a: nat)
    requires Valid(s) && i < |s.loaded| && forall k :: 0 <= k < i ==> s.loaded[k].image.num != s.loaded[i].image.num
    ensures Reopened(s, s.loaded[i].image.num).loaded == s.loaded
    ensures Outstanding(Reopened(s, s.loaded[i].image.num).counts, a)
         == Outstanding(s.counts, a) + if a == s.loaded[i].address && !s.loaded[i].image.inDyldCache then 1 else 0
  {
    IncCounts(s.counts, s.loaded[i].address, a);
  }
}
