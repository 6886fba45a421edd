/** What the loader delivers is what unloading relies on: loads bring everything that the new images need. */
module LoadThenUnload {
  import opened Lists
  import opened Reaper
  import opened Unloading
  import opened UnloadingProof
  import opened UnloadingRuns
  import L = Loader

  ghost predicate InArrays(w: L.Setting, image: Image) {
    exists a, i :: 0 <= a < |w.arrays| && 0 <= i < |w.arrays[a].images| && w.arrays[a].images[i] == image
  }

  ghost predicate IsKnownImage(w: L.Setting, image: Image) {
    image in w.existing || image == w.top || InArrays(w, image)
  }

  /** A number names one image, and what overrides a cache image is a library outside the cache. */
  ghost predicate Consistent(w: L.Setting) {
    && (forall x, y :: IsKnownImage(w, x) && IsKnownImage(w, y) && x.num == y.num ==> x == y)
    && forall x :: InArrays(w, x) && x.overrideOf.Some? ==> x.isDylib && !x.inDyldCache
  }

  function Images(loaded: seq<Loaded>): (r: seq<Image>)
    ensures |r| == |loaded| && forall i :: 0 <= i < |r| ==> r[i] == loaded[i].image
  {
    seq(|loaded|, i requires 0 <= i < |loaded| => loaded[i].image)
  }

  // ----- overrides -----

  /** The image loaded for a dependent stands for it. */
  lemma {:induction false} LoadedLeadsTo(w: L.Setting, x: Image, k: nat, num: nat, y: Image)
    requires Consistent(w) && k < |x.dependents| && L.NeedsAt(w, x, k, num)
    requires IsKnownImage(w, y) && y.num == num
    ensures LeadsTo(x.dependents[k], y)
  {
    var link := x.dependents[k];
    if num != link.num {
      var a: nat, i: nat :| L.OverridesFirst(w.arrays, a, i, link.num) && num == w.arrays[a].images[i].num;
      assert InArrays(w, w.arrays[a].images[i]);
    }
  }

  // ----- the images a load brings -----

  /** A load into the state s that ended without an error, its images mapped at new addresses. */
  ghost predicate IsLoad(s: State, w: L.Setting, capacity: nat, newImages: seq<Loaded>) {
    && Inv(s) && Consistent(w) && L.WellNumbered(w.arrays) && w.existing == Images(s.loaded)
    && L.Partial(w, capacity, Images(newImages)) && L.AllSatisfied(w, Images(newImages), |newImages|)
    && DistinctAddresses(s.loaded + newImages)
  }

  lemma {:induction false} FoundIsInArrays(arrays: seq<L.ImageArray>, num: nat) returns (a: nat, i: nat)
    requires L.FindImage(arrays, num).Some?
    ensures a < |arrays| && i < |arrays[a].images| && arrays[a].images[i] == L.FindImage(arrays, num).value
  {
    var r := L.ImageForNum(arrays[0], num);
    if r.Some? {
      a := 0;
      if arrays[0].hasRoots {
        i := NumberedIsIn(arrays[0].images, num, 0);
      } else {
        i := num - arrays[0].start;
      }
    } else {
      a, i := FoundIsInArrays(arrays[1..], num);
      a := a + 1;
    }
  }

  lemma {:induction false} NumberedIsIn(images: seq<Image>, num: nat, from: nat) returns (i: nat)
    requires from <= |images| && L.FirstNumbered(images, num, from).Some?
    ensures i < |images| && images[i] == L.FirstNumbered(images, num, from).value
    decreases |images| - from
  {
    if images[from].num == num {
      i := from;
    } else {
      i := NumberedIsIn(images, num, from + 1);
    }
  }

  lemma {:induction false} NewIsKnown(s: State, w: L.Setting, capacity: nat, newImages: seq<Loaded>, i: nat)
    requires IsLoad(s, w, capacity, newImages) && i < |newImages|
    ensures IsKnownImage(w, newImages[i].image)
  {
    var image := Images(newImages)[i];
    assert L.ImageOf(w, image.num) == Some(image);
    if image != w.top {
      var a, k := FoundIsInArrays(w.arrays, image.num);
    }
  }

  /** A dependent of a new image has a representative among all images. */
  lemma {:induction false} DependentIsLoaded(s: State, w: L.Setting, capacity: nat, newImages: seq<Loaded>, i: nat,
                                             k: nat)
    requires IsLoad(s, w, capacity, newImages) && i < |newImages| && k < |newImages[i].image.dependents|
    ensures IsLinked(s.loaded + newImages, newImages[i].image.dependents[k])
  {
    var x, link := Images(newImages)[i], newImages[i].image.dependents[k];
    if IsFollowed(link) {
      var num := L.Translate(L.OverridesOf(w.arrays), link.num);
      L.TranslateReplaces(w.arrays, link.num);
      assert L.NeedsAt(w, x, k, num);
      assert L.Satisfied(w, Images(newImages), Images(newImages)[i], |x.dependents|);
      assert L.IsKnown(w, Images(newImages), num);
      if L.IsExisting(w, num) {
        var j :| 0 <= j < |w.existing| && w.existing[j].num == num;
        assert IsKnownImage(w, w.existing[j]) && s.loaded[j] in s.loaded + newImages;
        LoadedLeadsTo(w, x, k, num, s.loaded[j].image);
      } else {
        var j :| 0 <= j < |newImages| && L.Numbers(Images(newImages))[j] == num;
        NewIsKnown(s, w, capacity, newImages, j);
        LoadedLeadsTo(w, x, k, num, newImages[j].image);
        assert newImages[j] in s.loaded + newImages;
      }
    }
  }

  lemma {:induction false} StepIsLink(s: State, w: L.Setting, capacity: nat, newImages: seq<Loaded>, j: nat, i: nat)
    requires IsLoad(s, w, capacity, newImages) && i < |newImages| && j < |newImages|
    requires L.IsStep(w, newImages[j].image.num, newImages[i].image.num)
    ensures LinksTo(newImages[j].image, newImages[i].image)
  {
    var x, num := Images(newImages)[j], newImages[i].image.num;
    assert L.ImageOf(w, x.num) == Some(x);
    var k: nat :| k < |x.dependents| && L.NeedsAt(w, x, k, num);
    NewIsKnown(s, w, capacity, newImages, i);
    LoadedLeadsTo(w, x, k, num, newImages[i].image);
  }

  lemma {:induction false} TopIsFirst(s: State, w: L.Setting, capacity: nat, newImages: seq<Loaded>, i: nat)
    requires IsLoad(s, w, capacity, newImages) && i < |newImages| && newImages[i].image.num == w.top.num
    ensures Reaches(s.loaded + newImages, newImages[0], newImages[i])
  {
    var all, images := s.loaded + newImages, Images(newImages);
    assert L.Numbers(images)[0] == L.Numbers(images)[i];
    var t := [newImages[0]];
    assert newImages[0] in all;
    assert IsTrail(all, t) && t[0] == newImages[0] && t[|t| - 1] == newImages[i];
  }

  lemma {:induction false} NumberIsLoaded(s: State, w: L.Setting, capacity: nat, newImages: seq<Loaded>,
                                          p: seq<nat>) returns (j: nat)
    requires IsLoad(s, w, capacity, newImages) && L.IsRoute(w, p)
    ensures j < |newImages| && newImages[j].image.num == p[|p| - 1]
  {
    var images := Images(newImages);
    L.RouteIsLoaded(w, capacity, images, p);
    j :| j < |images| && L.Numbers(images)[j] == p[|p| - 1];
  }

  /** A route of numbers is a trail of images. */
  lemma {:induction false} RouteIsReach(s: State, w: L.Setting, capacity: nat, newImages: seq<Loaded>, p: seq<nat>,
                                        i: nat)
    requires IsLoad(s, w, capacity, newImages) && L.IsRoute(w, p) && i < |newImages| && newImages[i].image.num == p[|p| - 1]
    ensures Reaches(s.loaded + newImages, newImages[0], newImages[i])
    decreases |p|
  {
    if |p| == 1 {
      TopIsFirst(s, w, capacity, newImages, i);
    } else {
      var front := p[..|p| - 1];
      var j := NumberIsLoaded(s, w, capacity, newImages, front);
      RouteIsReach(s, w, capacity, newImages, front, j);
      assert L.IsStep(w, p[|p| - 2], p[|p| - 2 + 1]);
      StepIsLink(s, w, capacity, newImages, j, i);
      ReachesNext(s.loaded + newImages, newImages[0], newImages[j], newImages[i]);
    }
  }

  /**
   What the loader delivers may be added: with it every image has its dependents,
   and every new image is reached from the one that was asked for.
   */
  lemma {:induction false} LoadIsAdmissible(s: State, w: L.Setting, capacity: nat, newImages: seq<Loaded>)
    requires IsLoad(s, w, capacity, newImages) && PinnedClosed(s.loaded + newImages)
    requires w.top.inDyldCache ==> w.top.neverUnload
    ensures Admissible(s, Load(newImages)) && Inv(Step(s, Load(newImages)))
  {
    var all := s.loaded + newImages;
    assert Images(newImages)[0] == w.top;
    forall x, k | x in all && 0 <= k < |x.image.dependents| ensures IsLinked(all, x.image.dependents[k]) {
      if x in s.loaded {
        assert IsLinked(s.loaded, x.image.dependents[k]);
        if IsFollowed(x.image.dependents[k]) {
          var y :| y in s.loaded && LeadsTo(x.image.dependents[k], y.image);
          assert y in all;
        }
      } else {
        var i :| 0 <= i < |newImages| && newImages[i] == x;
        DependentIsLoaded(s, w, capacity, newImages, i, k);
      }
    }
    forall y | y in newImages ensures Reaches(all, newImages[0], y) {
      var i :| 0 <= i < |newImages| && newImages[i] == y;
      assert L.Required(w, Images(newImages)[i].num);
      var p: seq<nat> :| L.IsRoute(w, p) && p[|p| - 1] == newImages[i].image.num;
      RouteIsReach(s, w, capacity, newImages, p, i);
    }
    StepKeepsInv(s, Load(newImages));
  }
}
