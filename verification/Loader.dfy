/**
 Loading an image with everything it depends on: a list of new images that grows
 while it is walked, and the set of image numbers already loaded.
 */
module Loader {
  import opened Lists
  import opened Reaper

  const BITMAP_SIZE := 5120
  const FIRST_LAUNCH_CLOSURE_NUM := 0x2000

  /** A bitmap for small numbers and a list for the others. */
  class ImageNumSet {
    const bitmap: array<bool>
    var overflow: seq<nat>

    ghost predicate Valid()
      reads this
    {
      bitmap.Length == BITMAP_SIZE && forall i :: 0 <= i < |overflow| ==> overflow[i] >= BITMAP_SIZE
    }

    ghost predicate Has(num: nat)
      requires Valid()
      reads this, bitmap
    {
      if num < BITMAP_SIZE then bitmap[num] else num in overflow
    }

    constructor ()
      ensures Valid() && fresh(bitmap) && forall num: nat :: !Has(num)
    {
      bitmap := new bool[BITMAP_SIZE](_ => false);
      overflow := [];
    }

    method Add(num: nat)
      requires Valid()
      modifies this, bitmap
      ensures Valid() && forall n: nat :: Has(n) <==> old(Has(n)) || n == num
    {
      if num < BITMAP_SIZE {
        bitmap[num] := true;
      } else {
        overflow := overflow + [num];
      }
    }

    method Contains(num: nat) returns (found: bool)
      requires Valid()
      ensures found <==> Has(num)
    {
      if num < BITMAP_SIZE {
        return bitmap[num];
      }
      for i := 0 to |overflow|
        invariant num !in overflow[..i]
      {
        if overflow[i] == num {
          return true;
        }
      }
      assert overflow[..|overflow|] == overflow;
      return false;
    }
  }

  // ----- images in arrays -----

  datatype ImageArray = ImageArray(start: nat, hasRoots: bool, images: seq<Image>)

  /** The first image with the number, at or after a position. */
  function FirstNumbered(images: seq<Image>, num: nat, from: nat): (r: Option<Image>)
    requires from <= |images|
    ensures r.Some? ==> r.value.num == num
    decreases |images| - from
  {
    if from == |images| then None
    else if images[from].num == num then Some(images[from])
    else FirstNumbered(images, num, from + 1)
  }

  function ImageForNum(a: ImageArray, num: nat): Option<Image> {
    if a.hasRoots then FirstNumbered(a.images, num, 0)
    else if num < a.start || num - a.start >= |a.images| then None
    else Some(a.images[num - a.start])
  }

  function FindImage(arrays: seq<ImageArray>, num: nat): Option<Image> {
    if arrays == [] then None
    else
      var r := ImageForNum(arrays[0], num);
      if r.Some? then r else FindImage(arrays[1..], num)
  }

  /** Arrays without roots number their images consecutively. */
  ghost predicate WellNumbered(arrays: seq<ImageArray>) {
    forall a, i {:trigger arrays[a].images[i]} :: 0 <= a < |arrays| && 0 <= i < |arrays[a].images| && !arrays[a].hasRoots ==>
      arrays[a].images[i].num == arrays[a].start + i
  }

  lemma {:induction false} FoundHasNumber(arrays: seq<ImageArray>, num: nat)
    requires WellNumbered(arrays) && FindImage(arrays, num).Some?
    ensures FindImage(arrays, num).value.num == num
  {
    if ImageForNum(arrays[0], num) == None {
      assert forall a :: 0 <= a < |arrays| - 1 ==> arrays[1..][a] == arrays[a + 1];
      FoundHasNumber(arrays[1..], num);
    } else if !arrays[0].hasRoots {
      assert arrays[0].images[num - arrays[0].start].num == num;
    }
  }

  /** The image is the first with the number, counting through the arrays in order. */
  ghost predicate IsFirstNumbered(arrays: seq<ImageArray>, num: nat, a: nat, i: nat) {
    && a < |arrays| && i < |arrays[a].images| && arrays[a].images[i].num == num
    && (forall b, j {:trigger arrays[b].images[j]} :: 0 <= b < a && 0 <= j < |arrays[b].images| ==> arrays[b].images[j].num != num)
    && (forall j :: 0 <= j < i ==> arrays[a].images[j].num != num)
  }

  lemma {:induction false} NumberedFrom(images: seq<Image>, num: nat, from: nat, i: nat)
    requires from <= i <= |images| && (i < |images| ==> images[i].num == num)
    requires forall j :: from <= j < i ==> images[j].num != num
    ensures FirstNumbered(images, num, from) == if i < |images| then Some(images[i]) else None
    decreases i - from
  {
    if from < i {
      NumberedFrom(images, num, from + 1, i);
    }
  }

  /** What an array gives for a number that none, or first the i-th, of its images has. */
  lemma {:induction false} ArrayGives(arrays: seq<ImageArray>, num: nat, a: nat, i: nat)
    requires WellNumbered(arrays) && a < |arrays| && i <= |arrays[a].images|
    requires i < |arrays[a].images| ==> arrays[a].images[i].num == num
    requires forall j :: 0 <= j < i ==> arrays[a].images[j].num != num
    ensures ImageForNum(arrays[a], num) == if i < |arrays[a].images| then Some(arrays[a].images[i]) else None
  {
    NumberedFrom(arrays[a].images, num, 0, i);
    var k := num - arrays[a].start;
    if !arrays[a].hasRoots && 0 <= k < |arrays[a].images| {
      assert arrays[a].images[k].num == num;
    }
  }

  lemma {:induction false} WellNumberedRest(arrays: seq<ImageArray>)
    requires WellNumbered(arrays) && arrays != []
    ensures WellNumbered(arrays[1..])
  {
    assert forall a :: 0 <= a < |arrays| - 1 ==> arrays[1..][a] == arrays[a + 1];
  }

  /** The lookup gives the first image with the number. */
  lemma {:induction false} FindsFirst(arrays: seq<ImageArray>, num: nat, a: nat, i: nat)
    requires WellNumbered(arrays) && IsFirstNumbered(arrays, num, a, i)
    ensures FindImage(arrays, num) == Some(arrays[a].images[i])
  {
    if a == 0 {
      ArrayGives(arrays, num, 0, i);
    } else {
      ArrayGives(arrays, num, 0, |arrays[0].images|);
      WellNumberedRest(arrays);
      forall b, j | 0 <= b < a - 1 && 0 <= j < |arrays[1..][b].images| ensures arrays[1..][b].images[j].num != num {
        assert arrays[1..][b].images[j] == arrays[b + 1].images[j];
      }
      assert arrays[1..][a - 1].images[i] == arrays[a].images[i];
      FindsFirst(arrays[1..], num, a - 1, i);
    }
  }

  /** It gives nothing if no image has the number. */
  lemma {:induction false} FindsNothing(arrays: seq<ImageArray>, num: nat)
    requires WellNumbered(arrays)
    requires forall a, i {:trigger arrays[a].images[i]} :: 0 <= a < |arrays| && 0 <= i < |arrays[a].images| ==>
      arrays[a].images[i].num != num
    ensures FindImage(arrays, num) == None
  {
    if arrays != [] {
      ArrayGives(arrays, num, 0, |arrays[0].images|);
      WellNumberedRest(arrays);
      forall b, j | 0 <= b < |arrays| - 1 && 0 <= j < |arrays[1..][b].images| ensures arrays[1..][b].images[j].num != num {
        assert arrays[1..][b].images[j] == arrays[b + 1].images[j];
      }
      FindsNothing(arrays[1..], num);
    }
  }

  // ----- overrides -----

  datatype Override = Override(inCache: nat, replacement: nat)

  function OverridesIn(images: seq<Image>): seq<Override> {
    if images == [] then []
    else
      var image := images[|images| - 1];
      OverridesIn(images[..|images| - 1]) +
      if image.overrideOf.Some? then [Override(image.overrideOf.value, image.num)] else []
  }

  function OverridesOfOne(a: ImageArray): seq<Override> {
    if a.start < FIRST_LAUNCH_CLOSURE_NUM then [] else OverridesIn(a.images)
  }

  /** The overrides in all arrays but those of the dyld cache. */
  function OverridesOf(arrays: seq<ImageArray>): seq<Override> {
    if arrays == [] then []
    else OverridesOf(arrays[..|arrays| - 1]) + OverridesOfOne(arrays[|arrays| - 1])
  }

  lemma {:induction false} OverridesSnoc(arrays: seq<ImageArray>, n: nat)
    requires 0 < n <= |arrays|
    ensures OverridesOf(arrays[..n]) == OverridesOf(arrays[..n - 1]) + OverridesOfOne(arrays[n - 1])
  {
    assert arrays[..n][..n - 1] == arrays[..n - 1];
  }

  method GatherOverrides(arrays: seq<ImageArray>) returns (overrides: seq<Override>, someCacheImageOverridden: bool)
    ensures overrides == OverridesOf(arrays)
    ensures someCacheImageOverridden <==> overrides != []
  {
    overrides, someCacheImageOverridden := [], false;
    for a := 0 to |arrays|
      invariant overrides == OverridesOf(arrays[..a])
      invariant someCacheImageOverridden <==> overrides != []
    {
      OverridesSnoc(arrays, a + 1);
      if arrays[a].start < FIRST_LAUNCH_CLOSURE_NUM {
        continue;
      }
      var images := arrays[a].images;
      for i := 0 to |images|
        invariant overrides == OverridesOf(arrays[..a]) + OverridesIn(images[..i])
        invariant someCacheImageOverridden <==> overrides != []
      {
        assert images[..i + 1][..i] == images[..i];
        if images[i].overrideOf.Some? {
          someCacheImageOverridden := true;
          overrides := overrides + [Override(images[i].overrideOf.value, images[i].num)];
        }
      }
      assert images[..|images|] == images;
    }
    assert arrays[..|arrays|] == arrays;
  }

  /** The first override of the number decides. */
  function Translate(overrides: seq<Override>, num: nat): nat {
    if overrides == [] then num
    else if overrides[0].inCache == num then overrides[0].replacement
    else Translate(overrides[1..], num)
  }

  method FindOverride(overrides: seq<Override>, num: nat) returns (r: nat)
    ensures r == Translate(overrides, num)
    ensures forall i :: 0 <= i < |overrides| && overrides[i].inCache == num && (forall j :: 0 <= j < i ==> overrides[j].inCache != num) ==>
      r == overrides[i].replacement
    ensures (forall i :: 0 <= i < |overrides| ==> overrides[i].inCache != num) ==> r == num
  {
    assert overrides[0..] == overrides;
    for i := 0 to |overrides|
      invariant Translate(overrides, num) == Translate(overrides[i..], num)
      invariant forall j :: 0 <= j < i ==> overrides[j].inCache != num
    {
      assert overrides[i..][1..] == overrides[i + 1..];
      if overrides[i].inCache == num {
        return overrides[i].replacement;
      }
    }
    return num;
  }

  /** The image is outside the cache and overrides the cache image with the number. */
  ghost predicate Overrides(arrays: seq<ImageArray>, a: nat, i: nat, num: nat) {
    && a < |arrays| && i < |arrays[a].images| && arrays[a].start >= 0x2000
    && arrays[a].images[i].overrideOf == Some(num)
  }

  predicate IsEarlier(b: nat, j: nat, a: nat, i: nat) { b < a || (b == a && j < i) }

  /** It is the first such image, counting through the arrays in order. */
  ghost predicate OverridesFirst(arrays: seq<ImageArray>, a: nat, i: nat, num: nat) {
    && Overrides(arrays, a, i, num)
    && forall b: nat, j: nat :: Overrides(arrays, b, j, num) ==> !IsEarlier(b, j, a, i)
  }

  /** What a number is replaced by: the number of the first image that overrides it, or itself if none does. */
  ghost predicate IsReplacement(arrays: seq<ImageArray>, num: nat, to: nat) {
    if exists a: nat, i: nat :: Overrides(arrays, a, i, num)
    then exists a: nat, i: nat :: OverridesFirst(arrays, a, i, num) && to == arrays[a].images[i].num
    else to == num
  }

  lemma {:induction false} OneReplacement(arrays: seq<ImageArray>, num: nat, to: nat, other: nat)
    requires IsReplacement(arrays, num, to) && IsReplacement(arrays, num, other)
    ensures to == other
  {
    if a: nat, i: nat :| Overrides(arrays, a, i, num) {
      var b: nat, j: nat :| OverridesFirst(arrays, b, j, num) && to == arrays[b].images[j].num;
      var c: nat, k: nat :| OverridesFirst(arrays, c, k, num) && other == arrays[c].images[k].num;
      assert b == c && j == k;
    }
  }

  ghost predicate Hits(overrides: seq<Override>, num: nat) { exists e :: 0 <= e < |overrides| && overrides[e].inCache == num }

  lemma {:induction false} TranslateSum(a: seq<Override>, b: seq<Override>, num: nat)
    ensures Translate(a + b, num) == if Hits(a, num) then Translate(a, num) else Translate(b, num)
    ensures !Hits(a, num) ==> Translate(a, num) == num
    ensures Hits(a + b, num) <==> Hits(a, num) || Hits(b, num)
  {
    if a == [] {
      assert a + b == b;
    } else {
      TranslateSum(a[1..], b, num);
      assert (a + b)[1..] == a[1..] + b;
      assert Hits(a, num) <==> a[0].inCache == num || Hits(a[1..], num) by {
        if Hits(a[1..], num) {
          var e :| 0 <= e < |a[1..]| && a[1..][e].inCache == num;
          assert a[e + 1].inCache == num;
        }
        if e :| 0 < e < |a| && a[e].inCache == num {
          assert a[1..][e - 1].inCache == num;
        }
      }
      assert Hits(a + b, num) <==> Hits(a, num) || Hits(b, num) by {
        if e :| 0 <= e < |b| && b[e].inCache == num {
          assert (a + b)[|a| + e].inCache == num;
        }
        if e :| 0 <= e < |a| && a[e].inCache == num {
          assert (a + b)[e].inCache == num;
        }
      }
    }
  }

  /** The overrides of an array, up to the i-th image, which is the first to override the number. */
  lemma {:induction false} FirstInArray(images: seq<Image>, num: nat, i: nat)
    requires i <= |images| && (i < |images| ==> images[i].overrideOf == Some(num))
    requires forall j :: 0 <= j < i ==> images[j].overrideOf != Some(num)
    ensures Hits(OverridesIn(images), num) <==> i < |images|
    ensures i < |images| ==> Translate(OverridesIn(images), num) == images[i].num
  {
    if images != [] {
      var n := |images| - 1;
      var front, last := images[..n], images[n];
      FirstInArray(front, num, if i < n then i else n);
      var more := if last.overrideOf.Some? then [Override(last.overrideOf.value, last.num)] else [];
      TranslateSum(OverridesIn(front), more, num);
      assert last.overrideOf == Some(num) ==> more[0].inCache == num;
    }
  }

  /** No image of the first n arrays overrides the number. */
  ghost predicate NoneOverrides(arrays: seq<ImageArray>, n: nat, num: nat) {
    forall a: nat, i: nat :: a < n ==> !Overrides(arrays, a, i, num)
  }

  lemma {:induction false} NoneHits(arrays: seq<ImageArray>, n: nat, num: nat)
    requires n <= |arrays| && NoneOverrides(arrays, n, num)
    ensures !Hits(OverridesOf(arrays[..n]), num)
  {
    if n > 0 {
      NoneHits(arrays, n - 1, num);
      OverridesSnoc(arrays, n);
      if arrays[n - 1].start >= 0x2000 {
        var images := arrays[n - 1].images;
        forall j: nat | j < |images| ensures images[j].overrideOf != Some(num) {
          assert !Overrides(arrays, n - 1, j, num);
        }
        FirstInArray(images, num, |images|);
      }
      TranslateSum(OverridesOf(arrays[..n - 1]), OverridesOfOne(arrays[n - 1]), num);
    }
  }

  lemma {:induction false} FirstDecides(arrays: seq<ImageArray>, a: nat, i: nat, num: nat, n: nat)
    requires OverridesFirst(arrays, a, i, num) && a < n <= |arrays|
    ensures Hits(OverridesOf(arrays[..n]), num) && Translate(OverridesOf(arrays[..n]), num) == arrays[a].images[i].num
  {
    OverridesSnoc(arrays, n);
    if a < n - 1 {
      FirstDecides(arrays, a, i, num, n - 1);
      TranslateSum(OverridesOf(arrays[..n - 1]), OverridesOfOne(arrays[n - 1]), num);
    } else {
      forall j: nat | j < i ensures arrays[a].images[j].overrideOf != Some(num) {
        assert !Overrides(arrays, a, j, num);
      }
      NoneHits(arrays, a, num);
      FirstInArray(arrays[a].images, num, i);
      TranslateSum(OverridesOf(arrays[..a]), OverridesIn(arrays[a].images), num);
    }
  }

  lemma {:induction false} FirstOverrider(arrays: seq<ImageArray>, num: nat, a: nat, i: nat) returns (b: nat, j: nat)
    requires Overrides(arrays, a, i, num)
    ensures OverridesFirst(arrays, b, j, num)
    decreases a, i
  {
    if OverridesFirst(arrays, a, i, num) {
      b, j := a, i;
    } else {
      var c: nat, k: nat :| Overrides(arrays, c, k, num) && IsEarlier(c, k, a, i);
      b, j := FirstOverrider(arrays, num, c, k);
    }
  }

  /** Translating by the overrides gathered replaces every number as it should be. */
  lemma {:induction false} TranslateReplaces(arrays: seq<ImageArray>, num: nat)
    ensures IsReplacement(arrays, num, Translate(OverridesOf(arrays), num))
  {
    assert arrays[..|arrays|] == arrays;
    if a: nat, i: nat :| Overrides(arrays, a, i, num) {
      var b, j := FirstOverrider(arrays, num, a, i);
      FirstDecides(arrays, b, j, num, |arrays|);
    } else {
      NoneHits(arrays, |arrays|, num);
      TranslateSum(OverridesOf(arrays), [], num);
    }
  }

  // ----- what has to be loaded -----

  /** What a load starts from: the images already there, the one asked for, and where to find others. */
  datatype Setting = Setting(existing: seq<Image>, top: Image, arrays: seq<ImageArray>)

  ghost predicate IsExisting(w: Setting, num: nat) {
    exists i :: 0 <= i < |w.existing| && w.existing[i].num == num
  }

  ghost predicate Needs(w: Setting, x: Image, num: nat) {
    exists k :: 0 <= k < |x.dependents| && NeedsAt(w, x, k, num)
  }

  ghost predicate NeedsAt(w: Setting, x: Image, k: nat, num: nat)
    requires k < |x.dependents|
  {
    x.dependents[k] != Link(Weak, 0x0FFF_FFFF) && IsReplacement(w.arrays, x.dependents[k].num, num)
  }

  function ImageOf(w: Setting, num: nat): Option<Image> {
    if num == w.top.num then Some(w.top) else FindImage(w.arrays, num)
  }

  ghost predicate IsStep(w: Setting, from: nat, to: nat) {
    ImageOf(w, from).Some? && Needs(w, ImageOf(w, from).value, to) && !IsExisting(w, to)
  }

  ghost predicate IsRoute(w: Setting, p: seq<nat>) {
    |p| >= 1 && p[0] == w.top.num && forall k :: 0 <= k < |p| - 1 ==> IsStep(w, p[k], p[k + 1])
  }

  /** The number is the one asked for, or is reached from it through images that are not there yet. */
  ghost predicate Required(w: Setting, num: nat) {
    exists p: seq<nat> :: IsRoute(w, p) && p[|p| - 1] == num
  }

  lemma {:induction false} TopIsRequired(w: Setting)
    ensures Required(w, w.top.num)
  {
    assert IsRoute(w, [w.top.num]);
  }

  lemma {:induction false} NextIsRequired(w: Setting, from: nat, to: nat)
    requires Required(w, from) && IsStep(w, from, to)
    ensures Required(w, to)
  {
    var p: seq<nat> :| IsRoute(w, p) && p[|p| - 1] == from;
    var q := p + [to];
    assert IsRoute(w, q) && q[|q| - 1] == to;
  }

  // ----- the new images -----

  function Numbers(images: seq<Image>): (r: seq<nat>)
    ensures |r| == |images| && forall i :: 0 <= i < |r| ==> r[i] == images[i].num
  {
    seq(|images|, i requires 0 <= i < |images| => images[i].num)
  }

  /** The new images are required ones, each once, found under their numbers. */
  ghost predicate Partial(w: Setting, capacity: nat, images: seq<Image>) {
    && 1 <= |images| <= capacity && images[0] == w.top && Distinct(Numbers(images))
    && forall i {:trigger images[i]} :: 0 <= i < |images| ==>
         && Required(w, images[i].num) && ImageOf(w, images[i].num) == Some(images[i])
         && (i > 0 ==> !IsExisting(w, images[i].num))
  }

  ghost predicate IsKnown(w: Setting, images: seq<Image>, num: nat) { IsExisting(w, num) || num in Numbers(images) }

  /** The first k dependents of an image are there. */
  ghost predicate Satisfied(w: Setting, images: seq<Image>, x: Image, k: nat) {
    k <= |x.dependents| && forall m, num: nat {:trigger NeedsAt(w, x, m, num)} ::
      0 <= m < k && NeedsAt(w, x, m, num) ==> IsKnown(w, images, num)
  }

  /** The first n new images have their dependents. */
  ghost predicate AllSatisfied(w: Setting, images: seq<Image>, n: nat)
    requires n <= |images|
  {
    forall i {:trigger images[i]} :: 0 <= i < n ==> Satisfied(w, images, images[i], |images[i].dependents|)
  }

  ghost predicate Tracks(s: ImageNumSet, w: Setting, images: seq<Image>)
    reads s, s.bitmap
  {
    s.Valid() && forall num: nat {:trigger s.Has(num)} :: s.Has(num) <==> IsKnown(w, images, num)
  }

  lemma {:induction false} MoreStaysSatisfied(w: Setting, images: seq<Image>, more: seq<Image>, x: Image, k: nat)
    requires Satisfied(w, images, x, k) && images <= more
    ensures Satisfied(w, more, x, k)
  {
    forall num: nat | IsKnown(w, images, num) ensures IsKnown(w, more, num) {
      if !IsExisting(w, num) {
        var i :| 0 <= i < |images| && Numbers(images)[i] == num;
        assert Numbers(more)[i] == num;
      }
    }
  }

  lemma {:induction false} AppendKeepsPartial(w: Setting, capacity: nat, images: seq<Image>, n: nat, num: nat)
    requires WellNumbered(w.arrays) && Partial(w, capacity, images) && |images| < capacity && n < |images|
    requires Needs(w, images[n], num) && !IsKnown(w, images, num) && FindImage(w.arrays, num).Some?
    ensures FindImage(w.arrays, num).value.num == num
    ensures Partial(w, capacity, images + [FindImage(w.arrays, num).value])
  {
    FoundHasNumber(w.arrays, num);
    var image := FindImage(w.arrays, num).value;
    assert Numbers(images)[0] == w.top.num;
    assert IsStep(w, images[n].num, num);
    NextIsRequired(w, images[n].num, num);
    assert Numbers(images + [image]) == Numbers(images) + [num];
  }

  // ----- how it ends -----

  datatype Error = TooManyImages | UnableToLocate(num: nat, depIndex: nat)

  ghost predicate AllLocated(w: Setting) {
    forall num: nat :: Required(w, num) ==> ImageOf(w, num).Some?
  }

  /** No list of different required numbers is longer than the room there is. */
  ghost predicate Fit(w: Setting, capacity: nat) {
    forall s: seq<nat> :: Distinct(s) && (forall num :: num in s ==> Required(w, num)) ==> |s| <= capacity
  }

  ghost predicate Explains(w: Setting, capacity: nat, error: Error) {
    match error
    case TooManyImages => !Fit(w, capacity)
    case UnableToLocate(num, _) => Required(w, num) && ImageOf(w, num) == None
  }

  lemma {:induction false} OneTooMany(w: Setting, capacity: nat, images: seq<Image>, n: nat, num: nat)
    requires Partial(w, capacity, images) && |images| == capacity && n < |images|
    requires Needs(w, images[n], num) && !IsKnown(w, images, num)
    ensures !Fit(w, capacity)
  {
    assert IsStep(w, images[n].num, num);
    NextIsRequired(w, images[n].num, num);
    var s := Numbers(images) + [num];
    assert Distinct(s) && |s| > capacity;
    forall m | m in s ensures Required(w, m) {
      if m in Numbers(images) {
        var i :| 0 <= i < |images| && Numbers(images)[i] == m;
        assert images[i].num == m;
      }
    }
  }

  lemma {:induction false} NotLocated(w: Setting, capacity: nat, images: seq<Image>, n: nat, num: nat)
    requires Partial(w, capacity, images) && n < |images|
    requires Needs(w, images[n], num) && !IsKnown(w, images, num) && FindImage(w.arrays, num) == None
    ensures Required(w, num) && ImageOf(w, num) == None
  {
    assert Numbers(images)[0] == w.top.num;
    assert IsStep(w, images[n].num, num);
    NextIsRequired(w, images[n].num, num);
  }

  lemma {:induction false} RouteIsLoaded(w: Setting, capacity: nat, images: seq<Image>, p: seq<nat>)
    requires Partial(w, capacity, images) && AllSatisfied(w, images, |images|) && IsRoute(w, p)
    ensures p[|p| - 1] in Numbers(images)
    decreases |p|
  {
    if |p| == 1 {
      assert Numbers(images)[0] == w.top.num;
    } else {
      var from, to := p[|p| - 2], p[|p| - 1];
      RouteIsLoaded(w, capacity, images, p[..|p| - 1]);
      assert IsStep(w, p[|p| - 2], p[|p| - 2 + 1]);
      var i :| 0 <= i < |images| && Numbers(images)[i] == from;
      assert ImageOf(w, images[i].num) == Some(images[i]);
      var k :| 0 <= k < |images[i].dependents| && NeedsAt(w, images[i], k, to);
      assert IsKnown(w, images, to);
    }
  }

  /** At the end of the walk the new images are exactly the required ones. */
  lemma {:induction false} LoadedIsRequired(w: Setting, capacity: nat, images: seq<Image>, num: nat)
    requires Partial(w, capacity, images) && AllSatisfied(w, images, |images|)
    ensures num in Numbers(images) <==> Required(w, num)
  {
    if num in Numbers(images) {
      var i :| 0 <= i < |images| && Numbers(images)[i] == num;
      assert Required(w, images[i].num);
    }
    if Required(w, num) {
      var p: seq<nat> :| IsRoute(w, p) && p[|p| - 1] == num;
      RouteIsLoaded(w, capacity, images, p);
    }
  }

  /** A dependent that images outside the cache override is there as the first of these, in the order of the arrays. */
  lemma {:induction false} OverriderIsLoaded(w: Setting, images: seq<Image>, x: Image, k: nat, a: nat, i: nat)
    requires AllSatisfied(w, images, |images|) && x in images && k < |x.dependents|
    requires x.dependents[k] != Link(Weak, 0x0FFF_FFFF)
    requires a < |w.arrays| && w.arrays[a].start >= 0x2000
    requires i < |w.arrays[a].images| && w.arrays[a].images[i].overrideOf == Some(x.dependents[k].num)
    requires forall b, j {:trigger w.arrays[b].images[j]} ::
      (&& 0 <= b < |w.arrays| && w.arrays[b].start >= 0x2000
       && 0 <= j < |w.arrays[b].images| && (b < a || (b == a && j < i)))
      ==> w.arrays[b].images[j].overrideOf != Some(x.dependents[k].num)
    ensures exists y :: (y in w.existing || y in images) && y.num == w.arrays[a].images[i].num
  {
    var num := x.dependents[k].num;
    assert Overrides(w.arrays, a, i, num) && OverridesFirst(w.arrays, a, i, num);
    NeededIsThere(w, images, x, k, w.arrays[a].images[i].num);
  }

  /** A dependent that no image outside the cache overrides is there under its own number. */
  lemma {:induction false} DependentIsLoaded(w: Setting, images: seq<Image>, x: Image, k: nat)
    requires AllSatisfied(w, images, |images|) && x in images && k < |x.dependents|
    requires x.dependents[k] != Link(Weak, 0x0FFF_FFFF)
    requires forall b, j {:trigger w.arrays[b].images[j]} ::
      0 <= b < |w.arrays| && w.arrays[b].start >= 0x2000 && 0 <= j < |w.arrays[b].images| ==>
      w.arrays[b].images[j].overrideOf != Some(x.dependents[k].num)
    ensures exists y :: (y in w.existing || y in images) && y.num == x.dependents[k].num
  {
    NeededIsThere(w, images, x, k, x.dependents[k].num);
  }

  lemma {:induction false} NeededIsThere(w: Setting, images: seq<Image>, x: Image, k: nat, num: nat)
    requires AllSatisfied(w, images, |images|) && x in images && k < |x.dependents| && NeedsAt(w, x, k, num)
    ensures exists y :: (y in w.existing || y in images) && y.num == num
  {
    var i :| 0 <= i < |images| && images[i] == x;
    assert Satisfied(w, images, images[i], |x.dependents|);
    if IsExisting(w, num) {
      var j :| 0 <= j < |w.existing| && w.existing[j].num == num;
    } else {
      var j :| 0 <= j < |images| && Numbers(images)[j] == num;
      assert images[j].num == num;
    }
  }

  /** Nothing is loaded without need: every image but the one asked for stands for a dependent of a loaded one. */
  lemma {:induction false} LoadedForAReason(w: Setting, capacity: nat, images: seq<Image>, i: nat)
    requires Partial(w, capacity, images) && AllSatisfied(w, images, |images|) && 0 < i < |images|
    ensures exists x, k: nat :: x in images && k < |x.dependents| && x.dependents[k] != Link(Weak, 0x0FFF_FFFF)
                                && IsReplacement(w.arrays, x.dependents[k].num, images[i].num)
  {
    assert Numbers(images)[0] != Numbers(images)[i];
    assert Required(w, images[i].num);
    var p: seq<nat> :| IsRoute(w, p) && p[|p| - 1] == images[i].num;
    assert |p| > 1;
    var from := p[|p| - 2];
    RouteIsLoaded(w, capacity, images, p[..|p| - 1]);
    assert IsStep(w, p[|p| - 2], p[|p| - 2 + 1]);
    var j :| 0 <= j < |images| && Numbers(images)[j] == from;
    assert ImageOf(w, images[j].num) == Some(images[j]);
    var k :| 0 <= k < |images[j].dependents| && NeedsAt(w, images[j], k, images[i].num);
  }

  lemma {:induction false} CompleteFits(w: Setting, capacity: nat, images: seq<Image>)
    requires Partial(w, capacity, images) && AllSatisfied(w, images, |images|)
    ensures AllLocated(w) && Fit(w, capacity)
  {
    forall num: nat | Required(w, num) ensures ImageOf(w, num).Some? {
      LoadedIsRequired(w, capacity, images, num);
      var i :| 0 <= i < |images| && Numbers(images)[i] == num;
      assert ImageOf(w, images[i].num) == Some(images[i]);
    }
    forall s: seq<nat> | Distinct(s) && (forall num :: num in s ==> Required(w, num)) ensures |s| <= capacity {
      var loaded := set num: nat | num in Numbers(images);
      var asked := set num: nat | num in s;
      forall num: nat | num in s ensures num in loaded {
        assert Required(w, num);
        LoadedIsRequired(w, capacity, images, num);
      }
      DistinctSize(s);
      DistinctSize(Numbers(images));
      SubsetSize(asked, loaded);
    }
  }

  // ----- the walk -----

  lemma {:induction false} NeedsOnly(w: Setting, x: Image, k: nat, num: nat)
    requires k < |x.dependents| && NeedsAt(w, x, k, num)
    ensures forall other: nat :: NeedsAt(w, x, k, other) ==> other == num
  {
    forall other: nat | NeedsAt(w, x, k, other) ensures other == num {
      OneReplacement(w.arrays, x.dependents[k].num, num, other);
    }
  }

  lemma {:induction false} FoundIsNeeded(w: Setting, overrides: seq<Override>, x: Image, k: nat, num: nat)
    requires overrides == OverridesOf(w.arrays) && k < |x.dependents| && x.dependents[k] != Link(Weak, 0x0FFF_FFFF)
    requires num == Translate(overrides, x.dependents[k].num)
    ensures NeedsAt(w, x, k, num) && Needs(w, x, num)
  {
    TranslateReplaces(w.arrays, x.dependents[k].num);
    assert NeedsAt(w, x, k, num);
  }

  lemma {:induction false} OneMoreKnown(w: Setting, images: seq<Image>, image: Image)
    ensures Numbers(images + [image]) == Numbers(images) + [image.num]
    ensures forall n: nat :: IsKnown(w, images + [image], n) <==> IsKnown(w, images, n) || n == image.num
  {
    assert Numbers(images + [image]) == Numbers(images) + [image.num];
  }

  /** Deals with one dependent of the n-th new image. */
  method AddDependent(w: Setting, overrides: seq<Override>, capacity: nat, images: seq<Image>, n: nat, k: nat, alreadyLoaded: ImageNumSet)
    returns (images': seq<Image>, error: Option<Error>)
    requires WellNumbered(w.arrays) && overrides == OverridesOf(w.arrays)
    requires Partial(w, capacity, images) && Tracks(alreadyLoaded, w, images)
    requires n < |images| && k < |images[n].dependents| && IsFollowed(images[n].dependents[k])
    modifies alreadyLoaded, alreadyLoaded.bitmap
    ensures images <= images' && Partial(w, capacity, images')
    ensures error == None ==> Tracks(alreadyLoaded, w, images')
                              && forall num: nat :: NeedsAt(w, images[n], k, num) ==> IsKnown(w, images', num)
    ensures error.Some? ==> Explains(w, capacity, error.value)
  {
    images', error := images, None;
    var num := FindOverride(overrides, images[n].dependents[k].num);
    FoundIsNeeded(w, overrides, images[n], k, num);
    NeedsOnly(w, images[n], k, num);
    var loaded := alreadyLoaded.Contains(num);
    if !loaded {
      var found := FindImage(w.arrays, num);
      if found.Some? {
        if |images| == capacity {
          OneTooMany(w, capacity, images, n, num);
          error := Some(TooManyImages);
        } else {
          AppendKeepsPartial(w, capacity, images, n, num);
          OneMoreKnown(w, images, found.value);
          images' := images + [found.value];
        }
        alreadyLoaded.Add(num);
      } else {
        NotLocated(w, capacity, images, n, num);
        error := Some(UnableToLocate(num, k));
      }
    }
  }

  method AddDependents(w: Setting, overrides: seq<Override>, capacity: nat, images: seq<Image>, n: nat, alreadyLoaded: ImageNumSet)
    returns (images': seq<Image>, error: Option<Error>)
    requires WellNumbered(w.arrays) && overrides == OverridesOf(w.arrays)
    requires Partial(w, capacity, images) && Tracks(alreadyLoaded, w, images) && n < |images|
    modifies alreadyLoaded, alreadyLoaded.bitmap
    ensures images <= images' && Partial(w, capacity, images')
    ensures error == None ==> Tracks(alreadyLoaded, w, images') && Satisfied(w, images', images[n], |images[n].dependents|)
    ensures error.Some? ==> Explains(w, capacity, error.value)
  {
    images', error := images, None;
    var dependents := images[n].dependents;
    for k := 0 to |dependents|
      invariant images <= images' && Partial(w, capacity, images') && error == None
      invariant Tracks(alreadyLoaded, w, images') && Satisfied(w, images', images[n], k)
    {
      ghost var before := images';
      if IsFollowed(dependents[k]) {
        images', error := AddDependent(w, overrides, capacity, images', n, k, alreadyLoaded);
        if error.Some? {
          return;
        }
        MoreStaysSatisfied(w, before, images', images[n], k);
      }
    }
  }

  /**
   Without an error the new images are exactly the required ones, each once. There
   is an error exactly if a required image cannot be found or they are too many.
   */
  method CompleteAllDependents(w: Setting, capacity: nat)
    returns (images: seq<Image>, error: Option<Error>, someCacheImageOverridden: bool)
    requires WellNumbered(w.arrays) && capacity >= 1
    ensures Partial(w, capacity, images)
    ensures error == None ==> AllSatisfied(w, images, |images|) && forall num: nat :: num in Numbers(images) <==> Required(w, num)
    ensures error == None <==> AllLocated(w) && Fit(w, capacity)
    ensures error.Some? ==> Explains(w, capacity, error.value)
    ensures someCacheImageOverridden <==> OverridesOf(w.arrays) != []
  {
    var overrides;
    overrides, someCacheImageOverridden := GatherOverrides(w.arrays);
    images, error := [w.top], None;
    var alreadyLoaded := AlreadyLoaded(w);
    TopIsRequired(w);
    var index := 0;
    while index < |images| && error == None
      invariant Partial(w, capacity, images) && index <= |images|
      invariant fresh(alreadyLoaded) && fresh(alreadyLoaded.bitmap)
      invariant error == None ==> Tracks(alreadyLoaded, w, images) && AllSatisfied(w, images, index)
      invariant error.Some? ==> Explains(w, capacity, error.value)
      decreases capacity - index
    {
      ghost var before := images;
      images, error := AddDependents(w, overrides, capacity, images, index, alreadyLoaded);
      forall i | 0 <= i < index && error == None ensures Satisfied(w, images, images[i], |images[i].dependents|) {
        assert images[i] == before[i];
        MoreStaysSatisfied(w, before, images, images[i], |images[i].dependents|);
      }
      index := index + 1;
    }
    if error == None {
      CompleteFits(w, capacity, images);
      forall num: nat ensures num in Numbers(images) <==> Required(w, num) {
        LoadedIsRequired(w, capacity, images, num);
      }
    }
  }

  method AlreadyLoaded(w: Setting) returns (s: ImageNumSet)
    ensures fresh(s) && fresh(s.bitmap) && Tracks(s, w, [w.top])
  {
    s := new ImageNumSet();
    for i := 0 to |w.existing|
      invariant fresh(s) && fresh(s.bitmap) && s.Valid()
      invariant forall num: nat :: s.Has(num) <==> exists j :: 0 <= j < i && w.existing[j].num == num
    {
      s.Add(w.existing[i].num);
    }
    s.Add(w.top.num);
    assert Numbers([w.top]) == [w.top.num];
  }
}
