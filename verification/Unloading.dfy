/**
 dlopen() counts, dlclose() and the removal of images nothing needs any more.
 A pass of the collector runs terminators, and a terminator may itself call
 dlclose(); that call only asks for another pass.
 */
module Unloading {
  import opened Reaper

  datatype State = State(loaded: seq<Loaded>, counts: seq<OpenCount>, gcCount: nat)

  ghost predicate DistinctAddresses(loaded: seq<Loaded>) {
    forall i, j :: 0 <= i < j < |loaded| ==> loaded[i].address != loaded[j].address
  }

  /** Every entry counts at least one open, and no address has two entries. */
  ghost predicate CountsValid(counts: seq<OpenCount>) {
    && (forall e :: 0 <= e < |counts| ==> counts[e].count > 0)
    && (forall e, f :: 0 <= e < f < |counts| ==> counts[e].address != counts[f].address)
  }

  // ----- counts -----

  function FirstCount(counts: seq<OpenCount>, address: nat, from: nat): (e: nat)
    requires from <= |counts|
    ensures from <= e <= |counts|
    ensures e < |counts| ==> counts[e].address == address
    ensures forall f :: from <= f < e ==> counts[f].address != address
    decreases |counts| - from
  {
    if from == |counts| || counts[from].address == address then from else FirstCount(counts, address, from + 1)
  }

  function Inc(counts: seq<OpenCount>, address: nat): seq<OpenCount> {
    var e := FirstCount(counts, address, 0);
    if e < |counts| then counts[e := OpenCount(address, counts[e].count + 1)] else counts + [OpenCount(address, 1)]
  }

  /** The new counts, and whether an entry went away. */
  function Dec(counts: seq<OpenCount>, address: nat): (r: (seq<OpenCount>, bool))
    requires CountsValid(counts)
    ensures CountsValid(r.0) && |r.0| == if r.1 then |counts| - 1 else |counts|
  {
    var e := FirstCount(counts, address, 0);
    if e == |counts| then (counts, false)
    else if counts[e].count == 1 then (counts[..e] + counts[e + 1..], true)
    else (counts[e := OpenCount(address, counts[e].count - 1)], false)
  }

  // ----- closing -----

  function IsUnloadableAt(loaded: seq<Loaded>, address: nat): bool {
    exists i :: 0 <= i < |loaded| && UnloadableAt(loaded[i], address)
  }

  predicate UnloadableAt(li: Loaded, address: nat) { li.address == address && !li.image.neverUnload }

  ghost predicate Valid(s: State) { CountsValid(s.counts) }

  /** A dlclose() made while a pass is running: it only raises the request count. */
  ghost function CloseNested(s: State, address: nat): State
    requires Valid(s)
  {
    if IsUnloadableAt(s.loaded, address) then
      var (counts, erased) := Dec(s.counts, address);
      State(s.loaded, counts, if erased then s.gcCount + 1 else s.gcCount)
    else s
  }

  /** The first k dlclose() calls of a terminator. */
  ghost function CloseEach(s: State, closes: seq<nat>, k: nat): (r: State)
    requires Valid(s) && k <= |closes|
    ensures Valid(r) && r.loaded == s.loaded && |r.counts| + r.gcCount == |s.counts| + s.gcCount && r.gcCount >= s.gcCount
  {
    if k == 0 then s
    else
      var before := CloseEach(s, closes, k - 1);
      CloseNested(before, closes[k - 1])
  }

  /** The terminators of the first k dead images. */
  ghost function Terminate(s: State, dead: seq<Loaded>, k: nat): (r: State)
    requires Valid(s) && k <= |dead|
    ensures Valid(r) && r.loaded == s.loaded && |r.counts| + r.gcCount == |s.counts| + s.gcCount && r.gcCount >= s.gcCount
  {
    if k == 0 then s
    else CloseEach(Terminate(s, dead, k - 1), dead[k - 1].image.closes, |dead[k - 1].image.closes|)
  }

  // ----- one pass, and the collector -----

  function Unloadables(loaded: seq<Loaded>): seq<Loaded> {
    if loaded == [] then []
    else
      var li := loaded[|loaded| - 1];
      Unloadables(loaded[..|loaded| - 1]) + if li.image.neverUnload then [] else [li]
  }

  /** The images among the first k whose flag is not set. */
  function Unmarked(u: seq<Loaded>, flags: seq<bool>, k: nat): seq<Loaded>
    requires |flags| == |u| && k <= |u|
  {
    if k == 0 then [] else Unmarked(u, flags, k - 1) + if flags[k - 1] then [] else [u[k - 1]]
  }

  ghost function LiveFlags(u: seq<Loaded>, counts: seq<OpenCount>): seq<bool> {
    seq(|u|, (j: nat) => Live(u, counts, j))
  }

  ghost function Dead(loaded: seq<Loaded>, counts: seq<OpenCount>): seq<Loaded> {
    var u := Unloadables(loaded);
    Unmarked(u, LiveFlags(u, counts), |u|)
  }

  function EraseFirst(loaded: seq<Loaded>, address: nat): seq<Loaded> {
    if loaded == [] then []
    else if loaded[0].address == address then loaded[1..]
    else [loaded[0]] + EraseFirst(loaded[1..], address)
  }

  lemma {:induction false} EraseFirstAt(loaded: seq<Loaded>, address: nat, i: nat)
    requires i <= |loaded| && forall k :: 0 <= k < i ==> loaded[k].address != address
    requires i < |loaded| ==> loaded[i].address == address
    ensures EraseFirst(loaded, address) == if i < |loaded| then loaded[..i] + loaded[i + 1..] else loaded
  {
    if i > 0 {
      EraseFirstAt(loaded[1..], address, i - 1);
      assert loaded == [loaded[0]] + loaded[1..];
    }
  }

  function EraseEach(loaded: seq<Loaded>, gone: seq<Loaded>, k: nat): seq<Loaded>
    requires k <= |gone|
  {
    if k == 0 then loaded else EraseFirst(EraseEach(loaded, gone, k - 1), gone[k - 1].address)
  }

  ghost function Pass(s: State): (r: State)
    requires Valid(s) && s.gcCount > 0
    ensures Valid(r) && |r.counts| + r.gcCount < |s.counts| + s.gcCount
  {
    var dead := Dead(s.loaded, s.counts);
    var t := Terminate(s, dead, |dead|);
    State(EraseEach(t.loaded, dead, |dead|), t.counts, t.gcCount - 1)
  }

  /** Passes until no request is left. */
  ghost function Collect(s: State): (r: State)
    requires Valid(s) && s.gcCount > 0
    ensures Valid(r) && r.gcCount == 0
    decreases |s.counts| + s.gcCount
  {
    var r := Pass(s);
    if r.gcCount > 0 then Collect(r) else r
  }

  /** `garbageCollectImages`. */
  ghost function Requested(s: State): (r: State)
    requires Valid(s)
    ensures Valid(r)
  {
    if s.gcCount == 0 then Collect(s.(gcCount := 1)) else s.(gcCount := s.gcCount + 1)
  }

  ghost function Closed(s: State, address: nat): (r: State)
    requires Valid(s)
    ensures Valid(r)
  {
    if IsUnloadableAt(s.loaded, address) then
      var (counts, erased) := Dec(s.counts, address);
      if erased then Requested(s.(counts := counts)) else s.(counts := counts)
    else s
  }

  // ----- opening -----

  /** The end of `loadImage`: the first new image is the one that was asked for. */
  function AfterLoad(s: State, images: seq<Loaded>): State
    requires images != []
  {
    State(s.loaded + images,
          if images[0].image.inDyldCache then s.counts else Inc(s.counts, images[0].address), s.gcCount)
  }

  function FirstNumbered(loaded: seq<Loaded>, num: nat, from: nat): (i: nat)
    requires from <= |loaded|
    ensures from <= i <= |loaded|
    ensures i < |loaded| ==> loaded[i].image.num == num
    ensures forall k :: from <= k < i ==> loaded[k].image.num != num
    decreases |loaded| - from
  {
    if from == |loaded| || loaded[from].image.num == num then from else FirstNumbered(loaded, num, from + 1)
  }

  /** dlopen() of an image that is already loaded only counts. */
  function Reopened(s: State, num: nat): State {
    var i := FirstNumbered(s.loaded, num, 0);
    if i == |s.loaded| || s.loaded[i].image.inDyldCache then s
    else s.(counts := Inc(s.counts, s.loaded[i].address))
  }

  // ----- the images of a process -----

  class AllImages {
    var loadedImages: seq<Loaded>
    var openCounts: seq<OpenCount>
    var gcCount: nat

    constructor ()
      ensures Now() == State([], [], 0)
    {
      loadedImages, openCounts, gcCount := [], [], 0;
    }

    ghost function Now(): State
      reads this
    {
      State(loadedImages, openCounts, gcCount)
    }

    method IncRefCount(address: nat)
      modifies this
      ensures Now() == old(Now()).(counts := Inc(old(openCounts), address))
    {
      for e := 0 to |openCounts|
        invariant Now() == old(Now())
        invariant FirstCount(openCounts, address, 0) == FirstCount(openCounts, address, e)
      {
        if openCounts[e].address == address {
          openCounts := openCounts[e := OpenCount(address, openCounts[e].count + 1)];
          return;
        }
      }
      openCounts := openCounts + [OpenCount(address, 1)];
    }

    method LoadImage(newImages: seq<Loaded>)
      requires newImages != []
      modifies this
      ensures Now() == AfterLoad(old(Now()), newImages)
    {
      if !newImages[0].image.inDyldCache {
        IncRefCount(newImages[0].address);
      }
      loadedImages := loadedImages + newImages;
    }

    /** Whether the image was loaded already; then its open count was raised. */
    method Reopen(num: nat) returns (found: bool)
      modifies this
      ensures Now() == Reopened(old(Now()), num)
      ensures found <==> exists i :: 0 <= i < |old(loadedImages)| && old(loadedImages)[i].image.num == num
    {
      for i := 0 to |loadedImages|
        invariant Now() == old(Now())
        invariant FirstNumbered(loadedImages, num, 0) == FirstNumbered(loadedImages, num, i)
        invariant forall k :: 0 <= k < i ==> loadedImages[k].image.num != num
      {
        if loadedImages[i].image.num == num {
          if !loadedImages[i].image.inDyldCache {
            IncRefCount(loadedImages[i].address);
          }
          return true;
        }
      }
      return false;
    }

    method DropCount(address: nat) returns (erased: bool)
      requires CountsValid(openCounts)
      modifies this`openCounts
      ensures (openCounts, erased) == Dec(old(openCounts), address)
    {
      for e := 0 to |openCounts|
        invariant openCounts == old(openCounts)
        invariant FirstCount(openCounts, address, 0) == FirstCount(openCounts, address, e)
      {
        if openCounts[e].address == address {
          openCounts := openCounts[e := OpenCount(address, openCounts[e].count - 1)];
          if openCounts[e].count == 0 {
            openCounts := openCounts[..e] + openCounts[e + 1..];
            return true;
          }
          return false;
        }
      }
      return false;
    }

    method DecRefCount(address: nat)
      requires Valid(Now())
      modifies this
      ensures var (counts, erased) := Dec(old(openCounts), address);
        Now() == if erased then Requested(old(Now()).(counts := counts)) else old(Now()).(counts := counts)
      decreases if gcCount == 0 then 1 else 0, 2
    {
      var doCollect := DropCount(address);
      if doCollect {
        GarbageCollectImages();
      }
    }

    /** `dlclose` with the load address that the handle stands for. */
    method Dlclose(address: nat)
      requires Valid(Now())
      modifies this
      ensures Now() == Closed(old(Now()), address)
      decreases if gcCount == 0 then 1 else 0, 3
    {
      var unloadable := IsUnloadableAt(loadedImages, address);
      if unloadable {
        DecRefCount(address);
      }
    }

    method RunTerminators(li: Loaded)
      requires Valid(Now()) && gcCount > 0
      modifies this
      ensures Now() == CloseEach(old(Now()), li.image.closes, |li.image.closes|)
      decreases 0, 4
    {
      for k := 0 to |li.image.closes|
        invariant Now() == CloseEach(old(Now()), li.image.closes, k)
      {
        Dlclose(li.image.closes[k]);
      }
    }

    method FinalizeDeadImages(u: seq<Loaded>, inUse: array<bool>, deadCount: nat)
      requires Valid(Now()) && gcCount > 0 && inUse.Length == |u|
      requires deadCount == 0 ==> Unmarked(u, inUse[..], |u|) == []
      modifies this
      ensures var dead := Unmarked(u, inUse[..], |u|);
        Now() == Terminate(old(Now()), dead, |dead|)
      decreases 0, 5
    {
      if deadCount == 0 {
        return;
      }
      ghost var start, flags := Now(), inUse[..];
      ghost var dead: seq<Loaded> := [];
      for i := 0 to |u|
        invariant inUse[..] == flags && dead == Unmarked(u, flags, i)
        invariant Valid(Now()) && gcCount > 0 && Now() == Terminate(start, dead, |dead|)
      {
        if !inUse[i] {
          TerminateSnoc(start, dead, u[i]);
          dead := dead + [u[i]];
          RunTerminators(u[i]);
        }
      }
    }

    method EraseAddress(address: nat)
      modifies this`loadedImages
      ensures loadedImages == EraseFirst(old(loadedImages), address)
    {
      var i := 0;
      while i < |loadedImages| && loadedImages[i].address != address
        invariant i <= |loadedImages| && loadedImages == old(loadedImages)
        invariant forall k :: 0 <= k < i ==> loadedImages[k].address != address
      {
        i := i + 1;
      }
      EraseFirstAt(loadedImages, address, i);
      if i < |loadedImages| {
        loadedImages := loadedImages[..i] + loadedImages[i + 1..];
      }
    }

    method RemoveImages(gone: seq<Loaded>)
      modifies this`loadedImages
      ensures loadedImages == EraseEach(old(loadedImages), gone, |gone|)
    {
      for k := 0 to |gone|
        invariant loadedImages == EraseEach(old(loadedImages), gone, k)
      {
        EraseAddress(gone[k].address);
      }
    }

    method GarbageCollectImages()
      requires Valid(Now())
      modifies this
      ensures Now() == Requested(old(Now()))
      decreases if gcCount == 0 then 1 else 0, 1
    {
      gcCount := gcCount + 1;
      if gcCount != 1 {
        return;
      }
      ghost var start := Now();
      RunPass();
      while gcCount > 0
        invariant Valid(Now())
        invariant Collect(start) == if gcCount > 0 then Collect(Now()) else Now()
        decreases |openCounts| + gcCount
      {
        RunPass();
      }
    }

    method GatherUnloadables() returns (u: seq<Loaded>)
      ensures u == Unloadables(loadedImages)
    {
      u := [];
      for i := 0 to |loadedImages|
        invariant u == Unloadables(loadedImages[..i])
      {
        assert loadedImages[..i + 1][..i] == loadedImages[..i];
        if !loadedImages[i].image.neverUnload {
          u := u + [loadedImages[i]];
        }
      }
      assert loadedImages[..|loadedImages|] == loadedImages;
    }

    /** The body of the collector's loop. */
    method RunPass()
      requires Valid(Now()) && gcCount > 0
      modifies this
      ensures Now() == Pass(old(Now()))
      decreases 0, 6
    {
      var u := GatherUnloadables();
      var inUse := new bool[|u|](_ => false);
      var deadCount := GarbageCollect(u, openCounts, inUse);
      assert inUse[..] == LiveFlags(u, openCounts);
      NoneDead(u, openCounts, deadCount);
      FinalizeDeadImages(u, inUse, deadCount);
      var gone := CopyUnmarked(u, inUse);
      if gone != [] {
        RemoveImages(gone);
      }
      gcCount := gcCount - 1;
    }
  }

  method CopyUnmarked(u: seq<Loaded>, inUse: array<bool>) returns (gone: seq<Loaded>)
    requires inUse.Length == |u|
    ensures gone == Unmarked(u, inUse[..], |u|)
  {
    gone := [];
    for i := 0 to |u|
      invariant gone == Unmarked(u, inUse[..], i)
    {
      if !inUse[i] {
        gone := gone + [u[i]];
      }
    }
  }

  lemma {:induction false} TerminateSnoc(s: State, dead: seq<Loaded>, li: Loaded)
    requires Valid(s)
    ensures Terminate(s, dead + [li], |dead| + 1)
         == CloseEach(Terminate(s, dead, |dead|), li.image.closes, |li.image.closes|)
  {
    TerminatePrefix(s, dead, dead + [li], |dead|);
  }

  lemma {:induction false} TerminatePrefix(s: State, a: seq<Loaded>, b: seq<Loaded>, k: nat)
    requires Valid(s) && k <= |a| && k <= |b| && forall j :: 0 <= j < k ==> a[j] == b[j]
    ensures Terminate(s, a, k) == Terminate(s, b, k)
  {
    if k > 0 {
      TerminatePrefix(s, a, b, k - 1);
    }
  }

  lemma {:induction false} AllMarked(u: seq<Loaded>, flags: seq<bool>, k: nat)
    requires |flags| == |u| && k <= |u| && forall j :: 0 <= j < |u| ==> flags[j]
    ensures Unmarked(u, flags, k) == []
  {
    if k > 0 {
      AllMarked(u, flags, k - 1);
    }
  }

  lemma {:induction false} NoneDead(u: seq<Loaded>, counts: seq<OpenCount>, deadCount: nat)
    requires deadCount == |set j: nat | j < |u| && !Live(u, counts, j)|
    ensures deadCount == 0 ==> Unmarked(u, LiveFlags(u, counts), |u|) == []
  {
    var flags := LiveFlags(u, counts);
    var dead := set j: nat | j < |u| && !Live(u, counts, j);
    if |dead| == 0 {
      forall j: nat | j < |u| ensures flags[j] {
        assert j !in dead;
      }
      AllMarked(u, flags, |u|);
    }
  }
}
