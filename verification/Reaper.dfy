/**
 The mark phase of unloading: which unloadable images are still in use, by
 iterated marking over the dependents of images already marked.
 */
module Reaper {
  import opened Lists

  const MISSING_WEAK := 0x0FFF_FFFF

  datatype LinkKind = Regular | Weak | Upward | ReExport

  datatype Link = Link(kind: LinkKind, num: nat)

  /** `closes` are the load addresses that the image's terminators pass to dlclose(). */
  datatype Image = Image(num: nat, isDylib: bool, inDyldCache: bool, overrideOf: Option<nat>, neverUnload: bool,
                         dependents: seq<Link>, closes: seq<nat>)

  datatype Loaded = Loaded(image: Image, address: nat)

  datatype OpenCount = OpenCount(address: nat, count: nat)

  predicate Represents(image: Image, num: nat) {
    image.num == num || (image.isDylib && !image.inDyldCache && image.overrideOf == Some(num))
  }

  predicate IsFollowed(link: Link) { !(link.num == MISSING_WEAK && link.kind == Weak) }

  ghost predicate LinksTo(x: Image, y: Image) {
    exists k :: 0 <= k < |x.dependents| && LeadsTo(x.dependents[k], y)
  }

  predicate LeadsTo(link: Link, y: Image) { IsFollowed(link) && Represents(y, link.num) }

  // ----- what should be marked -----

  /** The first image of u at the address. */
  ghost predicate FirstAtAddress(u: seq<Loaded>, address: nat, j: nat) {
    && j < |u| && u[j].address == address
    && forall i :: 0 <= i < j ==> u[i].address != address
  }

  predicate Holds(count: OpenCount, address: nat) { count.count != 0 && count.address == address }

  ghost predicate IsOpen(counts: seq<OpenCount>, address: nat) {
    exists e :: 0 <= e < |counts| && Holds(counts[e], address)
  }

  ghost predicate Opened(u: seq<Loaded>, counts: seq<OpenCount>, j: nat) {
    j < |u| && FirstAtAddress(u, u[j].address, j) && IsOpen(counts, u[j].address)
  }

  ghost predicate Uses(u: seq<Loaded>, i: nat, j: nat) {
    i < |u| && j < |u| && LinksTo(u[i].image, u[j].image)
  }

  /** p leads from a directly opened image to its last one, inside u. */
  ghost predicate IsChain(u: seq<Loaded>, counts: seq<OpenCount>, p: seq<nat>) {
    && |p| >= 1 && Opened(u, counts, p[0])
    && forall k :: 0 <= k < |p| - 1 ==> Uses(u, p[k], p[k + 1])
  }

  ghost predicate Live(u: seq<Loaded>, counts: seq<OpenCount>, j: nat) {
    exists p: seq<nat> :: IsChain(u, counts, p) && p[|p| - 1] == j
  }

  lemma {:induction false} OpenedIsLive(u: seq<Loaded>, counts: seq<OpenCount>, j: nat)
    requires Opened(u, counts, j)
    ensures Live(u, counts, j)
  {
    assert IsChain(u, counts, [j]) && [j][|[j]| - 1] == j;
  }

  lemma {:induction false} UsedIsLive(u: seq<Loaded>, counts: seq<OpenCount>, i: nat, j: nat)
    requires Live(u, counts, i) && Uses(u, i, j)
    ensures Live(u, counts, j)
  {
    var p: seq<nat> :| IsChain(u, counts, p) && p[|p| - 1] == i;
    var q := p + [j];
    assert IsChain(u, counts, q) && q[|q| - 1] == j;
  }

  /** Live is the least set that has the opened images and is closed under use. */
  lemma {:induction false} LiveIsLeast(u: seq<Loaded>, counts: seq<OpenCount>, flags: seq<bool>, p: seq<nat>)
    requires |flags| == |u| && IsChain(u, counts, p)
    requires HasOpened(u, counts, flags) && IsClosed(u, flags)
    ensures p[|p| - 1] < |u| && flags[p[|p| - 1]]
    decreases |p|
  {
    if |p| > 1 {
      LiveIsLeast(u, counts, flags, p[..|p| - 1]);
      assert Uses(u, p[|p| - 2], p[|p| - 2 + 1]);
    }
  }

  ghost predicate HasOpened(u: seq<Loaded>, counts: seq<OpenCount>, flags: seq<bool>)
    requires |flags| == |u|
  {
    forall j: nat :: Opened(u, counts, j) ==> flags[j]
  }

  ghost predicate IsClosed(u: seq<Loaded>, flags: seq<bool>)
    requires |flags| == |u|
  {
    forall i: nat, j: nat :: i < |u| && flags[i] && Uses(u, i, j) ==> flags[j]
  }

  ghost predicate IsSound(u: seq<Loaded>, counts: seq<OpenCount>, flags: seq<bool>)
    requires |flags| == |u|
  {
    forall j: nat :: j < |u| && flags[j] ==> Live(u, counts, j)
  }

  /**
   Every link of a live image keeps an image alive that has its number or is a
   library outside the cache that overrides it; only a weak link to the number of
   the missing image does not.
   */
  lemma {:induction false} LinkKeepsAlive(u: seq<Loaded>, counts: seq<OpenCount>, i: nat, k: nat, j: nat)
    requires i < |u| && j < |u| && Live(u, counts, i) && k < |u[i].image.dependents|
    requires u[i].image.dependents[k] != Link(Weak, 0x0FFF_FFFF)
    requires var y, num := u[j].image, u[i].image.dependents[k].num;
      y.num == num || (y.isDylib && !y.inDyldCache && y.overrideOf == Some(num))
    ensures Live(u, counts, j)
  {
    assert LeadsTo(u[i].image.dependents[k], u[j].image);
    assert Uses(u, i, j);
    UsedIsLive(u, counts, i, j);
  }

  /**
   Nothing else is live: a chain stays within every set that has the first image
   at each open address and is closed under these links.
   */
  lemma {:induction false} LiveWithin(u: seq<Loaded>, counts: seq<OpenCount>, kept: set<nat>, p: seq<nat>)
    requires forall e, i: nat {:trigger counts[e], u[i]} ::
      (&& 0 <= e < |counts| && counts[e].count > 0 && i < |u| && u[i].address == counts[e].address
       && forall h :: 0 <= h < i ==> u[h].address != counts[e].address)
      ==> i in kept
    requires forall i: nat, k, h: nat {:trigger u[i].image.dependents[k], u[h]} ::
      (&& i in kept && i < |u| && h < |u| && 0 <= k < |u[i].image.dependents|
       && u[i].image.dependents[k] != Link(Weak, 0x0FFF_FFFF)
       && var y, num := u[h].image, u[i].image.dependents[k].num;
          y.num == num || (y.isDylib && !y.inDyldCache && y.overrideOf == Some(num)))
      ==> h in kept
    requires IsChain(u, counts, p)
    ensures p[|p| - 1] in kept
    decreases |p|
  {
    var j := p[|p| - 1];
    if |p| == 1 {
      var e :| 0 <= e < |counts| && Holds(counts[e], u[j].address);
    } else {
      var i := p[|p| - 2];
      LiveWithin(u, counts, kept, p[..|p| - 1]);
      assert Uses(u, p[|p| - 2], p[|p| - 2 + 1]);
      var k :| 0 <= k < |u[i].image.dependents| && LeadsTo(u[i].image.dependents[k], u[j].image);
    }
  }

  /** An image that is not open, and that others name by weak links to the missing image at most, is not live. */
  lemma {:induction false} MissingWeakKeepsNothing(u: seq<Loaded>, counts: seq<OpenCount>, j: nat)
    requires j < |u| && forall e :: 0 <= e < |counts| ==> counts[e].count == 0 || counts[e].address != u[j].address
    requires forall i: nat, k {:trigger u[i].image.dependents[k]} :: i < |u| && i != j && 0 <= k < |u[i].image.dependents| ==>
      var y, link := u[j].image, u[i].image.dependents[k];
      y.num == link.num || y.overrideOf == Some(link.num) ==> link == Link(Weak, 0x0FFF_FFFF)
    ensures !Live(u, counts, j)
  {
    if Live(u, counts, j) {
      var p: seq<nat> :| IsChain(u, counts, p) && p[|p| - 1] == j;
      LiveWithin(u, counts, Below(|u|) - {j}, p);
    }
  }

  // ----- one link, one image, one pass -----

  /** Flags only go from false to true. */
  ghost predicate Grows(a: seq<bool>, b: seq<bool>) {
    |a| == |b| && forall j :: 0 <= j < |a| && a[j] ==> b[j]
  }

  predicate Takes(u: seq<Loaded>, flags: seq<bool>, num: nat, j: nat)
    requires |flags| == |u| && j < |u|
  {
    !flags[j] && Represents(u[j].image, num)
  }

  function FirstUnmarked(u: seq<Loaded>, flags: seq<bool>, num: nat, from: nat): (j: nat)
    requires |flags| == |u| && from <= |u|
    ensures from <= j <= |u|
    ensures j < |u| ==> Takes(u, flags, num, j)
    ensures forall k :: from <= k < j ==> !Takes(u, flags, num, k)
    decreases |u| - from
  {
    if from == |u| || Takes(u, flags, num, from) then from else FirstUnmarked(u, flags, num, from + 1)
  }

  function MarkLink(u: seq<Loaded>, flags: seq<bool>, link: Link): (r: seq<bool>)
    requires |flags| == |u|
    ensures Grows(flags, r)
  {
    if !IsFollowed(link) then flags
    else
      var j := FirstUnmarked(u, flags, link.num, 0);
      if j == |u| then flags else flags[j := true]
  }

  function MarkLinks(u: seq<Loaded>, flags: seq<bool>, links: seq<Link>, k: nat): (r: seq<bool>)
    requires |flags| == |u| && k <= |links|
    ensures Grows(flags, r)
  {
    if k == 0 then flags else MarkLink(u, MarkLinks(u, flags, links, k - 1), links[k - 1])
  }

  function MarkPass(u: seq<Loaded>, flags: seq<bool>, i: nat): (r: seq<bool>)
    requires |flags| == |u| && i <= |u|
    ensures Grows(flags, r)
  {
    if i == 0 then flags
    else
      var before := MarkPass(u, flags, i - 1);
      if before[i - 1] then MarkLinks(u, before, u[i - 1].image.dependents, |u[i - 1].image.dependents|) else before
  }

  lemma {:induction false} MarkLinkIsSound(u: seq<Loaded>, counts: seq<OpenCount>, flags: seq<bool>, i: nat, k: nat)
    requires |flags| == |u| && IsSound(u, counts, flags)
    requires i < |u| && flags[i] && k < |u[i].image.dependents|
    ensures IsSound(u, counts, MarkLink(u, flags, u[i].image.dependents[k]))
  {
    var link := u[i].image.dependents[k];
    if IsFollowed(link) {
      var j := FirstUnmarked(u, flags, link.num, 0);
      if j < |u| {
        assert LeadsTo(link, u[j].image);
        assert Uses(u, i, j);
        UsedIsLive(u, counts, i, j);
      }
    }
  }

  lemma {:induction false} MarkLinksIsSound(u: seq<Loaded>, counts: seq<OpenCount>, flags: seq<bool>, i: nat, k: nat)
    requires |flags| == |u| && IsSound(u, counts, flags)
    requires i < |u| && flags[i] && k <= |u[i].image.dependents|
    ensures IsSound(u, counts, MarkLinks(u, flags, u[i].image.dependents, k))
  {
    if k > 0 {
      MarkLinksIsSound(u, counts, flags, i, k - 1);
      MarkLinkIsSound(u, counts, MarkLinks(u, flags, u[i].image.dependents, k - 1), i, k - 1);
    }
  }

  /** Nothing is marked without a chain of uses from an opened image. */
  lemma {:induction false} MarkPassIsSound(u: seq<Loaded>, counts: seq<OpenCount>, flags: seq<bool>, i: nat)
    requires |flags| == |u| && i <= |u| && IsSound(u, counts, flags)
    ensures IsSound(u, counts, MarkPass(u, flags, i))
  {
    if i > 0 {
      MarkPassIsSound(u, counts, flags, i - 1);
      var before := MarkPass(u, flags, i - 1);
      if before[i - 1] {
        MarkLinksIsSound(u, counts, before, i - 1, |u[i - 1].image.dependents|);
      }
    }
  }

  lemma {:induction false} IdleLinks(u: seq<Loaded>, flags: seq<bool>, links: seq<Link>, k: nat, m: nat, j: nat)
    requires |flags| == |u| && m < k <= |links| && MarkLinks(u, flags, links, k) == flags
    requires j < |u| && LeadsTo(links[m], u[j].image)
    ensures flags[j]
  {
    var before := MarkLinks(u, flags, links, k - 1);
    assert before == flags;
    if m < k - 1 {
      IdleLinks(u, flags, links, k - 1, m, j);
    } else {
      assert MarkLink(u, flags, links[m]) == flags;
      assert FirstUnmarked(u, flags, links[m].num, 0) == |u|;
      assert !Takes(u, flags, links[m].num, j);
    }
  }

  /** A pass that marks nothing leaves nothing to mark. */
  lemma {:induction false} IdlePass(u: seq<Loaded>, flags: seq<bool>, k: nat, i: nat, j: nat)
    requires |flags| == |u| && i < k <= |u| && MarkPass(u, flags, k) == flags
    requires flags[i] && Uses(u, i, j)
    ensures flags[j]
  {
    var before := MarkPass(u, flags, k - 1);
    assert before == flags;
    if i < k - 1 {
      IdlePass(u, flags, k - 1, i, j);
    } else {
      var links := u[i].image.dependents;
      var m :| 0 <= m < |links| && LeadsTo(links[m], u[j].image);
      IdleLinks(u, flags, links, |links|, m, j);
    }
  }

  /** Marks that are sound, have the opened images, and that a pass leaves alone are exactly the live images. */
  lemma {:induction false} SettledMarksAreLive(u: seq<Loaded>, counts: seq<OpenCount>, flags: seq<bool>, j: nat)
    requires |flags| == |u| && j < |u|
    requires IsSound(u, counts, flags) && HasOpened(u, counts, flags) && MarkPass(u, flags, |u|) == flags
    ensures flags[j] <==> Live(u, counts, j)
  {
    forall i: nat, k: nat | i < |u| && flags[i] && Uses(u, i, k) ensures flags[k] {
      IdlePass(u, flags, |u|, i, k);
    }
    if Live(u, counts, j) {
      var p: seq<nat> :| IsChain(u, counts, p) && p[|p| - 1] == j;
      LiveIsLeast(u, counts, flags, p);
    }
  }

  // ----- counting -----

  function CountMarked(flags: seq<bool>): nat {
    if flags == [] then 0 else CountMarked(flags[..|flags| - 1]) + if flags[|flags| - 1] then 1 else 0
  }

  /** The count tells whether anything was marked. */
  lemma {:induction false} CountGrows(a: seq<bool>, b: seq<bool>)
    requires Grows(a, b)
    ensures CountMarked(a) <= CountMarked(b) <= |b|
    ensures CountMarked(a) == CountMarked(b) ==> a == b
  {
    if a != [] {
      var n := |a| - 1;
      CountGrows(a[..n], b[..n]);
      assert a == a[..n] + [a[n]] && b == b[..n] + [b[n]];
    }
  }

  /** The unmarked images are the rest. */
  lemma {:induction false} UnmarkedSize(flags: seq<bool>)
    ensures |set j: nat | j < |flags| && !flags[j]| == |flags| - CountMarked(flags)
  {
    var all := set j: nat | j < |flags| && !flags[j];
    if flags != [] {
      var n := |flags| - 1;
      UnmarkedSize(flags[..n]);
      var front := set j: nat | j < |flags[..n]| && !flags[..n][j];
      assert n !in front && all == if flags[n] then front else front + {n};
    }
  }

  method InUseCount(inUse: array<bool>) returns (count: nat)
    ensures count == CountMarked(inUse[..])
  {
    count := 0;
    for i := 0 to inUse.Length
      invariant count == CountMarked(inUse[..i])
    {
      assert inUse[..i + 1][..i] == inUse[..i];
      if inUse[i] {
        count := count + 1;
      }
    }
    assert inUse[..inUse.Length] == inUse[..];
  }

  // ----- marking in place -----

  /** Marks the first image at the address, if there is one. */
  method MarkAddress(u: seq<Loaded>, address: nat, inUse: array<bool>)
    requires inUse.Length == |u|
    modifies inUse
    ensures forall j: nat :: j < |u| ==> (inUse[j] <==> old(inUse[j]) || FirstAtAddress(u, address, j))
  {
    for i := 0 to |u|
      invariant forall j :: 0 <= j < |u| ==> inUse[j] == old(inUse[j])
      invariant forall j :: 0 <= j < i ==> u[j].address != address
    {
      if u[i].address == address {
        inUse[i] := true;
        return;
      }
    }
  }

  method MarkDirectlyDlopenedImages(u: seq<Loaded>, counts: seq<OpenCount>, inUse: array<bool>)
    requires inUse.Length == |u|
    modifies inUse
    ensures forall j: nat :: j < |u| ==> (inUse[j] <==> old(inUse[j]) || Opened(u, counts, j))
  {
    for e := 0 to |counts|
      invariant forall j: nat :: j < |u| ==> (inUse[j] <==> old(inUse[j]) || Opened(u, counts[..e], j))
    {
      ghost var before := inUse[..];
      if counts[e].count != 0 {
        MarkAddress(u, counts[e].address, inUse);
      }
      forall j: nat | j < |u| ensures inUse[j] <==> old(inUse[j]) || Opened(u, counts[..e + 1], j) {
        IsOpenSnoc(counts, e, u[j].address);
        assert before[j] <==> old(inUse[j]) || Opened(u, counts[..e], j);
      }
    }
    assert counts[..|counts|] == counts;
  }

  lemma {:induction false} IsOpenSnoc(counts: seq<OpenCount>, e: nat, address: nat)
    requires e < |counts|
    ensures IsOpen(counts[..e + 1], address) <==> IsOpen(counts[..e], address) || Holds(counts[e], address)
  {
    var a, b := counts[..e + 1], counts[..e];
    assert forall i :: 0 <= i < e ==> a[i] == b[i];
    if IsOpen(b, address) {
      var i :| 0 <= i < |b| && Holds(b[i], address);
      assert Holds(a[i], address);
    }
    if Holds(counts[e], address) {
      assert Holds(a[e], address);
    }
  }

  method MarkDependentsOf(u: seq<Loaded>, i: nat, inUse: array<bool>)
    requires inUse.Length == |u| && i < |u|
    modifies inUse
    ensures inUse[..] == MarkLinks(u, old(inUse[..]), u[i].image.dependents, |u[i].image.dependents|)
  {
    var links := u[i].image.dependents;
    for k := 0 to |links|
      invariant inUse[..] == MarkLinks(u, old(inUse[..]), links, k)
    {
      ghost var before := inUse[..];
      if IsFollowed(links[k]) {
        var j := 0;
        while j < |u| && !(!inUse[j] && Represents(u[j].image, links[k].num))
          invariant 0 <= j <= |u| && inUse[..] == before
          invariant FirstUnmarked(u, before, links[k].num, 0) == FirstUnmarked(u, before, links[k].num, j)
        {
          j := j + 1;
        }
        if j < |u| {
          inUse[j] := true;
        }
      }
      assert inUse[..] == MarkLink(u, before, links[k]);
    }
  }

  method MarkDependentsOfInUseImages(u: seq<Loaded>, inUse: array<bool>)
    requires inUse.Length == |u|
    modifies inUse
    ensures inUse[..] == MarkPass(u, old(inUse[..]), |u|)
  {
    for i := 0 to |u|
      invariant inUse[..] == MarkPass(u, old(inUse[..]), i)
    {
      if inUse[i] {
        MarkDependentsOf(u, i, inUse);
      }
    }
  }

  /** The marks are exactly the images that an opened image reaches inside u; the result is how many are dead. */
  method GarbageCollect(u: seq<Loaded>, counts: seq<OpenCount>, inUse: array<bool>) returns (deadCount: nat)
    requires inUse.Length == |u| && forall j :: 0 <= j < |u| ==> !inUse[j]
    modifies inUse
    ensures forall j: nat :: j < |u| ==> (inUse[j] <==> Live(u, counts, j))
    ensures deadCount == |set j: nat | j < |u| && !Live(u, counts, j)|
  {
    MarkDirectlyDlopenedImages(u, counts, inUse);
    forall j: nat | j < |u| && inUse[j] ensures Live(u, counts, j) {
      OpenedIsLive(u, counts, j);
    }
    var lastCount := InUseCount(inUse);
    var countChanged := true;
    CountGrows(inUse[..], inUse[..]);
    while countChanged
      invariant IsSound(u, counts, inUse[..]) && HasOpened(u, counts, inUse[..])
      invariant lastCount == CountMarked(inUse[..]) <= |u|
      invariant !countChanged ==> MarkPass(u, inUse[..], |u|) == inUse[..]
      decreases |u| - lastCount, countChanged
    {
      ghost var before := inUse[..];
      MarkDependentsOfInUseImages(u, inUse);
      MarkPassIsSound(u, counts, before, |u|);
      CountGrows(before, inUse[..]);
      var newCount := InUseCount(inUse);
      countChanged := newCount != lastCount;
      lastCount := newCount;
    }
    forall j: nat | j < |u| ensures inUse[j] <==> Live(u, counts, j) {
      SettledMarksAreLive(u, counts, inUse[..], j);
    }
    CountGrows(inUse[..], inUse[..]);
    UnmarkedSize(inUse[..]);
    assert (set j: nat | j < |u| && !Live(u, counts, j)) == set j: nat | j < |inUse[..]| && !inUse[..][j];
    var count := InUseCount(inUse);
    deadCount := |u| - count;
  }
}
