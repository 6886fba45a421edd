/** Exactly which images the initializer list has, and exactly when there is none. */
module InitOrderExact {
  import opened InitOrder
  import opened InitOrderProof

  // ----- what is visited, read off the graph -----

  /** u is an upward dependent of an image that r reaches by non-upward links. */
  ghost predicate UpFrom(g: Graph, r: nat, u: nat) {
    exists x: nat :: Reach(g, r, x, false) && UpEdge(g, x, u)
  }

  /** The loaded image, then upward dependents, each of the one before and all but the first with growing positions. */
  ghost predicate AreRoots(g: Graph, load: nat, rs: seq<nat>) {
    && |rs| >= 1
    && var n := |rs| - 1;
       if n == 0 then rs[0] == load
       else AreRoots(g, load, rs[..n]) && UpFrom(g, rs[n - 1], rs[n]) && (n > 1 ==> rs[n - 1] < rs[n])
  }

  ghost predicate FromRoots(g: Graph, load: nat, rs: seq<nat>, v: nat) {
    AreRoots(g, load, rs) && Reach(g, rs[|rs| - 1], v, false)
  }

  /** The last of some roots reaches the image by non-upward links. */
  ghost predicate Visits(g: Graph, load: nat, v: nat) {
    exists rs: seq<nat> :: FromRoots(g, load, rs, v)
  }

  /** The same with roots that have been swept before pass k. */
  ghost predicate VisitsBelow(g: Graph, load: nat, v: nat, k: nat) {
    exists rs: seq<nat> :: FromRoots(g, load, rs, v) && (|rs| > 1 ==> rs[|rs| - 1] < k)
  }

  lemma {:induction false} AddRoot(g: Graph, load: nat, rs: seq<nat>, u: nat)
    requires AreRoots(g, load, rs) && UpFrom(g, rs[|rs| - 1], u) && (|rs| > 1 ==> rs[|rs| - 1] < u)
    ensures AreRoots(g, load, rs + [u])
  {
    assert (rs + [u])[..|rs|] == rs;
  }

  // ----- an image dangles for a reason -----

  /** An unvisited image that dangles is an upward dependent of a visited one. */
  ghost predicate DangleCaused(g: Graph, s: Walk) {
    forall v: nat {:trigger s.infos[v].danglingUpward} ::
      v < |s.infos| && s.infos[v].danglingUpward && !s.infos[v].visited ==> HasCause(g, s, v)
  }

  ghost predicate HasCause(g: Graph, s: Walk, v: nat) {
    exists x: nat :: x < |s.infos| && s.infos[x].visited && UpEdge(g, x, v)
  }

  lemma {:induction false} CauseStays(g: Graph, s: Walk, r: Walk, v: nat)
    requires HasCause(g, s, v) && Grows(s, r)
    ensures HasCause(g, r, v)
  {
  }

  lemma {:induction false} DangleHasCause(g: Graph, u: nat, i: nat, s: Walk)
    requires WellFormed(g) && u < |g| == |s.infos| && i < |g[u].dependents| && LinksUp(g[u].dependents[i])
    requires s.infos[u].visited && DangleCaused(g, s)
    ensures DangleCaused(g, Dangle(s, g[u].dependents[i].image))
  {
    var d := g[u].dependents[i].image;
    var r := Dangle(s, d);
    assert UpEdge(g, u, d);
    forall v: nat | v < |r.infos| && r.infos[v].danglingUpward && !r.infos[v].visited ensures HasCause(g, r, v) {
      if v != d {
        assert s.infos[v].danglingUpward;
        CauseStays(g, s, r, v);
      }
    }
  }

  /** Changing u's entry to a visited one keeps causes. */
  lemma {:induction false} VisitedKeepsCauses(g: Graph, s: Walk, u: nat, info: InitInfo, r: Walk)
    requires u < |s.infos| && info.visited && r.infos == s.infos[u := info] && DangleCaused(g, s)
    ensures DangleCaused(g, r)
  {
    forall v: nat | v < |r.infos| && r.infos[v].danglingUpward && !r.infos[v].visited ensures HasCause(g, r, v) {
      assert s.infos[v].danglingUpward;
      CauseStays(g, s, r, v);
    }
  }

  lemma {:induction false} VisitKeepsCauses(g: Graph, u: nat, s: Walk)
    requires WellFormed(g) && u < |g| == |s.infos| && DangleCaused(g, s)
    ensures DangleCaused(g, Visit(g, u, s))
    decreases |Unvisited(s.infos)|, 0, 0
  {
    if !s.infos[u].visited {
      var m := Mark(s, u);
      VisitedKeepsCauses(g, s, u, m.infos[u], m);
      if !g[u].isBadImage {
        LoopKeepsCauses(g, u, 0, m);
        var (r, stopped) := VisitDependents(g, u, 0, m);
        assert r.infos[u].visited;
        VisitedKeepsCauses(g, r, u, Numbered(r, u).infos[u], Numbered(r, u));
      }
    }
  }

  lemma {:induction false} LoopKeepsCauses(g: Graph, u: nat, i: nat, s: Walk)
    requires WellFormed(g) && u < |g| == |s.infos| && i <= |g[u].dependents| && s.infos[u].visited && DangleCaused(g, s)
    ensures DangleCaused(g, VisitDependents(g, u, i, s).0)
    decreases |Unvisited(s.infos)|, 1, |g[u].dependents| - i
  {
    if i < |g[u].dependents| {
      var d := g[u].dependents[i];
      if d.MissingWeak? {
        LoopKeepsCauses(g, u, i + 1, s);
      } else if d.upward {
        DangleHasCause(g, u, i, s);
        GrowsShrinks(s, Dangle(s, d.image));
        LoopKeepsCauses(g, u, i + 1, Dangle(s, d.image));
      } else {
        var r := Visit(g, d.image, s);
        VisitKeepsCauses(g, d.image, s);
        GrowsShrinks(s, r);
        if !r.hasError {
          LoopKeepsCauses(g, u, i + 1, r);
        }
      }
    }
  }

  lemma {:induction false} SweepKeepsCauses(g: Graph, load: nat, k: nat)
    requires WellFormed(g) && load < |g| && k <= |g|
    ensures DangleCaused(g, Sweep(g, load, k))
  {
    if k == 0 {
      VisitKeepsCauses(g, load, Start(g));
    } else {
      SweepKeepsCauses(g, load, k - 1);
      var s := Sweep(g, load, k - 1);
      if !s.infos[k - 1].visited && s.infos[k - 1].danglingUpward {
        VisitKeepsCauses(g, k - 1, s);
      }
    }
  }

  // ----- only what roots reach is visited -----

  ghost predicate VisitedFromRoots(g: Graph, load: nat, s: Walk, k: nat) {
    forall v: nat {:trigger s.infos[v].visited} :: v < |s.infos| && s.infos[v].visited ==> VisitsBelow(g, load, v, k)
  }

  lemma {:induction false} ReachedFromNew(g: Graph, load: nat, s: Walk, k: nat, v: nat)
    requires k < |g| == |s.infos| && VisitedFromRoots(g, load, s, k) && HasCause(g, s, k) && Reach(g, k, v, false)
    ensures VisitsBelow(g, load, v, k + 1)
  {
    var x: nat :| x < |s.infos| && s.infos[x].visited && UpEdge(g, x, k);
    var rs: seq<nat> :| FromRoots(g, load, rs, x) && (|rs| > 1 ==> rs[|rs| - 1] < k);
    assert UpFrom(g, rs[|rs| - 1], k);
    AddRoot(g, load, rs, k);
    assert FromRoots(g, load, rs + [k], v);
  }

  lemma {:induction false} LaterBound(g: Graph, load: nat, v: nat, k: nat)
    requires VisitsBelow(g, load, v, k)
    ensures VisitsBelow(g, load, v, k + 1)
  {
    var rs: seq<nat> :| FromRoots(g, load, rs, v) && (|rs| > 1 ==> rs[|rs| - 1] < k);
  }

  lemma {:induction false} FirstFromRoots(g: Graph, load: nat)
    requires WellFormed(g) && load < |g| && !Sweep(g, load, 0).hasError
    ensures VisitedFromRoots(g, load, Sweep(g, load, 0), 0)
  {
    var s, r := Start(g), Sweep(g, load, 0);
    ReachSelf(g, load, true);
    assert Good(g, load, s);
    VisitIsGood(g, load, load, s);
    forall v: nat | v < |r.infos| && r.infos[v].visited ensures VisitsBelow(g, load, v, 0) {
      assert FromRoots(g, load, [load], v);
    }
  }

  lemma {:induction false} PassFromRoots(g: Graph, load: nat, k: nat, s: Walk)
    requires WellFormed(g) && load < |g| && k < |g| && Settled(g, load, s) && VisitedFromRoots(g, load, s, k)
    requires !s.infos[k].visited && HasCause(g, s, k) && Seen(s, k) && !Visit(g, k, s).hasError
    ensures VisitedFromRoots(g, load, Visit(g, k, s), k + 1)
  {
    var r := Visit(g, k, s);
    VisitIsGood(g, load, k, s);
    forall v: nat | v < |r.infos| && r.infos[v].visited ensures VisitsBelow(g, load, v, k + 1) {
      if s.infos[v].visited {
        LaterBound(g, load, v, k);
      } else {
        ReachedFromNew(g, load, s, k, v);
      }
    }
  }

  lemma {:induction false} NextFromRoots(g: Graph, load: nat, k: nat, s: Walk)
    requires WellFormed(g) && load < |g| && k < |g| && Settled(g, load, s) && VisitedFromRoots(g, load, s, k)
    requires DangleCaused(g, s) && !Passed(g, k, s).hasError
    ensures VisitedFromRoots(g, load, Passed(g, k, s), k + 1)
  {
    if !s.infos[k].visited && s.infos[k].danglingUpward {
      PassFromRoots(g, load, k, s);
    } else {
      forall v: nat | v < |s.infos| && s.infos[v].visited ensures VisitsBelow(g, load, v, k + 1) {
        LaterBound(g, load, v, k);
      }
    }
  }

  lemma {:induction false} SweepFromRoots(g: Graph, load: nat, k: nat)
    requires WellFormed(g) && load < |g| && k <= |g|
    requires !Sweep(g, load, 0).hasError && !Sweep(g, load, k).hasError
    ensures VisitedFromRoots(g, load, Sweep(g, load, k), k)
    decreases k
  {
    if k == 0 {
      FirstFromRoots(g, load);
    } else if Sweep(g, load, k - 1).hasError {
      SweepErrorStays(g, load, k);
    } else {
      SweepFromRoots(g, load, k - 1);
      SweepIsSettled(g, load, k - 1);
      SweepKeepsCauses(g, load, k - 1);
      NextFromRoots(g, load, k - 1, Sweep(g, load, k - 1));
    }
  }

  // ----- everything that roots reach is visited -----

  /** The pass after which a root has been visited. */
  function After(rs: seq<nat>): nat
    requires rs != []
  {
    if |rs| == 1 then 0 else rs[|rs| - 1] + 1
  }

  lemma {:induction false} UpFromIsSeen(g: Graph, load: nat, s: Walk, r: nat, u: nat)
    requires Settled(g, load, s) && r < |g| && s.infos[r].visited && UpFrom(g, r, u)
    ensures Seen(s, u)
  {
    var x: nat :| Reach(g, r, x, false) && UpEdge(g, x, u);
    ReachedIsVisited(g, load, s, r, x);
    assert !OnStack(s, x) && Finished(s, x);
  }

  /** The pass over u visits u if an earlier root links up to it. */
  lemma {:induction false} PassVisitsRoot(g: Graph, load: nat, s: Walk, r: nat, u: nat)
    requires WellFormed(g) && load < |g| && u < |g| && Settled(g, load, s) && r < |g| && s.infos[r].visited
    requires UpFrom(g, r, u) && !Passed(g, u, s).hasError
    ensures Passed(g, u, s).infos[u].visited
  {
    UpFromIsSeen(g, load, s, r, u);
    OnePass(g, load, u, s);
  }

  lemma {:induction false} SweepGrows(g: Graph, load: nat, k: nat)
    requires WellFormed(g) && load < |g| && k < |g|
    ensures Grows(Sweep(g, load, k), Sweep(g, load, k + 1))
  {
  }

  lemma {:induction false} SweepIsPassed(g: Graph, load: nat, k: nat)
    requires WellFormed(g) && load < |g| && 0 < k <= |g|
    ensures Sweep(g, load, k) == Passed(g, k - 1, Sweep(g, load, k - 1))
  {
  }

  /** No pass up to k has met a bad image. */
  ghost predicate Clean(g: Graph, load: nat, k: nat)
    requires WellFormed(g) && load < |g| && k <= |g|
  {
    !Sweep(g, load, k).hasError && (k > 0 ==> Clean(g, load, k - 1))
  }

  lemma {:induction false} ValidIsClean(g: Graph, load: nat, k: nat)
    requires WellFormed(g) && load < |g| && k <= |g| && !Sweep(g, load, 0).hasError && !Sweep(g, load, k).hasError
    ensures Clean(g, load, k)
  {
    if k > 0 {
      if Sweep(g, load, k - 1).hasError {
        SweepErrorStays(g, load, k);
      }
      ValidIsClean(g, load, k - 1);
    }
  }

  lemma {:induction false} FirstIsClean(g: Graph, load: nat, k: nat)
    requires WellFormed(g) && load < |g| && k <= |g| && Clean(g, load, k)
    ensures !Sweep(g, load, 0).hasError
  {
    if k > 0 {
      FirstIsClean(g, load, k - 1);
    }
  }

  /** After k passes the image has been visited. */
  ghost predicate VisitedBy(g: Graph, load: nat, k: nat, v: nat)
    requires WellFormed(g) && load < |g| && k <= |g|
  {
    v < |g| && Sweep(g, load, k).infos[v].visited
  }

  lemma {:induction false} VisitedLater(g: Graph, load: nat, k: nat, v: nat)
    requires WellFormed(g) && load < |g| && 0 < k <= |g| && VisitedBy(g, load, k - 1, v)
    ensures VisitedBy(g, load, k, v)
  {
    SweepGrows(g, load, k - 1);
  }

  lemma {:induction false} CleanIsSettled(g: Graph, load: nat, k: nat)
    requires WellFormed(g) && load < |g| && k <= |g| && Clean(g, load, k)
    ensures Settled(g, load, Sweep(g, load, k))
  {
    FirstIsClean(g, load, k);
    SweepIsSettled(g, load, k);
  }

  lemma {:induction false} RootVisitedNext(g: Graph, load: nat, k: nat, r: nat, u: nat)
    requires WellFormed(g) && load < |g| && 0 < k <= |g| && Clean(g, load, k) && VisitedBy(g, load, k - 1, r)
    requires u == k - 1 && UpFrom(g, r, u)
    ensures VisitedBy(g, load, k, u)
  {
    CleanIsSettled(g, load, k - 1);
    SweepIsPassed(g, load, k);
    PassVisitsRoot(g, load, Sweep(g, load, k - 1), r, u);
  }

  lemma {:induction false} LoadVisitedFirst(g: Graph, load: nat)
    requires WellFormed(g) && load < |g| && Clean(g, load, 0)
    ensures VisitedBy(g, load, 0, load)
  {
    FirstWalk(g, load);
  }

  lemma {:induction false} RootsFront(g: Graph, load: nat, rs: seq<nat>)
    requires AreRoots(g, load, rs) && |rs| > 1
    ensures AreRoots(g, load, rs[..|rs| - 1]) && UpFrom(g, rs[|rs| - 2], rs[|rs| - 1])
    ensures After(rs[..|rs| - 1]) <= rs[|rs| - 1]
  {
  }

  lemma {:induction false} RootIsVisited(g: Graph, load: nat, rs: seq<nat>, r: nat, k: nat)
    requires WellFormed(g) && load < |g| && k <= |g| && Clean(g, load, k)
    requires AreRoots(g, load, rs) && After(rs) <= k && r == rs[|rs| - 1]
    ensures VisitedBy(g, load, k, r)
    decreases k
  {
    if k == 0 {
      LoadVisitedFirst(g, load);
    } else if After(rs) < k {
      RootIsVisited(g, load, rs, r, k - 1);
      VisitedLater(g, load, k, r);
    } else {
      var q := rs[|rs| - 2];
      RootsFront(g, load, rs);
      RootIsVisited(g, load, rs[..|rs| - 1], q, k - 1);
      RootVisitedNext(g, load, k, q, r);
    }
  }

  lemma {:induction false} RootIsBelow(g: Graph, load: nat, rs: seq<nat>)
    requires load < |g| && AreRoots(g, load, rs)
    ensures After(rs) <= |g|
  {
  }

  /** The sweep visits exactly what its roots reach by non-upward links. */
  lemma {:induction false} VisitedExactly(g: Graph, load: nat, v: nat)
    requires WellFormed(g) && load < |g| && IsValid(g, load) && v < |g|
    ensures Sweep(g, load, |g|).infos[v].visited <==> Visits(g, load, v)
  {
    var s := Sweep(g, load, |g|);
    SweepIsSettled(g, load, |g|);
    SweepFromRoots(g, load, |g|);
    if s.infos[v].visited {
      assert VisitsBelow(g, load, v, |g|);
    }
    if Visits(g, load, v) {
      var rs: seq<nat> :| FromRoots(g, load, rs, v);
      RootIsBelow(g, load, rs);
      ValidIsClean(g, load, |g|);
      RootIsVisited(g, load, rs, rs[|rs| - 1], |g|);
      ReachedIsVisited(g, load, s, rs[|rs| - 1], v);
    }
  }

  // ----- the list, and its absence -----

  /** The list has exactly the images with initializers that roots reach by non-upward links. */
  lemma {:induction false} InitListContents(g: Graph, load: nat, list: seq<nat>, v: nat)
    requires WellFormed(g) && load < |g| && IsValid(g, load) && IsInitList(g, Sweep(g, load, |g|), list)
    ensures v in list <==> v < |g| && g[v].hasInits && Visits(g, load, v)
  {
    if v < |g| {
      VisitedExactly(g, load, v);
    }
  }

  lemma {:induction false} LoadIsVisited(g: Graph, load: nat, v: nat)
    requires Reach(g, load, v, false)
    ensures Visits(g, load, v)
  {
    assert FromRoots(g, load, [load], v);
  }

  lemma {:induction false} NewRootVisits(g: Graph, load: nat, k: nat, s: Walk, v: nat)
    requires k < |g| == |s.infos| && VisitedFromRoots(g, load, s, k) && HasCause(g, s, k) && Reach(g, k, v, false)
    ensures Visits(g, load, v)
  {
    ReachedFromNew(g, load, s, k, v);
    var rs: seq<nat> :| FromRoots(g, load, rs, v);
  }

  lemma {:induction false} PassErrorIsVisited(g: Graph, load: nat, k: nat, s: Walk) returns (v: nat)
    requires WellFormed(g) && k < |g| == |s.infos| && !s.hasError && Visit(g, k, s).hasError
    requires VisitedFromRoots(g, load, s, k) && HasCause(g, s, k)
    ensures v < |g| && g[v].isBadImage && Visits(g, load, v)
  {
    v := ErrorHasCause(g, k, s);
    NewRootVisits(g, load, k, s, v);
  }

  lemma {:induction false} NewErrorIsVisited(g: Graph, load: nat, k: nat) returns (v: nat)
    requires WellFormed(g) && load < |g| && k < |g| && !Sweep(g, load, 0).hasError
    requires !Sweep(g, load, k).hasError && Sweep(g, load, k + 1).hasError
    ensures v < |g| && g[v].isBadImage && Visits(g, load, v)
  {
    SweepFromRoots(g, load, k);
    SweepKeepsCauses(g, load, k);
    v := PassErrorIsVisited(g, load, k, Sweep(g, load, k));
  }

  lemma {:induction false} ErrorIsVisited(g: Graph, load: nat, k: nat) returns (v: nat)
    requires WellFormed(g) && load < |g| && k <= |g| && Sweep(g, load, k).hasError && (k > 0 ==> !Sweep(g, load, 0).hasError)
    ensures v < |g| && g[v].isBadImage && Visits(g, load, v)
    decreases k
  {
    if k == 0 {
      v := ErrorHasCause(g, load, Start(g));
      LoadIsVisited(g, load, v);
    } else if Sweep(g, load, k - 1).hasError {
      v := ErrorIsVisited(g, load, k - 1);
    } else {
      v := NewErrorIsVisited(g, load, k - 1);
    }
  }

  /** The writer is marked invalid exactly if roots reach a bad image by non-upward links. */
  lemma {:induction false} InvalidMeansBad(g: Graph, load: nat)
    requires WellFormed(g) && load < |g|
    ensures !IsValid(g, load) <==> exists v: nat :: v < |g| && g[v].isBadImage && Visits(g, load, v)
  {
    if IsValid(g, load) {
      SweepIsSettled(g, load, |g|);
      forall v: nat | v < |g| && g[v].isBadImage ensures !Visits(g, load, v) {
        VisitedExactly(g, load, v);
      }
    } else {
      var v := ErrorIsVisited(g, load, if Sweep(g, load, 0).hasError then 0 else |g|);
    }
  }

  // ----- when nothing is left out -----

  /** No upward dependent of an image that is visited is left out. */
  ghost predicate UpwardClosed(g: Graph, load: nat) {
    forall x: nat, u: nat :: Visits(g, load, x) && UpEdge(g, x, u) ==> Visits(g, load, u)
  }

  lemma {:induction false} PathIsVisited(g: Graph, load: nat, p: seq<nat>)
    requires UpwardClosed(g, load) && IsPath(g, p, true) && p[0] == load
    ensures Visits(g, load, p[|p| - 1])
    decreases |p|
  {
    if |p| == 1 {
      ReachSelf(g, load, false);
      LoadIsVisited(g, load, load);
    } else {
      var x, y := p[|p| - 2], p[|p| - 1];
      PathIsVisited(g, load, p[..|p| - 1]);
      assert Edge(g, p[|p| - 2], p[|p| - 2 + 1], true);
      var i :| 0 <= i < |g[x].dependents| && IsLinkTo(g[x].dependents[i], y, true);
      if g[x].dependents[i].upward {
        assert UpEdge(g, x, y);
      } else {
        assert IsLinkTo(g[x].dependents[i], y, false) && Edge(g, x, y, false);
        var rs: seq<nat> :| FromRoots(g, load, rs, x);
        ReachEdge(g, rs[|rs| - 1], x, y, false);
        assert FromRoots(g, load, rs, y);
      }
    }
  }

  lemma {:induction false} RootIsReached(g: Graph, load: nat, rs: seq<nat>)
    requires AreRoots(g, load, rs)
    ensures Reach(g, load, rs[|rs| - 1], true)
    decreases |rs|
  {
    if |rs| == 1 {
      ReachSelf(g, load, true);
    } else {
      var r, u := rs[|rs| - 2], rs[|rs| - 1];
      RootIsReached(g, load, rs[..|rs| - 1]);
      var x: nat :| Reach(g, r, x, false) && UpEdge(g, x, u);
      ReachWeaken(g, r, x);
      ReachTrans(g, load, r, x, true);
      var i :| 0 <= i < |g[x].dependents| && LinksUp(g[x].dependents[i]) && g[x].dependents[i].image == u;
      assert IsLinkTo(g[x].dependents[i], u, true) && Edge(g, x, u, true);
      ReachEdge(g, load, x, u, true);
    }
  }

  /** Everything that links of any kind reach is visited, exactly if no upward dependent is left out. */
  lemma {:induction false} AllReachedExactly(g: Graph, load: nat)
    ensures (forall v: nat :: Reach(g, load, v, true) ==> Visits(g, load, v)) <==> UpwardClosed(g, load)
  {
    if UpwardClosed(g, load) {
      forall v: nat | Reach(g, load, v, true) ensures Visits(g, load, v) {
        var p: seq<nat> :| IsPath(g, p, true) && p[0] == load && p[|p| - 1] == v;
        PathIsVisited(g, load, p);
      }
    }
    if forall v: nat :: Reach(g, load, v, true) ==> Visits(g, load, v) {
      forall x: nat, u: nat | Visits(g, load, x) && UpEdge(g, x, u) ensures Visits(g, load, u) {
        VisitedIsReached(g, load, x);
        var i :| 0 <= i < |g[x].dependents| && LinksUp(g[x].dependents[i]) && g[x].dependents[i].image == u;
        assert IsLinkTo(g[x].dependents[i], u, true) && Edge(g, x, u, true);
        ReachEdge(g, load, x, u, true);
      }
    }
  }

  lemma {:induction false} VisitedIsReached(g: Graph, load: nat, v: nat)
    requires Visits(g, load, v)
    ensures Reach(g, load, v, true)
  {
    var rs: seq<nat> :| FromRoots(g, load, rs, v);
    RootIsReached(g, load, rs);
    ReachWeaken(g, rs[|rs| - 1], v);
    ReachTrans(g, load, rs[|rs| - 1], v, true);
  }

  // ----- upward links are not followed to the end -----

  /** Image 2 links upward to 1, which links upward to 0. */
  const CHAIN: Graph := [
    ImageNode([], false, true),
    ImageNode([Dependent(0, true)], false, true),
    ImageNode([Dependent(1, true)], false, true)]

  lemma {:induction false} NoDownwardLink(x: nat, y: nat)
    ensures !Edge(CHAIN, x, y, false)
  {
  }

  lemma {:induction false} ChainReachesItself(x: nat, y: nat)
    requires Reach(CHAIN, x, y, false)
    ensures x == y
  {
    var p: seq<nat> :| IsPath(CHAIN, p, false) && p[0] == x && p[|p| - 1] == y;
    if |p| > 1 {
      NoDownwardLink(p[0], p[0 + 1]);
    }
  }

  /** The single ascending sweep has left 0 behind when 1 makes it dangle. */
  lemma {:induction false} UpwardChainMissed()
    ensures WellFormed(CHAIN) && IsValid(CHAIN, 2) && Reach(CHAIN, 2, 0, true) && CHAIN[0].hasInits
    ensures !Visits(CHAIN, 2, 0)
  {
    assert IsLinkTo(CHAIN[2].dependents[0], 1, true) && IsLinkTo(CHAIN[1].dependents[0], 0, true);
    assert IsPath(CHAIN, [2, 1, 0], true);
    InvalidMeansBad(CHAIN, 2);
    forall rs: seq<nat> ensures !FromRoots(CHAIN, 2, rs, 0) {
      if FromRoots(CHAIN, 2, rs, 0) {
        RootsOfChain(rs);
      }
    }
  }

  lemma {:induction false} RootsOfChain(rs: seq<nat>)
    requires AreRoots(CHAIN, 2, rs)
    ensures !Reach(CHAIN, rs[|rs| - 1], 0, false)
  {
    if |rs| > 1 && rs[|rs| - 1] == 0 {
      var x: nat :| Reach(CHAIN, rs[|rs| - 2], x, false) && UpEdge(CHAIN, x, 0);
      ChainReachesItself(rs[|rs| - 2], x);
    }
    if Reach(CHAIN, rs[|rs| - 1], 0, false) {
      ChainReachesItself(rs[|rs| - 1], 0);
    }
  }
}
