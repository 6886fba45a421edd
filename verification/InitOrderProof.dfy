/** What the numbering of the walk means: dependents before users, up to cycles. */
module InitOrderProof {
  import opened InitOrder

  // ----- reachability -----

  /** A link from x to y; upward links count only if asked for. */
  ghost predicate Edge(g: Graph, x: nat, y: nat, any: bool) {
    x < |g| && y < |g| && exists i :: 0 <= i < |g[x].dependents| && IsLinkTo(g[x].dependents[i], y, any)
  }

  predicate IsLinkTo(d: Dependent, y: nat, any: bool) { d.Dependent? && d.image == y && (any || !d.upward) }

  ghost predicate UpEdge(g: Graph, x: nat, y: nat) {
    x < |g| && y < |g| && exists i :: 0 <= i < |g[x].dependents| && LinksUp(g[x].dependents[i]) && g[x].dependents[i].image == y
  }

  ghost predicate IsPath(g: Graph, p: seq<nat>, any: bool) {
    |p| >= 1 && forall k :: 0 <= k < |p| - 1 ==> Edge(g, p[k], p[k + 1], any)
  }

  ghost predicate Reach(g: Graph, x: nat, y: nat, any: bool) {
    exists p: seq<nat> :: IsPath(g, p, any) && p[0] == x && p[|p| - 1] == y
  }

  lemma {:induction false} ReachSelf(g: Graph, x: nat, any: bool)
    ensures Reach(g, x, x, any)
  {
    assert IsPath(g, [x], any) && [x][0] == x;
  }

  lemma {:induction false} ReachEdge(g: Graph, x: nat, y: nat, z: nat, any: bool)
    requires Reach(g, x, y, any) && Edge(g, y, z, any)
    ensures Reach(g, x, z, any)
  {
    var p: seq<nat> :| IsPath(g, p, any) && p[0] == x && p[|p| - 1] == y;
    var q := p + [z];
    assert IsPath(g, q, any) && q[0] == x && q[|q| - 1] == z;
  }

  lemma {:induction false} PathTrans(g: Graph, x: nat, p: seq<nat>, any: bool)
    requires IsPath(g, p, any) && Reach(g, x, p[0], any)
    ensures Reach(g, x, p[|p| - 1], any)
    decreases |p|
  {
    if |p| > 1 {
      var front := p[..|p| - 1];
      PathTrans(g, x, front, any);
      assert Edge(g, p[|p| - 2], p[|p| - 2 + 1], any);
      ReachEdge(g, x, p[|p| - 2], p[|p| - 1], any);
    }
  }

  lemma {:induction false} ReachTrans(g: Graph, x: nat, y: nat, z: nat, any: bool)
    requires Reach(g, x, y, any) && Reach(g, y, z, any)
    ensures Reach(g, x, z, any)
  {
    var p: seq<nat> :| IsPath(g, p, any) && p[0] == y && p[|p| - 1] == z;
    PathTrans(g, x, p, any);
  }

  lemma {:induction false} ReachWeaken(g: Graph, x: nat, y: nat)
    requires Reach(g, x, y, false)
    ensures Reach(g, x, y, true)
  {
    var p: seq<nat> :| IsPath(g, p, false) && p[0] == x && p[|p| - 1] == y;
    forall k | 0 <= k < |p| - 1 ensures Edge(g, p[k], p[k + 1], true) {
      assert Edge(g, p[k], p[k + 1], false);
    }
  }

  // ----- the state of the walk -----

  ghost predicate Finished(s: Walk, v: nat) { v < |s.infos| && s.infos[v].visited && s.infos[v].initOrder > 0 }
  ghost predicate OnStack(s: Walk, v: nat) { v < |s.infos| && s.infos[v].visited && s.infos[v].initOrder == 0 }
  ghost predicate Seen(s: Walk, v: nat) { v < |s.infos| && (s.infos[v].visited || s.infos[v].danglingUpward) }

  /** Numbers are given in increasing order, each once, to visited images only. */
  ghost predicate Numbering(s: Walk) {
    && s.next >= 1
    && (forall v: nat :: v < |s.infos| && !s.infos[v].visited ==> s.infos[v].initOrder == 0)
    && (forall v: nat :: v < |s.infos| ==> s.infos[v].initOrder < s.next)
    && (forall v: nat, w: nat :: v < |s.infos| && w < |s.infos| && v != w && s.infos[v].initOrder > 0 ==>
          s.infos[v].initOrder != s.infos[w].initOrder)
  }

  /** A dependent has a smaller number than its user, or reaches it. */
  ghost predicate Before(g: Graph, s: Walk, y: nat, x: nat) {
    && y < |s.infos| && x < |s.infos| && s.infos[y].visited
    && (Reach(g, y, x, false) || (s.infos[y].initOrder > 0 && s.infos[y].initOrder < s.infos[x].initOrder))
  }

  ghost predicate BottomUp(g: Graph, s: Walk) {
    forall x: nat, y: nat :: Finished(s, x) && Edge(g, x, y, false) ==> Before(g, s, y, x)
  }

  ghost predicate UpwardSeen(g: Graph, s: Walk) {
    forall x: nat, y: nat :: Finished(s, x) && UpEdge(g, x, y) ==> Seen(s, y)
  }

  ghost predicate SeenFrom(g: Graph, root: nat, s: Walk) {
    forall v: nat :: Seen(s, v) ==> Reach(g, root, v, true)
  }

  ghost predicate Good(g: Graph, root: nat, s: Walk) {
    |s.infos| == |g| && Numbering(s) && BottomUp(g, s) && UpwardSeen(g, s) && SeenFrom(g, root, s)
  }

  ghost predicate StackReaches(g: Graph, s: Walk, u: nat) {
    forall v: nat :: OnStack(s, v) ==> Reach(g, v, u, false)
  }

  /** A part of the walk below u: marks and numbers stay, and everything new is finished and below u. */
  ghost predicate Extends(g: Graph, u: nat, s: Walk, r: Walk) {
    && |r.infos| == |s.infos| && r.next >= s.next
    && (forall v: nat :: v < |s.infos| && s.infos[v].visited ==>
          r.infos[v].visited && r.infos[v].initOrder == s.infos[v].initOrder)
    && (forall v: nat :: v < |s.infos| && !s.infos[v].visited && r.infos[v].visited ==>
          r.infos[v].initOrder >= s.next && Reach(g, u, v, false) && (v < |g| ==> !g[v].isBadImage))
    && (forall v: nat :: Seen(s, v) ==> Seen(r, v))
  }

  lemma {:induction false} ExtendsTrans(g: Graph, u: nat, a: Walk, b: Walk, c: Walk)
    requires Extends(g, u, a, b) && Extends(g, u, b, c) && a.next >= 1
    ensures Extends(g, u, a, c)
  {
  }

  lemma {:induction false} ExtendsFrom(g: Graph, u: nat, d: nat, s: Walk, r: Walk)
    requires Extends(g, d, s, r) && Edge(g, u, d, false)
    ensures Extends(g, u, s, r)
  {
    forall v: nat | v < |s.infos| && !s.infos[v].visited && r.infos[v].visited ensures Reach(g, u, v, false) {
      ReachSelf(g, u, false);
      ReachEdge(g, u, u, d, false);
      ReachTrans(g, u, d, v, false);
    }
  }

  lemma {:induction false} SameStack(g: Graph, u: nat, s: Walk, r: Walk)
    requires Extends(g, u, s, r) && s.next >= 1
    ensures forall v: nat :: OnStack(r, v) <==> OnStack(s, v)
  {
  }

  // ----- one step at a time -----

  lemma {:induction false} MarkKeepsGood(g: Graph, root: nat, u: nat, s: Walk)
    requires Good(g, root, s) && u < |g| && !s.infos[u].visited && Reach(g, root, u, true) && StackReaches(g, s, u)
    ensures Good(g, root, Mark(s, u)) && StackReaches(g, Mark(s, u), u)
    ensures forall v: nat :: OnStack(Mark(s, u), v) <==> OnStack(s, v) || v == u
  {
    var r := Mark(s, u);
    ReachSelf(g, u, false);
    assert forall v: nat :: v != u && v < |g| ==> r.infos[v] == s.infos[v];
    forall x: nat, y: nat | Finished(r, x) && Edge(g, x, y, false) ensures Before(g, r, y, x) {
      assert Finished(s, x) && Before(g, s, y, x);
    }
    forall x: nat, y: nat | Finished(r, x) && UpEdge(g, x, y) ensures Seen(r, y) {
      assert Finished(s, x) && Seen(s, y);
    }
    forall v: nat | Seen(r, v) ensures Reach(g, root, v, true) {
      assert v == u || Seen(s, v);
    }
  }

  lemma {:induction false} DangleKeepsGood(g: Graph, root: nat, u: nat, v: nat, s: Walk)
    requires Good(g, root, s) && OnStack(s, u) && UpEdge(g, u, v)
    ensures Good(g, root, Dangle(s, v)) && Extends(g, u, s, Dangle(s, v)) && Seen(Dangle(s, v), v)
  {
    var r := Dangle(s, v);
    forall x: nat, y: nat | Finished(r, x) && Edge(g, x, y, false) ensures Before(g, r, y, x) {
      assert Finished(s, x) && Before(g, s, y, x);
    }
    forall x: nat, y: nat | Finished(r, x) && UpEdge(g, x, y) ensures Seen(r, y) {
      assert Finished(s, x) && Seen(s, y);
    }
    assert Seen(s, u);
    assert Edge(g, u, v, true) by {
      var i :| 0 <= i < |g[u].dependents| && LinksUp(g[u].dependents[i]) && g[u].dependents[i].image == v;
      assert IsLinkTo(g[u].dependents[i], v, true);
    }
    ReachEdge(g, root, u, v, true);
    forall w: nat | Seen(r, w) ensures Reach(g, root, w, true) {
      assert w == v || Seen(s, w);
    }
  }

  /** The links of u from the i-th on have been followed. */
  ghost predicate LinksDone(g: Graph, u: nat, i: nat, r: Walk)
    requires u < |g|
  {
    forall j {:trigger g[u].dependents[j]} :: i <= j < |g[u].dependents| && g[u].dependents[j].Dependent? ==>
      var d := g[u].dependents[j];
      && d.image < |r.infos|
      && (d.upward ==> Seen(r, d.image))
      && (!d.upward ==> r.infos[d.image].visited && (Finished(r, d.image) || Reach(g, d.image, u, false)))
  }

  lemma {:induction false} NumberKeepsGood(g: Graph, root: nat, u: nat, s: Walk)
    requires Good(g, root, s) && OnStack(s, u) && LinksDone(g, u, 0, s)
    ensures Good(g, root, Numbered(s, u))
  {
    var r := Numbered(s, u);
    assert forall v: nat :: v != u && v < |g| ==> r.infos[v] == s.infos[v];
    forall x: nat, y: nat | Finished(r, x) && Edge(g, x, y, false) ensures Before(g, r, y, x) {
      if x == u {
        var i :| 0 <= i < |g[u].dependents| && IsLinkTo(g[u].dependents[i], y, false);
        if y == u { ReachSelf(g, u, false); }
      } else {
        assert Finished(s, x) && Before(g, s, y, x);
      }
    }
    forall x: nat, y: nat | Finished(r, x) && UpEdge(g, x, y) ensures Seen(r, y) {
      if x == u {
        var i :| 0 <= i < |g[u].dependents| && LinksUp(g[u].dependents[i]) && g[u].dependents[i].image == y;
        assert Seen(s, y);
      } else {
        assert Finished(s, x) && Seen(s, y);
      }
    }
    forall v: nat | Seen(r, v) ensures Reach(g, root, v, true) {
      assert Seen(s, v);
    }
  }

  // ----- the whole walk -----

  lemma {:induction false} VisitIsGood(g: Graph, root: nat, u: nat, s: Walk)
    requires WellFormed(g) && u < |g| && Good(g, root, s) && Reach(g, root, u, true) && StackReaches(g, s, u)
    requires !Visit(g, u, s).hasError
    ensures var r := Visit(g, u, s);
      Good(g, root, r) && Extends(g, u, s, r) && r.infos[u].visited && !s.hasError
    decreases |Unvisited(s.infos)|, 0, 0
  {
    if !s.infos[u].visited {
      var m := Mark(s, u);
      MarkKeepsGood(g, root, u, s);
      var (r, stopped) := VisitDependents(g, u, 0, m);
      DependentsAreGood(g, root, u, 0, m);
      SameStack(g, u, m, r);
      NumberKeepsGood(g, root, u, r);
      NumberExtends(g, u, s, r);
    }
  }

  lemma {:induction false} NumberExtends(g: Graph, u: nat, s: Walk, r: Walk)
    requires u < |s.infos| && !s.infos[u].visited && Extends(g, u, Mark(s, u), r) && s.next >= 1
    requires u < |g| && !g[u].isBadImage
    ensures Extends(g, u, s, Numbered(r, u))
  {
    var m, t := Mark(s, u), Numbered(r, u);
    ReachSelf(g, u, false);
    assert forall v: nat :: v != u && v < |s.infos| ==> m.infos[v] == s.infos[v] && t.infos[v] == r.infos[v];
    forall v: nat | Seen(s, v) ensures Seen(t, v) {
      assert Seen(m, v);
      assert Seen(r, v);
    }
  }

  lemma {:induction false} DependentsAreGood(g: Graph, root: nat, u: nat, i: nat, s: Walk)
    requires WellFormed(g) && u < |g| && i <= |g[u].dependents| && Good(g, root, s)
    requires OnStack(s, u) && StackReaches(g, s, u)
    requires !VisitDependents(g, u, i, s).0.hasError
    ensures var (r, stopped) := VisitDependents(g, u, i, s);
      Good(g, root, r) && Extends(g, u, s, r) && LinksDone(g, u, i, r) && !s.hasError && !stopped
    decreases |Unvisited(s.infos)|, 1, |g[u].dependents| - i
  {
    if i < |g[u].dependents| {
      var d := g[u].dependents[i];
      var s1 := if d.MissingWeak? then s else if d.upward then Dangle(s, d.image) else Visit(g, d.image, s);
      OneIsGood(g, root, u, i, s);
      GrowsShrinks(s, s1);
      SameStack(g, u, s, s1);
      DependentsAreGood(g, root, u, i + 1, s1);
      ExtendsTrans(g, u, s, s1, VisitDependents(g, u, i + 1, s1).0);
    }
  }

  lemma {:induction false} OneIsGood(g: Graph, root: nat, u: nat, i: nat, s: Walk)
    requires WellFormed(g) && u < |g| && i < |g[u].dependents| && Good(g, root, s)
    requires OnStack(s, u) && StackReaches(g, s, u)
    requires !VisitDependents(g, u, i, s).0.hasError
    ensures var d := g[u].dependents[i];
      var r := if d.MissingWeak? then s else if d.upward then Dangle(s, d.image) else Visit(g, d.image, s);
      && Good(g, root, r) && Extends(g, u, s, r) && Grows(s, r)
      && VisitDependents(g, u, i, s) == VisitDependents(g, u, i + 1, r)
      && (r.hasError == s.hasError || !s.hasError)
      && (LinksUp(d) ==> Seen(r, d.image))
      && (LinksDown(d) ==> r.infos[d.image].visited && (Finished(r, d.image) || Reach(g, d.image, u, false)))
    decreases |Unvisited(s.infos)|, 1, |g[u].dependents| - i, 0
  {
    var d := g[u].dependents[i];
    if LinksUp(d) {
      DangleKeepsGood(g, root, u, d.image, s);
    } else if LinksDown(d) {
      assert IsLinkTo(d, d.image, false) && IsLinkTo(d, d.image, true);
      assert Edge(g, u, d.image, false) && Edge(g, u, d.image, true);
      assert Seen(s, u);
      ReachEdge(g, root, u, d.image, true);
      forall v: nat | OnStack(s, v) ensures Reach(g, v, d.image, false) {
        ReachEdge(g, v, u, d.image, false);
      }
      var r := Visit(g, d.image, s);
      VisitIsGood(g, root, d.image, s);
      ExtendsFrom(g, u, d.image, s, r);
      SameStack(g, u, s, r);
    }
  }

  // ----- the initializer list -----

  ghost predicate Settled(g: Graph, load: nat, s: Walk) {
    && Good(g, load, s) && !s.hasError
    && (forall v: nat :: !OnStack(s, v))
    && (forall v: nat :: v < |g| && s.infos[v].visited ==> !g[v].isBadImage)
  }

  lemma {:induction false} FirstWalk(g: Graph, load: nat)
    requires WellFormed(g) && load < |g| && !Sweep(g, load, 0).hasError
    ensures Settled(g, load, Sweep(g, load, 0)) && Sweep(g, load, 0).infos[load].visited
  {
    var s := Start(g);
    ReachSelf(g, load, true);
    assert Good(g, load, s);
    VisitIsGood(g, load, load, s);
    SameStack(g, load, s, Sweep(g, load, 0));
  }

  ghost predicate Keeps(s: Walk, r: Walk) {
    && Grows(s, r)
    && forall v: nat :: Seen(s, v) ==> Seen(r, v)
  }

  /** The walk after pass k over s. */
  ghost function Passed(g: Graph, k: nat, s: Walk): Walk
    requires WellFormed(g) && k < |g| == |s.infos|
  {
    if !s.infos[k].visited && s.infos[k].danglingUpward then Visit(g, k, s) else s
  }

  lemma {:induction false} OnePass(g: Graph, load: nat, k: nat, s: Walk)
    requires WellFormed(g) && load < |g| && k < |g| && Settled(g, load, s) && !Passed(g, k, s).hasError
    ensures Settled(g, load, Passed(g, k, s)) && Keeps(s, Passed(g, k, s))
    ensures Seen(s, k) ==> Passed(g, k, s).infos[k].visited
  {
    if !s.infos[k].visited && s.infos[k].danglingUpward {
      assert Seen(s, k);
      VisitIsGood(g, load, k, s);
      SameStack(g, k, s, Passed(g, k, s));
    }
  }

  lemma {:induction false} SweepStep(g: Graph, load: nat, k: nat)
    requires WellFormed(g) && load < |g| && k < |g| && Settled(g, load, Sweep(g, load, k)) && !Sweep(g, load, k + 1).hasError
    ensures Settled(g, load, Sweep(g, load, k + 1)) && Keeps(Sweep(g, load, k), Sweep(g, load, k + 1))
    ensures Seen(Sweep(g, load, k), k) ==> Sweep(g, load, k + 1).infos[k].visited
  {
    OnePass(g, load, k, Sweep(g, load, k));
  }

  lemma {:induction false} SweepErrorStays(g: Graph, load: nat, k: nat)
    requires WellFormed(g) && load < |g| && 0 < k <= |g| && Sweep(g, load, k - 1).hasError
    ensures Sweep(g, load, k).hasError
  {
    ErrorStays(g, k - 1, Sweep(g, load, k - 1));
  }

  lemma {:induction false} KeepsTrans(a: Walk, b: Walk, c: Walk)
    requires Keeps(a, b) && Keeps(b, c)
    ensures Keeps(a, c)
  {
  }

  ghost predicate SeenBelowVisited(s: Walk, k: nat, r: Walk) {
    |r.infos| == |s.infos| && forall v: nat {:trigger Seen(s, v)} :: v < k && Seen(s, v) ==> r.infos[v].visited
  }

  lemma {:induction false} SeenBelowNext(a: Walk, k: nat, b: Walk, c: Walk)
    requires SeenBelowVisited(a, k, b) && Keeps(a, b) && Keeps(b, c)
    requires k < |c.infos| && (Seen(b, k) ==> c.infos[k].visited)
    ensures SeenBelowVisited(a, k + 1, c)
  {
    forall v: nat | v < k + 1 && Seen(a, v) ensures c.infos[v].visited {
      if v == k {
        assert Seen(b, v);
      }
    }
  }

  /** What holds after k passes over the walk s0 of the loaded image: s is settled and keeps what s0 marked. */
  ghost predicate Swept(g: Graph, load: nat, s0: Walk, k: nat, s: Walk) {
    Settled(g, load, s) && Keeps(s0, s) && SeenBelowVisited(s0, k, s)
  }

  lemma {:induction false} SweptFirst(g: Graph, load: nat, s: Walk)
    requires Settled(g, load, s)
    ensures Swept(g, load, s, 0, s)
  {
  }

  lemma {:induction false} SweptNext(g: Graph, load: nat, s0: Walk, k: nat, a: Walk, b: Walk)
    requires Swept(g, load, s0, k, a) && Settled(g, load, b) && Keeps(a, b)
    requires k < |b.infos| && (Seen(a, k) ==> b.infos[k].visited)
    ensures Swept(g, load, s0, k + 1, b)
  {
    KeepsTrans(s0, a, b);
    SeenBelowNext(s0, k, a, b);
  }

  lemma {:induction false} SweepIsSwept(g: Graph, load: nat, k: nat)
    requires WellFormed(g) && load < |g| && k <= |g|
    requires !Sweep(g, load, 0).hasError && !Sweep(g, load, k).hasError
    ensures Swept(g, load, Sweep(g, load, 0), k, Sweep(g, load, k))
    decreases k
  {
    if k == 0 {
      FirstWalk(g, load);
      SweptFirst(g, load, Sweep(g, load, 0));
    } else if Sweep(g, load, k - 1).hasError {
      SweepErrorStays(g, load, k);
    } else {
      SweepIsSwept(g, load, k - 1);
      SweepStep(g, load, k - 1);
      SweptNext(g, load, Sweep(g, load, 0), k - 1, Sweep(g, load, k - 1), Sweep(g, load, k));
    }
  }

  /** Every pass leaves the walk settled; what the first walk saw below k has been visited. */
  lemma {:induction false} SweepIsSettled(g: Graph, load: nat, k: nat)
    requires WellFormed(g) && load < |g| && k <= |g|
    requires !Sweep(g, load, 0).hasError && !Sweep(g, load, k).hasError
    ensures Settled(g, load, Sweep(g, load, k)) && Keeps(Sweep(g, load, 0), Sweep(g, load, k))
    ensures Sweep(g, load, k).infos[load].visited
    ensures SeenBelowVisited(Sweep(g, load, 0), k, Sweep(g, load, k))
  {
    FirstWalk(g, load);
    SweepIsSwept(g, load, k);
  }

  lemma {:induction false} ErrorStays(g: Graph, u: nat, s: Walk)
    requires WellFormed(g) && u < |g| == |s.infos| && s.hasError
    ensures Visit(g, u, s).hasError
    decreases |Unvisited(s.infos)|, 0, 0
  {
    if !s.infos[u].visited && !g[u].isBadImage {
      ErrorStaysInLoop(g, u, 0, Mark(s, u));
    }
  }

  lemma {:induction false} ErrorStaysInLoop(g: Graph, u: nat, i: nat, s: Walk)
    requires WellFormed(g) && u < |g| == |s.infos| && i <= |g[u].dependents| && s.hasError
    ensures VisitDependents(g, u, i, s).0.hasError
    decreases |Unvisited(s.infos)|, 1, |g[u].dependents| - i
  {
    if i < |g[u].dependents| {
      var d := g[u].dependents[i];
      if d.MissingWeak? {
        ErrorStaysInLoop(g, u, i + 1, s);
      } else if d.upward {
        GrowsShrinks(s, Dangle(s, d.image));
        ErrorStaysInLoop(g, u, i + 1, Dangle(s, d.image));
      } else {
        ErrorStays(g, d.image, s);
      }
    }
  }

  lemma {:induction false} VisitedClosed(g: Graph, load: nat, s: Walk, p: seq<nat>)
    requires Settled(g, load, s) && IsPath(g, p, false) && p[0] < |g| && s.infos[p[0]].visited
    ensures p[|p| - 1] < |g| && s.infos[p[|p| - 1]].visited
    decreases |p|
  {
    if |p| > 1 {
      var front, k := p[..|p| - 1], |p| - 2;
      VisitedClosed(g, load, s, front);
      assert Edge(g, p[k], p[k + 1], false);
      assert !OnStack(s, p[k]) && Finished(s, p[k]);
      assert Before(g, s, p[k + 1], p[k]);
    }
  }

  lemma {:induction false} ReachedIsVisited(g: Graph, load: nat, s: Walk, x: nat, y: nat)
    requires Settled(g, load, s) && x < |g| && s.infos[x].visited && Reach(g, x, y, false)
    ensures y < |g| && s.infos[y].visited
  {
    var p: seq<nat> :| IsPath(g, p, false) && p[0] == x && p[|p| - 1] == y;
    VisitedClosed(g, load, s, p);
  }

  /** A non-upward dependent comes before its user, unless it reaches the user itself. */
  lemma {:induction false} InitListOrder(g: Graph, load: nat, list: seq<nat>, i: nat, j: nat)
    requires WellFormed(g) && load < |g| && IsValid(g, load) && IsInitList(g, Sweep(g, load, |g|), list)
    requires i < |list| && j < |list| && i != j
    requires Edge(g, list[i], list[j], false) && !Reach(g, list[j], list[i], false)
    ensures j < i
  {
    var s := Sweep(g, load, |g|);
    SweepIsSettled(g, load, |g|);
    assert list[i] in list && list[j] in list;
    assert !OnStack(s, list[i]) && Finished(s, list[i]);
    assert Before(g, s, list[j], list[i]);
  }

  /** The list is the only one: its numbers are distinct, so the order is strict. */
  lemma {:induction false} InitListUnique(g: Graph, load: nat, a: seq<nat>, b: seq<nat>)
    requires WellFormed(g) && load < |g| && IsValid(g, load)
    requires IsInitList(g, Sweep(g, load, |g|), a) && IsInitList(g, Sweep(g, load, |g|), b)
    ensures a == b
  {
    var s := Sweep(g, load, |g|);
    ListIsIncreasing(g, load, a);
    ListIsIncreasing(g, load, b);
    IncreasingEqual(s.infos, a, b);
  }

  ghost predicate Increasing(infos: seq<InitInfo>, a: seq<nat>) {
    forall i, j :: 0 <= i < j < |a| ==> Order(infos, a[i]) < Order(infos, a[j])
  }

  lemma {:induction false} ListIsIncreasing(g: Graph, load: nat, a: seq<nat>)
    requires WellFormed(g) && load < |g| && IsValid(g, load) && IsInitList(g, Sweep(g, load, |g|), a)
    ensures Increasing(Sweep(g, load, |g|).infos, a)
  {
    var s := Sweep(g, load, |g|);
    SweepIsSettled(g, load, |g|);
    forall i, j | 0 <= i < j < |a| ensures Order(s.infos, a[i]) < Order(s.infos, a[j]) {
      assert a[i] in a && a[j] in a;
      assert !OnStack(s, a[i]);
    }
  }

  lemma {:induction false} IncreasingHead(infos: seq<InitInfo>, a: seq<nat>, b: seq<nat>)
    requires Increasing(infos, a) && a != [] && b != [] && b[0] in a
    ensures Order(infos, a[0]) <= Order(infos, b[0])
    ensures Order(infos, a[0]) == Order(infos, b[0]) ==> a[0] == b[0]
  {
    var k :| 0 <= k < |a| && a[k] == b[0];
    assert k > 0 ==> Order(infos, a[0]) < Order(infos, a[k]);
  }

  lemma {:induction false} IncreasingTail(infos: seq<InitInfo>, a: seq<nat>, v: nat)
    requires Increasing(infos, a) && a != []
    ensures v in a[1..] <==> v in a && v != a[0]
    ensures Increasing(infos, a[1..])
  {
    if v in a && v != a[0] {
      var k :| 0 <= k < |a| && a[k] == v;
      assert a[1..][k - 1] == v;
    }
    if v in a[1..] {
      var k :| 1 <= k < |a| && a[k] == v;
      assert Order(infos, a[0]) < Order(infos, a[k]);
    }
  }

  lemma {:induction false} HeadIsIn(a: seq<nat>)
    ensures a == [] || a[0] in a
  {
  }

  lemma {:induction false} IncreasingEqual(infos: seq<InitInfo>, a: seq<nat>, b: seq<nat>)
    requires Increasing(infos, a) && Increasing(infos, b) && (forall v: nat :: v in a <==> v in b)
    ensures a == b
  {
    HeadIsIn(a);
    HeadIsIn(b);
    if a != [] && b != [] {
      IncreasingHead(infos, a, b);
      IncreasingHead(infos, b, a);
      forall v: nat ensures v in a[1..] <==> v in b[1..] {
        IncreasingTail(infos, a, v);
        IncreasingTail(infos, b, v);
      }
      IncreasingTail(infos, a, a[0]);
      IncreasingTail(infos, b, b[0]);
      IncreasingEqual(infos, a[1..], b[1..]);
      assert a == [a[0]] + a[1..] && b == [b[0]] + b[1..];
    }
  }

  // ----- bad images -----

  lemma {:induction false} ErrorHasCause(g: Graph, u: nat, s: Walk) returns (v: nat)
    requires WellFormed(g) && u < |g| == |s.infos| && !s.hasError && Visit(g, u, s).hasError
    ensures v < |g| && g[v].isBadImage && Reach(g, u, v, false)
    decreases |Unvisited(s.infos)|, 0, 0
  {
    ReachSelf(g, u, false);
    if g[u].isBadImage {
      v := u;
    } else {
      v := LoopErrorHasCause(g, u, 0, Mark(s, u));
    }
  }

  lemma {:induction false} LoopErrorHasCause(g: Graph, u: nat, i: nat, s: Walk) returns (v: nat)
    requires WellFormed(g) && u < |g| == |s.infos| && i <= |g[u].dependents| && !s.hasError
    requires VisitDependents(g, u, i, s).0.hasError
    ensures v < |g| && g[v].isBadImage && Reach(g, u, v, false)
    decreases |Unvisited(s.infos)|, 1, |g[u].dependents| - i
  {
    var d := g[u].dependents[i];
    if d.MissingWeak? {
      v := LoopErrorHasCause(g, u, i + 1, s);
    } else if d.upward {
      GrowsShrinks(s, Dangle(s, d.image));
      v := LoopErrorHasCause(g, u, i + 1, Dangle(s, d.image));
    } else {
      var r := Visit(g, d.image, s);
      GrowsShrinks(s, r);
      if r.hasError {
        v := ErrorHasCause(g, d.image, s);
        assert IsLinkTo(d, d.image, false) && Edge(g, u, d.image, false);
        ReachSelf(g, u, false);
        ReachEdge(g, u, u, d.image, false);
        ReachTrans(g, u, d.image, v, false);
      } else {
        v := LoopErrorHasCause(g, u, i + 1, r);
      }
    }
  }
}
