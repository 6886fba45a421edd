/** The initializer list read off the graph: which images it has, and in which order. */
module InitOrderList {
  import opened InitOrder
  import opened InitOrderProof
  import opened InitOrderExact
  import opened InitOrderTurns
  import opened Lists

  // ----- rounds -----

  /** The image is reached in round n: 0 is the walk from the loaded image, n is the pass over image n - 1. */
  ghost predicate InRound(g: Graph, load: nat, v: nat, n: nat) {
    VisitsBelow(g, load, v, n) && (n > 0 ==> !VisitsBelow(g, load, v, n - 1))
  }

  function RootOf(load: nat, n: nat): nat { if n == 0 then load else n - 1 }

  ghost predicate BeforeInRounds(g: Graph, load: nat, x: nat, n: nat, y: nat, m: nat) {
    && InRound(g, load, x, n) && InRound(g, load, y, m)
    && (n < m || (n == m && Sooner(g, {}, RootOf(load, n), x, y)))
  }

  /** x is reached in an earlier round than y, or in the same one and done before it. */
  ghost predicate StandsBefore(g: Graph, load: nat, x: nat, y: nat) {
    exists n: nat, m: nat :: BeforeInRounds(g, load, x, n, y, m)
  }

  lemma {:induction false} BelowLater(g: Graph, load: nat, v: nat, k: nat, n: nat)
    requires k <= n && VisitsBelow(g, load, v, k)
    ensures VisitsBelow(g, load, v, n)
    decreases n - k
  {
    if k < n {
      LaterBound(g, load, v, k);
      BelowLater(g, load, v, k + 1, n);
    }
  }

  lemma {:induction false} RoundIs(g: Graph, load: nat, v: nat, n: nat, k: nat)
    requires InRound(g, load, v, n)
    ensures VisitsBelow(g, load, v, k) <==> n <= k
  {
    if n <= k {
      BelowLater(g, load, v, n, k);
    } else if VisitsBelow(g, load, v, k) {
      BelowLater(g, load, v, k, n - 1);
    }
  }

  lemma {:induction false} OneRound(g: Graph, load: nat, v: nat, n: nat, m: nat)
    requires InRound(g, load, v, n) && InRound(g, load, v, m)
    ensures n == m
  {
    RoundIs(g, load, v, n, m);
    RoundIs(g, load, v, m, n);
  }

  lemma {:induction false} HasRound(g: Graph, load: nat, v: nat, k: nat) returns (n: nat)
    requires VisitsBelow(g, load, v, k)
    ensures n <= k && InRound(g, load, v, n)
  {
    if k > 0 && VisitsBelow(g, load, v, k - 1) {
      n := HasRound(g, load, v, k - 1);
    } else {
      n := k;
    }
  }

  lemma {:induction false} RoundReaches(g: Graph, load: nat, v: nat, n: nat)
    requires InRound(g, load, v, n)
    ensures Reach(g, RootOf(load, n), v, false) && Outside(g, {}, RootOf(load, n), v)
  {
    var rs: seq<nat> :| FromRoots(g, load, rs, v) && (|rs| > 1 ==> rs[|rs| - 1] < n);
    assert |rs| == 1 ==> n == 0;
    assert |rs| > 1 ==> rs[|rs| - 1] == n - 1;
    var p: seq<nat> :| IsPath(g, p, false) && p[0] == RootOf(load, n) && p[|p| - 1] == v;
    assert IsOutside(g, {}, p);
  }

  /** After k passes exactly the images of the rounds up to k have been visited. */
  lemma {:induction false} VisitedByExactly(g: Graph, load: nat, k: nat, v: nat)
    requires WellFormed(g) && load < |g| && k <= |g| && Clean(g, load, k)
    ensures Visited(Sweep(g, load, k), v) <==> VisitsBelow(g, load, v, k)
  {
    FirstIsClean(g, load, k);
    SweepFromRoots(g, load, k);
    var s := Sweep(g, load, k);
    if VisitsBelow(g, load, v, k) {
      var rs: seq<nat> :| FromRoots(g, load, rs, v) && (|rs| > 1 ==> rs[|rs| - 1] < k);
      RootIsVisited(g, load, rs, rs[|rs| - 1], k);
      CleanIsSettled(g, load, k);
      ReachedIsVisited(g, load, s, rs[|rs| - 1], v);
    }
    if Visited(s, v) {
      assert s.infos[v].visited;
    }
  }

  // ----- the numbers follow the order -----

  /** Among the images visited so far the order is that of the numbers. */
  ghost predicate NumberedInTurn(g: Graph, load: nat, s: Walk) {
    forall x: nat, y: nat :: Visited(s, x) && Visited(s, y) && StandsBefore(g, load, x, y) ==>
      Order(s.infos, x) < Order(s.infos, y)
  }

  lemma {:induction false} SettledMarks(g: Graph, load: nat, s: Walk)
    requires Settled(g, load, s)
    ensures Marks(g, {}, s)
  {
    forall v: nat, w: nat | Visited(s, v) && Edge(g, v, w, false) ensures Visited(s, w) {
      assert !OnStack(s, v) && Finished(s, v);
      assert Before(g, s, w, v);
    }
  }

  lemma {:induction false} FirstInTurn(g: Graph, load: nat)
    requires WellFormed(g) && load < |g| && Clean(g, load, 0)
    ensures NumberedInTurn(g, load, Sweep(g, load, 0))
  {
    var s, r := Start(g), Sweep(g, load, 0);
    assert Marks(g, {}, s);
    VisitRanks(g, {}, load, s);
    forall x: nat, y: nat | Visited(r, x) && Visited(r, y) && StandsBefore(g, load, x, y)
      ensures Order(r.infos, x) < Order(r.infos, y)
    {
      VisitedByExactly(g, load, 0, x);
      VisitedByExactly(g, load, 0, y);
      var n: nat, m: nat :| BeforeInRounds(g, load, x, n, y, m);
      RoundIs(g, load, x, n, 0);
      RoundIs(g, load, y, m, 0);
      assert New(s, r, x) && New(s, r, y);
    }
  }

  ghost predicate VisitedBelow(g: Graph, load: nat, k: nat, s: Walk) {
    forall v: nat :: Visited(s, v) <==> VisitsBelow(g, load, v, k)
  }

  /** A pass over image k that visits it: what is new is of round k + 1. */
  ghost predicate PassAdds(g: Graph, load: nat, k: nat, s: Walk, r: Walk) {
    && Ranked(g, {}, k, s, r)
    && (forall v: nat :: Visited(s, v) ==> Order(s.infos, v) < s.next)
    && VisitedBelow(g, load, k, s) && VisitedBelow(g, load, k + 1, r)
  }

  lemma {:induction false} PassInTurn(g: Graph, load: nat, k: nat, s: Walk, r: Walk, x: nat, y: nat)
    requires PassAdds(g, load, k, s, r) && NumberedInTurn(g, load, s)
    requires Visited(r, x) && Visited(r, y) && StandsBefore(g, load, x, y)
    ensures Order(r.infos, x) < Order(r.infos, y)
  {
    var n: nat, m: nat :| BeforeInRounds(g, load, x, n, y, m);
    RoundIs(g, load, x, n, k);
    RoundIs(g, load, y, m, k);
    RoundIs(g, load, x, n, k + 1);
    RoundIs(g, load, y, m, k + 1);
    if Visited(s, x) {
      if !Visited(s, y) {
        assert New(s, r, y);
      }
    } else {
      assert New(s, r, x) && New(s, r, y);
    }
  }

  lemma {:induction false} NextInTurn(g: Graph, load: nat, k: nat)
    requires WellFormed(g) && load < |g| && k < |g| && Clean(g, load, k + 1) && NumberedInTurn(g, load, Sweep(g, load, k))
    ensures NumberedInTurn(g, load, Sweep(g, load, k + 1))
  {
    var s, r := Sweep(g, load, k), Sweep(g, load, k + 1);
    SweepIsPassed(g, load, k + 1);
    if !s.infos[k].visited && s.infos[k].danglingUpward {
      PassIsAdding(g, load, k, s, r);
      forall x: nat, y: nat | Visited(r, x) && Visited(r, y) && StandsBefore(g, load, x, y)
        ensures Order(r.infos, x) < Order(r.infos, y)
      {
        PassInTurn(g, load, k, s, r, x, y);
      }
    }
  }

  lemma {:induction false} PassRanks(g: Graph, load: nat, k: nat, s: Walk)
    requires WellFormed(g) && k < |g| && Settled(g, load, s) && !s.infos[k].visited && !Visit(g, k, s).hasError
    ensures Ranked(g, {}, k, s, Visit(g, k, s))
    ensures forall v: nat :: Visited(s, v) ==> Order(s.infos, v) < s.next
  {
    SettledMarks(g, load, s);
    VisitRanks(g, {}, k, s);
  }

  lemma {:induction false} CleanIsVisitedBelow(g: Graph, load: nat, k: nat)
    requires WellFormed(g) && load < |g| && k <= |g| && Clean(g, load, k)
    ensures VisitedBelow(g, load, k, Sweep(g, load, k))
  {
    forall v: nat ensures Visited(Sweep(g, load, k), v) <==> VisitsBelow(g, load, v, k) {
      VisitedByExactly(g, load, k, v);
    }
  }

  lemma {:induction false} PassIsAdding(g: Graph, load: nat, k: nat, s: Walk, r: Walk)
    requires WellFormed(g) && load < |g| && k < |g| && Clean(g, load, k + 1)
    requires s == Sweep(g, load, k) && r == Sweep(g, load, k + 1) == Visit(g, k, s) && !s.infos[k].visited
    ensures PassAdds(g, load, k, s, r)
  {
    CleanIsSettled(g, load, k);
    CleanIsVisitedBelow(g, load, k);
    CleanIsVisitedBelow(g, load, k + 1);
    PassRanks(g, load, k, s);
  }

  lemma {:induction false} SweepInTurn(g: Graph, load: nat, k: nat)
    requires WellFormed(g) && load < |g| && k <= |g| && Clean(g, load, k)
    ensures NumberedInTurn(g, load, Sweep(g, load, k))
  {
    if k == 0 {
      FirstInTurn(g, load);
    } else {
      SweepInTurn(g, load, k - 1);
      NextInTurn(g, load, k - 1);
    }
  }

  // ----- every two images have an order -----

  lemma {:induction false} SoonerIntro(g: Graph, around: set<nat>, u: nat, i: nat, j: nat, x: nat, y: nat)
    requires u < |g| && u !in around && x != u && TurnFor(g, around + {u}, u, i, j, x, y)
    ensures Sooner(g, around, u, x, y)
  {
    assert FirstVia(g, around + {u}, u, i, x) && FirstVia(g, around + {u}, u, j, y);
  }

  lemma {:induction false} SoonerTotal(g: Graph, around: set<nat>, u: nat, x: nat, y: nat)
    requires WellFormed(g) && u < |g| && u !in around && x != y && Outside(g, around, u, x) && Outside(g, around, u, y)
    ensures Sooner(g, around, u, x, y) || Sooner(g, around, u, y, x)
    decreases Rest(g, around)
  {
    if x != u && y != u {
      var here := around + {u};
      var i' := OutsideLeaves(g, around, u, x);
      var j' := OutsideLeaves(g, around, u, y);
      var i := FirstOfVia(g, here, u, i', x);
      var j := FirstOfVia(g, here, u, j', y);
      if i == j {
        var d := g[u].dependents[i].image;
        OutsideStarts(g, here, d, x);
        RestShrinks(g, around, u);
        SoonerTotal(g, here, d, x, y);
        if Sooner(g, here, d, x, y) {
          SoonerIntro(g, around, u, i, j, x, y);
        } else {
          SoonerIntro(g, around, u, j, i, y, x);
        }
      } else if i < j {
        SoonerIntro(g, around, u, i, j, x, y);
      } else {
        SoonerIntro(g, around, u, j, i, y, x);
      }
    }
  }

  lemma {:induction false} OutsideStarts(g: Graph, around: set<nat>, x: nat, y: nat)
    requires Outside(g, around, x, y)
    ensures x !in around
  {
  }

  lemma {:induction false} SoonerOneWay(g: Graph, around: set<nat>, u: nat, x: nat, y: nat)
    requires Sooner(g, around, u, x, y)
    ensures !Sooner(g, around, u, y, x)
    decreases Rest(g, around)
  {
    if Sooner(g, around, u, y, x) {
      var i, j := SoonerTurns(g, around, u, x, y);
      var j', i' := SoonerTurns(g, around, u, y, x);
      FirstViaIs(g, around + {u}, u, i, i', x);
      FirstViaIs(g, around + {u}, u, j, j', y);
      RestShrinks(g, around, u);
      SoonerOneWay(g, around + {u}, g[u].dependents[i].image, x, y);
    }
  }

  lemma {:induction false} StandsOneWay(g: Graph, load: nat, x: nat, y: nat)
    requires StandsBefore(g, load, x, y)
    ensures !StandsBefore(g, load, y, x)
  {
    if StandsBefore(g, load, y, x) {
      var n: nat, m: nat :| BeforeInRounds(g, load, x, n, y, m);
      var k: nat, l: nat :| BeforeInRounds(g, load, y, k, x, l);
      RoundsOneWay(g, load, x, n, y, m, k, l);
    }
  }

  lemma {:induction false} RoundsOneWay(g: Graph, load: nat, x: nat, n: nat, y: nat, m: nat, k: nat, l: nat)
    requires BeforeInRounds(g, load, x, n, y, m)
    ensures !BeforeInRounds(g, load, y, k, x, l)
  {
    if BeforeInRounds(g, load, y, k, x, l) {
      OneRound(g, load, x, n, l);
      OneRound(g, load, y, m, k);
      SoonerOneWay(g, {}, RootOf(load, n), x, y);
    }
  }

  lemma {:induction false} RoundsEnd(g: Graph, load: nat, v: nat)
    requires WellFormed(g) && load < |g| && Visits(g, load, v)
    ensures VisitsBelow(g, load, v, |g|)
  {
    var rs: seq<nat> :| FromRoots(g, load, rs, v);
    RootIsBelow(g, load, rs);
  }

  lemma {:induction false} StandsTotal(g: Graph, load: nat, x: nat, y: nat)
    requires WellFormed(g) && load < |g| && x != y && Visits(g, load, x) && Visits(g, load, y)
    ensures StandsBefore(g, load, x, y) || StandsBefore(g, load, y, x)
  {
    RoundsEnd(g, load, x);
    RoundsEnd(g, load, y);
    var n := HasRound(g, load, x, |g|);
    var m := HasRound(g, load, y, |g|);
    if n == m {
      RoundReaches(g, load, x, n);
      RoundReaches(g, load, y, n);
      SoonerTotal(g, {}, RootOf(load, n), x, y);
    }
    assert BeforeInRounds(g, load, x, n, y, m) || BeforeInRounds(g, load, y, m, x, n);
  }

  // ----- the list -----

  /** The list has exactly the images with initializers that roots reach, each once, in that order. */
  ghost predicate IsList(g: Graph, load: nat, list: seq<nat>) {
    && Distinct(list)
    && (forall v: nat :: v in list <==> v < |g| && g[v].hasInits && Visits(g, load, v))
    && (forall a, b :: 0 <= a < b < |list| ==> StandsBefore(g, load, list[a], list[b]))
  }

  lemma {:induction false} ListInTurn(g: Graph, load: nat, list: seq<nat>, a: nat, b: nat)
    requires WellFormed(g) && load < |g| && IsValid(g, load) && IsInitList(g, Sweep(g, load, |g|), list) && a < b < |list|
    ensures StandsBefore(g, load, list[a], list[b])
  {
    var s, x, y := Sweep(g, load, |g|), list[a], list[b];
    assert x in list && y in list;
    InitListContents(g, load, list, x);
    InitListContents(g, load, list, y);
    StandsTotal(g, load, x, y);
    if StandsBefore(g, load, y, x) {
      ValidIsClean(g, load, |g|);
      SweepInTurn(g, load, |g|);
      assert Visited(s, x) && Visited(s, y);
    }
  }

  /** The list that is computed, or its absence, in terms of the graph alone. */
  method InitList(g: Graph, load: nat) returns (valid: bool, list: seq<nat>)
    requires WellFormed(g) && load < |g|
    ensures valid <==> forall v: nat :: v < |g| && g[v].isBadImage ==> !Visits(g, load, v)
    ensures valid ==> IsList(g, load, list)
  {
    valid, list := ComputeInitOrder(g, load);
    InvalidMeansBad(g, load);
    if valid {
      forall v: nat ensures v in list <==> v < |g| && g[v].hasInits && Visits(g, load, v) {
        InitListContents(g, load, list, v);
      }
      forall a, b | 0 <= a < b < |list| ensures StandsBefore(g, load, list[a], list[b]) {
        ListInTurn(g, load, list, a, b);
      }
    }
  }

  // ----- the dependents of an image, one after the other -----

  /** Non-upward links lead from the k-th dependent of u to y. */
  ghost predicate Below(g: Graph, u: nat, k: nat, y: nat) {
    && u < |g| && k < |g[u].dependents| && g[u].dependents[k].Dependent? && !g[u].dependents[k].upward
    && Reach(g, g[u].dependents[k].image, y, false)
  }

  /** u is not on a cycle. */
  ghost predicate NoWayBack(g: Graph, u: nat) { forall k: nat :: !Below(g, u, k, u) }

  lemma {:induction false} OutsideIsReach(g: Graph, around: set<nat>, x: nat, y: nat)
    requires Outside(g, around, x, y)
    ensures Reach(g, x, y, false)
  {
    var p: seq<nat> :| IsOutside(g, around, p) && p[0] == x && p[|p| - 1] == y;
  }

  lemma {:induction false} PathPart(g: Graph, around: set<nat>, p: seq<nat>, m: nat)
    requires IsOutside(g, around, p) && m < |p|
    ensures Outside(g, around, p[0], p[m]) && Outside(g, around, p[m], p[|p| - 1])
  {
    var q, r := p[..m + 1], p[m..];
    forall k | 0 <= k < |r| - 1 ensures Edge(g, r[k], r[k + 1], false) {
      assert Edge(g, p[m + k], p[m + k + 1], false);
    }
    assert IsOutside(g, around, q) && q[0] == p[0] && q[|q| - 1] == p[m];
    assert IsOutside(g, around, r) && r[0] == p[m] && r[|r| - 1] == p[|p| - 1];
  }

  lemma {:induction false} OutsideTrans(g: Graph, around: set<nat>, x: nat, y: nat, z: nat)
    requires Outside(g, around, x, y) && Outside(g, around, y, z)
    ensures Outside(g, around, x, z)
  {
    var p: seq<nat> :| IsOutside(g, around, p) && p[0] == x && p[|p| - 1] == y;
    var q: seq<nat> :| IsOutside(g, around, q) && q[0] == y && q[|q| - 1] == z;
    var r := p + q[1..];
    forall k | 0 <= k < |r| - 1 ensures Edge(g, r[k], r[k + 1], false) {
      if k < |p| - 1 {
        assert Edge(g, p[k], p[k + 1], false);
      } else {
        var n := k - (|p| - 1);
        assert Edge(g, q[n], q[n + 1], false);
      }
    }
    assert IsOutside(g, around, r) && r[0] == x && r[|r| - 1] == z;
  }

  lemma {:induction false} NotBack(g: Graph, u: nat, k: nat, y: nat)
    requires NoWayBack(g, u) && Below(g, u, k, y)
    ensures !Reach(g, y, u, false)
  {
    assert !Below(g, u, k, u);
    if Reach(g, y, u, false) {
      ReachTrans(g, g[u].dependents[k].image, y, u, false);
    }
  }

  /** The images that u leads to are reached around everything that leads to u. */
  lemma {:induction false} BelowIsVia(g: Graph, around: set<nat>, u: nat, k: nat, y: nat)
    requires Below(g, u, k, y) && NoWayBack(g, u) && u !in around && forall a: nat :: a in around ==> Reach(g, a, u, false)
    ensures Via(g, around + {u}, u, k, y) && y != u
  {
    var d := g[u].dependents[k].image;
    var p: seq<nat> :| IsPath(g, p, false) && p[0] == d && p[|p| - 1] == y;
    assert IsOutside(g, {}, p);
    forall m | 0 <= m < |p| ensures p[m] !in around + {u} {
      PathPart(g, {}, p, m);
      OutsideIsReach(g, {}, d, p[m]);
      NotBack(g, u, k, p[m]);
      ReachSelf(g, u, false);
    }
    assert IsOutside(g, around + {u}, p);
  }

  /** No way leads from u back to it, its i-th dependent leads to x, and of its dependents only ones behind the i-th lead to y. */
  ghost predicate InTurnAt(g: Graph, u: nat, i: nat, j: nat, x: nat, y: nat) {
    && NoWayBack(g, u) && Below(g, u, i, x) && Below(g, u, j, y)
    && forall k: nat :: k <= i ==> !Below(g, u, k, y)
  }

  lemma {:induction false} SoonerHere(g: Graph, around: set<nat>, u: nat, i: nat, j: nat, x: nat, y: nat)
    requires InTurnAt(g, u, i, j, x, y) && u !in around && forall a: nat :: a in around ==> Reach(g, a, u, false)
    ensures Sooner(g, around, u, x, y)
  {
    BelowIsVia(g, around, u, i, x);
    BelowIsVia(g, around, u, j, y);
    var i1 := FirstOfVia(g, around + {u}, u, i, x);
    var j1 := FirstOfVia(g, around + {u}, u, j, y);
    OutsideIsReach(g, around + {u}, g[u].dependents[j1].image, y);
    assert Below(g, u, j1, y);
    SoonerIntro(g, around, u, i1, j1, x, y);
  }

  lemma {:induction false} StaysOutside(g: Graph, around: set<nat>, p: seq<nat>, u: nat)
    requires IsOutside(g, around, p) && forall m: nat :: m < |p| ==> p[m] != u
    ensures Outside(g, {u}, p[0], p[|p| - 1])
  {
    assert IsOutside(g, {u}, p);
  }

  lemma {:induction false} WayLeadsOver(g: Graph, around: set<nat>, u: nat, x: nat, y: nat)
    requires Outside(g, around, x, y) && !Outside(g, {u}, x, y)
    ensures Outside(g, around, x, u)
  {
    var p: seq<nat> :| IsOutside(g, around, p) && p[0] == x && p[|p| - 1] == y;
    if forall m: nat :: m < |p| ==> p[m] != u {
      StaysOutside(g, around, p, u);
    } else {
      var m: nat :| m < |p| && p[m] == u;
      PathPart(g, around, p, m);
    }
  }

  /** Coming to u from w: x and y lie behind the images on the way. */
  lemma {:induction false} BehindTheWay(g: Graph, w: nat, u: nat, k: nat, y: nat)
    requires Below(g, u, k, y) && NoWayBack(g, u) && Reach(g, w, u, false)
    ensures y != w
  {
    NotBack(g, u, k, y);
  }

  lemma {:induction false} WayOn(g: Graph, u: nat, w: nat, j: nat, y: nat)
    requires WellFormed(g) && w != u && !Outside(g, {u}, w, y) && Via(g, {w}, w, j, y)
    ensures !Outside(g, {u}, g[w].dependents[j].image, y)
  {
    var c := g[w].dependents[j].image;
    if Outside(g, {u}, c, y) {
      assert IsLinkTo(g[w].dependents[j], c, false) && Edge(g, w, c, false);
      assert IsOutside(g, {u}, [w, c]) by {
        OutsideStarts(g, {u}, c, y);
      }
      assert Outside(g, {u}, w, c) by {
        assert [w, c][0] == w && [w, c][|[w, c]| - 1] == c;
      }
      OutsideTrans(g, {u}, w, c, y);
    }
  }

  lemma {:induction false} SoonerThrough(g: Graph, around: set<nat>, w: nat, u: nat, i: nat, j: nat, x: nat, y: nat)
    requires WellFormed(g) && w < |g| && w !in around && Outside(g, around, w, u) && !Outside(g, {u}, w, y)
    requires InTurnAt(g, u, i, j, x, y) && forall a: nat :: a in around ==> Reach(g, a, u, false)
    ensures Sooner(g, around, w, x, y)
    decreases Rest(g, around)
  {
    if w == u {
      SoonerHere(g, around, u, i, j, x, y);
    } else {
      var here := around + {w};
      var i1, j1 := BothWays(g, around, w, u, i, j, x, y);
      if i1 == j1 {
        RestShrinks(g, around, w);
        SoonerThrough(g, here, g[w].dependents[j1].image, u, i, j, x, y);
      }
      SoonerIntro(g, around, w, i1, j1, x, y);
    }
  }

  /** On the way to u, the dependent that first leads to y also leads to u, and so to x. */
  lemma {:induction false} BothWays(g: Graph, around: set<nat>, w: nat, u: nat, i: nat, j: nat, x: nat, y: nat)
    returns (i1: nat, j1: nat)
    requires WellFormed(g) && w < |g| && w !in around && w != u && Outside(g, around, w, u) && !Outside(g, {u}, w, y)
    requires InTurnAt(g, u, i, j, x, y) && forall a: nat :: a in around ==> Reach(g, a, u, false)
    ensures x != w && y != w && i1 <= j1 && FirstVia(g, around + {w}, w, i1, x) && FirstVia(g, around + {w}, w, j1, y)
    ensures var c := g[w].dependents[j1].image;
      && c < |g| && c !in around + {w} && Outside(g, around + {w}, c, u) && !Outside(g, {u}, c, y)
    ensures forall a: nat :: a in around + {w} ==> Reach(g, a, u, false)
  {
    var here := around + {w};
    OutsideIsReach(g, around, w, u);
    OutsideEnds(g, around, w, u);
    BehindTheWay(g, w, u, i, x);
    BehindTheWay(g, w, u, j, y);
    BelowIsVia(g, around, u, j, y);
    ViaIsOutside(g, around, u, j, y);
    OutsideTrans(g, around, w, u, y);
    var j' := OutsideLeaves(g, around, w, y);
    j1 := FirstOfVia(g, here, w, j', y);
    var c := g[w].dependents[j1].image;
    ViaOfLess(g, {w}, here, w, j1, y);
    WayOn(g, u, w, j1, y);
    WayLeadsOver(g, here, u, c, y);
    OutsideStarts(g, here, c, u);
    OutsideEnds(g, here, c, u);
    BelowIsVia(g, here, u, i, x);
    ViaIsOutside(g, here, u, i, x);
    OutsideTrans(g, here, c, u, x);
    assert Via(g, here, w, j1, x);
    i1 := FirstOfVia(g, here, w, j1, x);
  }

  lemma {:induction false} OutsideEnds(g: Graph, around: set<nat>, x: nat, y: nat)
    requires Outside(g, around, x, y)
    ensures y !in around
  {
  }

  lemma {:induction false} ViaOfLess(g: Graph, a: set<nat>, b: set<nat>, u: nat, i: nat, y: nat)
    requires a <= b && Via(g, b, u, i, y)
    ensures Via(g, a, u, i, y)
  {
    var p: seq<nat> :| IsOutside(g, b, p) && p[0] == g[u].dependents[i].image && p[|p| - 1] == y;
    assert IsOutside(g, a, p);
  }

  lemma {:induction false} LoadRound(g: Graph, load: nat, v: nat)
    ensures InRound(g, load, v, 0) <==> Reach(g, load, v, false)
  {
    if Reach(g, load, v, false) {
      assert FromRoots(g, load, [load], v);
    }
    if InRound(g, load, v, 0) {
      RoundReaches(g, load, v, 0);
    }
  }

  lemma {:induction false} StandsInList(g: Graph, load: nat, list: seq<nat>, a: nat, b: nat)
    requires IsList(g, load, list) && a < |list| && b < |list| && list[a] != list[b]
    requires StandsBefore(g, load, list[a], list[b])
    ensures a < b
  {
    StandsOneWay(g, load, list[a], list[b]);
  }

  /**
   The dependents of an image that is on no cycle are taken in their order: what an
   earlier one leads to comes before what only later ones lead to and is not
   reached around the image.
   */
  lemma {:induction false} DependentsInTurn(g: Graph, load: nat, list: seq<nat>, a: nat, b: nat, u: nat, i: nat, j: nat)
    requires WellFormed(g) && load < |g| && IsList(g, load, list) && a < |list| && b < |list|
    requires Reach(g, load, u, false) && InTurnAt(g, u, i, j, list[a], list[b])
    requires !Outside(g, {u}, load, list[b])
    ensures a < b
  {
    var x, y := list[a], list[b];
    var p: seq<nat> :| IsPath(g, p, false) && p[0] == load && p[|p| - 1] == u;
    assert IsOutside(g, {}, p);
    assert Below(g, u, i, x) && !Below(g, u, i, y);
    SoonerThrough(g, {}, load, u, i, j, x, y);
    BelowIsVia(g, {}, u, i, x);
    ViaIsOutside(g, {}, u, i, x);
    OutsideTrans(g, {}, load, u, x);
    OutsideIsReach(g, {}, load, x);
    BelowIsVia(g, {}, u, j, y);
    ViaIsOutside(g, {}, u, j, y);
    OutsideTrans(g, {}, load, u, y);
    OutsideIsReach(g, {}, load, y);
    LoadRound(g, load, x);
    LoadRound(g, load, y);
    assert BeforeInRounds(g, load, x, 0, y, 0);
    StandsInList(g, load, list, a, b);
  }

  /** So, above all, are those of the loaded image. */
  lemma {:induction false} LoadDependentsInTurn(g: Graph, load: nat, list: seq<nat>, a: nat, b: nat, i: nat, j: nat)
    requires WellFormed(g) && load < |g| && IsList(g, load, list) && a < |list| && b < |list|
    requires InTurnAt(g, load, i, j, list[a], list[b])
    ensures a < b
  {
    ReachSelf(g, load, false);
    if Outside(g, {load}, load, list[b]) {
      OutsideStarts(g, {load}, load, list[b]);
    }
    DependentsInTurn(g, load, list, a, b, load, i, j);
  }

  /** What only upward links lead to stands behind everything that other links reach. */
  lemma {:induction false} UpwardLast(g: Graph, load: nat, list: seq<nat>, a: nat, b: nat)
    requires WellFormed(g) && load < |g| && IsList(g, load, list) && a < |list| && b < |list|
    requires Reach(g, load, list[a], false) && !Reach(g, load, list[b], false)
    ensures a < b
  {
    var x, y := list[a], list[b];
    assert y in list;
    RoundsEnd(g, load, y);
    var m := HasRound(g, load, y, |g|);
    LoadRound(g, load, x);
    LoadRound(g, load, y);
    assert BeforeInRounds(g, load, x, 0, y, m);
    StandsInList(g, load, list, a, b);
  }
}
