/**
 In which order the initializers run: where the ways to two images part, the one
 that an earlier dependent leads to comes first, with everything it needs.
 */
module InitOrderTurns {
  import opened InitOrder
  import opened InitOrderProof

  // ----- the order, read off the graph -----

  ghost predicate IsOutside(g: Graph, around: set<nat>, p: seq<nat>) {
    IsPath(g, p, false) && forall k :: 0 <= k < |p| ==> p[k] !in around
  }

  /** Non-upward links lead from x to y around some images. */
  ghost predicate Outside(g: Graph, around: set<nat>, x: nat, y: nat) {
    exists p: seq<nat> :: IsOutside(g, around, p) && p[0] == x && p[|p| - 1] == y
  }

  /** The i-th dependent of u leads there. */
  ghost predicate Via(g: Graph, around: set<nat>, u: nat, i: nat, y: nat) {
    && u < |g| && i < |g[u].dependents| && g[u].dependents[i].Dependent? && !g[u].dependents[i].upward
    && Outside(g, around, g[u].dependents[i].image, y)
  }

  ghost predicate FirstVia(g: Graph, around: set<nat>, u: nat, i: nat, y: nat) {
    Via(g, around, u, i, y) && forall j: nat :: j < i ==> !Via(g, around, u, j, y)
  }

  function Rest(g: Graph, around: set<nat>): set<nat> { set v: nat | v < |g| && v !in around }

  lemma {:induction false} RestShrinks(g: Graph, around: set<nat>, u: nat)
    requires u < |g| && u !in around
    ensures Rest(g, around + {u}) < Rest(g, around)
  {
    assert u in Rest(g, around);
  }

  /**
   Coming from u, and not back to the images on the way here, x is done before y:
   it is not u itself, and an earlier dependent of u leads to x, or the same one
   does and x is done first there.
   */
  ghost predicate Sooner(g: Graph, around: set<nat>, u: nat, x: nat, y: nat)
    decreases Rest(g, around)
  {
    && u < |g| && u !in around && x != u
    && (y == u ||
        exists i: nat, j: nat :: FirstVia(g, around + {u}, u, i, x) && FirstVia(g, around + {u}, u, j, y)
          && (i < j || (i == j && (RestShrinks(g, around, u); Sooner(g, around + {u}, g[u].dependents[i].image, x, y)))))
  }

  // ----- ways around images -----

  lemma {:induction false} OutsideSelf(g: Graph, around: set<nat>, x: nat)
    requires x !in around
    ensures Outside(g, around, x, x)
  {
    assert IsOutside(g, around, [x]) && [x][0] == x;
  }

  lemma {:induction false} ViaIsOutside(g: Graph, around: set<nat>, u: nat, i: nat, y: nat)
    requires WellFormed(g) && u !in around && Via(g, around + {u}, u, i, y)
    ensures Outside(g, around, u, y)
  {
    var d := g[u].dependents[i].image;
    var p: seq<nat> :| IsOutside(g, around + {u}, p) && p[0] == d && p[|p| - 1] == y;
    var q := [u] + p;
    assert IsLinkTo(g[u].dependents[i], d, false) && Edge(g, u, d, false);
    forall k | 0 <= k < |q| - 1 ensures Edge(g, q[k], q[k + 1], false) {
      if k > 0 {
        assert Edge(g, p[k - 1], p[k - 1 + 1], false);
      }
    }
    assert IsOutside(g, around, q) && q[0] == u && q[|q| - 1] == y;
  }

  lemma {:induction false} PathLeaves(g: Graph, around: set<nat>, p: seq<nat>) returns (i: nat)
    requires WellFormed(g) && IsOutside(g, around, p) && p[|p| - 1] != p[0]
    ensures Via(g, around + {p[0]}, p[0], i, p[|p| - 1])
    decreases |p|
  {
    var u, rest := p[0], p[1..];
    if k :| 0 < k < |p| && p[k] == u {
      forall m | 0 <= m < |p[k..]| - 1 ensures Edge(g, p[k..][m], p[k..][m + 1], false) {
        assert Edge(g, p[k + m], p[k + m + 1], false);
      }
      i := PathLeaves(g, around, p[k..]);
    } else {
      assert Edge(g, p[0], p[0 + 1], false);
      i :| 0 <= i < |g[u].dependents| && IsLinkTo(g[u].dependents[i], p[1], false);
      forall m | 0 <= m < |rest| - 1 ensures Edge(g, rest[m], rest[m + 1], false) {
        assert Edge(g, p[m + 1], p[m + 1 + 1], false);
      }
      assert IsOutside(g, around + {u}, rest) && rest[0] == p[1] && rest[|rest| - 1] == p[|p| - 1];
    }
  }

  lemma {:induction false} OutsideLeaves(g: Graph, around: set<nat>, u: nat, y: nat) returns (i: nat)
    requires WellFormed(g) && Outside(g, around, u, y) && y != u
    ensures Via(g, around + {u}, u, i, y)
  {
    var p: seq<nat> :| IsOutside(g, around, p) && p[0] == u && p[|p| - 1] == y;
    i := PathLeaves(g, around, p);
  }

  lemma {:induction false} FirstOfVia(g: Graph, around: set<nat>, u: nat, i: nat, y: nat) returns (j: nat)
    requires Via(g, around, u, i, y)
    ensures j <= i && FirstVia(g, around, u, j, y)
  {
    if k: nat :| k < i && Via(g, around, u, k, y) {
      j := FirstOfVia(g, around, u, k, y);
    } else {
      j := i;
    }
  }

  // ----- the state of the walk -----

  ghost predicate Visited(s: Walk, v: nat) { v < |s.infos| && s.infos[v].visited }
  ghost predicate New(s: Walk, r: Walk, v: nat) { Visited(r, v) && !Visited(s, v) }

  /** The images the walk is inside of are marked, and what is marked besides has its dependents marked. */
  ghost predicate Marks(g: Graph, around: set<nat>, s: Walk) {
    && |s.infos| == |g| && (forall v :: v in around ==> Visited(s, v))
    && forall v: nat, w: nat :: Visited(s, v) && v !in around && Edge(g, v, w, false) ==> Visited(s, w)
  }

  /** Marks and numbers stay, and what is new has new numbers. */
  ghost predicate Ahead(s: Walk, r: Walk) {
    && |r.infos| == |s.infos| && s.next <= r.next
    && (forall v: nat :: Visited(s, v) ==> Visited(r, v) && Order(r.infos, v) == Order(s.infos, v))
    && (forall v: nat :: New(s, r, v) ==> s.next <= Order(r.infos, v) < r.next)
  }

  /** Everything that the first i dependents of u lead to is marked. */
  ghost predicate Followed(g: Graph, around: set<nat>, u: nat, i: nat, s: Walk) {
    forall j: nat, v: nat :: j < i && Via(g, around, u, j, v) ==> Visited(s, v)
  }

  /** The walk from u has marked what u leads to around the images it is inside of, and numbered it in turn. */
  ghost predicate Ranked(g: Graph, around: set<nat>, u: nat, s: Walk, r: Walk) {
    && Marks(g, around, r) && Ahead(s, r)
    && (forall v: nat :: New(s, r, v) ==> Outside(g, around, u, v))
    && (forall v: nat :: Outside(g, around, u, v) ==> Visited(r, v))
    && (forall x: nat, y: nat :: New(s, r, x) && New(s, r, y) && Sooner(g, around, u, x, y) ==>
          Order(r.infos, x) < Order(r.infos, y))
  }

  ghost predicate TurnFor(g: Graph, around: set<nat>, u: nat, i: nat, j: nat, x: nat, y: nat) {
    && FirstVia(g, around, u, i, x) && FirstVia(g, around, u, j, y)
    && (i < j || (i == j && Sooner(g, around, g[u].dependents[i].image, x, y)))
  }

  /** The loop over the dependents of u has done the same for them, one after the other. */
  ghost predicate LoopRanked(g: Graph, around: set<nat>, u: nat, s: Walk, r: Walk)
    requires u < |g|
  {
    && Marks(g, around, r) && Ahead(s, r) && Followed(g, around, u, |g[u].dependents|, r)
    && (forall v: nat :: New(s, r, v) ==> exists j: nat :: Via(g, around, u, j, v))
    && (forall i: nat, j: nat, x: nat, y: nat :: New(s, r, x) && New(s, r, y) && TurnFor(g, around, u, i, j, x, y) ==>
          Order(r.infos, x) < Order(r.infos, y))
  }

  lemma {:induction false} AheadTrans(a: Walk, b: Walk, c: Walk)
    requires Ahead(a, b) && Ahead(b, c)
    ensures Ahead(a, c)
  {
    forall v: nat | New(a, c, v) ensures a.next <= Order(c.infos, v) < c.next {
      assert Visited(b, v) ==> New(a, b, v);
      assert !Visited(b, v) ==> New(b, c, v);
    }
  }

  lemma {:induction false} MarkedPath(g: Graph, around: set<nat>, s: Walk, p: seq<nat>)
    requires Marks(g, around, s) && IsOutside(g, around, p) && Visited(s, p[0])
    ensures Visited(s, p[|p| - 1])
    decreases |p|
  {
    if |p| > 1 {
      MarkedPath(g, around, s, p[..|p| - 1]);
      assert Edge(g, p[|p| - 2], p[|p| - 2 + 1], false);
    }
  }

  /** Around the images the walk is inside of, marked images lead to marked ones only. */
  lemma {:induction false} MarkedLeadToMarked(g: Graph, around: set<nat>, s: Walk, x: nat, y: nat)
    requires Marks(g, around, s) && Visited(s, x) && Outside(g, around, x, y)
    ensures Visited(s, y)
  {
    var p: seq<nat> :| IsOutside(g, around, p) && p[0] == x && p[|p| - 1] == y;
    MarkedPath(g, around, s, p);
  }

  // ----- the walk takes the dependents in turn -----

  lemma {:induction false} StoppedMeansError(g: Graph, u: nat, i: nat, s: Walk)
    requires WellFormed(g) && u < |g| == |s.infos| && i <= |g[u].dependents|
    ensures VisitDependents(g, u, i, s).1 ==> VisitDependents(g, u, i, s).0.hasError
    decreases |g[u].dependents| - i
  {
    if i < |g[u].dependents| {
      var d := g[u].dependents[i];
      if d.MissingWeak? {
        StoppedMeansError(g, u, i + 1, s);
      } else if d.upward {
        StoppedMeansError(g, u, i + 1, Dangle(s, d.image));
      } else if !Visit(g, d.image, s).hasError {
        StoppedMeansError(g, u, i + 1, Visit(g, d.image, s));
      }
    }
  }

  /** The dependent i of u has been dealt with. */
  ghost predicate StepRanked(g: Graph, around: set<nat>, u: nat, i: nat, s: Walk, r: Walk)
    requires u < |g| && i < |g[u].dependents|
  {
    && Marks(g, around, r) && Ahead(s, r) && Followed(g, around, u, i + 1, r)
    && (forall v: nat :: New(s, r, v) ==> FirstVia(g, around, u, i, v))
    && (g[u].dependents[i].Dependent? ==>
          forall x: nat, y: nat :: New(s, r, x) && New(s, r, y) && Sooner(g, around, g[u].dependents[i].image, x, y) ==>
            Order(r.infos, x) < Order(r.infos, y))
  }

  ghost predicate SameMarks(s: Walk, r: Walk) {
    && |r.infos| == |s.infos| && r.next == s.next
    && forall v: nat :: v < |s.infos| ==>
         r.infos[v].visited == s.infos[v].visited && r.infos[v].initOrder == s.infos[v].initOrder
  }

  /** A dependent that is missing, linked upward, or marked already, changes no marks. */
  lemma {:induction false} IdleStep(g: Graph, around: set<nat>, u: nat, i: nat, s: Walk, r: Walk)
    requires u < |g| && i < |g[u].dependents| && Marks(g, around, s) && Followed(g, around, u, i, s) && SameMarks(s, r)
    requires LinksDown(g[u].dependents[i]) ==> Visited(s, g[u].dependents[i].image)
    ensures StepRanked(g, around, u, i, s, r)
  {
    forall v: nat ensures Visited(r, v) <==> Visited(s, v) {
    }
    forall j: nat, v: nat | j < i + 1 && Via(g, around, u, j, v) ensures Visited(r, v) {
      if j == i {
        MarkedLeadToMarked(g, around, s, g[u].dependents[i].image, v);
      }
    }
  }

  lemma {:induction false} WalkedStep(g: Graph, around: set<nat>, u: nat, i: nat, s: Walk, r: Walk)
    requires u < |g| && i < |g[u].dependents| && LinksDown(g[u].dependents[i]) && Followed(g, around, u, i, s)
    requires Ranked(g, around, g[u].dependents[i].image, s, r)
    ensures StepRanked(g, around, u, i, s, r)
  {
    forall j: nat, v: nat | j < i + 1 && Via(g, around, u, j, v) ensures Visited(r, v) {
      if j == i {
        assert Outside(g, around, g[u].dependents[i].image, v);
      } else {
        assert Visited(s, v);
      }
    }
    forall v: nat | New(s, r, v) ensures FirstVia(g, around, u, i, v) {
      assert Via(g, around, u, i, v);
    }
  }

  lemma {:induction false} FirstViaIs(g: Graph, around: set<nat>, u: nat, i: nat, j: nat, y: nat)
    requires FirstVia(g, around, u, i, y) && FirstVia(g, around, u, j, y)
    ensures i == j
  {
  }

  /** What the step marked comes before what the rest of the loop marks. */
  lemma {:induction false} StepThenLoop(g: Graph, around: set<nat>, u: nat, i: nat, s: Walk, m: Walk, r: Walk)
    requires u < |g| && i < |g[u].dependents|
    requires StepRanked(g, around, u, i, s, m) && LoopRanked(g, around, u, m, r)
    ensures LoopRanked(g, around, u, s, r)
  {
    AheadTrans(s, m, r);
    forall v: nat | New(s, r, v) ensures exists j: nat :: Via(g, around, u, j, v) {
      if Visited(m, v) {
        assert New(s, m, v) && Via(g, around, u, i, v);
      } else {
        assert New(m, r, v);
      }
    }
    forall j: nat, k: nat, x: nat, y: nat | New(s, r, x) && New(s, r, y) && TurnFor(g, around, u, j, k, x, y)
      ensures Order(r.infos, x) < Order(r.infos, y)
    {
      TurnHolds(g, around, u, i, s, m, r, j, k, x, y);
    }
  }

  lemma {:induction false} TurnHolds(g: Graph, around: set<nat>, u: nat, i: nat, s: Walk, m: Walk, r: Walk,
                                     j: nat, k: nat, x: nat, y: nat)
    requires u < |g| && i < |g[u].dependents|
    requires StepRanked(g, around, u, i, s, m) && LoopRanked(g, around, u, m, r)
    requires New(s, r, x) && New(s, r, y) && TurnFor(g, around, u, j, k, x, y)
    ensures Order(r.infos, x) < Order(r.infos, y)
  {
    if Visited(m, x) {
      assert New(s, m, x);
      FirstViaIs(g, around, u, i, j, x);
      if Visited(m, y) {
        assert New(s, m, y);
        FirstViaIs(g, around, u, i, k, y);
      } else {
        assert New(m, r, y);
      }
    } else {
      assert New(m, r, x);
      if Visited(m, y) {
        assert New(s, m, y);
        assert Via(g, around, u, j, x) && j > i;
        FirstViaIs(g, around, u, i, k, y);
      } else {
        assert New(m, r, y);
      }
    }
  }

  lemma {:induction false} VisitRanks(g: Graph, around: set<nat>, u: nat, s: Walk)
    requires WellFormed(g) && u < |g| && Marks(g, around, s) && !Visited(s, u) && !Visit(g, u, s).hasError
    ensures Ranked(g, around, u, s, Visit(g, u, s))
    decreases |Unvisited(s.infos)|, 0, 0
  {
    var m, here := Mark(s, u), around + {u};
    var (r, stopped) := VisitDependents(g, u, 0, m);
    StoppedMeansError(g, u, 0, m);
    MarkedIsReady(g, around, u, s);
    LoopRanks(g, here, u, 0, m);
    NumberRanks(g, around, u, s, r);
  }

  lemma {:induction false} LoopRanks(g: Graph, around: set<nat>, u: nat, i: nat, s: Walk)
    requires WellFormed(g) && u < |g| && i <= |g[u].dependents| && Marks(g, around, s) && Followed(g, around, u, i, s)
    requires !VisitDependents(g, u, i, s).0.hasError
    ensures LoopRanked(g, around, u, s, VisitDependents(g, u, i, s).0)
    decreases |Unvisited(s.infos)|, 1, |g[u].dependents| - i
  {
    if i < |g[u].dependents| {
      var d := g[u].dependents[i];
      if !LinksDown(d) {
        var m := if d.MissingWeak? then s else Dangle(s, d.image);
        GrowsShrinks(s, m);
        IdleStep(g, around, u, i, s, m);
        LoopRanks(g, around, u, i + 1, m);
        StepThenLoop(g, around, u, i, s, m, VisitDependents(g, u, i + 1, m).0);
      } else {
        var m := Visit(g, d.image, s);
        GrowsShrinks(s, m);
        if Visited(s, d.image) {
          IdleStep(g, around, u, i, s, m);
        } else {
          VisitRanks(g, around, d.image, s);
          WalkedStep(g, around, u, i, s, m);
        }
        LoopRanks(g, around, u, i + 1, m);
        StepThenLoop(g, around, u, i, s, m, VisitDependents(g, u, i + 1, m).0);
      }
    }
  }

  lemma {:induction false} MarkedIsReady(g: Graph, around: set<nat>, u: nat, s: Walk)
    requires u < |g| && Marks(g, around, s) && !Visited(s, u)
    ensures Marks(g, around + {u}, Mark(s, u))
  {
    var m := Mark(s, u);
    assert forall v: nat :: Visited(m, v) <==> Visited(s, v) || v == u;
  }

  /** Between the mark and the number of u: what is visited, and which numbers are given. */
  ghost predicate Between(u: nat, s: Walk, m: Walk, r: Walk, t: Walk) {
    && u < |s.infos| == |m.infos| == |r.infos| == |t.infos| && !Visited(s, u)
    && m.next == s.next && t.next == r.next + 1 && Order(t.infos, u) == r.next
    && (forall v: nat {:trigger Visited(m, v)} :: Visited(m, v) <==> Visited(s, v) || v == u)
    && (forall v: nat {:trigger Visited(t, v)} :: Visited(t, v) <==> Visited(r, v))
    && (forall v: nat {:trigger Order(t.infos, v)} :: v != u ==> Order(t.infos, v) == Order(r.infos, v))
    && (forall v: nat {:trigger Order(m.infos, v)} :: v != u ==> Order(m.infos, v) == Order(s.infos, v))
  }

  lemma {:induction false} IsBetween(u: nat, s: Walk, r: Walk)
    requires u < |s.infos| == |r.infos| && !Visited(s, u) && Visited(r, u)
    ensures Between(u, s, Mark(s, u), r, Numbered(r, u))
  {
  }

  lemma {:induction false} NumberMarks(g: Graph, around: set<nat>, u: nat, s: Walk, m: Walk, r: Walk, t: Walk)
    requires u < |g| && Marks(g, around, s) && Between(u, s, m, r, t) && LoopRanked(g, around + {u}, u, m, r)
    ensures Marks(g, around, t)
  {
    forall v: nat, w: nat | Visited(t, v) && v !in around && Edge(g, v, w, false) ensures Visited(t, w) {
      if v == u {
        EdgeIsFollowed(g, around, u, r, w);
      } else {
        assert Visited(r, v) && v !in around + {u};
      }
    }
  }

  lemma {:induction false} NumberIsAhead(g: Graph, around: set<nat>, u: nat, s: Walk, m: Walk, r: Walk, t: Walk)
    requires u < |g| && Between(u, s, m, r, t) && Ahead(m, r)
    ensures Ahead(s, t)
    ensures forall v: nat :: New(s, t, v) <==> v == u || New(m, r, v)
  {
    assert Visited(m, u);
    forall v: nat ensures New(s, t, v) <==> v == u || New(m, r, v) {
    }
    forall v: nat | Visited(s, v) ensures Visited(t, v) && Order(t.infos, v) == Order(s.infos, v) {
      assert Visited(m, v);
    }
  }

  lemma {:induction false} NumberReaches(g: Graph, around: set<nat>, u: nat, v: nat, m: Walk, r: Walk)
    requires WellFormed(g) && u < |g| && u !in around && LoopRanked(g, around + {u}, u, m, r) && Visited(m, u)
    ensures Outside(g, around, u, v) ==> Visited(r, v)
    ensures v == u || New(m, r, v) ==> Outside(g, around, u, v)
  {
    if v == u {
      OutsideSelf(g, around, u);
    } else if Outside(g, around, u, v) {
      var i := OutsideLeaves(g, around, u, v);
    } else if New(m, r, v) {
      var j: nat :| Via(g, around + {u}, u, j, v);
      ViaIsOutside(g, around, u, j, v);
    }
  }

  lemma {:induction false} SoonerTurns(g: Graph, around: set<nat>, u: nat, x: nat, y: nat) returns (i: nat, j: nat)
    requires Sooner(g, around, u, x, y) && y != u
    ensures TurnFor(g, around + {u}, u, i, j, x, y)
  {
    i, j :| FirstVia(g, around + {u}, u, i, x) && FirstVia(g, around + {u}, u, j, y)
      && (i < j || (i == j && (RestShrinks(g, around, u); Sooner(g, around + {u}, g[u].dependents[i].image, x, y))));
  }

  lemma {:induction false} NumberInTurn(g: Graph, around: set<nat>, u: nat, m: Walk, r: Walk, t: Walk, x: nat, y: nat)
    requires u < |g| && LoopRanked(g, around + {u}, u, m, r) && New(m, r, x) && New(m, r, y) && y != u
    requires Sooner(g, around, u, x, y)
    ensures Order(r.infos, x) < Order(r.infos, y)
  {
    var i, j := SoonerTurns(g, around, u, x, y);
    TurnIsKept(g, around + {u}, u, m, r, i, j, x, y);
  }

  lemma {:induction false} TurnIsKept(g: Graph, around: set<nat>, u: nat, m: Walk, r: Walk, i: nat, j: nat, x: nat, y: nat)
    requires u < |g| && LoopRanked(g, around, u, m, r) && New(m, r, x) && New(m, r, y) && TurnFor(g, around, u, i, j, x, y)
    ensures Order(r.infos, x) < Order(r.infos, y)
  {
  }

  /** When u gets its number, everything it leads to has one. */
  lemma {:induction false} NumberRanks(g: Graph, around: set<nat>, u: nat, s: Walk, r: Walk)
    requires WellFormed(g) && u < |g| && Marks(g, around, s) && !Visited(s, u)
    requires LoopRanked(g, around + {u}, u, Mark(s, u), r)
    ensures Ranked(g, around, u, s, Numbered(r, u))
  {
    var m, t := Mark(s, u), Numbered(r, u);
    assert Visited(m, u) && Visited(r, u);
    IsBetween(u, s, r);
    NumberMarks(g, around, u, s, m, r, t);
    NumberIsAhead(g, around, u, s, m, r, t);
    forall v: nat
      ensures New(s, t, v) ==> Outside(g, around, u, v)
      ensures Outside(g, around, u, v) ==> Visited(t, v)
    {
      NumberReaches(g, around, u, v, m, r);
    }
    forall x: nat, y: nat | New(s, t, x) && New(s, t, y) && Sooner(g, around, u, x, y)
      ensures Order(t.infos, x) < Order(t.infos, y)
    {
      NumberBefore(g, around, u, s, m, r, t, x, y);
    }
  }

  lemma {:induction false} NumberBefore(g: Graph, around: set<nat>, u: nat, s: Walk, m: Walk, r: Walk, t: Walk, x: nat, y: nat)
    requires u < |g| && Between(u, s, m, r, t) && LoopRanked(g, around + {u}, u, m, r)
    requires x != u && New(m, r, x) && (y == u || New(m, r, y)) && Sooner(g, around, u, x, y)
    ensures Order(t.infos, x) < Order(t.infos, y)
  {
    assert Order(t.infos, x) == Order(r.infos, x) < r.next;
    if y != u {
      NumberInTurn(g, around, u, m, r, t, x, y);
    }
  }

  lemma {:induction false} EdgeIsFollowed(g: Graph, around: set<nat>, u: nat, r: Walk, w: nat)
    requires u < |g| && Marks(g, around + {u}, r) && Followed(g, around + {u}, u, |g[u].dependents|, r) && Edge(g, u, w, false)
    ensures Visited(r, w)
  {
    if w !in around + {u} {
      var i :| 0 <= i < |g[u].dependents| && IsLinkTo(g[u].dependents[i], w, false);
      OutsideSelf(g, around + {u}, w);
      assert Via(g, around + {u}, u, i, w);
    }
  }
}
