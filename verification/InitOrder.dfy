/**
 Initializer order: a depth-first walk of the dependency graph that numbers the
 images bottom up, ignoring upward links except to remember images that only
 those reach.
 */
module InitOrder {
  import opened Lists

  /** A dependent is a missing weak library or another loaded image. */
  datatype Dependent = MissingWeak | Dependent(image: nat, upward: bool)

  datatype ImageNode = ImageNode(dependents: seq<Dependent>, isBadImage: bool, hasInits: bool)

  type Graph = seq<ImageNode>

  /** Every dependent that is not missing is a loaded image. */
  ghost predicate WellFormed(g: Graph) {
    forall u, i {:trigger g[u].dependents[i]} :: 0 <= u < |g| && 0 <= i < |g[u].dependents| ==>
      g[u].dependents[i].Dependent? ==> g[u].dependents[i].image < |g|
  }

  datatype InitInfo = InitInfo(initOrder: nat, danglingUpward: bool, visited: bool)

  /** The walk's state: the marks, the next number to give, and whether a bad image was met. */
  datatype Walk = Walk(infos: seq<InitInfo>, next: nat, hasError: bool)

  ghost function Unvisited(infos: seq<InitInfo>): set<nat> {
    set i: nat | i < |infos| && !infos[i].visited
  }

  // ----- specification of the walk -----

  ghost predicate Grows(s: Walk, r: Walk) {
    && |r.infos| == |s.infos|
    && forall i :: 0 <= i < |s.infos| && s.infos[i].visited ==> r.infos[i].visited
  }

  lemma {:induction false} GrowsShrinks(s: Walk, r: Walk)
    requires Grows(s, r)
    ensures Unvisited(r.infos) <= Unvisited(s.infos)
    ensures |Unvisited(r.infos)| <= |Unvisited(s.infos)|
  {
    SubsetSize(Unvisited(r.infos), Unvisited(s.infos));
  }

  ghost function Mark(s: Walk, u: nat): (r: Walk)
    requires u < |s.infos| && !s.infos[u].visited
    ensures Grows(s, r) && |Unvisited(r.infos)| < |Unvisited(s.infos)|
  {
    var r := s.(infos := s.infos[u := s.infos[u].(visited := true, danglingUpward := false)]);
    assert Unvisited(r.infos) == Unvisited(s.infos) - {u};
    r
  }

  /** `depthFirstRecurseSetInitInfo`. */
  ghost function Visit(g: Graph, u: nat, s: Walk): (r: Walk)
    requires WellFormed(g) && u < |g| == |s.infos|
    ensures Grows(s, r)
    decreases |Unvisited(s.infos)|, 0, 0
  {
    if s.infos[u].visited then s
    else if g[u].isBadImage then Mark(s, u).(hasError := true)
    else
      var (r, stopped) := VisitDependents(g, u, 0, Mark(s, u));
      if stopped then r else Numbered(r, u)
  }

  ghost function Numbered(s: Walk, u: nat): Walk
    requires u < |s.infos|
  {
    Walk(s.infos[u := s.infos[u].(initOrder := s.next)], s.next + 1, s.hasError)
  }

  predicate LinksDown(d: Dependent) { d.Dependent? && !d.upward }
  predicate LinksUp(d: Dependent) { d.Dependent? && d.upward }

  ghost function Dangle(s: Walk, v: nat): (r: Walk)
    requires v < |s.infos|
    ensures Grows(s, r)
  {
    if s.infos[v].visited then s else s.(infos := s.infos[v := s.infos[v].(danglingUpward := true)])
  }

  /** The loop over the dependents, and whether it returned early. */
  ghost function VisitDependents(g: Graph, u: nat, i: nat, s: Walk): (r: (Walk, bool))
    requires WellFormed(g) && u < |g| == |s.infos| && i <= |g[u].dependents|
    ensures Grows(s, r.0)
    decreases |Unvisited(s.infos)|, 1, |g[u].dependents| - i
  {
    if i == |g[u].dependents| then (s, false)
    else
      var d := g[u].dependents[i];
      if d.MissingWeak? then VisitDependents(g, u, i + 1, s)
      else if d.upward then
        GrowsShrinks(s, Dangle(s, d.image));
        VisitDependents(g, u, i + 1, Dangle(s, d.image))
      else
        var r := Visit(g, d.image, s);
        GrowsShrinks(s, r);
        if r.hasError then (r, true) else VisitDependents(g, u, i + 1, r)
  }

  // ----- the walk in place -----

  method DepthFirst(g: Graph, u: nat, infos: array<InitInfo>, order: nat, error: bool) returns (order': nat, error': bool)
    requires WellFormed(g) && u < |g| == infos.Length
    modifies infos
    ensures Walk(infos[..], order', error') == Visit(g, u, Walk(old(infos[..]), order, error))
    decreases |Unvisited(infos[..])|
  {
    order', error' := order, error;
    if infos[u].visited {
      return;
    }
    ghost var marked := Mark(Walk(infos[..], order, error), u);
    infos[u] := infos[u].(visited := true, danglingUpward := false);
    assert infos[..] == marked.infos;
    if g[u].isBadImage {
      return order, true;
    }
    var i := 0;
    while i < |g[u].dependents|
      invariant 0 <= i <= |g[u].dependents|
      invariant Grows(marked, Walk(infos[..], order', error'))
      invariant VisitDependents(g, u, 0, marked) == VisitDependents(g, u, i, Walk(infos[..], order', error'))
    {
      var d := g[u].dependents[i];
      ghost var before := Walk(infos[..], order', error');
      if d.Dependent? {
        if d.upward {
          if !infos[d.image].visited {
            infos[d.image] := infos[d.image].(danglingUpward := true);
          }
          assert Walk(infos[..], order', error') == Dangle(before, d.image);
        } else {
          GrowsShrinks(marked, before);
          order', error' := DepthFirst(g, d.image, infos, order', error');
          if error' {
            return;
          }
        }
      }
      i := i + 1;
    }
    ghost var before := Walk(infos[..], order', error');
    infos[u] := infos[u].(initOrder := order');
    order' := order' + 1;
    assert Walk(infos[..], order', error') == Numbered(before, u);
  }

  // ----- the whole computation -----

  function Start(g: Graph): Walk { Walk(seq(|g|, _ => InitInfo(0, false, false)), 1, false) }

  /** The walk from the image, then from every image below k that only upward links have reached. */
  ghost function Sweep(g: Graph, load: nat, k: nat): (r: Walk)
    requires WellFormed(g) && load < |g| && k <= |g|
    ensures |r.infos| == |g|
  {
    if k == 0 then Visit(g, load, Start(g))
    else
      var s := Sweep(g, load, k - 1);
      if !s.infos[k - 1].visited && s.infos[k - 1].danglingUpward then Visit(g, k - 1, s) else s
  }

  /** No bad image was met, so the image gets an initializer list. */
  ghost predicate IsValid(g: Graph, load: nat)
    requires WellFormed(g) && load < |g|
  {
    !Sweep(g, load, 0).hasError && !Sweep(g, load, |g|).hasError
  }

  /** The list holds the visited images with initializers, by increasing number. */
  ghost predicate IsInitList(g: Graph, s: Walk, list: seq<nat>)
    requires |s.infos| == |g|
  {
    && Distinct(list)
    && (forall v: nat :: v in list <==> v < |g| && s.infos[v].visited && g[v].hasInits)
    && (forall i, j :: 0 <= i < j < |list| && list[i] < |g| && list[j] < |g| ==>
          s.infos[list[i]].initOrder <= s.infos[list[j]].initOrder)
  }

  /** `computeInitOrder`; `valid` is false where the writer is marked invalid. */
  method ComputeInitOrder(g: Graph, load: nat) returns (valid: bool, list: seq<nat>)
    requires WellFormed(g) && load < |g|
    ensures valid <==> IsValid(g, load)
    ensures valid ==> IsInitList(g, Sweep(g, load, |g|), list)
  {
    list := [];
    var infos := new InitInfo[|g|](_ => InitInfo(0, false, false));
    assert infos[..] == Start(g).infos;
    var order, error := DepthFirst(g, load, infos, 1, false);
    if error {
      return false, [];
    }
    var i := 0;
    while i < |g|
      invariant 0 <= i <= |g| && Walk(infos[..], order, error) == Sweep(g, load, i)
    {
      if !infos[i].visited && infos[i].danglingUpward {
        order, error := DepthFirst(g, i, infos, order, error);
      }
      i := i + 1;
    }
    if error {
      return false, [];
    }
    list := ImagesWithInits(g, infos[..]);
    valid := true;
  }

  /** The end of `computeInitOrder`: collects the images with initializers and sorts them. */
  method ImagesWithInits(g: Graph, infos: seq<InitInfo>) returns (list: seq<nat>)
    requires |infos| == |g|
    ensures forall next, error :: IsInitList(g, Walk(infos, next, error), list)
  {
    list := [];
    var index := 0;
    while index < |g|
      invariant 0 <= index <= |g| && Distinct(list)
      invariant forall v: nat :: v in list <==> v < index && infos[v].visited && g[v].hasInits
    {
      if infos[index].visited && g[index].hasInits {
        list := list + [index];
      }
      index := index + 1;
    }
    var indexOfImagesWithInits := new nat[|list|](k requires 0 <= k < |list| => list[k]);
    assert indexOfImagesWithInits[..] == list;
    ghost var unsorted := list;
    forall k | 0 <= k < |list| ensures list[k] < |g| {
      assert list[k] in list;
    }
    BubbleSort(indexOfImagesWithInits, infos);
    list := indexOfImagesWithInits[..];
    SameElements(unsorted, list);
  }

  lemma {:induction false} SameElements(a: seq<nat>, b: seq<nat>)
    requires multiset(a) == multiset(b) && Distinct(a)
    ensures Distinct(b) && forall v: nat :: v in a <==> v in b
  {
    forall v: nat ensures v in a <==> v in b {
      assert v in multiset(a) <==> v in multiset(b);
    }
    if !Distinct(b) {
      var i, j :| 0 <= i < j < |b| && b[i] == b[j];
      RepeatCounts(b, i, j);
      OnceCounts(a, b[i]);
      assert false;
    }
  }

  lemma {:induction false} RepeatCounts(s: seq<nat>, i: nat, j: nat)
    requires i < j < |s| && s[i] == s[j]
    ensures multiset(s)[s[i]] >= 2
  {
    assert s == s[..j] + [s[j]] + s[j + 1..];
    assert s[i] in s[..j];
  }

  lemma {:induction false} OnceCounts(s: seq<nat>, v: nat)
    requires Distinct(s)
    ensures multiset(s)[v] <= 1
  {
    if s != [] {
      var front := s[..|s| - 1];
      OnceCounts(front, v);
      assert s == front + [s[|s| - 1]];
      if v == s[|s| - 1] {
        assert v !in front;
      }
    }
  }

  function Order(infos: seq<InitInfo>, v: nat): nat { if v < |infos| then infos[v].initOrder else 0 }

  method Swap(a: array<nat>, i: nat, j: nat)
    requires i < j < a.Length
    modifies a
    ensures a[i] == old(a[j]) && a[j] == old(a[i])
    ensures forall k :: 0 <= k < a.Length && k != i && k != j ==> a[k] == old(a[k])
    ensures multiset(a[..]) == old(multiset(a[..]))
  {
    a[i], a[j] := a[j], a[i];
  }

  /** The positions from `from` on hold numbers in order, none below an earlier one. */
  ghost predicate SortedFrom(infos: seq<InitInfo>, s: seq<nat>, from: int) {
    forall p, q :: 0 <= p < q < |s| && from <= q ==> Order(infos, s[p]) <= Order(infos, s[q])
  }

  lemma {:induction false} SwapKeepsSorted(infos: seq<InitInfo>, s: seq<nat>, t: seq<nat>, j: nat, from: nat)
    requires j + 1 < from <= |s| && t == s[j := s[j + 1]][j + 1 := s[j]] && SortedFrom(infos, s, from)
    ensures SortedFrom(infos, t, from)
  {
    forall p, q | 0 <= p < q < |t| && from <= q ensures Order(infos, t[p]) <= Order(infos, t[q]) {
      var r := if p == j then j + 1 else if p == j + 1 then j else p;
      assert t[p] == s[r] && t[q] == s[q];
    }
  }

  /** Carries the greatest number among the first n to position n - 1. */
  method BubblePass(a: array<nat>, infos: seq<InitInfo>, n: nat)
    requires 0 < n <= a.Length && SortedFrom(infos, a[..], n)
    modifies a
    ensures multiset(a[..]) == old(multiset(a[..]))
    ensures SortedFrom(infos, a[..], n - 1)
  {
    var j := 0;
    while j < n - 1
      invariant 0 <= j <= n - 1
      invariant multiset(a[..]) == old(multiset(a[..]))
      invariant SortedFrom(infos, a[..], n)
      invariant forall p :: 0 <= p <= j ==> Order(infos, a[p]) <= Order(infos, a[j])
    {
      if Order(infos, a[j]) > Order(infos, a[j + 1]) {
        ghost var s := a[..];
        Swap(a, j, j + 1);
        SwapKeepsSorted(infos, s, a[..], j, n);
      }
      j := j + 1;
    }
  }

  /** The in-place sort of the list by number. */
  method BubbleSort(a: array<nat>, infos: seq<InitInfo>)
    modifies a
    ensures multiset(a[..]) == old(multiset(a[..]))
    ensures SortedFrom(infos, a[..], 0)
  {
    if a.Length > 1 {
      var i := 0;
      while i < a.Length - 1
        invariant 0 <= i <= a.Length - 1
        invariant multiset(a[..]) == old(multiset(a[..]))
        invariant SortedFrom(infos, a[..], a.Length - i)
      {
        BubblePass(a, infos, a.Length - i);
        i := i + 1;
      }
    }
  }
}
