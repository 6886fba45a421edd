/**
 Where the duplicates of a name stand in the array that all names share, and what
 is found there through an index of 23 bits.
 */
module ClassPositions {
  import opened HashTables
  import opened Lists

  const INDEX_LIMIT: nat := 0x80_0000

  /** Where a name occurs, from a position on. */
  function PositionsOf<K(==)>(names: seq<K>, name: K, from: nat): seq<nat>
    requires from <= |names|
    decreases |names| - from
  {
    if from == |names| then []
    else (if names[from] == name then [from] else []) + PositionsOf(names, name, from + 1)
  }

  lemma {:induction false} PositionIsOf<K>(names: seq<K>, name: K, from: nat, p: nat)
    requires from <= |names| && p in PositionsOf(names, name, from)
    ensures from <= p < |names| && names[p] == name
    decreases |names| - from
  {
    if names[from] != name || p != from {
      PositionIsOf(names, name, from + 1, p);
    }
  }

  lemma {:induction false} PositionsAreAll<K>(names: seq<K>, name: K, from: nat, i: nat)
    requires from <= i < |names| && names[i] == name
    ensures i in PositionsOf(names, name, from)
    decreases i - from
  {
    if from < i {
      PositionsAreAll(names, name, from + 1, i);
    }
  }

  lemma {:induction false} PositionsDistinct<K>(names: seq<K>, name: K, from: nat)
    requires from <= |names|
    ensures Distinct(PositionsOf(names, name, from))
    decreases |names| - from
  {
    if from < |names| {
      PositionsDistinct(names, name, from + 1);
      var rest := PositionsOf(names, name, from + 1);
      forall j | 0 <= j < |rest| ensures rest[j] != from {
        PositionIsOf(names, name, from + 1, rest[j]);
      }
    }
  }

  /** The duplicates that the i-th occurrence brings: all positions of its name, where that is first met. */
  ghost function Brought<K>(names: seq<K>, i: nat): seq<nat>
    requires i < |names|
  {
    var own := PositionsOf(names, names[i], 0);
    if FirstAt(names, i) && |own| != 1 then own else []
  }

  function Flattened(parts: seq<seq<nat>>, n: nat): seq<nat>
    requires n <= |parts|
  {
    if n == 0 then [] else Flattened(parts, n - 1) + parts[n - 1]
  }

  ghost function Parts<K>(names: seq<K>): seq<seq<nat>> {
    seq(|names|, i requires 0 <= i < |names| => Brought(names, i))
  }

  /** The duplicates, name by name as they are first met. */
  ghost function FlatPositions<K>(names: seq<K>, n: nat): seq<nat>
    requires n <= |names|
  {
    Flattened(Parts(names), n)
  }

  lemma {:induction false} Assoc(a: seq<nat>, b: seq<nat>, c: seq<nat>)
    ensures (a + b) + c == a + (b + c)
  {
  }

  lemma {:induction false} FlattenedGrows(parts: seq<seq<nat>>, m: nat, n: nat) returns (rest: seq<nat>)
    requires m <= n <= |parts|
    ensures Flattened(parts, n) == Flattened(parts, m) + rest
    decreases n
  {
    if m == n {
      rest := [];
    } else {
      var before := FlattenedGrows(parts, m, n - 1);
      rest := before + parts[n - 1];
      Assoc(Flattened(parts, m), before, parts[n - 1]);
    }
  }

  lemma {:induction false} FlattenedFrom(parts: seq<seq<nat>>, n: nat, p: nat) returns (i: nat)
    requires n <= |parts| && p in Flattened(parts, n)
    ensures i < n && p in parts[i]
  {
    if p in parts[n - 1] {
      i := n - 1;
    } else {
      i := FlattenedFrom(parts, n - 1, p);
    }
  }

  ghost predicate Apart(parts: seq<seq<nat>>) {
    && (forall i :: 0 <= i < |parts| ==> Distinct(parts[i]))
    && forall i, j, p {:trigger p in parts[i], p in parts[j]} ::
         0 <= i < j < |parts| && p in parts[i] ==> p !in parts[j]
  }

  lemma {:induction false} FlattenedDistinct(parts: seq<seq<nat>>, n: nat)
    requires n <= |parts| && Apart(parts)
    ensures Distinct(Flattened(parts, n))
  {
    if n > 0 {
      FlattenedDistinct(parts, n - 1);
      var before := Flattened(parts, n - 1);
      forall p | p in before ensures p !in parts[n - 1] {
        var i := FlattenedFrom(parts, n - 1, p);
      }
      DistinctAppend(before, parts[n - 1]);
    }
  }

  lemma {:induction false} FlatWithin<K>(names: seq<K>, p: nat)
    requires p in FlatPositions(names, |names|)
    ensures p < |names|
  {
    var i := FlattenedFrom(Parts(names), |names|, p);
    PositionIsOf(names, names[i], 0, p);
  }

  lemma {:induction false} BroughtOnce<K>(names: seq<K>, i: nat, j: nat, p: nat)
    requires i < j < |names| && p in Brought(names, i)
    ensures p !in Brought(names, j)
  {
    PositionIsOf(names, names[i], 0, p);
    if p in Brought(names, j) {
      PositionIsOf(names, names[j], 0, p);
    }
  }

  lemma {:induction false} PartsAreApart<K>(names: seq<K>)
    ensures Apart(Parts(names))
  {
    var parts := Parts(names);
    forall i | 0 <= i < |parts| ensures Distinct(parts[i]) {
      PositionsDistinct(names, names[i], 0);
    }
    forall i, j, p | 0 <= i < j < |parts| && p in parts[i] ensures p !in parts[j] {
      BroughtOnce(names, i, j, p);
    }
  }

  lemma {:induction false} DistinctAppend(a: seq<nat>, b: seq<nat>)
    requires Distinct(a) && Distinct(b) && forall p :: p in a ==> p !in b
    ensures Distinct(a + b)
  {
    forall i, j | 0 <= i < j < |a + b| ensures (a + b)[i] != (a + b)[j] {
      if i < |a| <= j {
        assert a[i] in a && b[j - |a|] in b;
      }
    }
  }

  function FirstIndex<K(==)>(names: seq<K>, name: K, from: nat): (i: nat)
    requires from <= |names|
    ensures from <= i <= |names| && forall k :: from <= k < i ==> names[k] != name
    ensures i < |names| ==> names[i] == name
    decreases |names| - from
  {
    if from == |names| || names[from] == name then from else FirstIndex(names, name, from + 1)
  }

  /** How many duplicates stand before those of the name. */
  ghost function StartOf<K>(names: seq<K>, name: K): nat { |FlatPositions(names, FirstIndex(names, name, 0))| }

  lemma {:induction false} Stretch(a: seq<nat>, b: seq<nat>, c: seq<nat>, all: seq<nat>)
    requires all == (a + b) + c
    ensures |a| + |b| <= |all| && all[|a|..|a| + |b|] == b
  {
  }

  lemma {:induction false} OwnIsBrought<K>(names: seq<K>, name: K)
    requires |PositionsOf(names, name, 0)| > 1
    ensures var i := FirstIndex(names, name, 0); i < |names| && Brought(names, i) == PositionsOf(names, name, 0)
  {
    var own, i := PositionsOf(names, name, 0), FirstIndex(names, name, 0);
    PositionIsOf(names, name, 0, own[0]);
    assert i < |names| && FirstAt(names, i);
  }

  lemma {:induction false} OwnStretch<K>(names: seq<K>, name: K)
    requires |PositionsOf(names, name, 0)| > 1
    ensures var own, start, flat := PositionsOf(names, name, 0), StartOf(names, name), FlatPositions(names, |names|);
      start + |own| <= |flat| && flat[start..start + |own|] == own
  {
    var i := FirstIndex(names, name, 0);
    OwnIsBrought(names, name);
    var rest := FlattenedGrows(Parts(names), i + 1, |names|);
    Stretch(FlatPositions(names, i), Brought(names, i), rest, FlatPositions(names, |names|));
  }

  /** What an index finds that is cut to its field. */
  function CutStretch(flat: seq<nat>, start: nat, count: nat): seq<nat>
    requires start + count <= |flat|
  {
    flat[start % INDEX_LIMIT..start % INDEX_LIMIT + count]
  }

  lemma {:induction false} CutExactly(flat: seq<nat>, start: nat, count: nat)
    requires start + count <= |flat| && count > 0 && Distinct(flat)
    ensures CutStretch(flat, start, count) == flat[start..start + count] <==> start < INDEX_LIMIT
  {
    if start >= INDEX_LIMIT {
      assert CutStretch(flat, start, count)[0] == flat[start % INDEX_LIMIT];
      assert flat[start..start + count][0] == flat[start];
    }
  }

  /** The positions that a lookup of the name finds. */
  ghost function FoundAt<K>(names: seq<K>, name: K): seq<nat> {
    var own := PositionsOf(names, name, 0);
    if |own| <= 1 then own
    else
      OwnStretch(names, name);
      CutStretch(FlatPositions(names, |names|), StartOf(names, name), |own|)
  }

  lemma {:induction false} CutIsPart(flat: seq<nat>, start: nat, count: nat, p: nat)
    requires start + count <= |flat| && p in CutStretch(flat, start, count)
    ensures p in flat
  {
  }

  lemma {:induction false} FoundWithin<K>(names: seq<K>, name: K, p: nat)
    requires p in FoundAt(names, name)
    ensures p < |names|
  {
    var own := PositionsOf(names, name, 0);
    if |own| <= 1 {
      PositionIsOf(names, name, 0, p);
    } else {
      OwnStretch(names, name);
      CutIsPart(FlatPositions(names, |names|), StartOf(names, name), |own|, p);
      FlatWithin(names, p);
    }
  }

  /** The name's own positions are found exactly if it has at most one, or fewer than 2^23 duplicates stand before them. */
  lemma {:induction false} FoundExactly<K>(names: seq<K>, name: K)
    ensures FoundAt(names, name) == PositionsOf(names, name, 0)
      <==> |PositionsOf(names, name, 0)| <= 1 || StartOf(names, name) < 0x80_0000
  {
    if |PositionsOf(names, name, 0)| > 1 {
      OwnStretch(names, name);
      PartsAreApart(names);
      FlattenedDistinct(Parts(names), |names|);
      CutExactly(FlatPositions(names, |names|), StartOf(names, name), |PositionsOf(names, name, 0)|);
    }
  }

  // ----- names enough to overflow the index -----

  /** n names, each of them twice. */
  function Pairs(n: nat): seq<nat> { seq(2 * n, (i: nat) => i / 2) }

  lemma {:induction false} PairPositions(n: nat, k: nat, from: nat)
    requires k < n && from <= 2 * n
    ensures PositionsOf(Pairs(n), k, from) ==
      if from <= 2 * k then [2 * k, 2 * k + 1] else if from == 2 * k + 1 then [2 * k + 1] else []
    decreases 2 * n - from
  {
    if from < 2 * n {
      PairPositions(n, k, from + 1);
    }
  }

  lemma {:induction false} PairIsBrought(n: nat, k: nat)
    requires k < n
    ensures Brought(Pairs(n), 2 * k) == [2 * k, 2 * k + 1] && Brought(Pairs(n), 2 * k + 1) == []
  {
    var names := Pairs(n);
    PairPositions(n, k, 0);
    assert names[2 * k] == names[2 * k + 1] == k;
    assert FirstAt(names, 2 * k) && !FirstAt(names, 2 * k + 1);
  }

  function UpTo(n: nat): seq<nat> { seq(n, (i: nat) => i) }

  lemma {:induction false} TwoMore(k: nat)
    requires k >= 2
    ensures UpTo(k - 2) + [k - 2, k - 1] + [] == UpTo(k)
  {
  }

  lemma {:induction false} PairsFlat(n: nat, k: nat)
    requires k <= n
    ensures FlatPositions(Pairs(n), 2 * k) == UpTo(2 * k)
  {
    if k > 0 {
      PairsFlat(n, k - 1);
      PairIsBrought(n, k - 1);
      FlatTwice(Pairs(n), 2 * k);
      TwoMore(2 * k);
    }
  }

  lemma {:induction false} FlatTwice<K>(names: seq<K>, k: nat)
    requires 2 <= k <= |names|
    ensures FlatPositions(names, k) == FlatPositions(names, k - 2) + Brought(names, k - 2) + Brought(names, k - 1)
  {
    assert Flattened(Parts(names), k - 1) == Flattened(Parts(names), k - 2) + Parts(names)[k - 2];
  }

  lemma {:induction false} PairStart(n: nat, k: nat)
    requires k < n
    ensures StartOf(Pairs(n), k) == 2 * k
  {
    PairsFlat(n, k);
    var names := Pairs(n);
    assert names[2 * k] == k;
  }

  lemma {:induction false} FirstOnes(n: nat)
    requires n > 0x40_0000
    ensures 0x80_0000 + 2 <= 2 * n
    ensures CutStretch(UpTo(2 * n), 0x80_0000, 2) == [0, 1]
  {
  }

  /** The name behind 2^22 names with two classes each is answered with the classes of the first. */
  lemma {:induction false} WrappedIndexFinds(n: nat)
    requires n > 0x40_0000
    ensures PositionsOf(Pairs(n), 0x40_0000, 0) == [0x80_0000, 0x80_0001] && FoundAt(Pairs(n), 0x40_0000) == [0, 1]
  {
    PairPositions(n, 0x40_0000, 0);
    PairStart(n, 0x40_0000);
    PairsFlat(n, n);
    FirstOnes(n);
    OwnStretch(Pairs(n), 0x40_0000);
  }
}
