/**
 The open-addressing index shared by `Map` and `MultiMap`: a power-of-two buffer
 whose used slots hold positions of a node buffer. Only the first node of every
 key is indexed.
 */
module HashTables {
  import opened Lists
  import opened Probing

  /** Stands for (size_t)-1, a value that is no node position. */
  const SENTINEL := -1
  const INITIAL_COUNT := 1024
  const INITIAL_GROWTH := 768

  /** Position i is the first one with its key. */
  ghost predicate FirstAt<K>(keys: seq<K>, i: int)
    requires 0 <= i < |keys|
  {
    forall j :: 0 <= j < i ==> keys[j] != keys[i]
  }

  ghost function Heads<K>(keys: seq<K>): set<int> {
    set i | 0 <= i < |keys| && FirstAt(keys, i)
  }

  /** The first k probes from h find used slots. */
  ghost predicate UsedPath(buffer: seq<int>, h: nat, k: nat)
    requires |buffer| > 0
  {
    forall j: nat :: j < k ==> buffer[Probe(h, |buffer|, j)] != SENTINEL
  }

  /** Node i is what the probe sequence of h meets after used slots only. */
  ghost predicate Placed(buffer: seq<int>, h: nat, i: int)
    requires |buffer| > 0
  {
    exists k: nat :: k < |buffer| && buffer[Probe(h, |buffer|, k)] == i && UsedPath(buffer, h, k)
  }

  /** The buffer indexes exactly the first node of every key. */
  ghost predicate Indexes<K>(buffer: seq<int>, keys: seq<K>, hash: K -> nat) {
    && IsPow2(|buffer|)
    && (forall s :: 0 <= s < |buffer| && buffer[s] != SENTINEL ==> 0 <= buffer[s] < |keys| && FirstAt(keys, buffer[s]))
    && (forall s, t :: 0 <= s < t < |buffer| && buffer[s] != SENTINEL ==> buffer[s] != buffer[t])
    && (forall i {:trigger Placed(buffer, hash(keys[i]), i)} ::
          0 <= i < |keys| && FirstAt(keys, i) ==> Placed(buffer, hash(keys[i]), i))
  }

  /** A buffer with more slots than distinct keys has an empty one. */
  lemma {:induction false} EmptySlotExists<K>(buffer: seq<int>, keys: seq<K>, hash: K -> nat) returns (slot: nat)
    requires Indexes(buffer, keys, hash) && |Heads(keys)| < |buffer|
    ensures slot < |buffer| && buffer[slot] == SENTINEL
  {
    if forall s :: 0 <= s < |buffer| ==> buffer[s] != SENTINEL {
      var used := set x | x in buffer;
      DistinctSize(buffer);
      SubsetSize(used, Heads(keys));
      assert false;
    }
    slot :| slot < |buffer| && buffer[slot] == SENTINEL;
  }

  /** Where a search must stop: no probe sequence is made of used slots only. */
  lemma {:induction false} SearchEnds<K>(buffer: seq<int>, keys: seq<K>, hash: K -> nat, h: nat) returns (last: nat)
    requires Indexes(buffer, keys, hash) && |Heads(keys)| < |buffer|
    ensures last < |buffer| && buffer[Probe(h, |buffer|, last)] == SENTINEL
  {
    var slot := EmptySlotExists(buffer, keys, hash);
    last := ProbeCovers(h, |buffer|, slot);
  }

  /** An empty slot reached through used slots proves that the key is absent. */
  lemma {:induction false} AbsentAtSentinel<K>(buffer: seq<int>, keys: seq<K>, hash: K -> nat, key: K, k: nat)
    requires Indexes(buffer, keys, hash) && k < |buffer|
    requires buffer[Probe(hash(key), |buffer|, k)] == SENTINEL
    requires forall j: nat :: j < k ==>
      var i := buffer[Probe(hash(key), |buffer|, j)]; i != SENTINEL && keys[i] != key
    ensures key !in keys
  {
    if key in keys {
      var i, k' := WhereFound(buffer, keys, hash, key);
      assert false;
    }
  }

  /** A present key is met by its own probe sequence. */
  lemma {:induction false} WhereFound<K>(buffer: seq<int>, keys: seq<K>, hash: K -> nat, key: K) returns (i: int,
                                         k: nat)
    requires Indexes(buffer, keys, hash) && key in keys
    ensures 0 <= i < |keys| && keys[i] == key
    ensures k < |buffer| && buffer[Probe(hash(key), |buffer|, k)] == i && UsedPath(buffer, hash(key), k)
  {
    i := FirstPosition(keys, key);
    assert Placed(buffer, hash(keys[i]), i);
    k :| k < |buffer| && buffer[Probe(hash(key), |buffer|, k)] == i && UsedPath(buffer, hash(key), k);
  }

  lemma {:induction false} FirstPosition<K>(keys: seq<K>, key: K) returns (i: int)
    requires key in keys
    ensures 0 <= i < |keys| && keys[i] == key && FirstAt(keys, i)
  {
    var front := keys[..|keys| - 1];
    if key in front {
      i := FirstPosition(front, key);
      assert forall j :: 0 <= j <= i ==> front[j] == keys[j];
    } else {
      i := |keys| - 1;
      assert forall j :: 0 <= j < i ==> front[j] == keys[j];
    }
  }

  /** The probe loop of `find` and `insert`: stops at the key's node or at an empty slot. */
  method FindSlot<K(==)>(buffer: seq<int>, keys: seq<K>, hash: K -> nat, key: K) returns (slot: nat, ghost k: nat)
    requires Indexes(buffer, keys, hash) && |Heads(keys)| < |buffer|
    ensures slot < |buffer|
    ensures buffer[slot] == SENTINEL <==> key !in keys
    ensures buffer[slot] != SENTINEL ==> keys[buffer[slot]] == key
    ensures k < |buffer| && slot == Probe(hash(key), |buffer|, k) && UsedPath(buffer, hash(key), k)
  {
    ghost var last := SearchEnds(buffer, keys, hash, hash(key));
    slot := hash(key) % |buffer|;
    k := 0;
    var probeAmount := 1;
    while buffer[slot] != SENTINEL && keys[buffer[slot]] != key
      invariant k <= last && probeAmount == k + 1 && slot == Probe(hash(key), |buffer|, k)
      invariant forall j: nat :: j < k ==>
        var i := buffer[Probe(hash(key), |buffer|, j)]; i != SENTINEL && keys[i] != key
      decreases last - k
    {
      ProbeStep(hash(key), |buffer|, k);
      slot := (slot + probeAmount) % |buffer|;
      probeAmount := probeAmount + 1;
      k := k + 1;
    }
    if buffer[slot] == SENTINEL {
      AbsentAtSentinel(buffer, keys, hash, key, k);
    }
  }

  /** The probe loop of a rehash, which looks for an empty slot only. */
  method FindSentinel<K>(buffer: seq<int>, ghost keys: seq<K>, ghost hash: K -> nat, h: nat)
    returns (slot: nat, ghost k: nat)
    requires Indexes(buffer, keys, hash) && |Heads(keys)| < |buffer|
    ensures slot < |buffer| && buffer[slot] == SENTINEL
    ensures k < |buffer| && slot == Probe(h, |buffer|, k) && UsedPath(buffer, h, k)
  {
    ghost var last := SearchEnds(buffer, keys, hash, h);
    slot := h % |buffer|;
    k := 0;
    var probeAmount := 1;
    while buffer[slot] != SENTINEL
      invariant k <= last && probeAmount == k + 1 && slot == Probe(h, |buffer|, k)
      invariant UsedPath(buffer, h, k)
      decreases last - k
    {
      ProbeStep(h, |buffer|, k);
      slot := (slot + probeAmount) % |buffer|;
      probeAmount := probeAmount + 1;
      k := k + 1;
    }
  }

  lemma {:induction false} FirstAtPrefix<K>(keys: seq<K>, key: K)
    ensures forall i :: 0 <= i < |keys| ==> FirstAt(keys + [key], i) == FirstAt(keys, i)
    ensures FirstAt(keys + [key], |keys|) <==> key !in keys
    ensures Heads(keys + [key]) == Heads(keys) + (if key in keys then {} else {|keys|})
    ensures |Heads(keys + [key])| == |Heads(keys)| + if key in keys then 0 else 1
  {
    var longer := keys + [key];
    forall i | 0 <= i < |keys| ensures FirstAt(longer, i) == FirstAt(keys, i) {
      assert forall j :: 0 <= j <= i ==> longer[j] == keys[j];
    }
    assert FirstAt(longer, |keys|) <==> key !in keys by {
      assert forall j :: 0 <= j < |keys| ==> longer[j] == keys[j];
    }
  }

  /** Writing the next node position into the empty slot of a search keeps the index. */
  lemma {:induction false} PlaceNew<K>(buffer: seq<int>, keys: seq<K>, hash: K -> nat, key: K, slot: nat, k: nat)
    requires Indexes(buffer, keys, hash) && key !in keys
    requires k < |buffer| && slot == Probe(hash(key), |buffer|, k) && UsedPath(buffer, hash(key), k)
    requires buffer[slot] == SENTINEL
    ensures Indexes(buffer[slot := |keys|], keys + [key], hash)
  {
    var buffer', keys' := buffer[slot := |keys|], keys + [key];
    FirstAtPrefix(keys, key);
    PathKept(buffer, hash(key), k, slot, |keys|);
    assert buffer'[Probe(hash(key), |buffer'|, k)] == |keys|;
    forall i | 0 <= i < |keys'| && FirstAt(keys', i) ensures Placed(buffer', hash(keys'[i]), i) {
      if i < |keys| {
        PlacedKept(buffer, hash(keys[i]), i, slot, |keys|);
      }
    }
  }

  lemma {:induction false} PathKept(buffer: seq<int>, h: nat, k: nat, slot: nat, v: nat)
    requires slot < |buffer| && UsedPath(buffer, h, k)
    ensures UsedPath(buffer[slot := v], h, k)
  {
  }

  lemma {:induction false} PlacedKept(buffer: seq<int>, h: nat, i: nat, slot: nat, v: nat)
    requires slot < |buffer| && buffer[slot] == SENTINEL && Placed(buffer, h, i)
    ensures Placed(buffer[slot := v], h, i)
  {
    var j: nat :| j < |buffer| && buffer[Probe(h, |buffer|, j)] == i && UsedPath(buffer, h, j);
    PathKept(buffer, h, j, slot, v);
    assert buffer[slot := v][Probe(h, |buffer|, j)] == i;
  }

  /** A further node with a known key leaves the index as it is. */
  lemma {:induction false} AppendKnown<K>(buffer: seq<int>, keys: seq<K>, hash: K -> nat, key: K)
    requires Indexes(buffer, keys, hash) && key in keys
    ensures Indexes(buffer, keys + [key], hash)
  {
    FirstAtPrefix(keys, key);
  }

  /**
   Growth: a buffer of the new size is filled with the first node of every key,
   in node order. The index of all keys is the same as before.
   */
  method Rehash<K(==)>(keys: seq<K>, isHead: seq<bool>, hash: K -> nat, newCount: nat) returns (buffer: seq<int>)
    requires IsPow2(newCount) && |Heads(keys)| < newCount
    requires |isHead| == |keys| && forall i :: 0 <= i < |keys| ==> isHead[i] == FirstAt(keys, i)
    ensures |buffer| == newCount && Indexes(buffer, keys, hash)
  {
    buffer := seq(newCount, _ => SENTINEL);
    var i := 0;
    while i < |keys|
      invariant 0 <= i <= |keys| && |buffer| == newCount
      invariant Indexes(buffer, keys[..i], hash)
    {
      assert keys[..i + 1] == keys[..i] + [keys[i]];
      FirstAtPrefix(keys[..i], keys[i]);
      HeadsOfPrefix(keys, i);
      if isHead[i] {
        var slot, k := FindSentinel(buffer, keys[..i], hash, hash(keys[i]));
        PlaceNew(buffer, keys[..i], hash, keys[i], slot, k);
        buffer := buffer[slot := i];
      } else {
        AppendKnown(buffer, keys[..i], hash, keys[i]);
      }
      i := i + 1;
    }
    assert keys[..i] == keys;
  }

  lemma {:induction false} HeadsOfPrefix<K>(keys: seq<K>, i: nat)
    requires i < |keys|
    ensures |Heads(keys[..i])| <= |Heads(keys)|
    ensures FirstAt(keys, i) <==> keys[i] !in keys[..i]
  {
    forall j | j in Heads(keys[..i]) ensures j in Heads(keys) {
      assert forall m :: 0 <= m <= j ==> keys[..i][m] == keys[m];
    }
    SubsetSize(Heads(keys[..i]), Heads(keys));
    assert forall m :: 0 <= m < i ==> keys[..i][m] == keys[m];
  }
}
