/** dyld3::Map: an insertion-ordered hash map that keeps the first value of every key. */
module Maps {
  import opened Lists
  import opened Probing
  import opened HashTables

  datatype Entry<K, V> = Entry(key: K, value: V)

  function Keys<K, V>(entries: seq<Entry<K, V>>): (r: seq<K>)
    ensures |r| == |entries| && forall i :: 0 <= i < |r| ==> r[i] == entries[i].key
  {
    seq(|entries|, i requires 0 <= i < |entries| => entries[i].key)
  }

  /** The specification of a run of inserts: only the first entry of a key is kept. */
  ghost function FirstInserts<K, V>(ops: seq<Entry<K, V>>): seq<Entry<K, V>> {
    if ops == [] then []
    else
      var before, op := FirstInserts(ops[..|ops| - 1]), ops[|ops| - 1];
      if op.key in Keys(before) then before else before + [op]
  }

  /** The kept keys are the inserted keys, each of them once. */
  lemma {:induction false} KeptKeys<K, V>(ops: seq<Entry<K, V>>)
    ensures Distinct(Keys(FirstInserts(ops)))
    ensures forall key :: key in Keys(FirstInserts(ops)) <==> key in Keys(ops)
    ensures |FirstInserts(ops)| == |Heads(Keys(ops))|
  {
    if ops != [] {
      var n := |ops| - 1;
      var front, op, before := ops[..n], ops[n], FirstInserts(ops[..n]);
      KeptKeys(front);
      assert Keys(ops) == Keys(front) + [op.key];
      FirstAtPrefix(Keys(front), op.key);
      assert Keys(before + [op]) == Keys(before) + [op.key];
    }
  }

  /**
   An entry is kept if no earlier one has its key, and the kept entries stand in
   insertion order: before it stands one entry for every key seen earlier.
   */
  lemma {:induction false} KeptAt<K, V>(ops: seq<Entry<K, V>>, i: nat)
    requires i < |ops| && FirstAt(Keys(ops), i)
    ensures var rank := |Heads(Keys(ops[..i]))|;
      rank < |FirstInserts(ops)| && FirstInserts(ops)[rank] == ops[i]
  {
    var n := |ops| - 1;
    var front, before := ops[..n], FirstInserts(ops[..n]);
    KeptKeys(front);
    if i < n {
      assert front[..i] == ops[..i];
      assert FirstAt(Keys(front), i) by {
        assert forall j :: 0 <= j <= i ==> Keys(front)[j] == Keys(ops)[j];
      }
      KeptAt(front, i);
    } else {
      assert ops[i].key !in Keys(front) by {
        assert forall j :: 0 <= j < i ==> Keys(front)[j] == Keys(ops)[j];
      }
    }
  }

  class Map<K(==), V> {
    const hash: K -> nat
    var nextHashBufferGrowth: nat
    var hashBufferUseCount: nat
    var hashBuffer: seq<int>
    var nodeBuffer: seq<Entry<K, V>>

    /** The table is at most three quarters full and indexes every node. */
    ghost predicate Valid()
      reads this
    {
      && Distinct(Keys(nodeBuffer))
      && Indexes(hashBuffer, Keys(nodeBuffer), hash)
      && hashBufferUseCount == |Heads(Keys(nodeBuffer))|
      && hashBufferUseCount <= nextHashBufferGrowth
      && 4 * nextHashBufferGrowth == 3 * |hashBuffer|
    }

    constructor (hash: K -> nat)
      ensures Valid() && this.hash == hash && nodeBuffer == []
      ensures |hashBuffer| == 1024 && nextHashBufferGrowth == 768 && forall h :: 0 <= h < 1024 ==> hashBuffer[h] == SENTINEL
    {
      this.hash := hash;
      nextHashBufferGrowth := INITIAL_GROWTH;
      hashBufferUseCount := 0;
      hashBuffer := seq(INITIAL_COUNT, _ => SENTINEL);
      nodeBuffer := [];
      new;
      InitialCountIsPow2();
      assert Heads(Keys(nodeBuffer)) == {};
    }

    /** Returns the node position of the key, or the end position if it is absent. */
    method Find(key: K) returns (index: nat)
      requires Valid()
      ensures index == |nodeBuffer| <==> key !in Keys(nodeBuffer)
      ensures index <= |nodeBuffer|
      ensures index < |nodeBuffer| ==> nodeBuffer[index].key == key
    {
      var slot, k := FindSlot(hashBuffer, Keys(nodeBuffer), hash, key);
      if hashBuffer[slot] == SENTINEL {
        index := |nodeBuffer|;
      } else {
        index := hashBuffer[slot];
      }
    }

    /** Growth changes no node and keeps every key findable. */
    method Grow()
      requires Valid()
      modifies `hashBuffer, `nextHashBufferGrowth
      ensures Valid() && |hashBuffer| == 2 * old(|hashBuffer|) && nextHashBufferGrowth == 2 * old(nextHashBufferGrowth)
      ensures hashBufferUseCount < nextHashBufferGrowth
    {
      var keys := Keys(nodeBuffer);
      DoublePow2(|hashBuffer|);
      DistinctKeysAreHeads(keys);
      nextHashBufferGrowth := nextHashBufferGrowth * 2;
      hashBuffer := Rehash(keys, seq(|keys|, _ => true), hash, |hashBuffer| * 2);
    }

    method Insert(v: Entry<K, V>) returns (index: nat, inserted: bool)
      requires Valid()
      modifies this
      ensures Valid()
      ensures inserted <==> v.key !in old(Keys(nodeBuffer))
      ensures nodeBuffer == if inserted then old(nodeBuffer) + [v] else old(nodeBuffer)
      ensures index < |nodeBuffer| && nodeBuffer[index].key == v.key
    {
      if hashBufferUseCount == nextHashBufferGrowth {
        Grow();
      }
      var keys := Keys(nodeBuffer);
      var slot, k := FindSlot(hashBuffer, keys, hash, v.key);
      if hashBuffer[slot] == SENTINEL {
        index, inserted := |nodeBuffer|, true;
        AppendedIsIndexed(hashBuffer, nodeBuffer, hash, v, slot, k);
        hashBuffer := hashBuffer[slot := |nodeBuffer|];
        hashBufferUseCount := hashBufferUseCount + 1;
        nodeBuffer := nodeBuffer + [v];
      } else {
        index, inserted := hashBuffer[slot], false;
      }
    }

    /** Writing through the position that `Insert` returned leaves the keys alone. */
    method SetValue(index: nat, value: V)
      requires Valid() && index < |nodeBuffer|
      modifies `nodeBuffer
      ensures Valid()
      ensures nodeBuffer == old(nodeBuffer)[index := Entry(old(nodeBuffer)[index].key, value)]
    {
      ghost var keys := Keys(nodeBuffer);
      nodeBuffer := nodeBuffer[index := Entry(nodeBuffer[index].key, value)];
      assert Keys(nodeBuffer) == keys;
    }
  }

  lemma {:induction false} AppendedIsIndexed<K, V>(buffer: seq<int>, nodes: seq<Entry<K, V>>, hash: K -> nat,
                                                   v: Entry<K, V>, slot: nat, k: nat)
    requires Distinct(Keys(nodes)) && Indexes(buffer, Keys(nodes), hash) && v.key !in Keys(nodes)
    requires k < |buffer| && slot == Probe(hash(v.key), |buffer|, k) && UsedPath(buffer, hash(v.key), k)
    requires buffer[slot] == SENTINEL
    ensures Distinct(Keys(nodes + [v]))
    ensures Indexes(buffer[slot := |nodes|], Keys(nodes + [v]), hash)
    ensures |Heads(Keys(nodes + [v]))| == |Heads(Keys(nodes))| + 1
  {
    PlaceNew(buffer, Keys(nodes), hash, v.key, slot, k);
    FirstAtPrefix(Keys(nodes), v.key);
    assert Keys(nodes + [v]) == Keys(nodes) + [v.key];
  }

  lemma {:induction false} InitialCountIsPow2()
    ensures IsPow2(INITIAL_COUNT)
  {
    assert IsPow2(8);
    assert IsPow2(64);
    assert IsPow2(512);
  }

  lemma {:induction false} DoublePow2(n: nat)
    requires IsPow2(n)
    ensures IsPow2(n * 2)
  {
  }

  lemma {:induction false} DistinctKeysAreHeads<K>(keys: seq<K>)
    requires Distinct(keys)
    ensures forall i :: 0 <= i < |keys| ==> FirstAt(keys, i)
  {
  }

  /**
   Refinement over whole runs: after any sequence of inserts, through any number
   of growths, a lookup answers with the first value inserted for the key, and
   with nothing for a key never inserted.
   */
  method InsertAllThenFind<K(==), V>(hash: K -> nat, ops: seq<Entry<K, V>>, key: K) returns (r: Option<V>)
    ensures r.Some? <==> key in Keys(ops)
    ensures forall i :: 0 <= i < |ops| && FirstAt(Keys(ops), i) && ops[i].key == key ==> r == Some(ops[i].value)
  {
    var m := InsertAll(hash, ops);
    KeptKeys(ops);
    var index := m.Find(key);
    if index == |m.nodeBuffer| {
      r := None;
    } else {
      r := Some(m.nodeBuffer[index].value);
      forall i | 0 <= i < |ops| && FirstAt(Keys(ops), i) && ops[i].key == key ensures r == Some(ops[i].value) {
        KeptAt(ops, i);
        var rank := |Heads(Keys(ops[..i]))|;
        assert Keys(m.nodeBuffer)[rank] == Keys(m.nodeBuffer)[index];
      }
    }
  }

  method InsertAll<K(==), V>(hash: K -> nat, ops: seq<Entry<K, V>>) returns (m: Map<K, V>)
    ensures fresh(m) && m.Valid() && m.hash == hash
    ensures m.nodeBuffer == FirstInserts(ops)
  {
    m := new Map(hash);
    for n := 0 to |ops|
      invariant fresh(m) && m.Valid() && m.hash == hash
      invariant m.nodeBuffer == FirstInserts(ops[..n])
    {
      assert ops[..n + 1][..n] == ops[..n];
      var index, inserted := m.Insert(ops[n]);
    }
    assert ops[..|ops|] == ops;
  }
}
