/** dyld3::MultiMap: keeps all values of a key, chained through the node buffer. */
module MultiMaps {
  import opened Probing
  import opened HashTables
  import opened Maps

  /** nextIndex is a 29-bit field. */
  const NEXT_INDEX_LIMIT := 0x2000_0000

  datatype NextNode = NextNode(isDuplicateHead: bool, isDuplicateEntry: bool, isDuplicateTail: bool, nextIndex: nat) {
    predicate HasAnyDuplicates() { isDuplicateHead || isDuplicateEntry || isDuplicateTail }
    predicate HasMoreDuplicates() { isDuplicateHead || isDuplicateEntry }
  }

  datatype Node<K, V> = Node(entry: Entry<K, V>, next: NextNode)

  function Entries<K, V>(nodes: seq<Node<K, V>>): (r: seq<Entry<K, V>>)
    ensures |r| == |nodes| && forall i :: 0 <= i < |r| ==> r[i] == nodes[i].entry
  {
    seq(|nodes|, i requires 0 <= i < |nodes| => nodes[i].entry)
  }

  /** The values inserted under a key at or after a position, in insertion order. */
  function ValuesOf<K(==), V>(entries: seq<Entry<K, V>>, key: K, from: nat): seq<V>
    requires from <= |entries|
    decreases |entries| - from
  {
    if from == |entries| then []
    else (if entries[from].key == key then [entries[from].value] else []) + ValuesOf(entries, key, from + 1)
  }

  datatype Group<K, V> = Group(key: K, values: seq<V>)

  /** One group for every distinct key among the first n entries, in first-insertion order. */
  ghost function Groups<K, V>(entries: seq<Entry<K, V>>, n: nat): seq<Group<K, V>>
    requires n <= |entries|
  {
    if n == 0 then []
    else
      var key := entries[n - 1].key;
      Groups(entries, n - 1) + (if FirstAt(Keys(entries), n - 1) then [Group(key, ValuesOf(entries, key, 0))] else [])
  }

  ghost predicate HasLater<K>(keys: seq<K>, i: nat)
    requires i < |keys|
  {
    exists j :: i < j < |keys| && keys[j] == keys[i]
  }

  ghost predicate IsNextSame<K>(keys: seq<K>, i: nat, j: nat)
    requires i < |keys|
  {
    i < j < |keys| && keys[j] == keys[i] && forall m :: i < m < j ==> keys[m] != keys[i]
  }

  /** The link of node i says what its key's other occurrences are. */
  ghost predicate LinkIsRight<K>(keys: seq<K>, i: nat, next: NextNode)
    requires i < |keys|
  {
    && next.isDuplicateHead == (FirstAt(keys, i) && HasLater(keys, i))
    && next.isDuplicateEntry == (!FirstAt(keys, i) && HasLater(keys, i))
    && next.isDuplicateTail == (!FirstAt(keys, i) && !HasLater(keys, i))
    && (HasLater(keys, i) ==> IsNextSame(keys, i, next.nextIndex))
  }

  /** The link of a chain's last node once another node follows it. */
  function Relinked(next: NextNode, count: nat): NextNode {
    if !next.HasAnyDuplicates()
    then next.(isDuplicateHead := true, nextIndex := count)
    else next.(isDuplicateTail := false, isDuplicateEntry := true, nextIndex := count)
  }

  /** Every chain runs through exactly the nodes of one key, with growing positions. */
  ghost predicate Linked<K, V>(nodes: seq<Node<K, V>>) {
    forall i {:trigger LinkIsRight(Keys(Entries(nodes)), i, nodes[i].next)} ::
      0 <= i < |nodes| ==> LinkIsRight(Keys(Entries(nodes)), i, nodes[i].next)
  }

  /** The state of a multimap: linked chains, an index of their heads, at most three quarters full. */
  ghost predicate WellFormed<K, V>(buffer: seq<int>, nodes: seq<Node<K, V>>, useCount: nat, hash: K -> nat) {
    && |nodes| <= NEXT_INDEX_LIMIT
    && Linked(nodes)
    && Indexes(buffer, Keys(Entries(nodes)), hash)
    && useCount == |Heads(Keys(Entries(nodes)))|
    && 4 * useCount <= 3 * |buffer|
  }

  lemma {:induction false} LinkUnchanged<K>(keys: seq<K>, key: K, i: nat, next: NextNode)
    requires i < |keys| && LinkIsRight(keys, i, next)
    requires keys[i] != key || HasLater(keys, i)
    ensures LinkIsRight(keys + [key], i, next)
  {
    FirstAtPrefix(keys, key);
    var keys' := keys + [key];
    if HasLater(keys, i) {
      var j :| i < j < |keys| && keys[j] == keys[i];
      assert keys'[j] == keys'[i];
      assert forall m :: i <= m <= next.nextIndex ==> keys'[m] == keys[m];
    } else {
      assert forall m :: i < m < |keys| ==> keys'[m] == keys[m];
    }
  }

  /** The node that was last of its key now links to the appended one. */
  lemma {:induction false} LinkToAppended<K>(keys: seq<K>, key: K, i: nat, next: NextNode)
    requires i < |keys| && keys[i] == key && !HasLater(keys, i) && LinkIsRight(keys, i, next)
    ensures LinkIsRight(keys + [key], i, Relinked(next, |keys|))
    ensures LinkIsRight(keys + [key], |keys|, NextNode(false, false, true, 0))
  {
    FirstAtPrefix(keys, key);
    var keys' := keys + [key];
    assert forall m :: 0 <= m < |keys| ==> keys'[m] == keys[m];
    assert keys'[|keys|] == keys'[i];
  }

  /** What an insert of a new key does to the node buffer. */
  function WithFresh<K, V>(nodes: seq<Node<K, V>>, v: Entry<K, V>): seq<Node<K, V>> {
    nodes + [Node(v, NextNode(false, false, false, 0))]
  }

  lemma {:induction false} FreshIsLinked<K, V>(nodes: seq<Node<K, V>>, v: Entry<K, V>)
    requires Linked(nodes) && v.key !in Keys(Entries(nodes))
    ensures Linked(WithFresh(nodes, v))
    ensures Entries(WithFresh(nodes, v)) == Entries(nodes) + [v]
    ensures Keys(Entries(WithFresh(nodes, v))) == Keys(Entries(nodes)) + [v.key]
  {
    var keys, nodes' := Keys(Entries(nodes)), WithFresh(nodes, v);
    assert Keys(Entries(nodes')) == keys + [v.key];
    FirstAtPrefix(keys, v.key);
    forall i | 0 <= i < |nodes'| ensures LinkIsRight(keys + [v.key], i, nodes'[i].next) {
      if i < |nodes| {
        LinkUnchanged(keys, v.key, i, nodes[i].next);
      }
    }
  }

  lemma {:induction false} AppendFresh<K, V>(buffer: seq<int>, nodes: seq<Node<K, V>>, useCount: nat, hash: K -> nat,
                                             v: Entry<K, V>, slot: nat, k: nat)
    requires WellFormed(buffer, nodes, useCount, hash) && |nodes| < NEXT_INDEX_LIMIT
    requires v.key !in Keys(Entries(nodes)) && 4 * (useCount + 1) <= 3 * |buffer|
    requires k < |buffer| && slot == Probe(hash(v.key), |buffer|, k) && UsedPath(buffer, hash(v.key), k)
    requires buffer[slot] == SENTINEL
    ensures WellFormed(buffer[slot := |nodes|], WithFresh(nodes, v), useCount + 1, hash)
    ensures Entries(WithFresh(nodes, v)) == Entries(nodes) + [v]
  {
    var keys := Keys(Entries(nodes));
    FreshIsLinked(nodes, v);
    FirstAtPrefix(keys, v.key);
    PlaceNew(buffer, keys, hash, v.key, slot, k);
  }

  /** What an insert of a known key does to the node buffer. */
  function WithDuplicate<K, V>(nodes: seq<Node<K, V>>, v: Entry<K, V>, tail: nat): seq<Node<K, V>>
    requires tail < |nodes|
  {
    nodes[tail := nodes[tail].(next := Relinked(nodes[tail].next, |nodes| % NEXT_INDEX_LIMIT))] +
    [Node(v, NextNode(false, false, true, 0))]
  }

  lemma {:induction false} DuplicateIsLinked<K, V>(nodes: seq<Node<K, V>>, v: Entry<K, V>, tail: nat)
    requires Linked(nodes) && tail < |nodes| < NEXT_INDEX_LIMIT
    requires nodes[tail].entry.key == v.key && !HasLater(Keys(Entries(nodes)), tail)
    ensures Linked(WithDuplicate(nodes, v, tail))
    ensures Entries(WithDuplicate(nodes, v, tail)) == Entries(nodes) + [v]
    ensures Keys(Entries(WithDuplicate(nodes, v, tail))) == Keys(Entries(nodes)) + [v.key]
  {
    var keys, nodes' := Keys(Entries(nodes)), WithDuplicate(nodes, v, tail);
    assert Keys(Entries(nodes')) == keys + [v.key];
    assert LinkIsRight(keys, tail, nodes[tail].next);
    forall i | 0 <= i < |nodes'| ensures LinkIsRight(keys + [v.key], i, nodes'[i].next) {
      if i == tail || i == |nodes| {
        LinkToAppended(keys, v.key, tail, nodes[tail].next);
      } else {
        LastIsUnique(keys, v.key, tail, i);
        assert nodes'[i] == nodes[i] && LinkIsRight(keys, i, nodes[i].next);
        LinkUnchanged(keys, v.key, i, nodes[i].next);
      }
    }
  }

  lemma {:induction false} AppendDuplicate<K, V>(buffer: seq<int>, nodes: seq<Node<K, V>>, useCount: nat,
                                                 hash: K -> nat, v: Entry<K, V>, tail: nat)
    requires WellFormed(buffer, nodes, useCount, hash) && |nodes| < NEXT_INDEX_LIMIT && tail < |nodes|
    requires nodes[tail].entry.key == v.key && !HasLater(Keys(Entries(nodes)), tail)
    ensures WellFormed(buffer, WithDuplicate(nodes, v, tail), useCount, hash)
    ensures Entries(WithDuplicate(nodes, v, tail)) == Entries(nodes) + [v]
  {
    var keys := Keys(Entries(nodes));
    assert v.key in keys by { assert keys[tail] == v.key; }
    DuplicateIsLinked(nodes, v, tail);
    FirstAtPrefix(keys, v.key);
    AppendKnown(buffer, keys, hash, v.key);
  }

  lemma {:induction false} LastIsUnique<K>(keys: seq<K>, key: K, tail: nat, i: nat)
    requires tail < |keys| && keys[tail] == key && !HasLater(keys, tail)
    requires i < |keys| && i != tail
    ensures keys[i] != key || HasLater(keys, i)
  {
  }

  lemma {:induction false} ValuesSkip<K, V>(entries: seq<Entry<K, V>>, key: K, from: nat, to: nat)
    requires from <= to <= |entries|
    requires forall m :: from <= m < to ==> entries[m].key != key
    ensures ValuesOf(entries, key, from) == ValuesOf(entries, key, to)
    decreases |entries| - from
  {
    if from < to {
      ValuesSkip(entries, key, from + 1, to);
    }
  }

  lemma {:induction false} FirstHasAllValues<K, V>(entries: seq<Entry<K, V>>, i: nat)
    requires i < |entries|
    ensures FirstAt(Keys(entries), i) ==> ValuesOf(entries, entries[i].key, 0) == ValuesOf(entries, entries[i].key, i)
  {
    if FirstAt(Keys(entries), i) {
      forall m | 0 <= m < i ensures entries[m].key != entries[i].key {
        assert Keys(entries)[m] != Keys(entries)[i];
      }
      ValuesSkip(entries, entries[i].key, 0, i);
    }
  }

  /** The values from a node on begin with its own, and go on where its key stands next. */
  lemma {:induction false} ValuesFromNext<K, V>(entries: seq<Entry<K, V>>, i: nat, next: nat)
    requires i < |entries| && IsNextSame(Keys(entries), i, next)
    ensures next < |entries| && entries[next].key == entries[i].key
    ensures ValuesOf(entries, entries[i].key, i) == [entries[i].value] + ValuesOf(entries, entries[i].key, next)
  {
    forall m | i < m < next ensures entries[m].key != entries[i].key {
      assert Keys(entries)[m] != Keys(entries)[i];
    }
    ValuesSkip(entries, entries[i].key, i + 1, next);
  }

  lemma {:induction false} ValuesAtLast<K, V>(entries: seq<Entry<K, V>>, i: nat)
    requires i < |entries| && !HasLater(Keys(entries), i)
    ensures ValuesOf(entries, entries[i].key, i) == [entries[i].value]
  {
    forall m | i < m < |entries| ensures entries[m].key != entries[i].key {
      assert Keys(entries)[m] != Keys(entries)[i];
    }
    ValuesSkip(entries, entries[i].key, i + 1, |entries|);
  }

  /** What one step along a chain finds, read off the flags of the node's link. */
  lemma {:induction false} Follow<K, V>(nodes: seq<Node<K, V>>, i: nat)
    requires Linked(nodes) && i < |nodes|
    ensures var entries, key, next := Entries(nodes), nodes[i].entry.key, nodes[i].next;
      && (next.HasMoreDuplicates() ==>
            && i < next.nextIndex < |nodes|
            && nodes[next.nextIndex].entry.key == key
            && ValuesOf(entries, key, i) == [nodes[i].entry.value] + ValuesOf(entries, key, next.nextIndex))
      && (!next.HasMoreDuplicates() ==> ValuesOf(entries, key, i) == [nodes[i].entry.value])
      && (next.HasMoreDuplicates() <==> HasLater(Keys(entries), i))
      && (next.isDuplicateEntry || next.isDuplicateTail <==> !FirstAt(Keys(entries), i))
      && (FirstAt(Keys(entries), i) ==> ValuesOf(entries, key, 0) == ValuesOf(entries, key, i))
      && (next.isDuplicateHead ==> FirstAt(Keys(entries), i))
  {
    var entries, next := Entries(nodes), nodes[i].next;
    assert entries[i] == nodes[i].entry;
    assert LinkIsRight(Keys(entries), i, next);
    if HasLater(Keys(entries), i) {
      ValuesFromNext(entries, i, next.nextIndex);
      assert entries[next.nextIndex] == nodes[next.nextIndex].entry;
    } else {
      ValuesAtLast(entries, i);
    }
    FirstHasAllValues(entries, i);
  }

  class MultiMap<K(==), V> {
    const hash: K -> nat
    var nextHashBufferGrowth: nat
    var hashBufferUseCount: nat
    var hashBuffer: seq<int>
    var nodeBuffer: seq<Node<K, V>>

    ghost predicate Valid()
      reads this
    {
      && WellFormed(hashBuffer, nodeBuffer, hashBufferUseCount, hash)
      && 4 * nextHashBufferGrowth == 3 * |hashBuffer|
    }

    constructor (hash: K -> nat)
      ensures Valid() && this.hash == hash && nodeBuffer == []
      ensures |hashBuffer| == 1024 && nextHashBufferGrowth == 768 && forall h :: 0 <= h < 1024 ==> hashBuffer[h] == SENTINEL
    {
      this.hash := hash;
      nextHashBufferGrowth := INITIAL_GROWTH;
      hashBufferUseCount := 0;
      hashBuffer := seq(INITIAL_COUNT, _ => SENTINEL);
      nodeBuffer := [];
      new;
      InitialCountIsPow2();
      assert Heads(Keys(Entries(nodeBuffer))) == {};
    }

    /** Growth re-indexes the chain heads only and leaves the chains alone. */
    method Grow()
      requires Valid()
      modifies `hashBuffer, `nextHashBufferGrowth
      ensures Valid() && |hashBuffer| == 2 * old(|hashBuffer|) && nextHashBufferGrowth == 2 * old(nextHashBufferGrowth)
      ensures hashBufferUseCount < nextHashBufferGrowth
    {
      var keys := Keys(Entries(nodeBuffer));
      var isHead := seq(|nodeBuffer|, i requires 0 <= i < |nodeBuffer| reads this =>
        !(nodeBuffer[i].next.isDuplicateEntry || nodeBuffer[i].next.isDuplicateTail));
      forall i | 0 <= i < |keys| ensures isHead[i] == FirstAt(keys, i) {
        Follow(nodeBuffer, i);
      }
      DoublePow2(|hashBuffer|);
      nextHashBufferGrowth := nextHashBufferGrowth * 2;
      hashBuffer := Rehash(keys, isHead, hash, |hashBuffer| * 2);
    }

    /** Walks to the end of the chain that starts at a node. */
    method FindTail(start: nat) returns (tail: nat)
      requires Valid() && start < |nodeBuffer|
      ensures tail < |nodeBuffer| && nodeBuffer[tail].entry.key == nodeBuffer[start].entry.key
      ensures !HasLater(Keys(Entries(nodeBuffer)), tail)
    {
      tail := start;
      Follow(nodeBuffer, tail);
      while nodeBuffer[tail].next.HasMoreDuplicates()
        invariant tail < |nodeBuffer| && nodeBuffer[tail].entry.key == nodeBuffer[start].entry.key
        decreases |nodeBuffer| - tail
      {
        Follow(nodeBuffer, tail);
        tail := nodeBuffer[tail].next.nextIndex;
      }
      Follow(nodeBuffer, tail);
    }

    method Insert(v: Entry<K, V>)
      requires Valid() && |nodeBuffer| < NEXT_INDEX_LIMIT
      modifies this
      ensures Valid()
      ensures Entries(nodeBuffer) == old(Entries(nodeBuffer)) + [v]
    {
      if hashBufferUseCount == nextHashBufferGrowth {
        Grow();
      }
      var slot, k := FindSlot(hashBuffer, Keys(Entries(nodeBuffer)), hash, v.key);
      if hashBuffer[slot] == SENTINEL {
        AppendFresh(hashBuffer, nodeBuffer, hashBufferUseCount, hash, v, slot, k);
        hashBuffer := hashBuffer[slot := |nodeBuffer|];
        hashBufferUseCount := hashBufferUseCount + 1;
        nodeBuffer := WithFresh(nodeBuffer, v);
      } else {
        var tail := FindTail(hashBuffer[slot]);
        AppendDuplicate(hashBuffer, nodeBuffer, hashBufferUseCount, hash, v, tail);
        nodeBuffer := WithDuplicate(nodeBuffer, v, tail);
      }
    }

    /** Calls back once per distinct key; the calls are returned in order. */
    method ForEachEntry() returns (calls: seq<Group<K, V>>)
      requires Valid()
      ensures calls == Groups(Entries(nodeBuffer), |nodeBuffer|)
    {
      ghost var entries := Entries(nodeBuffer);
      calls := [];
      for i := 0 to |nodeBuffer|
        invariant calls == Groups(entries, i)
      {
        var head := nodeBuffer[i];
        Follow(nodeBuffer, i);
        if !head.next.HasAnyDuplicates() {
          calls := calls + [Group(head.entry.key, [head.entry.value])];
        } else if head.next.isDuplicateHead {
          var valuesCount := CountChain(i);
          var values := CopyChain(i);
          assert |values| == valuesCount;
          calls := calls + [Group(head.entry.key, values)];
        }
      }
    }

    /** Works out how long the list of a head is. */
    method CountChain(head: nat) returns (valuesCount: nat)
      requires Valid() && head < |nodeBuffer| && nodeBuffer[head].next.isDuplicateHead
      ensures valuesCount == |ValuesOf(Entries(nodeBuffer), nodeBuffer[head].entry.key, 0)|
    {
      ghost var entries, key, cur := Entries(nodeBuffer), nodeBuffer[head].entry.key, head;
      var next := nodeBuffer[head].next;
      Follow(nodeBuffer, cur);
      valuesCount := 1;
      while nodeBuffer[next.nextIndex].next.HasMoreDuplicates()
        invariant cur < next.nextIndex < |nodeBuffer| && nodeBuffer[next.nextIndex].entry.key == key
        invariant valuesCount + |ValuesOf(entries, key, next.nextIndex)| == |ValuesOf(entries, key, 0)|
        decreases |nodeBuffer| - cur
      {
        Follow(nodeBuffer, next.nextIndex);
        cur := next.nextIndex;
        next := nodeBuffer[next.nextIndex].next;
        valuesCount := valuesCount + 1;
      }
      Follow(nodeBuffer, next.nextIndex);
      valuesCount := valuesCount + 1;
    }

    /** Copies the values of a list, head first. */
    method CopyChain(head: nat) returns (values: seq<V>)
      requires Valid() && head < |nodeBuffer| && nodeBuffer[head].next.isDuplicateHead
      ensures values == ValuesOf(Entries(nodeBuffer), nodeBuffer[head].entry.key, 0)
    {
      ghost var entries, key, cur := Entries(nodeBuffer), nodeBuffer[head].entry.key, head;
      var next := nodeBuffer[head].next;
      Follow(nodeBuffer, cur);
      values := [nodeBuffer[head].entry.value];
      while nodeBuffer[next.nextIndex].next.HasMoreDuplicates()
        invariant cur < next.nextIndex < |nodeBuffer| && nodeBuffer[next.nextIndex].entry.key == key
        invariant values + ValuesOf(entries, key, next.nextIndex) == ValuesOf(entries, key, 0)
        decreases |nodeBuffer| - cur
      {
        Follow(nodeBuffer, next.nextIndex);
        cur := next.nextIndex;
        values := values + [nodeBuffer[next.nextIndex].entry.value];
        next := nodeBuffer[next.nextIndex].next;
      }
      Follow(nodeBuffer, next.nextIndex);
      values := values + [nodeBuffer[next.nextIndex].entry.value];
    }
  }

  /** Over whole runs: the callbacks group the inserted entries by key. */
  method InsertAllThenForEach<K(==), V>(hash: K -> nat, ops: seq<Entry<K, V>>) returns (calls: seq<Group<K, V>>)
    requires |ops| <= NEXT_INDEX_LIMIT
    ensures calls == Groups(ops, |ops|)
  {
    var m := InsertAll(hash, ops);
    calls := m.ForEachEntry();
  }

  method InsertAll<K(==), V>(hash: K -> nat, ops: seq<Entry<K, V>>) returns (m: MultiMap<K, V>)
    requires |ops| <= NEXT_INDEX_LIMIT
    ensures fresh(m) && m.Valid() && Entries(m.nodeBuffer) == ops
  {
    m := new MultiMap(hash);
    assert Entries(m.nodeBuffer) == [];
    for n := 0 to |ops|
      invariant fresh(m) && m.Valid()
      invariant Entries(m.nodeBuffer) == ops[..n]
    {
      m.Insert(ops[n]);
      assert ops[..n + 1] == ops[..n] + [ops[n]];
    }
    assert ops[..|ops|] == ops;
  }

  function GroupKeys<K, V>(groups: seq<Group<K, V>>): (r: seq<K>)
    ensures |r| == |groups| && forall i :: 0 <= i < |r| ==> r[i] == groups[i].key
  {
    seq(|groups|, i requires 0 <= i < |groups| => groups[i].key)
  }

  /** The callbacks visit the keys that a `Map` would hold, in the same order. */
  lemma {:induction false} GroupKeysAreFirstInserts<K, V>(ops: seq<Entry<K, V>>, n: nat)
    requires n <= |ops|
    ensures GroupKeys(Groups(ops, n)) == Keys(FirstInserts(ops[..n]))
  {
    if n > 0 {
      GroupKeysAreFirstInserts(ops, n - 1);
      KeptKeys(ops[..n - 1]);
      assert ops[..n][..n - 1] == ops[..n - 1];
      assert Keys(ops[..n - 1]) == Keys(ops)[..n - 1];
      HeadsOfPrefix(Keys(ops), n - 1);
    }
  }

  function TotalValues<K, V>(groups: seq<Group<K, V>>): nat {
    if groups == [] then 0 else TotalValues(groups[..|groups| - 1]) + |groups[|groups| - 1].values|
  }

  lemma {:induction false} Regroup<V>(a: seq<V>, b: seq<V>, c: seq<V>)
    ensures a + (b + c) == (a + b) + c
  {
  }

  lemma {:induction false} ValuesAppend<K, V>(entries: seq<Entry<K, V>>, e: Entry<K, V>, key: K, from: nat)
    requires from <= |entries|
    ensures ValuesOf(entries + [e], key, from) == ValuesOf(entries, key, from) + (if e.key == key then [e.value] else [])
    decreases |entries| - from
  {
    var longer := entries + [e];
    if from < |entries| {
      assert longer[from] == entries[from];
      ValuesAppend(entries, e, key, from + 1);
      Regroup(if entries[from].key == key then [entries[from].value] else [], ValuesOf(entries, key, from + 1),
              if e.key == key then [e.value] else []);
    } else {
      assert longer[from] == e && ValuesOf(longer, key, from + 1) == [];
    }
  }

  lemma {:induction false} TotalStep<K, V>(entries: seq<Entry<K, V>>, n: nat)
    requires 0 < n <= |entries|
    ensures TotalValues(Groups(entries, n)) == TotalValues(Groups(entries, n - 1)) +
      if FirstAt(Keys(entries), n - 1) then |ValuesOf(entries, entries[n - 1].key, 0)| else 0
  {
    var g := Group(entries[n - 1].key, ValuesOf(entries, entries[n - 1].key, 0));
    assert (Groups(entries, n - 1) + [g])[..|Groups(entries, n - 1)|] == Groups(entries, n - 1);
    assert Groups(entries, n - 1) + [] == Groups(entries, n - 1);
  }

  lemma {:induction false} SeenBefore<K, V>(entries: seq<Entry<K, V>>, n: nat, key: K)
    requires n < |entries|
    ensures FirstAt(Keys(entries), n) <==> entries[n].key !in Keys(entries[..n])
    ensures key in Keys(entries[..n + 1]) <==> key in Keys(entries[..n]) || key == entries[n].key
  {
    assert Keys(entries)[..n] == Keys(entries[..n]);
    HeadsOfPrefix(Keys(entries), n);
    assert Keys(entries[..n + 1]) == Keys(entries[..n]) + [entries[n].key];
  }

  lemma {:induction false} TotalAppend<K, V>(entries: seq<Entry<K, V>>, e: Entry<K, V>, n: nat)
    requires n <= |entries|
    ensures TotalValues(Groups(entries + [e], n)) ==
      TotalValues(Groups(entries, n)) + if e.key in Keys(entries[..n]) then 1 else 0
  {
    if n > 0 {
      var longer := entries + [e];
      TotalAppend(entries, e, n - 1);
      TotalStep(entries, n);
      TotalStep(longer, n);
      SeenBefore(entries, n - 1, e.key);
      SeenBefore(longer, n - 1, e.key);
      assert longer[..n - 1] == entries[..n - 1];
      ValuesAppend(entries, e, entries[n - 1].key, 0);
    }
  }

  /** No inserted value is lost or reported twice. */
  lemma {:induction false} NothingLost<K, V>(ops: seq<Entry<K, V>>)
    ensures TotalValues(Groups(ops, |ops|)) == |ops|
  {
    if ops != [] {
      var n := |ops| - 1;
      var front, e := ops[..n], ops[n];
      assert ops == front + [e] && front[..n] == front;
      NothingLost(front);
      TotalAppend(front, e, n);
      TotalStep(ops, n + 1);
      SeenBefore(ops, n, e.key);
      ValuesAppend(front, e, e.key, 0);
      if e.key !in Keys(front) {
        forall m | 0 <= m < n ensures front[m].key != e.key {
          assert Keys(front)[m] in Keys(front);
        }
        ValuesSkip(front, e.key, 0, n);
      }
    }
  }
}
