/**
 The table of Objective-C classes in a closure: collected from the images in
 load order, hashed by name, and packed into 32-bit words.
 */
module ClassTable {
  import opened ClassPositions
  import opened HashTables
  import opened Lists
  import opened Maps
  import opened MultiMaps

  /** Where a class name is: an offset in the name section of an image (8 and 24 bits). */
  datatype NameTarget = NameTarget(imageIndex: nat, offset: nat)

  /** Where a class is: an offset in the data section of an image (8 and 23 bits). */
  datatype ClassData = ClassData(imageIndex: nat, offset: nat)

  /** A word of the table: one class, or how many duplicates there are and where they start (8, 23 and 1 bits). */
  datatype ClassTarget = ClassTarget(low: nat, middle: nat, isDuplicate: bool)

  const NO_NAME := NameTarget(0xFF, 0xFF_FFFF)
  const NO_CLASS := ClassTarget(0xFF, 0x7F_FFFF, true)

  /** A class as an image's scan records it: its name and its data are under one image index. */
  datatype SeenClass = SeenClass(imageIndex: nat, nameOffset: nat, dataOffset: nat) {
    function Name(): NameTarget { NameTarget(imageIndex, nameOffset) }

    function Data(): ClassData { ClassData(imageIndex, dataOffset) }
  }

  datatype ObjCImage = ObjCImage(hasError: bool, seenClasses: seq<SeenClass>)

  function Single(d: ClassData): ClassTarget { ClassTarget(d.imageIndex, d.offset, false) }

  /** The bit fields cut the count and the index down to their widths. */
  function Placeholder(count: nat, index: nat): ClassTarget { ClassTarget(count % 0x100, index % INDEX_LIMIT, true) }

  function CheckByte(name: string): nat {
    (if name == "" then 0 else name[0] as int % 8 * 0x20) + |name| % 0x20
  }

  /** Check bytes have eight bits and tell apart names whose lengths differ modulo 32 or whose first letters differ modulo 8. */
  lemma {:induction false} CheckBytesDiffer(a: string, b: string)
    ensures 0 <= CheckByte(a) < 0x100
    ensures |a| % 32 != |b| % 32 ==> CheckByte(a) != CheckByte(b)
    ensures a != "" && b != "" && a[0] as int % 8 != b[0] as int % 8 ==> CheckByte(a) != CheckByte(b)
  {
    CheckFields(a);
    CheckFields(b);
  }

  lemma {:induction false} CheckFields(name: string)
    ensures CheckByte(name) % 32 == |name| % 32
    ensures CheckByte(name) / 32 == if name == "" then 0 else name[0] as int % 8
  {
    var letter, length := if name == "" then 0 else name[0] as int % 8, |name| % 32;
    assert CheckByte(name) == 32 * letter + length;
  }

  // ----- what the images hold -----

  /** The images are walked backwards, and each image's classes forwards. */
  function InLoadOrder(images: seq<ObjCImage>): seq<SeenClass> {
    if images == [] then []
    else InLoadOrder(images[1..]) + if images[0].hasError then [] else images[0].seenClasses
  }

  lemma {:induction false} SuffixIsShorter(images: seq<ObjCImage>, n: nat)
    requires n <= |images|
    ensures |InLoadOrder(images[n..])| <= |InLoadOrder(images)|
  {
    if n == 0 {
      assert images[0..] == images;
    } else {
      SuffixIsShorter(images[1..], n - 1);
      assert images[1..][n - 1..] == images[n..];
    }
  }

  function ClassEntries(seen: seq<SeenClass>, nameOf: NameTarget -> string): seq<Entry<string, ClassData>> {
    seq(|seen|, i requires 0 <= i < |seen| => Entry(nameOf(seen[i].Name()), seen[i].Data()))
  }

  function NameEntries(seen: seq<SeenClass>, nameOf: NameTarget -> string): seq<Entry<string, NameTarget>> {
    seq(|seen|, i requires 0 <= i < |seen| => Entry(nameOf(seen[i].Name()), seen[i].Name()))
  }

  lemma {:induction false} SameKeys(seen: seq<SeenClass>, nameOf: NameTarget -> string)
    ensures Keys(ClassEntries(seen, nameOf)) == Keys(NameEntries(seen, nameOf))
  {
  }

  /** Fills the two maps; names get their target only when they are inserted. */
  method AddClass(seen: SeenClass, nameOf: NameTarget -> string, classes: MultiMap<string, ClassData>, names: Map<string, NameTarget>)
    requires classes.Valid() && names.Valid() && |classes.nodeBuffer| < NEXT_INDEX_LIMIT
    modifies classes, names
    ensures classes.Valid() && names.Valid()
    ensures Entries(classes.nodeBuffer) == old(Entries(classes.nodeBuffer)) + [Entry(nameOf(seen.Name()), seen.Data())]
    ensures names.nodeBuffer ==
      if nameOf(seen.Name()) in old(Keys(names.nodeBuffer)) then old(names.nodeBuffer)
      else old(names.nodeBuffer) + [Entry(nameOf(seen.Name()), seen.Name())]
  {
    var className := nameOf(seen.Name());
    classes.Insert(Entry(className, seen.Data()));
    var index, inserted := names.Insert(Entry(className, NameTarget(0, 0)));
    if inserted {
      assert index == |names.nodeBuffer| - 1 by {
        assert Keys(names.nodeBuffer)[|names.nodeBuffer| - 1] == Keys(names.nodeBuffer)[index];
      }
      names.SetValue(index, seen.Name());
    }
  }

  method CollectClasses(images: seq<ObjCImage>, nameOf: NameTarget -> string, hash: string -> nat)
    returns (classes: MultiMap<string, ClassData>, names: Map<string, NameTarget>)
    requires |InLoadOrder(images)| <= NEXT_INDEX_LIMIT
    ensures fresh(classes) && fresh(names) && Hold(classes, names, InLoadOrder(images), nameOf)
  {
    classes := new MultiMap(hash);
    names := new Map(hash);
    assert Entries(classes.nodeBuffer) == [];
    var n := |images|;
    while n > 0
      invariant 0 <= n <= |images|
      invariant fresh(classes) && fresh(names) && Hold(classes, names, InLoadOrder(images[n..]), nameOf)
    {
      n := n - 1;
      assert images[n..][1..] == images[n + 1..];
      SuffixIsShorter(images, n);
      if !images[n].hasError {
        AddClasses(images[n].seenClasses, nameOf, classes, names, InLoadOrder(images[n + 1..]));
      } else {
        assert InLoadOrder(images[n..]) == InLoadOrder(images[n + 1..]) + [] == InLoadOrder(images[n + 1..]);
      }
    }
    assert images[0..] == images;
  }

  /** The maps hold the classes seen so far. */
  ghost predicate Hold(classes: MultiMap<string, ClassData>, names: Map<string, NameTarget>,
                       seen: seq<SeenClass>, nameOf: NameTarget -> string)
    reads classes, names
  {
    && classes.Valid() && names.Valid()
    && Entries(classes.nodeBuffer) == ClassEntries(seen, nameOf)
    && names.nodeBuffer == FirstInserts(NameEntries(seen, nameOf))
  }

  method AddClasses(seen: seq<SeenClass>, nameOf: NameTarget -> string, classes: MultiMap<string, ClassData>,
                    names: Map<string, NameTarget>, ghost done: seq<SeenClass>)
    requires Hold(classes, names, done, nameOf) && |done| + |seen| <= NEXT_INDEX_LIMIT
    modifies classes, names
    ensures Hold(classes, names, done + seen, nameOf)
  {
    assert done + seen[..0] == done;
    for i := 0 to |seen|
      invariant Hold(classes, names, done + seen[..i], nameOf)
    {
      assert done + seen[..i + 1] == done + seen[..i] + [seen[i]];
      AddOne(seen[i], nameOf, classes, names, done + seen[..i]);
    }
    assert seen[..|seen|] == seen;
  }

  method AddOne(seen: SeenClass, nameOf: NameTarget -> string, classes: MultiMap<string, ClassData>,
                names: Map<string, NameTarget>, ghost done: seq<SeenClass>)
    requires Hold(classes, names, done, nameOf) && |done| < NEXT_INDEX_LIMIT
    modifies classes, names
    ensures Hold(classes, names, done + [seen], nameOf)
  {
    assert |classes.nodeBuffer| == |Entries(classes.nodeBuffer)| == |done|;
    EntriesSnoc(done, seen, nameOf);
    AddClass(seen, nameOf, classes, names);
  }

  lemma {:induction false} EntriesSnoc(done: seq<SeenClass>, s: SeenClass, nameOf: NameTarget -> string)
    ensures ClassEntries(done + [s], nameOf) == ClassEntries(done, nameOf) + [Entry(nameOf(s.Name()), s.Data())]
    ensures var before, name := FirstInserts(NameEntries(done, nameOf)), nameOf(s.Name());
      FirstInserts(NameEntries(done + [s], nameOf)) == if name in Keys(before) then before else before + [Entry(name, s.Name())]
  {
    var e := NameEntries(done + [s], nameOf);
    assert e[..|e| - 1] == NameEntries(done, nameOf);
  }

  // ----- the table -----

  ghost predicate Hashes(hash: string -> nat, capacity: nat, names: seq<string>) {
    && (forall name: string :: hash(name) < capacity)
    && forall i, j :: 0 <= i < |names| && 0 <= j < |names| && i != j ==> hash(names[i]) != hash(names[j])
  }

  /** The classes in the duplicates array after the first n groups. */
  function FlatValues(groups: seq<Group<string, ClassData>>, n: nat): seq<ClassData>
    requires n <= |groups|
  {
    if n == 0 then [] else FlatValues(groups, n - 1) + if |groups[n - 1].values| != 1 then groups[n - 1].values else []
  }

  /** The duplicates of a group stand behind those of the groups before it. */
  lemma {:induction false} FlatAt(groups: seq<Group<string, ClassData>>, g: nat, n: nat)
    requires g < n <= |groups| && |groups[g].values| != 1
    ensures var start, count, flat := |FlatValues(groups, g)|, |groups[g].values|, FlatValues(groups, n);
      start + count <= |flat| && flat[start..start + count] == groups[g].values
    decreases n
  {
    if g < n - 1 {
      FlatAt(groups, g, n - 1);
      var before := FlatValues(groups, n - 1);
      SliceStays(before, if |groups[n - 1].values| != 1 then groups[n - 1].values else [], |FlatValues(groups, g)|,
                 |groups[g].values|);
    }
  }

  lemma {:induction false} SliceStays<T>(a: seq<T>, b: seq<T>, start: nat, count: nat)
    requires start + count <= |a|
    ensures (a + b)[start..start + count] == a[start..start + count]
  {
  }

  function Singles(values: seq<ClassData>): seq<ClassTarget> {
    seq(|values|, i requires 0 <= i < |values| => Single(values[i]))
  }

  /** The word in the slot of a group: its one class, or how many classes stand where among the duplicates. */
  function SlotFor(groups: seq<Group<string, ClassData>>, g: nat): ClassTarget
    requires g < |groups|
  {
    var values := groups[g].values;
    if |values| == 1 then Single(values[0]) else Placeholder(|values|, |FlatValues(groups, g)|)
  }

  ghost predicate IsSlotOf(slots: seq<ClassTarget>, hash: string -> nat, groups: seq<Group<string, ClassData>>, g: nat)
    requires g < |groups|
  {
    hash(groups[g].key) < |slots| && slots[hash(groups[g].key)] == SlotFor(groups, g)
  }

  ghost predicate IsFreeSlot(hash: string -> nat, groups: seq<Group<string, ClassData>>, n: nat, h: nat)
    requires n <= |groups|
  {
    forall g {:trigger groups[g]} :: 0 <= g < n ==> hash(groups[g].key) != h
  }

  ghost predicate HoldsGroups(slots: seq<ClassTarget>, hash: string -> nat, groups: seq<Group<string, ClassData>>, n: nat)
    requires n <= |groups|
  {
    forall g: nat {:trigger IsSlotOf(slots, hash, groups, g)} :: g < n ==> IsSlotOf(slots, hash, groups, g)
  }

  ghost predicate OthersAreFree(slots: seq<ClassTarget>, hash: string -> nat, groups: seq<Group<string, ClassData>>, n: nat)
    requires n <= |groups|
  {
    forall h: nat {:trigger IsFreeSlot(hash, groups, n, h)} :: h < |slots| && IsFreeSlot(hash, groups, n, h) ==>
      slots[h] == ClassTarget(0xFF, 0x7F_FFFF, true)
  }

  /** The slots and the duplicates hold the first n groups and nothing else. */
  ghost predicate SlotsAre(slots: seq<ClassTarget>, duplicates: seq<ClassTarget>, hash: string -> nat,
                           groups: seq<Group<string, ClassData>>, n: nat)
    requires n <= |groups|
  {
    && duplicates == Singles(FlatValues(groups, n))
    && HoldsGroups(slots, hash, groups, n) && OthersAreFree(slots, hash, groups, n)
  }

  lemma {:induction false} OthersStayFree(slots: seq<ClassTarget>, hash: string -> nat,
                                          groups: seq<Group<string, ClassData>>, n: nat, raw: ClassTarget)
    requires n < |groups| && OthersAreFree(slots, hash, groups, n) && hash(groups[n].key) < |slots|
    ensures OthersAreFree(slots[hash(groups[n].key) := raw], hash, groups, n + 1)
  {
    var after := slots[hash(groups[n].key) := raw];
    forall h: nat | h < |slots| && IsFreeSlot(hash, groups, n + 1, h) ensures after[h] == NO_CLASS {
      assert hash(groups[n].key) != h;
      assert IsFreeSlot(hash, groups, n, h);
    }
  }

  /** Writing one more group at its own slot disturbs no other. */
  lemma {:induction false} HoldsOneMore(slots: seq<ClassTarget>, hash: string -> nat,
                                        groups: seq<Group<string, ClassData>>, n: nat, after: seq<ClassTarget>)
    requires n < |groups| && HoldsGroups(slots, hash, groups, n) && hash(groups[n].key) < |slots|
    requires IsFreeSlot(hash, groups, n, hash(groups[n].key))
    requires after == slots[hash(groups[n].key) := SlotFor(groups, n)]
    ensures HoldsGroups(after, hash, groups, n + 1)
  {
    forall g: nat | g < n + 1 ensures IsSlotOf(after, hash, groups, g) {
      if g < n {
        assert IsSlotOf(slots, hash, groups, g) && hash(groups[g].key) != hash(groups[n].key);
      }
    }
  }

  lemma {:induction false} SinglesAppend(a: seq<ClassData>, b: seq<ClassData>)
    ensures Singles(a + b) == Singles(a) + Singles(b)
  {
  }

  lemma {:induction false} NextKeyIsFresh(hash: string -> nat, capacity: nat, strings: seq<Entry<string, NameTarget>>,
                                          groups: seq<Group<string, ClassData>>, n: nat)
    requires Keys(strings) == GroupKeys(groups) && Hashes(hash, capacity, Keys(strings)) && n < |groups|
    ensures n < |strings| && strings[n].key == groups[n].key && groups[n].key in Keys(strings)
    ensures IsFreeSlot(hash, groups, n, hash(groups[n].key))
  {
    assert strings[n].key == Keys(strings)[n] == GroupKeys(groups)[n];
    forall g | 0 <= g < n ensures hash(groups[g].key) != hash(groups[n].key) {
      assert groups[g].key == GroupKeys(groups)[g] == Keys(strings)[g];
    }
  }

  class ObjCClassOpt {
    const hash: string -> nat
    const capacity: nat
    var targets: seq<NameTarget>
    var checkBytes: seq<nat>
    var classOffsets: seq<ClassTarget>
    var duplicateOffsets: seq<ClassTarget>

    constructor (hash: string -> nat, capacity: nat)
      ensures this.hash == hash && this.capacity == capacity
    {
      this.hash, this.capacity := hash, capacity;
      targets, checkBytes, classOffsets, duplicateOffsets := [], [], [], [];
    }

    ghost predicate HasString(e: Entry<string, NameTarget>)
      requires |targets| == |checkBytes| == capacity
      reads this
    {
      var h := hash(e.key);
      h < capacity && targets[h] == e.value && checkBytes[h] == CheckByte(e.key)
    }

    ghost predicate StringsAre(strings: seq<Entry<string, NameTarget>>, n: nat)
      requires n <= |strings|
      reads this
    {
      && |targets| == |checkBytes| == capacity
      && (forall i {:trigger strings[i]} :: 0 <= i < n ==> HasString(strings[i]))
      && (forall h :: 0 <= h < capacity && (forall i {:trigger strings[i]} :: 0 <= i < n ==> hash(strings[i].key) != h) ==>
            targets[h] == NameTarget(0xFF, 0xFF_FFFF) && checkBytes[h] == 0)
    }

    method WriteStrings(strings: seq<Entry<string, NameTarget>>)
      requires Hashes(hash, capacity, Keys(strings))
      modifies `targets, `checkBytes
      ensures StringsAre(strings, |strings|)
    {
      targets := seq(capacity, _ => NO_NAME);
      checkBytes := seq(capacity, _ => 0);
      for n := 0 to |strings|
        invariant StringsAre(strings, n)
      {
        var h := hash(strings[n].key);
        assert h == hash(Keys(strings)[n]);
        forall i | 0 <= i < n ensures hash(strings[i].key) != h {
          assert hash(Keys(strings)[i]) == hash(strings[i].key);
        }
        targets := targets[h := strings[n].value];
        checkBytes := checkBytes[h := CheckByte(strings[n].key)];
      }
    }

    ghost predicate ClassesAre(groups: seq<Group<string, ClassData>>, n: nat)
      requires n <= |groups|
      reads this
    {
      |classOffsets| == capacity && SlotsAre(classOffsets, duplicateOffsets, hash, groups, n)
    }

    /**
     Where the name would be. A name of the table is where its hash says; another
     name passes only if the check byte of its slot happens to be its own.
     */
    method GetIndex(name: string, ghost strings: seq<Entry<string, NameTarget>>) returns (index: Option<nat>)
      requires StringsAre(strings, |strings|) && hash(name) < capacity
      ensures index.Some? ==> index.value == hash(name)
      ensures index.Some? <==>
        || (exists i :: 0 <= i < |strings| && hash(strings[i].key) == hash(name) && CheckByte(strings[i].key) == CheckByte(name))
        || (CheckByte(name) == 0 && forall i :: 0 <= i < |strings| ==> hash(strings[i].key) != hash(name))
      ensures name in Keys(strings) ==> index.Some?
    {
      var h := hash(name);
      forall i | 0 <= i < |strings| && hash(strings[i].key) == h ensures checkBytes[h] == CheckByte(strings[i].key) {
        assert HasString(strings[i]);
      }
      assert forall i :: 0 <= i < |strings| ==> strings[i].key == Keys(strings)[i];
      index := if checkBytes[h] != CheckByte(name) then None else Some(h);
    }

    /** Writes one group; only the slot of its name changes, and the duplicates grow. */
    method WriteGroup(group: Group<string, ClassData>, ghost strings: seq<Entry<string, NameTarget>>)
      requires StringsAre(strings, |strings|) && group.key in Keys(strings) && hash(group.key) < capacity == |classOffsets|
      requires |group.values| < 0x100
      modifies `classOffsets, `duplicateOffsets
      ensures classOffsets == old(classOffsets)[hash(group.key) :=
        if |group.values| == 1 then Single(group.values[0]) else Placeholder(|group.values|, |old(duplicateOffsets)|)]
      ensures duplicateOffsets == old(duplicateOffsets) + if |group.values| == 1 then [] else Singles(group.values)
    {
      var index := GetIndex(group.key, strings);
      var keyIndex := index.value;
      if |group.values| == 1 {
        classOffsets := classOffsets[keyIndex := Single(group.values[0])];
        return;
      }
      var dest := |duplicateOffsets|;
      classOffsets := classOffsets[keyIndex := Placeholder(|group.values|, dest)];
      PushDuplicates(group.values);
    }

    method PushDuplicates(values: seq<ClassData>)
      modifies `duplicateOffsets
      ensures duplicateOffsets == old(duplicateOffsets) + Singles(values)
    {
      for i := 0 to |values|
        invariant duplicateOffsets == old(duplicateOffsets) + Singles(values)[..i]
      {
        duplicateOffsets := duplicateOffsets + [Single(values[i])];
      }
    }

    method WriteNext(groups: seq<Group<string, ClassData>>, n: nat, ghost strings: seq<Entry<string, NameTarget>>)
      requires n < |groups| && ClassesAre(groups, n) && StringsAre(strings, |strings|)
      requires hash(groups[n].key) < capacity && groups[n].key in Keys(strings)
      requires IsFreeSlot(hash, groups, n, hash(groups[n].key))
      requires |groups[n].values| < 0x100
      modifies `classOffsets, `duplicateOffsets
      ensures ClassesAre(groups, n + 1)
    {
      HoldsOneMore(classOffsets, hash, groups, n, classOffsets[hash(groups[n].key) := SlotFor(groups, n)]);
      OthersStayFree(classOffsets, hash, groups, n, SlotFor(groups, n));
      SinglesAppend(FlatValues(groups, n), if |groups[n].values| == 1 then [] else groups[n].values);
      WriteGroup(groups[n], strings);
    }

    /** Fails if a name has too many classes for the count field. */
    method WriteClasses(groups: seq<Group<string, ClassData>>, ghost strings: seq<Entry<string, NameTarget>>)
      returns (written: bool)
      requires StringsAre(strings, |strings|) && Keys(strings) == GroupKeys(groups) && Hashes(hash, capacity, Keys(strings))
      modifies `classOffsets, `duplicateOffsets
      ensures written <==> forall g :: 0 <= g < |groups| ==> |groups[g].values| < 0x100
      ensures written ==> ClassesAre(groups, |groups|)
    {
      classOffsets := seq(capacity, _ => NO_CLASS);
      duplicateOffsets := [];
      for n := 0 to |groups|
        invariant ClassesAre(groups, n) && StringsAre(strings, |strings|)
        invariant forall g :: 0 <= g < n ==> |groups[g].values| < 0x100
      {
        if |groups[n].values| >= 0x100 {
          return false;
        }
        NextKeyIsFresh(hash, capacity, strings, groups, n);
        WriteNext(groups, n, strings);
      }
      return true;
    }

    /**
     Calls back for every class of the name. The name stored in the slot decides
     whether the slot is the name's at all.
     */
    method ForEachClass(name: string, nameOf: NameTarget -> string, dataBase: nat -> nat,
                        ghost strings: seq<Entry<string, NameTarget>>, ghost groups: seq<Group<string, ClassData>>)
      returns (calls: seq<nat>)
      requires StringsAre(strings, |strings|) && ClassesAre(groups, |groups|)
      requires Keys(strings) == GroupKeys(groups) && Hashes(hash, capacity, Keys(strings))
      requires NamesReadBack(strings, nameOf) && GroupsFit(groups)
      ensures name !in Keys(strings) ==> calls == []
      ensures forall g :: 0 <= g < |groups| && groups[g].key == name ==>
        calls == Calls(Answer(groups, g), strings[g].value.imageIndex, dataBase)
    {
      calls := [];
      var index := GetIndex(name, strings);
      ghost var g := SlotOwner(name, strings);
      assert g < |strings| ==> HasString(strings[g]) && strings[g].key == Keys(strings)[g] == groups[g].key;
      forall k | 0 <= k < |groups| && groups[k].key == name ensures k == g {
        assert groups[k].key == GroupKeys(groups)[k] == Keys(strings)[k];
      }
      if index == None || targets[index.value] == NO_NAME {
        return;
      }
      var target := targets[index.value];
      if nameOf(target) != name {
        return;
      }
      assert IsSlotOf(classOffsets, hash, groups, g) && 0 < |groups[g].values| < 0x100;
      calls := ReadSlot(classOffsets[index.value], target.imageIndex, dataBase, groups, g);
    }

    /** The only name that can own the slot of the given one. */
    ghost method SlotOwner(name: string, strings: seq<Entry<string, NameTarget>>) returns (g: nat)
      requires StringsAre(strings, |strings|) && Hashes(hash, capacity, Keys(strings))
      requires forall i {:trigger strings[i]} :: 0 <= i < |strings| ==> strings[i].value != NO_NAME
      ensures g <= |strings|
      ensures g == |strings| ==> targets[hash(name)] == NO_NAME && name !in Keys(strings)
      ensures g < |strings| ==> hash(strings[g].key) == hash(name) && targets[hash(name)] == strings[g].value
                                && targets[hash(name)] != NO_NAME
      ensures forall i :: 0 <= i < |strings| && strings[i].key == name ==> i == g
    {
      if g' :| 0 <= g' < |strings| && hash(strings[g'].key) == hash(name) {
        g := g';
        assert HasString(strings[g]);
        forall i | 0 <= i < |strings| && strings[i].key == name ensures i == g {
          assert hash(Keys(strings)[i]) == hash(Keys(strings)[g]);
        }
      } else {
        g := |strings|;
      }
    }

    method ReadSlot(raw: ClassTarget, nameImage: nat, dataBase: nat -> nat,
                    ghost groups: seq<Group<string, ClassData>>, ghost g: nat) returns (calls: seq<nat>)
      requires g < |groups| && raw == SlotFor(groups, g) && 0 < |groups[g].values| < 0x100
      requires duplicateOffsets == Singles(FlatValues(groups, |groups|))
      ensures calls == Calls(Answer(groups, g), nameImage, dataBase)
    {
      ghost var answer := Answer(groups, g);
      AnswerStands(groups, g);
      if !raw.isDuplicate {
        return [dataBase(nameImage) + raw.middle];
      }
      var count, start := raw.low, raw.middle;
      calls := [];
      for i := 0 to count
        invariant calls == Addresses(answer, dataBase)[..i]
      {
        var duplicate := duplicateOffsets[start + i];
        assert duplicate == Single(answer[i]);
        calls := calls + [dataBase(duplicate.low) + duplicate.middle];
      }
    }
  }

  /** What the table answers for a group: what stands where the cut index leads. */
  function Answer(groups: seq<Group<string, ClassData>>, g: nat): seq<ClassData>
    requires g < |groups|
  {
    var values := groups[g].values;
    if |values| == 1 then values
    else
      FlatAt(groups, g, |groups|);
      var start := |FlatValues(groups, g)| % INDEX_LIMIT;
      FlatValues(groups, |groups|)[start..start + |values|]
  }

  lemma {:induction false} SliceAt<T>(a: seq<T>, start: nat, count: nat, part: seq<T>)
    requires start + count <= |a| && part == a[start..start + count]
    ensures |part| == count && forall i :: 0 <= i < count ==> part[i] == a[start + i]
  {
  }

  lemma {:induction false} AnswerStands(groups: seq<Group<string, ClassData>>, g: nat)
    requires g < |groups| && 0 < |groups[g].values| < 0x100
    ensures |Answer(groups, g)| == |groups[g].values|
    ensures |groups[g].values| != 1 ==>
      var raw, flat := SlotFor(groups, g), FlatValues(groups, |groups|);
      && raw.low == |groups[g].values| && raw.middle + raw.low <= |flat|
      && forall i :: 0 <= i < raw.low ==> Answer(groups, g)[i] == flat[raw.middle + i]
  {
    if |groups[g].values| != 1 {
      FlatAt(groups, g, |groups|);
      SliceAt(FlatValues(groups, |groups|), |FlatValues(groups, g)| % INDEX_LIMIT, |groups[g].values|, Answer(groups, g));
    }
  }

  ghost predicate NamesReadBack(strings: seq<Entry<string, NameTarget>>, nameOf: NameTarget -> string) {
    forall i {:trigger strings[i]} :: 0 <= i < |strings| ==> strings[i].value != NO_NAME && nameOf(strings[i].value) == strings[i].key
  }

  ghost predicate GroupsFit(groups: seq<Group<string, ClassData>>) {
    forall g {:trigger groups[g]} :: 0 <= g < |groups| ==> 0 < |groups[g].values| < 0x100
  }

  function Addresses(values: seq<ClassData>, dataBase: nat -> nat): seq<nat> {
    seq(|values|, i requires 0 <= i < |values| => Address(values[i], dataBase))
  }

  function Address(d: ClassData, dataBase: nat -> nat): nat { dataBase(d.imageIndex) + d.offset }

  /** A single class is looked up from the data section of its name's image. */
  function Calls(values: seq<ClassData>, nameImage: nat, dataBase: nat -> nat): seq<nat> {
    if |values| == 1 then [dataBase(nameImage) + values[0].offset] else Addresses(values, dataBase)
  }

  // ----- from the images to the callbacks -----

  /** Every entry kept is one that was inserted. */
  lemma {:induction false} KeptIsInserted<K, V>(ops: seq<Entry<K, V>>, e: Entry<K, V>)
    requires e in FirstInserts(ops)
    ensures e in ops
  {
    var front := ops[..|ops| - 1];
    if e in FirstInserts(front) {
      KeptIsInserted(front, e);
    }
  }

  /** Which keys are kept does not depend on the values. */
  lemma {:induction false} KeptKeysAgree<K, V, W>(a: seq<Entry<K, V>>, b: seq<Entry<K, W>>)
    requires Keys(a) == Keys(b)
    ensures Keys(FirstInserts(a)) == Keys(FirstInserts(b))
  {
    if a != [] {
      var n := |a| - 1;
      assert |a| == |Keys(a)| == |Keys(b)| == |b|;
      assert Keys(a[..n]) == Keys(a)[..n] && Keys(b[..n]) == Keys(b)[..n];
      assert a[n].key == Keys(a)[n] && b[n].key == Keys(b)[n];
      KeptKeysAgree(a[..n], b[..n]);
    }
  }

  lemma {:induction false} GroupIsOfKey<K, V>(entries: seq<Entry<K, V>>, n: nat, g: nat)
    requires n <= |entries| && g < |Groups(entries, n)|
    ensures var group := Groups(entries, n)[g];
      group.values == ValuesOf(entries, group.key, 0) && |group.values| > 0 && group.key in Keys(entries)
  {
    if g < |Groups(entries, n - 1)| {
      GroupIsOfKey(entries, n - 1, g);
    } else {
      assert entries[n - 1].key == Keys(entries)[n - 1];
      FirstHasAllValues(entries, n - 1);
    }
  }

  lemma {:induction false} NoValues<K, V>(entries: seq<Entry<K, V>>, key: K, from: nat)
    requires from <= |entries| && key !in Keys(entries)
    ensures ValuesOf(entries, key, from) == []
    decreases |entries| - from
  {
    if from < |entries| {
      assert Keys(entries)[from] != key;
      NoValues(entries, key, from + 1);
    }
  }

  /** A value of the key found at i is among the values; a single value leaves no other place for the key. */
  lemma {:induction false} ValueAt<K, V>(entries: seq<Entry<K, V>>, key: K, from: nat, i: nat)
    requires from <= i < |entries| && entries[i].key == key
    ensures entries[i].value in ValuesOf(entries, key, from)
    ensures |ValuesOf(entries, key, from)| == 1 ==>
      forall j :: from <= j < |entries| && entries[j].key == key ==> j == i
    decreases i - from
  {
    if from < i {
      ValueAt(entries, key, from + 1, i);
    } else {
      forall j | from < j < |entries| && entries[j].key == key ensures |ValuesOf(entries, key, from + 1)| > 0 {
        ValuesNotEmpty(entries, key, from + 1, j);
      }
    }
  }

  lemma {:induction false} ValuesNotEmpty<K, V>(entries: seq<Entry<K, V>>, key: K, from: nat, j: nat)
    requires from <= j < |entries| && entries[j].key == key
    ensures |ValuesOf(entries, key, from)| > 0
    decreases j - from
  {
    if from < j {
      ValuesNotEmpty(entries, key, from + 1, j);
    }
  }

  /** The implementations of a name, in load order. */
  ghost function Implementations(images: seq<ObjCImage>, nameOf: NameTarget -> string, name: string): seq<ClassData> {
    ValuesOf(ClassEntries(InLoadOrder(images), nameOf), name, 0)
  }

  ghost predicate FewEach(images: seq<ObjCImage>, nameOf: NameTarget -> string) {
    forall name :: |Implementations(images, nameOf, name)| < 0x100
  }

  lemma {:induction false} FindGroup<K, V>(entries: seq<Entry<K, V>>, key: K) returns (g: nat)
    requires key in Keys(entries)
    ensures var groups := Groups(entries, |entries|);
      g < |groups| && groups[g].key == key && groups[g].values == ValuesOf(entries, key, 0)
  {
    var groups := Groups(entries, |entries|);
    GroupKeysAreFirstInserts(entries, |entries|);
    assert entries[..|entries|] == entries;
    KeptKeys(entries);
    assert key in GroupKeys(groups);
    g :| 0 <= g < |groups| && GroupKeys(groups)[g] == key;
    GroupIsOfKey(entries, |entries|, g);
  }

  lemma {:induction false} FewInEachGroup(images: seq<ObjCImage>, nameOf: NameTarget -> string,
                                          groups: seq<Group<string, ClassData>>)
    requires var entries := ClassEntries(InLoadOrder(images), nameOf); groups == Groups(entries, |entries|)
    ensures FewEach(images, nameOf) <==> forall g :: 0 <= g < |groups| ==> |groups[g].values| < 0x100
  {
    var entries := ClassEntries(InLoadOrder(images), nameOf);
    if FewEach(images, nameOf) {
      forall g | 0 <= g < |groups| ensures |groups[g].values| < 0x100 {
        GroupIsOfKey(entries, |entries|, g);
        assert |Implementations(images, nameOf, groups[g].key)| < 0x100;
      }
    } else {
      var name :| |Implementations(images, nameOf, name)| >= 0x100;
      if name !in Keys(entries) {
        NoValues(entries, name, 0);
      }
      var g := FindGroup(entries, name);
    }
  }

  /** What the collected maps give the table writer. */
  lemma {:induction false} CollectedIsWritable(seen: seq<SeenClass>, nameOf: NameTarget -> string)
    requires forall i :: 0 <= i < |seen| ==> seen[i].imageIndex < 0xFF
    ensures var entries := ClassEntries(seen, nameOf);
      var groups, strings := Groups(entries, |entries|), FirstInserts(NameEntries(seen, nameOf));
      && Keys(strings) == GroupKeys(groups) && NamesReadBack(strings, nameOf)
      && forall g :: 0 <= g < |groups| ==> |groups[g].values| > 0
  {
    var entries, names := ClassEntries(seen, nameOf), NameEntries(seen, nameOf);
    var groups, strings := Groups(entries, |entries|), FirstInserts(names);
    assert entries[..|entries|] == entries && groups[..|groups|] == groups;
    GroupKeysAreFirstInserts(entries, |entries|);
    SameKeys(seen, nameOf);
    KeptKeysAgree(entries, names);
    forall i | 0 <= i < |strings| ensures strings[i].value != NO_NAME && nameOf(strings[i].value) == strings[i].key {
      KeptIsInserted(names, strings[i]);
    }
    forall g | 0 <= g < |groups| ensures |groups[g].values| > 0 {
      GroupIsOfKey(entries, |entries|, g);
    }
  }

  /** The name of a single class is stored with the place of that very class. */
  lemma {:induction false} SingleNameIsItsOwn(seen: seq<SeenClass>, nameOf: NameTarget -> string,
                                              e: Entry<string, NameTarget>, i: nat)
    requires e in FirstInserts(NameEntries(seen, nameOf)) && i < |seen| && nameOf(seen[i].Name()) == e.key
    requires |ValuesOf(ClassEntries(seen, nameOf), e.key, 0)| == 1
    ensures e.value == seen[i].Name() && ValuesOf(ClassEntries(seen, nameOf), e.key, 0) == [seen[i].Data()]
  {
    var entries, names := ClassEntries(seen, nameOf), NameEntries(seen, nameOf);
    KeptIsInserted(names, e);
    var j :| 0 <= j < |names| && names[j] == e;
    ValueAt(entries, e.key, 0, i);
    assert entries[j].key == e.key;
  }

  /** A single class is looked up from the image of its name, and that is its own image. */
  lemma {:induction false} CallsAreRight(images: seq<ObjCImage>, nameOf: NameTarget -> string, dataBase: nat -> nat,
                                         name: string, e: Entry<string, NameTarget>)
    requires e in FirstInserts(NameEntries(InLoadOrder(images), nameOf)) && e.key == name
    ensures var values := Implementations(images, nameOf, name);
      Calls(values, e.value.imageIndex, dataBase) == Addresses(values, dataBase)
  {
    var values, seen := Implementations(images, nameOf, name), InLoadOrder(images);
    if |values| == 1 {
      var names := NameEntries(seen, nameOf);
      KeptIsInserted(names, e);
      var j :| 0 <= j < |names| && names[j] == e;
      SingleNameIsItsOwn(seen, nameOf, e, j);
      assert Addresses(values, dataBase) == [Address(values[0], dataBase)];
    }
  }

  // ----- positions of the classes -----

  /** The values at some positions. */
  ghost function Picked<K, V>(entries: seq<Entry<K, V>>, positions: seq<nat>): seq<V>
    requires forall i :: 0 <= i < |positions| ==> positions[i] < |entries|
  {
    seq(|positions|, i requires 0 <= i < |positions| => entries[positions[i]].value)
  }

  ghost predicate Within<T>(positions: seq<nat>, all: seq<T>) {
    forall i :: 0 <= i < |positions| ==> positions[i] < |all|
  }

  lemma {:induction false} OwnWithin<K, V>(entries: seq<Entry<K, V>>, key: K, from: nat)
    requires from <= |entries|
    ensures Within(PositionsOf(Keys(entries), key, from), entries)
  {
    var own := PositionsOf(Keys(entries), key, from);
    forall i | 0 <= i < |own| ensures own[i] < |entries| {
      PositionIsOf(Keys(entries), key, from, own[i]);
    }
  }

  lemma {:induction false} PickedOne<K, V>(entries: seq<Entry<K, V>>, i: nat)
    requires i < |entries|
    ensures Within([i], entries) && Picked(entries, [i]) == [entries[i].value]
  {
  }

  lemma {:induction false} PickedNext<K, V>(entries: seq<Entry<K, V>>, from: nat, key: K, rest: seq<nat>)
    requires from < |entries| && Within(rest, entries) && ValuesOf(entries, key, from + 1) == Picked(entries, rest)
    ensures var own := if entries[from].key == key then [from] else [];
      Within(own + rest, entries) && ValuesOf(entries, key, from) == Picked(entries, own + rest)
  {
    if entries[from].key == key {
      PickedOne(entries, from);
      PickedAppend(entries, [from], rest);
    } else {
      assert [] + rest == rest;
      assert [] + Picked(entries, rest) == Picked(entries, rest);
    }
  }

  /** The values of a key are those at its positions. */
  lemma {:induction false} ValuesArePicked<K, V>(entries: seq<Entry<K, V>>, key: K, from: nat)
    requires from <= |entries|
    ensures Within(PositionsOf(Keys(entries), key, from), entries)
    ensures ValuesOf(entries, key, from) == Picked(entries, PositionsOf(Keys(entries), key, from))
    decreases |entries| - from
  {
    OwnWithin(entries, key, from);
    if from < |entries| {
      ValuesArePicked(entries, key, from + 1);
      assert Keys(entries)[from] == entries[from].key;
      PickedNext(entries, from, key, PositionsOf(Keys(entries), key, from + 1));
    }
  }

  lemma {:induction false} PickedAppend<K, V>(entries: seq<Entry<K, V>>, a: seq<nat>, b: seq<nat>)
    requires Within(a, entries) && Within(b, entries)
    ensures Within(a + b, entries) && Picked(entries, a + b) == Picked(entries, a) + Picked(entries, b)
  {
  }

  lemma {:induction false} GroupsGrow<K, V>(entries: seq<Entry<K, V>>, m: nat, n: nat)
    requires m <= n <= |entries|
    ensures Groups(entries, m) <= Groups(entries, n)
  {
    if m < n {
      GroupsGrow(entries, m, n - 1);
    }
  }

  lemma {:induction false} FlatPrefix(a: seq<Group<string, ClassData>>, b: seq<Group<string, ClassData>>, n: nat)
    requires n <= |a| && n <= |b| && a[..n] == b[..n]
    ensures FlatValues(a, n) == FlatValues(b, n)
  {
    if n > 0 {
      assert a[..n - 1] == a[..n][..n - 1] && b[..n - 1] == b[..n][..n - 1] && a[n - 1] == a[..n][n - 1] == b[n - 1];
      FlatPrefix(a, b, n - 1);
    }
  }

  lemma {:induction false} FlatMore(groups: seq<Group<string, ClassData>>, group: Group<string, ClassData>)
    ensures FlatValues(groups + [group], |groups| + 1)
         == FlatValues(groups, |groups|) + if |group.values| != 1 then group.values else []
  {
    FlatPrefix(groups, groups + [group], |groups|);
  }

  /** The duplicates array has the classes at the duplicate positions. */
  lemma {:induction false} FlatIsPicked(entries: seq<Entry<string, ClassData>>, n: nat)
    requires n <= |entries|
    ensures Within(FlatPositions(Keys(entries), n), entries)
    ensures var groups := Groups(entries, n);
      FlatValues(groups, |groups|) == Picked(entries, FlatPositions(Keys(entries), n))
  {
    if n > 0 {
      FlatIsPicked(entries, n - 1);
      FlatNext(entries, n - 1);
    }
  }

  lemma {:induction false} FlatNext(entries: seq<Entry<string, ClassData>>, n: nat)
    requires n < |entries| && Within(FlatPositions(Keys(entries), n), entries)
    requires var groups := Groups(entries, n);
      FlatValues(groups, |groups|) == Picked(entries, FlatPositions(Keys(entries), n))
    ensures Within(FlatPositions(Keys(entries), n + 1), entries)
    ensures var groups := Groups(entries, n + 1);
      FlatValues(groups, |groups|) == Picked(entries, FlatPositions(Keys(entries), n + 1))
  {
    var before, keys, key := Groups(entries, n), Keys(entries), entries[n].key;
    ValuesArePicked(entries, key, 0);
    PickedAppend(entries, FlatPositions(keys, n), Brought(keys, n));
    assert FlatPositions(keys, n + 1) == FlatPositions(keys, n) + Brought(keys, n) && keys[n] == key;
    if FirstAt(keys, n) {
      FlatMore(before, Group(key, ValuesOf(entries, key, 0)));
      assert Groups(entries, n + 1) == before + [Group(key, ValuesOf(entries, key, 0))];
    } else {
      assert Groups(entries, n + 1) == before;
    }
  }

  /** The group of the name that is first met at i. */
  lemma {:induction false} GroupAtFirst(entries: seq<Entry<string, ClassData>>, i: nat)
    requires i < |entries| && FirstAt(Keys(entries), i)
    ensures var groups, g := Groups(entries, |entries|), |Groups(entries, i)|;
      && g < |groups| && groups[g] == Group(entries[i].key, ValuesOf(entries, entries[i].key, 0))
      && FlatValues(groups, g) == FlatValues(Groups(entries, i), g)
  {
    GroupsGrow(entries, i, i + 1);
    GroupsGrow(entries, i + 1, |entries|);
    FlatPrefix(Groups(entries, |entries|), Groups(entries, i), |Groups(entries, i)|);
  }

  /** What the table answers for a name is what stands at the positions found. */
  lemma {:induction false} AnswerIsFound(entries: seq<Entry<string, ClassData>>, name: string) returns (g: nat)
    requires name in Keys(entries)
    ensures Within(FoundAt(Keys(entries), name), entries)
    ensures var groups := Groups(entries, |entries|);
      g < |groups| && groups[g].key == name && Answer(groups, g) == Picked(entries, FoundAt(Keys(entries), name))
  {
    var keys, groups := Keys(entries), Groups(entries, |entries|);
    var i := FirstIndex(keys, name, 0);
    assert i < |entries| && FirstAt(keys, i) && entries[i].key == keys[i] == name;
    g := |Groups(entries, i)|;
    GroupAtFirst(entries, i);
    GroupIsOfKey(entries, |entries|, g);
    ValuesArePicked(entries, name, 0);
    FlatIsPicked(entries, i);
    FlatIsPicked(entries, |entries|);
    var own := PositionsOf(keys, name, 0);
    if |own| > 1 {
      OwnStretch(keys, name);
    }
    AnswerAtStart(entries, groups, g, own, FlatPositions(keys, |keys|), StartOf(keys, name));
  }

  lemma {:induction false} PickedCut<K, V>(entries: seq<Entry<K, V>>, flat: seq<nat>, start: nat, count: nat)
    requires Within(flat, entries) && start + count <= |flat|
    ensures Within(CutStretch(flat, start, count), entries)
    ensures Picked(entries, CutStretch(flat, start, count))
         == Picked(entries, flat)[start % INDEX_LIMIT..start % INDEX_LIMIT + count]
  {
  }

  lemma {:induction false} AnswerAtStart(entries: seq<Entry<string, ClassData>>, groups: seq<Group<string, ClassData>>,
                                         g: nat, own: seq<nat>, flat: seq<nat>, start: nat)
    requires g < |groups| && |own| > 0 && |FlatValues(groups, g)| == start && (|own| > 1 ==> start + |own| <= |flat|)
    requires Within(own, entries) && groups[g].values == Picked(entries, own)
    requires Within(flat, entries) && FlatValues(groups, |groups|) == Picked(entries, flat)
    ensures var found := if |own| <= 1 then own else CutStretch(flat, start, |own|);
      Within(found, entries) && Answer(groups, g) == Picked(entries, found)
  {
    if |own| > 1 {
      PickedCut(entries, flat, start, |own|);
    }
  }

  /** The names of the classes, in load order. */
  function Names(images: seq<ObjCImage>, nameOf: NameTarget -> string): seq<string> {
    Keys(ClassEntries(InLoadOrder(images), nameOf))
  }

  /** The addresses of the classes at some positions. */
  ghost function AddressesAt(images: seq<ObjCImage>, positions: seq<nat>, dataBase: nat -> nat): seq<nat>
    requires Within(positions, InLoadOrder(images))
  {
    seq(|positions|, i requires 0 <= i < |positions| => Address(InLoadOrder(images)[positions[i]].Data(), dataBase))
  }

  /** What a lookup that does right by the table's groups means for the images. */
  lemma {:induction false} LookupMeans(images: seq<ObjCImage>, nameOf: NameTarget -> string, dataBase: nat -> nat,
                                       name: string, strings: seq<Entry<string, NameTarget>>,
                                       groups: seq<Group<string, ClassData>>, calls: seq<nat>)
    requires strings == FirstInserts(NameEntries(InLoadOrder(images), nameOf))
    requires var entries := ClassEntries(InLoadOrder(images), nameOf); groups == Groups(entries, |entries|)
    requires Keys(strings) == GroupKeys(groups)
    requires name !in Keys(strings) ==> calls == []
    requires forall g :: 0 <= g < |groups| && groups[g].key == name ==>
      g < |strings| && calls == Calls(Answer(groups, g), strings[g].value.imageIndex, dataBase)
    ensures Within(FoundAt(Names(images, nameOf), name), InLoadOrder(images))
    ensures calls == AddressesAt(images, FoundAt(Names(images, nameOf), name), dataBase)
  {
    var seen := InLoadOrder(images);
    var entries := ClassEntries(seen, nameOf);
    SameKeys(seen, nameOf);
    KeptKeys(NameEntries(seen, nameOf));
    if name in Keys(entries) {
      var g := AnswerIsFound(entries, name);
      assert strings[g].key == Keys(strings)[g] == GroupKeys(groups)[g] == name;
      AnswerAddresses(images, nameOf, dataBase, name, strings[g], g);
    } else {
      NoPositions(Keys(entries), name, 0);
    }
  }

  lemma {:induction false} NoPositions(names: seq<string>, name: string, from: nat)
    requires from <= |names| && name !in names
    ensures PositionsOf(names, name, from) == []
    decreases |names| - from
  {
    if from < |names| {
      NoPositions(names, name, from + 1);
    }
  }

  lemma {:induction false} AnswerAddresses(images: seq<ObjCImage>, nameOf: NameTarget -> string, dataBase: nat -> nat,
                                           name: string, e: Entry<string, NameTarget>, g: nat)
    requires e in FirstInserts(NameEntries(InLoadOrder(images), nameOf)) && e.key == name
    requires var entries := ClassEntries(InLoadOrder(images), nameOf);
      var groups := Groups(entries, |entries|);
      && g < |groups| && groups[g].key == name && Within(FoundAt(Keys(entries), name), entries)
      && Answer(groups, g) == Picked(entries, FoundAt(Keys(entries), name))
    ensures var entries := ClassEntries(InLoadOrder(images), nameOf);
      && Within(FoundAt(Names(images, nameOf), name), InLoadOrder(images))
      && Calls(Answer(Groups(entries, |entries|), g), e.value.imageIndex, dataBase)
         == AddressesAt(images, FoundAt(Names(images, nameOf), name), dataBase)
  {
    var entries := ClassEntries(InLoadOrder(images), nameOf);
    var answer := Answer(Groups(entries, |entries|), g);
    GroupIsOfKey(entries, |entries|, g);
    if |Implementations(images, nameOf, name)| == 1 {
      CallsAreRight(images, nameOf, dataBase, name, e);
    } else {
      FlatAt(Groups(entries, |entries|), g, |Groups(entries, |entries|)|);
    }
    assert Calls(answer, e.value.imageIndex, dataBase) == Addresses(answer, dataBase);
    PickedAddresses(images, nameOf, dataBase, entries, FoundAt(Names(images, nameOf), name));
  }

  lemma {:induction false} PickedAddresses(images: seq<ObjCImage>, nameOf: NameTarget -> string, dataBase: nat -> nat,
                                           entries: seq<Entry<string, ClassData>>, positions: seq<nat>)
    requires entries == ClassEntries(InLoadOrder(images), nameOf) && Within(positions, InLoadOrder(images))
    ensures Addresses(Picked(entries, positions), dataBase) == AddressesAt(images, positions, dataBase)
  {
  }

  method Write(strings: seq<Entry<string, NameTarget>>, groups: seq<Group<string, ClassData>>, perfectHash: string -> nat, capacity: nat)
    returns (written: bool, table: ObjCClassOpt)
    requires Keys(strings) == GroupKeys(groups) && Hashes(perfectHash, capacity, Keys(strings))
    ensures fresh(table) && table.hash == perfectHash && table.capacity == capacity
    ensures written <==> forall g :: 0 <= g < |groups| ==> |groups[g].values| < 0x100
    ensures written ==> table.StringsAre(strings, |strings|) && table.ClassesAre(groups, |groups|)
  {
    table := new ObjCClassOpt(perfectHash, capacity);
    table.WriteStrings(strings);
    written := table.WriteClasses(groups, strings);
  }

  method Build(images: seq<ObjCImage>, nameOf: NameTarget -> string, hash: string -> nat, perfectHash: string -> nat, capacity: nat)
    returns (built: bool, table: ObjCClassOpt, ghost strings: seq<Entry<string, NameTarget>>, ghost groups: seq<Group<string, ClassData>>)
    requires |InLoadOrder(images)| <= NEXT_INDEX_LIMIT
    requires forall i :: 0 <= i < |InLoadOrder(images)| ==> InLoadOrder(images)[i].imageIndex < 0xFF
    requires Hashes(perfectHash, capacity, Keys(FirstInserts(NameEntries(InLoadOrder(images), nameOf))))
    ensures fresh(table) && table.hash == perfectHash && table.capacity == capacity
    ensures strings == FirstInserts(NameEntries(InLoadOrder(images), nameOf))
    ensures var entries := ClassEntries(InLoadOrder(images), nameOf); groups == Groups(entries, |entries|)
    ensures Keys(strings) == GroupKeys(groups) && NamesReadBack(strings, nameOf)
    ensures built <==> FewEach(images, nameOf)
    ensures built ==> GroupsFit(groups) && table.StringsAre(strings, |strings|) && table.ClassesAre(groups, |groups|)
  {
    var classes, names := CollectClasses(images, nameOf, hash);
    CollectedIsWritable(InLoadOrder(images), nameOf);
    var entries := classes.ForEachEntry();
    strings, groups := names.nodeBuffer, entries;
    built, table := Write(names.nodeBuffer, entries, perfectHash, capacity);
    FewInEachGroup(images, nameOf, groups);
  }

  /** A name's own classes are reported exactly at these positions. */
  lemma {:induction false} ImplementationsAt(images: seq<ObjCImage>, nameOf: NameTarget -> string, dataBase: nat -> nat, name: string)
    ensures Within(PositionsOf(Names(images, nameOf), name, 0), InLoadOrder(images))
    ensures Addresses(Implementations(images, nameOf, name), dataBase)
         == AddressesAt(images, PositionsOf(Names(images, nameOf), name, 0), dataBase)
  {
    ValuesArePicked(ClassEntries(InLoadOrder(images), nameOf), name, 0);
  }

  /**
   From the images to the callbacks: the table can be built if no name has too
   many classes, and a lookup then calls back for the classes at the positions
   that are found, which are the name's own, in load order, unless the index of
   its duplicates was cut.
   */
  method BuildThenLookup(images: seq<ObjCImage>, nameOf: NameTarget -> string, hash: string -> nat,
                         perfectHash: string -> nat, capacity: nat, dataBase: nat -> nat, name: string)
    returns (built: bool, calls: seq<nat>)
    requires |InLoadOrder(images)| <= NEXT_INDEX_LIMIT
    requires forall i :: 0 <= i < |InLoadOrder(images)| ==> InLoadOrder(images)[i].imageIndex < 0xFF
    requires Hashes(perfectHash, capacity, Keys(FirstInserts(NameEntries(InLoadOrder(images), nameOf))))
    ensures built <==> FewEach(images, nameOf)
    ensures built ==>
      && Within(FoundAt(Names(images, nameOf), name), InLoadOrder(images))
      && calls == AddressesAt(images, FoundAt(Names(images, nameOf), name), dataBase)
    ensures built && StartOf(Names(images, nameOf), name) < 0x80_0000 ==>
      calls == Addresses(Implementations(images, nameOf, name), dataBase)
  {
    ghost var strings, groups;
    var table;
    built, table, strings, groups := Build(images, nameOf, hash, perfectHash, capacity);
    calls := [];
    if built {
      calls := table.ForEachClass(name, nameOf, dataBase, strings, groups);
      LookupMeans(images, nameOf, dataBase, name, strings, groups, calls);
      FoundExactly(Names(images, nameOf), name);
      ImplementationsAt(images, nameOf, dataBase, name);
    }
  }
}
