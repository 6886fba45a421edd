/**
 Containers of typed bytes: written into a buffer that grows, walked from header
 to header. Sizes are multiples of four, so memory is modelled in 32-bit words;
 the length in a header counts bytes.
 */
module TypedBytes {
  import opened Lists

  /** One mebibyte, in words. */
  const INITIAL_SIZE: nat := 0x4_0000

  const TYPE_LIMIT: nat := 0x100
  const LENGTH_LIMIT: nat := 0x100_0000

  /** A 32-bit word, seen as its low 8 and its high 24 bits. */
  datatype Word = Word(low: nat, high: nat)

  const ZERO := Word(0, 0)

  function FromNat(n: nat): Word { Word(n % TYPE_LIMIT, n / TYPE_LIMIT) }

  function ToNat(w: Word): nat { w.low + w.high * TYPE_LIMIT }

  lemma {:induction false} NatReadsBack(n: nat)
    ensures ToNat(FromNat(n)) == n
  {
  }

  datatype Item = Item(tag: nat, payload: seq<Word>)

  // ----- headers -----

  /** An 8-bit type below a 24-bit length in bytes. */
  function Header(tag: nat, length: nat): Word { Word(tag, length) }

  function TypeIn(word: Word): nat { word.low }

  function LengthIn(word: Word): nat { word.high }

  function Bytes(words: nat): nat { words * 4 }

  // ----- the layout -----

  function Laid(item: Item): (r: seq<Word>)
    ensures |r| == 1 + |item.payload|
  {
    [Header(item.tag, Bytes(|item.payload|))] + item.payload
  }

  function Encode(items: seq<Item>): seq<Word> {
    if items == [] then [] else Encode(items[..|items| - 1]) + Laid(items[|items| - 1])
  }

  lemma {:induction false} EncodeSnoc(items: seq<Item>, item: Item)
    ensures Encode(items + [item]) == Encode(items) + Laid(item)
  {
    assert (items + [item])[..|items|] == items;
  }

  /** The k-th item lies behind the first k. */
  lemma {:induction false} EncodeAt(items: seq<Item>, k: nat)
    requires k < |items|
    ensures Encode(items[..k + 1]) == Encode(items[..k]) + Laid(items[k])
    ensures |Encode(items[..k + 1])| <= |Encode(items)|
    ensures Encode(items)[..|Encode(items[..k + 1])|] == Encode(items[..k + 1])
    decreases |items|
  {
    assert items[..k + 1][..k] == items[..k];
    if k + 1 < |items| {
      var front := items[..|items| - 1];
      EncodeAt(front, k);
      assert front[..k + 1] == items[..k + 1] && front[..k] == items[..k];
    } else {
      assert items[..k + 1] == items;
    }
  }

  ghost predicate IsItem(item: Item) { item.tag < TYPE_LIMIT && Bytes(|item.payload|) < LENGTH_LIMIT }

  /** A container: its header, words of its own, and the items. */
  function Container(tag: nat, reserved: seq<Word>, items: seq<Item>): seq<Word> {
    [Header(tag, Bytes(|reserved| + |Encode(items)|))] + reserved + Encode(items)
  }

  ghost predicate Fits(tag: nat, reserved: seq<Word>, items: seq<Item>) {
    && tag < TYPE_LIMIT && (forall k :: 0 <= k < |items| ==> IsItem(items[k]))
    && Bytes(|reserved| + |Encode(items)|) < LENGTH_LIMIT
  }

  ghost predicate Holds(memory: seq<Word>, tag: nat, reserved: seq<Word>, items: seq<Item>) {
    memory == Container(tag, reserved, items) && Fits(tag, reserved, items)
  }

  // ----- growing -----

  function Growth(size: nat, payload: nat): nat
    requires size > 0
  {
    if size < payload then size * (payload / size + 1) else size
  }

  lemma {:induction false} GrowthIsEnough(size: nat, payload: nat)
    requires size > 0
    ensures Growth(size, payload) >= payload && Growth(size, payload) >= size
    ensures payload != size ==> Growth(size, payload) > payload
  {
    if size < payload {
      var q := payload / size;
      assert payload == size * q + payload % size;
      assert size * (q + 1) == size * q + size;
      assert size * q >= 0;
    }
  }

  /** The buffer grows by its own size, or by the least multiple of it that is more than a larger payload. */
  lemma {:induction false} GrowthIsLeast(size: nat, payload: nat)
    requires size > 0
    ensures payload <= size ==> Growth(size, payload) == size
    ensures payload > size ==> exists k: nat :: Growth(size, payload) == size * k && size * (k - 1) <= payload < size * k
  {
    if payload > size {
      var k := payload / size + 1;
      assert payload == size * (k - 1) + payload % size;
      assert size * k == size * (k - 1) + size;
    }
  }

  /** The buffer size after room was made for the payload. */
  function SizeFor(size: nat, end: nat, payload: nat): (r: nat)
    requires size > 0
    ensures r >= size
  {
    if end + payload >= size then size + Growth(size, payload) else size
  }

  /** The writer's assertion on the buffer fails exactly for a payload as large as a buffer that is full. */
  lemma {:induction false} GrowthFailsExactly(size: nat, end: nat, payload: nat)
    requires size > 0 && end <= size
    ensures end + payload < SizeFor(size, end, payload) <==> !(end == size && payload == size)
  {
    GrowthIsEnough(size, payload);
  }

  // ----- whole runs of appends -----

  /** The buffer size after the first k items, for a writer that had `end` words in a buffer of `size`. */
  function SizeAfter(size: nat, end: nat, items: seq<Item>, k: nat): (r: nat)
    requires size > 0 && k <= |items|
    ensures r > 0
  {
    if k == 0 then size
    else SizeFor(SizeAfter(size, end, items, k - 1), end + |Encode(items[..k - 1])|, |items[k - 1].payload|)
  }

  /** The first k items end where the buffer ends, and the next payload is as large as the buffer. */
  predicate Stalls(size: nat, end: nat, items: seq<Item>, k: nat)
    requires size > 0 && k < |items|
  {
    end + |Encode(items[..k])| == SizeAfter(size, end, items, k) == |items[k].payload|
  }

  /** The run meets neither assertion: all of it stays below the length limit, and no item stalls. */
  ghost predicate RunFits(size: nat, end: nat, items: seq<Item>)
    requires size > 0 && end > 0
  {
    && Bytes(end - 1 + |Encode(items)|) < 0x100_0000
    && forall k {:trigger Stalls(size, end, items, k)} :: 0 <= k < |items| ==> !Stalls(size, end, items, k)
  }

  /** A writer that had `end` words in a buffer of `size` has written the first k items of the run. */
  ghost predicate HasReached(size: nat, end: nat, items: seq<Item>, k: nat, nowSize: nat, nowEnd: nat, written: seq<Item>)
    requires size > 0 && end > 0
  {
    && k <= |items| && written == items[..k]
    && nowSize == SizeAfter(size, end, items, k) && nowEnd == end + |Encode(items[..k])|
    && forall j {:trigger Stalls(size, end, items, j)} :: 0 <= j < k ==> !Stalls(size, end, items, j)
  }

  lemma {:induction false} ReachesNext(size: nat, end: nat, items: seq<Item>, k: nat, nowSize: nat, nowEnd: nat,
                                       written: seq<Item>)
    requires size > 0 && end > 0 && HasReached(size, end, items, k, nowSize, nowEnd, written) && k < |items| && nowSize > 0
    requires !(nowEnd == nowSize == |items[k].payload|)
    ensures var p := |items[k].payload|;
      HasReached(size, end, items, k + 1, SizeFor(nowSize, nowEnd, p), nowEnd + 1 + p, written + [items[k]])
  {
    EncodeAt(items, k);
  }

  lemma {:induction false} FailsThere(size: nat, end: nat, items: seq<Item>, k: nat, nowSize: nat, nowEnd: nat,
                                      written: seq<Item>)
    requires size > 0 && end > 0 && HasReached(size, end, items, k, nowSize, nowEnd, written) && k < |items|
    requires nowEnd == nowSize == |items[k].payload| || Bytes(nowEnd + |items[k].payload|) >= LENGTH_LIMIT
    ensures !RunFits(size, end, items)
  {
    if nowEnd == nowSize == |items[k].payload| {
      assert Stalls(size, end, items, k);
    } else {
      EncodeAt(items, k);
    }
  }

  lemma {:induction false} ReachesAll(size: nat, end: nat, items: seq<Item>, nowSize: nat, nowEnd: nat,
                                      written: seq<Item>)
    requires size > 0 && end > 0 && HasReached(size, end, items, |items|, nowSize, nowEnd, written)
    requires Bytes(nowEnd - 1) < LENGTH_LIMIT
    ensures RunFits(size, end, items) && written == items
  {
    assert items[..|items|] == items;
  }

  /** Two payloads far below the limit that no container takes: the first fills the buffer, the second has its size. */
  lemma {:induction false} ExactFitFails(t: nat, first: seq<Word>, second: seq<Word>)
    requires |first| == 0x3_FFFE && |second| == 0x4_0000
    ensures var items := [Item(t, first), Item(t, second)];
      !RunFits(0x4_0000, 1, items) && Bytes(|Encode(items)|) < 0x100_0000
  {
    var items := [Item(t, first), Item(t, second)];
    assert items[..0] == [] && items[..1] == [Item(t, first)] && items[..1][..0] == [];
    assert |Encode(items[..1])| == |Laid(Item(t, first))|;
    assert SizeAfter(INITIAL_SIZE, 1, items, 1) == SizeFor(INITIAL_SIZE, 1, INITIAL_SIZE - 2) == INITIAL_SIZE;
    assert Stalls(INITIAL_SIZE, 1, items, 1);
  }

  method ChooseGrowth(size: nat, payload: nat) returns (growth: nat)
    requires size > 0
    ensures growth == Growth(size, payload)
  {
    growth := size;
    if growth < payload {
      growth := size * (payload / size + 1);
    }
  }

  method CopyWords(from: array<Word>, to: array<Word>, n: nat)
    requires n <= from.Length && n <= to.Length && from != to
    modifies to
    ensures to[..n] == from[..n]
  {
    for i := 0 to n
      invariant to[..i] == from[..i]
    {
      to[i] := from[i];
    }
  }

  lemma {:induction false} ContainerTail(tag: nat, reserved: seq<Word>, items: seq<Item>)
    ensures Container(tag, reserved, items)[1..] == reserved + Encode(items)
  {
  }

  lemma {:induction false} Regroup(header: Word, reserved: seq<Word>, e: seq<Word>, l: seq<Word>)
    ensures [header] + (reserved + e) + l == [header] + reserved + (e + l)
  {
  }

  /** What appending an item does to the words in use: the container's header grows with them. */
  lemma {:induction false} ContainerMore(tag: nat, reserved: seq<Word>, items: seq<Item>, item: Item)
    ensures var memory := Container(tag, reserved, items);
      && memory[0] == Header(tag, Bytes(|reserved| + |Encode(items)|))
      && Container(tag, reserved, items + [item])
         == [Header(tag, LengthIn(memory[0]) + Bytes(1 + |item.payload|))] + memory[1..] + Laid(item)
  {
    var memory := Container(tag, reserved, items);
    EncodeSnoc(items, item);
    ContainerTail(tag, reserved, items);
    Regroup(Header(tag, LengthIn(memory[0]) + Bytes(1 + |item.payload|)), reserved, Encode(items), Laid(item));
  }

  lemma {:induction false} FitsMore(tag: nat, reserved: seq<Word>, items: seq<Item>, item: Item)
    requires Fits(tag, reserved, items) && item.tag < TYPE_LIMIT
    requires Bytes(|reserved| + |Encode(items)| + 1 + |item.payload|) < LENGTH_LIMIT
    ensures Fits(tag, reserved, items + [item])
  {
    EncodeSnoc(items, item);
  }

  class ContainerWriter {
    var memory: array<Word>
    var end: nat
    var index: nat
    ghost var tag: nat
    ghost var reserved: seq<Word>
    ghost var items: seq<Item>

    /** Everything written is inside the buffer. */
    ghost predicate Valid()
      reads this, memory
    {
      0 < end <= memory.Length && Holds(memory[..end], tag, reserved, items)
    }

    /** `setContainerType`. */
    constructor (containerType: nat)
      requires containerType < TYPE_LIMIT
      ensures end == 1
      ensures Valid() && fresh(memory) && memory.Length == INITIAL_SIZE
      ensures tag == containerType && reserved == [] && items == []
      ensures forall i :: end <= i < memory.Length ==> memory[i] == ZERO
    {
      memory := new Word[INITIAL_SIZE](_ => ZERO);
      end := 1;
      index := 0;
      tag, reserved, items := containerType, [], [];
      new;
      memory[0] := Header(containerType, 0);
      assert memory[..1] == [Header(containerType, 0)];
    }

    /** Moves the contents to a larger buffer. */
    method Grow(payload: nat)
      requires Valid()
      modifies this`memory
      ensures Valid() && fresh(memory) && memory.Length == old(memory.Length) + Growth(old(memory.Length), payload)
      ensures memory[..end] == old(memory[..end])
    {
      var growth := ChooseGrowth(memory.Length, payload);
      var larger := new Word[memory.Length + growth](_ => ZERO);
      CopyWords(memory, larger, end);
      memory := larger;
    }

    method MakeRoom(payload: nat)
      requires Valid()
      modifies this`memory
      ensures Valid() && memory[..end] == old(memory[..end]) && (memory == old(memory) || fresh(memory))
      ensures memory.Length == SizeFor(old(memory.Length), end, payload)
      ensures end + payload < memory.Length <==> !(end == old(memory.Length) && payload == old(memory.Length))
    {
      GrowthFailsExactly(memory.Length, end, payload);
      if end + payload >= memory.Length {
        Grow(payload);
      }
    }

    /** Fails, without writing, where the source asserts: see `GrowthFailsExactly`. */
    method Append(t: nat, payload: seq<Word>) returns (ok: bool)
      requires Valid() && t < TYPE_LIMIT
      modifies this, memory
      ensures Valid() && tag == old(tag) && reserved == old(reserved) && index == old(index)
      ensures (memory == old(memory) || fresh(memory)) && memory.Length == SizeFor(old(memory.Length), old(end), |payload|)
      ensures ok <==> !(old(end) == old(memory.Length) && |payload| == old(memory.Length))
                      && Bytes(|reserved| + |old(Encode(items))| + 1 + |payload|) < LENGTH_LIMIT
      ensures items == old(items) + if ok then [Item(t, payload)] else []
      ensures ok ==> end == old(end) + 1 + |payload|
    {
      MakeRoom(|payload|);
      var length := LengthIn(memory[0]);
      if end + |payload| >= memory.Length || length + Bytes(1 + |payload|) >= LENGTH_LIMIT {
        return false;
      }
      WriteItem(t, payload);
      return true;
    }

    method WriteItem(t: nat, payload: seq<Word>)
      requires Valid() && t < TYPE_LIMIT && end + |payload| < memory.Length
      requires Bytes(|reserved| + |Encode(items)| + 1 + |payload|) < LENGTH_LIMIT
      modifies this`end, this`items, memory
      ensures Valid() && items == old(items) + [Item(t, payload)] && end == old(end) + 1 + |payload|
    {
      ghost var item, was := Item(t, payload), memory[..end];
      ContainerMore(tag, reserved, items, item);
      FitsMore(tag, reserved, items, item);
      PutItem(t, payload);
      memory[0] := Header(TypeIn(memory[0]), LengthIn(memory[0]) + Bytes(1 + |payload|));
      end := end + 1 + |payload|;
      items := items + [item];
      assert memory[..end] == [memory[0]] + was[1..] + Laid(item);
    }

    /** Writes the header and the payload behind what is in use. */
    method PutItem(t: nat, payload: seq<Word>)
      requires 0 < end && end + |payload| < memory.Length
      modifies memory
      ensures memory[..end + 1 + |payload|] == old(memory[..end]) + Laid(Item(t, payload)) && memory[0] == old(memory[0])
    {
      memory[end] := Header(t, Bytes(|payload|));
      for i := 0 to |payload|
        invariant memory[..end + 1 + i] == old(memory[..end]) + Laid(Item(t, payload))[..1 + i]
        invariant memory[0] == old(memory[0])
      {
        memory[end + 1 + i] := payload[i];
        assert memory[..end + 1 + i + 1] == memory[..end + 1 + i] + [payload[i]];
      }
    }

    // ----- arrays of images -----

    /** The words of an image array come before its images: first number, count and flag, offsets. */
    ghost predicate ValidImages(start: nat, count: nat, hasRoots: bool)
      reads this, memory
    {
      Valid() && tag == IMAGE_ARRAY && index == |items| && AreImages(start, count, hasRoots, reserved, items)
    }

    /** Does not look whether the offsets fit the buffer: with too many images the end lies outside. */
    constructor ForImages(start: nat, count: nat, hasRoots: bool)
      ensures fresh(memory) && index == 0 && memory.Length == INITIAL_SIZE && end == 3 + count && items == []
      ensures ValidImages(start, count, hasRoots) <==> 3 + count <= INITIAL_SIZE
    {
      memory := new Word[INITIAL_SIZE](_ => ZERO);
      end := 3 + count;
      index := 0;
      tag, reserved, items := IMAGE_ARRAY, [FromNat(start), CountWord(count, hasRoots)] + seq(count, _ => ZERO), [];
      new;
      memory[0] := Header(IMAGE_ARRAY, Bytes(2 + count));
      memory[1] := FromNat(start);
      memory[2] := CountWord(count, hasRoots);
      assert Encode(items) == [];
      if end <= memory.Length {
        assert memory[..end] == Container(tag, reserved, items);
      }
    }

    /** Fails where the source asserts, or would copy from outside its buffer. */
    method AppendImage(payload: seq<Word>, ghost start: nat, ghost count: nat, ghost hasRoots: bool) returns (ok: bool)
      requires index < count && (end <= memory.Length ==> ValidImages(start, count, hasRoots))
      modifies this, memory
      ensures memory == old(memory) || fresh(memory)
      ensures ok <==> old(end) <= old(memory.Length) && !(old(end) == old(memory.Length) && |payload| == old(memory.Length))
                      && Bytes(old(end) + |payload|) < LENGTH_LIMIT
      ensures ok ==> ValidImages(start, count, hasRoots) && items == old(items) + [Item(IMAGE, payload)]
      ensures ok ==> memory.Length == SizeFor(old(memory.Length), old(end), |payload|) && end == old(end) + 1 + |payload|
    {
      if end > memory.Length {
        return false;
      }
      WriteOffset(start, count, hasRoots);
      ghost var before := items;
      ok := Append(IMAGE, payload);
      if ok {
        AreMoreImages(start, count, hasRoots, reserved, before, payload);
      }
    }

    method WriteOffset(ghost start: nat, ghost count: nat, ghost hasRoots: bool)
      requires ValidImages(start, count, hasRoots) && index < count
      modifies this`index, this`reserved, memory
      ensures Valid() && index == |items| + 1 && tag == IMAGE_ARRAY
      ensures AreImages(start, count, hasRoots, reserved, items) && OffsetTo(reserved, items, |items|)
    {
      OffsetKeeps(start, count, hasRoots, reserved, items);
      memory[3 + index] := FromNat(LengthIn(memory[0]));
      reserved := reserved[2 + index := FromNat(Bytes(|reserved| + |Encode(items)|))];
      assert memory[..end] == Container(tag, reserved, items);
      index := index + 1;
    }
  }

  // ----- arrays of images -----

  const IMAGE_ARRAY := 2
  const IMAGE := 3
  const ROOTS_BIT: nat := 0x8000_0000

  function CountWord(count: nat, hasRoots: bool): Word { FromNat(count + if hasRoots then ROOTS_BIT else 0) }

  /** The i-th offset says where the i-th image starts. */
  ghost predicate OffsetTo(reserved: seq<Word>, items: seq<Item>, i: nat)
    requires i <= |items|
  {
    2 + i < |reserved| && ToNat(reserved[2 + i]) == Bytes(|reserved| + |Encode(items[..i])|)
  }

  ghost predicate OffsetsTo(reserved: seq<Word>, items: seq<Item>) {
    forall i {:trigger OffsetTo(reserved, items, i)} :: 0 <= i < |items| ==> OffsetTo(reserved, items, i)
  }

  ghost predicate AreImages(start: nat, count: nat, hasRoots: bool, reserved: seq<Word>, items: seq<Item>) {
    && |reserved| == 2 + count && |items| <= count
    && reserved[0] == FromNat(start) && reserved[1] == CountWord(count, hasRoots)
    && (forall i :: 0 <= i < |items| ==> items[i].tag == IMAGE)
    && OffsetsTo(reserved, items)
  }

  /** Writing the next offset makes room for one more image. */
  lemma {:induction false} OffsetKeeps(start: nat, count: nat, hasRoots: bool, reserved: seq<Word>, items: seq<Item>)
    requires AreImages(start, count, hasRoots, reserved, items) && |items| < count
    ensures var r := reserved[2 + |items| := FromNat(Bytes(|reserved| + |Encode(items)|))];
      AreImages(start, count, hasRoots, r, items) && OffsetTo(r, items, |items|)
  {
    NatReadsBack(Bytes(|reserved| + |Encode(items)|));
    assert items[..|items|] == items;
    var r := reserved[2 + |items| := FromNat(Bytes(|reserved| + |Encode(items)|))];
    forall i | 0 <= i < |items| ensures OffsetTo(r, items, i) {
      assert OffsetTo(reserved, items, i);
    }
  }

  lemma {:induction false} OffsetStays(reserved: seq<Word>, items: seq<Item>, item: Item, i: nat)
    requires i <= |items| && OffsetTo(reserved, items, i)
    ensures OffsetTo(reserved, items + [item], i)
  {
    assert (items + [item])[..i] == items[..i];
  }

  lemma {:induction false} AreMoreImages(start: nat, count: nat, hasRoots: bool, reserved: seq<Word>,
                                         items: seq<Item>, payload: seq<Word>)
    requires AreImages(start, count, hasRoots, reserved, items) && |items| < count && OffsetTo(reserved, items, |items|)
    ensures AreImages(start, count, hasRoots, reserved, items + [Item(IMAGE, payload)])
  {
    var item := Item(IMAGE, payload);
    forall i | 0 <= i < |items + [item]| ensures OffsetTo(reserved, items + [item], i) {
      OffsetStays(reserved, items, item, i);
    }
  }

  lemma {:induction false} CountReads(count: nat, hasRoots: bool)
    requires count < ROOTS_BIT
    ensures ToNat(CountWord(count, hasRoots)) % ROOTS_BIT == count
    ensures ToNat(CountWord(count, hasRoots)) / ROOTS_BIT == if hasRoots then 1 else 0
  {
    NatReadsBack(count + if hasRoots then ROOTS_BIT else 0);
  }

  /** The first image with the number, its number being read from its payload. */
  function FirstWithNumber(items: seq<Item>, numOf: seq<Word> -> nat, num: nat, from: nat): Option<seq<Word>>
    requires from <= |items|
    decreases |items| - from
  {
    if from == |items| then None
    else if numOf(items[from].payload) == num then Some(items[from].payload)
    else FirstWithNumber(items, numOf, num, from + 1)
  }

  /** The image that an offset leads to. */
  lemma {:induction false} OffsetLeadsTo(memory: seq<Word>, start: nat, count: nat, hasRoots: bool,
                                         reserved: seq<Word>, items: seq<Item>, i: nat)
    requires Holds(memory, IMAGE_ARRAY, reserved, items) && AreImages(start, count, hasRoots, reserved, items) && i < |items|
    ensures 3 + i < |memory| && ItemAt(memory, 1 + ToNat(memory[3 + i]) / 4) == Some(items[i])
  {
    assert memory[3 + i] == reserved[2 + i] && OffsetTo(reserved, items, i);
    assert 1 + ToNat(memory[3 + i]) / 4 == Position(reserved, items, i);
    ItemIsAt(memory, IMAGE_ARRAY, reserved, items, i);
  }

  /** `imageForNum`: by index, or by search if some images have numbers of their own. */
  method ImageForNum(memory: seq<Word>, num: nat, numOf: seq<Word> -> nat, ghost start: nat, ghost count: nat, ghost hasRoots: bool,
                     ghost reserved: seq<Word>, ghost items: seq<Item>)
    returns (r: Option<seq<Word>>)
    requires Holds(memory, IMAGE_ARRAY, reserved, items) && AreImages(start, count, hasRoots, reserved, items)
    requires |items| == count < ROOTS_BIT
    ensures hasRoots ==> r == FirstWithNumber(items, numOf, num, 0)
    ensures !hasRoots ==> r == if start <= num < start + count then Some(items[num - start].payload) else None
  {
    assert memory[1] == reserved[0] && memory[2] == reserved[1];
    NatReadsBack(start);
    CountReads(count, hasRoots);
    var n := ToNat(memory[2]) % ROOTS_BIT;
    if ToNat(memory[2]) / ROOTS_BIT == 1 {
      for i := 0 to n
        invariant FirstWithNumber(items, numOf, num, 0) == FirstWithNumber(items, numOf, num, i)
      {
        OffsetLeadsTo(memory, start, count, hasRoots, reserved, items, i);
        var image := ItemAt(memory, 1 + ToNat(memory[3 + i]) / 4).value.payload;
        if numOf(image) == num {
          return Some(image);
        }
      }
      return None;
    }
    var firstImageNum := ToNat(memory[1]);
    if num < firstImageNum || num - firstImageNum >= n {
      return None;
    }
    OffsetLeadsTo(memory, start, count, hasRoots, reserved, items, num - start);
    return Some(ItemAt(memory, 1 + ToNat(memory[3 + num - firstImageNum]) / 4).value.payload);
  }

  /** When images are numbered consecutively, searching finds what indexing finds. */
  lemma {:induction false} SearchAgrees(items: seq<Item>, numOf: seq<Word> -> nat, start: nat, num: nat, from: nat)
    requires from <= |items| && forall i :: 0 <= i < |items| ==> numOf(items[i].payload) == start + i
    ensures FirstWithNumber(items, numOf, num, from)
         == if start + from <= num < start + |items| then Some(items[num - start].payload) else None
    decreases |items| - from
  {
    if from < |items| {
      SearchAgrees(items, numOf, start, num, from + 1);
    }
  }

  // ----- reading -----

  /** The position of the k-th item. */
  ghost function Position(reserved: seq<Word>, items: seq<Item>, k: nat): nat
    requires k <= |items|
  {
    1 + |reserved| + |Encode(items[..k])|
  }

  /** The item at a position, as its header describes it. */
  function ItemAt(memory: seq<Word>, p: nat): Option<Item> {
    if p < |memory| && p + 1 + LengthIn(memory[p]) / 4 <= |memory|
    then Some(Item(TypeIn(memory[p]), memory[p + 1..p + 1 + LengthIn(memory[p]) / 4]))
    else None
  }

  lemma {:induction false} ItemIsLaid(memory: seq<Word>, tag: nat, reserved: seq<Word>, items: seq<Item>, k: nat)
    requires Holds(memory, tag, reserved, items) && k < |items|
    ensures var p, n := Position(reserved, items, k), |items[k].payload|;
      p + 1 + n == Position(reserved, items, k + 1) <= |memory| && memory[p..p + 1 + n] == Laid(items[k])
  {
    var p, n, body, q := Position(reserved, items, k), |items[k].payload|, Encode(items), |Encode(items[..k])|;
    EncodeAt(items, k);
    assert body[..q + 1 + n] == Encode(items[..k]) + Laid(items[k]);
    assert body[q..q + 1 + n] == body[..q + 1 + n][q..] == Laid(items[k]);
    assert memory[p..p + 1 + n] == body[q..q + 1 + n];
  }

  lemma {:induction false} ItemIsAt(memory: seq<Word>, tag: nat, reserved: seq<Word>, items: seq<Item>, k: nat)
    requires Holds(memory, tag, reserved, items) && k < |items|
    ensures var p := Position(reserved, items, k);
      && ItemAt(memory, p) == Some(items[k])
      && p + 1 + |items[k].payload| == Position(reserved, items, k + 1) <= |memory|
      && LengthIn(memory[p]) == Bytes(|items[k].payload|)
  {
    var p, n := Position(reserved, items, k), |items[k].payload|;
    ItemIsLaid(memory, tag, reserved, items, k);
    assert memory[p] == memory[p..p + 1 + n][0] == Laid(items[k])[0];
    assert memory[p + 1..p + 1 + n] == memory[p..p + 1 + n][1..] == Laid(items[k])[1..] == items[k].payload;
  }

  /** The position is before the end as long as items are left. */
  lemma {:induction false} PositionInside(memory: seq<Word>, tag: nat, reserved: seq<Word>, items: seq<Item>, k: nat)
    requires Holds(memory, tag, reserved, items) && k <= |items|
    ensures Position(reserved, items, k) <= |memory|
    ensures Position(reserved, items, k) < |memory| <==> k < |items|
    ensures 1 + LengthIn(memory[0]) / 4 == |memory|
  {
    if k < |items| {
      ItemIsAt(memory, tag, reserved, items, k);
    } else {
      assert items[..k] == items;
    }
  }

  /** `forEachAttribute`: the items in the order they were appended. */
  method ForEachAttribute(memory: seq<Word>, ghost tag: nat, ghost items: seq<Item>) returns (calls: seq<Item>)
    requires Holds(memory, tag, [], items)
    ensures calls == items
  {
    PositionInside(memory, tag, [], items, 0);
    var end := 1 + LengthIn(memory[0]) / 4;
    var p := 1;
    ghost var k := 0;
    calls := [];
    while p < end
      invariant k <= |items| && p == Position([], items, k) && calls == items[..k]
      invariant p < end <==> k < |items|
      decreases |items| - k
    {
      ItemIsAt(memory, tag, [], items, k);
      PositionInside(memory, tag, [], items, k + 1);
      var length := LengthIn(memory[p]);
      calls := calls + [Item(TypeIn(memory[p]), memory[p + 1..p + 1 + length / 4])];
      p := p + 1 + length / 4;
      k := k + 1;
    }
    assert items[..|items|] == items;
  }

  function FirstOfType(items: seq<Item>, t: nat): Option<seq<Word>> {
    if items == [] then None
    else if items[0].tag == t then Some(items[0].payload)
    else FirstOfType(items[1..], t)
  }

  /** `findAttributePayload`: the payload of the first item of a type. */
  method FindAttributePayload(memory: seq<Word>, t: nat, ghost tag: nat, ghost items: seq<Item>) returns (r: Option<seq<Word>>)
    requires Holds(memory, tag, [], items)
    ensures r == FirstOfType(items, t)
    ensures r == None <==> forall i :: 0 <= i < |items| ==> items[i].tag != t
    ensures forall i :: 0 <= i < |items| && items[i].tag == t && (forall j :: 0 <= j < i ==> items[j].tag != t) ==>
      r == Some(items[i].payload)
  {
    PositionInside(memory, tag, [], items, 0);
    assert items[0..] == items;
    var end := 1 + LengthIn(memory[0]) / 4;
    var p := 1;
    ghost var k := 0;
    while p < end
      invariant k <= |items| && p == Position([], items, k)
      invariant p < end <==> k < |items|
      invariant FirstOfType(items, t) == FirstOfType(items[k..], t)
      invariant forall j :: 0 <= j < k ==> items[j].tag != t
      decreases |items| - k
    {
      ItemIsAt(memory, tag, [], items, k);
      PositionInside(memory, tag, [], items, k + 1);
      var length := LengthIn(memory[p]);
      if TypeIn(memory[p]) == t {
        return Some(memory[p + 1..p + 1 + length / 4]);
      }
      assert items[k..][1..] == items[k + 1..];
      p := p + 1 + length / 4;
      k := k + 1;
    }
    return None;
  }

  /**
   Over whole runs: the appends meet an assertion exactly if the run does not fit,
   and otherwise the walk reports, through any number of growths, what was appended.
   */
  method AppendAllThenWalk(containerType: nat, items: seq<Item>) returns (ok: bool, calls: seq<Item>)
    requires containerType < TYPE_LIMIT && forall k :: 0 <= k < |items| ==> items[k].tag < TYPE_LIMIT
    ensures ok <==> RunFits(0x4_0000, 1, items)
    ensures ok ==> calls == items
  {
    var writer := new ContainerWriter(containerType);
    calls := [];
    for k := 0 to |items|
      invariant fresh(writer) && fresh(writer.memory) && writer.Valid() && writer.reserved == []
      invariant HasReached(INITIAL_SIZE, 1, items, k, writer.memory.Length, writer.end, writer.items)
    {
      ghost var size, end, written := writer.memory.Length, writer.end, writer.items;
      ok := writer.Append(items[k].tag, items[k].payload);
      if !ok {
        FailsThere(INITIAL_SIZE, 1, items, k, size, end, written);
        return;
      }
      ReachesNext(INITIAL_SIZE, 1, items, k, size, end, written);
      assert Item(items[k].tag, items[k].payload) == items[k];
    }
    ReachesAll(INITIAL_SIZE, 1, items, writer.memory.Length, writer.end, writer.items);
    ok := true;
    calls := ForEachAttribute(writer.memory[..writer.end], writer.tag, writer.items);
  }

  function ImageItems(images: seq<seq<Word>>): seq<Item> {
    seq(|images|, i requires 0 <= i < |images| => Item(3, images[i]))
  }

  /** Writes all images; the array is there exactly if its offsets fit the first buffer and the run of images fits. */
  method AppendImages(start: nat, hasRoots: bool, images: seq<seq<Word>>) returns (ok: bool, writer: ContainerWriter)
    ensures fresh(writer) && fresh(writer.memory)
    ensures ok <==> 3 + |images| <= 0x4_0000 && RunFits(0x4_0000, 3 + |images|, ImageItems(images))
    ensures ok ==> writer.ValidImages(start, |images|, hasRoots) && writer.tag == 2 && writer.items == ImageItems(images)
  {
    var count, end := |images|, 3 + |images|;
    ghost var items := ImageItems(images);
    writer := new ContainerWriter.ForImages(start, count, hasRoots);
    for i := 0 to count
      invariant fresh(writer) && fresh(writer.memory) && writer.index == i
      invariant writer.end <= writer.memory.Length ==> writer.ValidImages(start, count, hasRoots)
      invariant i > 0 ==> end <= INITIAL_SIZE && writer.end <= writer.memory.Length
      invariant HasReached(INITIAL_SIZE, end, items, i, writer.memory.Length, writer.end, writer.items)
    {
      ghost var size, nowEnd, written := writer.memory.Length, writer.end, writer.items;
      ok := writer.AppendImage(images[i], start, count, hasRoots);
      if !ok {
        if end <= INITIAL_SIZE {
          FailsThere(INITIAL_SIZE, end, items, i, size, nowEnd, written);
        }
        return;
      }
      ReachesNext(INITIAL_SIZE, end, items, i, size, nowEnd, written);
    }
    ReachesAll(INITIAL_SIZE, end, items, writer.memory.Length, writer.end, writer.items);
    ok := true;
  }

  lemma {:induction false} FirstIsAt(items: seq<Item>, numOf: seq<Word> -> nat, num: nat, from: nat, i: nat)
    requires from <= i <= |items| && (i < |items| ==> numOf(items[i].payload) == num)
    requires forall j :: from <= j < i ==> numOf(items[j].payload) != num
    ensures FirstWithNumber(items, numOf, num, from) == if i < |items| then Some(items[i].payload) else None
    decreases i - from
  {
    if from < i {
      FirstIsAt(items, numOf, num, from + 1, i);
    }
  }

  /** The search finds the first image with the number, exactly if there is one. */
  lemma {:induction false} FirstIsFirst(images: seq<seq<Word>>, numOf: seq<Word> -> nat, num: nat)
    ensures var r := FirstWithNumber(ImageItems(images), numOf, num, 0);
      && (r.Some? <==> exists i :: 0 <= i < |images| && numOf(images[i]) == num)
      && forall i :: 0 <= i < |images| && numOf(images[i]) == num && (forall j :: 0 <= j < i ==> numOf(images[j]) != num) ==>
           r == Some(images[i])
  {
    var first := 0;
    while first < |images| && numOf(images[first]) != num
      invariant first <= |images| && forall j :: 0 <= j < first ==> numOf(images[j]) != num
    {
      first := first + 1;
    }
    FirstIsAt(ImageItems(images), numOf, num, 0, first);
  }

  /** An array of images gives back the image that was appended for a number. */
  method AppendImagesThenFind(start: nat, hasRoots: bool, images: seq<seq<Word>>, numOf: seq<Word> -> nat, num: nat)
    returns (ok: bool, r: Option<seq<Word>>)
    ensures ok <==> 3 + |images| <= 0x4_0000 && RunFits(0x4_0000, 3 + |images|, ImageItems(images))
    ensures ok && hasRoots ==> (r.Some? <==> exists i :: 0 <= i < |images| && numOf(images[i]) == num)
    ensures ok && hasRoots ==> forall i ::
      (0 <= i < |images| && numOf(images[i]) == num && forall j :: 0 <= j < i ==> numOf(images[j]) != num)
      ==> r == Some(images[i])
    ensures ok && (!hasRoots || forall i :: 0 <= i < |images| ==> numOf(images[i]) == start + i) ==>
      r == if start <= num < start + |images| then Some(images[num - start]) else None
  {
    r := None;
    var writer;
    ok, writer := AppendImages(start, hasRoots, images);
    if ok {
      r := ImageForNum(writer.memory[..writer.end], num, numOf, start, |images|, hasRoots, writer.reserved, writer.items);
      FirstIsFirst(images, numOf, num);
      if hasRoots && forall i :: 0 <= i < |images| ==> numOf(images[i]) == start + i {
        SearchAgrees(writer.items, numOf, start, num, 0);
      }
    }
  }
}
