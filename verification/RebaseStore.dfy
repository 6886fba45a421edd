/**
 The rebase table in its container: packed into words, appended to the image
 that is being written, and read back from it.
 */
module RebaseStore {
  import opened Lists
  import opened Words
  import opened RebaseCodec
  import opened RebaseRoundTrip
  import opened RebaseTable
  import TypedBytes

  const REBASE_FIXUPS := 20

  /** The size of the payload has 32 bits, so the number of entries loses what is above 30. */
  const COUNT_LIMIT := 0x4000_0000

  // ----- words -----

  predicate InFields(e: RebasePattern) {
    e.repeatCount < 0x10_0000 && e.contigCount < 0x100 && e.skipCount < 0x10
  }

  ghost predicate AllInFields(entries: seq<RebasePattern>) {
    forall i {:trigger entries[i]} :: 0 <= i < |entries| ==> InFields(entries[i])
  }

  /** repeatCount in the low 20 bits, contigCount in the next 8, skipCount in the last 4. */
  function Packed(e: RebasePattern): TypedBytes.Word {
    TypedBytes.FromNat(e.repeatCount + e.contigCount * 0x10_0000 + e.skipCount * 0x1000_0000)
  }

  function Unpacked(w: TypedBytes.Word): RebasePattern {
    var n := TypedBytes.ToNat(w);
    RebasePattern(n % 0x10_0000, n / 0x10_0000 % 0x100, n / 0x1000_0000)
  }

  lemma {:induction false} PackReadsBack(e: RebasePattern)
    requires InFields(e)
    ensures Unpacked(Packed(e)) == e
  {
    var n := e.repeatCount + e.contigCount * 0x10_0000 + e.skipCount * 0x1000_0000;
    TypedBytes.NatReadsBack(n);
    assert n / 0x10_0000 == e.contigCount + e.skipCount * 0x100;
  }

  function PackedAll(entries: seq<RebasePattern>): seq<TypedBytes.Word> {
    seq(|entries|, i requires 0 <= i < |entries| => Packed(entries[i]))
  }

  function UnpackedAll(words: seq<TypedBytes.Word>): seq<RebasePattern> {
    seq(|words|, i requires 0 <= i < |words| => Unpacked(words[i]))
  }

  lemma {:induction false} AllReadBack(entries: seq<RebasePattern>)
    requires AllInFields(entries)
    ensures UnpackedAll(PackedAll(entries)) == entries
  {
    forall i | 0 <= i < |entries| ensures Unpacked(Packed(entries[i])) == entries[i] {
      PackReadsBack(entries[i]);
    }
  }

  // ----- every field holds what the encoder puts into it -----

  lemma {:induction false} LeapInFields(distance: nat)
    ensures AllInFields(Leap(distance))
    decreases distance
  {
    if distance > MAX_LEAP {
      LeapInFields(distance - MAX_LEAP);
    } else if distance > MAX_REPEAT {
      LeapInFields(distance - distance / MAX_SKIP * MAX_SKIP);
    }
  }

  lemma {:induction false} SingleInFields(entries: seq<RebasePattern>, more: seq<RebasePattern>)
    requires AllInFields(entries) && AllInFields(more)
    ensures AllInFields(entries + more + [SINGLE])
    ensures AllInFields(entries + [RESET])
  {
  }

  lemma {:induction false} NearInFields(entries: seq<RebasePattern>, skip: nat)
    requires entries != [] && AllInFields(entries) && skip <= MAX_SKIP
    ensures AllInFields(MergeLast(SetSkip(entries, skip)))
  {
  }

  lemma {:induction false} StepInFields(entries: seq<RebasePattern>, last: u64, offset: u64, p: PointerSize)
    requires AllInFields(entries) && EncodeStep(entries, last, offset, p).Some?
    ensures AllInFields(EncodeStep(entries, last, offset, p).value)
  {
    var delta := Delta(last, offset);
    if delta == p {
    } else if IsNear(delta, p) {
      NearInFields(entries, SkipFor(delta, p));
    } else if offset < last && last != TWO64 - p {
      LeapInFields(offset);
      SingleInFields(entries, []);
      SingleInFields(entries + [RESET], Leap(offset));
    } else {
      LeapInFields(Wrap(delta - p));
      SingleInFields(entries, Leap(Wrap(delta - p)));
    }
  }

  lemma {:induction false} EncodeInFields(offsets: seq<u64>, p: PointerSize)
    requires Encode(offsets, p).Some?
    ensures AllInFields(Encode(offsets, p).value)
  {
    if offsets != [] {
      var front := offsets[..|offsets| - 1];
      EncodeInFields(front, p);
      StepInFields(Encode(front, p).value, LastLocation(front, p), offsets[|offsets| - 1], p);
    }
  }

  // ----- what fits, and what comes back -----

  /** The entries that the container gets. */
  function Stored(entries: seq<RebasePattern>): seq<RebasePattern> { entries[..|entries| % COUNT_LIMIT] }

  /** A payload of n words meets neither assertion of a writer that has `end` words in a buffer of `size`. */
  predicate PayloadFits(size: nat, end: nat, n: nat) {
    !(end == size == n) && TypedBytes.Bytes(end + n) < 0x100_0000
  }

  /** The table's entries, appended and decoded again, report the stream. */
  ghost predicate Gives(size: nat, end: nat, entries: seq<RebasePattern>, offsets: seq<u64>, p: PointerSize) {
    PayloadFits(size, end, |Stored(entries)|) && Decode(Stored(entries), p).out == offsets
  }

  /** Encoded, appended and decoded again, the stream is the same. */
  ghost predicate ComesBack(size: nat, end: nat, offsets: seq<u64>, p: PointerSize) {
    Encode(offsets, p).Some? && Gives(size, end, Encode(offsets, p).value, offsets, p)
  }

  lemma {:induction false} ApplyNeverLoses(c: Cursor, p: PointerSize, e: RebasePattern)
    ensures |Apply(c, p, e).out| >= |c.out|
  {
    if e.contigCount != 0 {
      GroupsLength(c, p, e.contigCount, e.skipCount, e.repeatCount);
    }
  }

  lemma {:induction false} PrefixReportsLess(entries: seq<RebasePattern>, k: nat, p: PointerSize)
    requires k <= |entries|
    ensures |Decode(entries[..k], p).out| <= |Decode(entries, p).out|
  {
    var n := |entries| - 1;
    if k == |entries| {
      assert entries[..k] == entries;
    } else {
      PrefixReportsLess(entries[..n], k, p);
      assert entries[..n][..k] == entries[..k];
      ApplyNeverLoses(Decode(entries[..n], p), p, entries[n]);
    }
  }

  /** The last entry always reports something, so a table that was cut short reports too little. */
  lemma {:induction false} CutReportsLess(entries: seq<RebasePattern>, m: Meter, k: nat, p: PointerSize)
    requires RebaseRoundTrip.Inv(entries, m) && k < |entries|
    ensures |Decode(entries[..k], p).out| < |Decode(entries, p).out|
  {
    var n := |entries| - 1;
    var x := Decode(entries[..n], p);
    PrefixReportsLess(entries[..n], k, p);
    assert entries[..n][..k] == entries[..k];
    ApplyOpenGroup(x, p, m.contig, 0);
    ContigLength(x, p, m.contig);
  }

  lemma {:induction false} CutNeverComesBack(offsets: seq<u64>, p: PointerSize)
    requires !StartsNear(offsets, p) && EntryCount(offsets, p) >= COUNT_LIMIT
    ensures Encode(offsets, p).Some? && Decode(Stored(Encode(offsets, p).value), p).out != offsets
  {
    TableLength(offsets, p);
    EncodeKeepsInv(offsets, p);
    DecodedLength(offsets, p);
    var entries := Encode(offsets, p).value;
    CutReportsLess(entries, MeterOf(offsets, p), |entries| % COUNT_LIMIT, p);
  }

  lemma {:induction false} WholeIsStored(size: nat, end: nat, entries: seq<RebasePattern>, offsets: seq<u64>, p: PointerSize)
    requires |entries| < COUNT_LIMIT
    ensures Gives(size, end, entries, offsets, p) <==> Decode(entries, p).out == offsets && PayloadFits(size, end, |entries|)
  {
    assert entries[..|entries|] == entries;
  }

  lemma {:induction false} WholeComesBack(size: nat, end: nat, offsets: seq<u64>, p: PointerSize)
    requires !StartsNear(offsets, p) && EntryCount(offsets, p) < COUNT_LIMIT
    ensures ComesBack(size, end, offsets, p) <==> RoundTrips(offsets, p) && PayloadFits(size, end, EntryCount(offsets, p))
  {
    TableLength(offsets, p);
    WholeIsStored(size, end, Encode(offsets, p).value, offsets, p);
  }

  lemma {:induction false} TooManyNeverFit(size: nat, end: nat, n: nat)
    requires n >= COUNT_LIMIT
    ensures !PayloadFits(size, end, n)
  {
  }

  /**
   The exact condition, for every stream of 64-bit offsets and every writer: the
   round trip's own, and that the entries, counted from the locations, fit.
   */
  lemma {:induction false} StoredRoundTrip(size: nat, end: nat, offsets: seq<u64>, p: PointerSize)
    ensures ComesBack(size, end, offsets, p) <==>
      && !StartsNear(offsets, p) && NoImmediateRepeat(offsets) && RunsShort(offsets, p)
      && PayloadFits(size, end, EntryCount(offsets, p))
  {
    RebaseRoundTrip.RebaseRoundTrip(offsets, p);
    if StartsNear(offsets, p) {
      EncodeKeepsInv(offsets, p);
    } else if EntryCount(offsets, p) < COUNT_LIMIT {
      WholeComesBack(size, end, offsets, p);
    } else {
      CutNeverComesBack(offsets, p);
      TooManyNeverFit(size, end, EntryCount(offsets, p));
    }
  }

  // ----- writing and reading -----

  method PackAll(entries: seq<RebasePattern>, count: nat) returns (words: seq<TypedBytes.Word>)
    requires count <= |entries|
    ensures words == PackedAll(entries[..count])
  {
    words := [];
    for i := 0 to count
      invariant words == PackedAll(entries[..i])
    {
      words := words + [Packed(entries[i])];
    }
  }

  /** `addRebaseInfo`: encodes the locations and appends the table to the image. */
  method WriteRebases(writer: TypedBytes.ContainerWriter, offsets: seq<u64>, p: PointerSize) returns (ok: bool)
    requires writer.Valid()
    modifies writer, writer.memory
    ensures writer.Valid() && writer.tag == old(writer.tag) && writer.reserved == old(writer.reserved)
    ensures ok <==>
      && Encode(offsets, p).Some?
      && PayloadFits(old(writer.memory.Length), old(writer.end), |Stored(Encode(offsets, p).value)|)
    ensures ok ==>
      writer.items == old(writer.items) + [TypedBytes.Item(20, PackedAll(Stored(Encode(offsets, p).value)))]
  {
    var entries;
    ok, entries := AddRebaseInfo(offsets, p);
    if ok {
      var words := PackAll(entries, |entries| % COUNT_LIMIT);
      ok := writer.Append(REBASE_FIXUPS, words);
    }
  }

  /** The rebase part of `forEachFixup` over an image: the first table it has, or none. */
  method ReadRebases(memory: seq<TypedBytes.Word>, p: PointerSize, ghost tag: nat, ghost items: seq<TypedBytes.Item>)
    returns (out: seq<u64>)
    requires TypedBytes.Holds(memory, tag, [], items)
    ensures var payload := TypedBytes.FirstOfType(items, 20);
      out == if payload.Some? then Decode(UnpackedAll(payload.value), p).out else []
  {
    var payload := TypedBytes.FindAttributePayload(memory, REBASE_FIXUPS, tag, items);
    if payload == None {
      return [];
    }
    out := ForEachRebase(UnpackedAll(payload.value), p);
  }

  lemma {:induction false} FirstIsNew(items: seq<TypedBytes.Item>, item: TypedBytes.Item)
    requires TypedBytes.FirstOfType(items, item.tag) == None
    ensures TypedBytes.FirstOfType(items + [item], item.tag) == Some(item.payload)
  {
    if items != [] {
      FirstIsNew(items[1..], item);
      assert (items + [item])[1..] == items[1..] + [item];
    }
  }

  /** The table that was appended is the one that is found, and its words read back. */
  lemma {:induction false} StoredIsFound(items: seq<TypedBytes.Item>, offsets: seq<u64>, p: PointerSize)
    requires Encode(offsets, p).Some? && TypedBytes.FirstOfType(items, REBASE_FIXUPS) == None
    ensures var stored := Stored(Encode(offsets, p).value);
      && TypedBytes.FirstOfType(items + [TypedBytes.Item(REBASE_FIXUPS, PackedAll(stored))], REBASE_FIXUPS)
         == Some(PackedAll(stored))
      && UnpackedAll(PackedAll(stored)) == stored
  {
    var stored := Stored(Encode(offsets, p).value);
    EncodeInFields(offsets, p);
    AllReadBack(stored);
    FirstIsNew(items, TypedBytes.Item(REBASE_FIXUPS, PackedAll(stored)));
  }

  /**
   From the locations through the image and back: the image gives back the
   locations exactly under the condition above, and else an assertion stops the
   writer or the reader reports something else.
   */
  method WriteThenRead(writer: TypedBytes.ContainerWriter, offsets: seq<u64>, p: PointerSize)
    returns (ok: bool, out: seq<u64>)
    requires writer.Valid() && writer.reserved == []
    requires TypedBytes.FirstOfType(writer.items, REBASE_FIXUPS) == None
    modifies writer, writer.memory
    ensures (ok && out == offsets) <==>
      && !StartsNear(offsets, p) && NoImmediateRepeat(offsets) && RunsShort(offsets, p)
      && PayloadFits(old(writer.memory.Length), old(writer.end), EntryCount(offsets, p))
  {
    ghost var size, end, items := writer.memory.Length, writer.end, writer.items;
    ok := WriteRebases(writer, offsets, p);
    out := [];
    if ok {
      StoredIsFound(items, offsets, p);
      out := ReadRebases(writer.memory[..writer.end], p, writer.tag, writer.items);
    }
    assert (ok && out == offsets) <==> ComesBack(size, end, offsets, p);
    StoredRoundTrip(size, end, offsets, p);
  }

  // ----- two streams that decode rightly and do not fit -----

  /** Two pointers four bytes apart, of eight bytes each: no container holds their table. */
  lemma {:induction false} OverlappingPointersExplode(size: nat, end: nat)
    ensures RoundTrips([400, 404], 8) && EntryCount([400, 404], 8) >= CROWDED_ENTRIES
    ensures !ComesBack(size, end, [400, 404], 8)
  {
    var offsets: seq<u64> := [400, 404];
    TwoMeter();
    RebaseRoundTrip.RebaseRoundTrip(offsets, 8);
    assert !FitsBehind(offsets[0], offsets[0 + 1], 8);
    CrowdedSize(offsets, 8);
    TableLength(offsets, 8);
    StoredRoundTrip(size, end, offsets, 8);
  }

  /** Pointers of eight bytes, every seventeenth from 400 on. */
  ghost function Sparse(n: nat): seq<u64>
    requires n <= 0x100_0000
  {
    seq(n, i requires 0 <= i < n => 400 + 136 * i)
  }

  /** A far step of one advance and one group. */
  lemma {:induction false} SparseStep(last: u64)
    requires last + 136 < TWO64
    ensures StepCount(Meter(1, NoRun), last, last + 136, 8) == 2
    ensures MeterStep(Meter(1, NoRun), Delta(last, last + 136), 8) == Meter(1, NoRun)
  {
    assert Delta(last, last + 136) == 136 && Wrap(136 - 8) == 128;
    assert LeapCount(128) == 1;
  }

  lemma {:induction false} SparseFront(n: nat)
    requires 1 <= n <= 0x100_0000
    ensures Sparse(n)[..n - 1] == Sparse(n - 1) && Sparse(n)[n - 1] == 400 + 136 * (n - 1)
    ensures n > 1 ==> Sparse(n)[n - 2] == 400 + 136 * (n - 2)
  {
  }

  lemma {:induction false} SparseCount(n: nat)
    requires 1 <= n <= 0x100_0000
    ensures MeterOf(Sparse(n), 8) == Meter(1, NoRun) && RunsShort(Sparse(n), 8)
    ensures EntryCount(Sparse(n), 8) == 2 * n
  {
    SparseFront(n);
    if n == 1 {
      assert LeapCount(400) == 1;
    } else {
      SparseCount(n - 1);
      SparseStep(400 + 136 * (n - 2));
    }
  }

  lemma {:induction false} SparseIsPlain(n: nat)
    requires 1 <= n <= 0x100_0000
    ensures !StartsNear(Sparse(n), 8) && NoImmediateRepeat(Sparse(n))
  {
    assert Sparse(n)[0] == 400 && Delta(TWO64 - 8, 400) == 408;
  }

  /** About 285 megabytes with a pointer in every 136 bytes round trip, but no container holds their table. */
  lemma {:induction false} SparsePointersTooMany(size: nat, end: nat)
    requires end > 0
    ensures RoundTrips(Sparse(0x20_0000), 8) && !ComesBack(size, end, Sparse(0x20_0000), 8)
  {
    SparseCount(0x20_0000);
    SparseIsPlain(0x20_0000);
    RebaseRoundTrip.RebaseRoundTrip(Sparse(0x20_0000), 8);
    StoredRoundTrip(size, end, Sparse(0x20_0000), 8);
  }
}
