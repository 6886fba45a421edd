/** How many entries the rebase table gets, told from the locations alone. */
module RebaseTable {
  import opened Words
  import opened RebaseCodec
  import opened RebaseRoundTrip

  // ----- the exact number of entries -----

  /** How many entries advance by a distance. */
  function LeapCount(distance: nat): nat {
    if distance == 0 then 0
    else
      var full := (distance - 1) / (0xF_FFFF * 15);
      var rest := distance - full * (0xF_FFFF * 15);
      full + if rest > 0xF_FFFF && rest % 15 != 0 then 2 else 1
  }

  lemma {:induction false} OneLeapMore(distance: nat)
    requires distance > MAX_LEAP
    ensures LeapCount(distance) == LeapCount(distance - MAX_LEAP) + 1
  {
    assert (distance - 1) / MAX_LEAP == (distance - MAX_LEAP - 1) / MAX_LEAP + 1;
  }

  lemma {:induction false} RestOfLeap(distance: nat)
    requires MAX_REPEAT < distance <= MAX_LEAP
    ensures |Leap(distance)| == if distance % MAX_SKIP != 0 then 2 else 1
  {
    var rest := distance - distance / MAX_SKIP * MAX_SKIP;
    assert rest == distance % MAX_SKIP < MAX_REPEAT;
    assert |Leap(rest)| == if rest != 0 then 1 else 0;
  }

  lemma {:induction false} LeapLength(distance: nat)
    ensures |Leap(distance)| == LeapCount(distance)
    decreases distance
  {
    if distance > MAX_LEAP {
      LeapLength(distance - MAX_LEAP);
      OneLeapMore(distance);
    } else if distance > MAX_REPEAT {
      RestOfLeap(distance);
    }
  }

  /**
   How many entries one more location adds: none if it extends the open group or
   its group folds into the run before it, else a new group and the way to it.
   */
  function StepCount(m: Meter, last: u64, offset: u64, p: PointerSize): nat {
    var delta := Delta(last, offset);
    if delta == p then if m.contig < 0xFF then 0 else 1
    else if InReach(delta, p) then if Merges(m, SkipFor(delta, p)) then 0 else 1
    else if offset < last && last != TWO64 - p then 2 + LeapCount(offset)
    else 1 + LeapCount(Wrap(delta - p))
  }

  function EntryCount(offsets: seq<u64>, p: PointerSize): nat {
    var n := |offsets| - 1;
    if n < 0 then 0
    else if n == 0 then 1 + LeapCount(offsets[0])
    else EntryCount(offsets[..n], p) + StepCount(MeterOf(offsets[..n], p), offsets[n - 1], offsets[n], p)
  }

  lemma {:induction false} NearCount(entries: seq<RebasePattern>, m: Meter, delta: u64, p: PointerSize)
    requires RebaseRoundTrip.Inv(entries, m) && IsNear(delta, p) && delta != p
    ensures |MergeLast(SetSkip(entries, SkipFor(delta, p)))| == |entries| - if Merges(m, SkipFor(delta, p)) then 1 else 0
  {
    var skip := SkipFor(delta, p);
    SkipRange(delta, p);
    DecodeMerge(entries, m, skip, p);
    if Merges(m, skip) {
      var closed := SetSkip(entries, skip);
      assert closed[|entries| - 2] == entries[|entries| - 2];
      assert |entries| > 2;
    }
  }

  lemma {:induction false} StepLength(entries: seq<RebasePattern>, m: Meter, last: u64, offset: u64, p: PointerSize)
    requires RebaseRoundTrip.Inv(entries, m) && EncodeStep(entries, last, offset, p).Some?
    ensures |EncodeStep(entries, last, offset, p).value| == |entries| + StepCount(m, last, offset, p)
  {
    var delta := Delta(last, offset);
    if delta == p {
    } else if IsNear(delta, p) {
      NearCount(entries, m, delta, p);
    } else if offset < last && last != TWO64 - p {
      LeapLength(offset);
    } else {
      LeapLength(Wrap(delta - p));
    }
  }

  lemma {:induction false} FirstLength(offset: u64, p: PointerSize)
    requires !StartsNear([offset], p)
    ensures Encode([offset], p).Some? && |Encode([offset], p).value| == 1 + LeapCount(offset)
  {
    FirstStep(offset, p);
    FirstDistance(offset, p);
    LeapLength(offset);
  }

  lemma {:induction false} EncodeNext(offsets: seq<u64>, p: PointerSize)
    requires |offsets| > 1 && Encode(offsets, p).Some?
    ensures var n := |offsets| - 1;
      Encode(offsets[..n], p).Some? &&
      Encode(offsets, p) == EncodeStep(Encode(offsets[..n], p).value, offsets[n - 1], offsets[n], p)
  {
  }

  /** The table of an accepted stream has exactly that many entries. */
  lemma {:induction false} TableLength(offsets: seq<u64>, p: PointerSize)
    requires !StartsNear(offsets, p)
    ensures Encode(offsets, p).Some? && |Encode(offsets, p).value| == EntryCount(offsets, p)
  {
    var n := |offsets| - 1;
    if n == 0 {
      assert offsets == [offsets[0]];
      FirstLength(offsets[0], p);
    } else if n > 0 {
      TableLength(offsets[..n], p);
      EncodeKeepsInv(offsets[..n], p);
      EncodeKeepsInv(offsets, p);
      EncodeNext(offsets, p);
      StepLength(Encode(offsets[..n], p).value, MeterOf(offsets[..n], p), offsets[n - 1], offsets[n], p);
    }
  }

  // ----- what costs most -----

  /** Offsets in an image stay below 4 GB. */
  const MAX_IMAGE := 0x1_0000_0000

  /** The most entries that one location of such an image needs. */
  const ENTRIES_EACH := 277

  /** Fewer entries than a single overlapping pair of pointers costs. */
  const CROWDED_ENTRIES := 1_000_000_000_000

  ghost predicate ImageSized(offsets: seq<u64>) {
    forall i :: 0 <= i < |offsets| ==> offsets[i] < MAX_IMAGE
  }

  /** No pointer starts inside the one before it. */
  ghost predicate Spaced(offsets: seq<u64>, p: PointerSize) {
    forall i :: 0 <= i < |offsets| - 1 ==> FitsBehind(offsets[i], offsets[i + 1], p)
  }

  predicate FitsBehind(last: u64, offset: u64, p: PointerSize) { offset <= last || offset - last >= p }

  lemma {:induction false} LeapSize(distance: nat)
    ensures distance <= |Leap(distance)| * MAX_LEAP <= distance + 2 * MAX_LEAP
    decreases distance
  {
    if distance > MAX_LEAP {
      LeapSize(distance - MAX_LEAP);
    } else if distance > MAX_REPEAT {
      assert Leap(distance - distance / MAX_SKIP * MAX_SKIP) ==
        if distance % MAX_SKIP != 0 then [RebasePattern(distance % MAX_SKIP, 0, 1)] else [];
    }
  }

  lemma {:induction false} MergeSize(entries: seq<RebasePattern>)
    requires entries != []
    ensures |entries| - 1 <= |MergeLast(entries)| <= |entries|
  {
  }

  /** A step never shortens the table, and lengthens it little unless pointers overlap. */
  lemma {:induction false} StepSize(entries: seq<RebasePattern>, last: u64, offset: u64, p: PointerSize)
    requires last < MAX_IMAGE && offset < MAX_IMAGE && EncodeStep(entries, last, offset, p).Some?
    ensures var n := |EncodeStep(entries, last, offset, p).value|;
      && |entries| <= n
      && (FitsBehind(last, offset, p) ==> n <= |entries| + ENTRIES_EACH)
      && (!FitsBehind(last, offset, p) ==> n >= CROWDED_ENTRIES)
  {
    var delta := Delta(last, offset);
    if delta == p {
      assert FitsBehind(last, offset, p);
    } else if IsNear(delta, p) {
      NearFits(last, offset, p);
      MergeSize(SetSkip(entries, SkipFor(delta, p)));
    } else if offset < last {
      LeapSize(offset);
    } else {
      FarSize(last, offset, p);
    }
  }

  lemma {:induction false} NearFits(last: u64, offset: u64, p: PointerSize)
    requires last < MAX_IMAGE && offset < MAX_IMAGE && IsNear(Delta(last, offset), p)
    ensures FitsBehind(last, offset, p)
  {
    if offset > last {
      assert Delta(last, offset) == offset - last;
    }
  }

  lemma {:induction false} FarSize(last: u64, offset: u64, p: PointerSize)
    requires last <= offset < MAX_IMAGE && !IsNear(Delta(last, offset), p) && Delta(last, offset) != p
    ensures var leap := |Leap(Wrap(Delta(last, offset) - p))|;
      && (FitsBehind(last, offset, p) ==> leap <= 275)
      && (!FitsBehind(last, offset, p) ==> leap >= CROWDED_ENTRIES)
  {
    assert Delta(last, offset) == offset - last;
    LeapSize(Wrap(Delta(last, offset) - p));
    if offset == last {
      NotFarFromItself(p);
    } else if offset - last >= p {
      assert Wrap(offset - last - p) == offset - last - p;
    } else {
      assert Wrap(offset - last - p) == offset - last - p + TWO64;
    }
  }

  lemma {:induction false} NotFarFromItself(p: PointerSize)
    ensures IsNear(0, p)
  {
  }

  lemma {:induction false} FirstSize(offset: u64, p: PointerSize)
    requires offset < MAX_IMAGE && Encode([offset], p).Some?
    ensures |Encode([offset], p).value| <= ENTRIES_EACH
  {
    FirstStep(offset, p);
    FirstDistance(offset, p);
    LeapSize(offset);
  }

  /** The table of a stream without overlapping pointers has at most so many entries for each location. */
  lemma {:induction false} SpacedSize(offsets: seq<u64>, p: PointerSize)
    requires ImageSized(offsets) && Spaced(offsets, p) && Encode(offsets, p).Some?
    ensures |Encode(offsets, p).value| <= ENTRIES_EACH * |offsets|
  {
    var n := |offsets| - 1;
    if n == 0 {
      assert offsets == [offsets[0]];
      FirstSize(offsets[0], p);
    } else if n > 0 {
      EncodeNext(offsets, p);
      SpacedSize(offsets[..n], p);
      assert FitsBehind(offsets[n - 1], offsets[n - 1 + 1], p);
      StepSize(Encode(offsets[..n], p).value, offsets[n - 1], offsets[n], p);
    }
  }

  /** One pointer that starts inside the one before makes the table larger than any memory. */
  lemma {:induction false} CrowdedSize(offsets: seq<u64>, p: PointerSize)
    requires ImageSized(offsets) && !Spaced(offsets, p) && Encode(offsets, p).Some?
    ensures |Encode(offsets, p).value| >= CROWDED_ENTRIES
  {
    var n := |offsets| - 1;
    var i :| 0 <= i < n && !FitsBehind(offsets[i], offsets[i + 1], p);
    EncodeNext(offsets, p);
    StepSize(Encode(offsets[..n], p).value, offsets[n - 1], offsets[n], p);
    if i < n - 1 {
      assert !FitsBehind(offsets[..n][i], offsets[..n][i + 1], p);
      CrowdedSize(offsets[..n], p);
    }
  }

  lemma {:induction false} TwoMeter()
    ensures !StartsNear([400, 404], 8) && NoImmediateRepeat([400, 404]) && RunsShort([400, 404], 8)
  {
    var offsets: seq<u64> := [400, 404];
    assert offsets[..1] == [400] && offsets[..1][..0] == [];
    assert Delta(TWO64 - 8, 400) == 408 && Delta(400, 404) == 4;
  }
}
