/** When decoding the compressed rebase locations gives the locations back. */
module RebaseRoundTrip {
  import opened Lists
  import opened Words
  import opened RebaseCodec

  // ----- a scan of the locations that tells how often a group repeats -----

  /** Equal closed groups in a row: their contiguous count, their skip, and how many. */
  datatype Run = NoRun | Run(contig: nat, skip: nat, count: nat)

  /** The length of the open contiguous group, and the run of closed groups before it. */
  datatype Meter = Meter(contig: nat, run: Run) {
    function Count(): nat { if run.Run? then run.count else 0 }
  }

  /** A whole number of pointers, at most 15, lies between the starts of two locations. */
  predicate InReach(delta: u64, p: PointerSize) {
    if p == 8 then delta % 8 == 0 && delta <= 120 else delta % 4 == 0 && delta <= 60
  }

  function MeterStep(m: Meter, delta: u64, p: PointerSize): Meter
  {
    if delta == p then
      if m.contig < 0xFF then m.(contig := m.contig + 1) else Meter(1, NoRun)
    else if InReach(delta, p) then
      var skip := SkipFor(delta, p);
      if m.run.Run? && m.run.contig == m.contig && m.run.skip == skip
      then Meter(1, m.run.(count := m.run.count + 1))
      else Meter(1, Run(m.contig, skip, 1))
    else Meter(1, NoRun)
  }

  function MeterOf(offsets: seq<u64>, p: PointerSize): Meter
    requires offsets != []
  {
    var n := |offsets| - 1;
    if n == 0 then Meter(1, NoRun)
    else MeterStep(MeterOf(offsets[..n], p), Delta(offsets[n - 1], offsets[n]), p)
  }

  /** At no point have 2^20 equal groups come in a row. */
  ghost predicate RunsShort(offsets: seq<u64>, p: PointerSize) {
    |offsets| <= 1 || (RunsShort(offsets[..|offsets| - 1], p) && MeterOf(offsets, p).Count() <= 0xF_FFFF)
  }

  ghost predicate NoImmediateRepeat(offsets: seq<u64>) {
    forall i :: 0 <= i < |offsets| - 1 ==> offsets[i] != offsets[i + 1]
  }

  /** The first location is at most 14 pointers behind the start, or one before it, and aligned. */
  predicate StartsNear(offsets: seq<u64>, p: PointerSize) {
    && offsets != []
    && if p == 8 then offsets[0] % 8 == 0 && (offsets[0] <= 112 || offsets[0] == TWO64 - 8)
       else offsets[0] % 4 == 0 && (offsets[0] <= 56 || offsets[0] == TWO64 - 4)
  }

  // ----- what single patterns do -----

  lemma {:induction false} DecodeSnoc(entries: seq<RebasePattern>, e: RebasePattern, p: PointerSize)
    ensures Decode(entries + [e], p) == Apply(Decode(entries, p), p, e)
  {
    assert (entries + [e])[..|entries|] == entries;
  }

  lemma {:induction false} DecodeSingle(entries: seq<RebasePattern>, p: PointerSize)
    ensures Decode(entries + [SINGLE], p) == Emit(Decode(entries, p), p)
  {
    DecodeSnoc(entries, SINGLE, p);
    ApplyOpenGroup(Decode(entries, p), p, 1, 0);
    assert EmitContig(Decode(entries, p), p, 1) == Emit(EmitContig(Decode(entries, p), p, 0), p);
  }

  lemma {:induction false} ApplyOpenGroup(c: Cursor, p: PointerSize, contig: nat, skip: nat)
    requires contig > 0
    ensures Apply(c, p, RebasePattern(1, contig, skip)) == Advance(EmitContig(c, p, contig), Pointers(p, skip))
    ensures skip == 0 ==> Apply(c, p, RebasePattern(1, contig, skip)) == EmitContig(c, p, contig)
  {
    assert EmitGroups(c, p, contig, skip, 1) == EmitGroup(EmitGroups(c, p, contig, skip, 0), p, contig, skip);
    AdvanceZero(EmitContig(c, p, contig));
    assert skip == 0 ==> Pointers(p, skip) == 0;
  }

  lemma {:induction false} AdvanceZero(c: Cursor)
    ensures Advance(c, 0) == c
  {
  }

  lemma {:induction false} ContigLength(c: Cursor, p: PointerSize, contig: nat)
    ensures |EmitContig(c, p, contig).out| == |c.out| + contig
  {
    if contig > 0 {
      ContigLength(c, p, contig - 1);
    }
  }

  lemma {:induction false} GroupsLength(c: Cursor, p: PointerSize, contig: nat, skip: nat, repeat: nat)
    ensures |EmitGroups(c, p, contig, skip, repeat).out| >= |c.out|
  {
    if repeat > 0 {
      GroupsLength(c, p, contig, skip, repeat - 1);
      ContigLength(EmitGroups(c, p, contig, skip, repeat - 1), p, contig);
    }
  }

  lemma {:induction false} AdvanceTwice(c: Cursor, a: nat, b: nat)
    ensures Advance(Advance(c, a), b) == Advance(c, a + b)
  {
  }

  /** The leap entries move the decoder by exactly the distance. */
  lemma {:induction false} DecodeLeap(entries: seq<RebasePattern>, distance: nat, p: PointerSize)
    ensures Decode(entries + Leap(distance), p) == Advance(Decode(entries, p), distance)
    decreases distance
  {
    if distance > MAX_LEAP {
      LeapOnce(entries, RebasePattern(MAX_REPEAT, 0, MAX_SKIP), distance - MAX_LEAP, distance, p);
    } else if distance > MAX_REPEAT {
      var count := distance / MAX_SKIP;
      LeapOnce(entries, RebasePattern(count, 0, MAX_SKIP), distance - count * MAX_SKIP, distance, p);
    } else if distance != 0 {
      DecodeSnoc(entries, RebasePattern(distance, 0, 1), p);
    } else {
      assert entries + [] == entries;
      AdvanceZero(Decode(entries, p));
    }
  }

  lemma {:induction false} LeapOnce(entries: seq<RebasePattern>, e: RebasePattern, rest: nat, distance: nat,
                                    p: PointerSize)
    requires e.contigCount == 0 && e.repeatCount > 0 && e.repeatCount * e.skipCount + rest == distance && rest < distance
    requires Leap(distance) == [e] + Leap(rest)
    ensures Decode(entries + Leap(distance), p) == Advance(Decode(entries, p), distance)
    decreases distance, 0
  {
    var c, move := Decode(entries, p), e.repeatCount * e.skipCount;
    assert entries + Leap(distance) == entries + [e] + Leap(rest);
    DecodeLeap(entries + [e], rest, p);
    DecodeSnoc(entries, e, p);
    assert Apply(c, p, e) == Advance(c, move);
    AdvanceTwice(c, move, rest);
  }

  // ----- the invariant between two calls of the encoder's block -----

  ghost predicate Inv(entries: seq<RebasePattern>, m: Meter) {
    var n := |entries|;
    && n >= 2
    && entries[0].contigCount == 0
    && 1 <= m.contig <= MAX_CONTIG
    && entries[n - 1] == RebasePattern(1, m.contig, 0)
    && match m.run
       case NoRun => entries[n - 2].contigCount == 0 || entries[n - 2].skipCount == 0
       case Run(c, s, count) =>
         && c >= 1 && s >= 1 && count >= 1
         && entries[n - 2] == RebasePattern(count % (MAX_REPEAT + 1), c, s)
  }

  lemma {:induction false} SkipRange(delta: u64, p: PointerSize)
    requires IsNear(delta, p) && delta != p
    ensures delta != 0 ==> 1 <= SkipFor(delta, p) <= 14 && Pointers(p, SkipFor(delta, p)) == delta - p
    ensures delta == 0 ==> SkipFor(delta, p) == 15
  {
    if delta == 0 {
      assert InPointers(p, Wrap(delta - p)) == if p == 8 then TWO64 / 8 - 1 else TWO64 / 4 - 1;
    } else {
      var skip := InPointers(p, delta - p);
      assert Wrap(delta - p) == delta - p;
      assert 1 <= skip <= 14 && Pointers(p, skip) == delta - p;
      assert SkipFor(delta, p) == skip % 256 % 16;
    }
  }

  /** Whether this call folds an entry into one whose repeat count is at its limit. */
  ghost predicate Overflows(m: Meter, delta: u64, p: PointerSize)
  {
    var m' := MeterStep(m, delta, p);
    m.run.Run? && m'.run.Run? && m'.run.count == m.run.count + 1 && m'.run.count % (MAX_REPEAT + 1) == 0
  }

  /** The location that the decoder reports for a call. */
  function NextLocation(cur: u64, last: u64, offset: u64, p: PointerSize): u64
  {
    var delta := Delta(last, offset);
    if delta == 0 then Wrap(cur + Pointers(p, 15))
    else if !IsNear(delta, p) && offset < last && last != TWO64 - p then offset
    else Wrap(cur + Wrap(delta - p))
  }

  lemma {:induction false} WrapsMeet(last: u64, offset: u64, p: PointerSize)
    ensures Wrap(Wrap(last + p) + Wrap(Delta(last, offset) - p)) == offset
    ensures Wrap(Wrap(last + p) + Pointers(p, 15)) != last
    ensures Delta(last, offset) == 0 <==> offset == last
  {
    var delta := Delta(last, offset);
    assert delta == offset - last || delta == offset - last + TWO64;
    var rest := Wrap(delta - p);
    assert rest == delta - p || rest == delta - p + TWO64;
    var cur: int := Wrap(last + p);
    assert cur == last + p || cur + TWO64 == last + p;
    assert cur + rest == offset || cur + rest == offset + TWO64;
  }

  /** The decoder is right about the next location if it was about the last, unless that is repeated. */
  lemma {:induction false} NextLocationIsRight(last: u64, offset: u64, p: PointerSize)
    ensures NextLocation(Wrap(last + p), last, offset, p) == offset <==> offset != last
  {
    WrapsMeet(last, offset, p);
  }

  /** A call that extends the open group, or opens a new one after a full group. */
  lemma {:induction false} StepContiguous(entries: seq<RebasePattern>, m: Meter, p: PointerSize)
    requires Inv(entries, m)
    ensures var back := entries[|entries| - 1];
      var after := if back.contigCount < MAX_CONTIG
                   then entries[|entries| - 1 := back.(contigCount := back.contigCount + 1)] else entries + [SINGLE];
      Inv(after, MeterStep(m, p, p)) && Decode(after, p) == Emit(Decode(entries, p), p)
  {
    var n := |entries| - 1;
    var back := entries[n];
    if back.contigCount < MAX_CONTIG {
      var after := entries[n := back.(contigCount := back.contigCount + 1)];
      assert after[..n] == entries[..n];
      ApplyOpenGroup(Decode(entries[..n], p), p, m.contig, 0);
      ApplyOpenGroup(Decode(entries[..n], p), p, m.contig + 1, 0);
    } else {
      DecodeSingle(entries, p);
    }
  }

  /** Setting the skip count of the open group moves the decoder past it. */
  lemma {:induction false} DecodeSetSkip(entries: seq<RebasePattern>, m: Meter, skip: nat, p: PointerSize)
    requires Inv(entries, m)
    ensures Decode(SetSkip(entries, skip), p) == Advance(Decode(entries, p), Pointers(p, skip))
  {
    var n := |entries| - 1;
    var x := Decode(entries[..n], p);
    assert SetSkip(entries, skip)[..n] == entries[..n];
    assert SetSkip(entries, skip)[n] == RebasePattern(1, m.contig, skip);
    ApplyOpenGroup(x, p, m.contig, skip);
    ApplyOpenGroup(x, p, m.contig, 0);
  }

  predicate Merges(m: Meter, skip: nat) {
    m.run.Run? && m.run.contig == m.contig && m.run.skip == skip
  }

  /** Two adjacent equal groups, and the one they are folded into. */
  lemma {:induction false} DecodeFolded(base: seq<RebasePattern>, repeat: nat, contig: nat, skip: nat, p: PointerSize)
    requires contig > 0
    ensures var two := base + [RebasePattern(repeat, contig, skip)] + [RebasePattern(1, contig, skip)];
      && Decode(base + [RebasePattern(repeat + 1, contig, skip)], p) == Decode(two, p)
      && |Decode(base + [RebasePattern(0, contig, skip)], p).out| < |Decode(two, p).out|
  {
    var x := Decode(base, p);
    var y := EmitGroups(x, p, contig, skip, repeat);
    DecodeSnoc(base, RebasePattern(repeat, contig, skip), p);
    DecodeSnoc(base + [RebasePattern(repeat, contig, skip)], RebasePattern(1, contig, skip), p);
    DecodeSnoc(base, RebasePattern(repeat + 1, contig, skip), p);
    DecodeSnoc(base, RebasePattern(0, contig, skip), p);
    ApplyOpenGroup(y, p, contig, skip);
    GroupsLength(x, p, contig, skip, repeat);
    ContigLength(y, p, contig);
  }

  /** Folding two equal groups changes nothing for the decoder unless the count overflows. */
  lemma {:induction false} DecodeMerge(entries: seq<RebasePattern>, m: Meter, skip: nat, p: PointerSize)
    requires Inv(entries, m) && 1 <= skip
    ensures var closed, merged := SetSkip(entries, skip), MergeLast(SetSkip(entries, skip));
      if Merges(m, skip) then
        && |merged| >= 2 && merged[0].contigCount == 0
        && merged[|merged| - 1] == RebasePattern((m.run.count + 1) % (MAX_REPEAT + 1), m.contig, skip)
        && if (m.run.count + 1) % (MAX_REPEAT + 1) == 0
           then |Decode(merged, p).out| < |Decode(closed, p).out|
           else Decode(merged, p) == Decode(closed, p)
      else merged == closed
  {
    if Merges(m, skip) {
      var n := |entries| - 1;
      assert n - 1 > 0;
      var base, r := entries[..n - 1], m.run.count % (MAX_REPEAT + 1);
      var closed := SetSkip(entries, skip);
      assert closed == base + [RebasePattern(r, m.contig, skip)] + [RebasePattern(1, m.contig, skip)];
      var r' := (m.run.count + 1) % (MAX_REPEAT + 1);
      assert r' == (r + 1) % (MAX_REPEAT + 1);
      assert MergeLast(closed) == base + [RebasePattern(r', m.contig, skip)];
      DecodeFolded(base, r, m.contig, skip, p);
    }
  }

  lemma {:induction false} ClosedGroupInv(entries: seq<RebasePattern>, m: Meter, skip: nat, p: PointerSize)
    requires Inv(entries, m) && 1 <= skip
    ensures Inv(MergeLast(SetSkip(entries, skip)) + [SINGLE],
                Meter(1, Run(m.contig, skip, if Merges(m, skip) then m.run.count + 1 else 1)))
  {
    DecodeMerge(entries, m, skip, p);
  }

  lemma {:induction false} CloseMeter(m: Meter, delta: u64, p: PointerSize)
    requires IsNear(delta, p) && delta != p
    ensures var skip := SkipFor(delta, p);
      && MeterStep(m, delta, p) == Meter(1, Run(m.contig, skip, if Merges(m, skip) then m.run.count + 1 else 1))
      && (Merges(m, skip) && (m.run.count + 1) % (MAX_REPEAT + 1) == 0 ==> Overflows(m, delta, p))
      && (Overflows(m, delta, p) && !Merges(m, skip) ==> m.run.count == 0)
      && (Overflows(m, delta, p) && Merges(m, skip) ==> (m.run.count + 1) % (MAX_REPEAT + 1) == 0)
  {
  }

  lemma {:induction false} StepSkip(entries: seq<RebasePattern>, m: Meter, delta: u64, p: PointerSize)
    requires Inv(entries, m) && IsNear(delta, p) && delta != p
    ensures var after := MergeLast(SetSkip(entries, SkipFor(delta, p))) + [SINGLE];
      && Inv(after, MeterStep(m, delta, p))
      && (Overflows(m, delta, p) ==> |Decode(after, p).out| <= |Decode(entries, p).out|)
      && (!Overflows(m, delta, p) ==> Decode(after, p) == Emit(Advance(Decode(entries, p), Pointers(p, SkipFor(delta, p))), p))
  {
    var skip := SkipFor(delta, p);
    SkipRange(delta, p);
    CloseMeter(m, delta, p);
    ClosedGroupInv(entries, m, skip, p);
    DecodeMerge(entries, m, skip, p);
    DecodeSetSkip(entries, m, skip, p);
    DecodeSingle(MergeLast(SetSkip(entries, skip)), p);
  }

  lemma {:induction false} StepFar(entries: seq<RebasePattern>, m: Meter, reset: bool, distance: nat, delta: u64,
                                   p: PointerSize)
    requires Inv(entries, m) && !IsNear(delta, p)
    requires reset || distance > 0
    ensures var after := (if reset then entries + [RESET] else entries) + Leap(distance) + [SINGLE];
      && Inv(after, MeterStep(m, delta, p))
      && Decode(after, p) == Emit(Advance(if reset then Decode(entries, p).(cur := 0) else Decode(entries, p), distance), p)
  {
    var base := if reset then entries + [RESET] else entries;
    DecodeSnoc(entries, RESET, p);
    DecodeLeap(base, distance, p);
    DecodeSingle(base + Leap(distance), p);
    LeapNeverEmits(distance);
    var before := base + Leap(distance);
    assert before[|before| - 1].contigCount == 0;
  }

  lemma {:induction false} LeapNeverEmits(distance: nat)
    ensures distance > 0 ==> Leap(distance) != []
    ensures forall e :: e in Leap(distance) ==> e.contigCount == 0
    decreases distance
  {
    if distance > MAX_LEAP {
      LeapNeverEmits(distance - MAX_LEAP);
    } else if distance > MAX_REPEAT {
      LeapNeverEmits(distance - distance / MAX_SKIP * MAX_SKIP);
    }
  }

  /** The decoder's state after a call that loses nothing. */
  ghost predicate Reports(before: Cursor, after: Cursor, x: u64, p: PointerSize) {
    after.out == before.out + [x] && after.cur == Wrap(x + p)
  }

  lemma {:induction false} ContiguousLocation(before: Cursor, last: u64, offset: u64, p: PointerSize)
    requires Delta(last, offset) == p
    ensures Reports(before, Emit(before, p), NextLocation(before.cur, last, offset, p), p)
  {
    assert IsNear(p, p);
  }

  lemma {:induction false} NearLocation(before: Cursor, last: u64, offset: u64, p: PointerSize)
    requires IsNear(Delta(last, offset), p) && Delta(last, offset) != p
    ensures var skip := SkipFor(Delta(last, offset), p);
      Reports(before, Emit(Advance(before, Pointers(p, skip)), p), NextLocation(before.cur, last, offset, p), p)
  {
    var delta := Delta(last, offset);
    SkipRange(delta, p);
    if delta == 0 {
      assert Pointers(p, SkipFor(delta, p)) == Pointers(p, 15);
    } else {
      assert Wrap(delta - p) == delta - p;
    }
  }

  lemma {:induction false} FarLocation(before: Cursor, last: u64, offset: u64, p: PointerSize)
    requires !IsNear(Delta(last, offset), p)
    ensures var reset := offset < last && last != TWO64 - p;
      var after := if reset then Emit(Advance(before.(cur := 0), offset), p)
                   else Emit(Advance(before, Wrap(Delta(last, offset) - p)), p);
      Reports(before, after, NextLocation(before.cur, last, offset, p), p)
  {
  }

  /** One call of the block: one more location, or a loss when a repeat count overflows. */
  ghost predicate StepIsGood(entries: seq<RebasePattern>, m: Meter, last: u64, offset: u64, p: PointerSize)
  {
    var step, delta := EncodeStep(entries, last, offset, p), Delta(last, offset);
    && step.Some?
    && Inv(step.value, MeterStep(m, delta, p))
    && var before, after := Decode(entries, p), Decode(step.value, p);
       if Overflows(m, delta, p) then |after.out| <= |before.out|
       else Reports(before, after, NextLocation(before.cur, last, offset, p), p)
  }

  lemma {:induction false} StepOutputNear(entries: seq<RebasePattern>, m: Meter, last: u64, offset: u64, p: PointerSize)
    requires Inv(entries, m) && IsNear(Delta(last, offset), p) && Delta(last, offset) != p
    ensures StepIsGood(entries, m, last, offset, p)
  {
    var delta := Delta(last, offset);
    SkipRange(delta, p);
    StepSkip(entries, m, delta, p);
    NearLocation(Decode(entries, p), last, offset, p);
  }

  lemma {:induction false} StepOutputFar(entries: seq<RebasePattern>, m: Meter, last: u64, offset: u64, p: PointerSize)
    requires Inv(entries, m) && !IsNear(Delta(last, offset), p)
    ensures StepIsGood(entries, m, last, offset, p)
  {
    var delta, reset := Delta(last, offset), offset < last && last != TWO64 - p;
    var distance: nat := if reset then offset else Wrap(delta - p);
    var after := (if reset then entries + [RESET] else entries) + Leap(distance) + [SINGLE];
    assert EncodeStep(entries, last, offset, p) == Some(after) by { assert IsNear(p, p); }
    assert reset || distance > 0;
    StepFar(entries, m, reset, distance, delta, p);
    FarLocation(Decode(entries, p), last, offset, p);
  }

  lemma {:induction false} StepOutput(entries: seq<RebasePattern>, m: Meter, last: u64, offset: u64, p: PointerSize)
    requires Inv(entries, m)
    ensures StepIsGood(entries, m, last, offset, p)
  {
    var delta := Delta(last, offset);
    if delta == p {
      StepContiguous(entries, m, p);
      ContiguousLocation(Decode(entries, p), last, offset, p);
    } else if IsNear(delta, p) {
      StepOutputNear(entries, m, last, offset, p);
    } else {
      StepOutputFar(entries, m, last, offset, p);
    }
  }

  // ----- whole streams -----

  lemma {:induction false} EncodePrefix(offsets: seq<u64>, p: PointerSize)
    requires offsets != [] && Encode(offsets, p).Some?
    ensures Encode(offsets[..|offsets| - 1], p).Some?
  {
  }

  lemma {:induction false} FirstCall(offset: u64, p: PointerSize)
    ensures Encode([offset], p).None? <==> StartsNear([offset], p)
    ensures Encode([offset], p).Some? ==>
      var entries := Encode([offset], p).value;
      Inv(entries, Meter(1, NoRun)) && Decode(entries, p) == Cursor([offset], Wrap(offset + p))
  {
    FirstStep(offset, p);
    StartIsNear(offset, p);
    if !StartsNear([offset], p) {
      FirstDistance(offset, p);
      FirstEntries(offset, p);
    }
  }

  lemma {:induction false} StartIsNear(offset: u64, p: PointerSize)
    ensures IsNear(Delta(TWO64 - p, offset), p) <==> StartsNear([offset], p)
  {
    if offset < TWO64 - p {
      assert Delta(TWO64 - p, offset) == offset + p;
    } else {
      assert Delta(TWO64 - p, offset) == offset + p - TWO64;
    }
  }

  lemma {:induction false} FirstStep(offset: u64, p: PointerSize)
    ensures var delta := Delta(TWO64 - p, offset);
      Encode([offset], p) == if IsNear(delta, p) then None else Some(Leap(Wrap(delta - p)) + [SINGLE])
  {
    assert [offset][..0] == [];
    assert Encode([offset], p) == EncodeStep([], TWO64 - p, offset, p);
    assert IsNear(p, p);
    assert [] + Leap(Wrap(Delta(TWO64 - p, offset) - p)) == Leap(Wrap(Delta(TWO64 - p, offset) - p));
  }

  lemma {:induction false} FirstDistance(offset: u64, p: PointerSize)
    requires !IsNear(Delta(TWO64 - p, offset), p)
    ensures Wrap(Delta(TWO64 - p, offset) - p) == offset
    ensures offset > 0
  {
    WrapsMeet(TWO64 - p, offset, p);
    assert Wrap(TWO64 - p + p) == 0;
    ZeroIsNear(p);
  }

  lemma {:induction false} ZeroIsNear(p: PointerSize)
    ensures IsNear(Delta(TWO64 - p, 0), p)
  {
    assert Delta(TWO64 - p, 0) == p;
  }

  lemma {:induction false} SingleAfter(leap: seq<RebasePattern>, distance: u64, p: PointerSize)
    requires Decode(leap, p) == Cursor([], distance)
    ensures Decode(leap + [SINGLE], p) == Cursor([distance], Wrap(distance + p))
  {
    DecodeSingle(leap, p);
    assert Emit(Cursor([], distance), p) == Cursor([distance], Wrap(distance + p));
  }

  lemma {:induction false} FirstEntries(distance: u64, p: PointerSize)
    requires distance > 0
    ensures Inv(Leap(distance) + [SINGLE], Meter(1, NoRun))
    ensures Decode(Leap(distance) + [SINGLE], p) == Cursor([distance], Wrap(distance + p))
  {
    LeapThenSingle(Leap(distance), distance);
    DecodeLeap([], distance, p);
    assert [] + Leap(distance) == Leap(distance);
    assert Advance(Cursor([], 0), distance) == Cursor([], distance);
    SingleAfter(Leap(distance), distance, p);
  }

  lemma {:induction false} LeapThenSingle(leap: seq<RebasePattern>, distance: nat)
    requires distance > 0 && leap == Leap(distance)
    ensures Inv(leap + [SINGLE], Meter(1, NoRun))
  {
    LeapNeverEmits(distance);
    assert leap[|leap| - 1] in leap && leap[0] in leap;
  }

  /** Encoding stops exactly at a first location too near the start; otherwise the invariant holds. */
  lemma {:induction false} EncodeKeepsInv(offsets: seq<u64>, p: PointerSize)
    requires offsets != []
    ensures Encode(offsets, p).Some? <==> !StartsNear(offsets, p)
    ensures Encode(offsets, p).Some? ==> Inv(Encode(offsets, p).value, MeterOf(offsets, p))
  {
    var n := |offsets| - 1;
    if n == 0 {
      FirstCall(offsets[0], p);
      assert offsets == [offsets[0]];
    } else {
      EncodeKeepsInv(offsets[..n], p);
      if !StartsNear(offsets, p) {
        StepOutput(Encode(offsets[..n], p).value, MeterOf(offsets[..n], p), offsets[n - 1], offsets[n], p);
      }
    }
  }

  lemma {:induction false} RunsShortBounds(offsets: seq<u64>, p: PointerSize)
    requires offsets != [] && RunsShort(offsets, p)
    ensures MeterOf(offsets, p).Count() <= MAX_REPEAT
  {
  }

  lemma {:induction false} MeterCounts(m: Meter, delta: u64, p: PointerSize)
    ensures Overflows(m, delta, p) && m.Count() <= MAX_REPEAT ==> MeterStep(m, delta, p).Count() == MAX_REPEAT + 1
    ensures MeterStep(m, delta, p).Count() == MAX_REPEAT + 1 && m.Count() <= MAX_REPEAT ==> Overflows(m, delta, p)
    ensures m.Count() <= MAX_REPEAT ==> MeterStep(m, delta, p).Count() <= MAX_REPEAT + 1
  {
  }

  ghost function Decoded(offsets: seq<u64>, p: PointerSize): Cursor
    requires Encode(offsets, p).Some?
  {
    Decode(Encode(offsets, p).value, p)
  }

  /** What the last call adds to the decoded stream. */
  lemma {:induction false} LastCall(offsets: seq<u64>, p: PointerSize)
    requires |offsets| > 1 && !StartsNear(offsets, p)
    ensures var n := |offsets| - 1;
      && Encode(offsets, p).Some? && Encode(offsets[..n], p).Some?
      && var before, after := Decoded(offsets[..n], p), Decoded(offsets, p);
         if Overflows(MeterOf(offsets[..n], p), Delta(offsets[n - 1], offsets[n]), p) then |after.out| <= |before.out|
         else Reports(before, after, NextLocation(before.cur, offsets[n - 1], offsets[n], p), p)
  {
    var n := |offsets| - 1;
    EncodeKeepsInv(offsets[..n], p);
    StepOutput(Encode(offsets[..n], p).value, MeterOf(offsets[..n], p), offsets[n - 1], offsets[n], p);
  }

  /** The decoder never reports more locations than there were, and fewer if a run is too long. */
  lemma {:induction false} DecodedLength(offsets: seq<u64>, p: PointerSize)
    requires offsets != [] && !StartsNear(offsets, p)
    ensures Encode(offsets, p).Some?
    ensures |Decoded(offsets, p).out| <= |offsets|
    ensures |Decoded(offsets, p).out| == |offsets| <==> RunsShort(offsets, p)
  {
    var n := |offsets| - 1;
    if n == 0 {
      assert offsets == [offsets[0]] && offsets[..1] == offsets;
      FirstCall(offsets[0], p);
    } else {
      DecodedLength(offsets[..n], p);
      MeterCounts(MeterOf(offsets[..n], p), Delta(offsets[n - 1], offsets[n]), p);
      LastCall(offsets, p);
      if RunsShort(offsets[..n], p) {
        RunsShortBounds(offsets[..n], p);
      }
    }
  }

  lemma {:induction false} RepeatsStep(offsets: seq<u64>)
    requires |offsets| > 1
    ensures var n := |offsets| - 1;
      NoImmediateRepeat(offsets) <==> NoImmediateRepeat(offsets[..n]) && offsets[n - 1] != offsets[n]
  {
    var n := |offsets| - 1;
    var front := offsets[..n];
    if NoImmediateRepeat(front) && offsets[n - 1] != offsets[n] {
      forall i | 0 <= i < n ensures offsets[i] != offsets[i + 1] {
        assert i == n - 1 || front[i] != front[i + 1];
      }
    }
    if NoImmediateRepeat(offsets) {
      assert offsets[n - 1] != offsets[n - 1 + 1];
    }
  }

  /** The decoder has followed the stream, unless a location was repeated. */
  ghost predicate Followed(offsets: seq<u64>, c: Cursor, p: PointerSize)
    requires offsets != []
  {
    if NoImmediateRepeat(offsets) then c == Cursor(offsets, Wrap(offsets[|offsets| - 1] + p)) else c.out != offsets
  }

  lemma {:induction false} FollowedStep(offsets: seq<u64>, before: Cursor, after: Cursor, p: PointerSize)
    requires |offsets| > 1
    requires Followed(offsets[..|offsets| - 1], before, p)
    requires Reports(before, after, NextLocation(before.cur, offsets[|offsets| - 2], offsets[|offsets| - 1], p), p)
    ensures Followed(offsets, after, p)
  {
    var n := |offsets| - 1;
    NextLocationIsRight(offsets[n - 1], offsets[n], p);
    RepeatsStep(offsets);
    LastDiffers(offsets[..n], offsets[n], before.out, NextLocation(before.cur, offsets[n - 1], offsets[n], p));
    assert offsets == offsets[..n] + [offsets[n]];
  }

  /** Without overlong runs the decoded stream goes wrong exactly at an immediate repeat. */
  lemma {:induction false} DecodedStream(offsets: seq<u64>, p: PointerSize)
    requires offsets != [] && !StartsNear(offsets, p) && RunsShort(offsets, p)
    ensures Encode(offsets, p).Some? && Followed(offsets, Decoded(offsets, p), p)
  {
    var n := |offsets| - 1;
    if n == 0 {
      assert offsets == [offsets[0]];
      FirstCall(offsets[0], p);
    } else {
      DecodedStream(offsets[..n], p);
      LastReport(offsets, p);
      FollowedStep(offsets, Decoded(offsets[..n], p), Decoded(offsets, p), p);
    }
  }

  /** A call that keeps all runs short reports one more location. */
  lemma {:induction false} LastReport(offsets: seq<u64>, p: PointerSize)
    requires |offsets| > 1 && !StartsNear(offsets, p) && RunsShort(offsets, p)
    ensures var n := |offsets| - 1;
      && Encode(offsets, p).Some? && Encode(offsets[..n], p).Some?
      && var before := Decoded(offsets[..n], p);
         Reports(before, Decoded(offsets, p), NextLocation(before.cur, offsets[n - 1], offsets[n], p), p)
  {
    var n := |offsets| - 1;
    DecodedLength(offsets[..n], p);
    DecodedLength(offsets, p);
    LastCall(offsets, p);
  }

  lemma {:induction false} LastDiffers<T>(a: seq<T>, x: T, b: seq<T>, y: T)
    ensures a + [x] == b + [y] <==> a == b && x == y
  {
    if a + [x] == b + [y] {
      assert (a + [x])[..|a|] == a && (b + [y])[..|b|] == b;
      assert (a + [x])[|a|] == x && (b + [y])[|b|] == y;
    }
  }

  ghost predicate RoundTrips(offsets: seq<u64>, p: PointerSize)
  {
    Encode(offsets, p).Some? && Decoded(offsets, p).out == offsets
  }

  /**
   The exact condition for the round trip, over every stream of 64-bit offsets in
   any order and alignment: it does not start within 14 pointers of the image's
   start, repeats no location immediately, and repeats no group 2^20 times. Room
   for the table is taken for granted here; `RebaseStore` says when there is.
   */
  lemma {:induction false} RebaseRoundTrip(offsets: seq<u64>, p: PointerSize)
    ensures RoundTrips(offsets, p) <==>
      !StartsNear(offsets, p) && NoImmediateRepeat(offsets) && RunsShort(offsets, p)
  {
    if offsets != [] {
      EncodeKeepsInv(offsets, p);
      if !StartsNear(offsets, p) {
        DecodedLength(offsets, p);
        if RunsShort(offsets, p) {
          DecodedStream(offsets, p);
        }
      }
    }
  }

  // ----- one stream for each way to fail -----

  lemma {:induction false} FirstPointerFails(p: PointerSize)
    ensures Encode([0], p).None?
  {
    ZeroIsNear(p);
    FirstCall(0, p);
  }

  lemma {:induction false} RepeatedLocationFails(p: PointerSize)
    ensures Encode([400, 400], p).Some? && !RoundTrips([400, 400], p)
  {
    var offsets: seq<u64> := [400, 400];
    assert Delta(TWO64 - p, 400) == 400 + p;
    EncodeKeepsInv(offsets, p);
    assert offsets[0] == offsets[0 + 1];
    RebaseRoundTrip(offsets, p);
  }

  /** Every second pointer from 400 on. */
  ghost function EverySecond(n: nat): seq<u64>
    requires n <= 0x100_0000
  {
    seq(n, i requires 0 <= i < n => 400 + 16 * i)
  }

  lemma {:induction false} EverySecondMeter(n: nat)
    requires 2 <= n <= 0x100_0000
    ensures MeterOf(EverySecond(n), 8) == Meter(1, Run(1, 1, n - 1))
  {
    var s := EverySecond(n);
    assert s[..n - 1] == EverySecond(n - 1);
    assert Delta(s[n - 2], s[n - 1]) == 16 && SkipFor(16, 8) == 1;
    if n == 2 {
      assert MeterOf(s[..1], 8) == Meter(1, NoRun);
    } else {
      EverySecondMeter(n - 1);
    }
  }

  /** 2^20 + 1 evenly spaced locations wrap the repeat count. */
  lemma {:induction false} LongRunFails()
    ensures !RoundTrips(EverySecond(0x10_0001), 8)
  {
    EverySecondMeter(0x10_0001);
    RebaseRoundTrip(EverySecond(0x10_0001), 8);
  }
}
