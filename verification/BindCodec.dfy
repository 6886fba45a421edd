/**
 The bind-location compressor of the closure builder and its decoder, for
 streams without weak-coalesced binds. Offsets are 64-bit.
 */
module BindCodec {
  import opened Lists
  import opened Words
  import opened RebaseCodec

  const MAX_START := 0x100_0000_0000
  const MAX_BIND_SKIP := 255
  const MAX_BIND_REPEAT := 0xFFF

  /** Targets are compared by their raw 64 bits only. */
  datatype Bind = Bind(offset: u64, target: u64)

  /** startVmOffset:40, skipCount:8, repeatCount:16. */
  datatype BindPattern = BindPattern(target: u64, start: u64, skipCount: nat, repeatCount: nat) {
    predicate Fits() { start < 0x100_0000_0000 && skipCount <= 0xFF && 1 <= repeatCount <= 0xFFF }
  }

  // ----- decoder -----

  function Stride(p: PointerSize, skip: nat): nat { Pointers(p, 1 + skip) }

  /** The location of the i-th bind of a pattern. */
  function Location(b: BindPattern, p: PointerSize, i: nat): u64 {
    if i == 0 then b.start else Wrap(Location(b, p, i - 1) + Stride(p, b.skipCount))
  }

  function Expand(b: BindPattern, p: PointerSize, count: nat): seq<Bind> {
    if count == 0 then [] else Expand(b, p, count - 1) + [Bind(Location(b, p, count - 1), b.target)]
  }

  function DecodeBinds(binds: seq<BindPattern>, p: PointerSize): seq<Bind> {
    if binds == [] then []
    else
      var last := binds[|binds| - 1];
      DecodeBinds(binds[..|binds| - 1], p) + Expand(last, p, last.repeatCount)
  }

  /** The bind part of `Image::forEachFixup`, with a handler that never stops. */
  method ForEachBindFixup(binds: seq<BindPattern>, p: PointerSize) returns (out: seq<Bind>)
    ensures out == DecodeBinds(binds, p)
  {
    out := [];
    for n := 0 to |binds|
      invariant out == DecodeBinds(binds[..n], p)
    {
      var pat := binds[n];
      ghost var before := out;
      assert binds[..n + 1][..n] == binds[..n];
      var cur := pat.start;
      for i := 0 to pat.repeatCount
        invariant cur == Location(pat, p, i)
        invariant out == before + Expand(pat, p, i)
      {
        out := out + [Bind(cur, pat.target)];
        cur := Wrap(cur + Pointers(p, 1 + pat.skipCount));
      }
    }
    assert binds[..|binds|] == binds;
  }

  // ----- encoder -----

  /** How many pointers lie between two locations, or None if the distance is misaligned. */
  function SkipAmount(last: u64, offset: u64, p: PointerSize): Option<nat> {
    var distance := Wrap(offset - last - p);
    if Aligned(p, distance) then Some(InPointers(p, distance)) else None
  }

  /** The last pattern with one more location, if it can take it. */
  function Extended(back: BindPattern, skip: nat): Option<BindPattern> {
    if back.repeatCount == 1 && back.skipCount == 0 && skip <= MAX_BIND_SKIP then
      Some(back.(repeatCount := 2, skipCount := skip))
    else if back.skipCount == skip && back.repeatCount < MAX_BIND_REPEAT then
      Some(back.(repeatCount := back.repeatCount + 1))
    else None
  }

  /** One call of the encoder's block after at least one bind; None if a start offset overflows its field. */
  function BindStep(binds: seq<BindPattern>, last: Bind, bind: Bind, p: PointerSize): Option<seq<BindPattern>>
    requires binds != []
  {
    var n := |binds| - 1;
    var skip := SkipAmount(last.offset, bind.offset, p);
    if bind.target == last.target && bind.offset > last.offset && skip.Some? && Extended(binds[n], skip.value).Some? then
      Some(binds[n := Extended(binds[n], skip.value).value])
    else if bind == last then
      Some(binds)
    else
      Started(binds, bind)
  }

  function Started(binds: seq<BindPattern>, bind: Bind): Option<seq<BindPattern>> {
    if bind.offset < MAX_START then Some(binds + [BindPattern(bind.target, bind.offset, 0, 1)]) else None
  }

  function EncodeBinds(stream: seq<Bind>, p: PointerSize): Option<seq<BindPattern>> {
    var n := |stream| - 1;
    if n == -1 then Some([])
    else if n == 0 then Started([], stream[0])
    else
      match EncodeBinds(stream[..n], p)
      case None => None
      case Some(binds) => if binds == [] then None else BindStep(binds, stream[n - 1], stream[n], p)
  }

  /** The block of `addBindInfo`; `ok` is false where the field assertion stops it. */
  method AddBind(before: seq<BindPattern>, lastOffset: u64, lastTarget: u64, bind: Bind, p: PointerSize)
    returns (ok: bool, binds: seq<BindPattern>)
    ensures (if before == [] then Started(before, bind) else BindStep(before, Bind(lastOffset, lastTarget), bind, p))
      == if ok then Some(binds) else None
  {
    binds := before;
    var offset, target := bind.offset, bind.target;
    var mergedIntoPrevious := false;
    if target == lastTarget && offset > lastOffset && binds != [] {
      var distance := Wrap(offset - lastOffset - p);
      if Aligned(p, distance) {
        var skipAmount := InPointers(p, distance);
        var back := binds[|binds| - 1];
        if back.repeatCount == 1 && back.skipCount == 0 && skipAmount <= MAX_BIND_SKIP {
          binds := binds[|binds| - 1 := back.(repeatCount := 2, skipCount := skipAmount)];
          mergedIntoPrevious := true;
        } else if back.skipCount == skipAmount && back.repeatCount < MAX_BIND_REPEAT {
          binds := binds[|binds| - 1 := back.(repeatCount := back.repeatCount + 1)];
          mergedIntoPrevious := true;
        }
      }
    }
    if target == lastTarget && offset == lastOffset && binds != [] {
      mergedIntoPrevious := true;
    }
    if !mergedIntoPrevious {
      if offset >= MAX_START {
        return false, [];
      }
      binds := binds + [BindPattern(target, offset, 0, 1)];
    }
    ok := true;
  }

  /** `addBindInfo` over all binds. */
  method AddBindInfo(stream: seq<Bind>, p: PointerSize) returns (ok: bool, binds: seq<BindPattern>)
    ensures EncodeBinds(stream, p) == if ok then Some(binds) else None
  {
    binds, ok := [], true;
    var lastOffset: u64, lastTarget: u64 := Wrap(-(p as int)), 0;
    for n := 0 to |stream|
      invariant ok && EncodeBinds(stream[..n], p) == Some(binds)
      invariant n > 0 ==> Bind(lastOffset, lastTarget) == stream[n - 1]
      invariant n > 0 <==> binds != []
    {
      assert stream[..n + 1][..n] == stream[..n];
      ok, binds := AddBind(binds, lastOffset, lastTarget, stream[n], p);
      assert EncodeBinds(stream[..n + 1], p) == if ok then Some(binds) else None;
      if !ok {
        BindPrefixFails(stream, n + 1, p);
        return false, [];
      }
      lastTarget, lastOffset := stream[n].target, stream[n].offset;
    }
    assert stream[..|stream|] == stream;
  }

  lemma {:induction false} BindPrefixFails(stream: seq<Bind>, n: nat, p: PointerSize)
    requires n <= |stream| && EncodeBinds(stream[..n], p) == None
    ensures EncodeBinds(stream, p) == None
    decreases |stream| - n
  {
    if n < |stream| {
      assert stream[..n + 1][..n] == stream[..n];
      BindPrefixFails(stream, n + 1, p);
    } else {
      assert stream[..n] == stream;
    }
  }

  // ----- round trip -----

  /** The stream with immediate repeats of the same bind dropped. */
  function Deduplicated(stream: seq<Bind>): seq<Bind> {
    var n := |stream| - 1;
    if n < 0 then []
    else if n > 0 && stream[n] == stream[n - 1] then Deduplicated(stream[..n])
    else Deduplicated(stream[..n]) + [stream[n]]
  }

  /** The last pattern ends at the last bind. */
  ghost predicate EndsAt(binds: seq<BindPattern>, last: Bind, p: PointerSize) {
    && binds != []
    && binds[|binds| - 1].repeatCount >= 1
    && var back := binds[|binds| - 1];
       back.target == last.target && Location(back, p, back.repeatCount - 1) == last.offset
  }

  lemma {:induction false} SkipNeedsRoom(last: u64, offset: u64, p: PointerSize)
    requires offset > last && offset - last < p
    ensures SkipAmount(last, offset, p) == None
  {
    var distance: int := offset - last - p;
    assert Wrap(distance) == distance + TWO64;
    assert !Aligned(p, distance + TWO64);
  }

  lemma {:induction false} SkipMeansStride(last: u64, offset: u64, p: PointerSize)
    requires offset > last && SkipAmount(last, offset, p).Some?
    ensures last + Stride(p, SkipAmount(last, offset, p).value) == offset
  {
    if offset - last < p {
      SkipNeedsRoom(last, offset, p);
    } else {
      assert Wrap(offset - last - p) == offset - last - p;
    }
  }

  lemma {:induction false} SameLocations(a: BindPattern, b: BindPattern, p: PointerSize, count: nat)
    requires a.start == b.start && a.target == b.target && (a.skipCount == b.skipCount || count <= 1)
    ensures Expand(a, p, count) == Expand(b, p, count)
    ensures count > 0 ==> Location(a, p, count - 1) == Location(b, p, count - 1)
  {
    if count > 0 {
      SameLocations(a, b, p, count - 1);
    }
  }

  lemma {:induction false} DecodeBack(binds: seq<BindPattern>, b: BindPattern, p: PointerSize)
    ensures DecodeBinds(binds + [b], p) == DecodeBinds(binds, p) + Expand(b, p, b.repeatCount)
  {
    assert (binds + [b])[..|binds|] == binds;
  }

  lemma {:induction false} ExtendedPattern(back: BindPattern, skip: nat, last: u64, offset: u64, p: PointerSize)
    requires back.repeatCount >= 1 && Location(back, p, back.repeatCount - 1) == last
    requires Extended(back, skip).Some? && last + Stride(p, skip) == offset
    ensures var back' := Extended(back, skip).value;
      && back'.target == back.target
      && back'.repeatCount == back.repeatCount + 1
      && Location(back', p, back'.repeatCount - 1) == offset
      && Expand(back', p, back'.repeatCount) == Expand(back, p, back.repeatCount) + [Bind(offset, back.target)]
  {
    var back', n := Extended(back, skip).value, back.repeatCount;
    SameLocations(back, back', p, n);
    NextStride(back', p, n, last, offset);
    assert Expand(back', p, n + 1) == Expand(back', p, n) + [Bind(offset, back.target)];
  }

  lemma {:induction false} NextStride(b: BindPattern, p: PointerSize, n: nat, last: u64, offset: u64)
    requires n >= 1 && Location(b, p, n - 1) == last && last + Stride(p, b.skipCount) == offset
    ensures Location(b, p, n) == offset
  {
    assert Wrap(offset) == offset;
  }

  /** Extending the last pattern adds exactly the new location. */
  lemma {:induction false} ExtendAddsOne(binds: seq<BindPattern>, last: Bind, bind: Bind, skip: nat, p: PointerSize)
    requires EndsAt(binds, last, p) && bind.target == last.target && bind.offset > last.offset
    requires SkipAmount(last.offset, bind.offset, p) == Some(skip)
    requires Extended(binds[|binds| - 1], skip).Some?
    ensures var n := |binds| - 1;
      var binds' := binds[n := Extended(binds[n], skip).value];
      EndsAt(binds', bind, p) && DecodeBinds(binds', p) == DecodeBinds(binds, p) + [bind]
  {
    var n := |binds| - 1;
    var front, back, back' := binds[..n], binds[n], Extended(binds[n], skip).value;
    SkipMeansStride(last.offset, bind.offset, p);
    ExtendedPattern(back, skip, last.offset, bind.offset, p);
    assert binds == front + [back] && binds[n := back'] == front + [back'];
    DecodeBack(front, back, p);
    DecodeBack(front, back', p);
    assert bind == Bind(bind.offset, back.target);
  }

  lemma {:induction false} StartAddsOne(binds: seq<BindPattern>, bind: Bind, p: PointerSize)
    requires Started(binds, bind).Some?
    ensures EndsAt(Started(binds, bind).value, bind, p)
    ensures DecodeBinds(Started(binds, bind).value, p) == DecodeBinds(binds, p) + [bind]
  {
    var b := BindPattern(bind.target, bind.offset, 0, 1);
    DecodeBack(binds, b, p);
    assert Expand(b, p, 1) == Expand(b, p, 0) + [bind];
  }

  lemma {:induction false} BindStepAddsOne(binds: seq<BindPattern>, last: Bind, bind: Bind, p: PointerSize)
    requires EndsAt(binds, last, p) && BindStep(binds, last, bind, p).Some?
    ensures var binds' := BindStep(binds, last, bind, p).value;
      && EndsAt(binds', bind, p)
      && DecodeBinds(binds', p) == DecodeBinds(binds, p) + (if bind == last then [] else [bind])
  {
    var skip := SkipAmount(last.offset, bind.offset, p);
    if bind.target == last.target && bind.offset > last.offset && skip.Some? && Extended(binds[|binds| - 1], skip.value).Some? {
      ExtendAddsOne(binds, last, bind, skip.value, p);
    } else if bind != last {
      StartAddsOne(binds, bind, p);
    }
  }

  lemma {:induction false} EncodedEndsAt(stream: seq<Bind>, p: PointerSize)
    requires stream != [] && EncodeBinds(stream, p).Some?
    ensures EndsAt(EncodeBinds(stream, p).value, stream[|stream| - 1], p)
    ensures DecodeBinds(EncodeBinds(stream, p).value, p) == Deduplicated(stream)
  {
    var n := |stream| - 1;
    if n == 0 {
      StartAddsOne([], stream[0], p);
    } else {
      EncodedEndsAt(stream[..n], p);
      BindStepAddsOne(EncodeBinds(stream[..n], p).value, stream[n - 1], stream[n], p);
    }
  }

  /** Whatever the encoder accepts, in any order and alignment, the decoder gives back. */
  lemma {:induction false} BindRoundTrip(stream: seq<Bind>, p: PointerSize)
    requires EncodeBinds(stream, p).Some?
    ensures DecodeBinds(EncodeBinds(stream, p).value, p) == Deduplicated(stream)
  {
    if stream != [] {
      EncodedEndsAt(stream, p);
    }
  }

  /** The patterns of an accepted stream fit their fields. */
  lemma {:induction false} BindFields(stream: seq<Bind>, p: PointerSize)
    ensures EncodeBinds(stream, p).Some? ==> forall b :: b in EncodeBinds(stream, p).value ==> b.Fits()
    ensures EncodeBinds(stream, p).Some? && stream != [] ==> EncodeBinds(stream, p).value != []
  {
    var n := |stream| - 1;
    if n > 0 {
      BindFields(stream[..n], p);
      var front := EncodeBinds(stream[..n], p);
      if front.Some? {
        var binds := front.value;
        assert binds[|binds| - 1] in binds;
        if EncodeBinds(stream, p).Some? {
          var binds' := EncodeBinds(stream, p).value;
          forall b | b in binds' ensures b.Fits() {
            var k :| 0 <= k < |binds'| && binds'[k] == b;
            assert k < |binds| ==> binds[k] in binds;
          }
        }
      }
    }
  }

  // ----- which streams are refused -----

  /** Binds that stand at one distance from each other: how many pointers between them, and how many binds. */
  datatype Run = Run(skip: nat, count: nat)

  const ALONE := Run(0, 1)

  /** The run with the next bind, if that stands at the run's distance and the fields can hold it. */
  function Joined(run: Run, last: Bind, bind: Bind, p: PointerSize): Option<Run> {
    if bind.target != last.target || bind.offset < last.offset + p || !Aligned(p, bind.offset - last.offset) then None
    else
      var skip := InPointers(p, bind.offset - last.offset) - 1;
      if run == ALONE && skip <= 0xFF then Some(Run(skip, 2))
      else if run.skip == skip && run.count < 0xFFF then Some(Run(skip, run.count + 1))
      else None
  }

  /** The run at the end of a stream, by the offsets and targets alone. */
  function OpenRun(stream: seq<Bind>, p: PointerSize): Run
    requires stream != []
  {
    var n := |stream| - 1;
    if n == 0 then ALONE
    else
      match Joined(OpenRun(stream[..n], p), stream[n - 1], stream[n], p)
      case Some(run) => run
      case None => if stream[n] == stream[n - 1] then OpenRun(stream[..n], p) else ALONE
  }

  /** The i-th bind neither joins the run before it nor repeats the bind before it. */
  predicate StartsRun(stream: seq<Bind>, i: nat, p: PointerSize)
    requires i < |stream|
  {
    i == 0 || (stream[i] != stream[i - 1] && Joined(OpenRun(stream[..i], p), stream[i - 1], stream[i], p) == None)
  }

  lemma {:induction false} JoinIsExtension(back: BindPattern, last: Bind, bind: Bind, p: PointerSize)
    requires back.repeatCount >= 1
    ensures var skip, joined := SkipAmount(last.offset, bind.offset, p), Joined(Run(back.skipCount, back.repeatCount), last, bind, p);
      if bind.target == last.target && bind.offset > last.offset && skip.Some? && Extended(back, skip.value).Some?
      then joined == Some(Run(Extended(back, skip.value).value.skipCount, Extended(back, skip.value).value.repeatCount))
      else joined == None
  {
    if bind.offset > last.offset {
      if bind.offset - last.offset < p {
        SkipNeedsRoom(last.offset, bind.offset, p);
      } else {
        var distance: int := bind.offset - last.offset - p;
        assert Wrap(distance) == distance;
        assert Aligned(p, distance) <==> Aligned(p, bind.offset - last.offset);
        assert InPointers(p, distance) == InPointers(p, bind.offset - last.offset) - 1;
      }
    }
  }

  lemma {:induction false} PatternIsRun(stream: seq<Bind>, p: PointerSize)
    requires stream != [] && EncodeBinds(stream, p).Some?
    ensures var binds := EncodeBinds(stream, p).value;
      binds != [] && var back := binds[|binds| - 1]; back.repeatCount >= 1 && Run(back.skipCount, back.repeatCount) == OpenRun(stream, p)
  {
    var n := |stream| - 1;
    if n > 0 {
      PatternIsRun(stream[..n], p);
      var binds := EncodeBinds(stream[..n], p).value;
      JoinIsExtension(binds[|binds| - 1], stream[n - 1], stream[n], p);
    }
  }

  /** The i-th bind starts a run, but its offset has more than 40 bits. */
  predicate CannotStart(stream: seq<Bind>, i: nat, p: PointerSize) {
    i < |stream| && StartsRun(stream, i, p) && stream[i].offset >= 0x100_0000_0000
  }

  lemma {:induction false} CannotStartInFront(stream: seq<Bind>, n: nat, i: nat, p: PointerSize)
    requires i < n <= |stream|
    ensures CannotStart(stream[..n], i, p) <==> CannotStart(stream, i, p)
  {
    assert stream[..n][..i] == stream[..i];
  }

  lemma {:induction false} RefusedAtLast(stream: seq<Bind>, p: PointerSize)
    requires |stream| > 1 && EncodeBinds(stream[..|stream| - 1], p).Some?
    ensures EncodeBinds(stream, p).None? <==> CannotStart(stream, |stream| - 1, p)
  {
    var n := |stream| - 1;
    PatternIsRun(stream[..n], p);
    var binds := EncodeBinds(stream[..n], p).value;
    JoinIsExtension(binds[|binds| - 1], stream[n - 1], stream[n], p);
  }

  /** A stream is refused exactly if a bind that starts a run lies at an offset of more than 40 bits. */
  lemma {:induction false} RefusedExactly(stream: seq<Bind>, p: PointerSize)
    ensures EncodeBinds(stream, p).None? <==> exists i: nat :: CannotStart(stream, i, p)
  {
    var n := |stream| - 1;
    if n == 0 {
      assert EncodeBinds(stream, p).None? <==> CannotStart(stream, 0, p);
    } else if n > 0 {
      RefusedExactly(stream[..n], p);
      forall i: nat | i < n ensures CannotStart(stream[..n], i, p) <==> CannotStart(stream, i, p) {
        CannotStartInFront(stream, n, i, p);
      }
      if EncodeBinds(stream[..n], p).Some? {
        RefusedAtLast(stream, p);
      } else {
        var i: nat :| CannotStart(stream[..n], i, p);
        assert CannotStart(stream, i, p);
      }
    }
  }

  /** Beyond 40 bits a run may go on, but not start. */
  lemma {:induction false} LateJoinIsAccepted(target: u64)
    ensures EncodeBinds([Bind(0xFF_FFFF_FFF8, target), Bind(0x100_0000_0000, target)], 8)
         == Some([BindPattern(target, 0xFF_FFFF_FFF8, 0, 2)])
    ensures EncodeBinds([Bind(0x100_0000_0000, target)], 8) == None
  {
    var first, second := Bind(MAX_START - 8, target), Bind(MAX_START, target);
    assert [first, second][..1] == [first];
    assert [] + [BindPattern(target, MAX_START - 8, 0, 1)] == [BindPattern(target, MAX_START - 8, 0, 1)];
    OneMoreInRun(BindPattern(target, MAX_START - 8, 0, 1), first, second, 0, 8);
  }

  /** The distance covered by n strides. */
  function Strides(p: PointerSize, skip: nat, n: nat): nat {
    if n == 0 then 0 else Strides(p, skip, n - 1) + Stride(p, skip)
  }

  /** Evenly spaced binds of one target. */
  ghost function Evenly(start: u64, target: u64, skip: nat, n: nat, p: PointerSize): (r: seq<Bind>)
    requires start + Strides(p, skip, n) < TWO64
    ensures |r| == n
  {
    if n == 0 then [] else Evenly(start, target, skip, n - 1, p) + [Bind(start + Strides(p, skip, n - 1), target)]
  }

  lemma {:induction false} StrideSkip(last: u64, offset: u64, skip: nat, p: PointerSize)
    requires offset == last + Stride(p, skip)
    ensures SkipAmount(last, offset, p) == Some(skip)
  {
    var distance: int := offset - last - p;
    assert distance == Pointers(p, skip);
    assert Wrap(distance) == distance;
  }

  lemma {:induction false} LongerRun(front: seq<Bind>, start: u64, target: u64, skip: nat, n: nat, p: PointerSize)
    requires skip <= 0xFF && 2 <= n <= 0xFFF && start + Strides(p, skip, n) < TWO64
    requires front == Evenly(start, target, skip, n - 1, p)
    requires EncodeBinds(front, p) == Some([BindPattern(target, start, if n == 2 then 0 else skip, n - 1)])
    ensures EncodeBinds(Evenly(start, target, skip, n, p), p) == Some([BindPattern(target, start, skip, n)])
  {
    var last, bind := Bind(start + Strides(p, skip, n - 2), target), Bind(start + Strides(p, skip, n - 1), target);
    var stream := front + [bind];
    assert stream[..n - 1] == front && stream[n - 2] == last;
    StrideSkip(last.offset, bind.offset, skip, p);
    OneMoreInRun(BindPattern(target, start, if n == 2 then 0 else skip, n - 1), last, bind, skip, p);
  }

  /** Compression: a run of up to 4095 evenly spaced binds takes a single pattern. */
  lemma {:induction false} RunIsOnePattern(start: u64, target: u64, skip: nat, n: nat, p: PointerSize)
    requires start < 0x100_0000_0000 && skip <= 0xFF && 1 <= n <= 0xFFF
    requires start + Strides(p, skip, n) < TWO64
    ensures EncodeBinds(Evenly(start, target, skip, n, p), p) ==
      Some([BindPattern(target, start, if n == 1 then 0 else skip, n)])
  {
    if n == 1 {
      assert Evenly(start, target, skip, 1, p) == [Bind(start, target)];
      assert [] + [BindPattern(target, start, 0, 1)] == [BindPattern(target, start, 0, 1)];
    } else {
      RunIsOnePattern(start, target, skip, n - 1, p);
      LongerRun(Evenly(start, target, skip, n - 1, p), start, target, skip, n, p);
    }
  }

  lemma {:induction false} OneMoreInRun(back: BindPattern, last: Bind, bind: Bind, skip: nat, p: PointerSize)
    requires SkipAmount(last.offset, bind.offset, p) == Some(skip) && skip <= MAX_BIND_SKIP
    requires bind.target == last.target && bind.offset > last.offset
    requires 1 <= back.repeatCount < MAX_BIND_REPEAT
    requires back.skipCount == if back.repeatCount == 1 then 0 else skip
    ensures BindStep([back], last, bind, p) ==
      Some([BindPattern(back.target, back.start, skip, back.repeatCount + 1)])
  {
    var back' := BindPattern(back.target, back.start, skip, back.repeatCount + 1);
    assert Extended(back, skip) == Some(back');
    assert [back][0 := back'] == [back'];
  }
}
