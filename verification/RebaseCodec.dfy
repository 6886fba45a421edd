/**
 The rebase-location compressor of the closure builder and its decoder.
 All offsets are 64-bit and every addition and subtraction wraps.
 */
module RebaseCodec {
  import opened Lists
  import opened Words

  const MAX_REPEAT := 0xF_FFFF
  const MAX_SKIP := 15
  const MAX_CONTIG := 255
  const MAX_LEAP := MAX_REPEAT * MAX_SKIP

  /** repeatCount:20, contigCount:8, skipCount:4. */
  datatype RebasePattern = RebasePattern(repeatCount: nat, contigCount: nat, skipCount: nat)

  const SINGLE := RebasePattern(1, 1, 0)
  const RESET := RebasePattern(0, 0, 0)

  /** Pointers have four or eight bytes. */
  type PointerSize = p: nat | p == 4 || p == 8 witness 8

  function Pointers(p: PointerSize, n: int): int { if p == 8 then 8 * n else 4 * n }

  function InPointers(p: PointerSize, x: int): int { if p == 8 then x / 8 else x / 4 }

  predicate Aligned(p: PointerSize, x: int) { if p == 8 then x % 8 == 0 else x % 4 == 0 }

  // ----- decoder -----

  datatype Cursor = Cursor(out: seq<u64>, cur: u64)

  function Emit(c: Cursor, p: PointerSize): Cursor { Cursor(c.out + [c.cur], Wrap(c.cur + p)) }

  function Advance(c: Cursor, n: nat): Cursor { c.(cur := Wrap(c.cur + n)) }

  function EmitContig(c: Cursor, p: PointerSize, contig: nat): Cursor {
    if contig == 0 then c else Emit(EmitContig(c, p, contig - 1), p)
  }

  function EmitGroup(c: Cursor, p: PointerSize, contig: nat, skip: nat): Cursor {
    Advance(EmitContig(c, p, contig), Pointers(p, skip))
  }

  function EmitGroups(c: Cursor, p: PointerSize, contig: nat, skip: nat, repeat: nat): Cursor {
    if repeat == 0 then c else EmitGroup(EmitGroups(c, p, contig, skip, repeat - 1), p, contig, skip)
  }

  /** What one pattern does to the decoder. */
  function Apply(c: Cursor, p: PointerSize, e: RebasePattern): Cursor {
    if e.contigCount != 0 then EmitGroups(c, p, e.contigCount, e.skipCount, e.repeatCount)
    else if e.repeatCount == 0 && e.skipCount == 0 then c.(cur := 0)
    else Advance(c, e.repeatCount * e.skipCount)
  }

  function Decode(entries: seq<RebasePattern>, p: PointerSize): Cursor {
    if entries == [] then Cursor([], 0)
    else Apply(Decode(entries[..|entries| - 1], p), p, entries[|entries| - 1])
  }

  /** The rebase part of `Image::forEachFixup`, with a handler that never stops. */
  method ForEachRebase(entries: seq<RebasePattern>, p: PointerSize) returns (out: seq<u64>)
    ensures out == Decode(entries, p).out
  {
    out := [];
    var cur: u64 := 0;
    for n := 0 to |entries|
      invariant Cursor(out, cur) == Decode(entries[..n], p)
    {
      var pat := entries[n];
      ghost var start := Cursor(out, cur);
      assert entries[..n + 1][..n] == entries[..n];
      if pat.contigCount == 0 {
        if pat.repeatCount == 0 && pat.skipCount == 0 {
          cur := 0;
        } else {
          cur := Wrap(cur + pat.repeatCount * pat.skipCount);
        }
      } else {
        for r := 0 to pat.repeatCount
          invariant Cursor(out, cur) == EmitGroups(start, p, pat.contigCount, pat.skipCount, r)
        {
          ghost var groupStart := Cursor(out, cur);
          for i := 0 to pat.contigCount
            invariant Cursor(out, cur) == EmitContig(groupStart, p, i)
          {
            out, cur := out + [cur], Wrap(cur + p);
          }
          cur := Wrap(cur + Pointers(p, pat.skipCount));
        }
      }
    }
    assert entries[..|entries|] == entries;
  }

  // ----- encoder -----

  /** The advance entries for a distance, the three loops at the end of the encoder's far branch. */
  function Leap(distance: nat): seq<RebasePattern> {
    if distance > MAX_LEAP then [RebasePattern(MAX_REPEAT, 0, MAX_SKIP)] + Leap(distance - MAX_LEAP)
    else if distance > MAX_REPEAT then
      [RebasePattern(distance / MAX_SKIP, 0, MAX_SKIP)] + Leap(distance - distance / MAX_SKIP * MAX_SKIP)
    else if distance != 0 then [RebasePattern(distance, 0, 1)]
    else []
  }

  function Delta(last: u64, offset: u64): u64 { Wrap(offset - last) }

  /** Near locations are reached by the skip count of the last entry. */
  predicate IsNear(delta: u64, p: PointerSize)
  {
    Aligned(p, delta) && delta <= Pointers(p, 15)
  }

  /** The value that the 4-bit skip count receives, through a cast to 8 bits. */
  function SkipFor(delta: u64, p: PointerSize): nat
  {
    InPointers(p, Wrap(delta - p)) % 256 % 16
  }

  function SetSkip(entries: seq<RebasePattern>, skip: nat): seq<RebasePattern>
    requires entries != []
  {
    entries[|entries| - 1 := entries[|entries| - 1].(skipCount := skip)]
  }

  /** Folds the last entry into an equal predecessor; the repeat count has 20 bits. */
  function MergeLast(entries: seq<RebasePattern>): seq<RebasePattern>
    requires entries != []
  {
    var last := |entries| - 1;
    if last > 1 && entries[last].contigCount == entries[last - 1].contigCount
       && entries[last].skipCount == entries[last - 1].skipCount
    then entries[..last][last - 1 := entries[last - 1].(repeatCount := (entries[last - 1].repeatCount + 1) % (MAX_REPEAT + 1))]
    else entries
  }

  /** One call of the encoder's block; None where it takes the last entry of an empty array. */
  function EncodeStep(entries: seq<RebasePattern>, last: u64, offset: u64, p: PointerSize): Option<seq<RebasePattern>>
  {
    var delta := Delta(last, offset);
    if delta == p then
      if entries == [] then None
      else
        var back := entries[|entries| - 1];
        if back.contigCount < MAX_CONTIG
        then Some(entries[|entries| - 1 := back.(contigCount := back.contigCount + 1)])
        else Some(entries + [SINGLE])
    else if IsNear(delta, p) then
      if entries == [] then None else Some(MergeLast(SetSkip(entries, SkipFor(delta, p))) + [SINGLE])
    else if offset < last && last != TWO64 - p then
      Some(entries + [RESET] + Leap(offset) + [SINGLE])
    else
      Some(entries + Leap(Wrap(delta - p)) + [SINGLE])
  }

  function LastLocation(offsets: seq<u64>, p: PointerSize): u64
  {
    if offsets == [] then TWO64 - p else offsets[|offsets| - 1]
  }

  function Encode(offsets: seq<u64>, p: PointerSize): Option<seq<RebasePattern>>
  {
    if offsets == [] then Some([])
    else
      var front := offsets[..|offsets| - 1];
      match Encode(front, p)
      case None => None
      case Some(entries) => EncodeStep(entries, LastLocation(front, p), offsets[|offsets| - 1], p)
  }

  /** The block of `addRebaseInfo`; `ok` is false where the array's assertion stops it. */
  method AddRebase(before: seq<RebasePattern>, last: u64, offset: u64, p: PointerSize) returns (ok: bool, entries: seq<RebasePattern>)
    ensures EncodeStep(before, last, offset, p) == if ok then Some(entries) else None
  {
    entries := before;
    var delta := Wrap(offset - last);
    if delta == p {
      if entries == [] {
        return false, [];
      }
      var back := entries[|entries| - 1];
      if back.contigCount < MAX_CONTIG {
        entries := entries[|entries| - 1 := back.(contigCount := back.contigCount + 1)];
      } else {
        entries := entries + [SINGLE];
      }
    } else if Aligned(p, delta) && delta <= Pointers(p, 15) {
      if entries == [] {
        return false, [];
      }
      var lastIndex := |entries| - 1;
      entries := entries[lastIndex := entries[lastIndex].(skipCount := InPointers(p, Wrap(delta - p)) % 256 % 16)];
      if lastIndex > 1 {
        var previous := entries[lastIndex - 1];
        if entries[lastIndex].contigCount == previous.contigCount && entries[lastIndex].skipCount == previous.skipCount {
          entries := entries[..lastIndex];
          entries := entries[lastIndex - 1 := previous.(repeatCount := (previous.repeatCount + 1) % (MAX_REPEAT + 1))];
        }
      }
      entries := entries + [SINGLE];
    } else {
      var advanceCount: nat := Wrap(delta - p);
      if offset < last && last != TWO64 - p {
        entries := entries + [RESET];
        advanceCount := offset;
      }
      entries := AppendLeap(entries, advanceCount);
      entries := entries + [SINGLE];
    }
    ok := true;
  }

  /** `addRebaseInfo` over all locations, in the order the image lists them. */
  method AddRebaseInfo(offsets: seq<u64>, p: PointerSize) returns (ok: bool, entries: seq<RebasePattern>)
    ensures Encode(offsets, p) == if ok then Some(entries) else None
  {
    entries, ok := [], true;
    var last: u64 := TWO64 - p;
    for n := 0 to |offsets|
      invariant ok && Encode(offsets[..n], p) == Some(entries) && last == LastLocation(offsets[..n], p)
    {
      assert offsets[..n + 1][..n] == offsets[..n];
      ok, entries := AddRebase(entries, last, offsets[n], p);
      if !ok {
        PrefixFails(offsets, n + 1, p);
        return false, [];
      }
      last := offsets[n];
    }
    assert offsets[..|offsets|] == offsets;
  }

  /** Advances by a distance in as few entries as the field widths allow. */
  method AppendLeap(before: seq<RebasePattern>, distance: nat) returns (entries: seq<RebasePattern>)
    ensures entries == before + Leap(distance)
  {
    var advanceCount: nat := distance;
    entries := before;
    while advanceCount > MAX_LEAP
      invariant entries + Leap(advanceCount) == before + Leap(distance)
    {
      entries := entries + [RebasePattern(MAX_REPEAT, 0, MAX_SKIP)];
      advanceCount := advanceCount - MAX_LEAP;
    }
    while advanceCount > MAX_REPEAT
      invariant advanceCount <= MAX_LEAP
      invariant entries + Leap(advanceCount) == before + Leap(distance)
    {
      var count := advanceCount / MAX_SKIP;
      entries := entries + [RebasePattern(count, 0, MAX_SKIP)];
      advanceCount := advanceCount - count * MAX_SKIP;
    }
    if advanceCount != 0 {
      entries := entries + [RebasePattern(advanceCount, 0, 1)];
    }
  }

  lemma {:induction false} PrefixFails(offsets: seq<u64>, n: nat, p: PointerSize)
    requires n <= |offsets| && Encode(offsets[..n], p) == None
    ensures Encode(offsets, p) == None
    decreases |offsets| - n
  {
    if n < |offsets| {
      assert offsets[..n + 1][..n] == offsets[..n];
      PrefixFails(offsets, n + 1, p);
    } else {
      assert offsets[..n] == offsets;
    }
  }
}
