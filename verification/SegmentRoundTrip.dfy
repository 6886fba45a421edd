/** When a segment comes back from the table with the offsets, sizes and permissions it went in with. */
module SegmentRoundTrip {
  import opened Segments
  import opened Words

  /** Page-aligned starts, and ranges whose ends round up to a word. */
  ghost predicate Plain(info: SegmentInfo, page: PageSize) {
    && Aligned(page, info.vmAddr) && info.vmAddr + info.vmSize + page <= TWO64
    && (info.fileSize != 0 ==> Aligned(page, info.fileOffset) && info.fileOffset + info.fileSize + page <= TWO64)
  }

  ghost predicate Ordered(a: SegmentInfo, b: SegmentInfo) {
    && a.vmAddr + a.vmSize <= b.vmAddr
    && (a.fileSize != 0 && b.fileSize != 0 ==> a.fileOffset + a.fileSize <= b.fileOffset)
  }

  /** The segment's entry has file pages: its file contents are not a multiple of 2^30 pages. */
  ghost predicate HasFilePages(info: SegmentInfo, page: PageSize) {
    Modulo(CeilPages(page, info.fileSize), TWO30) != 0
  }

  ghost predicate IsFirstFileBacked(infos: seq<SegmentInfo>, page: PageSize, b: nat) {
    b < |infos| && HasFilePages(infos[b], page) && forall i :: 0 <= i < b ==> !HasFilePages(infos[i], page)
  }

  /** The virtual size that the field of 30 bits keeps. */
  ghost function VmSizeIn(page: PageSize, size: nat): nat { Bytes(page, Modulo(CeilPages(page, size), TWO30)) }

  /** The file size that the decoder's word of 32 bits keeps. */
  ghost function FileSizeIn(page: PageSize, size: nat): nat { Modulo(RoundUp(page, size), TWO32) }

  /** Ascending segments without overlap. */
  ghost predicate Regular(infos: seq<SegmentInfo>, page: PageSize) {
    && (forall i {:trigger Plain(infos[i], page)} :: 0 <= i < |infos| ==> Plain(infos[i], page))
    && (forall i, j {:trigger Ordered(infos[i], infos[j])} :: 0 <= i < j < |infos| ==> Ordered(infos[i], infos[j]))
  }

  /** The virtual bytes that the table puts before segment i, its padding included. */
  ghost function VmBefore(infos: seq<SegmentInfo>, page: PageSize, i: nat): (r: int)
    requires i < |infos|
    ensures r >= 0
    decreases i, 1
  {
    VmAfter(infos, page, i) + VmGap(infos, page, i)
  }

  /** The virtual bytes that the table has for the first i segments. */
  ghost function VmAfter(infos: seq<SegmentInfo>, page: PageSize, i: nat): (r: int)
    requires i <= |infos|
    ensures r >= 0
    decreases i, 0
  {
    if i == 0 then 0 else VmBefore(infos, page, i - 1) + VmSizeIn(page, infos[i - 1].vmSize)
  }

  /** The end of the last non-empty segment before i, or zero. */
  function VmEnd(infos: seq<SegmentInfo>, i: nat): nat
    requires i <= |infos|
  {
    if i == 0 then 0
    else if infos[i - 1].vmSize != 0 then infos[i - 1].vmAddr + infos[i - 1].vmSize
    else VmEnd(infos, i - 1)
  }

  /** The padding between an end and a start address. */
  ghost function Gap(page: PageSize, end: nat, addr: nat): nat {
    if end != 0 && addr > end then Bytes(page, PaddingPages(page, end, addr)) else 0
  }

  ghost function VmGap(infos: seq<SegmentInfo>, page: PageSize, i: nat): nat
    requires i < |infos|
  {
    Gap(page, VmEnd(infos, i), infos[i].vmAddr)
  }

  function FileEnd(infos: seq<SegmentInfo>, i: nat): nat
    requires i <= |infos|
  {
    if i == 0 then 0
    else if infos[i - 1].fileSize != 0 then infos[i - 1].fileOffset + infos[i - 1].fileSize
    else FileEnd(infos, i - 1)
  }

  /** The end that the encoder remembers, in 32 bits. */
  ghost function WordEnd(infos: seq<SegmentInfo>, i: nat): nat
    requires i <= |infos|
  {
    Modulo(FileEnd(infos, i), TWO32)
  }

  /** How far the padding in front of a segment without file contents moves the walk in the file. */
  ghost function Move(page: PageSize, end: nat, offset: nat): nat {
    if offset != 0 && offset != end then Modulo(Bytes(page, PaddingPages(page, end, offset)), TWO32) else 0
  }

  /** What these moves add up to before segment i. */
  ghost function Drift(infos: seq<SegmentInfo>, page: PageSize, i: nat): (d: nat)
    requires i <= |infos|
    ensures d < TWO32
  {
    if i == 0 then 0
    else if infos[i - 1].fileSize != 0 then Drift(infos, page, i - 1)
    else Modulo(Drift(infos, page, i - 1) + Move(page, WordEnd(infos, i - 1), infos[i - 1].fileOffset), TWO32)
  }

  /** Where the walk stands in the file after the first i segments. */
  ghost function FileAfter(infos: seq<SegmentInfo>, page: PageSize, i: nat): nat
    requires i <= |infos|
  {
    Modulo(RoundUp(page, FileEnd(infos, i)) + Drift(infos, page, i), TWO32)
  }

  /** The permissions that say read-only data, whatever they meant. */
  predicate LooksReadOnly(info: SegmentInfo) { info.readOnlyData || info.protections % 8 == VM_PROT_WRITE }

  ghost function Expected(infos: seq<SegmentInfo>, page: PageSize, start: int, i: nat): Report
    requires i < |infos|
  {
    var info := infos[i];
    var fileSize := FileSizeIn(page, info.fileSize);
    Report(if fileSize == 0 then 0 else Modulo(info.fileOffset + Drift(infos, page, i), TWO32),
           fileSize, start + VmBefore(infos, page, i), VmSizeIn(page, info.vmSize),
           if LooksReadOnly(info) then READ_WRITE else info.protections % 8, LooksReadOnly(info))
  }

  ghost function ExpectedAll(infos: seq<SegmentInfo>, page: PageSize, start: int, k: nat): (r: seq<Report>)
    requires k <= |infos|
    ensures |r| == k
  {
    if k == 0 then [] else ExpectedAll(infos, page, start, k - 1) + [Expected(infos, page, start, k - 1)]
  }

  lemma {:induction false} ExpectedAt(infos: seq<SegmentInfo>, page: PageSize, start: int, k: nat, i: nat)
    requires i < k <= |infos|
    ensures ExpectedAll(infos, page, start, k)[i] == Expected(infos, page, start, i)
  {
    if i < k - 1 {
      ExpectedAt(infos, page, start, k - 1, i);
    }
  }

  lemma {:induction false} EndsBounded(infos: seq<SegmentInfo>, page: PageSize, i: nat, j: nat)
    requires Regular(infos, page) && i <= j < |infos|
    ensures VmEnd(infos, i) <= infos[j].vmAddr
    ensures infos[j].fileSize != 0 ==> FileEnd(infos, i) <= infos[j].fileOffset
  {
    if i > 0 {
      EndsBounded(infos, page, i - 1, j);
      assert Ordered(infos[i - 1], infos[j]);
    }
  }

  lemma {:induction false} AddSegmentEnds(t: Table, page: PageSize, info: SegmentInfo)
    requires Plain(info, page)
    ensures var t' := AddSegment(t, page, info);
      && t'.fileEnd == (if info.fileSize != 0 then Modulo(info.fileOffset + info.fileSize, TWO32) else t.fileEnd)
      && t'.vmEnd == (if info.vmSize != 0 then info.vmAddr + info.vmSize else t.vmEnd)
  {
  }

  lemma {:induction false} TableEnds(infos: seq<SegmentInfo>, page: PageSize, k: nat)
    requires Regular(infos, page) && k <= |infos|
    ensures Encode(infos[..k], page).fileEnd == WordEnd(infos, k)
    ensures Encode(infos[..k], page).vmEnd == VmEnd(infos, k)
  {
    if k > 0 {
      TableEnds(infos, page, k - 1);
      assert infos[..k][..k - 1] == infos[..k - 1];
      assert Plain(infos[k - 1], page);
      AddSegmentEnds(Encode(infos[..k - 1], page), page, infos[k - 1]);
    }
  }

  lemma {:induction false} WalkSnoc(segs: seq<DiskSegment>, page: PageSize, start: int, d: DiskSegment)
    ensures Walk(segs + [d], page, start) == Step(Walk(segs, page, start), page, d)
  {
    assert (segs + [d])[..|segs|] == segs;
  }

  lemma {:induction false} BytesSum(page: PageSize, a: nat, b: nat)
    ensures Bytes(page, a + b) == Bytes(page, a) + Bytes(page, b)
  {
    if a > 0 {
      BytesSum(page, a - 1, b);
      assert Bytes(page, a + b) == page + Bytes(page, a + b - 1);
    }
  }

  lemma {:induction false} FloorBetween(page: PageSize, n: nat, rest: nat)
    requires rest < page
    ensures FloorPages(page, Bytes(page, n) + rest) == n
  {
    if n > 0 {
      FloorBetween(page, n - 1, rest);
    }
  }

  lemma {:induction false} FloorBelow(page: PageSize, x: nat)
    ensures Bytes(page, FloorPages(page, x)) <= x < Bytes(page, FloorPages(page, x)) + page
  {
    if x >= page {
      FloorBelow(page, x - page);
    }
  }

  lemma {:induction false} FloorSum(page: PageSize, a: nat, x: nat)
    requires Aligned(page, a)
    ensures FloorPages(page, a + x) == FloorPages(page, a) + FloorPages(page, x)
    ensures Bytes(page, FloorPages(page, a + x)) == a + Bytes(page, FloorPages(page, x))
  {
    FloorBelow(page, x);
    BytesSum(page, FloorPages(page, a), FloorPages(page, x));
    FloorBetween(page, FloorPages(page, a) + FloorPages(page, x), x - Bytes(page, FloorPages(page, x)));
  }

  /** Floor-divided padding after a ceil-divided size is exact up to an aligned position. */
  lemma {:induction false} PaddingIsExact(page: PageSize, size: nat, to: nat)
    requires Aligned(page, to) && size <= to
    ensures RoundUp(page, size) + Bytes(page, FloorPages(page, to - size)) == to
    decreases size
  {
    if size > page {
      FloorBelow(page, to);
      assert to >= page;
      PaddingIsExact(page, size - page, to - page);
    } else if size > 0 {
      assert CeilPages(page, size) == 1 + FloorPages(page, size - 1) == 1;
      assert RoundUp(page, size) == page + Bytes(page, 0);
      FloorSum(page, to - page, page - size);
    } else {
      assert RoundUp(page, 0) == 0;
    }
  }

  lemma {:induction false} RoundUpBound(page: PageSize, x: nat)
    ensures x <= RoundUp(page, x) < x + page
    ensures RoundUp(page, x) == 0 <==> x == 0
  {
    FloorBelow(page, x + page - 1);
  }

  /** 2^30 pages are a multiple of 2^32 bytes, so a page count cut to its field is as good to a word of 32 bits. */
  lemma {:induction false} CutPages(page: PageSize, n: nat)
    ensures Modulo(Bytes(page, Modulo(n, TWO30)), TWO32) == Modulo(Bytes(page, n), TWO32)
  {
    ModuloIsRemainder(n, TWO30);
    BytesIsProduct(page, n);
    BytesIsProduct(page, n % TWO30);
    CutProduct(page, n / TWO30, n % TWO30);
  }

  lemma {:induction false} CutProduct(page: PageSize, q: nat, r: nat)
    ensures Modulo(page * (q * TWO30 + r), TWO32) == Modulo(page * r, TWO32)
  {
    if page == 0x1000 {
      WordMultiple(0x400 * q, 0x1000 * r);
    } else {
      WordMultiple(0x1000 * q, 0x4000 * r);
    }
  }

  lemma {:induction false} RoundUpAligned(page: PageSize, from: nat, size: nat)
    requires Aligned(page, from)
    ensures RoundUp(page, from + size) == from + RoundUp(page, size)
  {
    FloorSum(page, from, size + page - 1);
  }

  /** The walk over at most one padding entry. */
  ghost function StepMaybe(w: Walker, page: PageSize, padding: seq<DiskSegment>): Walker {
    if padding == [] then w else Step(w, page, padding[0])
  }

  /** What the walk becomes when it reports a segment. */
  ghost function EntryWalker(w: Walker, info: SegmentInfo, fileSize: nat, vmSize: nat): Walker {
    Walker(
      w.out + [Report(if fileSize == 0 then 0 else w.fileOffset, fileSize, w.vmOffset, vmSize,
                      if LooksReadOnly(info) then READ_WRITE else info.protections % 8, LooksReadOnly(info))],
      Modulo(w.fileOffset + fileSize, TWO32),
      w.vmOffset + vmSize)
  }

  lemma {:induction false} WrapSum(a: nat, b: nat)
    ensures Modulo(Modulo(a, TWO32) + b, TWO32) == Modulo(a + b, TWO32)
  {
    ModuloIsRemainder(a, TWO32);
    ModuloIsRemainder(a % TWO32 + b, TWO32);
    ModuloIsRemainder(a + b, TWO32);
  }

  lemma {:induction false} ModuloSmall(a: nat, n: int)
    requires a < n
    ensures Modulo(a, n) == a
  {
  }

  lemma {:induction false} SameWord(a: nat, b: nat, c: nat)
    requires Modulo(b, TWO32) == Modulo(c, TWO32)
    ensures Modulo(a + b, TWO32) == Modulo(a + c, TWO32)
  {
    WrapSum(b, a);
    WrapSum(c, a);
  }

  lemma {:induction false} WordMultiple(q: nat, x: nat)
    ensures Modulo(q * TWO32 + x, TWO32) == Modulo(x, TWO32)
  {
    ModuloIsRemainder(q * TWO32 + x, TWO32);
    ModuloIsRemainder(x, TWO32);
  }

  lemma {:induction false} WholePages(page: PageSize, n: nat)
    ensures Aligned(page, page * n)
  {
    BytesIsProduct(page, n);
    FloorBetween(page, n, 0);
  }

  /** Words of 2^32 bytes are whole pages. */
  lemma {:induction false} RoundUpWord(page: PageSize, q: nat, x: nat)
    ensures RoundUp(page, q * TWO32 + x) == q * TWO32 + RoundUp(page, x)
  {
    WholePages(page, if page == 0x1000 then q * 0x10_0000 else q * 0x4_0000);
    RoundUpAligned(page, q * TWO32, x);
  }

  /** The padding behind an end that lost its upper bits leads to the offset, again up to its upper bits. */
  lemma {:induction false} PaddingArrives(page: PageSize, end: nat, word: nat, offset: nat, drift: nat)
    requires Aligned(page, offset) && end <= offset < TWO64 && word == Modulo(end, TWO32)
    ensures Modulo(RoundUp(page, end) + drift + Bytes(page, PaddingPages(page, word, offset)), TWO32)
      == Modulo(offset + drift, TWO32)
  {
    ModuloIsRemainder(end, TWO32);
    var q, pages := end / TWO32, FloorPages(page, offset - word);
    RoundUpWord(page, q, word);
    PaddingIsExact(page, word, offset);
    ModuloSmall(offset - word, TWO64);
    CutPages(page, pages);
    WordSum(q, RoundUp(page, word), Bytes(page, Modulo(pages, TWO30)), Bytes(page, pages), drift);
  }

  lemma {:induction false} WordSum(q: nat, a: nat, b: nat, c: nat, drift: nat)
    requires Modulo(b, TWO32) == Modulo(c, TWO32)
    ensures Modulo(q * TWO32 + a + drift + b, TWO32) == Modulo(a + c + drift, TWO32)
  {
    WordMultiple(q, a + c + drift);
    SameWord(q * TWO32 + a + drift, b, c);
  }

  /** Where there is no padding, the end is the offset already. */
  lemma {:induction false} NoPaddingArrives(page: PageSize, end: nat, word: nat, offset: nat, drift: nat)
    requires Aligned(page, offset) && end <= offset && word == Modulo(end, TWO32)
    requires offset == 0 || offset == word
    ensures Modulo(RoundUp(page, end) + drift, TWO32) == Modulo(offset + drift, TWO32)
  {
    ModuloIsRemainder(end, TWO32);
    PaddingIsExact(page, offset, offset);
    RoundUpBound(page, 0);
  }

  /** Where the walk comes to in the file in front of a segment's entry. */
  ghost function FileAt(w: Walker, page: PageSize, end: nat, info: SegmentInfo, drift: nat): nat {
    if info.fileSize == 0 then Modulo(w.fileOffset + Move(page, end, info.fileOffset), TWO32)
    else Modulo(info.fileOffset + drift, TWO32)
  }

  lemma {:induction false} FilePaddingMoves(w: Walker, t: Table, page: PageSize, info: SegmentInfo, end: nat, drift: nat)
    requires Plain(info, page) && (info.fileSize != 0 ==> end <= info.fileOffset)
    requires t.fileEnd == Modulo(end, TWO32) && w.fileOffset == Modulo(RoundUp(page, end) + drift, TWO32)
    ensures var padding := FilePadding(t, page, info);
      && |padding| <= 1
      && StepMaybe(w, page, padding) == w.(fileOffset := FileAt(w, page, t.fileEnd, info, drift))
  {
    ModuloSmall(w.fileOffset, TWO32);
    var padding, at := FilePadding(t, page, info), RoundUp(page, end) + drift;
    if info.fileSize != 0 {
      if padding == [] {
        NoPaddingArrives(page, end, t.fileEnd, info.fileOffset, drift);
      } else {
        PaddingArrives(page, end, t.fileEnd, info.fileOffset, drift);
        PaddingStep(w, page, padding[0], at);
      }
    }
  }

  lemma {:induction false} PaddingStep(w: Walker, page: PageSize, padding: DiskSegment, at: nat)
    requires w.fileOffset == Modulo(at, TWO32) && padding.paddingNotSeg && padding.vmPageCount == 0
    ensures Step(w, page, padding) == w.(fileOffset := Modulo(at + Bytes(page, padding.filePageCount), TWO32))
  {
    WrapBoth(at, Bytes(page, padding.filePageCount));
  }

  lemma {:induction false} WrapBoth(a: nat, b: nat)
    ensures Modulo(Modulo(a, TWO32) + Modulo(b, TWO32), TWO32) == Modulo(a + b, TWO32)
  {
    WrapSum(a, Modulo(b, TWO32));
    WrapSum(b, a);
  }

  lemma {:induction false} VmPaddingMoves(w: Walker, t: Table, page: PageSize, info: SegmentInfo)
    requires t.vmEnd <= info.vmAddr && w.fileOffset < TWO32
    ensures var padding := VmPadding(t, page, info);
      && |padding| <= 1
      && StepMaybe(w, page, padding) == w.(vmOffset := w.vmOffset + Gap(page, t.vmEnd, info.vmAddr))
  {
  }

  /** The segment's entry reports the segment and moves the walk past it. */
  lemma {:induction false} EntryReports(w: Walker, page: PageSize, info: SegmentInfo, fileSize: nat, vmSize: nat)
    requires fileSize == FileSizeIn(page, info.fileSize) && vmSize == VmSizeIn(page, info.vmSize)
    ensures Step(w, page, SegmentEntry(page, info)) == EntryWalker(w, info, fileSize, vmSize)
  {
    CutPages(page, CeilPages(page, info.fileSize));
  }

  // ----- whole tables -----

  /** The walk has reported the first k segments and stands behind them. */
  ghost predicate StandsAt(infos: seq<SegmentInfo>, page: PageSize, start: int, k: nat, w: Walker)
    requires k <= |infos|
  {
    && w.out == ExpectedAll(infos, page, start, k)
    && w.fileOffset == FileAfter(infos, page, k)
    && w.vmOffset == start + VmAfter(infos, page, k)
  }

  lemma {:induction false} OffsetOfNext(infos: seq<SegmentInfo>, page: PageSize, start: int, k: nat, w: Walker)
    requires k < |infos| && StandsAt(infos, page, start, k, w)
    ensures w.vmOffset + VmGap(infos, page, k) == start + VmBefore(infos, page, k)
  {
  }

  /** The walk when it reaches the entry of segment k. */
  ghost function AtEntry(infos: seq<SegmentInfo>, page: PageSize, k: nat, w: Walker): Walker
    requires k < |infos|
  {
    Walker(w.out, FileAt(w, page, WordEnd(infos, k), infos[k], Drift(infos, page, k)), w.vmOffset + VmGap(infos, page, k))
  }

  lemma {:induction false} NextFiledAfter(infos: seq<SegmentInfo>, page: PageSize, k: nat)
    requires k < |infos| && Plain(infos[k], page) && infos[k].fileSize != 0
    ensures Modulo(Modulo(infos[k].fileOffset + Drift(infos, page, k), TWO32) + FileSizeIn(page, infos[k].fileSize), TWO32)
      == FileAfter(infos, page, k + 1)
  {
    var there, size := infos[k].fileOffset + Drift(infos, page, k), RoundUp(page, infos[k].fileSize);
    RoundUpAligned(page, infos[k].fileOffset, infos[k].fileSize);
    WrapBoth(there, size);
  }

  lemma {:induction false} WrapThree(a: nat, b: nat, c: nat)
    ensures Modulo(Modulo(a + b, TWO32) + c, TWO32) == Modulo(a + Modulo(b + c, TWO32), TWO32)
  {
    WrapSum(a + b, c);
    WrapSum(b + c, a);
  }

  lemma {:induction false} NextUnfiledAfter(infos: seq<SegmentInfo>, page: PageSize, k: nat, w: Walker)
    requires k < |infos| && infos[k].fileSize == 0 && w.fileOffset == FileAfter(infos, page, k)
    ensures Modulo(w.fileOffset + Move(page, WordEnd(infos, k), infos[k].fileOffset), TWO32) == FileAfter(infos, page, k + 1)
  {
    WrapThree(RoundUp(page, FileEnd(infos, k)), Drift(infos, page, k), Move(page, WordEnd(infos, k), infos[k].fileOffset));
  }

  lemma {:induction false} NoFileSize(page: PageSize)
    ensures FileSizeIn(page, 0) == 0
  {
    RoundUpBound(page, 0);
  }

  lemma {:induction false} NextFileAfter(infos: seq<SegmentInfo>, page: PageSize, k: nat, w: Walker)
    requires k < |infos| && Plain(infos[k], page) && w.fileOffset == FileAfter(infos, page, k)
    ensures var there := FileAt(w, page, WordEnd(infos, k), infos[k], Drift(infos, page, k));
      Modulo(there + FileSizeIn(page, infos[k].fileSize), TWO32) == FileAfter(infos, page, k + 1)
  {
    if infos[k].fileSize != 0 {
      NextFiledAfter(infos, page, k);
    } else {
      NextUnfiledAfter(infos, page, k, w);
      NoFileSize(page);
      ModuloSmall(FileAfter(infos, page, k + 1), TWO32);
    }
  }

  lemma {:induction false} ReportsNext(infos: seq<SegmentInfo>, page: PageSize, start: int, k: nat, w: Walker,
                                       fileSize: nat, vmSize: nat)
    requires k < |infos| && w.vmOffset == start + VmBefore(infos, page, k)
    requires infos[k].fileSize != 0 ==> w.fileOffset == Modulo(infos[k].fileOffset + Drift(infos, page, k), TWO32)
    requires fileSize == FileSizeIn(page, infos[k].fileSize) && vmSize == VmSizeIn(page, infos[k].vmSize)
    ensures EntryWalker(w, infos[k], fileSize, vmSize).out == w.out + [Expected(infos, page, start, k)]
  {
    NoFileSize(page);
  }

  lemma {:induction false} StandsAtNext(infos: seq<SegmentInfo>, page: PageSize, start: int, k: nat, w: Walker,
                                        fileSize: nat, vmSize: nat)
    requires k < |infos| && Plain(infos[k], page) && StandsAt(infos, page, start, k, w)
    requires fileSize == FileSizeIn(page, infos[k].fileSize) && vmSize == VmSizeIn(page, infos[k].vmSize)
    ensures StandsAt(infos, page, start, k + 1, EntryWalker(AtEntry(infos, page, k, w), infos[k], fileSize, vmSize))
  {
    var there := AtEntry(infos, page, k, w);
    OffsetOfNext(infos, page, start, k, w);
    NextFileAfter(infos, page, k, w);
    ReportsNext(infos, page, start, k, there, fileSize, vmSize);
    var next := EntryWalker(there, infos[k], fileSize, vmSize);
    assert next.vmOffset == there.vmOffset + vmSize;
  }

  /** The table, whose segments end at this offset of the file, is one that the segment can be added to. */
  ghost predicate CanAdd(t: Table, page: PageSize, info: SegmentInfo, end: nat) {
    && Plain(info, page) && t.vmEnd <= info.vmAddr
    && t.fileEnd == Modulo(end, TWO32) && (info.fileSize != 0 ==> end <= info.fileOffset)
  }

  /** The walk over one more segment, in terms of the walk so far. */
  lemma {:induction false} SegmentMoves(t: Table, page: PageSize, start: int, info: SegmentInfo, end: nat, drift: nat,
                                        fileSize: nat, vmSize: nat, w: Walker)
    requires CanAdd(t, page, info, end) && w == Walk(t.segs, page, start)
    requires w.fileOffset == Modulo(RoundUp(page, end) + drift, TWO32)
    requires fileSize == FileSizeIn(page, info.fileSize) && vmSize == VmSizeIn(page, info.vmSize)
    ensures var there := Walker(w.out, FileAt(w, page, t.fileEnd, info, drift), w.vmOffset + Gap(page, t.vmEnd, info.vmAddr));
      Walk(AddSegment(t, page, info).segs, page, start) == EntryWalker(there, info, fileSize, vmSize)
  {
    var w1 := w.(fileOffset := FileAt(w, page, t.fileEnd, info, drift));
    var w2 := w1.(vmOffset := w.vmOffset + Gap(page, t.vmEnd, info.vmAddr));
    var w3 := EntryWalker(w2, info, fileSize, vmSize);
    FilePaddingMoves(w, t, page, info, end, drift);
    VmPaddingMoves(w1, t, page, info);
    EntryReports(w2, page, info, fileSize, vmSize);
    WalkThree(t.segs, page, start, FilePadding(t, page, info), VmPadding(t, page, info), SegmentEntry(page, info), w1, w2, w3);
  }

  lemma {:induction false} TableIsReady(infos: seq<SegmentInfo>, page: PageSize, k: nat)
    requires Regular(infos, page) && k < |infos|
    ensures CanAdd(Encode(infos[..k], page), page, infos[k], FileEnd(infos, k))
    ensures Encode(infos[..k], page).vmEnd == VmEnd(infos, k)
  {
    assert Plain(infos[k], page);
    TableEnds(infos, page, k);
    EndsBounded(infos, page, k, k);
  }

  lemma {:induction false} SegmentStep(infos: seq<SegmentInfo>, page: PageSize, start: int, k: nat, t: Table,
                                       w: Walker, fileSize: nat, vmSize: nat)
    requires k < |infos| && CanAdd(t, page, infos[k], FileEnd(infos, k)) && t.vmEnd == VmEnd(infos, k)
    requires w == Walk(t.segs, page, start) && w.fileOffset == FileAfter(infos, page, k)
    requires fileSize == FileSizeIn(page, infos[k].fileSize) && vmSize == VmSizeIn(page, infos[k].vmSize)
    ensures Walk(AddSegment(t, page, infos[k]).segs, page, start)
      == EntryWalker(AtEntry(infos, page, k, w), infos[k], fileSize, vmSize)
  {
    var end, drift := FileEnd(infos, k), Drift(infos, page, k);
    SegmentMoves(t, page, start, infos[k], end, drift, fileSize, vmSize, w);
  }

  lemma {:induction false} WalkThree(segs: seq<DiskSegment>, page: PageSize, start: int, a: seq<DiskSegment>,
                                     b: seq<DiskSegment>, c: DiskSegment, w1: Walker, w2: Walker, w3: Walker)
    requires |a| <= 1 && |b| <= 1
    requires StepMaybe(Walk(segs, page, start), page, a) == w1
    requires StepMaybe(w1, page, b) == w2 && Step(w2, page, c) == w3
    ensures Walk(segs + a + b + [c], page, start) == w3
  {
    WalkMaybe(segs, page, start, a);
    WalkMaybe(segs + a, page, start, b);
    WalkSnoc(segs + a + b, page, start, c);
  }

  lemma {:induction false} WalkMaybe(segs: seq<DiskSegment>, page: PageSize, start: int, a: seq<DiskSegment>)
    requires |a| <= 1
    ensures Walk(segs + a, page, start) == StepMaybe(Walk(segs, page, start), page, a)
  {
    if a == [] {
      assert segs + a == segs;
    } else {
      assert a == [a[0]];
      WalkSnoc(segs, page, start, a[0]);
    }
  }

  lemma {:induction false} EncodeNext(infos: seq<SegmentInfo>, page: PageSize, k: nat)
    requires k < |infos|
    ensures Encode(infos[..k + 1], page) == AddSegment(Encode(infos[..k], page), page, infos[k])
  {
    assert infos[..k + 1][..k] == infos[..k];
  }

  lemma {:induction false} SegmentsWalkStep(infos: seq<SegmentInfo>, page: PageSize, start: int, k: nat)
    requires Regular(infos, page) && k < |infos|
    requires StandsAt(infos, page, start, k, Walk(Encode(infos[..k], page).segs, page, start))
    ensures StandsAt(infos, page, start, k + 1, Walk(Encode(infos[..k + 1], page).segs, page, start))
  {
    var t := Encode(infos[..k], page);
    TableIsReady(infos, page, k);
    EncodeNext(infos, page, k);
    var w := Walk(t.segs, page, start);
    var fileSize, vmSize := FileSizeIn(page, infos[k].fileSize), VmSizeIn(page, infos[k].vmSize);
    SegmentStep(infos, page, start, k, t, w, fileSize, vmSize);
    StandsAtNext(infos, page, start, k, w, fileSize, vmSize);
  }

  lemma {:induction false} SegmentsWalk(infos: seq<SegmentInfo>, page: PageSize, start: int, k: nat)
    requires Regular(infos, page) && k <= |infos|
    ensures StandsAt(infos, page, start, k, Walk(Encode(infos[..k], page).segs, page, start))
  {
    if k == 0 {
      WalkOfNothing(infos, page, start);
    } else {
      var j := k - 1;
      SegmentsWalk(infos, page, start, j);
      SegmentsWalkStep(infos, page, start, j);
    }
  }

  lemma {:induction false} WalkOfNothing(infos: seq<SegmentInfo>, page: PageSize, start: int)
    ensures StandsAt(infos, page, start, 0, Walk(Encode(infos[..0], page).segs, page, start))
  {
    assert infos[..0] == [] && Encode([], page).segs == [];
    RoundUpBound(page, 0);
  }

  lemma {:induction false} WholeWalk(infos: seq<SegmentInfo>, page: PageSize, start: int)
    requires Regular(infos, page)
    ensures Walk(Encode(infos, page).segs, page, start).out == ExpectedAll(infos, page, start, |infos|)
  {
    SegmentsWalk(infos, page, start, |infos|);
    assert infos[..|infos|] == infos;
  }

  // ----- where the walk starts -----

  /** Where the walk of the encoded table starts. */
  ghost function StartOf(infos: seq<SegmentInfo>, page: PageSize): int { -Leading(Encode(infos, page).segs, page) }

  ghost function VmTotal(segs: seq<DiskSegment>, page: PageSize): nat {
    if segs == [] then 0 else VmTotal(segs[..|segs| - 1], page) + Bytes(page, segs[|segs| - 1].vmPageCount)
  }

  lemma {:induction false} WalkVm(segs: seq<DiskSegment>, page: PageSize, start: int)
    ensures Walk(segs, page, start).vmOffset == start + VmTotal(segs, page)
  {
    if segs != [] {
      WalkVm(segs[..|segs| - 1], page, start);
    }
  }

  lemma {:induction false} VmTotalFront(segs: seq<DiskSegment>, page: PageSize)
    requires segs != []
    ensures VmTotal(segs, page) == Bytes(page, segs[0].vmPageCount) + VmTotal(segs[1..], page)
  {
    var front := segs[..|segs| - 1];
    if |segs| > 1 {
      VmTotalFront(front, page);
      assert segs[1..][..|segs| - 2] == front[1..];
    } else {
      assert segs[1..] == [] && front == [];
    }
  }

  ghost predicate NoFilePages(segs: seq<DiskSegment>) {
    forall d :: d in segs ==> d.filePageCount == 0
  }

  lemma {:induction false} LeadingIsTotal(a: seq<DiskSegment>, d: DiskSegment, rest: seq<DiskSegment>, page: PageSize)
    requires NoFilePages(a) && d.filePageCount != 0
    ensures Leading(a + [d] + rest, page) == VmTotal(a, page)
  {
    var all := a + [d] + rest;
    if a == [] {
      assert all[0] == d;
    } else {
      assert all[0] == a[0] && a[0] in a;
      assert all[1..] == a[1..] + [d] + rest;
      LeadingIsTotal(a[1..], d, rest, page);
      VmTotalFront(a, page);
    }
  }

  /** The padding in front of segment i has file pages. */
  ghost predicate PadsFile(infos: seq<SegmentInfo>, page: PageSize, i: nat)
    requires i < |infos|
  {
    && infos[i].fileOffset != 0 && infos[i].fileOffset != WordEnd(infos, i)
    && PaddingPages(page, WordEnd(infos, i), infos[i].fileOffset) != 0
  }

  lemma {:induction false} AddsNoFilePages(t: Table, page: PageSize, info: SegmentInfo)
    requires NoFilePages(t.segs) && !HasFilePages(info, page)
    requires info.fileOffset == 0 || info.fileOffset == t.fileEnd || PaddingPages(page, t.fileEnd, info.fileOffset) == 0
    ensures NoFilePages(AddSegment(t, page, info).segs)
  {
    assert SegmentEntry(page, info).filePageCount == 0;
  }

  lemma {:induction false} NothingFiledBefore(infos: seq<SegmentInfo>, page: PageSize, k: nat)
    requires Regular(infos, page) && k <= |infos|
    requires forall i :: 0 <= i < k ==> !HasFilePages(infos[i], page) && !PadsFile(infos, page, i)
    ensures NoFilePages(Encode(infos[..k], page).segs)
  {
    if k > 0 {
      NothingFiledBefore(infos, page, k - 1);
      EncodeNext(infos, page, k - 1);
      TableEnds(infos, page, k - 1);
      assert !PadsFile(infos, page, k - 1);
      AddsNoFilePages(Encode(infos[..k - 1], page), page, infos[k - 1]);
    }
  }

  lemma {:induction false} EncodePrefix(infos: seq<SegmentInfo>, page: PageSize, k: nat)
    requires k <= |infos|
    ensures Encode(infos[..k], page).segs <= Encode(infos, page).segs
  {
    if k < |infos| {
      EncodePrefix(infos[..|infos| - 1], page, k);
      assert infos[..|infos| - 1][..k] == infos[..k];
    } else {
      assert infos[..k] == infos;
    }
  }

  lemma {:induction false} LeadingOfPrefix(all: seq<DiskSegment>, prefix: seq<DiskSegment>, a: seq<DiskSegment>,
                                           d: DiskSegment, rest: seq<DiskSegment>, page: PageSize)
    requires prefix <= all && prefix == a + [d] + rest && NoFilePages(a) && d.filePageCount != 0
    ensures Leading(all, page) == VmTotal(a, page)
  {
    var tail := all[|prefix|..];
    assert all == a + [d] + (rest + tail);
    LeadingIsTotal(a, d, rest + tail, page);
  }

  /** Nothing before segment k has file pages. */
  ghost predicate FirstFiles(infos: seq<SegmentInfo>, page: PageSize, k: nat) {
    k < |infos| && forall i :: 0 <= i < k ==> !HasFilePages(infos[i], page) && !PadsFile(infos, page, i)
  }

  lemma {:induction false} VmUpTo(infos: seq<SegmentInfo>, page: PageSize, k: nat)
    requires Regular(infos, page) && k <= |infos|
    ensures VmTotal(Encode(infos[..k], page).segs, page) == VmAfter(infos, page, k)
  {
    SegmentsWalk(infos, page, 0, k);
    WalkVm(Encode(infos[..k], page).segs, page, 0);
  }

  lemma {:induction false} PaddingFirst(t: Table, page: PageSize, info: SegmentInfo)
    requires FilePadding(t, page, info) != []
    ensures AddSegment(t, page, info).segs
      == t.segs + [FilePadding(t, page, info)[0]] + (VmPadding(t, page, info) + [SegmentEntry(page, info)])
  {
    assert FilePadding(t, page, info) == [FilePadding(t, page, info)[0]];
  }

  /** A walk whose first file pages are a padding starts at minus what precedes the padding. */
  lemma {:induction false} LeadingStopsAtPadding(infos: seq<SegmentInfo>, page: PageSize, k: nat)
    requires Regular(infos, page) && FirstFiles(infos, page, k) && PadsFile(infos, page, k)
    ensures StartOf(infos, page) == -VmAfter(infos, page, k)
  {
    var t, info := Encode(infos[..k], page), infos[k];
    NothingFiledBefore(infos, page, k);
    TableEnds(infos, page, k);
    EncodeNext(infos, page, k);
    EncodePrefix(infos, page, k + 1);
    VmUpTo(infos, page, k);
    PaddingFirst(t, page, info);
    LeadingOfPrefix(Encode(infos, page).segs, Encode(infos[..k + 1], page).segs, t.segs, FilePadding(t, page, info)[0],
                    VmPadding(t, page, info) + [SegmentEntry(page, info)], page);
  }

  lemma {:induction false} VmUpToEntry(infos: seq<SegmentInfo>, page: PageSize, k: nat)
    requires Regular(infos, page) && k < |infos|
    ensures var t := Encode(infos[..k], page);
      VmTotal(t.segs + FilePadding(t, page, infos[k]) + VmPadding(t, page, infos[k]), page) == VmBefore(infos, page, k)
  {
    var t, info := Encode(infos[..k], page), infos[k];
    var w := Walk(t.segs, page, 0);
    TableIsReady(infos, page, k);
    SegmentsWalk(infos, page, 0, k);
    FilePaddingMoves(w, t, page, info, FileEnd(infos, k), Drift(infos, page, k));
    var w1 := StepMaybe(w, page, FilePadding(t, page, info));
    VmPaddingMoves(w1, t, page, info);
    WalkMaybe(t.segs, page, 0, FilePadding(t, page, info));
    WalkMaybe(t.segs + FilePadding(t, page, info), page, 0, VmPadding(t, page, info));
    WalkVm(t.segs + FilePadding(t, page, info) + VmPadding(t, page, info), page, 0);
  }

  /** A walk whose first file pages are a segment's starts at minus what precedes the segment, padding included. */
  lemma {:induction false} LeadingStopsAtSegment(infos: seq<SegmentInfo>, page: PageSize, k: nat)
    requires Regular(infos, page) && FirstFiles(infos, page, k) && !PadsFile(infos, page, k) && HasFilePages(infos[k], page)
    ensures StartOf(infos, page) == -VmBefore(infos, page, k)
  {
    var t, info := Encode(infos[..k], page), infos[k];
    NothingFiledBefore(infos, page, k);
    TableEnds(infos, page, k);
    EncodeNext(infos, page, k);
    EncodePrefix(infos, page, k + 1);
    VmUpToEntry(infos, page, k);
    var before := t.segs + FilePadding(t, page, info) + VmPadding(t, page, info);
    assert Encode(infos[..k + 1], page).segs == before + [SegmentEntry(page, info)] + [];
    LeadingOfPrefix(Encode(infos, page).segs, Encode(infos[..k + 1], page).segs, before, SegmentEntry(page, info), [], page);
  }

  lemma {:induction false} VmAfterGrows(infos: seq<SegmentInfo>, page: PageSize, i: nat, j: nat)
    requires i <= j < |infos|
    ensures VmAfter(infos, page, i) <= VmAfter(infos, page, j) <= VmBefore(infos, page, j)
  {
    if i < j {
      VmAfterGrows(infos, page, i, j - 1);
    }
  }

  /** No file padding up to the first file-backed segment has virtual bytes behind it. */
  ghost predicate BaseIsFirst(infos: seq<SegmentInfo>, page: PageSize, b: nat)
    requires b < |infos|
  {
    forall i {:trigger PadsFile(infos, page, i)} :: 0 <= i <= b && PadsFile(infos, page, i) ==>
      VmAfter(infos, page, i) == VmBefore(infos, page, b)
  }

  lemma {:induction false} BaseAfterPadding(infos: seq<SegmentInfo>, page: PageSize, k: nat, b: nat)
    requires k <= b < |infos| && FirstFiles(infos, page, k) && PadsFile(infos, page, k)
    ensures BaseIsFirst(infos, page, b) <==> VmAfter(infos, page, k) == VmBefore(infos, page, b)
  {
    if VmAfter(infos, page, k) == VmBefore(infos, page, b) {
      forall i {:trigger PadsFile(infos, page, i)} | 0 <= i <= b && PadsFile(infos, page, i)
        ensures VmAfter(infos, page, i) == VmBefore(infos, page, b)
      {
        VmAfterGrows(infos, page, k, i);
        VmAfterGrows(infos, page, i, b);
      }
    }
  }

  /** The first entry with file pages, up to the first file-backed segment: a padding, or that segment's. */
  lemma {:induction false} FirstFiled(infos: seq<SegmentInfo>, page: PageSize, b: nat, k: nat) returns (first: nat)
    requires IsFirstFileBacked(infos, page, b) && k <= b && FirstFiles(infos, page, k)
    ensures first <= b && FirstFiles(infos, page, first) && (PadsFile(infos, page, first) || first == b)
    decreases b - k
  {
    if k == b || PadsFile(infos, page, k) {
      first := k;
    } else {
      first := FirstFiled(infos, page, b, k + 1);
    }
  }

  /** The walk starts at minus what precedes the first file-backed segment, exactly under that condition. */
  lemma {:induction false} LeadingIsBase(infos: seq<SegmentInfo>, page: PageSize, b: nat)
    requires Regular(infos, page) && IsFirstFileBacked(infos, page, b)
    ensures StartOf(infos, page) == -VmBefore(infos, page, b) <==> BaseIsFirst(infos, page, b)
  {
    var k := FirstFiled(infos, page, b, 0);
    if PadsFile(infos, page, k) {
      LeadingStopsAtPadding(infos, page, k);
      BaseAfterPadding(infos, page, k, b);
    } else {
      LeadingStopsAtSegment(infos, page, k);
    }
  }

  // ----- the round trip -----

  /**
   The table puts segment i + 1 as far behind segment i as its address is: sizes
   and gaps fit their fields, and an empty segment lies no page beyond what
   precedes it, up to what the field loses.
   */
  ghost predicate NoPhantomGap(infos: seq<SegmentInfo>, page: PageSize, i: nat)
    requires i + 1 < |infos|
  {
    var from, size, to, end := infos[i].vmAddr, infos[i].vmSize, infos[i + 1].vmAddr, VmEnd(infos, i);
    if size != 0 then (size + page - 1) / page < 0x4000_0000 && (to - from - size) / page < 0x4000_0000
    else if end == 0 then to == from
    else (to - from) / page < 0x4000_0000 && (from - end) / page % 0x4000_0000 == 0
  }

  lemma {:induction false} GapIsExact(infos: seq<SegmentInfo>, page: PageSize, i: nat)
    requires Regular(infos, page) && i + 1 < |infos|
    ensures VmBefore(infos, page, i + 1) - VmBefore(infos, page, i) == infos[i + 1].vmAddr - infos[i].vmAddr
      <==> NoPhantomGap(infos, page, i)
  {
    var a, b := infos[i], infos[i + 1];
    assert Plain(a, page) && Plain(b, page) && Ordered(a, b);
    EndsBounded(infos, page, i, i);
    AlignedDifference(page, a.vmAddr, b.vmAddr);
    GapSize(infos, page, i);
    if a.vmSize != 0 {
      FullGap(page, a.vmAddr, a.vmSize, b.vmAddr);
    } else {
      EmptyGap(page, VmEnd(infos, i), a.vmAddr, b.vmAddr);
    }
  }

  lemma {:induction false} GapSize(infos: seq<SegmentInfo>, page: PageSize, i: nat)
    requires i + 1 < |infos|
    ensures VmBefore(infos, page, i + 1) - VmBefore(infos, page, i)
      == VmSizeIn(page, infos[i].vmSize) + Gap(page, VmEnd(infos, i + 1), infos[i + 1].vmAddr)
    ensures VmEnd(infos, i + 1) == if infos[i].vmSize != 0 then infos[i].vmAddr + infos[i].vmSize else VmEnd(infos, i)
  {
  }

  /** What the field keeps of a page count is all of it exactly if it fits. */
  lemma {:induction false} KeptPages(page: PageSize, n: nat)
    ensures Bytes(page, Modulo(n, TWO30)) <= Bytes(page, n)
    ensures Bytes(page, Modulo(n, TWO30)) == Bytes(page, n) <==> n < TWO30
  {
    ModuloIsRemainder(n, TWO30);
    BytesIsProduct(page, n);
    BytesIsProduct(page, n % TWO30);
  }

  lemma {:induction false} GapPages(page: PageSize, end: nat, to: nat)
    requires 0 < end <= to < TWO64
    ensures Gap(page, end, to) == Bytes(page, Modulo(FloorPages(page, to - end), TWO30))
  {
    ModuloSmall(to - end, TWO64);
  }

  lemma {:induction false} EmptyGap(page: PageSize, end: nat, from: nat, to: nat)
    requires end <= from <= to < TWO64 && Aligned(page, to - from)
    ensures VmSizeIn(page, 0) == 0
    ensures Gap(page, end, to) == to - from
      <==> if end == 0 then to == from else (to - from) / page < TWO30 && (from - end) / page % TWO30 == 0
  {
    assert CeilPages(page, 0) == 0;
    if end != 0 {
      FloorIsQuotient(page, to - from);
      FloorIsQuotient(page, from - end);
      EmptyGapBehind(page, end, from, to, (to - from) / page, (from - end) / page);
    }
  }

  lemma {:induction false} EmptyGapBehind(page: PageSize, end: nat, from: nat, to: nat, n: nat, m: nat)
    requires 0 < end <= from <= to < TWO64 && Aligned(page, to - from)
    requires FloorPages(page, to - from) == n && FloorPages(page, from - end) == m
    ensures Gap(page, end, to) == to - from <==> n < TWO30 && m % TWO30 == 0
  {
    FloorSum(page, to - from, from - end);
    assert to - from + (from - end) == to - end;
    GapPages(page, end, to);
    EmptyGapPages(page, n, m);
  }

  lemma {:induction false} EmptyGapPages(page: PageSize, n: nat, m: nat)
    ensures Bytes(page, Modulo(n + m, TWO30)) == Bytes(page, n) <==> n < TWO30 && m % TWO30 == 0
  {
    ModuloIsRemainder(n + m, TWO30);
    BytesIsProduct(page, (n + m) % TWO30);
    BytesIsProduct(page, n);
    assert (n + m) % TWO30 == n <==> n < TWO30 && m % TWO30 == 0;
  }

  lemma {:induction false} FullGap(page: PageSize, from: nat, size: nat, to: nat)
    requires 0 < size && from + size <= to < TWO64 && Aligned(page, to - from)
    ensures VmSizeIn(page, size) + Gap(page, from + size, to) == to - from
      <==> (size + page - 1) / page < TWO30 && (to - from - size) / page < TWO30
  {
    PaddingIsExact(page, size, to - from);
    GapPages(page, from + size, to);
    KeptPages(page, CeilPages(page, size));
    KeptPages(page, FloorPages(page, to - from - size));
    FloorIsQuotient(page, size + page - 1);
    FloorIsQuotient(page, to - from - size);
  }

  lemma {:induction false} AlignedDifference(page: PageSize, a: nat, b: nat)
    requires a <= b && Aligned(page, a) && Aligned(page, b)
    ensures Aligned(page, b - a)
  {
    if a >= page {
      AlignedDifference(page, a - page, b - page);
    }
  }

  lemma {:induction false} OffsetsRelative(infos: seq<SegmentInfo>, page: PageSize, i: nat, j: nat)
    requires Regular(infos, page) && i <= j < |infos|
    requires forall k :: 0 <= k < |infos| - 1 ==> NoPhantomGap(infos, page, k)
    ensures VmBefore(infos, page, j) - VmBefore(infos, page, i) == infos[j].vmAddr - infos[i].vmAddr
  {
    if i < j {
      OffsetsRelative(infos, page, i, j - 1);
      GapIsExact(infos, page, j - 1);
    }
  }

  ghost function Decoded(infos: seq<SegmentInfo>, page: PageSize): seq<Report> {
    Walk(Encode(infos, page).segs, page, StartOf(infos, page)).out
  }

  lemma {:induction false} ReportedFrom(infos: seq<SegmentInfo>, page: PageSize, start: int, i: nat)
    requires Regular(infos, page) && start == StartOf(infos, page) && i < |infos|
    ensures Decoded(infos, page) == ExpectedAll(infos, page, start, |infos|)
    ensures ExpectedAll(infos, page, start, |infos|)[i] == Expected(infos, page, start, i)
  {
    WholeWalk(infos, page, start);
    ExpectedAt(infos, page, start, |infos|, i);
  }

  /**
   Every segment is reported once, in order; its sizes, its offsets and its
   permissions are those expected from the table, and when they are right is
   said below.
   */
  lemma {:induction false} SegmentsReported(infos: seq<SegmentInfo>, page: PageSize)
    requires Regular(infos, page)
    ensures Decoded(infos, page) == ExpectedAll(infos, page, StartOf(infos, page), |infos|)
  {
    WholeWalk(infos, page, StartOf(infos, page));
  }

  lemma {:induction false} ReportAt(infos: seq<SegmentInfo>, page: PageSize, i: nat)
    requires Regular(infos, page) && i < |infos|
    ensures |Decoded(infos, page)| == |infos|
    ensures Decoded(infos, page)[i] == Expected(infos, page, StartOf(infos, page), i)
  {
    ReportedFrom(infos, page, StartOf(infos, page), i);
  }

  /** A segment comes back with its protections exactly if they are not those that stand for read-only data. */
  lemma {:induction false} PermissionsExact(infos: seq<SegmentInfo>, page: PageSize, i: nat)
    requires Regular(infos, page) && i < |infos|
    ensures |Decoded(infos, page)| == |infos|
    ensures var r, info := Decoded(infos, page)[i], infos[i];
      r.laterReadOnly == info.readOnlyData && r.permissions == (if info.readOnlyData then 3 else info.protections % 8)
      <==> (info.protections % 8 == 2 ==> info.readOnlyData)
  {
    ReportAt(infos, page, i);
  }

  /** A size comes back rounded up to whole pages. */
  ghost predicate Rounded(page: PageSize, size: nat, reported: nat) {
    size <= reported < size + page && Aligned(page, reported)
  }

  /** Sizes come back rounded up exactly if they fit: 2^30 pages less one, and 2^32 bytes less a page. */
  lemma {:induction false} SizesExact(infos: seq<SegmentInfo>, page: PageSize, i: nat)
    requires Regular(infos, page) && i < |infos|
    ensures |Decoded(infos, page)| == |infos|
    ensures Rounded(page, infos[i].vmSize, Decoded(infos, page)[i].vmSize) <==> infos[i].vmSize <= page * 0x3FFF_FFFF
    ensures Rounded(page, infos[i].fileSize, Decoded(infos, page)[i].fileSize) <==> infos[i].fileSize <= 0x1_0000_0000 - page
  {
    ReportAt(infos, page, i);
    VmSizeExact(page, infos[i].vmSize);
    FileSizeExact(page, infos[i].fileSize);
  }

  lemma {:induction false} VmSizeExact(page: PageSize, size: nat)
    ensures Rounded(page, size, VmSizeIn(page, size)) <==> size <= page * (TWO30 - 1)
  {
    var pages := CeilPages(page, size);
    RoundUpBound(page, size);
    BytesIsProduct(page, pages);
    ModuloIsRemainder(pages, TWO30);
    BytesIsProduct(page, pages % TWO30);
    FloorBetween(page, pages % TWO30, 0);
  }

  lemma {:induction false} FileSizeExact(page: PageSize, size: nat)
    ensures Rounded(page, size, FileSizeIn(page, size)) <==> size <= TWO32 - page
  {
    var pages := CeilPages(page, size);
    RoundUpBound(page, size);
    BytesIsProduct(page, pages);
    ModuloIsRemainder(page * pages, TWO32);
    FloorBetween(page, pages, 0);
    FileSizePages(page, pages);
  }

  lemma {:induction false} FileSizePages(page: PageSize, pages: nat)
    ensures page * pages % TWO32 <= TWO32 - page
  {
    if page == 0x1000 {
      UniqueQuotient(0x1000 * pages, TWO32, pages / 0x10_0000, 0x1000 * (pages % 0x10_0000));
    } else {
      UniqueQuotient(0x4000 * pages, TWO32, pages / 0x4_0000, 0x4000 * (pages % 0x4_0000));
    }
  }

  // ----- file offsets -----

  /** The segment is reported with a file size, and with the file offset that the walk has then. */
  ghost predicate ShowsOffset(info: SegmentInfo, page: PageSize) { FileSizeIn(page, info.fileSize) != 0 }

  /** The word of 32 bits, which says 0 for a segment reported empty, is the segment's file offset. */
  ghost predicate OffsetFits(info: SegmentInfo, page: PageSize) {
    if ShowsOffset(info, page) then info.fileOffset < 0x1_0000_0000 else info.fileOffset == 0
  }

  /** A file-backed segment is reported at its file offset exactly if the offset fits and the paddings before cancel. */
  lemma {:induction false} FileOffsetExact(infos: seq<SegmentInfo>, page: PageSize, i: nat)
    requires Regular(infos, page) && i < |infos|
    ensures |Decoded(infos, page)| == |infos|
    ensures Decoded(infos, page)[i].fileOffset == infos[i].fileOffset
      <==> OffsetFits(infos[i], page) && (ShowsOffset(infos[i], page) ==> Drift(infos, page, i) == 0)
  {
    ReportAt(infos, page, i);
    WrapShift(infos[i].fileOffset, Drift(infos, page, i));
  }

  lemma {:induction false} WrapShift(a: nat, d: nat)
    requires d < TWO32
    ensures Modulo(a + d, TWO32) == a <==> a < TWO32 && d == 0
  {
    ModuloIsRemainder(a + d, TWO32);
  }

  /** The padding of a segment without file contents is harmless, up to the bits that a file offset loses. */
  predicate NoPhantomPadding(page: PageSize, end: nat, offset: nat) { offset == 0 || (offset - end) % 0x1_0000_0000 < page }

  /** It moves the walk exactly if its offset is neither zero nor less than a page behind what precedes it. */
  lemma {:induction false} MoveExact(page: PageSize, end: nat, offset: nat)
    ensures Move(page, Modulo(end, TWO32), offset) == 0 <==> NoPhantomPadding(page, end, offset)
  {
    ModuloIsRemainder(end, TWO32);
    WordDistance(end, offset);
    PaddingBytes(page, end % TWO32, offset);
    WholeWords(page, (offset - end % TWO32) % TWO64);
  }

  lemma {:induction false} WordDistance(end: nat, offset: nat)
    ensures (offset - end % TWO32) % TWO64 % TWO32 == (offset - end) % TWO32
  {
    var y, x := offset - end % TWO32, offset - end;
    UniqueQuotient(y % TWO64, TWO32, x / TWO32 + end / TWO32 - y / TWO64 * TWO32, x % TWO32);
  }

  lemma {:induction false} PaddingBytes(page: PageSize, word: nat, offset: nat)
    ensures Modulo(Bytes(page, PaddingPages(page, word, offset)), TWO32) == page * ((offset - word) % TWO64 / page) % TWO32
  {
    var distance := (offset - word) % TWO64;
    ModuloIsRemainder(offset - word, TWO64);
    FloorIsQuotient(page, distance);
    CutPages(page, distance / page);
    BytesIsProduct(page, distance / page);
    ModuloIsRemainder(page * (distance / page), TWO32);
  }

  lemma {:induction false} WholeWords(page: PageSize, distance: nat)
    ensures page * (distance / page) % TWO32 == 0 <==> distance % TWO32 < page
  {
    if page == 0x1000 {
      WholeSmallPages(distance);
    } else {
      WholeLargePages(distance);
    }
  }

  lemma {:induction false} WholeSmallPages(distance: nat)
    ensures 0x1000 * (distance / 0x1000) % TWO32 == 0 <==> distance % TWO32 < 0x1000
  {
    var q, r := distance / TWO32, distance % TWO32;
    UniqueQuotient(distance, 0x1000, q * 0x10_0000 + r / 0x1000, r % 0x1000);
    UniqueQuotient(0x1000 * (distance / 0x1000), TWO32, q, r - r % 0x1000);
  }

  lemma {:induction false} WholeLargePages(distance: nat)
    ensures 0x4000 * (distance / 0x4000) % TWO32 == 0 <==> distance % TWO32 < 0x4000
  {
    var q, r := distance / TWO32, distance % TWO32;
    UniqueQuotient(distance, 0x4000, q * 0x4_0000 + r / 0x4000, r % 0x4000);
    UniqueQuotient(0x4000 * (distance / 0x4000), TWO32, q, r - r % 0x4000);
  }

  /** Every file offset that the source gives to its callers. */
  ghost predicate FileOffsetsRight(infos: seq<SegmentInfo>, page: PageSize)
    requires |Decoded(infos, page)| == |infos|
  {
    forall i :: 0 <= i < |infos| && infos[i].fileSize != 0 ==> Decoded(infos, page)[i].fileOffset == infos[i].fileOffset
  }

  ghost predicate OffsetsFit(infos: seq<SegmentInfo>, page: PageSize) {
    forall i :: 0 <= i < |infos| && infos[i].fileSize != 0 ==> OffsetFits(infos[i], page)
  }

  ghost predicate NoneDrifts(infos: seq<SegmentInfo>, page: PageSize) {
    forall i :: 0 <= i < |infos| && ShowsOffset(infos[i], page) ==> Drift(infos, page, i) == 0
  }

  lemma {:induction false} ShownHasContents(info: SegmentInfo, page: PageSize)
    requires ShowsOffset(info, page)
    ensures info.fileSize != 0
  {
    RoundUpBound(page, info.fileSize);
  }

  /**
   Every file-backed segment is reported at its file offset exactly if these
   offsets fit a word and the paddings cancel in front of each of them.
   */
  lemma {:induction false} FileOffsetsExact(infos: seq<SegmentInfo>, page: PageSize)
    requires Regular(infos, page)
    ensures |Decoded(infos, page)| == |infos|
    ensures FileOffsetsRight(infos, page) <==> OffsetsFit(infos, page) && NoneDrifts(infos, page)
  {
    SegmentsReported(infos, page);
    forall i | 0 <= i < |infos|
      ensures Decoded(infos, page)[i].fileOffset == infos[i].fileOffset
        <==> OffsetFits(infos[i], page) && (ShowsOffset(infos[i], page) ==> Drift(infos, page, i) == 0)
      ensures ShowsOffset(infos[i], page) ==> infos[i].fileSize != 0
    {
      FileOffsetExact(infos, page, i);
      if ShowsOffset(infos[i], page) {
        ShownHasContents(infos[i], page);
      }
    }
  }

  lemma {:induction false} NoDrift(infos: seq<SegmentInfo>, page: PageSize, i: nat)
    requires i <= |infos|
    requires forall k :: 0 <= k < i && infos[k].fileSize == 0 ==> Move(page, WordEnd(infos, k), infos[k].fileOffset) == 0
    ensures Drift(infos, page, i) == 0
  {
    if i > 0 {
      NoDrift(infos, page, i - 1);
    }
  }

  /** The padding in front of segment k is the only one that moves the walk before j. */
  lemma {:induction false} OneDrifts(infos: seq<SegmentInfo>, page: PageSize, k: nat, j: nat)
    requires k < j <= |infos| && infos[k].fileSize == 0 && Drift(infos, page, k) == 0
    requires forall m :: k < m < j && infos[m].fileSize == 0 ==> Move(page, WordEnd(infos, m), infos[m].fileOffset) == 0
    ensures Drift(infos, page, j) == Move(page, WordEnd(infos, k), infos[k].fileOffset)
  {
    if j == k + 1 {
      ModuloSmall(Move(page, WordEnd(infos, k), infos[k].fileOffset), TWO32);
    } else {
      OneDrifts(infos, page, k, j - 1);
      ModuloSmall(Drift(infos, page, j - 1), TWO32);
    }
  }

  /** The segment has no file contents, but a file offset, and a segment whose file offset is reported follows. */
  ghost predicate Dangles(infos: seq<SegmentInfo>, page: PageSize, k: nat) {
    && k < |infos| && infos[k].fileSize == 0 && infos[k].fileOffset != 0
    && exists j :: k < j < |infos| && ShowsOffset(infos[j], page)
  }

  /** Two such segments have one between them whose file offset is reported. */
  ghost predicate Isolated(infos: seq<SegmentInfo>, page: PageSize) {
    forall k: nat, m: nat :: k < m && Dangles(infos, page, k) && Dangles(infos, page, m) ==>
      exists j :: k < j < m && ShowsOffset(infos[j], page)
  }

  ghost predicate PaddingHarmless(infos: seq<SegmentInfo>, page: PageSize, k: nat)
    requires k < |infos|
  {
    NoPhantomPadding(page, FileEnd(infos, k), infos[k].fileOffset)
  }

  ghost predicate AllPaddingsHarmless(infos: seq<SegmentInfo>, page: PageSize, i: nat)
    requires i <= |infos|
  {
    forall k :: 0 <= k < i && Dangles(infos, page, k) ==> PaddingHarmless(infos, page, k)
  }

  lemma {:induction false} HarmlessDoesNotDrift(infos: seq<SegmentInfo>, page: PageSize, i: nat, j: nat)
    requires i <= j < |infos| && ShowsOffset(infos[j], page) && AllPaddingsHarmless(infos, page, i)
    ensures Drift(infos, page, i) == 0
  {
    forall k | 0 <= k < i && infos[k].fileSize == 0 ensures Move(page, WordEnd(infos, k), infos[k].fileOffset) == 0 {
      if infos[k].fileOffset != 0 {
        assert Dangles(infos, page, k);
        MoveExact(page, FileEnd(infos, k), infos[k].fileOffset);
      }
    }
    NoDrift(infos, page, i);
  }

  /** Up to the next reported file offset no other one dangles. */
  lemma {:induction false} DanglesAlone(infos: seq<SegmentInfo>, page: PageSize, k: nat, m: nat, last: nat)
    requires Isolated(infos, page) && Dangles(infos, page, k)
    requires k < m < last < |infos| && ShowsOffset(infos[last], page)
    requires infos[m].fileSize == 0 && forall n :: k < n <= m ==> !ShowsOffset(infos[n], page)
    ensures infos[m].fileOffset == 0
  {
    assert Dangles(infos, page, m) <==> infos[m].fileOffset != 0;
  }

  /** A harmful padding puts the next reported file offset wrong. */
  lemma {:induction false} HarmDrifts(infos: seq<SegmentInfo>, page: PageSize, k: nat) returns (j: nat)
    requires Isolated(infos, page) && Dangles(infos, page, k)
    requires !PaddingHarmless(infos, page, k) && AllPaddingsHarmless(infos, page, k)
    ensures k < j < |infos| && ShowsOffset(infos[j], page) && Drift(infos, page, j) != 0
  {
    var last :| k < last < |infos| && ShowsOffset(infos[last], page);
    HarmlessDoesNotDrift(infos, page, k, last);
    j := k + 1;
    while !ShowsOffset(infos[j], page)
      invariant k < j <= last && forall m :: k < m < j ==> !ShowsOffset(infos[m], page)
      decreases last - j
    {
      j := j + 1;
    }
    forall m | k < m < j && infos[m].fileSize == 0 ensures Move(page, WordEnd(infos, m), infos[m].fileOffset) == 0 {
      DanglesAlone(infos, page, k, m, last);
    }
    OneDrifts(infos, page, k, j);
    MoveExact(page, FileEnd(infos, k), infos[k].fileOffset);
  }

  /**
   Where paddings cannot cancel: all file offsets are right exactly if they fit a
   word and every file offset of a segment without file contents, in front of one
   with a reported offset, is zero or less than a page behind what precedes it.
   */
  lemma {:induction false} IsolatedOffsetsExact(infos: seq<SegmentInfo>, page: PageSize)
    requires Regular(infos, page) && Isolated(infos, page)
    ensures |Decoded(infos, page)| == |infos|
    ensures FileOffsetsRight(infos, page) <==> OffsetsFit(infos, page) && AllPaddingsHarmless(infos, page, |infos|)
  {
    FileOffsetsExact(infos, page);
    HarmlessExactly(infos, page);
  }

  lemma {:induction false} HarmlessExactly(infos: seq<SegmentInfo>, page: PageSize)
    requires Isolated(infos, page)
    ensures NoneDrifts(infos, page) <==> AllPaddingsHarmless(infos, page, |infos|)
  {
    if AllPaddingsHarmless(infos, page, |infos|) {
      forall i | 0 <= i < |infos| && ShowsOffset(infos[i], page) ensures Drift(infos, page, i) == 0 {
        HarmlessDoesNotDrift(infos, page, i, i);
      }
    } else {
      var k := 0;
      while Dangles(infos, page, k) ==> PaddingHarmless(infos, page, k)
        invariant 0 <= k < |infos| && AllPaddingsHarmless(infos, page, k)
        decreases |infos| - k
      {
        k := k + 1;
      }
      var j := HarmDrifts(infos, page, k);
    }
  }

  // ----- virtual offsets -----

  ghost predicate OffsetsRight(infos: seq<SegmentInfo>, page: PageSize, b: nat)
    requires b < |infos| == |Decoded(infos, page)|
  {
    forall i :: 0 <= i < |infos| ==> Decoded(infos, page)[i].vmOffset == infos[i].vmAddr - infos[b].vmAddr
  }

  ghost predicate NoPhantomGaps(infos: seq<SegmentInfo>, page: PageSize) {
    forall k :: 0 <= k < |infos| - 1 ==> NoPhantomGap(infos, page, k)
  }

  lemma {:induction false} RightOffsetsNeedNoGap(infos: seq<SegmentInfo>, page: PageSize, b: nat, k: nat)
    requires Regular(infos, page) && IsFirstFileBacked(infos, page, b) && k < |infos| - 1
    requires |Decoded(infos, page)| == |infos| && OffsetsRight(infos, page, b)
    ensures NoPhantomGap(infos, page, k)
  {
    ReportAt(infos, page, k);
    ReportAt(infos, page, k + 1);
    GapIsExact(infos, page, k);
  }

  lemma {:induction false} NoGapMeansRightOffset(infos: seq<SegmentInfo>, page: PageSize, b: nat, i: nat)
    requires Regular(infos, page) && IsFirstFileBacked(infos, page, b) && i < |infos| == |Decoded(infos, page)|
    requires BaseIsFirst(infos, page, b) && NoPhantomGaps(infos, page)
    ensures Decoded(infos, page)[i].vmOffset == infos[i].vmAddr - infos[b].vmAddr
  {
    LeadingIsBase(infos, page, b);
    ReportAt(infos, page, i);
    if i <= b {
      OffsetsRelative(infos, page, i, b);
    } else {
      OffsetsRelative(infos, page, b, i);
    }
  }

  /**
   The virtual offsets are the addresses relative to the first file-backed
   segment, exactly when no empty segment leaves a phantom gap and the walk
   starts at that segment.
   */
  lemma {:induction false} SegmentOffsetsExact(infos: seq<SegmentInfo>, page: PageSize, b: nat)
    requires Regular(infos, page) && IsFirstFileBacked(infos, page, b)
    ensures |Decoded(infos, page)| == |infos|
    ensures OffsetsRight(infos, page, b) <==> BaseIsFirst(infos, page, b) && NoPhantomGaps(infos, page)
  {
    SegmentsReported(infos, page);
    if OffsetsRight(infos, page, b) {
      LeadingIsBase(infos, page, b);
      ReportAt(infos, page, b);
      forall k | 0 <= k < |infos| - 1 ensures NoPhantomGap(infos, page, k) {
        RightOffsetsNeedNoGap(infos, page, b, k);
      }
    }
    if BaseIsFirst(infos, page, b) && NoPhantomGaps(infos, page) {
      forall i | 0 <= i < |infos| ensures Decoded(infos, page)[i].vmOffset == infos[i].vmAddr - infos[b].vmAddr {
        NoGapMeansRightOffset(infos, page, b, i);
      }
    }
  }

  // ----- one table for each way to fail -----

  /** The first pages. */
  lemma {:induction false} SmallPages()
    ensures forall x :: x in {0, 0x1000, 0x2000, 0x3000, 0x4000} ==> Aligned(0x1000, x)
    ensures CeilPages(0x1000, 0) == 0 && CeilPages(0x1000, 0x1000) == 1 && CeilPages(0x1000, 0x2000) == 2
    ensures RoundUp(0x1000, 0x1000) == 0x1000
  {
    FloorIsQuotient(0x1000, 0xFFF);
    FloorIsQuotient(0x1000, 0x1FFF);
    FloorIsQuotient(0x1000, 0x2FFF);
    BytesIsProduct(0x1000, 1);
    WholePages(0x1000, 0);
    WholePages(0x1000, 1);
    WholePages(0x1000, 2);
    WholePages(0x1000, 3);
    WholePages(0x1000, 4);
  }

  /** An empty segment two pages beyond the text segment, and a data segment behind it. */
  const PHANTOM: seq<SegmentInfo> := [
    SegmentInfo(0, 0x1000, 0, 0x1000, 5, false),
    SegmentInfo(0x3000, 0, 0, 0, 3, false),
    SegmentInfo(0x4000, 0x1000, 0x1000, 0x1000, 3, false)]

  /** Its segments are not all reported at their virtual offsets. */
  lemma {:induction false} PhantomGapFails()
    ensures Regular(PHANTOM, 0x1000) && IsFirstFileBacked(PHANTOM, 0x1000, 0)
    ensures |Decoded(PHANTOM, 0x1000)| == |PHANTOM|
    ensures !OffsetsRight(PHANTOM, 0x1000, 0)
  {
    SmallPages();
    assert VmEnd(PHANTOM, 0) == 0 && VmEnd(PHANTOM, 1) == VmEnd(PHANTOM, 2) == 0x1000;
    assert !NoPhantomGap(PHANTOM, 0x1000, 1);
    SegmentOffsetsExact(PHANTOM, 0x1000, 0);
  }

  /** The first segment with file contents begins inside the file and stands behind a gap. */
  const LATE_BASE: seq<SegmentInfo> := [
    SegmentInfo(0, 0x1000, 0, 0, 0, false),
    SegmentInfo(0x3000, 0x1000, 0x2000, 0x1000, 5, false)]

  /** The decoder starts at the padding in front of that segment. */
  lemma {:induction false} LateBaseFails()
    ensures Regular(LATE_BASE, 0x1000) && IsFirstFileBacked(LATE_BASE, 0x1000, 1)
    ensures |Decoded(LATE_BASE, 0x1000)| == |LATE_BASE|
    ensures !OffsetsRight(LATE_BASE, 0x1000, 1)
  {
    SmallPages();
    assert VmEnd(LATE_BASE, 0) == 0 && VmEnd(LATE_BASE, 1) == 0x1000;
    LateBaseGap();
    assert PadsFile(LATE_BASE, 0x1000, 1);
    SegmentOffsetsExact(LATE_BASE, 0x1000, 1);
  }

  lemma {:induction false} LateBaseGap()
    ensures VmGap(LATE_BASE, 0x1000, 1) != 0
  {
    assert VmEnd(LATE_BASE, 1) == 0x1000;
    OperationsAreStandard(0x1000, 0, 0x2000, TWO64);
    OperationsAreStandard(0x1000, 0x2000, 2, TWO30);
    OperationsAreStandard(0x1000, 2, 2, TWO30);
  }

  /** A segment that can be written but not read comes back as one that is made read-only later. */
  lemma {:induction false} WriteOnlyFails()
    ensures var infos := [SegmentInfo(0, 0x1000, 0, 0x1000, VM_PROT_WRITE, false)];
      && Regular(infos, 0x1000) && |Decoded(infos, 0x1000)| == 1
      && (Decoded(infos, 0x1000)[0].laterReadOnly || Decoded(infos, 0x1000)[0].permissions != VM_PROT_WRITE)
  {
    var infos := [SegmentInfo(0, 0x1000, 0, 0x1000, VM_PROT_WRITE, false)];
    SmallPages();
    assert VmEnd(infos, 0) == 0;
    PermissionsExact(infos, 0x1000, 0);
  }

  /** A segment without file contents has an offset one page behind the text segment. */
  const PADDED_TWICE: seq<SegmentInfo> := [
    SegmentInfo(0, 0x1000, 0, 0x1000, 5, false),
    SegmentInfo(0x1000, 0x1000, 0x2000, 0, 3, false),
    SegmentInfo(0x2000, 0x1000, 0x2000, 0x1000, 1, false)]

  lemma {:induction false} PaddedTwiceIsRegular()
    ensures Regular(PADDED_TWICE, 0x1000)
  {
    SmallPages();
    assert VmEnd(PADDED_TWICE, 0) == 0 && VmEnd(PADDED_TWICE, 1) == 0x1000 && VmEnd(PADDED_TWICE, 2) == 0x2000;
  }

  lemma {:induction false} PaddedTwiceDrifts()
    ensures Drift(PADDED_TWICE, 0x1000, 2) == 0x1000
  {
    PageMove(0x1000, 0x2000, 0x1000);
    assert Drift(PADDED_TWICE, 0x1000, 0) == Drift(PADDED_TWICE, 0x1000, 1) == 0 && FileEnd(PADDED_TWICE, 1) == 0x1000;
    OneDrifts(PADDED_TWICE, 0x1000, 1, 2);
  }

  /** The page is padded for that segment and again for the one behind it. */
  lemma {:induction false} PaddedTwiceFails()
    ensures Regular(PADDED_TWICE, 0x1000) && |Decoded(PADDED_TWICE, 0x1000)| == |PADDED_TWICE|
    ensures Decoded(PADDED_TWICE, 0x1000)[2].fileOffset == 0x3000
  {
    PaddedTwiceIsRegular();
    PaddedTwiceDrifts();
    DriftedReport(PADDED_TWICE, 0x1000, 2, 0x1000);
  }

  lemma {:induction false} DriftedReport(infos: seq<SegmentInfo>, page: PageSize, i: nat, drift: nat)
    requires Regular(infos, page) && i < |infos| && ShowsOffset(infos[i], page) && drift == Drift(infos, page, i)
    requires infos[i].fileOffset + drift < TWO32
    ensures |Decoded(infos, page)| == |infos| && Decoded(infos, page)[i].fileOffset == infos[i].fileOffset + drift
  {
    ReportAt(infos, page, i);
    ModuloSmall(infos[i].fileOffset + drift, TWO32);
  }

  /** A first offset a page below, a second a page above the end of the text segment. */
  const PADDED_BACK: seq<SegmentInfo> := [
    SegmentInfo(0, 0x2000, 0, 0x2000, 5, false),
    SegmentInfo(0x2000, 0, 0x1000, 0, 3, false),
    SegmentInfo(0x2000, 0, 0x3000, 0, 3, false),
    SegmentInfo(0x2000, 0x1000, 0x3000, 0x1000, 1, false)]

  lemma {:induction false} PaddedBackIsRegular()
    ensures Regular(PADDED_BACK, 0x1000)
  {
    SmallPages();
    assert VmEnd(PADDED_BACK, 0) == 0 && VmEnd(PADDED_BACK, 1) == VmEnd(PADDED_BACK, 2) == VmEnd(PADDED_BACK, 3) == 0x2000;
  }

  lemma {:induction false} PaddedBackEnds()
    ensures FileEnd(PADDED_BACK, 1) == 0x2000 && FileEnd(PADDED_BACK, 2) == 0x2000
    ensures PADDED_BACK[1].fileOffset == 0x1000 && PADDED_BACK[2].fileOffset == 0x3000
  {
  }

  lemma {:induction false} PagesBackAndForth()
    ensures Move(0x1000, 0x2000, 0x1000) == TWO32 - 0x1000 && Move(0x1000, 0x2000, 0x3000) == 0x1000
  {
    PageMove(0x2000, 0x1000, TWO32 - 0x1000);
    PageMove(0x2000, 0x3000, 0x1000);
  }

  lemma {:induction false} PaddedBackDrifts()
    ensures Drift(PADDED_BACK, 0x1000, 0) == 0 && Drift(PADDED_BACK, 0x1000, 3) == 0
  {
    PaddedBackEnds();
    PagesBackAndForth();
    assert Drift(PADDED_BACK, 0x1000, 0) == Drift(PADDED_BACK, 0x1000, 1) == 0;
    OneDrifts(PADDED_BACK, 0x1000, 1, 2);
    ModuloIsRemainder(TWO32, TWO32);
  }

  /** Harmful paddings can cancel, so one such segment does not make a table wrong. */
  lemma {:induction false} PaddingsCanCancel()
    ensures Regular(PADDED_BACK, 0x1000) && |Decoded(PADDED_BACK, 0x1000)| == |PADDED_BACK|
    ensures !NoPhantomPadding(0x1000, FileEnd(PADDED_BACK, 1), PADDED_BACK[1].fileOffset)
    ensures FileOffsetsRight(PADDED_BACK, 0x1000)
  {
    PaddedBackIsRegular();
    PaddedBackEnds();
    PaddedBackShows();
    FileOffsetsExact(PADDED_BACK, 0x1000);
  }

  lemma {:induction false} PaddedBackShows()
    ensures OffsetsFit(PADDED_BACK, 0x1000) && NoneDrifts(PADDED_BACK, 0x1000)
  {
    SmallPages();
    NoFileSize(0x1000);
    PaddedBackDrifts();
  }

  lemma {:induction false} PageMove(end: nat, offset: nat, move: nat)
    requires end < 0x1_0000 && offset < 0x1_0000 && offset != 0 && offset != end
    requires move == 0x1000 * ((offset - end) % TWO64 / 0x1000 % TWO30) % TWO32
    ensures Move(0x1000, end, offset) == move
  {
    var pages := PaddingPages(0x1000, end, offset);
    OperationsAreStandard(0x1000, pages, offset - end, TWO64);
    OperationsAreStandard(0x1000, (offset - end) % TWO64, (offset - end) % TWO64 / 0x1000, TWO30);
    ModuloIsRemainder(0x1000 * pages, TWO32);
  }

  /** A text segment, and a data segment 4 GiB into the file. */
  const LARGE_FILE: seq<SegmentInfo> := [
    SegmentInfo(0, 0x1000, 0, 0x1000, 5, false),
    SegmentInfo(0x1000, 0x1000, 0x1_0000_0000, 0x1000, 3, false)]

  /** The data segment is reported at another offset: its own does not fit. */
  lemma {:induction false} LargeFileFails()
    ensures Regular(LARGE_FILE, 0x1000) && |Decoded(LARGE_FILE, 0x1000)| == |LARGE_FILE|
    ensures !FileOffsetsRight(LARGE_FILE, 0x1000)
  {
    SmallPages();
    WholePages(0x1000, 0x10_0000);
    assert ShowsOffset(LARGE_FILE[1], 0x1000);
    FileOffsetsExact(LARGE_FILE, 0x1000);
  }
}
