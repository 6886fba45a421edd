/**
 The on-disk segment table of an image: page counts with explicit padding
 entries, and the walk that turns it back into offsets and sizes.
 */
module Segments {
  import opened Words

  const TWO30 := 0x4000_0000
  const TWO32 := 0x1_0000_0000
  const VM_PROT_WRITE := 2
  const READ_WRITE := 3

  type PageSize = x: int | x == 0x1000 || x == 0x4000 witness 0x1000

  /** x modulo n, by repeated addition or subtraction: the form in which the proofs use it. */
  ghost function Modulo(x: int, n: int): (r: nat)
    requires n > 0
    ensures r < n
    decreases x < 0, if x < 0 then -x else x
  {
    if x < 0 then Modulo(x + n, n) else if x < n then x else Modulo(x - n, n)
  }

  /** x divided by the page size, by repeated subtraction. */
  ghost function FloorPages(page: PageSize, x: nat): nat { if x < page then 0 else 1 + FloorPages(page, x - page) }

  ghost function Bytes(page: PageSize, n: nat): nat { if n == 0 then 0 else page + Bytes(page, n - 1) }

  ghost function CeilPages(page: PageSize, x: nat): nat { FloorPages(page, x + page - 1) }
  ghost function RoundUp(page: PageSize, x: nat): nat { Bytes(page, CeilPages(page, x)) }
  ghost predicate Aligned(page: PageSize, x: nat) { Bytes(page, FloorPages(page, x)) == x }

  /** The three operations are the machine's quotient, product and remainder. */
  lemma {:induction false} OperationsAreStandard(page: PageSize, x: nat, y: int, n: int)
    requires n > 0
    ensures FloorPages(page, x) == x / page
    ensures Bytes(page, x) == page * x
    ensures Modulo(y, n) == y % n
  {
    FloorIsQuotient(page, x);
    BytesIsProduct(page, x);
    ModuloIsRemainder(y, n);
  }

  lemma {:induction false} FloorIsQuotient(page: PageSize, x: nat)
    ensures FloorPages(page, x) == x / page
  {
    if x >= page {
      FloorIsQuotient(page, x - page);
      RemainderStep(x - page, page);
    } else {
      UniqueQuotient(x, page, 0, x);
    }
  }

  lemma {:induction false} BytesIsProduct(page: PageSize, n: nat)
    ensures Bytes(page, n) == page * n
  {
    if n > 0 {
      BytesIsProduct(page, n - 1);
    }
  }

  lemma {:induction false} ModuloIsRemainder(x: int, n: int)
    requires n > 0
    ensures Modulo(x, n) == x % n
    decreases x < 0, if x < 0 then -x else x
  {
    if x < 0 {
      ModuloIsRemainder(x + n, n);
      RemainderStep(x, n);
    } else if x >= n {
      ModuloIsRemainder(x - n, n);
      RemainderStep(x - n, n);
    } else {
      UniqueQuotient(x, n, 0, x);
    }
  }

  lemma {:induction false} RemainderStep(x: int, n: int)
    requires n > 0
    ensures (x + n) % n == x % n && (x + n) / n == x / n + 1
  {
    var q, r := x / n, x % n;
    assert x + n == (q + 1) * n + r;
    UniqueQuotient(x + n, n, q + 1, r);
  }

  lemma {:induction false} UniqueQuotient(x: int, n: int, q: int, r: int)
    requires 0 <= r < n && x == q * n + r
    ensures x % n == r && x / n == q
  {
    var q' := x / n;
    assert (q' - q) * n == r - x % n;
    assert q' - q >= 1 ==> (q' - q) * n >= n;
    assert q' - q <= -1 ==> (q' - q) * n <= -n;
  }

  datatype SegmentInfo = SegmentInfo(vmAddr: nat, vmSize: nat, fileOffset: nat, fileSize: nat,
                                     protections: nat, readOnlyData: bool)

  /** filePageCount:30, vmPageCount:30, permissions:3, paddingNotSeg:1. */
  datatype DiskSegment = DiskSegment(filePageCount: nat, vmPageCount: nat, permissions: nat, paddingNotSeg: bool)

  // ----- encoder -----

  datatype Table = Table(segs: seq<DiskSegment>, fileEnd: nat, vmEnd: nat)

  /** The pages of padding from one position to another: the field keeps 30 bits of a 64-bit difference. */
  ghost function PaddingPages(page: PageSize, from: nat, to: nat): nat {
    Modulo(FloorPages(page, Modulo(to - from, TWO64)), TWO30)
  }

  ghost function FilePadding(t: Table, page: PageSize, info: SegmentInfo): seq<DiskSegment> {
    if info.fileOffset != 0 && info.fileOffset != t.fileEnd
    then [DiskSegment(PaddingPages(page, t.fileEnd, info.fileOffset), 0, 0, true)] else []
  }

  ghost function VmPadding(t: Table, page: PageSize, info: SegmentInfo): seq<DiskSegment> {
    if t.vmEnd != 0 && info.vmAddr != t.vmEnd
    then [DiskSegment(0, PaddingPages(page, t.vmEnd, info.vmAddr), 0, true)] else []
  }

  ghost function SegmentEntry(page: PageSize, info: SegmentInfo): DiskSegment {
    DiskSegment(Modulo(CeilPages(page, info.fileSize), TWO30), Modulo(CeilPages(page, info.vmSize), TWO30),
                if info.readOnlyData then VM_PROT_WRITE else info.protections % 8, false)
  }

  ghost function AddSegment(t: Table, page: PageSize, info: SegmentInfo): Table {
    Table(t.segs + FilePadding(t, page, info) + VmPadding(t, page, info) + [SegmentEntry(page, info)],
          if info.fileSize != 0 then Modulo(info.fileOffset + info.fileSize, TWO32) else t.fileEnd,
          if info.vmSize != 0 then Modulo(info.vmAddr + info.vmSize, TWO64) else t.vmEnd)
  }

  ghost function Encode(infos: seq<SegmentInfo>, page: PageSize): Table {
    if infos == [] then Table([], 0, 0)
    else AddSegment(Encode(infos[..|infos| - 1], page), page, infos[|infos| - 1])
  }

  method PagesBetween(page: PageSize, from: nat, to: nat) returns (pages: nat)
    ensures pages == PaddingPages(page, from, to)
  {
    OperationsAreStandard(page, Modulo(to - from, TWO64), to - from, TWO64);
    OperationsAreStandard(page, 0, (to - from) % TWO64 / page, TWO30);
    pages := (to - from) % TWO64 / page % TWO30;
  }

  method PagesFor(page: PageSize, size: nat) returns (pages: nat)
    ensures pages == Modulo(CeilPages(page, size), TWO30)
  {
    OperationsAreStandard(page, size + page - 1, CeilPages(page, size), TWO30);
    pages := (size + page - 1) / page % TWO30;
  }

  /** The block of `addSegments` for one segment. */
  method AddOne(before: Table, page: PageSize, info: SegmentInfo) returns (t: Table)
    ensures t == AddSegment(before, page, info)
  {
    var dsegs, fileEnd, vmEnd := before.segs, before.fileEnd, before.vmEnd;
    if info.fileOffset != 0 && info.fileOffset != fileEnd {
      var pages := PagesBetween(page, fileEnd, info.fileOffset);
      dsegs := dsegs + [DiskSegment(pages, 0, 0, true)];
    }
    assert dsegs == before.segs + FilePadding(before, page, info);
    if vmEnd != 0 && info.vmAddr != vmEnd {
      var pages := PagesBetween(page, vmEnd, info.vmAddr);
      dsegs := dsegs + [DiskSegment(0, pages, 0, true)];
    }
    assert dsegs == before.segs + FilePadding(before, page, info) + VmPadding(before, page, info);
    var filePages := PagesFor(page, info.fileSize);
    var vmPages := PagesFor(page, info.vmSize);
    var permissions := info.protections % 8;
    if info.readOnlyData {
      permissions := VM_PROT_WRITE;
    }
    dsegs := dsegs + [DiskSegment(filePages, vmPages, permissions, false)];
    if info.fileSize != 0 {
      OperationsAreStandard(page, 0, info.fileOffset + info.fileSize, TWO32);
      fileEnd := (info.fileOffset + info.fileSize) % TWO32;
    }
    if info.vmSize != 0 {
      OperationsAreStandard(page, 0, info.vmAddr + info.vmSize, TWO64);
      vmEnd := (info.vmAddr + info.vmSize) % TWO64;
    }
    t := Table(dsegs, fileEnd, vmEnd);
  }

  /** The disk-image branch of `addSegments`. */
  method AddSegments(infos: seq<SegmentInfo>, page: PageSize) returns (dsegs: seq<DiskSegment>)
    ensures dsegs == Encode(infos, page).segs
  {
    var t := Table([], 0, 0);
    for n := 0 to |infos|
      invariant t == Encode(infos[..n], page)
    {
      assert infos[..n + 1][..n] == infos[..n];
      t := AddOne(t, page, infos[n]);
    }
    assert infos[..|infos|] == infos;
    dsegs := t.segs;
  }

  // ----- decoder -----

  datatype Report = Report(fileOffset: nat, fileSize: nat, vmOffset: int, vmSize: nat, permissions: nat, laterReadOnly: bool)

  datatype Walker = Walker(out: seq<Report>, fileOffset: nat, vmOffset: int)

  /** The virtual size of everything before the first file-backed entry. */
  ghost function Leading(segs: seq<DiskSegment>, page: PageSize): int {
    if segs == [] || segs[0].filePageCount != 0 then 0
    else Bytes(page, segs[0].vmPageCount) + Leading(segs[1..], page)
  }

  ghost function Step(w: Walker, page: PageSize, seg: DiskSegment): Walker {
    var vmSize, fileSize := Bytes(page, seg.vmPageCount), Modulo(Bytes(page, seg.filePageCount), TWO32);
    var laterRO := seg.permissions == VM_PROT_WRITE;
    Walker(
      if seg.paddingNotSeg then w.out
      else w.out + [Report(if fileSize == 0 then 0 else w.fileOffset, fileSize, w.vmOffset, vmSize,
                           if laterRO then READ_WRITE else seg.permissions, laterRO)],
      Modulo(w.fileOffset + fileSize, TWO32),
      w.vmOffset + vmSize)
  }

  ghost function Walk(segs: seq<DiskSegment>, page: PageSize, start: int): Walker {
    if segs == [] then Walker([], 0, start)
    else Step(Walk(segs[..|segs| - 1], page, start), page, segs[|segs| - 1])
  }

  /** The first loop of `Image::forEachDiskSegment`. */
  method StartOffset(segs: seq<DiskSegment>, page: PageSize) returns (vmOffset: int)
    ensures vmOffset == -Leading(segs, page)
  {
    vmOffset := 0;
    var i := 0;
    while i < |segs| && segs[i].filePageCount == 0
      invariant 0 <= i <= |segs|
      invariant vmOffset - Leading(segs[i..], page) == -Leading(segs, page)
    {
      assert segs[i..][1..] == segs[i + 1..];
      BytesIsProduct(page, segs[i].vmPageCount);
      vmOffset := vmOffset - page * segs[i].vmPageCount;
      i := i + 1;
    }
  }

  method WalkOne(before: Walker, page: PageSize, seg: DiskSegment) returns (w: Walker)
    ensures w == Step(before, page, seg)
  {
    var out := before.out;
    OperationsAreStandard(page, seg.vmPageCount, page * seg.filePageCount, TWO32);
    OperationsAreStandard(page, seg.filePageCount, before.fileOffset + page * seg.filePageCount % TWO32, TWO32);
    var vmSize, fileSize := page * seg.vmPageCount, page * seg.filePageCount % TWO32;
    if !seg.paddingNotSeg {
      var perms, laterRO := seg.permissions, false;
      if perms == VM_PROT_WRITE {
        perms, laterRO := READ_WRITE, true;
      }
      out := out + [Report(if fileSize == 0 then 0 else before.fileOffset, fileSize, before.vmOffset, vmSize, perms, laterRO)];
    }
    w := Walker(out, (before.fileOffset + fileSize) % TWO32, before.vmOffset + vmSize);
  }

  /** `Image::forEachDiskSegment`, with a handler that never stops; the i-th report has segment index i. */
  method ForEachDiskSegment(segs: seq<DiskSegment>, page: PageSize) returns (out: seq<Report>)
    ensures out == Walk(segs, page, -Leading(segs, page)).out
  {
    var start := StartOffset(segs, page);
    var w := Walker([], 0, start);
    for n := 0 to |segs|
      invariant w == Walk(segs[..n], page, start)
    {
      assert segs[..n + 1][..n] == segs[..n];
      w := WalkOne(w, page, segs[n]);
    }
    assert segs[..|segs|] == segs;
    out := w.out;
  }
}
