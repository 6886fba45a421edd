/**
 How the scan of an image records its classes: the sections of names and of data
 are put into one table for all images, and a class keeps an index into it.
 */
module ClassSections {
  import opened ClassTable
  import opened Lists

  /** Indices have eight bits, and the last one is reserved. */
  const MAX_SECTIONS: nat := 0xFF

  /** The offsets of the section that has the name and of the one that has the data. */
  datatype Sections = Sections(name: nat, data: nat)

  datatype FoundClass = FoundClass(sections: Sections, nameOffset: nat, dataOffset: nat)

  /** An image as the scan sees it, and whether something else in it makes the scan give up. */
  datatype Scan = Scan(imageNum: nat, classes: seq<FoundClass>, protocols: seq<FoundClass>, isBad: bool)

  /** An entry of the table for all images. */
  datatype SectionEntry = SectionEntry(imageNum: nat, sections: Sections)

  // ----- one image -----

  /** The different sections of the first n classes, in the order in which they are met. */
  function Merged(pairs: seq<Sections>, found: seq<FoundClass>, n: nat): (r: seq<Sections>)
    requires n <= |found|
    ensures pairs <= r
  {
    if n == 0 then pairs
    else
      var before := Merged(pairs, found, n - 1);
      if found[n - 1].sections in before then before else before + [found[n - 1].sections]
  }

  lemma {:induction false} MergedGrows(pairs: seq<Sections>, found: seq<FoundClass>, m: nat, n: nat)
    requires m <= n <= |found|
    ensures Merged(pairs, found, m) <= Merged(pairs, found, n)
  {
    if m < n {
      MergedGrows(pairs, found, m, n - 1);
    }
  }

  function SectionsIn(found: seq<FoundClass>): set<Sections> { set c | c in found :: c.sections }

  /** The sections are those of the classes and those there before, and none is there twice. */
  lemma {:induction false} MergedAre(pairs: seq<Sections>, found: seq<FoundClass>, n: nat)
    requires n <= |found| && Distinct(pairs)
    ensures var merged := Merged(pairs, found, n);
      Distinct(merged) && (set p | p in merged) == (set p | p in pairs) + SectionsIn(found[..n])
  {
    if n > 0 {
      MergedAre(pairs, found, n - 1);
      assert found[..n] == found[..n - 1] + [found[n - 1]];
      assert SectionsIn(found[..n]) == SectionsIn(found[..n - 1]) + {found[n - 1].sections};
      MergeOne(Merged(pairs, found, n - 1), found[n - 1].sections);
    }
  }

  lemma {:induction false} MergeOne(before: seq<Sections>, last: Sections)
    requires Distinct(before)
    ensures last in before ==> (set p | p in before) == (set p | p in before) + {last}
    ensures last !in before ==> Distinct(before + [last]) && (set p | p in before + [last]) == (set p | p in before) + {last}
  {
    assert last in before ==> last in (set p | p in before);
  }

  lemma {:induction false} MergedSize(pairs: seq<Sections>, found: seq<FoundClass>)
    requires Distinct(pairs)
    ensures |Merged(pairs, found, |found|)| == |(set p | p in pairs) + SectionsIn(found)|
  {
    MergedAre(pairs, found, |found|);
    DistinctSize(Merged(pairs, found, |found|));
    assert found[..|found|] == found;
  }

  method SectionIndex(pairs: seq<Sections>, sections: Sections) returns (index: nat)
    ensures index <= |pairs| && sections !in pairs[..index]
    ensures index < |pairs| ==> pairs[index] == sections
  {
    index := 0;
    while index < |pairs|
      invariant index <= |pairs| && sections !in pairs[..index]
    {
      if pairs[index] == sections {
        return;
      }
      index := index + 1;
    }
  }

  /** The class is recorded under the index of its sections. */
  ghost predicate IsRecorded(base: nat, pairs: seq<Sections>, found: FoundClass, seen: SeenClass) {
    && base <= seen.imageIndex < base + |pairs| && pairs[seen.imageIndex - base] == found.sections
    && seen.nameOffset == found.nameOffset && seen.dataOffset == found.dataOffset
  }

  ghost predicate AreRecorded(base: nat, pairs: seq<Sections>, found: seq<FoundClass>, seen: seq<SeenClass>) {
    |seen| == |found| && forall k {:trigger seen[k]} :: 0 <= k < |seen| ==> IsRecorded(base, pairs, found[k], seen[k])
  }

  /** Fails exactly if the sections do not fit into the table behind the `base` entries that it has. */
  method ScanClasses(base: nat, found: seq<FoundClass>, pairs: seq<Sections>)
    returns (ok: bool, seen: seq<SeenClass>, merged: seq<Sections>)
    requires base + |pairs| <= MAX_SECTIONS
    ensures ok <==> base + |Merged(pairs, found, |found|)| <= MAX_SECTIONS
    ensures Distinct(pairs) ==> (ok <==> base + |(set p | p in pairs) + SectionsIn(found)| <= 255)
    ensures ok ==> merged == Merged(pairs, found, |found|) && AreRecorded(base, merged, found, seen)
  {
    merged, seen := pairs, [];
    for n := 0 to |found|
      invariant merged == Merged(pairs, found, n) && base + |merged| <= MAX_SECTIONS
      invariant AreRecorded(base, merged, found[..n], seen)
    {
      var index := SectionIndex(merged, found[n].sections);
      if index == |merged| {
        if |merged| + base == MAX_SECTIONS {
          MergedGrows(pairs, found, n + 1, |found|);
          if Distinct(pairs) {
            MergedSize(pairs, found);
          }
          return false, [], pairs;
        }
        merged := merged + [found[n].sections];
      }
      seen := seen + [SeenClass(index + base, found[n].nameOffset, found[n].dataOffset)];
    }
    assert found[..|found|] == found;
    if Distinct(pairs) {
      MergedSize(pairs, found);
    }
    ok := true;
  }

  function PairsOf(scan: Scan): seq<Sections> {
    Merged(Merged([], scan.classes, |scan.classes|), scan.protocols, |scan.protocols|)
  }

  predicate Gives(base: nat, scan: Scan) { !scan.isBad && base + |PairsOf(scan)| <= MAX_SECTIONS }

  lemma {:induction false} RecordedStays(base: nat, pairs: seq<Sections>, more: seq<Sections>, found: seq<FoundClass>,
                                         seen: seq<SeenClass>)
    requires AreRecorded(base, pairs, found, seen) && pairs <= more
    ensures AreRecorded(base, more, found, seen)
  {
  }

  /** Classes and protocols share the sections of their image. */
  method ScanImage(base: nat, scan: Scan) returns (classes: ObjCImage, protocols: ObjCImage, pairs: seq<Sections>)
    requires base <= MAX_SECTIONS
    ensures classes.hasError == protocols.hasError == !Gives(base, scan)
    ensures Gives(base, scan) ==> pairs == PairsOf(scan)
    ensures Gives(base, scan) ==> AreRecorded(base, pairs, scan.classes, classes.seenClasses)
    ensures Gives(base, scan) ==> AreRecorded(base, pairs, scan.protocols, protocols.seenClasses)
  {
    var ok, seen, merged := ScanClasses(base, scan.classes, []);
    if !ok || scan.isBad {
      return ObjCImage(true, []), ObjCImage(true, []), [];
    }
    var okToo, others, all := ScanClasses(base, scan.protocols, merged);
    if !okToo {
      return ObjCImage(true, []), ObjCImage(true, []), [];
    }
    RecordedStays(base, merged, all, scan.classes, seen);
    return ObjCImage(false, seen), ObjCImage(false, others), all;
  }

  // ----- all images -----

  function EntriesOf(imageNum: nat, pairs: seq<Sections>): seq<SectionEntry> {
    seq(|pairs|, i requires 0 <= i < |pairs| => SectionEntry(imageNum, pairs[i]))
  }

  /** The table after the first n images: an image that fails leaves nothing in it. */
  function TableOf(scans: seq<Scan>, n: nat): seq<SectionEntry>
    requires n <= |scans|
  {
    if n == 0 then []
    else
      var before := TableOf(scans, n - 1);
      if Gives(|before|, scans[n - 1]) then before + EntriesOf(scans[n - 1].imageNum, PairsOf(scans[n - 1])) else before
  }

  lemma {:induction false} TableFits(scans: seq<Scan>, n: nat)
    requires n <= |scans|
    ensures |TableOf(scans, n)| <= MAX_SECTIONS
  {
    if n > 0 {
      TableFits(scans, n - 1);
    }
  }

  predicate Counts(scans: seq<Scan>, m: nat)
    requires m < |scans|
  {
    Gives(|TableOf(scans, m)|, scans[m])
  }

  // ----- which images are kept -----

  /** The different pairs of sections that an image needs. */
  function PairSet(scan: Scan): set<Sections> { SectionsIn(scan.classes) + SectionsIn(scan.protocols) }

  lemma {:induction false} PairsAre(scan: Scan)
    ensures |PairsOf(scan)| == |PairSet(scan)|
  {
    var classes := Merged([], scan.classes, |scan.classes|);
    MergedAre([], scan.classes, |scan.classes|);
    MergedSize(classes, scan.protocols);
    assert scan.classes[..|scan.classes|] == scan.classes;
    assert (set p | p in classes) == SectionsIn(scan.classes);
  }

  /** How many the first m images need, those left out not counted. */
  function PairsBefore(scans: seq<Scan>, m: nat): nat
    requires m <= |scans|
  {
    if m == 0 then 0 else PairsBefore(scans, m - 1) + if Counts(scans, m - 1) then |PairSet(scans[m - 1])| else 0
  }

  lemma {:induction false} TableHasPairs(scans: seq<Scan>, m: nat)
    requires m <= |scans|
    ensures |TableOf(scans, m)| == PairsBefore(scans, m)
  {
    if m > 0 {
      TableHasPairs(scans, m - 1);
      PairsAre(scans[m - 1]);
    }
  }

  /** An image is kept exactly if it is not bad and its pairs, with those of the images kept before it, are at most 255. */
  lemma {:induction false} CountsExactly(scans: seq<Scan>, m: nat)
    requires m < |scans|
    ensures Counts(scans, m) <==> !scans[m].isBad && PairsBefore(scans, m) + |PairSet(scans[m])| <= 255
  {
    TableHasPairs(scans, m);
    PairsAre(scans[m]);
  }

  /** How many pairs the first m images need, all of them counted. */
  function AllPairs(scans: seq<Scan>, m: nat): nat
    requires m <= |scans|
  {
    if m == 0 then 0 else AllPairs(scans, m - 1) + |PairSet(scans[m - 1])|
  }

  lemma {:induction false} PairsBeforeAtMost(scans: seq<Scan>, m: nat, n: nat)
    requires m <= n <= |scans|
    ensures PairsBefore(scans, m) <= AllPairs(scans, m) <= AllPairs(scans, n)
  {
    if m < n {
      PairsBeforeAtMost(scans, m, n - 1);
    } else if m > 0 {
      PairsBeforeAtMost(scans, m - 1, m - 1);
    }
  }

  /** No image is bad, and all together need at most 255 pairs. */
  predicate AllKept(scans: seq<Scan>) {
    (forall m :: 0 <= m < |scans| ==> !scans[m].isBad) && AllPairs(scans, |scans|) <= 255
  }

  /** Then no image is left out. */
  lemma {:induction false} NoneLeftOut(scans: seq<Scan>, m: nat)
    requires m < |scans| && AllKept(scans)
    ensures Counts(scans, m)
  {
    CountsExactly(scans, m);
    PairsBeforeAtMost(scans, m, m);
    PairsBeforeAtMost(scans, m + 1, |scans|);
  }

  /** What the table says about the class is where it was found. */
  predicate Describes(table: seq<SectionEntry>, imageNum: nat, found: FoundClass, seen: SeenClass) {
    && seen.imageIndex < |table| <= MAX_SECTIONS && table[seen.imageIndex] == SectionEntry(imageNum, found.sections)
    && seen.nameOffset == found.nameOffset && seen.dataOffset == found.dataOffset
  }

  ghost predicate DescribesAll(table: seq<SectionEntry>, imageNum: nat, found: seq<FoundClass>, seen: seq<SeenClass>) {
    |seen| == |found| && forall k {:trigger seen[k]} :: 0 <= k < |seen| ==> Describes(table, imageNum, found[k], seen[k])
  }

  lemma {:induction false} RecordedIsDescribed(table: seq<SectionEntry>, imageNum: nat, pairs: seq<Sections>,
                                               found: seq<FoundClass>, seen: seq<SeenClass>)
    requires AreRecorded(|table|, pairs, found, seen) && |table| + |pairs| <= MAX_SECTIONS
    ensures DescribesAll(table + EntriesOf(imageNum, pairs), imageNum, found, seen)
  {
  }

  lemma {:induction false} DescribedStays(table: seq<SectionEntry>, more: seq<SectionEntry>, imageNum: nat,
                                          found: seq<FoundClass>, seen: seq<SeenClass>)
    requires DescribesAll(table, imageNum, found, seen) && table <= more && |more| <= MAX_SECTIONS
    ensures DescribesAll(more, imageNum, found, seen)
  {
  }

  /** The images that did not fail are described by the table. */
  ghost predicate ImageIsDescribed(scans: seq<Scan>, m: nat, table: seq<SectionEntry>, classes: ObjCImage, protocols: ObjCImage)
    requires m < |scans|
  {
    && classes.hasError == protocols.hasError == !Counts(scans, m)
    && (Counts(scans, m) ==>
          && DescribesAll(table, scans[m].imageNum, scans[m].classes, classes.seenClasses)
          && DescribesAll(table, scans[m].imageNum, scans[m].protocols, protocols.seenClasses))
  }

  ghost predicate AreDescribed(scans: seq<Scan>, table: seq<SectionEntry>, classes: seq<ObjCImage>, protocols: seq<ObjCImage>) {
    && |classes| == |protocols| <= |scans|
    && forall m {:trigger classes[m]} :: 0 <= m < |classes| ==> ImageIsDescribed(scans, m, table, classes[m], protocols[m])
  }

  lemma {:induction false} AllStayDescribed(scans: seq<Scan>, table: seq<SectionEntry>, more: seq<SectionEntry>,
                                            classes: seq<ObjCImage>, protocols: seq<ObjCImage>)
    requires AreDescribed(scans, table, classes, protocols) && table <= more && |more| <= MAX_SECTIONS
    ensures AreDescribed(scans, more, classes, protocols)
  {
    forall m {:trigger classes[m]} | 0 <= m < |classes| ensures ImageIsDescribed(scans, m, more, classes[m], protocols[m]) {
      assert ImageIsDescribed(scans, m, table, classes[m], protocols[m]);
      if Counts(scans, m) {
        DescribedStays(table, more, scans[m].imageNum, scans[m].classes, classes[m].seenClasses);
        DescribedStays(table, more, scans[m].imageNum, scans[m].protocols, protocols[m].seenClasses);
      }
    }
  }

  /** Every class of an image that did not fail is described by the table for all images, which never outgrows its indices. */
  method ScanImages(scans: seq<Scan>) returns (classes: seq<ObjCImage>, protocols: seq<ObjCImage>, table: seq<SectionEntry>)
    ensures table == TableOf(scans, |scans|) && |table| <= MAX_SECTIONS
    ensures |classes| == |scans| && AreDescribed(scans, table, classes, protocols)
  {
    classes, protocols, table := [], [], [];
    for n := 0 to |scans|
      invariant table == TableOf(scans, n) && |table| <= MAX_SECTIONS
      invariant |classes| == n && AreDescribed(scans, table, classes, protocols)
    {
      var image, other, pairs := ScanImage(|table|, scans[n]);
      TableFits(scans, n + 1);
      if !image.hasError {
        ghost var more := table + EntriesOf(scans[n].imageNum, pairs);
        RecordedIsDescribed(table, scans[n].imageNum, pairs, scans[n].classes, image.seenClasses);
        RecordedIsDescribed(table, scans[n].imageNum, pairs, scans[n].protocols, other.seenClasses);
        AllStayDescribed(scans, table, more, classes, protocols);
        table := table + EntriesOf(scans[n].imageNum, pairs);
      }
      assert ImageIsDescribed(scans, n, table, image, other);
      classes, protocols := classes + [image], protocols + [other];
    }
  }
}
