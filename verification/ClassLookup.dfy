/** From the scans of the images to the callbacks of a lookup, for classes and for protocols. */
module ClassLookup {
  import opened Maps
  import opened MultiMaps
  import opened ClassTable
  import opened ClassPositions
  import opened ClassSections

  /** A class and the image in which it was found. */
  datatype Located = Located(imageNum: nat, found: FoundClass) {
    function Text(text: (nat, nat) -> string): string { text(imageNum, found.sections.name + found.nameOffset) }

    function Place(base: nat -> nat): nat { base(imageNum) + found.sections.data + found.dataOffset }
  }

  function Listed(scan: Scan, classes: bool): seq<FoundClass> { if classes then scan.classes else scan.protocols }

  function LocatedIn(imageNum: nat, found: seq<FoundClass>): seq<Located> {
    seq(|found|, k requires 0 <= k < |found| => Located(imageNum, found[k]))
  }

  /** What the images from m on have, the last image first; images whose scan failed are left out. */
  function LocatedFrom(scans: seq<Scan>, classes: bool, m: nat): seq<Located>
    requires m <= |scans|
    decreases |scans| - m
  {
    if m == |scans| then []
    else
      LocatedFrom(scans, classes, m + 1)
      + if Counts(scans, m) then LocatedIn(scans[m].imageNum, Listed(scans[m], classes)) else []
  }

  /** Where the classes of the name are, in load order. */
  function Places(located: seq<Located>, text: (nat, nat) -> string, base: nat -> nat, name: string, from: nat): seq<nat>
    requires from <= |located|
    decreases |located| - from
  {
    if from == |located| then []
    else
      (if located[from].Text(text) == name then [located[from].Place(base)] else [])
      + Places(located, text, base, name, from + 1)
  }

  /** How names and data are read with the table. */
  function NameReader(table: seq<SectionEntry>, text: (nat, nat) -> string): NameTarget -> string {
    (t: NameTarget) =>
      if t.imageIndex < |table| then text(table[t.imageIndex].imageNum, table[t.imageIndex].sections.name + t.offset) else ""
  }

  function DataBase(table: seq<SectionEntry>, base: nat -> nat, i: nat): nat {
    if i < |table| then base(table[i].imageNum) + table[i].sections.data else 0
  }

  function DataBases(table: seq<SectionEntry>, base: nat -> nat): nat -> nat {
    (i: nat) => DataBase(table, base, i)
  }

  ghost predicate Match(table: seq<SectionEntry>, seen: seq<SeenClass>, located: seq<Located>) {
    && |seen| == |located|
    && forall i {:trigger seen[i]} :: 0 <= i < |seen| ==> Describes(table, located[i].imageNum, located[i].found, seen[i])
  }

  lemma {:induction false} MatchAppend(table: seq<SectionEntry>, seen: seq<SeenClass>, located: seq<Located>,
                                       more: seq<SeenClass>, imageNum: nat, found: seq<FoundClass>)
    requires Match(table, seen, located) && DescribesAll(table, imageNum, found, more)
    ensures Match(table, seen + more, located + LocatedIn(imageNum, found))
  {
  }

  lemma {:induction false} LoadOrderMatches(scans: seq<Scan>, table: seq<SectionEntry>, classes: seq<ObjCImage>,
                                            protocols: seq<ObjCImage>, isClasses: bool, m: nat)
    requires AreDescribed(scans, table, classes, protocols) && |classes| == |scans| && m <= |scans|
    ensures Match(table, InLoadOrder((if isClasses then classes else protocols)[m..]), LocatedFrom(scans, isClasses, m))
    decreases |scans| - m
  {
    var images := if isClasses then classes else protocols;
    if m < |scans| {
      LoadOrderMatches(scans, table, classes, protocols, isClasses, m + 1);
      assert images[m..][1..] == images[m + 1..];
      assert ImageIsDescribed(scans, m, table, classes[m], protocols[m]);
      if Counts(scans, m) {
        MatchAppend(table, InLoadOrder(images[m + 1..]), LocatedFrom(scans, isClasses, m + 1), images[m].seenClasses,
                    scans[m].imageNum, Listed(scans[m], isClasses));
      }
    }
  }

  lemma {:induction false} MatchReads(table: seq<SectionEntry>, seen: seq<SeenClass>, located: seq<Located>,
                                      text: (nat, nat) -> string, base: nat -> nat, i: nat)
    requires Match(table, seen, located) && i < |seen|
    ensures NameReader(table, text)(seen[i].Name()) == located[i].Text(text)
    ensures Address(seen[i].Data(), DataBases(table, base)) == located[i].Place(base)
    ensures seen[i].imageIndex < 0xFF
  {
    assert Describes(table, located[i].imageNum, located[i].found, seen[i]);
  }

  lemma {:induction false} PlacesAreAddresses(table: seq<SectionEntry>, seen: seq<SeenClass>, located: seq<Located>,
                                              text: (nat, nat) -> string, base: nat -> nat, name: string, from: nat)
    requires Match(table, seen, located) && from <= |seen|
    ensures Addresses(ValuesOf(ClassEntries(seen, NameReader(table, text)), name, from), DataBases(table, base))
            == Places(located, text, base, name, from)
    decreases |seen| - from
  {
    if from < |seen| {
      var nameOf, dataBase := NameReader(table, text), DataBases(table, base);
      var entries := ClassEntries(seen, nameOf);
      MatchReads(table, seen, located, text, base, from);
      PlacesAreAddresses(table, seen, located, text, base, name, from + 1);
      var rest := ValuesOf(entries, name, from + 1);
      if entries[from].key == name {
        assert Addresses([entries[from].value] + rest, dataBase) == [Address(entries[from].value, dataBase)] + Addresses(rest, dataBase);
      }
    }
  }

  /** Different names that occur have different slots. */
  ghost predicate HashesTexts(perfectHash: string -> nat, capacity: nat, located: seq<Located>, text: (nat, nat) -> string) {
    && (forall name: string :: perfectHash(name) < capacity)
    && forall i, j :: 0 <= i < |located| && 0 <= j < |located| && located[i].Text(text) != located[j].Text(text) ==>
         perfectHash(located[i].Text(text)) != perfectHash(located[j].Text(text))
  }

  lemma {:induction false} NamesHash(perfectHash: string -> nat, capacity: nat, table: seq<SectionEntry>,
                                     seen: seq<SeenClass>, located: seq<Located>, text: (nat, nat) -> string,
                                     base: nat -> nat)
    requires Match(table, seen, located) && HashesTexts(perfectHash, capacity, located, text)
    ensures Hashes(perfectHash, capacity, Keys(FirstInserts(NameEntries(seen, NameReader(table, text)))))
  {
    var ops := NameEntries(seen, NameReader(table, text));
    var kept := FirstInserts(ops);
    KeptKeys(ops);
    forall i | 0 <= i < |kept| ensures exists k :: 0 <= k < |located| && located[k].Text(text) == kept[i].key {
      KeptIsInserted(ops, kept[i]);
      var k :| 0 <= k < |ops| && ops[k] == kept[i];
      MatchReads(table, seen, located, text, base, k);
    }
    forall i, j | 0 <= i < |kept| && 0 <= j < |kept| && i != j ensures perfectHash(Keys(kept)[i]) != perfectHash(Keys(kept)[j]) {
      var k :| 0 <= k < |located| && located[k].Text(text) == kept[i].key;
      var l :| 0 <= l < |located| && located[l].Text(text) == kept[j].key;
    }
  }

  function Texts(located: seq<Located>, text: (nat, nat) -> string): seq<string> {
    seq(|located|, i requires 0 <= i < |located| => located[i].Text(text))
  }

  lemma {:induction false} TextsAreNames(images: seq<ObjCImage>, table: seq<SectionEntry>, located: seq<Located>,
                                         text: (nat, nat) -> string, base: nat -> nat)
    requires Match(table, InLoadOrder(images), located)
    ensures Texts(located, text) == Names(images, NameReader(table, text))
  {
    var seen := InLoadOrder(images);
    forall i | 0 <= i < |seen| ensures Texts(located, text)[i] == Names(images, NameReader(table, text))[i] {
      MatchReads(table, seen, located, text, base, i);
    }
  }

  /** The places at some positions. */
  ghost function PlacesAt(located: seq<Located>, positions: seq<nat>, base: nat -> nat): seq<nat>
    requires Within(positions, located)
  {
    seq(|positions|, i requires 0 <= i < |positions| => located[positions[i]].Place(base))
  }

  lemma {:induction false} PlacesAgree(images: seq<ObjCImage>, table: seq<SectionEntry>, located: seq<Located>,
                                       text: (nat, nat) -> string, base: nat -> nat, positions: seq<nat>)
    requires Match(table, InLoadOrder(images), located) && Within(positions, located)
    ensures AddressesAt(images, positions, DataBases(table, base)) == PlacesAt(located, positions, base)
  {
    forall i | 0 <= i < |positions|
      ensures AddressesAt(images, positions, DataBases(table, base))[i] == PlacesAt(located, positions, base)[i]
    {
      MatchReads(table, InLoadOrder(images), located, text, base, positions[i]);
    }
  }

  ghost predicate FewPlaces(located: seq<Located>, text: (nat, nat) -> string, base: nat -> nat) {
    forall name :: |Places(located, text, base, name, 0)| < 0x100
  }

  lemma {:induction false} FewAgree(images: seq<ObjCImage>, table: seq<SectionEntry>, located: seq<Located>,
                                    text: (nat, nat) -> string, base: nat -> nat)
    requires Match(table, InLoadOrder(images), located)
    ensures FewEach(images, NameReader(table, text)) <==> FewPlaces(located, text, base)
  {
    forall name ensures |Places(located, text, base, name, 0)| == |Implementations(images, NameReader(table, text), name)| {
      PlacesAreAddresses(table, InLoadOrder(images), located, text, base, name, 0);
    }
  }

  lemma {:induction false} LocatedHas(scans: seq<Scan>, classes: bool, m: nat, n: nat, k: nat) returns (i: nat)
    requires m <= n < |scans| && Counts(scans, n) && k < |Listed(scans[n], classes)|
    ensures i < |LocatedFrom(scans, classes, m)|
    ensures LocatedFrom(scans, classes, m)[i] == Located(scans[n].imageNum, Listed(scans[n], classes)[k])
    decreases n - m
  {
    if m < n {
      i := LocatedHas(scans, classes, m + 1, n, k);
    } else {
      i := |LocatedFrom(scans, classes, m + 1)| + k;
    }
  }

  lemma {:induction false} PlacesHave(located: seq<Located>, text: (nat, nat) -> string, base: nat -> nat,
                                      name: string, from: nat, i: nat)
    requires from <= i < |located| && located[i].Text(text) == name
    ensures located[i].Place(base) in Places(located, text, base, name, from)
    decreases |located| - from
  {
    if from < i {
      PlacesHave(located, text, base, name, from + 1, i);
    }
  }

  /** The name of the k-th class of an image. */
  function NameAt(scans: seq<Scan>, classes: bool, text: (nat, nat) -> string, m: nat, k: nat): string
    requires m < |scans| && k < |Listed(scans[m], classes)|
  {
    var c := Listed(scans[m], classes)[k];
    text(scans[m].imageNum, c.sections.name + c.nameOffset)
  }

  /** Where that class is. */
  function PlaceOf(scans: seq<Scan>, classes: bool, base: nat -> nat, m: nat, k: nat): nat
    requires m < |scans| && k < |Listed(scans[m], classes)|
  {
    var c := Listed(scans[m], classes)[k];
    base(scans[m].imageNum) + c.sections.data + c.dataOffset
  }

  lemma {:induction false} LocatedAt(located: seq<Located>, scans: seq<Scan>, classes: bool, text: (nat, nat) -> string,
                                     base: nat -> nat, m: nat, k: nat, i: nat)
    requires m < |scans| && k < |Listed(scans[m], classes)| && i < |located|
    requires located[i] == Located(scans[m].imageNum, Listed(scans[m], classes)[k])
    ensures PlaceOf(scans, classes, base, m, k) in Places(located, text, base, NameAt(scans, classes, text, m, k), 0)
  {
    PlacesHave(located, text, base, NameAt(scans, classes, text, m, k), 0, i);
  }

  /** If no image is bad and all need at most 255 pairs of sections, every class of the name in every image is among the places. */
  lemma {:induction false} EveryClassHasItsPlace(scans: seq<Scan>, classes: bool, text: (nat, nat) -> string,
                                                 base: nat -> nat, m: nat, k: nat)
    requires AllKept(scans)
    requires m < |scans| && k < |Listed(scans[m], classes)|
    ensures PlaceOf(scans, classes, base, m, k)
      in Places(LocatedFrom(scans, classes, 0), text, base, NameAt(scans, classes, text, m, k), 0)
  {
    NoneLeftOut(scans, m);
    var i := LocatedHas(scans, classes, 0, m, k);
    LocatedAt(LocatedFrom(scans, classes, 0), scans, classes, text, base, m, k, i);
  }

  /**
   Whatever the images hold: the table is built exactly if no name occurs 256
   times, and a lookup then calls back with the places at the positions found.
   Those are the places of every class or protocol of the name, in load order,
   and nothing else, if fewer than 2^23 duplicates stand before them.
   */
  method ScanThenLookup(scans: seq<Scan>, classes: bool, text: (nat, nat) -> string, base: nat -> nat,
                        hash: string -> nat, perfectHash: string -> nat, capacity: nat, name: string)
    returns (built: bool, calls: seq<nat>)
    requires |LocatedFrom(scans, classes, 0)| <= NEXT_INDEX_LIMIT
    requires HashesTexts(perfectHash, capacity, LocatedFrom(scans, classes, 0), text)
    ensures built <==> FewPlaces(LocatedFrom(scans, classes, 0), text, base)
    ensures built ==>
      var located := LocatedFrom(scans, classes, 0);
      var found := FoundAt(Texts(located, text), name);
      Within(found, located) && calls == PlacesAt(located, found, base)
    ensures built && StartOf(Texts(LocatedFrom(scans, classes, 0), text), name) < 0x80_0000 ==>
      calls == Places(LocatedFrom(scans, classes, 0), text, base, name, 0)
    ensures built && StartOf(Texts(LocatedFrom(scans, classes, 0), text), name) < 0x80_0000 && AllKept(scans) ==>
      forall m, k {:trigger Listed(scans[m], classes)[k]} ::
        0 <= m < |scans| && 0 <= k < |Listed(scans[m], classes)| && NameAt(scans, classes, text, m, k) == name ==>
        PlaceOf(scans, classes, base, m, k) in calls
  {
    var seenClasses, seenProtocols, table := ScanImages(scans);
    var images := if classes then seenClasses else seenProtocols;
    var nameOf, dataBase := NameReader(table, text), DataBases(table, base);
    ghost var seen, located := InLoadOrder(images), LocatedFrom(scans, classes, 0);
    LoadOrderMatches(scans, table, seenClasses, seenProtocols, classes, 0);
    assert images[0..] == images;
    NamesHash(perfectHash, capacity, table, seen, located, text, base);
    forall i | 0 <= i < |seen| ensures seen[i].imageIndex < 0xFF {
      MatchReads(table, seen, located, text, base, i);
    }
    built, calls := BuildThenLookup(images, nameOf, hash, perfectHash, capacity, dataBase, name);
    FewAgree(images, table, located, text, base);
    PlacesAreAddresses(table, seen, located, text, base, name, 0);
    TextsAreNames(images, table, located, text, base);
    if AllKept(scans) {
      forall m, k | 0 <= m < |scans| && 0 <= k < |Listed(scans[m], classes)| && NameAt(scans, classes, text, m, k) == name
        ensures PlaceOf(scans, classes, base, m, k) in Places(located, text, base, name, 0)
      {
        EveryClassHasItsPlace(scans, classes, text, base, m, k);
      }
    }
    if built {
      PlacesAgree(images, table, located, text, base, FoundAt(Texts(located, text), name));
    }
  }

  // ----- an input for which there is no table -----

  /** An image with n classes that share one name. */
  function Crowd(n: nat): Scan {
    Scan(1, seq(n, k requires 0 <= k < n => FoundClass(Sections(0, 0), 0, k)), [], false)
  }

  lemma {:induction false} CrowdMerges(n: nat, k: nat)
    requires 0 < k <= n
    ensures Merged([], Crowd(n).classes, k) == [Sections(0, 0)]
  {
    if k > 1 {
      CrowdMerges(n, k - 1);
    }
  }

  lemma {:induction false} SameNamePlaces(located: seq<Located>, text: (nat, nat) -> string, base: nat -> nat,
                                          name: string, from: nat)
    requires from <= |located| && forall k :: from <= k < |located| ==> located[k].Text(text) == name
    ensures |Places(located, text, base, name, from)| == |located| - from
    decreases |located| - from
  {
    if from < |located| {
      SameNamePlaces(located, text, base, name, from + 1);
    }
  }

  lemma {:induction false} CrowdIsLocated(n: nat)
    requires n > 0
    ensures Counts([Crowd(n)], 0) && LocatedFrom([Crowd(n)], true, 0) == LocatedIn(1, Crowd(n).classes)
  {
    CrowdMerges(n, n);
    assert PairsOf(Crowd(n)) == Merged([Sections(0, 0)], [], 0) == [Sections(0, 0)];
    assert LocatedFrom([Crowd(n)], true, 1) == [];
  }

  /** One image with that many classes of one name: its scan succeeds, but from 256 classes on there is no table. */
  lemma {:induction false} CrowdIsRefused(n: nat, text: (nat, nat) -> string, base: nat -> nat)
    requires n > 0
    ensures Counts([Crowd(n)], 0)
    ensures FewPlaces(LocatedFrom([Crowd(n)], true, 0), text, base) <==> n < 0x100
  {
    CrowdIsLocated(n);
    var located, name := LocatedIn(1, Crowd(n).classes), text(1, 0);
    SameNamePlaces(located, text, base, name, 0);
    if n < 0x100 {
      forall other ensures |Places(located, text, base, other, 0)| < 0x100 {
        PlacesAtMost(located, text, base, other, 0);
      }
    }
  }

  lemma {:induction false} PlacesAtMost(located: seq<Located>, text: (nat, nat) -> string, base: nat -> nat,
                                        name: string, from: nat)
    requires from <= |located|
    ensures |Places(located, text, base, name, from)| <= |located| - from
    decreases |located| - from
  {
    if from < |located| {
      PlacesAtMost(located, text, base, name, from + 1);
    }
  }
}
