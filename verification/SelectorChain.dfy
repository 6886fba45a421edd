/**
 The chain encoding of selector-reference fixups: untagged 32-bit words that are
 either the start offset of a chain or an entry of one.
 */
module SelectorChain {
  import opened Lists

  const TWO24 := 0x100_0000
  const TWO31 := 0x8000_0000
  const TWO64 := 0x1_0000_0000_0000_0000
  const MAX_CHAIN_OFFSET := 4 * 127

  type u24 = x: int | 0 <= x < 0x100_0000
  type u32 = x: int | 0 <= x < 0x1_0000_0000
  type u7 = x: int | 0 <= x < 128

  datatype SelectorFixup = SelectorFixup(offset: u32, index: u24, inSharedCache: bool)

  /** index:24, next:7, inSharedCache:1. */
  function EntryWord(index: u24, next: u7, inSharedCache: bool): u32 {
    index + next * TWO24 + if inSharedCache then TWO31 else 0
  }

  function Index(w: u32): u24 { w % TWO24 }
  function Next(w: u32): u7 { w / TWO24 % 128 }
  predicate InSharedCache(w: u32) { w >= TWO31 }

  lemma {:induction false} WordFields(index: u24, next: u7, inSharedCache: bool)
    ensures var w := EntryWord(index, next, inSharedCache);
      Index(w) == index && Next(w) == next && InSharedCache(w) == inSharedCache
  {
  }

  function SetNext(w: u32, next: u7): u32 { EntryWord(Index(w), next, InSharedCache(w)) }

  // ----- encoder -----

  /** The unsigned 64-bit distance from the previous fixup. */
  function Distance(previous: u32, offset: u32): nat { (offset - previous) % TWO64 }

  predicate Links(previous: u32, offset: u32) { Distance(previous, offset) <= MAX_CHAIN_OFFSET }

  function LastOffset(fixups: seq<SelectorFixup>): u32 {
    if fixups == [] then 0 else fixups[|fixups| - 1].offset
  }

  /** One iteration of the encoder; None where an assertion stops it. */
  function ChainStep(words: seq<u32>, previous: u32, f: SelectorFixup): Option<seq<u32>> {
    var entry := EntryWord(f.index, 0, f.inSharedCache);
    if f.offset % 4 != 0 then None
    else if Links(previous, f.offset) then
      if words == [] then None
      else Some(words[|words| - 1 := SetNext(words[|words| - 1], Distance(previous, f.offset) / 4)] + [entry])
    else Some(words + [f.offset] + [entry])
  }

  function EncodeChains(fixups: seq<SelectorFixup>): Option<seq<u32>> {
    if fixups == [] then Some([])
    else
      var front := fixups[..|fixups| - 1];
      match EncodeChains(front)
      case None => None
      case Some(words) => ChainStep(words, LastOffset(front), fixups[|fixups| - 1])
  }

  /** The selector part of `optimizeObjC`; `ok` is false where an assertion stops it. */
  method WriteSelectorFixups(fixups: seq<SelectorFixup>) returns (ok: bool, words: seq<u32>)
    ensures EncodeChains(fixups) == if ok then Some(words) else None
  {
    words, ok := [], true;
    var previous: u32 := 0;
    for n := 0 to |fixups|
      invariant ok && EncodeChains(fixups[..n]) == Some(words) && previous == LastOffset(fixups[..n])
    {
      assert fixups[..n + 1][..n] == fixups[..n];
      var f := fixups[n];
      var distance := (f.offset - previous) % TWO64;
      if f.offset % 4 != 0 || (distance <= MAX_CHAIN_OFFSET && words == []) {
        ChainPrefixFails(fixups, n + 1);
        return false, [];
      }
      if distance <= MAX_CHAIN_OFFSET {
        words := words[|words| - 1 := SetNext(words[|words| - 1], distance / 4)];
      } else {
        words := words + [f.offset];
      }
      words := words + [EntryWord(f.index, 0, f.inSharedCache)];
      previous := f.offset;
    }
    assert fixups[..|fixups|] == fixups;
  }

  lemma {:induction false} ChainPrefixFails(fixups: seq<SelectorFixup>, n: nat)
    requires n <= |fixups| && EncodeChains(fixups[..n]) == None
    ensures EncodeChains(fixups) == None
    decreases |fixups| - n
  {
    if n < |fixups| {
      assert fixups[..n + 1][..n] == fixups[..n];
      ChainPrefixFails(fixups, n + 1);
    } else {
      assert fixups[..n] == fixups;
    }
  }

  // ----- decoder -----

  /** What the decoder reports: the offset is 64 bits wide. */
  datatype Report = Report(offset: nat, index: u24, inSharedCache: bool)

  datatype Mode = AtStart | InChain(cur: nat)

  datatype Reader = Reader(out: seq<Report>, mode: Mode)

  function Read(r: Reader, w: u32): Reader {
    match r.mode
    case AtStart => r.(mode := InChain(w))
    case InChain(cur) =>
      Reader(r.out + [Report(cur, Index(w), InSharedCache(w))],
             if Next(w) == 0 then AtStart else InChain((cur + 4 * Next(w)) % TWO64))
  }

  function ReadAll(words: seq<u32>): Reader {
    if words == [] then Reader([], AtStart)
    else Read(ReadAll(words[..|words| - 1]), words[|words| - 1])
  }

  /** The reports of the decoder, or None where it asks for a word past the end. */
  function DecodeChains(words: seq<u32>): Option<seq<Report>> {
    var r := ReadAll(words);
    if r.mode == AtStart then Some(r.out) else None
  }

  /** The selector part of `Image::forEachFixup`, with a handler that never stops. */
  method ForEachSelectorFixup(words: seq<u32>) returns (ok: bool, out: seq<Report>)
    ensures DecodeChains(words) == if ok then Some(out) else None
  {
    out, ok := [], true;
    var i := 0;
    while i != |words|
      invariant 0 <= i <= |words| && ok
      invariant Reader(out, AtStart) == ReadAll(words[..i])
    {
      var entry := words[i];
      var cur: nat := entry;
      var more := true;
      ghost var before := i;
      assert words[..i + 1][..i] == words[..i];
      while more
        invariant before <= i < |words|
        invariant ReadAll(words[..i + 1]) == Reader(out, if more then InChain(cur) else AtStart)
        decreases |words| - i, more
      {
        i := i + 1;
        if i == |words| {
          assert words[..i] == words;
          return false, [];
        }
        assert words[..i + 1][..i] == words[..i];
        entry := words[i];
        out := out + [Report(cur, Index(entry), InSharedCache(entry))];
        if Next(entry) == 0 {
          more := false;
        } else {
          cur := (cur + 4 * Next(entry)) % TWO64;
        }
      }
      i := i + 1;
    }
    assert words[..i] == words;
  }

  // ----- round trip -----

  function Expected(fixups: seq<SelectorFixup>): (r: seq<Report>)
    ensures |r| == |fixups|
    ensures forall i :: 0 <= i < |r| ==> r[i] == Report(fixups[i].offset, fixups[i].index, fixups[i].inSharedCache)
  {
    seq(|fixups|, i requires 0 <= i < |fixups| => Report(fixups[i].offset, fixups[i].index, fixups[i].inSharedCache))
  }

  ghost predicate NoImmediateRepeat(fixups: seq<SelectorFixup>) {
    forall i :: 0 <= i < |fixups| - 1 ==> fixups[i].offset != fixups[i + 1].offset
  }

  lemma {:induction false} ReadSnoc(words: seq<u32>, w: u32)
    ensures ReadAll(words + [w]) == Read(ReadAll(words), w)
  {
    assert (words + [w])[..|words|] == words;
  }

  /** The words of fixups read back as the fixups, the last word being the entry of the last one. */
  ghost predicate ReadsBack(words: seq<u32>, fixups: seq<SelectorFixup>) {
    var n, k := |fixups| - 1, |words| - 1;
    && n >= 0 && k >= 0
    && words[k] == EntryWord(fixups[n].index, 0, fixups[n].inSharedCache)
    && ReadAll(words[..k]) == Reader(Expected(fixups[..n]), InChain(fixups[n].offset))
  }

  lemma {:induction false} ReadsBackComplete(words: seq<u32>, fixups: seq<SelectorFixup>)
    requires ReadsBack(words, fixups)
    ensures ReadAll(words) == Reader(Expected(fixups), AtStart)
  {
    var n := |fixups| - 1;
    WordFields(fixups[n].index, 0, fixups[n].inSharedCache);
    assert Expected(fixups) == Expected(fixups[..n]) + [Report(fixups[n].offset, fixups[n].index, fixups[n].inSharedCache)];
  }

  lemma {:induction false} LinkedStep(words: seq<u32>, fixups: seq<SelectorFixup>, f: SelectorFixup)
    requires ReadsBack(words, fixups) && f.offset % 4 == 0 && LastOffset(fixups) % 4 == 0
    requires Links(LastOffset(fixups), f.offset) && f.offset != LastOffset(fixups)
    ensures ChainStep(words, LastOffset(fixups), f).Some?
    ensures ReadsBack(ChainStep(words, LastOffset(fixups), f).value, fixups + [f])
  {
    var n, k := |fixups| - 1, |words| - 1;
    var last := fixups[n];
    var next := Distance(last.offset, f.offset) / 4;
    assert 1 <= next <= 127 && (last.offset + 4 * next) % TWO64 == f.offset;
    WordFields(last.index, 0, last.inSharedCache);
    WordFields(last.index, next, last.inSharedCache);
    var linked := words[k := SetNext(words[k], next)];
    assert linked == words[..k] + [EntryWord(last.index, next, last.inSharedCache)];
    ReadSnoc(words[..k], EntryWord(last.index, next, last.inSharedCache));
    assert Expected(fixups) == Expected(fixups[..n]) + [Report(last.offset, last.index, last.inSharedCache)];
    assert (fixups + [f])[..n + 1] == fixups;
  }

  lemma {:induction false} BehindStart(words: seq<u32>, start: u32, entry: u32)
    ensures (words + [start] + [entry])[..|words| + 1] == words + [start]
    ensures ReadAll(words + [start]) == Read(ReadAll(words), start)
  {
    ReadSnoc(words, start);
  }

  lemma {:induction false} StartStep(words: seq<u32>, fixups: seq<SelectorFixup>, f: SelectorFixup)
    requires ReadAll(words) == Reader(Expected(fixups), AtStart) && f.offset % 4 == 0
    requires !Links(LastOffset(fixups), f.offset)
    ensures ChainStep(words, LastOffset(fixups), f).Some?
    ensures ReadsBack(ChainStep(words, LastOffset(fixups), f).value, fixups + [f])
  {
    var entry := EntryWord(f.index, 0, f.inSharedCache);
    BehindStart(words, f.offset, entry);
    assert (fixups + [f])[..|fixups|] == fixups;
  }

  /** What the encoder asserts: aligned offsets, and a first one that the zero start cannot reach. */
  ghost predicate Acceptable(fixups: seq<SelectorFixup>) {
    && (forall f :: f in fixups ==> f.offset % 4 == 0)
    && (fixups != [] ==> fixups[0].offset > 508)
  }

  lemma {:induction false} AcceptedIffAcceptable(fixups: seq<SelectorFixup>)
    ensures EncodeChains(fixups).Some? <==> Acceptable(fixups)
    ensures EncodeChains(fixups).Some? && fixups != [] ==> EncodeChains(fixups).value != []
  {
    if fixups != [] {
      var n := |fixups| - 1;
      var front := fixups[..n];
      AcceptedIffAcceptable(front);
      assert fixups == front + [fixups[n]];
      if n > 0 {
        assert fixups[0] == front[0];
      }
      if Acceptable(fixups) {
        assert fixups[n] in fixups;
        assert forall f :: f in front ==> f in fixups;
      }
    }
  }

  /** One more fixup at another offset is read back behind the others. */
  lemma {:induction false} ReadsBackStep(words: seq<u32>, front: seq<SelectorFixup>, f: SelectorFixup)
    requires ReadsBack(words, front) && f.offset % 4 == 0 && LastOffset(front) % 4 == 0 && f.offset != LastOffset(front)
    ensures ChainStep(words, LastOffset(front), f).Some?
    ensures ReadsBack(ChainStep(words, LastOffset(front), f).value, front + [f])
  {
    if Links(LastOffset(front), f.offset) {
      LinkedStep(words, front, f);
    } else {
      ReadsBackComplete(words, front);
      StartStep(words, front, f);
    }
  }

  lemma {:induction false} FrontIsAcceptable(fixups: seq<SelectorFixup>, n: nat)
    requires Acceptable(fixups) && NoImmediateRepeat(fixups) && 0 < n == |fixups| - 1
    ensures Acceptable(fixups[..n]) && NoImmediateRepeat(fixups[..n])
    ensures fixups[n].offset % 4 == 0 && LastOffset(fixups[..n]) % 4 == 0 && fixups[n].offset != LastOffset(fixups[..n])
  {
    forall g | g in fixups[..n] ensures g.offset % 4 == 0 {
      assert g in fixups;
    }
    assert fixups[n] in fixups && fixups[n - 1] in fixups;
    assert fixups[n - 1].offset != fixups[n - 1 + 1].offset;
  }

  lemma {:induction false} EncodedFirst(f: SelectorFixup)
    requires f.offset % 4 == 0 && f.offset > MAX_CHAIN_OFFSET
    ensures EncodeChains([f]).Some? && ReadsBack(EncodeChains([f]).value, [f])
  {
    assert [f][..0] == [] && [] + [f] == [f];
    StartStep([], [], f);
  }

  lemma {:induction false} EncodedNext(front: seq<SelectorFixup>, f: SelectorFixup, words: seq<u32>)
    requires EncodeChains(front) == Some(words) && ReadsBack(words, front)
    requires f.offset % 4 == 0 && LastOffset(front) % 4 == 0 && f.offset != LastOffset(front)
    ensures EncodeChains(front + [f]).Some? && ReadsBack(EncodeChains(front + [f]).value, front + [f])
  {
    assert (front + [f])[..|front|] == front;
    ReadsBackStep(words, front, f);
  }

  lemma {:induction false} EncodedReadsBack(fixups: seq<SelectorFixup>)
    requires fixups != [] && Acceptable(fixups) && NoImmediateRepeat(fixups)
    ensures EncodeChains(fixups).Some? && ReadsBack(EncodeChains(fixups).value, fixups)
  {
    var n := |fixups| - 1;
    if n > 0 {
      FrontIsAcceptable(fixups, n);
      EncodedReadsBack(fixups[..n]);
      EncodedNext(fixups[..n], fixups[n], EncodeChains(fixups[..n]).value);
      assert fixups[..n] + [fixups[n]] == fixups;
    } else {
      assert fixups[0] in fixups;
      EncodedFirst(fixups[0]);
      assert [fixups[0]] == fixups;
    }
  }

  // ----- a repeated offset cannot be recovered from -----

  lemma {:induction false} AcceptablePrefix(fixups: seq<SelectorFixup>, n: nat)
    requires Acceptable(fixups) && n <= |fixups|
    ensures Acceptable(fixups[..n])
  {
    assert forall f :: f in fixups[..n] ==> f in fixups;
    assert n > 0 ==> fixups[..n][0] == fixups[0];
  }

  /** The words of the first n fixups. */
  ghost function WordsOf(fixups: seq<SelectorFixup>, n: nat): seq<u32>
    requires Acceptable(fixups) && n <= |fixups|
  {
    AcceptablePrefix(fixups, n);
    AcceptedIffAcceptable(fixups[..n]);
    EncodeChains(fixups[..n]).value
  }

  /** One more fixup rewrites the last word at most, and adds an entry, after a start where it does not link. */
  lemma {:induction false} WordsStep(fixups: seq<SelectorFixup>, n: nat)
    requires Acceptable(fixups) && 0 < n < |fixups|
    ensures var before, after := WordsOf(fixups, n), WordsOf(fixups, n + 1);
      var k, f := |before|, fixups[n];
      && 0 < k < |after|
      && after[..k - 1] == before[..k - 1]
      && (if Links(fixups[n - 1].offset, f.offset)
          then |after| == k + 1 && after[k - 1] == SetNext(before[k - 1], Distance(fixups[n - 1].offset, f.offset) / 4)
          else |after| == k + 2 && after[k] == f.offset)
      && after[|after| - 1] == EntryWord(f.index, 0, f.inSharedCache)
  {
    AcceptablePrefix(fixups, n);
    AcceptablePrefix(fixups, n + 1);
    AcceptedIffAcceptable(fixups[..n]);
    AcceptedIffAcceptable(fixups[..n + 1]);
    assert fixups[..n + 1][..n] == fixups[..n];
  }

  lemma {:induction false} ShorterPrefix(a: seq<u32>, b: seq<u32>, j: nat, k: nat)
    requires k <= j <= |a| && j <= |b| && a[..j] == b[..j]
    ensures a[..k] == b[..k]
  {
    assert a[..j][..k] == b[..j][..k];
  }

  /** How many words one more fixup takes, and which of the others stay. */
  lemma {:induction false} WordsGrow(fixups: seq<SelectorFixup>, n: nat)
    requires Acceptable(fixups) && 0 < n < |fixups|
    ensures var before, after := WordsOf(fixups, n), WordsOf(fixups, n + 1);
      && 0 < |before| && |after| == |before| + (if Links(fixups[n - 1].offset, fixups[n].offset) then 1 else 2)
      && after[..|before| - 1] == before[..|before| - 1]
  {
    WordsStep(fixups, n);
  }

  /** Up to its entry word, the words of a prefix of the fixups stay as they are. */
  lemma {:induction false} WordsPrefix(fixups: seq<SelectorFixup>, n: nat, m: nat)
    requires Acceptable(fixups) && 0 < n <= m <= |fixups|
    ensures var k := |WordsOf(fixups, n)| - 1;
      0 <= k < |WordsOf(fixups, m)| && WordsOf(fixups, m)[..k] == WordsOf(fixups, n)[..k]
    decreases m
  {
    if n < m {
      WordsPrefix(fixups, n, m - 1);
      WordsGrow(fixups, m - 1);
      var first, before, after := WordsOf(fixups, n), WordsOf(fixups, m - 1), WordsOf(fixups, m);
      ShorterPrefix(after, before, |before| - 1, |first| - 1);
    } else {
      AcceptablePrefix(fixups, n);
      AcceptedIffAcceptable(fixups[..n]);
    }
  }

  lemma {:induction false} ReadPrefix(words: seq<u32>, i: nat)
    requires i <= |words|
    ensures var out := ReadAll(words[..i]).out;
      |out| <= |ReadAll(words).out| && ReadAll(words).out[..|out|] == out
    ensures |ReadAll(words).out| <= |ReadAll(words[..i]).out| + (|words| - i)
  {
    if i < |words| {
      var front := words[..|words| - 1];
      ReadPrefix(front, i);
      assert front[..i] == words[..i];
    } else {
      assert words[..i] == words;
    }
  }

  /** After the entry word of fixup j, at most j reports have been made. */
  ghost predicate Behind(fixups: seq<SelectorFixup>, j: nat)
    requires Acceptable(fixups) && j < |fixups|
  {
    var words, k := WordsOf(fixups, |fixups|), |WordsOf(fixups, j + 1)|;
    k <= |words| && |ReadAll(words[..k]).out| <= j
  }

  lemma {:induction false} ReadTwo(words: seq<u32>, k: nat)
    requires k + 2 <= |words|
    ensures ReadAll(words[..k + 1]) == Read(ReadAll(words[..k]), words[k])
    ensures ReadAll(words[..k + 2]) == Read(Read(ReadAll(words[..k]), words[k]), words[k + 1])
  {
    assert words[..k + 1] == words[..k] + [words[k]];
    assert words[..k + 2] == words[..k + 1] + [words[k + 1]];
    ReadSnoc(words[..k], words[k]);
    ReadSnoc(words[..k + 1], words[k + 1]);
  }

  /** Two reports in a row without a start between them are linked offsets. */
  lemma {:induction false} ReportedPairLinks(words: seq<u32>, k: nat, fixups: seq<SelectorFixup>, j: nat)
    requires k + 2 <= |words| && j + 1 < |fixups| && ReadAll(words).out == Expected(fixups)
    requires |ReadAll(words[..k]).out| == j && |ReadAll(words[..k + 2]).out| == j + 2
    ensures Links(fixups[j].offset, fixups[j + 1].offset)
  {
    ReadTwo(words, k);
    ReadPrefix(words, k + 2);
    var out := ReadAll(words[..k + 2]).out;
    assert out[j] == Expected(fixups)[j] && out[j + 1] == Expected(fixups)[j + 1];
    BothReported(ReadAll(words[..k]), words[k], words[k + 1]);
    LinkDistance(fixups[j].offset, fixups[j + 1].offset, Next(words[k]));
  }

  lemma {:induction false} BothReported(r: Reader, v: u32, w: u32)
    ensures var after := Read(Read(r, v), w);
      |after.out| == |r.out| + 2 ==>
        after.out[|r.out| + 1].offset == (after.out[|r.out|].offset + 4 * Next(v)) % TWO64
  {
  }

  lemma {:induction false} LinkDistance(a: u32, b: u32, next: u7)
    requires (a + 4 * next) % TWO64 == b
    ensures Links(a, b)
  {
    assert a + 4 * next == b;
    assert Distance(a, b) == 4 * next;
  }

  lemma {:induction false} ReadGrows(words: seq<u32>, k: nat, d: nat)
    requires k + d <= |words|
    ensures |ReadAll(words[..k + d]).out| <= |ReadAll(words[..k]).out| + d
  {
    ReadPrefix(words[..k + d], k);
    assert words[..k + d][..k] == words[..k];
  }

  lemma {:induction false} UnlinkedStaysBehind(words: seq<u32>, k: nat, fixups: seq<SelectorFixup>, j: nat)
    requires k + 2 <= |words| && j + 1 < |fixups| && ReadAll(words).out == Expected(fixups)
    requires |ReadAll(words[..k]).out| <= j && !Links(fixups[j].offset, fixups[j + 1].offset)
    ensures |ReadAll(words[..k + 2]).out| <= j + 1
  {
    ReadGrows(words, k, 2);
    if |ReadAll(words[..k]).out| == j && |ReadAll(words[..k + 2]).out| == j + 2 {
      ReportedPairLinks(words, k, fixups, j);
    }
  }

  lemma {:induction false} BehindStep(fixups: seq<SelectorFixup>, j: nat)
    requires Acceptable(fixups) && j + 1 < |fixups| && Behind(fixups, j)
    requires ReadAll(WordsOf(fixups, |fixups|)).out == Expected(fixups)
    ensures Behind(fixups, j + 1)
  {
    var words, k := WordsOf(fixups, |fixups|), |WordsOf(fixups, j + 1)|;
    WordsGrow(fixups, j + 1);
    WordsPrefix(fixups, j + 2, |fixups|);
    if Links(fixups[j].offset, fixups[j + 1].offset) {
      ReadGrows(words, k, 1);
    } else {
      UnlinkedStaysBehind(words, k, fixups, j);
    }
  }

  lemma {:induction false} BehindAtEnd(fixups: seq<SelectorFixup>, j: nat)
    requires Acceptable(fixups) && j + 1 == |fixups| && Behind(fixups, j)
    ensures |ReadAll(WordsOf(fixups, |fixups|)).out| < |fixups|
  {
    var words := WordsOf(fixups, |fixups|);
    assert words[..|words|] == words;
  }

  lemma {:induction false} BehindForever(fixups: seq<SelectorFixup>, j: nat)
    requires Acceptable(fixups) && j < |fixups| && Behind(fixups, j)
    ensures ReadAll(WordsOf(fixups, |fixups|)).out != Expected(fixups)
    decreases |fixups| - j
  {
    if j + 1 == |fixups| {
      BehindAtEnd(fixups, j);
    } else if ReadAll(WordsOf(fixups, |fixups|)).out == Expected(fixups) {
      BehindStep(fixups, j);
      BehindForever(fixups, j + 1);
    }
  }

  /** The entry of a repeated offset is taken for the start of a chain. */
  lemma {:induction false} RepeatFallsBehind(fixups: seq<SelectorFixup>, r: nat)
    requires Acceptable(fixups) && r + 1 < |fixups| && fixups[r].offset == fixups[r + 1].offset
    requires NoImmediateRepeat(fixups[..r + 1])
    ensures Behind(fixups, r + 1)
  {
    var words, wr := WordsOf(fixups, |fixups|), WordsOf(fixups, r + 1);
    AcceptablePrefix(fixups, r + 1);
    EncodedReadsBack(fixups[..r + 1]);
    ReadsBackComplete(wr, fixups[..r + 1]);
    RepeatKeepsWords(fixups, r);
    assert words[..|wr| + 1] == wr + [words[|wr|]];
    ReadSnoc(wr, words[|wr|]);
    WordsStep(fixups, r + 1);
  }

  lemma {:induction false} LinkToItself(index: u24, inSharedCache: bool)
    ensures SetNext(EntryWord(index, 0, inSharedCache), 0) == EntryWord(index, 0, inSharedCache)
  {
    WordFields(index, 0, inSharedCache);
  }

  lemma {:induction false} SamePrefix(a: seq<u32>, b: seq<u32>)
    requires 0 < |a| <= |b| && b[..|a| - 1] == a[..|a| - 1] && b[|a| - 1] == a[|a| - 1]
    ensures b[..|a|] == a
  {
    assert b[..|a|] == b[..|a| - 1] + [b[|a| - 1]] && a == a[..|a| - 1] + [a[|a| - 1]];
  }

  /** A link of length zero leaves the word as it is. */
  lemma {:induction false} RepeatRewrites(wr: seq<u32>, wr': seq<u32>, f: SelectorFixup)
    requires 0 < |wr| < |wr'| && wr'[..|wr| - 1] == wr[..|wr| - 1]
    requires wr[|wr| - 1] == EntryWord(f.index, 0, f.inSharedCache)
    requires wr'[|wr| - 1] == SetNext(wr[|wr| - 1], Distance(f.offset, f.offset) / 4)
    ensures wr'[..|wr|] == wr
  {
    LinkToItself(f.index, f.inSharedCache);
    SamePrefix(wr, wr');
  }

  lemma {:induction false} RepeatAddsEntry(fixups: seq<SelectorFixup>, r: nat)
    requires Acceptable(fixups) && r + 1 < |fixups| && fixups[r].offset == fixups[r + 1].offset
    requires ReadsBack(WordsOf(fixups, r + 1), fixups[..r + 1])
    ensures var wr, wr' := WordsOf(fixups, r + 1), WordsOf(fixups, r + 2);
      |wr'| == |wr| + 1 && wr'[..|wr|] == wr
  {
    WordsStep(fixups, r + 1);
    RepeatRewrites(WordsOf(fixups, r + 1), WordsOf(fixups, r + 2), fixups[r]);
  }

  lemma {:induction false} RepeatKeepsWords(fixups: seq<SelectorFixup>, r: nat)
    requires Acceptable(fixups) && r + 1 < |fixups| && fixups[r].offset == fixups[r + 1].offset
    requires ReadsBack(WordsOf(fixups, r + 1), fixups[..r + 1])
    ensures var words, wr := WordsOf(fixups, |fixups|), WordsOf(fixups, r + 1);
      |wr| < |words| && words[..|wr|] == wr && |WordsOf(fixups, r + 2)| == |wr| + 1
  {
    RepeatAddsEntry(fixups, r);
    WordsPrefix(fixups, r + 2, |fixups|);
  }

  lemma {:induction false} FirstRepeat(fixups: seq<SelectorFixup>) returns (r: nat)
    requires !NoImmediateRepeat(fixups)
    ensures r + 1 < |fixups| && fixups[r].offset == fixups[r + 1].offset && NoImmediateRepeat(fixups[..r + 1])
  {
    var i :| 0 <= i < |fixups| - 1 && fixups[i].offset == fixups[i + 1].offset;
    r := 0;
    while fixups[r].offset != fixups[r + 1].offset
      invariant 0 <= r <= i && NoImmediateRepeat(fixups[..r + 1])
      decreases i - r
    {
      r := r + 1;
    }
  }

  ghost predicate RoundTrips(fixups: seq<SelectorFixup>) {
    EncodeChains(fixups).Some? && DecodeChains(EncodeChains(fixups).value) == Some(Expected(fixups))
  }

  /**
   The exact condition for the round trip: aligned offsets, the first one above
   508, and no two equal offsets in a row. Without it an assertion stops the
   encoder, or the decoder loses a fixup or reads past the end.
   */
  lemma {:induction false} SelectorRoundTrip(fixups: seq<SelectorFixup>)
    ensures RoundTrips(fixups) <==> Acceptable(fixups) && NoImmediateRepeat(fixups)
  {
    AcceptedIffAcceptable(fixups);
    assert fixups[..|fixups|] == fixups;
    if Acceptable(fixups) && fixups != [] {
      if NoImmediateRepeat(fixups) {
        EncodedReadsBack(fixups);
        ReadsBackComplete(EncodeChains(fixups).value, fixups);
      } else if RoundTrips(fixups) {
        RepeatLosesAFixup(fixups);
      }
    }
  }

  lemma {:induction false} RepeatLosesAFixup(fixups: seq<SelectorFixup>)
    requires Acceptable(fixups) && !NoImmediateRepeat(fixups)
    ensures ReadAll(WordsOf(fixups, |fixups|)).out != Expected(fixups)
  {
    var r := FirstRepeat(fixups);
    RepeatFallsBehind(fixups, r);
    BehindForever(fixups, r + 1);
  }

  /** One fixup at an early or a misaligned offset stops the encoder. */
  lemma {:induction false} LoneFixupRefused(f: SelectorFixup)
    ensures EncodeChains([f]).None? <==> f.offset <= 508 || f.offset % 4 != 0
  {
    AcceptedIffAcceptable([f]);
    assert f in [f];
  }

  /** Without its last word an encoded stream makes the decoder read past the end. */
  lemma {:induction false} CutShortFails(fixups: seq<SelectorFixup>)
    requires fixups != [] && Acceptable(fixups) && NoImmediateRepeat(fixups)
    ensures EncodeChains(fixups).Some?
    ensures var words := EncodeChains(fixups).value;
      words != [] && DecodeChains(words[..|words| - 1]) == None
  {
    EncodedReadsBack(fixups);
  }
}
