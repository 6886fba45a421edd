# The dyld3 closure and image engine, in Dafny

dyld3 prepares *closures*: compact descriptions of how to load a program, with
its images, fixups, segments and initializer order packed into small records.
The engine then loads images from closures, runs their initializers once, and
unloads what nothing needs any more. This project models the parts of that
engine that hold real invariants and proves what they keep.

| part | files |
|---|---|
| Shared facts and machine words | `Lists`, `Words` |
| Hash maps with triangular probing | `Probing`, `HashTables`, `Map`, `MultiMap` |
| Fixup compressors and their decoders | `RebaseCodec`, `RebaseRoundTrip`, `RebaseTable`, `RebaseStore`, `BindCodec`, `SelectorChain`, `Segments`, `SegmentRoundTrip` |
| Initializer order | `InitOrder`, `InitOrderProof`, `InitOrderExact`, `InitOrderTurns`, `InitOrderList` |
| Table of Objective-C classes and protocols | `ClassPositions`, `ClassTable`, `ClassSections`, `ClassLookup` |
| Typed-byte containers and image arrays | `TypedBytes` |
| Loading with all dependents | `Loader` |
| Opening, closing and unloading | `Reaper`, `Unloading`, `UnloadingProof`, `UnloadingCounts`, `UnloadingRuns`, `UnloadingBalance`, `UnloadingEffects`, `LoadThenUnload` |
| The collector's request counter, between threads | `GcProtocol` |
| The lock-free table of immutable ranges | `RangeTable` |
| Running initializers once, between threads | `Initializers` |

Code that changes things step by step is written as methods and classes, each
proved against a specification function or predicate; what is then proved about
that specification are the main results. Protocols between threads are state
machines whose steps are single atomic operations, taken as sequentially
consistent. Bit fields are bounded naturals, pointers are indices, and the
wrap-around of 64-bit offsets and of narrow fields is written out. A mask with
`count - 1` of a power-of-two table is written as a remainder.

Where the code does not do what one would wish on every input, the exact
condition is proved as an if-and-only-if; the lemma in parentheses after it has
an input, or a family of inputs, that fails:

- Rebase streams (`StoredRoundTrip`, `WriteThenRead`) that start aligned within
  14 pointers (`FirstPointerFails`), repeat an offset at once
  (`RepeatedLocationFails`), repeat a group 2^20 times (`LongRunFails`), or need
  more entries than the container takes: pointers far apart
  (`SparsePointersTooMany`), or one that starts inside the one before, which takes
  more than 10^12 entries (`OverlappingPointersExplode`).
- Binds that start a run beyond 40 bits (`RefusedExactly`; `LateJoinIsAccepted`).
- Selector offsets that are not aligned, start at or below 508
  (`LoneFixupRefused`), or repeat at once (`SelectorRoundTrip`;
  `RepeatLosesAFixup`).
- Segments without file contents that have a file offset of their own, which is
  padded for twice (`FileOffsetsExact`, `IsolatedOffsetsExact`;
  `PaddedTwiceFails`); file offsets beyond 4 GiB (the same; `LargeFileFails`);
  empty segments behind a gap (`SegmentOffsetsExact`; `PhantomGapFails`) and file
  padding in front of the first file-backed segment (`LateBaseFails`); and
  segments that can only be written (`PermissionsExact`; `WriteOnlyFails`).
- Names with 256 classes or more (`ScanThenLookup`; `CrowdIsRefused`), and names
  behind 2^23 classes that share their name with others (`FoundExactly`;
  `WrappedIndexFinds`).
- Images whose sections of names and data no longer fit 255 indices
  (`CountsExactly`).
- A buffer that is exactly full when a payload of its own size comes
  (`GrowthFailsExactly`, `AppendAllThenWalk`; `ExactFitFails`).
- Permanent images that depend on images that nothing else holds
  (`PassStaysComplete`, `CloseStaysComplete`, `QuietCloseStaysComplete`;
  `PermanentLosesDependent`); they are not upgraded when a permanent image is loaded later.
- Ranges asked about whose end wraps around the address space
  (`HitIsRegistered`; `WrongHit`), and those that end where their range ends
  (`FinishedScanIsExact`; `LastBytesMissed`).
- Upward links that the single ascending sweep does not follow to the end
  (`InitListContents`, `AllReachedExactly`; `UpwardChainMissed`).

Lemmas carry `{:induction false}`: every induction is written out.

`dafny verify dfyconfig.toml` checks the project.

## Model

| member | source | states |
|---|---|---|
| `Probing.ProbeInjective` | 000-dyld-750.6分析工程/dyld3/Map.h:67-89 | the first `count` slots that the growing steps visit in a power-of-two table are pairwise different |
| `Probing.ProbeCovers` | 000-dyld-750.6分析工程/dyld3/Map.h:67-89 | every slot is visited by exactly one of the first `count` probes |
| `HashTables.EmptySlotExists` | 000-dyld-750.6分析工程/dyld3/Map.h:143-184 | an index of at most three quarters of the table leaves a sentinel |
| `HashTables.SearchEnds` | 000-dyld-750.6分析工程/dyld3/Map.h:67-89 | from any hash, one of the first `count` probes meets a sentinel, so the unbounded loops stop |
| `HashTables.WhereFound` | 000-dyld-750.6分析工程/dyld3/Map.h:79-83 | every key that was indexed is met, at its first position, before any sentinel |
| `HashTables.AbsentAtSentinel` | 000-dyld-750.6分析工程/dyld3/Map.h:74-77 | a sentinel on the probe path of a key means no node has the key |
| `HashTables.FindSlot` | 000-dyld-750.6分析工程/dyld3/Map.h:65-92 | the probe loop ends at the slot of the key, or at a sentinel exactly if the key is absent |
| `HashTables.FindSentinel` | 000-dyld-750.6分析工程/dyld3/Map.h:161-180 | the loop that does not compare keys ends at a free slot, and everything before it on the path is in use |
| `HashTables.PlaceNew` | 000-dyld-750.6分析工程/dyld3/Map.h:194-200 | filling the sentinel that ended the search with a new position keeps every older key findable and indexes the new one |
| `HashTables.Rehash` | 000-dyld-750.6分析工程/dyld3/Map.h:150-183 | a rebuilt table of a larger power of two indexes the first position of every key |
| `Maps.KeptKeys` | 000-dyld-750.6分析工程/dyld3/Map.h:143-215 | the kept entries have the inserted keys, each once |
| `Maps.KeptAt` | 000-dyld-750.6分析工程/dyld3/Map.h:143-215 | the first entry of a key is kept, at the rank given by the number of different keys before it |
| `Maps.Map.constructor` | 000-dyld-750.6分析工程/dyld3/Map.h:54-63 | an empty map with a table of 1024 sentinels that grows at 768 keys |
| `Maps.Map.Find` | 000-dyld-750.6分析工程/dyld3/Map.h:65-92 | the position of the node with the key, or the end position exactly if there is none |
| `Maps.Map.Grow` | 000-dyld-750.6分析工程/dyld3/Map.h:145-184 | doubles the table and its limit, changes no node and leaves room below the limit |
| `Maps.Map.Insert` | 000-dyld-750.6分析工程/dyld3/Map.h:143-215 | appends a new key and returns its position, or returns the position of the node that has the key and changes nothing |
| `Maps.InsertAllThenFind` | 000-dyld-750.6分析工程/dyld3/Map.h:65-215 | after any sequence of inserts a lookup gives the first value inserted for the key, and nothing for a key never inserted |
| `MultiMaps.Follow` | 000-dyld-750.6分析工程/dyld3/Map.h:233-254 | the flags of a node say whether another node of its key follows; the link goes forward to the next one, and the values from here on are this value and those from there on |
| `MultiMaps.MultiMap.Grow` | 000-dyld-750.6分析工程/dyld3/Map.h:326-370 | doubles the table; re-indexing only the chain heads keeps every chain |
| `MultiMaps.MultiMap.FindTail` | 000-dyld-750.6分析工程/dyld3/Map.h:393-396 | walking the chain of a node ends at the last node of its key |
| `MultiMaps.MultiMap.Insert` | 000-dyld-750.6分析工程/dyld3/Map.h:324-420 | appends the entry, new key or not, and keeps chains and index right |
| `MultiMaps.MultiMap.CountChain` | 000-dyld-750.6分析工程/dyld3/Map.h:291-299 | counts the values of the key of a head |
| `MultiMaps.MultiMap.CopyChain` | 000-dyld-750.6分析工程/dyld3/Map.h:301-317 | copies exactly the values of the key, in insertion order |
| `MultiMaps.MultiMap.ForEachEntry` | 000-dyld-750.6分析工程/dyld3/Map.h:278-322 | reports each key once, in the order of its first insert, with all its values in insertion order |
| `MultiMaps.InsertAllThenForEach` | 000-dyld-750.6分析工程/dyld3/Map.h:278-420 | the same over any sequence of inserts and any number of growths |
| `MultiMaps.GroupKeysAreFirstInserts` | 000-dyld-750.6分析工程/dyld3/Map.h:278-420 | the keys reported are those a `Map` keeps, in the same order |
| `MultiMaps.NothingLost` | 000-dyld-750.6分析工程/dyld3/Map.h:278-420 | as many values are reported as were inserted |
| `RebaseRoundTrip.StepOutput` | 000-dyld-750.6分析工程/dyld3/ClosureBuilder.cpp:1179-1230 | after one call of the encoder the decoder reports what it reported before and one location more, the new offset unless that repeats the last; it reports no more than before exactly if the 20-bit repeat count overflows; the list still ends in an open group |
| `RebaseCodec.AddRebaseInfo` | 000-dyld-750.6分析工程/dyld3/ClosureBuilder.cpp:1172-1231 | the encoder over a whole stream computes `Encode`, whose inverse is proved below |
| `RebaseCodec.AppendLeap` | 000-dyld-750.6分析工程/dyld3/ClosureBuilder.cpp:1214-1226 | the three-way series of leap entries |
| `RebaseCodec.ForEachRebase` | 000-dyld-750.6分析工程/dyld3/Closure.cpp:616-644 | the cursor loops report `Decode` of the entries |
| `RebaseRoundTrip.DecodeLeap` | 000-dyld-750.6分析工程/dyld3/ClosureBuilder.cpp:1214-1226 | a leap series of any length moves the decoder exactly by the distance and reports nothing |
| `RebaseRoundTrip.DecodeMerge` | 000-dyld-750.6分析工程/dyld3/ClosureBuilder.cpp:1195-1205 | folding the last entry into the repeat count of the one before does not change what is decoded |
| `RebaseRoundTrip.EncodeKeepsInv` | 000-dyld-750.6分析工程/dyld3/ClosureBuilder.cpp:1179-1230 | the encoder fails exactly on a near first offset, and otherwise its list always ends in an open group whose fields are those of the last run |
| `RebaseRoundTrip.DecodedLength` | 000-dyld-750.6分析工程/dyld3/ClosureBuilder.cpp:1172-1231 | the decoder reports as many locations as were given exactly if no run repeats 2^20 times |
| `RebaseRoundTrip.RebaseRoundTrip` | 000-dyld-750.6分析工程/dyld3/ClosureBuilder.cpp:1172-1231 | given room for the table, decoding the encoded stream gives the stream exactly if the first offset is not an aligned one at most 14 pointers in, no offset is repeated at once, and no group repeats 2^20 times; for all streams of 64-bit offsets in any order and alignment |
| `RebaseTable.TableLength` | 000-dyld-750.6分析工程/dyld3/ClosureBuilder.cpp:1172-1231 | the number of entries of every accepted stream, counted from the locations alone: one for each group of at most 255 that is opened and not folded into the one before, one for each reset, and what the distances take |
| `RebaseTable.SpacedSize` | 000-dyld-750.6分析工程/dyld3/ClosureBuilder.cpp:1208-1226 | without such a pointer the table has at most 277 entries for each location |
| `RebaseTable.CrowdedSize` | 000-dyld-750.6分析工程/dyld3/ClosureBuilder.cpp:1208-1226 | with one, the 64-bit distance wraps and the table has more than 10^12 entries |
| `RebaseStore.PackReadsBack` | 000-dyld-750.6分析工程/dyld3/Closure.h:496-504 | the four fields of an entry read back from its 32-bit word |
| `RebaseStore.StoredRoundTrip` | 000-dyld-750.6分析工程/dyld3/ClosureWriter.cpp:300-303 | for every stream of 64-bit offsets and every writer: appended to the image and decoded again the stream is the same exactly if it does not start aligned within 14 pointers, repeats no offset at once and no group 2^20 times, and its entries meet neither assertion of the container |
| `RebaseStore.ReadRebases` | 000-dyld-750.6分析工程/dyld3/Closure.cpp:616-644 | reading reports what the first rebase table of the image decodes to, or nothing |
| `RebaseStore.WriteThenRead` | 000-dyld-750.6分析工程/dyld3/ClosureBuilder.cpp:1172-1231 | from the locations through the bytes of the image and back: the image gives back the locations exactly under that condition |
| `RebaseStore.SparsePointersTooMany` | 000-dyld-750.6分析工程/dyld3/ClosureWriter.cpp:83-84 | 2^21 pointers, 17 pointer widths apart, would decode rightly, but every writer stops at the length limit |
| `RebaseStore.OverlappingPointersExplode` | 000-dyld-750.6分析工程/dyld3/ClosureBuilder.cpp:1208-1226 | the offsets 400 and 404 with pointers of eight bytes round-trip in an unbounded table, but no writer can store it |
| `RebaseRoundTrip.RepeatedLocationFails` | 000-dyld-750.6分析工程/dyld3/ClosureBuilder.cpp:1193-1206 | an offset given twice in a row is not decoded twice |
| `RebaseRoundTrip.LongRunFails` | 000-dyld-750.6分析工程/dyld3/ClosureBuilder.cpp:1200-1203 | a run of 2^20 + 1 evenly spaced locations wraps the 20-bit repeat count |
| `BindCodec.BindStepAddsOne` | 000-dyld-750.6分析工程/dyld3/ClosureBuilder.cpp:1319-1354 | one call of the encoder adds exactly the new bind to what is decoded, unless it repeats the last one |
| `BindCodec.AddBindInfo` | 000-dyld-750.6分析工程/dyld3/ClosureBuilder.cpp:1302-1355 | the encoder over a whole stream; it fails exactly where a pattern would start beyond 40 bits |
| `BindCodec.ForEachBindFixup` | 000-dyld-750.6分析工程/dyld3/Closure.cpp:646-656 | the decoder reports every location of every pattern |
| `BindCodec.BindRoundTrip` | 000-dyld-750.6分析工程/dyld3/ClosureBuilder.cpp:1302-1355 | expanding the patterns gives the stream with only immediate repeats of the same target and offset dropped; any order and alignment |
| `BindCodec.BindFields` | 000-dyld-750.6分析工程/dyld3/ClosureBuilder.cpp:1326-1351 | every pattern of an accepted stream fits its fields: a start below 2^40, a skip of at most 255 and at most 4095 repeats |
| `BindCodec.RefusedExactly` | 000-dyld-750.6分析工程/dyld3/ClosureBuilder.cpp:1319-1354 | a stream is refused exactly if a bind that neither joins the run before it nor repeats the bind before it lies beyond 40 bits |
| `BindCodec.LateJoinIsAccepted` | 000-dyld-750.6分析工程/dyld3/ClosureBuilder.cpp:1319-1338 | a bind beyond 40 bits is accepted at the end of a run and refused alone |
| `BindCodec.RunIsOnePattern` | 000-dyld-750.6分析工程/dyld3/ClosureBuilder.cpp:1320-1338 | up to 4095 evenly spaced locations of one target become one pattern |
| `SelectorChain.WordFields` | 000-dyld-750.6分析工程/dyld3/Closure.h:520-528 | the three fields of a chain entry read back |
| `SelectorChain.WriteSelectorFixups` | 000-dyld-750.6分析工程/dyld3/ClosureBuilder.cpp:2257-2294 | the encoder loop computes `EncodeChains`, and stops exactly where an assertion fails or the list is empty |
| `SelectorChain.ForEachSelectorFixup` | 000-dyld-750.6分析工程/dyld3/Closure.cpp:688-702 | the nested decoder loops report `DecodeChains`, and fail exactly where they read past the end |
| `SelectorChain.AcceptedIffAcceptable` | 000-dyld-750.6分析工程/dyld3/ClosureBuilder.cpp:2262-2266 | the encoder accepts exactly the streams that are 4-aligned and start above 508 |
| `SelectorChain.SelectorRoundTrip` | 000-dyld-750.6分析工程/dyld3/ClosureBuilder.cpp:2257-2294 | decoding the untagged words gives every (offset, index, shared) exactly if the stream is accepted and no two offsets in a row are equal |
| `SelectorChain.RepeatLosesAFixup` | 000-dyld-750.6分析工程/dyld3/Closure.cpp:693-701 | after an offset given twice in a row the reports never catch up with the fixups |
| `SelectorChain.CutShortFails` | 000-dyld-750.6分析工程/dyld3/Closure.cpp:688-702 | the words of any fixups that round-trip, without the last one, make the decoder read past the end |
| `Segments.AddSegments` | 000-dyld-750.6分析工程/dyld3/ClosureBuilder.cpp:1015-1055 | the encoder loop computes the table of segments and paddings |
| `Segments.ForEachDiskSegment` | 000-dyld-750.6分析工程/dyld3/Closure.cpp:373-405 | the decoder computes the starting offset and then walks the table |
| `Segments.OperationsAreStandard` | 000-dyld-750.6分析工程/dyld3/ClosureBuilder.cpp:1024-1042 | the recursive page arithmetic used in the proofs is division, multiplication and remainder |
| `SegmentRoundTrip.PaddingIsExact` | 000-dyld-750.6分析工程/dyld3/ClosureBuilder.cpp:1024-1042 | for an aligned address, floor-divided padding and ceil-divided size add up exactly |
| `SegmentRoundTrip.LeadingIsBase` | 000-dyld-750.6分析工程/dyld3/Closure.cpp:379-385 | what the decoder subtracts first is where the first file-backed segment stands, exactly if no file padding before it has virtual bytes behind it |
| `SegmentRoundTrip.SegmentsReported` | 000-dyld-750.6分析工程/dyld3/ClosureBuilder.cpp:1015-1055 | every segment is reported once, in order, at the offsets that the paddings add up to, with its sizes cut to their fields and the three permission bits; for files and gaps of any size |
| `SegmentRoundTrip.SizesExact` | 000-dyld-750.6分析工程/dyld3/ClosureBuilder.cpp:1039-1046 | a size is reported rounded up to whole pages exactly if it fits: at most 2^30 - 1 pages of memory, and at most a page less than 4 GiB of the file |
| `SegmentRoundTrip.PermissionsExact` | 000-dyld-750.6分析工程/dyld3/ClosureBuilder.cpp:1043-1045 | permissions come back exactly if they are not the write-only ones that stand for data made read-only later |
| `SegmentRoundTrip.FileOffsetsExact` | 000-dyld-750.6分析工程/dyld3/ClosureBuilder.cpp:1022-1050 | all file offsets are right exactly if they fit 32 bits and the paddings made for segments without file contents cancel in front of each file-backed one |
| `SegmentRoundTrip.MoveExact` | 000-dyld-750.6分析工程/dyld3/ClosureBuilder.cpp:1022-1029 | such a padding moves the walk exactly if the offset is neither zero nor, up to multiples of 4 GiB, less than a page behind what precedes it |
| `SegmentRoundTrip.IsolatedOffsetsExact` | 000-dyld-750.6分析工程/dyld3/ClosureBuilder.cpp:1022-1050 | where each such segment is followed by a file-backed one before the next, all file offsets are right exactly if they fit 32 bits and every one of these paddings moves nothing |
| `SegmentRoundTrip.PaddedTwiceFails` | 000-dyld-750.6分析工程/dyld3/ClosureBuilder.cpp:1022-1050 | one page of file gap in front of a segment without file contents is counted twice |
| `SegmentRoundTrip.PaddingsCanCancel` | 000-dyld-750.6分析工程/dyld3/ClosureBuilder.cpp:1022-1050 | a padding backwards and one forwards cancel, so one harmful padding alone does not decide it |
| `SegmentRoundTrip.LargeFileFails` | 000-dyld-750.6分析工程/dyld3/ClosureBuilder.cpp:1050 | a segment 4 GiB into the file is reported at another offset |
| `SegmentRoundTrip.SegmentOffsetsExact` | 000-dyld-750.6分析工程/dyld3/ClosureBuilder.cpp:1030-1038 | each virtual offset is the address relative to the first file-backed segment, exactly if sizes and gaps fit their fields, no empty segment leaves a gap that only its neighbours see, and the walk starts at that segment |
| `SegmentRoundTrip.PhantomGapFails` | 000-dyld-750.6分析工程/dyld3/ClosureBuilder.cpp:1051-1052 | an empty segment behind a gap makes the next offset wrong |
| `SegmentRoundTrip.LateBaseFails` | 000-dyld-750.6分析工程/dyld3/Closure.cpp:379-385 | file padding in front of a first file-backed segment behind a gap makes the offsets wrong |
| `InitOrder.DepthFirst` | 000-dyld-750.6分析工程/dyld3/ClosureBuilder.cpp:1748-1776 | the recursion on the array computes `Visit`; it ends because every call marks an image |
| `InitOrder.ComputeInitOrder` | 000-dyld-750.6分析工程/dyld3/ClosureBuilder.cpp:1778-1836 | invalid exactly if a walk met a bad image; otherwise the visited images with initializers, each once, by increasing number |
| `InitOrderList.InitList` | 000-dyld-750.6分析工程/dyld3/ClosureBuilder.cpp:1748-1836 | in terms of the graph alone: there is a list exactly if the roots reach no bad image; it has exactly the images with initializers that the roots reach, each once, and of any two the one in front is reached in an earlier round, or its way leads over an earlier dependent of the image where the ways part |
| `InitOrderTurns.VisitRanks` | 000-dyld-750.6分析工程/dyld3/ClosureBuilder.cpp:1748-1776 | a walk from any image in any state marks exactly what the image leads to around the images the walk is inside of, and numbers it in the order in which the dependents are listed |
| `InitOrderList.StandsTotal` | 000-dyld-750.6分析工程/dyld3/ClosureBuilder.cpp:1748-1836 | every two images that are visited have an order |
| `InitOrderList.StandsOneWay` | 000-dyld-750.6分析工程/dyld3/ClosureBuilder.cpp:1748-1836 | and only one |
| `InitOrderList.DependentsInTurn` | 000-dyld-750.6分析工程/dyld3/ClosureBuilder.cpp:1760-1775 | for any image that is on no cycle: what an earlier dependent leads to stands before what only later ones lead to and nothing leads to around the image |
| `InitOrderList.LoadDependentsInTurn` | 000-dyld-750.6分析工程/dyld3/ClosureBuilder.cpp:1760-1787 | so do the dependents of the loaded image |
| `InitOrderList.UpwardLast` | 000-dyld-750.6分析工程/dyld3/ClosureBuilder.cpp:1793-1798 | what only upward links lead to stands behind everything that other links reach |
| `InitOrder.ImagesWithInits` | 000-dyld-750.6分析工程/dyld3/ClosureBuilder.cpp:1805-1826 | selects and sorts without losing or repeating an image |
| `InitOrder.BubbleSort` | 000-dyld-750.6分析工程/dyld3/ClosureBuilder.cpp:1815-1826 | sorts the array in place, keeping its multiset |
| `InitOrderProof.VisitIsGood` | 000-dyld-750.6分析工程/dyld3/ClosureBuilder.cpp:1748-1776 | a walk without an error leaves every numbered image above its non-upward dependents, except those that reach it |
| `InitOrderProof.SweepIsSettled` | 000-dyld-750.6分析工程/dyld3/ClosureBuilder.cpp:1793-1798 | after every pass of the sweep nothing is on the stack, no bad image is visited, and what dangled below has been visited |
| `InitOrderExact.InitListContents` | 000-dyld-750.6分析工程/dyld3/ClosureBuilder.cpp:1778-1836 | the list has exactly the images with initializers that some roots reach by non-upward links; roots are the image itself and then upward dependents, each of what the one before reaches, with growing positions |
| `InitOrderExact.VisitedExactly` | 000-dyld-750.6分析工程/dyld3/ClosureBuilder.cpp:1748-1798 | the sweep visits exactly what the roots reach |
| `InitOrderExact.AllReachedExactly` | 000-dyld-750.6分析工程/dyld3/ClosureBuilder.cpp:1793-1798 | everything that links of any kind reach is visited exactly if no upward dependent of a visited image is left out |
| `InitOrderProof.InitListOrder` | 000-dyld-750.6分析工程/dyld3/ClosureBuilder.cpp:1748-1836 | a non-upward dependent stands before its user unless it reaches the user itself |
| `InitOrderProof.InitListUnique` | 000-dyld-750.6分析工程/dyld3/ClosureBuilder.cpp:1815-1826 | the numbers leave one possible list |
| `InitOrderExact.InvalidMeansBad` | 000-dyld-750.6分析工程/dyld3/ClosureBuilder.cpp:1755-1791 | the writer is marked invalid exactly if such roots reach a bad image |
| `InitOrderExact.UpwardChainMissed` | 000-dyld-750.6分析工程/dyld3/ClosureBuilder.cpp:1793-1798 | an image behind two upward links can be missed by the single ascending sweep |
| `Reaper.MarkDirectlyDlopenedImages` | 000-dyld-750.6分析工程/dyld3/AllImages.cpp:1104-1116 | marks exactly the first image at each address with a positive count |
| `Reaper.MarkDependentsOf` | 000-dyld-750.6分析工程/dyld3/AllImages.cpp:1128-1138 | marks, for every link in turn, the first unmarked image that stands for it |
| `Reaper.MarkDependentsOfInUseImages` | 000-dyld-750.6分析工程/dyld3/AllImages.cpp:1140-1146 | one pass over the images that are in use when their turn comes |
| `Reaper.MarkPassIsSound` | 000-dyld-750.6分析工程/dyld3/AllImages.cpp:1140-1146 | a pass marks only images that a chain of uses connects to an opened one |
| `Reaper.IdlePass` | 000-dyld-750.6分析工程/dyld3/AllImages.cpp:1166-1174 | a pass that marks nothing leaves no dependent of a marked image unmarked |
| `Reaper.SettledMarksAreLive` | 000-dyld-750.6分析工程/dyld3/AllImages.cpp:1156-1177 | marks that a pass leaves alone are exactly the images that an opened one reaches among the unloadable ones |
| `Reaper.LinkKeepsAlive` | 000-dyld-750.6分析工程/dyld3/AllImages.cpp:1128-1138 | whatever a live image links to, weakly or not, is live; the exception is a weak link to the number of the missing image |
| `Reaper.LiveWithin` | 000-dyld-750.6分析工程/dyld3/AllImages.cpp:1104-1177 | nothing else is live: every set that has the first image at each open address and is closed under these links has all live images |
| `Reaper.MissingWeakKeepsNothing` | 000-dyld-750.6分析工程/dyld3/Closure.cpp:309-311 | a weak link to the missing image keeps nothing alive |
| `Reaper.CountGrows` | 000-dyld-750.6分析工程/dyld3/AllImages.cpp:1118-1126 | the number of marks does not change exactly if no mark does |
| `Reaper.GarbageCollect` | 000-dyld-750.6分析工程/dyld3/AllImages.cpp:1156-1177 | in use is exactly reachable from an open image; the dead count is the number of the others; the loop ends |
| `Unloading.AllImages.IncRefCount` | 000-dyld-750.6分析工程/dyld3/AllImages.cpp:995-1007 | raises the count of the address, or adds an entry of one |
| `Unloading.AllImages.DropCount` | 000-dyld-750.6分析工程/dyld3/AllImages.cpp:1009-1022 | lowers the count of the address, and removes an entry that reaches zero |
| `Unloading.AllImages.DecRefCount` | 000-dyld-750.6分析工程/dyld3/AllImages.cpp:1009-1026 | collects exactly if an entry went away |
| `Unloading.AllImages.Dlclose` | 000-dyld-750.6分析工程/dyld3/APIs.cpp:796-830 | drops a count only for an image that is loaded and can be unloaded |
| `Unloading.AllImages.Reopen` | 000-dyld-750.6分析工程/dyld3/AllImages.cpp:1742-1773 | counts an open of an image that is loaded already, unless it is in the cache |
| `Unloading.AllImages.LoadImage` | 000-dyld-750.6分析工程/dyld3/AllImages.cpp:1829-1836 | counts the image asked for, unless it is in the cache, and appends all new images |
| `Unloading.AllImages.FinalizeDeadImages` | 000-dyld-750.6分析工程/dyld3/AllImages.cpp:1179-1213 | runs the terminators of the unmarked images, with the dlclose() calls they make |
| `Unloading.AllImages.RemoveImages` | 000-dyld-750.6分析工程/dyld3/AllImages.cpp:477-488 | erases for each given image the first loaded one at its address |
| `Unloading.AllImages.RunPass` | 000-dyld-750.6分析工程/dyld3/AllImages.cpp:1255-1299 | one pass: mark, terminate, remove, give back one request |
| `Unloading.AllImages.GarbageCollectImages` | 000-dyld-750.6分析工程/dyld3/AllImages.cpp:1248-1302 | a call made while a pass runs only counts a request; the first call runs passes until none is left |
| `UnloadingProof.DeadIsUnneeded` | 000-dyld-750.6分析工程/dyld3/AllImages.cpp:1156-1177 | a pass condemns exactly the images that no open and no permanent image reaches |
| `UnloadingProof.PassRemoves` | 000-dyld-750.6分析工程/dyld3/AllImages.cpp:1255-1299 | a pass removes exactly the images that are not permanent and that no open image reaches inside the unloadable ones, and keeps the order of the rest |
| `UnloadingCounts.CollectOutcome` | 000-dyld-750.6分析工程/dyld3/AllImages.cpp:1248-1302 | the outcome of a collection from the state before it: the images of the least set are gone, the rest keeps its order, and every count is lower by the dlclose() calls that the terminators of these images make |
| `UnloadingCounts.GoneIsLeast` | 000-dyld-750.6分析工程/dyld3/AllImages.cpp:1156-1177 | that set is the least one such that, with its images gone and their dlclose() calls made, everything else is held; the order of the terminators does not matter |
| `UnloadingCounts.CollectLowers` | 000-dyld-750.6分析工程/dyld3/AllImages.cpp:1179-1213 | the counts at the end are those before, less the dlclose() calls of the terminators of what was removed |
| `UnloadingProof.HeldIsNeeded` | 000-dyld-750.6分析工程/dyld3/AllImages.cpp:1156-1177 | if permanent images depend on permanent ones only, held means reached from an open or permanent image |
| `UnloadingProof.OnePassForEachRequest` | 000-dyld-750.6分析工程/dyld3/AllImages.cpp:1248-1302 | the collector makes one pass for each request, those made meanwhile included |
| `UnloadingRuns.IncCounts` | 000-dyld-750.6分析工程/dyld3/AllImages.cpp:995-1007 | raises the outstanding opens of one address by one and of no other |
| `UnloadingRuns.DecCounts` | 000-dyld-750.6分析工程/dyld3/AllImages.cpp:1009-1022 | lowers the outstanding opens of one address by one, if there are any, and of no other |
| `UnloadingRuns.CloseOutcome` | 000-dyld-750.6分析工程/dyld3/AllImages.cpp:1009-1026 | the outcome of a dlclose() from the state before it: a last close removes the least set of images without which everything else is held, any other close removes nothing; all counts are given |
| `UnloadingRuns.CloseCounts` | 000-dyld-750.6分析工程/dyld3/AllImages.cpp:1009-1026 | each address keeps its outstanding opens less the close itself and those that terminators of removed images make, down to none; only loaded images that can be unloaded lose any |
| `UnloadingEffects.CloseLowers` | 000-dyld-750.6分析工程/dyld3/APIs.cpp:813-820 | closing an open image that is not permanent, of whatever kind, takes at least one open off it |
| `UnloadingEffects.LastCloseRemoves` | 000-dyld-750.6分析工程/dyld3/APIs.cpp:813-820 | the last close of an image that no other open and no permanent image reaches unloads it |
| `UnloadingEffects.CloseChangesNothing` | 000-dyld-750.6分析工程/dyld3/APIs.cpp:813-820 | closing an address with no image, or with permanent ones only, changes nothing |
| `UnloadingEffects.ReopenCounts` | 000-dyld-750.6分析工程/dyld3/AllImages.cpp:1742-1773 | an open of a loaded image counts once, unless the image is in the cache, and changes no other count |
| `UnloadingRuns.StepKeepsInv` | 000-dyld-750.6分析工程/dyld3/AllImages.cpp:1248-1302 | every load, reopening and close keeps the list closed under dependence, and everything in it needed |
| `UnloadingRuns.LoadedMeansNeeded` | 000-dyld-750.6分析工程/dyld3/AllImages.cpp:1248-1302 | at every point of every run a loaded image is reached from an open or permanent one, and each of its dependents is loaded |
| `UnloadingEffects.DependentsAreLoaded` | 000-dyld-750.6分析工程/dyld3/Closure.cpp:300-314 | at every point of every run, whatever a loaded image links to, weakly or not, is loaded under its number or overridden by a loaded library outside the cache; only weak links to the missing image ask for nothing |
| `UnloadingRuns.OpenIsNeverRemoved` | 000-dyld-750.6分析工程/dyld3/AllImages.cpp:1248-1302 | as long as an image has opens outstanding, it and everything it reaches stay loaded |
| `UnloadingBalance.RunBalance` | 000-dyld-750.6分析工程/dyld3/AllImages.cpp:995-1026 | over any run the opens outstanding at an address are at least the opens less the closes, those of terminators included, and exactly that if and only if it was never closed more often than open |
| `UnloadingBalance.OpenedMoreStays` | 000-dyld-750.6分析工程/dyld3/AllImages.cpp:995-1026 | as long as an image has been opened more often than closed, it and everything it reaches stay loaded |
| `UnloadingRuns.PassStaysComplete` | 000-dyld-750.6分析工程/dyld3/AllImages.cpp:1258-1261 | without the assumption on permanent images: after a pass every dependent is loaded exactly if, before it, every dependent of a permanent image has a loaded image that is permanent or that an open image reaches inside the unloadable ones |
| `UnloadingRuns.CloseStaysComplete` | 000-dyld-750.6分析工程/dyld3/AllImages.cpp:1009-1026 | told from the state before it: after a dlclose() every dependent is loaded exactly if it was not the last close of its image, or permanent images depend only on images held by what remains open when the closes are taken off |
| `UnloadingRuns.QuietCloseStaysComplete` | 000-dyld-750.6分析工程/dyld3/AllImages.cpp:1009-1026 | if no terminator closes anything, it is enough to look at the counts less the one open |
| `UnloadingRuns.PermanentLosesDependent` | 000-dyld-750.6分析工程/dyld3/AllImages.cpp:1258-1261 | closing a plugin removes it although a permanent image depends on it |
| `GcProtocol.StepKeepsInv` | 000-dyld-750.6分析工程/dyld3/AllImages.cpp:1251-1301 | every atomic step of every caller keeps: one owner exactly while the counter is positive, and the counter covers every request since the pass began |
| `GcProtocol.OneCollector` | 000-dyld-750.6分析工程/dyld3/AllImages.cpp:1250-1253 | two calls are never in a pass at once, and none is while the counter is zero |
| `GcProtocol.RequestsAreOwned` | 000-dyld-750.6分析工程/dyld3/AllImages.cpp:1250-1301 | the counter is positive exactly if a call has a pass to run; finished passes and counter add up to the requests |
| `GcProtocol.EveryRequestIsServed` | 000-dyld-750.6分析工程/dyld3/AllImages.cpp:1298-1301 | when the counter is zero a complete pass began after every request, and there was one pass for each |
| `GcProtocol.DecrementIsEnabled` | 000-dyld-750.6分析工程/dyld3/AllImages.cpp:1298-1301 | the counter is never decremented below zero |
| `RangeTable.FirstEmpty` | 000-dyld-750.6分析工程/dyld3/AllImages.cpp:274-280 | the scan finds the first slot with start zero, all slots before it being used |
| `RangeTable.StepKeepsInv` | 000-dyld-750.6分析工程/dyld3/AllImages.cpp:270-294 | every single load and store keeps: the k-th range is in the k-th slot, slots behind are free, and no reader has passed a known range that covers its query |
| `RangeTable.NoGaps` | 000-dyld-750.6分析工程/dyld3/AllImages.cpp:274-293 | used slots are a prefix over all buckets at every moment |
| `RangeTable.HitIsRegistered` | 000-dyld-750.6分析工程/dyld3/AllImages.cpp:794-805 | a hit is about a registered range; the memory asked about lies inside one exactly if its end does not wrap |
| `RangeTable.WrappedQueryHits` | 000-dyld-750.6分析工程/dyld3/AllImages.cpp:794-805 | every query whose end wraps to below the end of a range around its start is a hit of some run |
| `RangeTable.WrongHit` | 000-dyld-750.6分析工程/dyld3/AllImages.cpp:794-805 | nearly the whole address space from 24 on is reported to lie inside the range from 16 to 32 |
| `RangeTable.MissIsRight` | 000-dyld-750.6分析工程/dyld3/AllImages.cpp:794-805 | a scan that began after a registration and missed was not asked about memory strictly inside it |
| `RangeTable.FinishedScanIsExact` | 000-dyld-750.6分析工程/dyld3/AllImages.cpp:794-805 | if nothing was registered since it began, a finished scan hits exactly if some range covers the query with its end, wrapped around, below the end of the range |
| `RangeTable.LastBytesMissed` | 000-dyld-750.6分析工程/dyld3/AllImages.cpp:794-805 | for every range and every address in it, some run misses the query for the bytes from there to the end of the range |
| `RangeTable.ReadersNeverStray` | 000-dyld-750.6分析工程/dyld3/AllImages.cpp:794-805 | a reader never reads outside the table |
| `Initializers.ImageList.FindImageNum` | 000-dyld-750.6分析工程/dyld3/AllImages.cpp:1548-1564 | finds the image at the hint if it stands for the number, else the first one that does |
| `Initializers.ImageList.SwapImageState` | 000-dyld-750.6分析工程/dyld3/AllImages.cpp:1568-1586 | changes the state of that image only, and only from the expected state |
| `Initializers.LookupIsRight` | 000-dyld-750.6分析工程/dyld3/AllImages.cpp:1552-1560 | any stale hint leads to the one image that stands for the number |
| `Initializers.StepKeepsInv` | 000-dyld-750.6分析工程/dyld3/AllImages.cpp:1593-1617 | every atomic step of every call, every load and every removal keeps the record of starts and states consistent |
| `Initializers.StartedOnce` | 000-dyld-750.6分析工程/dyld3/AllImages.cpp:1600-1615 | over every interleaving, loads under an old number included, no load of an image has its initializers started twice |
| `Initializers.FinishedHasBegun` | 000-dyld-750.6分析工程/dyld3/AllImages.cpp:1593-1617 | when a call is over, every image that was loaded when the call began, is on its list and was not unloaded since has at least begun |
| `Initializers.ReloadStartsAgain` | 000-dyld-750.6分析工程/dyld3/AllImages.cpp:1593-1617 | an image that was initialized, unloaded and loaded again under its number is initialized again |
| `Initializers.QuietMeansInited` | 000-dyld-750.6分析工程/dyld3/AllImages.cpp:1611-1615 | when no call is active, everything that was started is done |
| `Initializers.StatesOnlyAdvance` | 000-dyld-750.6分析工程/dyld3/AllImages.cpp:1600-1615 | a step moves at most one state on, with a start or by the call that started it |
| `ClassTable.CollectClasses` | 000-dyld-750.6分析工程/dyld3/ClosureBuilder.cpp:1959-1993 | walking the images backwards collects all classes in load order, and for each name the place first seen |
| `ClassTable.ObjCClassOpt.WriteStrings` | 000-dyld-750.6分析工程/dyld3/ClosureBuilder.cpp:3756-3771 | each name is in the slot of its hash with its check byte, all other slots hold the sentinel |
| `ClassTable.ObjCClassOpt.GetIndex` | 000-dyld-750.6分析工程/dyld3/Closure.h:843-855 | for a written table: a name of the table is found, where its hash says; another name passes exactly if the check byte of its slot is its own |
| `ClassTable.CheckBytesDiffer` | 000-dyld-750.6分析工程/dyld3/Closure.h:818-821 | check bytes have eight bits, and differ for names whose lengths differ modulo 32 or whose first letters differ modulo 8 |
| `ClassTable.ObjCClassOpt.WriteGroup` | 000-dyld-750.6分析工程/dyld3/ClosureBuilder.cpp:3791-3818 | writes one class directly, several through the duplicates array, and touches no other slot |
| `ClassTable.ObjCClassOpt.WriteClasses` | 000-dyld-750.6分析工程/dyld3/ClosureBuilder.cpp:3777-3820 | fails exactly if a name has 256 classes or more; otherwise every slot leads to the classes of its name |
| `ClassTable.ObjCClassOpt.ForEachClass` | 000-dyld-750.6分析工程/dyld3/Closure.cpp:1412-1459 | calls back for the classes of a name that is in the table, and for nothing otherwise, although another name may hash to the same slot |
| `ClassTable.CallsAreRight` | 000-dyld-750.6分析工程/dyld3/Closure.cpp:1437-1445 | a single class, read from the image of its name, is reported at its own address |
| `ClassPositions.FoundExactly` | 000-dyld-750.6分析工程/dyld3/ClosureBuilder.cpp:3805-3813 | a name is answered with its own classes exactly if it has at most one or fewer than 2^23 duplicates of other names stand before its own: the index is cut to 23 bits |
| `ClassPositions.WrappedIndexFinds` | 000-dyld-750.6分析工程/dyld3/ClosureBuilder.cpp:3805-3813 | behind 2^22 names of two classes each, a name is answered with the classes of the first |
| `ClassTable.BuildThenLookup` | 000-dyld-750.6分析工程/dyld3/ClosureBuilder.cpp:1954-2015 | the table is built exactly if every name has fewer than 256 classes, and a lookup then calls back for the classes at the positions found, which are the name's own, in load order, if fewer than 2^23 duplicates stand before them |
| `ClassSections.ScanClasses` | 000-dyld-750.6分析工程/dyld3/ClosureBuilder.cpp:2781-2815 | each class is recorded under one index for its name and its data, which leads to its two sections; fails exactly if the different pairs of sections are more than the indices left of 255 |
| `ClassSections.ScanImages` | 000-dyld-750.6分析工程/dyld3/ClosureBuilder.cpp:2136-2157 | over all images, those that fail included, the table of sections describes every class of an image that did not fail, and an index never reaches the reserved one |
| `ClassSections.CountsExactly` | 000-dyld-750.6分析工程/dyld3/ClosureBuilder.cpp:2790-2797 | an image is kept exactly if it is not bad and its different pairs of sections, with those of the images kept before it, are at most 255 |
| `ClassSections.NoneLeftOut` | 000-dyld-750.6分析工程/dyld3/ClosureBuilder.cpp:2790-2797 | if no image is bad and all together have at most 255 pairs, every image is kept |
| `ClassLookup.ScanThenLookup` | 000-dyld-750.6分析工程/dyld3/ClosureBuilder.cpp:1954-2015 | end to end, for classes and for protocols: whatever the images hold, the table is built exactly if no name occurs 256 times, and a lookup calls back with the places at the positions found: those of every class of the name in the images that did not fail, in load order, and nothing else, if fewer than 2^23 duplicates stand before them |
| `ClassLookup.EveryClassHasItsPlace` | 000-dyld-750.6分析工程/dyld3/ClosureBuilder.cpp:1954-2015 | then every class of every image is among the places of its name |
| `ClassLookup.CrowdIsRefused` | 000-dyld-750.6分析工程/dyld3/ClosureBuilder.cpp:3805-3811 | an image whose n classes share one name is scanned without an error, and gets a table exactly if n is below 256 |
| `Loader.ImageNumSet.Add` | 000-dyld-750.6分析工程/dyld3/Loading.cpp:79-85 | adds the number, whether it goes to the bitmap or to the list |
| `Loader.ImageNumSet.Contains` | 000-dyld-750.6分析工程/dyld3/Loading.cpp:87-97 | tells membership |
| `Loader.GatherOverrides` | 000-dyld-750.6分析工程/dyld3/Loading.cpp:183-197 | collects the overrides of all arrays that are not the cache's |
| `Loader.FindOverride` | 000-dyld-750.6分析工程/dyld3/Loading.cpp:213-219 | the replacement of the first override of the number, or the number itself if there is none |
| `Loader.TranslateReplaces` | 000-dyld-750.6分析工程/dyld3/Loading.cpp:183-219 | over all arrays: a number becomes that of the first image, in the order of the arrays outside the cache, that overrides it, or stays if none does |
| `Loader.OverriderIsLoaded` | 000-dyld-750.6分析工程/dyld3/Loading.cpp:211-240 | after a finished load, a dependent that images outside the cache override is there as the first of these |
| `Loader.DependentIsLoaded` | 000-dyld-750.6分析工程/dyld3/Loading.cpp:211-240 | and a dependent that none overrides is there under its own number |
| `Loader.LoadedForAReason` | 000-dyld-750.6分析工程/dyld3/Loading.cpp:206-242 | every new image but the one asked for stands for a dependent of a loaded one |
| `Loader.AddDependent` | 000-dyld-750.6分析工程/dyld3/Loading.cpp:211-240 | one dependent: known, added, or an explained error |
| `Loader.LoadedIsRequired` | 000-dyld-750.6分析工程/dyld3/Loading.cpp:206-242 | when the walk is over the new images are exactly the required ones |
| `Loader.CompleteAllDependents` | 000-dyld-750.6分析工程/dyld3/Loading.cpp:181-242 | no error exactly if every required image can be found and they fit; then the new images are the required ones, each once, and all their dependents are there; the growing worklist ends |
| `Loader.FoundHasNumber` | 000-dyld-750.6分析工程/dyld3/Closure.cpp:933-962 | the image found for a number has that number |
| `Loader.FindsFirst` | 000-dyld-750.6分析工程/dyld3/Closure.cpp:933-962 | the image found is the first with the number, in the order of the arrays |
| `Loader.FindsNothing` | 000-dyld-750.6分析工程/dyld3/Closure.cpp:933-962 | none is found if no image has the number |
| `LoadThenUnload.LoadedLeadsTo` | 000-dyld-750.6分析工程/dyld3/Loading.cpp:213-219 | the image loaded for a dependent, override or not, stands for it in the sense unloading uses |
| `LoadThenUnload.LoadIsAdmissible` | 000-dyld-750.6分析工程/dyld3/Loading.cpp:181-242 | what the loader delivers meets what the unloading theorems assume about loads |
| `TypedBytes.GrowthFailsExactly` | 000-dyld-750.6分析工程/dyld3/ClosureWriter.cpp:60-78 | the assertion on the buffer fails exactly for a payload as large as a buffer that is full |
| `TypedBytes.GrowthIsLeast` | 000-dyld-750.6分析工程/dyld3/ClosureWriter.cpp:60-66 | the buffer grows by its own size, or by the least multiple of it above a payload that is larger |
| `TypedBytes.ExactFitFails` | 000-dyld-750.6分析工程/dyld3/ClosureWriter.cpp:60-78 | two payloads of a mebibyte each, the first two words shorter, meet the assertion although the limit is far |
| `TypedBytes.ContainerWriter.Grow` | 000-dyld-750.6分析工程/dyld3/ClosureWriter.cpp:61-77 | the larger buffer has the same contents |
| `TypedBytes.ContainerWriter.Append` | 000-dyld-750.6分析工程/dyld3/ClosureWriter.cpp:57-87 | appends the item and nothing else, inside the buffer, or fails exactly where one of the two assertions fails |
| `TypedBytes.ContainerWriter.ForImages` | 000-dyld-750.6分析工程/dyld3/ClosureWriter.cpp:411-420 | puts the end behind the header words and the offsets; for any count, and inside the buffer exactly if they fit it |
| `TypedBytes.ContainerWriter.AppendImage` | 000-dyld-750.6分析工程/dyld3/ClosureWriter.cpp:422-427 | records where the image starts and appends it; fails exactly at the two assertions or if the end is outside the buffer |
| `TypedBytes.ItemIsAt` | 000-dyld-750.6分析工程/dyld3/Closure.cpp:67-88 | a header at its place describes the item that was appended |
| `TypedBytes.ForEachAttribute` | 000-dyld-750.6分析工程/dyld3/Closure.cpp:78-86 | the walk reports the appended items in order |
| `TypedBytes.FindAttributePayload` | 000-dyld-750.6分析工程/dyld3/Closure.cpp:97-113 | gives the payload of the first item of the type, and nothing exactly if there is none |
| `TypedBytes.ImageForNum` | 000-dyld-750.6分析工程/dyld3/Closure.cpp:933-953 | gives the image at the index of the number, or the first with the number if there are roots |
| `TypedBytes.SearchAgrees` | 000-dyld-750.6分析工程/dyld3/Closure.cpp:933-953 | with consecutive numbers searching finds what indexing finds |
| `TypedBytes.AppendAllThenWalk` | 000-dyld-750.6分析工程/dyld3/ClosureWriter.cpp:43-87 | a sequence of appends meets an assertion exactly if it exceeds the length limit or some item stalls at a full buffer of its size; otherwise, through all growths, the walk gives back what was appended |
| `TypedBytes.AppendImagesThenFind` | 000-dyld-750.6分析工程/dyld3/ClosureWriter.cpp:411-427 | an image array is written exactly if its offsets fit the first buffer and the appends meet no assertion; then it gives back the image that was appended at the index of a number or, with roots, the first with the number, exactly if there is one |

## Left out

- The stop flags of the handlers: every handler is taken to let the walk go on.
- The in-place update of weak-coalesced binds in `addBindInfo`, text relocations, chained fixups, and the stable-Swift, protocol and method-list fixups.
- Segments of images inside the dyld cache; `addSegments` is modelled for images on disk.
- SegmentRoundTrip.SegmentsReported: assumes page-aligned starts, ascending ranges without overlap, and ranges that end a page below 2^64; the walk's virtual offset is an unbounded integer.
- SegmentRoundTrip.SegmentOffsetsExact: the same assumptions on the file; the first file-backed segment is the first whose entry has file pages, so not one with a multiple of 2^30 pages of file contents.
- RebaseStore.WriteThenRead: the array in which the builder collects entries before it stores them is unbounded; bind patterns and selector words go into the image through `TypedBytes.ContainerWriter.Append`, but are not followed there.
- Maps.Map.Insert: table sizes are unbounded; a table near 2^64 slots is not modelled. The const `find` and `operator[]` are not modelled apart.
- MultiMaps.MultiMap.Insert: for fewer than 2^29 nodes, the width of the link field.
- Equality of keys is equality of their contents; hash functions are arbitrary functions.
- ClassLookup.ScanThenLookup: the perfect hash is any function that is injective on the names that occur; texts and image addresses are read through given functions; there are at most 2^29 classes, the width of the map's link field, and section offsets fit their fields, which the scan checks. The other checks of the scan are one flag for each image. Protocol fixups recorded during collection, and the case of no class at all, where no table is made, are not modelled.
- ClassTable.BuildThenLookup: the same, for classes that are already collected.
- Unloading.AllImages.FinalizeDeadImages: terminators may call dlclose() any number of times, but not dlopen(); `__cxa_finalize_ranges` and the ranges given to it are not modelled.
- Unloading.AllImages.Dlclose: the handle is the load address; magic handles and error strings are not modelled.
- Unloading.AllImages.RemoveImages: notifiers, unmapping and the mirrored image infos are not modelled.
- Unloading.AllImages.LoadImage: mapping, fixups, notifiers and running initializers are not part of it. The address an image is mapped at is a parameter.
- UnloadingRuns.OpenIsNeverRemoved: assumes that loads are complete, which `LoadThenUnload.LoadIsAdmissible` proves of the loader, that images have different addresses, and that permanent images depend only on permanent images.
- GcProtocol.EveryRequestIsServed: fairness of the scheduler is not modelled; that a pass ends is shown in `Unloading`. The counter is unbounded.
- RangeTable.MissIsRight: the earlier checks of `immutableMemory` against the cache and the address bounds are not modelled.
- Initializers.StartedOnce: assumes that one image at a time stands for a number, that each load is a new entry, and that an image a call still has to look up is not removed.
- The +load notification and the initializer functions themselves are one step between the two state changes.
- Loader.CompleteAllDependents: starts from one image, as dlopen() does; the capacity of the array of overrides is taken to suffice. Mapping and fixing up the images is left out.
- TypedBytes.ContainerWriter.Append: memory is modelled in words, which the alignment of all sizes allows; finalizing (trimming and protecting the pages) is not modelled.
- TypedBytes.ContainerWriter.AppendImage: with more offsets than the first buffer holds, the source would copy from outside it; the model fails there.
- InitOrder.ComputeInitOrder: dependents are given as indices of loaded images, so the lookup by image number is not part of it.
- Path search, overrides of paths, closure validation, code signing, sandbox, tracing, pointer authentication and the printers: calls into the system or simple wrappers.
- The OpenGL demos and scripts of the repository.
