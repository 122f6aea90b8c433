# OpenMeta: locating and reassembling metadata

OpenMeta finds metadata blocks inside image containers and puts split ones together again. This
project models the algorithms behind that and proves what they promise:

- **Item data of BMFF files** (`ItemData`, `ItemResolver`, `ItemReader`, `ItemCursor`,
  `ItemStarvation`, `ItemBudget`, `ItemTowers`, `OmittedLengths`, `LaidOutItems`). An item is made of
  slices of the file, of the `idat` box, or of other items. `ItemData.Flatten` says which bytes an
  item has; the size query and the byte reader, with their shared step budget and their path of open
  items, are proved against it.
- **The scanner's own resolver** (`ScannerLayouts`, `ScannerItems`, `ScannerParts`,
  `ScannerAgreement`, `ReadableItems`) maps items to file ranges without recursion, and the scan of
  all items (`ExifPreamble`, `ScannerBlocks`, `ItemScan`, `ExifItems`) turns the ranges into blocks.
  It is proved to agree with the recursive one, through to the extracted payload.
- **Scene components** (`UnionFind`, `SceneTable`, `SceneSightings`, `SceneStats`, `SceneRelations`,
  `SceneComponents`) and the **derived-image search** (`DerivedGraph`).
- **Payload extraction** (`PartSort`, `PayloadSpec`, `Payload`, `PayloadTheorems`, `StreamMembers`,
  `SplitStreams`, `GifRoundTrip`, `PayloadLimits`), with its random-access twin (`RandomPayload`,
  `RandomRefinement`).
- **JPEG scanning**, in memory and positional (`JpegSegments`, `JpegMarkers`, `JpegContents`,
  `JpegScan`), the round trips of profiles and packets (`JpegPlaces`, `JpegStreams`), with the
  normalisation of JUMBF segments of each (`JumbfGroups`, `PositionalGroups`) and the split/join round
  trip at the level of file bytes (`JumbfJoin`, `JumbfRoundTrip`, `JumbfLoneParts`); fragment runs of
  PNG and WebP files (`JumbfRuns`).
- **TIFF directories** (`TiffIfds`, `TiffScan`, `TiffWriter`, `TiffFiles`), **the item location box**
  (`Iloc`, `IlocParser`, `IlocCuts`), **tile offset tables** (`TileTable`, `TileWriter`) and **UTF-8**
  (`Utf8`).
- **The byte arena** in a memory whose blocks move (`ByteMemory`, `Alignment`, `Arena`), **console
  text** (`ConsoleText`) and **the compatibility dump** (`Records`, `CompatibilityDump`,
  `DumpReader`).

`Bytes`, `Blocks` and `BlockSinks` hold what the others share. Code that updates arrays and fields in
place is modelled by methods on arrays and classes; each is proved against a function of its input,
and the theorems are about those functions.

## What turned out differently

- A successful size query does not mean that every byte can be read: each read gets a fresh budget of
  the same size but may need up to 16 times as much (`ItemStarvation.OpenableButNotReadable`). The
  conditions under which all bytes are readable are `ItemCursor.CheapItemsReadable` and
  `ItemCursor.PlainItemsReadable`, and exactly when they all are is `ItemBudget.AllReadable`.
- In the normalisation of APP11 segments, the alternative base that is tried after the first one
  failed can never be valid (`JumbfGroups.OtherBaseNeverValid`).
- The random-access reader of GIF sub-blocks insists on the terminator, the in-memory one does not
  (`RandomRefinement.GifAgrees`, with an input in `RandomRefinement.UnterminatedGif`).
- An item over other items can have more bytes than a 64-bit number counts. The recursive resolver
  then refuses it and the scanner does not; `ScannerAgreement.ItemsAgree` has exactly this condition.
  With at most 16 extents on either level this takes a file of at least 2^56 bytes, so it is a limit of
  the design rather than something to be met with.
- The depth that the derived-image search reports is the length of some chain, not of the longest; no
  visited item is further away.
- The JPEG scanner looks for the text of an XMP packet before it looks for extended XMP. A part that
  shows such a text in its first 512 bytes, like one that begins with `<x:xmpmeta`, is reported as a
  packet of its own, and the packet cannot be joined (`JpegStreams.PacketSurvives` is exact,
  `JpegStreams.FirstPartIsHinted` has the inputs).
- In TIFF files with 64-bit offsets, a single pointer of 32 bits is read with the four bytes behind it,
  which is its value only if the least significant byte comes first (`TiffWriter.NarrowPointer`).

## Model

| member | source | states |
|---|---|---|
| ItemResolver.EnterItemResolve | src/openmeta/bmff_fields_decode.cc:3174-3195 | An item is entered exactly if the budget is not used up, fewer than 16 items are open and it is not one of them; then one step is spent and the path grows by it. |
| ItemResolver.GetIlocReferenceItem | src/openmeta/bmff_fields_decode.cc:3197-3218 | Reference number n of an item is its n-th `iloc` target in table order; none for number 0 or a truncated table. |
| ItemResolver.FindItemLocation | src/openmeta/bmff_fields_decode.cc:1590-1599 | The first location recorded for the item. |
| ItemResolver.ItemExtentSourceSize | src/openmeta/bmff_fields_decode.cc:3224-3271 | The size of what an extent is cut from is the length of the file, of `idat`, or of the flattened source item, and exactly the cost of that source is spent. |
| ItemResolver.ItemDataSize | src/openmeta/bmff_fields_decode.cc:3273-3321 | The size query succeeds if and only if the item flattens within the depth left and the budget covers its reference tree; the result is the length of the flattened bytes, the budget falls by one step per item visited, and the reported depth is that of the tree. |
| ItemResolver.ExtentsSize | src/openmeta/bmff_fields_decode.cc:3290-3320 | The loop over the extents adds up the lengths of what each extent flattens to, or fails at the first one that does not. |
| ItemReader.ReadItemDataByteAt | src/openmeta/bmff_fields_decode.cc:3323-3397 | Byte k is returned exactly if the item can be entered, one of its extents holds the byte, and the budget covers the cost of reaching it; extents after that one may be unresolvable. For an item that flattens these are the bytes of the flattening. |
| ItemReader.ReadFromExtents | src/openmeta/bmff_fields_decode.cc:3341-3396 | The search succeeds exactly if some extent holds byte k and the steps suffice: one step per item of every source passed, and the read below; the byte and the steps left are exact. |
| ItemReader.HolderIsUnique | src/openmeta/bmff_fields_decode.cc:3341-3376 | At most one extent holds a byte, whether or not the item flattens. |
| ItemReader.HeldInWhole | src/openmeta/bmff_fields_decode.cc:3341-3396 | In an item that flattens, the byte held by that extent is the byte of the flattening, at the same cost. |
| ItemData.CycleHasNoBytes | src/openmeta/bmff_fields_decode.cc:3174-3195 | An item that can reach itself by references flattens with no amount of fuel. |
| ItemData.ChainUsesFuel | src/openmeta/bmff_fields_decode.cc:3174-3195 | A chain of references from an item that flattens is shorter than the fuel, and its end flattens with what is left. |
| ItemData.NotOnPath | src/openmeta/bmff_fields_decode.cc:3174-3195 | An item that flattens is not on the chain of items that led to it, so the path check never rejects it. |
| ItemData.FuelMonotone | src/openmeta/bmff_fields_decode.cc:3273-3321 | More fuel changes neither the bytes nor the cost nor the height of an item that flattens. |
| ItemData.HeightSuffices | src/openmeta/bmff_fields_decode.cc:3273-3321 | The depth limit is exactly a height limit: an item flattens with fuel equal to its height. |
| OmittedLengths.RestOfSource | src/openmeta/bmff_fields_decode.cc:3300-3313 | An item with one extent of omitted length has what is left of its source, for every construction method: its size is that of the source minus the start, and with what precedes it it is the source. |
| OmittedLengths.WrittenOutSame | src/openmeta/bmff_fields_decode.cc:3300-3313 | Writing out the length that an item omits changes neither its bytes nor those of any other item. |
| LaidOutItems.LaidOutItemFlattens | src/openmeta/bmff_fields_decode.cc:3224-3321 | An item whose pieces were laid out in the file, in `idat` or in other items, with a location entry that says where, has exactly these pieces, in order. |
| LaidOutItems.TargetsInOrder | src/openmeta/bmff_fields_decode.cc:3197-3218 | The n-th `iloc` reference of an item in the table, among any other references, is its n-th target. |
| LaidOutItems.UnusableItemHasNoBytes | src/openmeta/bmff_fields_decode.cc:3283-3289 | An item without a location, or whose first location is in another file, has unknown extents or an unknown construction method, has no bytes. |
| ItemTowers.BudgetEdge | src/openmeta/bmff_fields_decode.cc:3174-3181 | A reference tree of 4096 items can be opened; the item over it, with 4097, cannot, though it has bytes. |
| ItemTowers.DepthEdge | src/openmeta/bmff_fields_decode.cc:3174-3181 | Of a tower of 17 items the 16th can be opened and the 17th cannot. |
| ItemCursor.InitItemDataCursor | src/openmeta/bmff_fields_decode.cc:3399-3427 | A cursor opens if and only if the item flattens within 16 levels at a cost of at most 4096 steps. |
| ItemCursor.ItemDataCursor.ReadU8 | src/openmeta/bmff_fields_decode.cc:3436-3457 | Reads the byte of the flattening at the cursor and advances by one, or fails and stays; it fails exactly at the end or if that byte is too dear for one budget. The depth that a read reports, also a failed one, leaves the recorded depth as it was. |
| ItemCursor.ItemDataCursor.ReadUintN | src/openmeta/bmff_fields_decode.cc:3494-3511 | Reads a big-endian number of up to eight bytes of the flattening; a failure leaves the cursor at the first byte that cannot be read. |
| ItemCursor.OpenableIsAcyclic | src/openmeta/bmff_fields_decode.cc:3174-3321 | From an item whose size is known, every chain of references has at most 16 items and never returns to one it has passed. |
| ItemCursor.ReadCostBound | src/openmeta/bmff_fields_decode.cc:3323-3397 | Reading one byte costs at most the height of the tree times the cost of the size query. |
| ItemCursor.CheapItemsReadable | src/openmeta/bmff_fields_decode.cc:3174-3457 | If the size query spent at most a sixteenth of the budget, every byte of the item can be read. |
| ItemCursor.PlainItemsReadable | src/openmeta/bmff_fields_decode.cc:3224-3271 | Items that refer to no others cost one step and are readable in full. |
| ItemStarvation.OpenableButNotReadable | src/openmeta/bmff_fields_decode.cc:3323-3397 | A concrete item that opens with two bytes, of which the first can be read and the second never can: opening does not promise reading. |
| ItemBudget.WorstIsBound | src/openmeta/bmff_fields_decode.cc:3323-3397 | No byte of a range of an item is dearer to read than the reference tree says. |
| ItemBudget.WorstIsReached | src/openmeta/bmff_fields_decode.cc:3323-3397 | Some byte of the range is exactly as dear. |
| ItemBudget.AllReadable | src/openmeta/bmff_fields_decode.cc:3436-3457 | All bytes of an item can be read if and only if the dearest one, found from its extents alone, is within one budget. |
| ScannerItems.CollectRefs | src/openmeta/container_scan.cc:4075-4240 | The reference table holds, for up to 64 distinct items of interest, their first 32 nonzero `iloc` targets in order; unless it is full it holds all such items. |
| ScannerItems.StoredAreFirst | src/openmeta/container_scan.cc:4075-4240 | What is stored of the targets of an item are the first 32 other than 0, over all its rows. |
| ScannerItems.CollectReferenced | src/openmeta/container_scan.cc:4437-4457 | The referenced ids are distinct targets, at most 64, and all of them unless there are too many. |
| ScannerItems.CollectLayouts | src/openmeta/container_scan.cc:4461-4663 | Exactly the referenced items that have an entry get a layout, that of their last entry; the table never overflows. |
| ScannerLayouts.BuildLayout | src/openmeta/container_scan.cc:4548-4661 | A layout is valid if and only if every extent lies in the file (and in `idat` for method 1), there are at most 64, and the lengths add up without overflow; then its maps tile [0, total). |
| ScannerLayouts.MapsTile | src/openmeta/container_scan.cc:4633-4660 | Each map continues where the one before it ends, and lies in the file. |
| ScannerLayouts.CoveredSlice | src/openmeta/container_scan.cc:4290-4363 | Inside one map, bytes of the item are bytes of the file at the matching offset. |
| ScannerLayouts.ResolveSlice | src/openmeta/container_scan.cc:4290-4363 | In a valid layout exactly the nonempty slices inside [0, total) resolve, and their parts concatenate to the bytes of the slice. |
| ScannerLayouts.TakeParts | src/openmeta/container_scan.cc:4325-4362 | From the map that holds the first byte, the parts are collected until the slice is complete; no check on the way fails for a tiled layout. |
| ScannerLayouts.PartsAreSlice | src/openmeta/container_scan.cc:4325-4362 | The parts that the maps contribute to a slice, one per map that overlaps it, are its bytes. |
| ScannerParts.ResolveItem | src/openmeta/container_scan.cc:4745-4834 | A method 2 item has parts if and only if it has 1 to 64 extents, every one a nonempty slice of a valid source, and at most 256 parts in all; the parts are determined and joined they are the bytes of the extents. |
| ScannerParts.ItemPartsAreBytes | src/openmeta/container_scan.cc:4757-4831 | The parts of extents that have bytes are, joined, these bytes. |
| ScannerAgreement.PlainItemsAgree | src/openmeta/container_scan.cc:4548-4661 | The layout of a method 0 or 1 item is valid exactly if the recursive resolver gives it bytes, and covers those bytes. |
| ScannerAgreement.ReferencesAgree | src/openmeta/container_scan.cc:4113-4134 | Both sides look up the same target for every reference number. |
| ScannerAgreement.ExtentsAgree | src/openmeta/container_scan.cc:4745-4820 | Each extent of an item over plain items is the same slice of the same bytes on both sides. |
| ScannerAgreement.ItemsAgree | src/openmeta/container_scan.cc:4745-4834 | The scanner's bytes of such an item are the flattening; one side has them if and only if the other has and their number fits 64 bits. |
| ScannerAgreement.ScanDerivedItem | src/openmeta/container_scan.cc:4366-4834 | From the parsed tables to the parts: for every comparable input the parts exist exactly if the item flattens (and fits 64 bits) and are then its bytes. |
| ReadableItems.ComparableItemsReadable | src/openmeta/bmff_fields_decode.cc:3399-3457 | Such an item costs at most 17 steps, so a cursor on it opens and every one of its bytes can be read. |
| ReadableItems.ScanAndRead | src/openmeta/container_scan.cc:4366-4834 | Both ways end to end: the bytes that the cursor reads are those of the ranges that the scanner finds, and one side has them if and only if the other has and their number fits 64 bits. |
| ExifPreamble.SkipBmffExifOffset | src/openmeta/container_scan.cc:513-537 | The offset field of an Exif item, and what it says to skip, are cut from the front of the block unless nothing would be left. |
| ExifPreamble.SkipExifPreamble | src/openmeta/container_scan.cc:477-510 | An Exif marker in front of a TIFF header is cut off, too. |
| ExifPreamble.PreambleRange | src/openmeta/container_scan.cc:477-537 | Both together change only the data range, by the length of the preamble, and the chunking mark. |
| ExifItems.GapIsSkipped | src/openmeta/container_scan.cc:513-537 | Of a written offset field of n with n bytes behind it exactly 4 + n bytes are skipped, whatever follows, as long as something does. |
| ExifItems.SkippedIsGap | src/openmeta/container_scan.cc:513-537 | Whatever is skipped is such a field with its bytes, and where nothing is skipped there is none. |
| ExifItems.SkippedIsMarker | src/openmeta/container_scan.cc:477-510 | A marker is skipped if and only if it stands in front of a TIFF header. |
| ExifItems.OffsetIsNoted | src/openmeta/container_scan.cc:530-536 | The block notes that there was an offset field, and its value. |
| ExifItems.PayloadIsTiff | src/openmeta/container_scan.cc:477-537 | TIFF data wrapped in any of the four ways, with its header in the first part, is handed over whole and without the wrapping. |
| ExifItems.ScanExifItems | src/openmeta/container_scan.cc:4366-4979 | From the writer to the extraction: after the scan of all items, extraction from any block of a comparable Exif item returns the TIFF data that was wrapped. |
| ScannerBlocks.EmitItem | src/openmeta/container_scan.cc:4837-4872 | One block per part, numbered, with its logical offset, in order; the first block of an Exif item without its preamble. |
| ScannerBlocks.BlocksCarry | src/openmeta/container_scan.cc:4837-4872 | The blocks of an item carry its data ranges in order, each starting in the stream where the one before it ends. |
| ScannerBlocks.DataIsPayload | src/openmeta/container_scan.cc:4855-4869 | The data ranges hold the bytes of the item, without the preamble if it is an Exif item. |
| ScannerBlocks.ItemExtracts | src/openmeta/container_payload.cc:588-755 | In any list of blocks, extraction from any block of an item returns the bytes of its ranges, as long as no other block belongs to the same stream. |
| ItemScan.EmitPlainItem | src/openmeta/container_scan.cc:4876-4975 | One block per extent of a method 0 or 1 item; extents that are out of place are skipped and keep their number. |
| ItemScan.EmitEntry | src/openmeta/container_scan.cc:4718-4975 | Items that are not of interest, or lie in another file, emit nothing; the others emit the blocks of their parts. |
| ItemScan.EmitItems | src/openmeta/container_scan.cc:4432-4978 | The tables are collected once, and the entries emit their blocks in the order of the table. |
| ItemScan.AgreeableHasRanges | src/openmeta/container_scan.cc:4745-4975 | An item of any construction method that the recursive resolver has bytes for has all its parts, and they are these bytes. |
| ItemScan.GroupsBetween | src/openmeta/container_scan.cc:4853 | Blocks of other items are of other groups, so they never join the stream of an item. |
| ItemScan.EntryIsDelivered | src/openmeta/container_scan.cc:4366-4979 | Wherever the blocks of an item are in the list, extraction from any of them returns the bytes that the recursive resolver gives the item. |
| ItemScan.ScanItems | src/openmeta/container_scan.cc:4366-4979 | End to end: after the scan of all items behind any blocks of other groups, with room for all, extraction from any block of any comparable item returns its flattening, without the preamble if it is an Exif item. |
| UnionFind.FindRoot | src/openmeta/bmff_fields_decode.cc:2227-2240 | Returns the root of a node; path compression changes no node's root. |
| UnionFind.Union | src/openmeta/bmff_fields_decode.cc:2242-2256 | Merges exactly the two classes, keeps parent[i] <= i, and the smaller root wins. |
| UnionFind.UnionFollowsEdge | src/openmeta/bmff_fields_decode.cc:2242-2256 | One union re-establishes that roots correspond to the edges seen so far. |
| UnionFind.RootsAreComponents | src/openmeta/bmff_fields_decode.cc:2401-2410 | Two nodes have the same root if and only if the edges connect them. |
| UnionFind.RootIsMinimum | src/openmeta/bmff_fields_decode.cc:2242-2256 | The root is the least index of its component. |
| SceneTable.FindSceneNodeIndex | src/openmeta/bmff_fields_decode.cc:2216-2225 | The position of an id in the table, if it is there. |
| SceneTable.Table.PushSceneNode | src/openmeta/bmff_fields_decode.cc:2258-2285 | A sighting adds a new nonzero id while there is room, or improves an unknown semantic, and changes nothing else. |
| SceneTable.SceneNodesProperties | src/openmeta/bmff_fields_decode.cc:2367-2391 | Ids are distinct, a nonzero primary item comes first, and below capacity every listed item and every end of a reference is in the table. |
| SceneSightings.SceneIsSighted | src/openmeta/bmff_fields_decode.cc:2258-2285 | The table lists ids in the order of their first sightings until it is full, each with the first known semantic among its sightings: as primary item, in the item list, and at the ends of references. |
| SceneRelations.ConnectedIsRelated | src/openmeta/bmff_fields_decode.cc:2401-2410 | Connection of table positions is relation of the items: a path of references in any direction, all within the table. |
| SceneRelations.CountedEdges | src/openmeta/bmff_fields_decode.cc:2448-2452 | The references counted for a component are those that leave one of its items. |
| SceneRelations.CountedKinds | src/openmeta/bmff_fields_decode.cc:2460-2487 | The kinds of references are told by their type codes, and the uses of auxiliary images by what is known of the source. |
| SceneStats.NodeStatsMeaning | src/openmeta/bmff_fields_decode.cc:2416-2446 | The node counter of a component is the number of its nodes, and the primary flag looks for the primary item among them. |
| SceneStats.SemanticCounterMeaning | src/openmeta/bmff_fields_decode.cc:2431-2442 | Each semantic counter is the number of nodes of the component with that semantic. |
| SceneStats.EdgeStatsMeaning | src/openmeta/bmff_fields_decode.cc:2448-2491 | The edge counter of a component is the number of edges whose source lies in it. |
| SceneStats.EdgeCounterMeaning | src/openmeta/bmff_fields_decode.cc:2460-2487 | Each relation counter, and each of the four uses of auxiliary images, is the number of edges of that kind whose source lies in the component. |
| SceneStats.NodeStatsBooks | src/openmeta/bmff_fields_decode.cc:2416-2446 | In every component the number of known nodes is that of image nodes plus that of metadata nodes, and both are sums of the counters of their semantics. |
| SceneStats.EdgeStatsBooks | src/openmeta/bmff_fields_decode.cc:2448-2491 | In every component the five relation counters add up to the edge counter, and counting edges leaves the node counters alone. |
| SceneStats.NodeCountsAddUp | src/openmeta/bmff_fields_decode.cc:2416-2446 | The node counts of all components add up to the size of the table. |
| SceneStats.EdgeCountsAddUp | src/openmeta/bmff_fields_decode.cc:2448-2491 | The edge counts add up to the number of edges with a known source: none is lost or counted twice. |
| SceneComponents.UnionEdges | src/openmeta/bmff_fields_decode.cc:2401-2410 | After the loop the parents represent connectivity by exactly the edges with both ends in the table. |
| SceneComponents.LabelNodes | src/openmeta/bmff_fields_decode.cc:2412-2446 | Components are numbered by first appearance of their roots, and every node is counted in its component. |
| SceneComponents.CountEdges | src/openmeta/bmff_fields_decode.cc:2448-2491 | Every edge with a known source is counted once, in the component of its source. |
| SceneComponents.SummarizeScene | src/openmeta/bmff_fields_decode.cc:2367-2491 | The nodes are in the order in which their ids are first met, each with the first known semantic; two nodes share a component if and only if references between items of the table lead from one to the other; every counter is the number of nodes or of references that it is named after; a nonzero primary item is in component 0 and in no other. |
| SceneComponents.SummaryAddsUp | src/openmeta/bmff_fields_decode.cc:2367-2491 | The node counters of all components sum to the number of nodes, and the edge counters to the number of references with a known source. |
| DerivedGraph.ValidateNode | src/openmeta/bmff_fields_decode.cc:3605-3651 | One call of the search keeps the search invariant: the path is a chain of `dimg` references, visited items point only to earlier ones, and missing sources are counted. |
| DerivedGraph.ClosedIsAcyclic | src/openmeta/bmff_fields_decode.cc:3605-3651 | A list of items that is closed under references to earlier entries has no cycle reachable from any of its members. |
| DerivedGraph.DanglingCounts | src/openmeta/bmff_fields_decode.cc:3640-3643 | The counter of missing sources is the number of dangling references of the visited items. |
| DerivedGraph.ValidateDerivedGraph | src/openmeta/bmff_fields_decode.cc:3605-3660 | The cycle flag is raised only for a real cycle, and for every one unless the path ran full; a self-reference is reported exactly if a visited item has one; all dangling references of visited items are counted, in every outcome; the depth is that of some chain, and no visited item is further away; unless the search stopped, the visited items are exactly the reachable ones, sources first. |
| PartSort.InsertionSort | src/openmeta/container_payload.cc:39-80 | The array is put, in place, into the order that the sort function defines. |
| PartSort.SortByKeyIsStableSort | src/openmeta/container_payload.cc:39-80 | That order is a permutation, sorted by key, and stable. |
| Payload.CopyBytes | src/openmeta/container_payload.cc:82-102 | Copies what fits, and returns how far the output is written. |
| Payload.ExtractGifSubblocks | src/openmeta/container_payload.cc:105-148 | Sub-blocks are joined up to the terminator or the end; result and buffer for every buffer size. |
| Payload.ExtractSingleBlock | src/openmeta/container_payload.cc:365-422 | A block that is its own stream is copied, or refused for a bad range, the output limit, or compression. |
| Payload.ExtractConcatParts | src/openmeta/container_payload.cc:481-526 | Parts are joined in order if each lies in the file and the running size keeps to the limit. |
| Payload.ExtractOffsetParts | src/openmeta/container_payload.cc:528-584 | Parts must tile the stream by their logical offsets; what was copied before a gap stays in the buffer. |
| Payload.CollectMembers | src/openmeta/container_payload.cc:613-649 | The scratch array receives the numbers of exactly the blocks of the stream, or the limit is reported. |
| StreamMembers.MembersAreOrder | src/openmeta/container_payload.cc:613-649 | If exactly the blocks of these numbers match the seed, the members are these numbers, ascending. |
| StreamMembers.SeedIsMember | src/openmeta/container_payload.cc:613-649 | Every block that is more than a single one is a member of its own stream. |
| Payload.ExtractPayload | src/openmeta/container_payload.cc:588-755 | For every input and buffer: result, and buffer contents, are those of the stream that the specification assembles without a buffer. |
| PayloadTheorems.ExtractionIsWhole | src/openmeta/container_payload.cc:588-755 | A successful extraction reports all bytes it handed over. |
| PayloadTheorems.SuccessIsPrefix | src/openmeta/container_payload.cc:82-102 | On Ok or OutputTruncated, written = min(buffer size, needed), the buffer holds that prefix of the stream, and the rest of it is untouched. |
| PayloadTheorems.IndexStreamJoins | src/openmeta/container_payload.cc:653-674 | Members that carry parts 0..n-1, in any order, are joined to exactly those parts. |
| PayloadTheorems.IndexStreamOnlyJoins | src/openmeta/container_payload.cc:653-674 | Conversely, a numbered stream that comes out Ok had each of the numbers 0..n-1 once, and is their concatenation. |
| PayloadTheorems.OffsetStreamTiles | src/openmeta/container_payload.cc:528-584 | An offset stream that comes out Ok tiles [0, logical size): each part starts where the one before it ends, lies at its own offset, and the sizes add up. |
| SplitStreams.ProfileExtracts | src/openmeta/container_payload.cc:426-439 | Blocks that hold the numbered pieces of one ICC profile, among any blocks that are not of it, are extracted to the profile, from any of them. |
| SplitStreams.PacketExtracts | src/openmeta/container_payload.cc:441-455 | Blocks that hold the pieces of one extended XMP packet at their offsets, among any others, also of another GUID, are extracted to the packet, whether it declares its size or not. |
| GifRoundTrip.CutIsJoined | src/openmeta/container_payload.cc:105-148 | Data cut into GIF sub-blocks of 1 to 255 bytes is extracted as it was, whatever follows the end of the list. |
| PayloadLimits.ExtractionKeepsLimits | src/openmeta/container_payload.cc:588-755 | What is extracted has no more bytes, and if it is split no more parts, than the caller allows. |
| RandomPayload.ExtractPayload | src/openmeta/container_payload.cc:951-1108 | The random-access form, against its own specification, for every input and buffer. |
| RandomRefinement.RandomRefinesMemory | src/openmeta/container_payload.cc:834-1108 | Whenever the in-memory form succeeds without decompression, the random-access form gives the same outcome; for GIF sub-blocks exactly if the terminator is present. |
| RandomRefinement.GifAgrees | src/openmeta/container_payload.cc:834-883 | The two GIF readers agree if and only if the terminator is present. |
| RandomRefinement.UnterminatedGif | src/openmeta/container_payload.cc:834-882 | One sub-block without a terminator: a concrete input that one reader accepts and the other refuses. |
| BlockSinks.BlockSink.SinkEmit | src/openmeta/container_scan.cc:158-171 | One more block: always counted; stored if there is room, else the status becomes OutputTruncated unless there is no output buffer at all. |
| BlockSinks.AllBlocksEmitted | src/openmeta/container_scan.cc:158-171 | In the end an output of any size holds the first blocks, the count is that of all, and truncation is reported if some are missing from a nonempty output. |
| JpegSegments.PrefixSuffices | src/openmeta/container_scan.cc:1201-1456 | At most 512 payload bytes of a segment decide which block it is. |
| JpegSegments.HashValues | src/openmeta/container_scan.cc:466-476 | Two published values of FNV-1a, as a check of its constants. |
| JpegContents.ContentIsFound | src/openmeta/container_scan.cc:773-1000 | Exif, XMP, extended XMP, ICC, MPF, Photoshop, FLIR, Casio, comment and vendor segments, as written, are found with their kind, their numbers and exactly the data behind the identifier. |
| JpegContents.HintedIsPacket | src/openmeta/container_scan.cc:803-815 | A segment 1 that is neither Exif nor XMP and shows the text of an XMP packet in its first 512 bytes is taken for one, with its whole payload. |
| JpegMarkers.LoneMarkerIsPassed | src/openmeta/container_scan.cc:720-749 | Markers without a payload, with any fill bytes before them, are passed over. |
| JpegMarkers.FillIsSkipped | src/openmeta/container_scan.cc:720-739 | Further fill bytes before a segment change nothing. |
| JpegMarkers.NoMarkerIsRefused | src/openmeta/container_scan.cc:722-725 | Where there must be a marker and is none, the file is malformed. |
| JpegMarkers.CutSegmentIsRefused | src/openmeta/container_scan.cc:753-771 | A segment that is announced longer than what is left makes the file malformed. |
| JpegScan.ScanJpeg | src/openmeta/container_scan.cc:704-1196 | Status, count and block list are those of the specification of a scan. |
| JpegScan.ScanPositionalJpeg | src/openmeta/container_scan.cc:1607-1718 | The same contract, over probes of at most 512 bytes and a normaliser of its own: the positional scanner agrees with the in-memory one on every input and capacity. |
| JpegScan.CollectSegments | src/openmeta/container_scan.cc:718-1014 | The walk visits exactly the segments of the file and emits the block of each. |
| JpegPlaces.ScanOfFrames | src/openmeta/container_scan.cc:704-1196 | A scan of written segments with room for all blocks has no objection, and lists the blocks of the segments in their order. |
| JpegStreams.ProfileSurvives | src/openmeta/container_scan.cc:884-904 | The round trip of a profile: cut into up to 255 pieces, written in any order among any other segments, scanned, and extracted from any of its blocks, it is what it was. |
| JpegStreams.PacketSurvives | src/openmeta/container_scan.cc:803-850 | The round trip of an extended XMP packet, with its exact condition: it comes back if and only if no part shows the text of an XMP packet in its first 512 bytes. |
| JpegStreams.FirstPartIsHinted | src/openmeta/container_scan.cc:803-815 | A part that begins like a packet shows that text. |
| JumbfGroups.ValidateBase | src/openmeta/container_scan.cc:1064-1110 | The numbers of a group run from the base without gap or repetition. |
| JumbfGroups.RestoreHeader | src/openmeta/container_scan.cc:1166-1192 | Only the first part of the group gets its box header back. |
| JumbfGroups.NormalizeGroup | src/openmeta/container_scan.cc:1049-1193 | Replaces every member of a group, and nothing else, by its normal form. |
| JumbfGroups.NormalizeApp11 | src/openmeta/container_scan.cc:1016-1193 | In place, every block becomes its normal form; groups do not interfere. |
| JumbfGroups.OtherBaseNeverValid | src/openmeta/container_scan.cc:1141-1152 | The second base that is tried can never be valid when the first one is not. |
| JumbfLoneParts.JoinedIfComplete | src/openmeta/container_scan.cc:1064-1162 | A group is joined if and only if its numbers run from 0 or from 1 without gap and without repetition. |
| JumbfLoneParts.LonePartExtracts | src/openmeta/container_scan.cc:1112-1192 | Each segment of any other group is extracted alone: its own copy of the box header, and its own data. |
| PositionalGroups.BaseIsValid | src/openmeta/container_scan.cc:1498-1537 | The positional scanner compares raw numbers and has no bound on the base; it accepts the same bases. |
| PositionalGroups.StandAlone | src/openmeta/container_scan.cc:1539-1561 | Every part of a group without a base stands alone, with its own header. |
| PositionalGroups.RestoreFirstHeader | src/openmeta/container_scan.cc:1583-1602 | The first part, and only it, gets its header back if it has one. |
| PositionalGroups.NormalizePositionalGroup | src/openmeta/container_scan.cc:1483-1602 | One group, and nothing else, is brought into normal form. |
| PositionalGroups.NormalizePositional | src/openmeta/container_scan.cc:1458-1604 | In place, every block becomes the same normal form as in the other scanner. |
| JumbfJoin.JoinReturnsBox | src/openmeta/container_scan.cc:1016-1193 | Blocks that hold the segments of a cut box, in any order among any others, extract from any of them to the box. |
| JumbfRoundTrip.WalkFindsFrames | src/openmeta/container_scan.cc:718-800 | The walk over a written file finds exactly the segments that were written and accepts the file. |
| JumbfRoundTrip.HeadIsRead | src/openmeta/container_scan.cc:944-983 | The number, the group and the data range that the scanner reads from the head of a segment. |
| JumbfRoundTrip.CutSurvives | src/openmeta/container_scan.cc:933-1193 | Round trip: a box cut into segments, written in any order among any other segments, is scanned into parts 0..n-1, and extraction from any of them returns the box. |
| JumbfRuns.MeasureRun | src/openmeta/container_scan.cc:2303-2318 | The number of fragments up to the next header, and where that is. |
| JumbfRuns.NumberRun | src/openmeta/container_scan.cc:2320-2342 | Every fragment of the run, and nothing else, gets its number, the count and the group. |
| JumbfRuns.NormalizeSplitJumbf | src/openmeta/container_scan.cc:2281-2350 | In place, every block becomes its normal form. |
| JumbfRuns.RunIsNumbered | src/openmeta/container_scan.cc:2281-2350 | The fragments of a run of more than one carry 0..n-1 in file order, the count n and the group of the run. |
| JumbfRuns.GroupsAreDistinct | src/openmeta/container_scan.cc:2320-2325 | No group is 0, and different runs have different groups. |
| JumbfRuns.StreamIsRun | src/openmeta/container_payload.cc:461-478 | The stream of a fragment is exactly its run. |
| JumbfRuns.RunIsJoined | src/openmeta/container_scan.cc:2281-2350 | Extraction from any fragment of a run returns the fragments of that run, joined in file order. |
| TiffScan.OffsetList.PushOffset | src/openmeta/container_scan.cc:5951-5963 | Zero is accepted without effect; anything else is pushed if there is room. |
| TiffScan.ScanEntry | src/openmeta/container_scan.cc:6152-6359 | One entry: pushes what it points to, then emits the blocks of its value; on overflow nothing is emitted. |
| TiffScan.ScanDirectory | src/openmeta/container_scan.cc:6089-6360 | One directory: pushes exactly its successors and emits exactly its blocks, or the stack had no room for them. |
| TiffScan.WalkDirectories | src/openmeta/container_scan.cc:6069-6362 | Terminates by (256 - visited, stack size); visited directories are distinct, in the file and reachable, and at the end exactly the reachable ones. |
| TiffScan.ScanTiff | src/openmeta/container_scan.cc:5979-6363 | Unless malformed is reported, the visited directories are exactly the reachable ones and the blocks exactly theirs; malformed means more than 256 directories or a full stack; all emitted ranges lie in the file. |
| TiffIfds.ClosedHoldsReachable | src/openmeta/container_scan.cc:6075-6360 | A list that contains the start and everything its members lead to contains all that is reachable. |
| TiffScan.CollectedInFile | src/openmeta/container_scan.cc:6152-6359 | Every emitted range lies in the file. |
| TiffWriter.HeaderIsRead | src/openmeta/container_scan.cc:5993-6068 | After a written header of either byte order and width, the scan begins at the first directory. |
| TiffWriter.EntryIsRead | src/openmeta/container_scan.cc:6152-6208 | A written entry of any known type is read: tag, type, count, and the range of its value, in the entry or elsewhere. |
| TiffWriter.BlocksAreOfField | src/openmeta/container_scan.cc:6261-6357 | A written field has a block if its tag is one of the five known ones, and one if its value is exactly one box of the two known types. |
| TiffWriter.PointersAreFollowed | src/openmeta/container_scan.cc:6209-6259 | The offsets of a written field of pointers are followed, zeros left out, up to 32 of one field. |
| TiffWriter.NarrowPointer | src/openmeta/container_scan.cc:6240-6252 | A single 32-bit pointer in a file with 64-bit offsets is followed if and only if the least significant byte comes first. |
| TiffFiles.SuccessorsAreTargets | src/openmeta/container_scan.cc:6089-6259 | A written directory leads to the next one and to what its fields point to. |
| TiffFiles.BlocksAreOfFields | src/openmeta/container_scan.cc:6152-6359 | Its blocks are those of its fields, in order. |
| TiffFiles.ReachableIsWritten | src/openmeta/container_scan.cc:6069-6150 | The directories that can be reached are those that written offsets lead to. |
| TiffFiles.ScanWrittenTiff | src/openmeta/container_scan.cc:5979-6363 | The scan of a written file, unless there are too many directories, reports the file and the blocks of the fields of exactly the directories that written offsets lead to, each once. |
| Iloc.ParseInvertsWrite | src/openmeta/bmff_fields_decode.cc:6919-7129 | For versions 0 to 2 and all field widths of 0 to 8 bytes, parsing a written table recovers it, whatever follows it. |
| IlocCuts.TableOfPrefix | src/openmeta/bmff_fields_decode.cc:6919-7129 | What is accepted stays what it is, whatever follows. |
| IlocCuts.CutTableIsRefused | src/openmeta/bmff_fields_decode.cc:6919-7129 | A written table from which anything is missing at the end is refused. |
| Iloc.TotalIsSum | src/openmeta/bmff_fields_decode.cc:7110-7114 | The overflow flag is raised exactly if the sum of all lengths exceeds 64 bits; otherwise the total is that sum. |
| IlocParser.LocationTable.CollectExtents | src/openmeta/bmff_fields_decode.cc:7079-7125 | The stored entry is updated after each extent: the first 16 are kept, the total or the flag is kept up to date. |
| IlocParser.LocationTable.CollectItem | src/openmeta/bmff_fields_decode.cc:6989-7126 | One item is parsed, counted, and stored if it is among the first 128. |
| IlocParser.CollectFromBox | src/openmeta/bmff_fields_decode.cc:6919-7129 | Succeeds exactly if the payload parses; the table then holds all items in their stored form. |
| IlocParser.WrittenIsStored | src/openmeta/bmff_fields_decode.cc:6919-7129 | Of a written table all items are counted, and the first 128 stored with their first 16 extents, their number of extents and their total or the flag. |
| TileTable.TileState.TakeRow | src/openmeta/bmff_fields_decode.cc:5924-5976 | A tile is valid exactly if it is empty or lies in the data behind all tiles before it; it gives the tile before it its size. |
| TileTable.TileState.ValidateOffsetTable | src/openmeta/bmff_fields_decode.cc:5876-5991 | Accepts exactly the tables that fit, of plain items, all of whose tiles are valid; the stored rows are the final ones; the check of the cursor at the end never fails. |
| TileTable.TilesTile | src/openmeta/bmff_fields_decode.cc:5940-5988 | In sequential tables without sizes, each tile ends where the next one starts, and the last one at the end of the item. |
| TileTable.SizesAddUp | src/openmeta/bmff_fields_decode.cc:5940-5988 | The sizes add up to the distance from the first tile to the end of the item. |
| TileWriter.AcceptedIsFitting | src/openmeta/bmff_fields_decode.cc:5924-5976 | A written table is accepted exactly if every tile with data lies in the item data and, where sizes are distances, behind the ones before it. |
| TileWriter.SizedRow | src/openmeta/bmff_fields_decode.cc:5924-5976 | In a table with sizes, each row has the written offset and size; an offset of 32 set bits stands for no data. |
| TileWriter.UnsizedRow | src/openmeta/bmff_fields_decode.cc:5924-5976 | Without sizes and order the rows have no sizes. |
| TileWriter.DistanceRow | src/openmeta/bmff_fields_decode.cc:5940-5988 | In order and without sizes, the tile of a row ends where the next tile with data starts, or with the item data. |
| Utf8.DecodeInvertsEncode | src/openmeta/bmff_fields_decode.cc:6655-6700 | Decoding an encoded text gives the text. |
| Utf8.EncodeInvertsDecode | src/openmeta/bmff_fields_decode.cc:6655-6700 | What decodes is the encoding of the result: overlong forms, surrogates and cut sequences do not decode. |
| Utf8.FirstIsEncoded | src/openmeta/bmff_fields_decode.cc:6663-6697 | A character is accepted only in its shortest form. |
| Utf8.ValidateCharacter | src/openmeta/bmff_fields_decode.cc:6659-6697 | The loop over the continuation bytes finds the character at a position and its length. |
| Utf8.ValidUtf8 | src/openmeta/bmff_fields_decode.cc:6655-6700 | Accepts a byte string if and only if it is the encoding of some sequence of Unicode scalar values. |
| Alignment.AlignUpIsLeast | src/openmeta/byte_arena.cc:23-42 | Whatever the mask arithmetic accepts, it rounds up to the least multiple of the alignment that is not below the value. |
| Alignment.PowerOfTwoTest | src/openmeta/byte_arena.cc:26-29 | For a positive number, and-ing it with its predecessor gives 0 if and only if it is a power of two. |
| Alignment.ClearedBitsRoundDown | src/openmeta/byte_arena.cc:34-40 | Clearing the bits below a power of two rounds down to a multiple of it. |
| Alignment.AlignUpAccepts | src/openmeta/byte_arena.cc:26-38 | Refused are exactly the alignments that are no powers of two and the values that would overflow. |
| Arena.AliasTestDecides | src/openmeta/byte_arena.cc:100-111 | The test of the address range is true exactly for sources that share bytes with the arena; other sources lie apart from its whole block. |
| Arena.SourceSurvives | src/openmeta/byte_arena.cc:113-119 | After the buffer has grown, at the noted offset or at the old address, the source still has the bytes it had. |
| Arena.ByteArena.Reallocate | src/openmeta/byte_arena.cc:53-61 | The contents move to a new block, the old one is live no more, and all other memory stays as it was. |
| Arena.ByteArena.Resize | src/openmeta/byte_arena.cc:113-113 | The buffer grows by zeros, in place or in a new block. |
| Arena.ByteArena.AppendBytes | src/openmeta/byte_arena.cc:83-122 | The source is an address range, in the arena or elsewhere: the buffer is extended by the bytes that were there when the call was made, or the request is refused; memory outside the arena is not changed. |
| Arena.ByteArena.AllocateBytes | src/openmeta/byte_arena.cc:135-159 | The buffer is extended by zeros up to the end of the aligned span; or the request is refused. |
| Arena.ByteArena.ConstrainMaxSize | src/openmeta/byte_arena.cc:64-74 | The ceiling only falls; the flag is set if the buffer exceeds it. |
| Arena.ByteArena.ReserveCapacity | src/openmeta/byte_arena.cc:53-61 | A capacity above the ceiling sets the flag; below it the block may move. The contents never change. |
| Arena.ByteArena.Clear | src/openmeta/byte_arena.cc:45-50 | Empties the buffer and clears the flag, and keeps the ceiling. |
| Arena.ByteArena.SpanBytes | src/openmeta/byte_arena.cc:176-187 | The bytes of a span, or none if it leaves the buffer. |
| Arena.PrefixRuns | src/openmeta/byte_arena.cc:64-159 | Over any run the buffer only grows at its end, the ceiling only falls, and the flag stays set. |
| Arena.SpansAreStable | src/openmeta/byte_arena.cc:83-187 | Over any run, nonempty spans are disjoint and resolve at the end to the bytes they were returned for. |
| Arena.RefusedChangesNothing | src/openmeta/byte_arena.cc:83-159 | A refused request returns the empty span, sets the flag, and leaves the buffer alone. |
| Arena.AllocationIsAligned | src/openmeta/byte_arena.cc:135-159 | An allocation is granted only for a power of two, and starts at the least multiple of it that is not below the old size. |
| ConsoleText.EscapeInverts | src/openmeta/console_format.cc:54-101 | Escaped text unescapes to the original, is printable throughout, and has no unescaped quote. |
| ConsoleText.ShownIsRead | src/openmeta/console_format.cc:54-101 | A text that was cut reads back as its beginning and the dots, and the closing quote is found. |
| ConsoleText.TextBuffer.AppendConsoleEscapedAscii | src/openmeta/console_format.cc:54-101 | Appends the escaped text up to the limit; the flag is false exactly if all bytes shown are printable ASCII and nothing was cut. |
| ConsoleText.TextBuffer.AppendHexBytes | src/openmeta/console_format.cc:104-125 | Appends two digits for each byte up to the limit, and dots if it was cut. |
| ConsoleText.HexIsRead | src/openmeta/console_format.cc:104-125 | Hexadecimal output reads back as the bytes. |
| CompatibilityDump.AppendField | src/openmeta/compatibility_dump.cc:37-45 | Appends a quoted field. |
| CompatibilityDump.AppendLimitedField | src/openmeta/compatibility_dump.cc:48-58 | Appends a quoted field of limited length. |
| CompatibilityDump.AppendU64Field | src/openmeta/compatibility_dump.cc:61-68 | Appends a numeric field. |
| CompatibilityDump.AppendBoolField | src/openmeta/compatibility_dump.cc:78-85 | Appends a boolean field. |
| CompatibilityDump.CompatibilityMetadataSink.OnItem | src/openmeta/compatibility_dump.cc:367-433 | Appends one numbered line with the groups of fields that the options ask for. |
| CompatibilityDump.DumpMetadataCompatibility | src/openmeta/compatibility_dump.cc:583-605 | The dump is the header line and one line per entry, numbered from 0. |
| CompatibilityDump.DumpIsParsed | src/openmeta/compatibility_dump.cc:336-433 | A dump parses back to its header and its entries, in order, with all their fields. |
| DumpReader.ItemIsRead | src/openmeta/compatibility_dump.cc:367-433 | Each field of an entry line, looked up by its name, says what the entry says; what was not asked for is not there. |
| DumpReader.HeaderIsRead | src/openmeta/compatibility_dump.cc:336-353 | So does each field of the header line. |
| DumpReader.DumpSaysItems | src/openmeta/compatibility_dump.cc:583-605 | The whole dump: its text parses to lines that say what the header and the entries say, in order. |
| Records.FieldIsParsed | src/openmeta/compatibility_dump.cc:37-85 | A printed field parses back to its name and value; a limited one to what was shown of it. |
| Records.RecordIsParsed | src/openmeta/compatibility_dump.cc:37-85 | A printed line parses back to its word and fields, and the parse stops at its end. |
| Records.RecordsAreParsed | src/openmeta/compatibility_dump.cc:336-433 | A sequence of printed lines parses back to the sequence. |
| Records.DecimalRoundTrip | src/openmeta/compatibility_dump.cc:22-28 | A printed number reads back as the number. |

## Left out

- Field output, `MetaStore` entries, names of enumeration values and the classification of items by their type strings: the semantics of items and the printed names are inputs here.
- Decompression: a build without zlib and Brotli is modelled, which reports compressed blocks as unsupported. The random-access entry point that falls back to decompression is not modelled.
- Files, devices, read windows and request limits: a read of the source returns exactly the bytes asked for.
- Property boxes, brands, auxC strings, CR3, RAF, X3F, CRW and MRW dispatch, the float arithmetic of the CCM query, generated tag tables.
- The parsing of box headers, `iref` and `infe`; the reference rows and the item list are inputs of the scanner model. The scanner's own reading of `iloc` fields is not repeated: its entries are inputs.
- The chunk walks of PNG and WebP around the fragment normalisation; the blocks they emit are described by `JumbfRuns.AsEmitted`.
- Shifts are written as arithmetic, and the masks of the alignment as a recursive bitwise `and`; only the FNV hash uses bit vectors.
- Allocation that fails: the memory of the arena is unbounded.
- A span is at most 2^63 - 1 bytes long (the largest C++ object), and a block list at most 2^32 - 1 blocks; the 32-bit counter of needed blocks is modelled as unbounded.
- ScannerAgreement.ScanDerivedItem: the agreement is stated for items over plain items where this item and those it refers to have written nonzero lengths and data reference 0, ids are distinct, and the tables are within the capacities of both sides, as the two resolvers differ elsewhere: an omitted length means "the rest" for one and may be refused by the other.
- DerivedGraph.ValidateDerivedGraph: is stated for a listed item, as its only callers pass one.
- Iloc.ParseInvertsWrite: the writer sets reserved bits to zero; the parser ignores them.
- CompatibilityDump.DumpMetadataCompatibility: the lines of the transfer dump are built from the same fields and are covered by `Records.RecordIsParsed`, but their field lists are not spelled out.
