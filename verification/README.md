# Geek Terminal: models of its algorithmic core

The terminal is a console host with the libraries it is built on. This project models the parts of it whose correctness is
not visible from reading one function, and proves what they promise:

- **Packing glyphs into a texture** (`Skyline`, `SkylineSearch`, `NodePool`, `PackerSearch`, `PackerUpdate`, `RectPacker`,
  `RectBatch`): a skyline kept as a linked list with a free list beside it. Everything packed lies inside the target and
  nothing overlaps, over any sequence of calls; the scan over nodes finds what a scan over all columns would, for both rules; the node pool is
  never corrupted and does not run dry while widths are multiples of the quantum.
- **Finding intervals in the buffer** (`IntervalTree`): queries answer like a linear filter.
- **Scrolling** (`Viewport`, `Scroll`): an overlapping in-place copy with clip and fill is a simultaneous move.
- **Input** (`InputEvents`, `InputCoalescing`, `InputText`, `ConsoleInput`): runs of reads that split, cache and encode lose,
  repeat and reorder nothing.
- **Line editing** (`CookedLayout`, `CookedRead`): layout terminates, and the cursor stays on screen.
- **Pseudoconsole output** (`VtWriter`, `CrlfTranslate`, `VtStartup`): nested writers send whole batches, line ends keep their
  meaning, and a session that is closed while it starts does not run.
- **Command history** (`CommandHistory`), **double-byte output** (`DbcsStream`), **argument quoting** (`ArgQuoting`) and
  **background removal** (`FloodFill`).

Objects that the program updates in place are classes (`Context`, `Screen`, `InputBuffer`, `CookedReadData`, `VtIo`, `Writer`,
`CommandList`, `Output`); loops are loops; arrays of rectangles are arrays. Startup and shutdown, which several
threads carry out, are a state machine over their atomic steps. Linked nodes are cells addressed by index. Answers of the
operating system (write results, thread creation, character conversion) are parameters.

`dafny verify dfyconfig.toml` checks everything.

## Where the code does not do what it seems to promise

Each is proved as an exact condition or shown by a concrete case in the table below.

- With a quantum above 1 the search uses the rounded width and the insertion the raw one. The comment that quantizing makes the
  nodes suffice does not hold (`Skyline.RawWidthsExhaustNodes`); it does from a new target on while all widths are multiples of
  the quantum, with best-fit if the target's width is one, too (`RectPacker.Context.PackRectangle`, `RectBatch.PackRects`).
  Best-fit insertions can also raise the skyline beyond the rectangle (`Skyline.PlaceEndExact`,
  `RectPacker.RaisedBeyondTheBox`).
- An empty vector that does not go into a bucket has its first interval looked at; `IntervalTree.Build` takes everything else.
  The center of two positions need not lie between them, since it is taken coordinate by coordinate; then one side of a split
  takes everything, and only the depth ends the construction (`IntervalTree.ProgressIff`, `IntervalTree.WrappedGoesRightForever`).
- The intersection of two viewports is empty whenever their common area begins at a negative coordinate, however far it
  reaches (`Viewport.IntersectIff`, `Viewport.NegativeCornerLosesAll`).
- A multibyte peek that cuts a character leaves its second half in the cache although the character stays stored
  (`InputEvents.PeekCanDuplicate`), a change of reading mode drops cached input, and consuming text counts code points where it
  drops units, so that surrogate pairs are repeated (`InputText.PairsAreRepeated`).
- Merging key events changes the stream for counts of zero and for sums beyond 16 bits (`InputCoalescing.CoalescingIsInvisible`,
  `InputCoalescing.MergingLosesPresses`). A read that fails has already lost what it took from the cache
  (`ConsoleInput.InputBuffer.FailingReadLosesEvent`).
- In a viewport one column wide a control character is never laid out and the loop does not end (`CookedLayout.LoopEndsIff`). A wide
  glyph that begins a run of text with one column left is dropped (`CookedLayout.RowShowsAll`, `CookedLayout.WideGlyphIsLost`);
  since the buffer is laid out in segments that end at the cursor and the dirty mark, moving the cursor is enough for that
  (`CookedRead.CursorHidesGlyph`).
- A stored lead byte is given up if the next chunk begins with a control byte (`DbcsStream.AgreesIffClean`, `DbcsStream.LeadIsGivenUp`).
- Duplicate suppression searches from index -1, finds nothing, and adds a duplicate after the command shown last was removed
  (`CommandHistory.AddKeepsDistinct`, `CommandHistory.DuplicateAfterRemoval`).
- A close request ends the host as long as no client has connected (`VtStartup.NobodyConnectedEndsTheHost`). One that comes between a
  client's connection and the start tells that client to close, but does not keep the session from running
  (`VtStartup.ClosedBeforeStartStillRuns`); and a second one during the start tells the clients to close although the start has
  not come to its end (`VtStartup.ActionUnderWay`, `VtStartup.SecondRequestActs`).

## Model

| member | source | states |
|---|---|---|
| `Skyline.RoofSlideLeft` | microsoft/oss/stb/stb_rect_pack.h:310-331 | sliding a rectangle left to the start of the segment under its left edge never makes it rest higher, which is why trying node positions is as good as trying every column |
| `Skyline.PlaceHeight` | microsoft/oss/stb/stb_rect_pack.h:471-495 | relinking changes the height of a column to the new top exactly from the left edge up to where the raise ends, and no other column |
| `Skyline.PlaceIsRaised` | microsoft/oss/stb/stb_rect_pack.h:471-495 | the new skyline is a skyline again (starts at 0, strictly increasing, same sentinel) and is the old one raised over one range |
| `Skyline.PlaceDropsNothing` | microsoft/oss/stb/stb_rect_pack.h:471-495 | no column is lower after an insertion, not even beyond the rectangle |
| `Skyline.RoofRises` | microsoft/oss/stb/stb_rect_pack.h:287-335 | on a skyline that never drops nothing comes to rest lower |
| `Skyline.PlaceEndExact` | microsoft/oss/stb/stb_rect_pack.h:483-495 | the raise ends at the rectangle's right edge if and only if the left edge is a node position or the segment under it ends by the right edge; otherwise the first kept node hides columns beyond the rectangle |
| `Skyline.PlaceKeepsPacking` | microsoft/oss/stb/stb_rect_pack.h:445-495 | putting a box at the height of the skyline keeps all boxes in bounds, pairwise disjoint and below the skyline |
| `Skyline.NodesSuffice` | microsoft/oss/stb/stb_rect_pack.h:241-258 | pigeonhole: with node positions on a grid of pitch a and n * a at least the width, a skyline has at most n + 1 nodes |
| `Skyline.PlaceOnGrid` | microsoft/oss/stb/stb_rect_pack.h:471-495 | an insertion whose edges are on the grid keeps all nodes on it |
| `Skyline.PlaceKeepsFloorLast` | microsoft/oss/stb/stb_rect_pack.h:460-495 | only the last segment is ever at floor level, as long as no insertion begins inside the floor |
| `Skyline.RawWidthsExhaustNodes` | microsoft/oss/stb/stb_rect_pack.h:241-258 | the quantized width does not guarantee nodes on its own: width 4, two nodes, two insertions of raw width 1 at bottom-left positions use all four nodes while a third rectangle still has room |
| `SkylineSearch.NoneBelowAnywhere` | microsoft/oss/stb/stb_rect_pack.h:361-387 | if no node position is acceptable then no integer column is |
| `SkylineSearch.LeftBestAnywhere` | microsoft/oss/stb/stb_rect_pack.h:361-387 | the best node position is at least as low as every integer column, and for bottom-left the least (y, x) over all of them |
| `SkylineSearch.SlideToEdge` | microsoft/oss/stb/stb_rect_pack.h:389-437 | from any lowest position one can slide to one with an edge on a node without more waste, and to the left if with as much: positions with an edge are as good as all columns for best-fit, too |
| `PackerSearch.FindMinY` | microsoft/oss/stb/stb_rect_pack.h:287-335 | the walk along the list returns the greatest height under the rectangle and the exact waste, for every position on a skyline with its floor at the end, which the packer's always is |
| `PackerSearch.Visit` | microsoft/oss/stb/stb_rect_pack.h:307-331 | one visited node keeps the running height, waste and width those of the columns walked so far, unless the walk begins inside a floor-level segment and goes on behind it |
| `PackerSearch.ScanLeft` | microsoft/oss/stb/stb_rect_pack.h:361-387 | the left-aligned scan holds the first best of all node positions that fit, or has seen none below the cap |
| `PackerSearch.LeftOutcome` | microsoft/oss/stb/stb_rect_pack.h:361-387 | what the scan has settled about every integer column: nothing fits, or the lowest height (bottom-left: lowest then leftmost; best-fit: least waste among left-aligned ones) |
| `PackerSearch.ScanRight` | microsoft/oss/stb/stb_rect_pack.h:406-437 | tries every node a rectangle can end at and ends with the least waste, and then the leftmost position, of all of those and the one in hand, at the same height |
| `PackerSearch.FindBestPos` | microsoft/oss/stb/stb_rect_pack.h:343-443 | returns a link to the right node and the best position of every integer column: lowest; then leftmost for bottom-left; then least waste and then leftmost for best-fit; none is returned only if no column has room |
| `PackerSearch.BestEverywhere` | microsoft/oss/stb/stb_rect_pack.h:389-437 | the best of all positions with an edge on a node is the best of all columns |
| `PackerSearch.NotInsideFloor` | microsoft/oss/stb/stb_rect_pack.h:406-437 | best-fit never begins inside the floor |
| `PackerUpdate.FreeRun` | microsoft/oss/stb/stb_rect_pack.h:481-489 | the nodes hidden by the rectangle go to the free list, which stays acyclic and disjoint from what is still active |
| `PackerUpdate.LinkIn` | microsoft/oss/stb/stb_rect_pack.h:467-479 | the new node is linked behind exactly the nodes left of it, the node under the left edge being kept if it starts earlier |
| `PackerUpdate.TakeFree` | microsoft/oss/stb/stb_rect_pack.h:460-465 | taking the first free node leaves both lists intact |
| `PackerUpdate.Stitch` | microsoft/oss/stb/stb_rect_pack.h:491-495 | stitching the rest back on gives one list whose first kept node starts no earlier than the right edge |
| `PackerUpdate.Relink` | microsoft/oss/stb/stb_rect_pack.h:460-518 | all list surgery of one insertion: active and free list stay acyclic, disjoint and together all nodes, and the active list shows exactly the skyline with the rectangle placed |
| `RectPacker.SearchDecides` | microsoft/oss/stb/stb_rect_pack.h:445-458 | the search yields a position that fits if and only if some integer column has room |
| `RectPacker.InsertedByPlace` | microsoft/oss/stb/stb_rect_pack.h:471-495 | the exact effect of an insertion on the skyline, including where the raise ends |
| `RectPacker.Context.constructor` | microsoft/oss/stb/stb_rect_pack.h:261-284 | a new target has all nodes free, the floor as skyline, and as quantum the least pitch at which its nodes reach across; 1 if there are as many nodes as columns |
| `RectPacker.Context.FreeNodeLeft` | microsoft/oss/stb/stb_rect_pack.h:455-518 | with all nodes on a grid of pitch a at which the nodes reach across the target (for a = 1: always on it) the free list is never empty at an insertion |
| `RectPacker.Context.PackAligned` | microsoft/oss/stb/stb_rect_pack.h:445-522 | succeeds exactly when a node is free and some column has room for the aligned width; then the box is added where the rule in force finds the best of all columns, and everything stays disjoint and in bounds; otherwise nothing changes |
| `RectPacker.Context.Insert` | microsoft/oss/stb/stb_rect_pack.h:460-495 | linking in keeps node pool, skyline and packing |
| `RectPacker.Context.Locate` | microsoft/oss/stb/stb_rect_pack.h:445-458 | finding a position decides whether there is room |
| `RectPacker.Context.PackRectangle` | microsoft/oss/stb/stb_rect_pack.h:349-522 | the same for a raw width that is rounded up for the search only; while the nodes are supplied and widths are multiples of the quantum, a rectangle is packed exactly when there is room, and the nodes stay supplied |
| `RectPacker.Context.StaysOnGrid` | microsoft/oss/stb/stb_rect_pack.h:343-495 | packing a width that is a multiple of the quantum keeps all nodes on its grid: bottom-left always, best-fit when the target's width is a multiple as well |
| `RectPacker.Context.MultiplesStay` | microsoft/oss/stb/stb_rect_pack.h:349-352 | rounding up to the quantum leaves multiples of it alone |
| `RectPacker.Context.AlignUp` | microsoft/oss/stb/stb_rect_pack.h:349-352 | the width the search works with is the least multiple of the quantum that is not below the raw width |
| `RectPacker.Context.QuantumIsLeast` | microsoft/oss/stb/stb_rect_pack.h:241-258 | the quotient rounded up is the least pitch at which the nodes reach across the target |
| `RectPacker.RaisedBeyondTheBox` | microsoft/oss/stb/stb_rect_pack.h:343-495 | a target of width 14 with three nodes: three best-fit insertions, of which the last raises two columns that it does not cover |
| `RectBatch.Sort` | microsoft/oss/stb/stb_rect_pack.h:551-552 | any sort: a permutation that is in order |
| `RectBatch.Compare` | microsoft/oss/stb/stb_rect_pack.h:524-540 | the two comparison functions decide taller first, then wider, and the original order |
| `RectBatch.Undone` | microsoft/oss/stb/stb_rect_pack.h:568-569 | sorting by the recorded index undoes the first sort exactly |
| `RectBatch.PackOne` | microsoft/oss/stb/stb_rect_pack.h:554-566 | one rectangle: it gets a place exactly when its turn offers a node and room, and then the best of all columns by the rule in force; empty ones go to the origin, the others get the largest coordinate |
| `RectBatch.PackAll` | microsoft/oss/stb/stb_rect_pack.h:554-566 | the loop treats every rectangle so in turn, touches nothing but positions, lets the skyline never drop, and keeps the nodes supplied if all widths are multiples of the quantum |
| `RectBatch.PhasesCompose` | microsoft/oss/stb/stb_rect_pack.h:542-577 | numbering, sorting, packing and sorting back leave the rectangles in the caller's order, each settled, taller ones placed earlier |
| `RectBatch.PackedAreDisjoint` | microsoft/oss/stb/stb_rect_pack.h:542-580 | every non-empty rectangle reported packed lies inside the target and overlaps neither another one of the call nor any box of an earlier call |
| `RectBatch.PackRects` | microsoft/oss/stb/stb_rect_pack.h:542-580 | the whole call: order kept, flags set exactly for empty and placed rectangles, every one treated fairly on its turn; with the nodes supplied and all widths multiples of the quantum they stay supplied, and what is left over fits nowhere in the end |
| `RectBatch.PackTallestFirst` | microsoft/oss/stb/stb_rect_pack.h:546-566 | the first half of the call: a permutation of the rectangles, tallest first, packed in turn |
| `RectBatch.JudgedInOrder` | microsoft/oss/stb/stb_rect_pack.h:568-569 | what holds of a rectangle's turn follows it back into the caller's order |
| `RectBatch.LeftOverHasNoRoom` | microsoft/oss/stb/stb_rect_pack.h:542-580 | with nodes to spare a rectangle that is left over does not fit anywhere in the end |
| `RectBatch.NoRoomLater` | microsoft/oss/stb/stb_rect_pack.h:542-580 | a rectangle without room on its turn has none afterwards |
| `RectBatch.Number` | microsoft/oss/stb/stb_rect_pack.h:546-549 | every rectangle remembers its index |
| `RectBatch.Flag` | microsoft/oss/stb/stb_rect_pack.h:571-579 | the flag is set exactly for rectangles that are empty or have a place |
| `IntervalTree.Build` | microsoft/oss/interval_tree/IntervalTree.h:118-210 | for every depth and all bucket sizes the tree is a search tree around its centers, points in reading order, and holds exactly the multiset of intervals given, split wherever levels remain and the intervals are not below both bucket sizes |
| `IntervalTree.BuildBelow` | microsoft/oss/interval_tree/IntervalTree.h:127-209 | the same after the depth has been counted down, which alone is what ends the construction |
| `IntervalTree.Split` | microsoft/oss/interval_tree/IntervalTree.h:164-209 | the intervals across the center stay in the node, and each side that has any becomes a tree of its own, one level down |
| `IntervalTree.Bucket` | microsoft/oss/interval_tree/IntervalTree.h:143-147 | the last level, or fewer intervals than both bucket sizes, is one node with all of them |
| `IntervalTree.Center` | microsoft/oss/interval_tree/IntervalTree.h:129-133 | the center of a node is the middle of the first start and the last stop, coordinate by coordinate |
| `IntervalTree.Partition` | microsoft/oss/interval_tree/IntervalTree.h:166-188 | three sorted parts that together are the input: left of, across and right of the center |
| `IntervalTree.ProgressIff` | microsoft/oss/interval_tree/IntervalTree.h:127-207 | neither side of a split takes all intervals if and only if the center lies between the first start and the last stop |
| `IntervalTree.MiddleBetweenIff` | microsoft/oss/interval_tree/IntervalTree.h:130-133 | on the screen it does unless the last stop is one row below the first start and left of it |
| `IntervalTree.WrappedGoesRightForever` | microsoft/oss/interval_tree/IntervalTree.h:127-209 | an interval from (9, 0) to (0, 1) lies behind its own center (4, 0), so that only the depth ends the construction |
| `IntervalTree.NodeIsIndex` | microsoft/oss/interval_tree/IntervalTree.h:190-209 | two correct subtrees and the intervals across the center make a correct tree |
| `IntervalTree.Sort` | microsoft/oss/interval_tree/IntervalTree.h:134-146 | a permutation sorted by start |
| `IntervalTree.Extremes` | microsoft/oss/interval_tree/IntervalTree.h:127-133 | the least start and greatest stop |
| `IntervalTree.Half` | microsoft/oss/interval_tree/IntervalTree.h:130-133 | a coordinate of the center is the middle rounded toward zero |
| `IntervalTree.Visit` | microsoft/oss/interval_tree/IntervalTree.h:214-231 | what the pruning skips could not have matched: each interval is visited as often as it occurs if it passes the filter, else never |
| `IntervalTree.FindOverlapping` | microsoft/oss/interval_tree/IntervalTree.h:242-274 | returns the multiset a linear filter for overlapping intervals returns |
| `IntervalTree.FindContained` | microsoft/oss/interval_tree/IntervalTree.h:256-283 | returns the multiset a linear filter for contained intervals returns |
| `IntervalTree.SelectCounts` | microsoft/oss/interval_tree/IntervalTree.h:242-264 | the linear filter keeps every occurrence of a matching interval and no other |
| `IntervalTree.KeepsMeans` | microsoft/oss/interval_tree/IntervalTree.h:242-264 | overlapping is having a point in common, contained is having no point outside |
| `IntervalTree.SameCounts` | microsoft/oss/interval_tree/IntervalTree.h:267-283 | equal counts are equal multisets |
| `IntervalTree.VisitsAll` | microsoft/oss/interval_tree/IntervalTree.h:284-313 | a full visit meets each interval once; the tree is empty exactly when there is none |
| `Viewport.IntersectIff` | microsoft/src/types/viewport.cpp:622-642 | the set intersection if and only if the rectangles do not meet or their common area begins at no negative coordinate |
| `Viewport.NegativeCornerLosesAll` | microsoft/src/types/viewport.cpp:622-642 | two equal rectangles from (-1, 0) to (5, 5) intersect to nothing |
| `Viewport.SubtractMeans` | microsoft/src/types/viewport.cpp:655-789 | the pieces of a subtraction cover exactly the set difference |
| `Viewport.WalkForward` | microsoft/src/types/viewport.cpp:289-301 | a forward step goes right, then to the next row, and stops at the last cell |
| `Viewport.WalkBackward` | microsoft/src/types/viewport.cpp:289-301 | a backward step goes left, then to the previous row, and stops at the first cell |
| `Scroll.SourceStillThere` | microsoft/src/host/output.cpp:93-113 | in the chosen walk direction no cell is read after it has been overwritten |
| `Scroll.CopyCells` | microsoft/src/host/output.cpp:93-113 | the overlapping in-place copy equals a simultaneous move |
| `Scroll.CopyRectangle` | microsoft/src/host/output.cpp:64-114 | either path moves the rectangle and changes nothing else |
| `Scroll.FillAll` | microsoft/src/host/output.cpp:413-430 | exactly the uncovered parts are filled |
| `Scroll.Areas` | microsoft/src/host/output.cpp:311-393 | the step by step rectangle arithmetic yields exactly: target = clip and shifted clipped source; fill = clip and source |
| `Scroll.Combine` | microsoft/src/host/output.cpp:397-430 | moving, then filling what the move left uncovered, is the one-line specification |
| `Scroll.NothingMeets` | microsoft/src/host/output.cpp:316-347 | if the clip misses the source nothing changes |
| `Scroll.Screen.ScrollRegion` | microsoft/src/host/output.cpp:304-431 | if no cell of the region may change nothing does; else every cell that may change (all of them without a clip rectangle) takes the old cell it is scrolled from, if that is in region and buffer, else the fill if it is in the region, a blank in the default attribute exactly for NUL with attribute 0; all others stay |
| `Scroll.Screen.Scroll` | microsoft/src/host/output.cpp:311-430 | the same once the fill cell and the clip area are known |
| `Scroll.CopyRows` | microsoft/src/buffer/out/textBuffer.cpp:806-876 | the whole-row shortcut, row by row in the chosen order, is a simultaneous move as well |
| `InputEvents.Emit` | microsoft/src/host/inputBuffer.cpp:400-445 | presses of one record are handed out until all are out or enough is read |
| `InputEvents.PerByte` | microsoft/src/host/inputBuffer.cpp:430-436 | a key once for every byte of its character, in order |
| `InputEvents.OneRecordStream` | microsoft/src/host/inputBuffer.cpp:398-450 | what a reader sees of one record: event k of press i is the record, its count taken out of a stream, with byte k of its character in a multibyte read |
| `InputEvents.DeliverMore` | microsoft/src/host/inputBuffer.cpp:396-453 | events handed out so far are a prefix of the stream, one record at a time |
| `InputEvents.ReadLoop` | microsoft/src/host/inputBuffer.cpp:393-458 | the loop takes whole units from the front until enough is read; what stays stored is the rest of the stream, partial repeat counts included; it succeeds if and only if every record it reaches has an encoding |
| `ConsoleInput.InputBuffer.Read` | microsoft/src/host/inputBuffer.cpp:372-471 | a read returns the next events of cache + stored stream; a removing read leaves exactly the rest; a peek leaves the stream unchanged if and only if its last unit is not cut; it fails if and only if a record it reaches has no encoding, and then leaves the records but loses what it took from the cache |
| `ConsoleInput.InputBuffer.ReadOneRecord` | microsoft/src/host/inputBuffer.cpp:372-471 | reading a lone record returns exactly those events, as many as asked for |
| `ConsoleInput.ReadEvents` | microsoft/src/host/inputBuffer.cpp:384-460 | the same on the two queues alone |
| `ConsoleInput.InputBuffer.ServeOne` | microsoft/src/host/inputBuffer.cpp:372-471 | one removing read, peek or write: if it is clean where it happens, it moves events from what is there to what is returned, or adds what is written |
| `ConsoleInput.InputBuffer.Serve` | microsoft/src/host/inputBuffer.cpp:372-471 | over any run of removing reads, peeks and writes that are all clean where they happen (a peek cuts no unit, a write is merged invisibly if at all), what is returned followed by what is still there is what was there followed by what was written; the run ends early only if a character has no encoding |
| `ConsoleInput.SteadyIsClean` | microsoft/src/host/inputBuffer.cpp:372-471 | removing reads, Unicode peeks and writes that cannot be merged are clean wherever they happen |
| `ConsoleInput.InputBuffer.FailingReadLosesEvent` | microsoft/src/host/inputBuffer.cpp:384-426 | a cached event in front of a record without an encoding is lost by a read that fails |
| `InputEvents.TakeAndDrop` | microsoft/src/host/inputBuffer.cpp:166-217 | caching the surplus makes returned events, cache and storage cut the stream at one point |
| `InputEvents.PeekedSurplus` | microsoft/src/host/inputBuffer.cpp:384-460 | a peek duplicates the cut-off part of its last unit, and only then |
| `InputEvents.UnicodeNeverOvershoots` | microsoft/src/host/inputBuffer.cpp:372-471 | Unicode peeks never cut a unit |
| `InputEvents.PeekCanDuplicate` | microsoft/src/host/inputBuffer.cpp:418-460 | a multibyte peek of one byte of a two-byte character does |
| `ConsoleInput.InputBuffer.WriteBuffer` | microsoft/src/host/inputBuffer.cpp:676-731 | every event is stored, a lone one possibly merged into the last record |
| `InputCoalescing.CoalescingIsInvisible` | microsoft/src/host/inputBuffer.cpp:747-781 | merging leaves the stream unchanged if and only if the two records are the same key, both counts are at least one and their sum fits 16 bits |
| `InputCoalescing.Coalesce` | microsoft/src/host/inputBuffer.cpp:747-781 | two moves of the mouse, or two presses of one key that is no surrogate, merge, and no others; positions are replaced and counts added in 16 bits |
| `InputCoalescing.WriteIsAppend` | microsoft/src/host/inputBuffer.cpp:676-781 | to a reader of any kind a write appends its events to the stream if and only if nothing is merged or the merging is invisible |
| `InputCoalescing.CleanWriteAppends` | microsoft/src/host/inputBuffer.cpp:676-781 | a write that is not merged, or merged invisibly, appends its events, whether or not they convert |
| `InputCoalescing.MergingLosesPresses` | microsoft/src/host/inputBuffer.cpp:762-777 | two presses counted zero become one event, and 0xffff and 1 presses become one |
| `InputCoalescing.CompareCopies` | microsoft/src/host/inputBuffer.cpp:762-777 | a run of equal units tells the number of copies and the unit |
| `InputText.EncodeStepwise` | microsoft/src/host/inputBuffer.cpp:82-121 | character by character: the room is filled exactly, and bytes written, cached and still to encode are the encoding of the source |
| `InputText.NextPoint` | microsoft/src/host/inputBuffer.cpp:87-96 | a lead and a trail surrogate make one code point, a lone one reads as the replacement character |
| `InputText.ToBytes` | microsoft/src/host/inputBuffer.cpp:55-56 | units are copied out low byte first |
| `ConsoleInput.InputBuffer.ConsumeWide` | microsoft/src/host/inputBuffer.cpp:38-56 | a Unicode read takes the next whole units of cache + source and leaves exactly the rest, a suffix of the source |
| `ConsoleInput.InputBuffer.ConsumeNarrow` | microsoft/src/host/inputBuffer.cpp:38-123 | a multibyte read writes the next bytes of cache + encoding; what it leaves is the remainder if and only if as many units as code points were encoded; what it returns is a suffix of the source |
| `ConsoleInput.InputBuffer.ConsumeAllNarrow` | microsoft/src/host/inputBuffer.cpp:38-123 | for every sequence of buffer sizes and every text without surrogate pairs: bytes written + bytes cached + encoding of what is left is the cached bytes + encoding there was |
| `ConsoleInput.InputBuffer.ConsumeAllWide` | microsoft/src/host/inputBuffer.cpp:38-56 | the same for Unicode reads of every text |
| `ConsoleInput.CopyUnits` | microsoft/src/host/inputBuffer.cpp:38-56 | cached units are copied first, then the source, as far as there is room for whole units |
| `InputText.DropTooFew` | microsoft/src/host/inputBuffer.cpp:96-120 | dropping code points instead of units leaves the right text only if the two counts agree |
| `InputText.EncodeSplit` | microsoft/src/host/inputBuffer.cpp:82-121 | encoding is cut only between code points |
| `InputText.NoPairsCutCleanly` | microsoft/src/host/inputBuffer.cpp:38-123 | without surrogate pairs every call cuts cleanly |
| `InputText.PairsAreRepeated` | microsoft/src/host/inputBuffer.cpp:96-120 | with a pair in the way a unit is handed out again |
| `CookedLayout.LayoutLine` | microsoft/src/host/readDataCooked.cpp:1297-1393 | laying out runs of plain text and control characters gives the row that laying out glyph by glyph gives |
| `CookedLayout.PlainRun` | microsoft/src/host/readDataCooked.cpp:1309-1347 | a run of plain text is placed as far as it fits |
| `CookedLayout.ControlRun` | microsoft/src/host/readDataCooked.cpp:1349-1385 | tabs stop at multiples of eight or the edge, other controls take two columns or pad the row |
| `CookedLayout.TabLeadsTo` | microsoft/src/host/readDataCooked.cpp:1356-1361 | a tab writes blanks up to the next multiple of eight, or the edge if that comes first, and no multiple lies before |
| `CookedLayout.ControlWrites` | microsoft/src/host/readDataCooked.cpp:1362-1376 | any other control character writes a caret and its letter if both fit, else it fills the row with blanks and stays for the next |
| `CookedLayout.RunLayout` | microsoft/src/host/readDataCooked.cpp:1309-1347 | fitting a whole run at once equals placing its glyphs one by one |
| `CookedLayout.RowBounds` | microsoft/src/host/readDataCooked.cpp:1297-1393 | a row never passes the limit, never goes back, and consumes input or fills the line |
| `CookedLayout.EdgeConsumes` | microsoft/src/host/readDataCooked.cpp:1297-1393 | from column 0 a row always consumes (two columns, or no control characters) |
| `CookedLayout.RowShowsAll` | microsoft/src/host/readDataCooked.cpp:1309-1347 | every plain glyph consumed is shown, in order, unless a wide glyph begins its run with one column left: that one is lost, and only then |
| `CookedLayout.WideGlyphIsLost` | microsoft/src/host/readDataCooked.cpp:1309-1347 | a tab and a wide glyph in nine columns: both are consumed, nothing is shown |
| `CookedLayout.RowShowsAllBut` | microsoft/src/host/readDataCooked.cpp:1309-1347 | a row shows as many glyphs as it takes, less one if it drops one |
| `CookedLayout.ReachesEnd` | microsoft/src/host/readDataCooked.cpp:131-142 | the layout loop reaches the end of the text |
| `CookedLayout.LoopEndsIff` | microsoft/src/host/readDataCooked.cpp:131-142 | the layout loop ends if and only if the width is at least 2 or no control character is left |
| `CookedLayout.StuckAtControl` | microsoft/src/host/readDataCooked.cpp:1369-1375 | in a single column a control character is never passed |
| `CookedRead.Measure` | microsoft/src/host/readDataCooked.cpp:131-142 | end column and newlines of a text laid out from a column |
| `CookedRead.EveryColumnTried` | microsoft/src/host/readDataCooked.cpp:114-127 | the zigzag around the guess visits every column |
| `CookedRead.ZigZag` | microsoft/src/host/readDataCooked.cpp:114-121 | the guess first, and then one column further to the right and to the left in turn |
| `CookedRead.FindStartColumn` | microsoft/src/host/readDataCooked.cpp:100-156 | the start column found ends nearest to the cursor of all columns, and nearer than all columns tried before it |
| `CookedRead.LayoutSegment` | microsoft/src/host/readDataCooked.cpp:948-969 | laying out a segment appends lines that show what the segment shows, and ends where the text walks to |
| `CookedRead.Segment` | microsoft/src/host/readDataCooked.cpp:940-976 | one segment: lines, what they show, and the cursor position, recorded exactly at the segment that ends in it |
| `CookedRead.LayoutBuffer` | microsoft/src/host/readDataCooked.cpp:923-1080 | the cursor's row is an existing line and its column is inside the width, for every cursor and dirty offset and origin; the lines show what the three segments show, and are dirty exactly from where the text in front of the dirty mark ends |
| `CookedRead.DirtyAfter` | microsoft/src/host/readDataCooked.cpp:962-966 | lines above the dirty mark are clean, its own line is dirty from its column on, lines below are dirty as a whole; what shows in front of the marks is what the clean text shows |
| `CookedRead.NextRow` | microsoft/src/host/readDataCooked.cpp:951-969 | one round of the loop continues the last line, or begins one if it is full |
| `CookedRead.VisibleIffNoneLost` | microsoft/src/host/readDataCooked.cpp:951-969 | a text laid out over rows shows all its plain glyphs in order if and only if no row drops one |
| `CookedRead.BufferVisibleIff` | microsoft/src/host/readDataCooked.cpp:931-976 | the buffer does if and only if none of its three segments drops one |
| `CookedRead.CursorHidesGlyph` | microsoft/src/host/readDataCooked.cpp:931-976 | moving the cursor between a narrow and a wide glyph in two columns makes the wide one vanish |
| `CookedRead.RowIsShown` | microsoft/src/host/readDataCooked.cpp:1097-1116 | the scroll arithmetic brings every existing row on screen and does not scroll when it already is |
| `CookedRead.LeastScroll` | microsoft/src/host/readDataCooked.cpp:1105-1111 | the content is scrolled by the least amount that brings the cursor's row on screen |
| `CookedRead.Page` | microsoft/src/host/readDataCooked.cpp:1097-1116 | the origin moves up as far as needed, the content scrolls as little as needed, the cursor is on screen |
| `CookedRead.Arrange` | microsoft/src/host/readDataCooked.cpp:921-1095 | the buffer is laid out a second time, from the left edge, exactly if it outgrows the viewport and did not begin there |
| `CookedRead.CookedReadData.Replace` | microsoft/src/host/readDataCooked.cpp:861-877 | the edit, and cursor and dirty mark stay inside the buffer for every offset |
| `CookedRead.CookedReadData.Redisplay` | microsoft/src/host/readDataCooked.cpp:907-1116 | draws exactly if something is dirty and echo is on; then the cursor ends up inside the viewport and inside the pager for every buffer, cursor, dirty mark, origin and previous scroll position, and the lines show what the segments show |
| `VtWriter.VtIo.constructor` | microsoft/src/host/VtIo.cpp:83-105 | nothing written, no writer alive |
| `VtWriter.VtIo.FlushNow` | microsoft/src/host/VtIo.cpp:470-555 | a flush hands the batch to the pipe exactly if no writer died, something was written and the pipe is open; the buffer of a write in flight is not touched before the write has been waited for |
| `VtWriter.Flush` | microsoft/src/host/VtIo.cpp:470-555 | a call is made exactly if the pipe is open, the wait for an earlier write did not fail, something was written and no writer died; a write is in flight afterwards exactly if that call was answered so; the pipe closes, and closing is asked for, exactly for a failed wait or a broken pipe |
| `VtWriter.VtIo.Uncork` | microsoft/src/host/VtIo.cpp:461-468 | the pipe is touched only when the last writer ends |
| `VtWriter.Writer.constructor` | microsoft/src/host/VtIo.cpp:430-437 | a new writer joins the current batch |
| `VtWriter.Writer.WriteBytes` | microsoft/src/host/VtIo.cpp:566-569 | bytes are appended to the current batch, nothing leaves |
| `VtWriter.Writer.BackupCursor` | microsoft/src/host/VtIo.cpp:557-564 | the cursor is saved once per batch |
| `VtWriter.Writer.SubmitBatch` | microsoft/src/host/VtIo.cpp:455-459 | handing in ends the writer; only the outermost one touches the pipe |
| `VtWriter.Writer.Destroy` | microsoft/src/host/VtIo.cpp:439-448 | a writer that was not handed in spoils its batch; one that was does nothing |
| `VtWriter.SizeTells` | microsoft/src/host/VtIo.cpp:470-513 | comparing the size with four bytes (or none) tells exactly whether a writer wrote something |
| `VtWriter.SavedAndRestoredOnce` | microsoft/src/host/VtIo.cpp:557-564 | a saved batch is: what was written before the first request, one save, the rest, one restore at the very end |
| `VtWriter.DepthOfCurrent` | microsoft/src/host/VtIo.cpp:430-468 | the writers alive are those of the unfinished batch |
| `VtWriter.RunsAreBatches` | microsoft/src/host/VtIo.cpp:430-468 | every run falls into batches, each with a writer alive from its first step to its last, and together they are the run |
| `VtWriter.OnlyTheOutermostSends` | microsoft/src/host/VtIo.cpp:461-468 | the pipe changes only when the outermost writer ends |
| `VtWriter.CallsFollowBatches` | microsoft/src/host/VtIo.cpp:470-555 | over every run the writes are the batches' payloads in order, all of them while the pipe is open, none after it broke; closing is asked for once, exactly if the pipe broke |
| `VtWriter.InFlightIff` | microsoft/src/host/VtIo.cpp:470-555 | over every run a write is in flight exactly when the last batch made a call and the answer was that it is |
| `VtWriter.WaitDecides` | microsoft/src/host/VtIo.cpp:481-492 | a wait that fails closes the pipe, asks once for the end and keeps the waiting batch back; one that succeeds lets it go out |
| `VtWriter.ClosedStaysSilent` | microsoft/src/host/VtIo.cpp:515-520 | a closed pipe sees nothing more |
| `CrlfTranslate.WriteTranslateCRLF` | microsoft/src/host/VtIo.cpp:608-645 | the output is the text with a CR before each LF that follows neither CR nor LF |
| `CrlfTranslate.SameScreen` | microsoft/src/host/VtIo.cpp:608-645 | for every terminal whose CR is idempotent and whose LF keeps the column, and every start state, the output with bare LF does what the text does with LF that also returns |
| `CrlfTranslate.SameScreenOverWrites` | microsoft/src/host/VtIo.cpp:608-645 | the same over any sequence of writes, without memory between them |
| `CrlfTranslate.Idempotent` | microsoft/src/host/VtIo.cpp:608-645 | translating again changes nothing |
| `CrlfTranslate.ScreenIsLawful` | microsoft/src/host/VtIo.cpp:608-645 | a scrolling, wrapping screen is such a terminal |
| `VtStartup.Kept` | microsoft/src/host/VtIo.cpp:154-240 | every step of every thread keeps the invariant tying state, close requests and close actions |
| `VtStartup.KeptOverRun` | microsoft/src/host/VtIo.cpp:154-240 | so does every interleaving |
| `VtStartup.RunningMeansUndisturbed` | microsoft/src/host/VtIo.cpp:154-240 | running is reached only if no close request came in while the start was under way |
| `VtStartup.FinishDecides` | microsoft/src/host/VtIo.cpp:228-240 | a start that gets to its end succeeds if and only if none did |
| `VtStartup.FailedForGood` | microsoft/src/host/VtIo.cpp:228-238 | a failed start never becomes running |
| `VtStartup.AbandonedNeverRuns` | microsoft/src/host/VtIo.cpp:162-174 | nor does one given up because the input thread could not be made |
| `VtStartup.ClosedOnce` | microsoft/src/host/VtIo.cpp:297-319 | a request takes effect at most once: the clients are told to close or the host exits, never both; one does exactly if there was a request besides the one that made the start fail |
| `VtStartup.ActionNeverWhileStarting` | microsoft/src/host/VtIo.cpp:297-319 | no request takes effect in the starting state, and any request in another state has had effect |
| `VtStartup.NobodyConnectedEndsTheHost` | microsoft/src/host/VtIo.cpp:107-112 | as long as no client ever connected, any request ends the host, and nothing follows it |
| `VtStartup.RunningHadClients` | microsoft/src/host/VtIo.cpp:297-319 | a session that runs after a request had a client to tell |
| `VtStartup.ActionUnderWay` | microsoft/src/host/VtIo.cpp:297-319 | while the start is still under way they are told exactly by the second request, if there was none before the start |
| `VtStartup.SecondRequestActs` | microsoft/src/host/VtIo.cpp:297-319 | a run in which the greeting breaks and the signal side asks again: the clients are told to close with the start under way |
| `VtStartup.UndisturbedUntilGreeted` | microsoft/src/host/VtIo.cpp:162-215 | before the terminal has been greeted no request can disturb a start, in any interleaving |
| `VtStartup.StartWithoutInputSucceeds` | microsoft/src/host/VtIo.cpp:162-240 | without a greeting a start that gets to its end succeeds |
| `VtStartup.ClosedBeforeStartStillRuns` | microsoft/src/host/VtIo.cpp:297-319 | a request between a client's connection and the start tells that client to close, yet the session still becomes running |
| `VtStartup.GoneIff` | microsoft/src/host/output.cpp:452-467 | the host is gone exactly when the first request that takes effect found no client in the process list |
| `CommandHistory.Search` | microsoft/src/host/history.cpp:458-474 | the first match going back around the ring, or none if there is none; an index out of range ends the search without a match |
| `CommandHistory.SearchIsComplete` | microsoft/src/host/history.cpp:458-474 | from an index inside the list the cyclic search finds a match if and only if there is one |
| `CommandHistory.FoundOnce` | microsoft/src/host/history.cpp:458-474 | the match found is determined |
| `CommandHistory.HitIffPresent` | microsoft/src/host/history.cpp:458-474 | an exact search finds a command if and only if it is in the list |
| `CommandHistory.CommandList.constructor` | microsoft/src/host/history.cpp:319-327 | a new history is empty and valid |
| `CommandHistory.CommandList.FindMatchingCommand` | microsoft/src/host/history.cpp:432-477 | where the search begins, what it finds, and that it uses up the reset flag |
| `CommandHistory.CommandList.Remove` | microsoft/src/host/history.cpp:408-428 | exactly that command leaves the list, and the index shown last stays with its command or becomes -1 |
| `CommandHistory.CommandList.Add` | microsoft/src/host/history.cpp:89-154 | fails exactly without room; otherwise the old copy found and, if full, the oldest command give way to the new one |
| `CommandHistory.CommandList.Retrieve` | microsoft/src/host/history.cpp:170-192 | an older request shows index max(0, last - 1), or the last one again right after a reset; a newer one min(n - 1, last + 1); only an older request uses up the reset flag |
| `CommandHistory.CommandList.RetrieveNth` | microsoft/src/host/history.cpp:194-204 | the index is clamped to the list, and 0 for an empty one |
| `CommandHistory.CommandList.Swap` | microsoft/src/host/history.cpp:491-500 | exactly the two entries trade places, or nothing happens for an index outside the list |
| `CommandHistory.CommandList.Realloc` | microsoft/src/host/history.cpp:239-251 | exactly the first commands that fit the new size stay, and the last of them is shown last |
| `CommandHistory.CommandList.Empty` | microsoft/src/host/history.cpp:211-216 | an empty list that starts over |
| `CommandHistory.RoomIsMade` | microsoft/src/host/history.cpp:109-127 | after making room the new command fits and the index shown last is at most one behind the list, so it is in range once the command is in |
| `CommandHistory.AddedIsValid` | microsoft/src/host/history.cpp:89-154 | adding keeps the bound and the range of the index, and the new command is the one shown last |
| `CommandHistory.StepIsValid` | microsoft/src/host/history.cpp:89-251 | every operation keeps: at most max commands, index between -1 and max(0, n - 1), -1 in a non-empty list only if it is not full |
| `CommandHistory.Run` | microsoft/src/host/history.cpp:89-251 | so does every run |
| `CommandHistory.AddKeepsDistinct` | microsoft/src/host/history.cpp:89-154 | suppressing duplicates keeps the commands distinct if and only if not: nothing shown last, reset flag set, and an old copy other than the newest in the list |
| `CommandHistory.DistinctIffNeverBlind` | microsoft/src/host/history.cpp:89-251 | over every run that always suppresses duplicates the commands are distinct throughout if and only if no addition is blind to an old copy |
| `CommandHistory.DistinctForever` | microsoft/src/host/history.cpp:89-251 | over every run that only adds with suppression and never removes the command shown last from among others, the commands stay distinct |
| `CommandHistory.DuplicateAfterRemoval` | microsoft/src/host/history.cpp:408-447 | a run from a new history that only adds with suppression and removes once ends with a duplicate |
| `DbcsStream.IsLeadByte` | microsoft/src/host/dbcs.cpp:56-75 | a byte is a lead byte exactly if a range before the terminator holds it |
| `DbcsStream.RangesMean` | microsoft/src/host/dbcs.cpp:56-75 | a byte is in the ranges exactly if a pair of bounds in front of the first zero encloses it |
| `DbcsStream.CheckBisect` | microsoft/src/host/dbcs.cpp:23-48 | true exactly if decoding the string leaves a lead byte pending |
| `DbcsStream.MultiByteToWide` | microsoft/src/host/_stream.cpp:585-589 | an uncut string converts to its decoding |
| `DbcsStream.Output.WriteConsoleA` | microsoft/src/host/_stream.cpp:518-650 | text and new stored byte are the decoding of the kept stored byte followed by the chunk |
| `DbcsStream.Output.WriteAll` | microsoft/src/host/_stream.cpp:518-650 | a run of calls, one for each chunk, decodes what the fold over the chunks says, and every call reports its own size |
| `DbcsStream.Reported` | microsoft/src/host/_stream.cpp:617-650 | the count adds up: the bytes of the text and the pending byte are all bytes |
| `DbcsStream.DecodeConcat` | microsoft/src/host/_stream.cpp:518-592 | decoding resumes with what was pending |
| `DbcsStream.ChunksDecodeWhole` | microsoft/src/host/_stream.cpp:518-592 | pieces cut cleanly decode to what the whole stream does |
| `DbcsStream.AgreesIffClean` | microsoft/src/host/_stream.cpp:538-572 | chunked and whole decoding agree if and only if no chunk begins with a control byte while a lead byte waits |
| `DbcsStream.LeadIsGivenUp` | microsoft/src/host/_stream.cpp:538-572 | a lead byte and a control byte cut apart decode differently from the two together |
| `DbcsStream.EveryCutAgrees` | microsoft/src/host/_stream.cpp:538-572 | a stream decodes the same however it is cut if and only if no trail byte is a control byte |
| `DbcsStream.WrittenCounts` | microsoft/src/host/_stream.cpp:518-592 | text, pending byte and bytes given up are all bytes of the run |
| `ArgQuoting.EscapeArgument` | microsoft/src/host/ConsoleArguments.cpp:33-104 | for every argument the output denotes it, and text with nothing to escape is left alone |
| `ArgQuoting.GetClientCommandline` | microsoft/src/host/ConsoleArguments.cpp:340-375 | the command line splits into exactly the arguments taken, which leave the list |
| `ArgQuoting.PlainDenotesItself` | microsoft/src/host/ConsoleArguments.cpp:33-60 | text without blanks, quotes and backslashes denotes itself |
| `ArgQuoting.BlanksSeparate` | microsoft/src/host/ConsoleArguments.cpp:40-60 | a space or a tab between plain words separates two arguments, any other plain character joins them |
| `ArgQuoting.QuoteArgument` | tools/installer/GeekTerminalLauncher.cpp:8-34 | for every argument the output denotes it |
| `ArgQuoting.JoinQuoted` | tools/installer/GeekTerminalLauncher.cpp:51-58 | the joined line splits into exactly the list of arguments |
| `ArgQuoting.AppendToken` | tools/installer/GeekTerminalLauncher.cpp:51-58 | a token after a blank adds its own argument and no more, whatever came before |
| `ArgQuoting.EarlierArgs` | tools/installer/GeekTerminalLauncher.cpp:51-58 | what was read before plays no part in reading on |
| `FloodFill.RemoveGreen` | tools/workspace-icons/import_workspace_icon.py:26-55 | terminates and clears exactly the pixels joined to a green border pixel by a 4-connected path of green pixels; fails exactly for pictures with rows but no columns or columns but no rows |
| `FloodFill.ScanBorder` | tools/workspace-icons/import_workspace_icon.py:33-47 | every green border pixel is queued and nothing else; a pixel outside the picture is asked for exactly if one dimension alone is zero |
| `FloodFill.Enqueue` | tools/workspace-icons/import_workspace_icon.py:52-55 | a pixel is queued once, when it is green and new |
| `FloodFill.Spread` | tools/workspace-icons/import_workspace_icon.py:52-55 | all green neighbours are reached |
| `FloodFill.PathsStayInside` | tools/workspace-icons/import_workspace_icon.py:49-55 | a set closed under green neighbours that holds the green border holds every green path from it |
| `FloodFill.Exactly` | tools/workspace-icons/import_workspace_icon.py:49-55 | an empty queue means the cleared set is exactly the joined pixels |

## Left out

- Integer width: C `int` coordinates, sizes and counts are unbounded; only the 16-bit repeat count of key events wraps. The packer
  takes widths of 1 to 0x7fffffff, heights of at most 1 << 30 (its own "infinite" height) and rectangles that are not negative.
- RectPacker.Context.PackRectangle: that nodes suffice is stated for widths that are multiples of the quantum; which other sequences of
  widths exhaust them depends on the whole history.
- PackerSearch.Visit: what a walk that begins inside a floor-level segment and goes on behind it counts is not stated; no such walk exists in a
  target the packer has filled.
- RectBatch.Sort: the C library's sort is any permutation in order; the order of equal rectangles is not fixed.
- IntervalTree.Sort: likewise; coordinates are unbounded, interval values are integers, and `is_valid`, which says nothing about stops, is not modelled.
- Scroll.Screen.ScrollRegion: cells hold one character and one attribute; wide characters cut in half, images, line renditions, redraw
  and accessibility events are not modelled.
- ConsoleInput.InputBuffer.Read: waiting, the key suspension state and reset of the wait event are not modelled.
- ConsoleInput.InputBuffer.WriteBuffer: VT input mode and the suspension of output by a key are not modelled.
- ConsoleInput.InputBuffer.ConsumeNarrow: conversion is a parameter that never yields an empty encoding; a failing conversion is not modelled.
- CookedLayout.LayoutLine: glyphs take one or two columns and offsets count glyphs, so zero-width clusters are not modelled.
- CookedRead.CookedReadData.Redisplay: popups, the text sent to the terminal, the erasing of old tails and the accessibility of earlier
  lines are not modelled.
- VtWriter.VtIo.FlushNow: the release of oversized buffers and the case of a conversion too large to append are not modelled.
- CrlfTranslate.WriteTranslateCRLF: characters are not converted to UTF-8; the conversion works piece by piece and leaves CR and LF alone.
- VtStartup.KeptOverRun: a request runs as one step because it holds the console lock throughout; the wait of three seconds may end at any
  time. The process list is empty or not; which clients it holds is not modelled.
- CommandHistory.DistinctForever: one direction only; the exact condition over runs is `CommandHistory.DistinctIffNeverBlind`.
- CommandHistory.CommandList.constructor: the shared list of histories, application names and process handles are not modelled.
- DbcsStream.Output.WriteConsoleA: the UTF-8 branch, a failing conversion, a code page changed between writes and suspended output are not modelled.
- ArgQuoting.JoinQuoted: the program name, which Windows splits by other rules, is not part of the line.
- Popups, aliases, titles, settings, rendering and the sample programs: not modelled, since they would only add easy members.
