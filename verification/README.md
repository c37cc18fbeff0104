# A verified model of the 9x kernel's memory management and console

This project models five parts of the 9x kernel in Dafny and proves what they are for.

* **The virtual-memory tree** (`vma_*.dfy`): the leaf-oriented red-black tree of a process's address
  space, on an arena of nodes with parent links that is rewritten in place. `VmaTree.VMATree` follows the
  kernel's search, rotations, insertion and deletion write by write. Beside the arena stands the ghost tree
  it holds (`shape`) and, inside an operation, a zipper: the path from a node to the root and the subtree at
  that node. Read from left to right a tree is a row of areas that tile the user address range, and the used
  areas are the segments. `Valid` says: the arena holds exactly `shape` and nothing else, search order,
  red-black balance with a black root, exact cached gap sizes, exact leaf sizes, and no two neighbouring
  gaps. Insertion adds one segment, deletion removes one, and nothing else changes. `nodesLeft` counts the nodes
  that can still be reserved, and every operation says how many it takes or gives back. `vma_temp.dfy` and
  `vma_safety.dfy` say when a deletion with the kernel's one temporary node does that, and
  `vma_losses.dfy` shows how it does not.
* **The mapping protocol** (`vma_tasks.dfy`, `vma_allocator.dfy`): requests that lock a segment, tasks that
  run in slices, and their completion, as a state machine whose every interleaving keeps one lock per task.
  `VmaAllocator.Serve` runs any schedule of requests on the tree and follows that machine up to the first
  deletion that ends badly.
* **Physical pages and page tables** (`words.dfy`, `paging.dfy`, `page_bitmap.dfy`, `page_tables.dfy`,
  `entry_words.dfy`, `page_allocation.dfy`): the first-fit bitmap allocator and the four-level tables that
  take their pages from it, over the 4-level paging of section 4.5 of the Intel SDM, Volume 3A. Every held
  page is accounted for exactly once, and the tables form a tree, so writing one entry changes one
  translation. `Extended` is everything that a mapping may change in the tables, entry by entry and flag by flag. `PageAllocator` methods take the four table indices of an address; `PathIsPage` says that
  these are the same thing as its 48-bit page number.
* **The kernel heap** (`heap_header.dfy`, `heap_blocks.dfy`, `heap.dfy`): first fit with splitting and
  joining, over headers in memory whose words hold what was written. A list without free neighbours is
  determined by its used blocks (`UsedDetermine`), and both operations say which used blocks there are.
* **The console** (`core_graphics.dfy`, `terminal_colors.dfy`, `terminal_font.dfy`, `terminal_text.dfy`,
  `terminal.dfy`) and the
  **cpio reader** (`cpio.dfy`): the screen as a window on endless output, incremental drawing that agrees
  with a full redraw, and file lookup as the inverse of encoding.

`wrappers.dfy` and `arithmetic.dfy` hold what several parts share.

Where the code departs from its apparent intent, the model says so:

* A tree has one temporary node for deletions, and a deletion that has put a leaf into it leaves it linked
  (`vma.rs:195-199`, `1149-1156`, `1193-1202`). `VMATree` takes this node as the parameter `sharedTemp`:
  `Some(n)` is the kernel as written, `None` stands for an unused node each time. `RemoveFate` says how the
  removal of one branch ends. At the moment a linked node is written, the root leads to no tree
  (`Overwrites`). Freeing it, which `vma.rs:550-567` does by rewriting whatever page it lies in, is the second
  way to fail (`Frees`). The code goes on after either; the model does not. `DeleteBranch` and `Delete` meet
  their full contracts exactly when they end `Fine`; without a shared node they always do. `DeleteDecided`
  says how every deletion ends: it joins once for each gap beside the segment, so at most twice, and the
  first join that ends badly decides. `SafeToDelete` is the condition, and `Delete` states that it ends well
  if and only if it holds: neither join takes the node while it is linked, and neither frees it, where the
  second join finds it linked if the tree had it or the first join took it. `LostInFourCalls` loses a new tree
  by mapping and unmapping its lowest range twice; `LostWithinOneDeletion` is a sound tree in which the node
  is not linked at all before the deletion that loses it.
* The heap adds addresses in 64 bits (`heap.rs:106-109`, `115-117`). `WordFitIff` says for which requests the
  fit test is right, and `WordSplitIff` for which of those that fit the test before a split is right: those
  that end at or below 2^64 - 16. `WrappedRequest`, on the kernel's own region, and `WrappedSplit`, on a
  region that ends at 2^64, are requests for which they are wrong. `Alloc` follows both tests as written: it
  goes wrong only if size and alignment do not fit above the region, or the region ends above 2^64 - 16. A
  build with overflow checks stops at such a request instead, and at the initialisation of a region that
  ends at 2^64.
* A digit of a colour argument is taken in modulo 2^32 (`terminal.rs:305-307`). `DecimalRead` and `SequenceRead`
  hold for all arguments, with those modulo 2^32, and `overflow` records that a sum has passed 32 bits, where
  a build with overflow checks stops. It does if and only if an argument is above 4294967247.
  `OverflowReadsAsRed` is a text that turns the console red by it.
* The grey ramp of the palette subtracts 232 after it has multiplied (`terminal.rs:385`), so each of its 24
  colours needs more than 24 bits (`PaletteRamp`).
* A font file that ends with its last glyph loses that glyph (`terminal.rs:84`). `GlyphFound` states the
  test; a `Complete` font has at least one byte more.
* A lookup that reaches 75 bytes at the end of an archive reads one byte past it (`cpio.rs:47`), and some
  headers stop the kernel. `Search` names these outcomes for any bytes; `SearchIff`, `SearchFiles`,
  `SearchEncoded` and `FoundIff` say what they mean.
* The first gap of a new tree is recorded one byte short of its range (`vma.rs:825`). `Valid` admits that
  one tree (`NeverInserted`); after the first insertion or deletion every recorded size is exact.
* A map task removes its segment when it completes, and a failed one leaves it locked (`vma.rs:1454-1464`).
  Both are modelled as written. `NothingToUnmap` draws the consequence: on an allocator that starts empty,
  no request to unmap ever succeeds.
* A translation that is set with flags without the present bit is not there afterwards;
  `MapTranslationAt` states both cases. Freeing keeps the page count right if and only if the page was
  held (`FreeingHeld`), and unmapping keeps the books if and only if the page it frees is owned or past the
  last page (`FreeingNamed`).
* A glyph line is shifted before its first bit is taken, so the first column is always background and the
  lowest bit is never shown (`LitColumns`).

## Model

| member | source | states |
|---|---|---|
| VmaTree.VMATree.constructor | kernel/src/vma.rs:822-828 | A new tree is one gap without segments; its recorded size is the one inexact one |
| VmaTree.VMATree.GetLeafContaining | kernel/src/vma.rs:946-973 | The search ends at the leaf whose bounds hold the address, with its true bounds and parent link; the search assertions hold |
| VmaTree.VMATree.Insert | kernel/src/vma.rs:831-944 | On a free range it fails if and only if fewer nodes are left than the split needs: two for a gap in front of the range and two for one behind it. A failure leaves nodes, root and tree as they were. Success takes exactly those nodes, keeps every tree invariant, adds exactly the segment start..start+len-1, keeps all others, and returns the leaf that covers it |
| VmaTree.VMATree.InsertInside | kernel/src/vma.rs:890-938 | Fails if and only if fewer than four nodes are left, with nothing changed; else takes four, and the split that links and rebalances twice yields gap, segment, gap in place of the gap |
| VmaTree.VMATree.NewInsideNodes | kernel/src/vma.rs:891-918 | Four nodes are reserved if four are left, and else none |
| VmaTree.VMATree.NewUsedLeafAndBranch | kernel/src/vma.rs:855-866 | Both nodes are reserved if two are left, and else neither |
| VmaTree.VMATree.FindAndReserveNode | kernel/src/vma.rs:215-244 | Nothing if and only if no node is left; else an unused node, one less left |
| VmaTree.VMATree.Free | kernel/src/vma.rs:550-567 | The node leaves the arena and can be reserved again |
| VmaTree.VMATree.LinkInBranch | kernel/src/vma.rs:975-994 | Linking a branch over a leaf and fixing the tree keeps the order of leaves, restores balance and makes all gap data exact |
| VmaTree.VMATree.FixInsert | kernel/src/vma.rs:996-1049 | From a red branch below a red parent the loop reaches a balanced tree with black root and the same leaves; no parent of the root is taken |
| VmaTree.VMATree.Delete | kernel/src/vma.rs:1052-1114 | Ends well if and only if SafeToDelete holds of the tree and the address before the call, whatever gaps lie beside the segment. Then every invariant is kept, no two gaps are neighbours, exactly the segment holding the address is gone, a linked shared node stays linked, and nodes in use plus nodes left are as many as before. If it ends with Overwrites, the root leads to no tree at that write |
| VmaTree.VMATree.GapJoinLoop | kernel/src/vma.rs:1080-1111 | The join loop ends, since each round removes a leaf, and leaves no neighbouring gaps and exact sizes with the same segments |
| VmaTree.VMATree.ClimbAndJoin | kernel/src/vma.rs:1092-1109 | Climbing from the gap to the root finds a pivot between two gaps, if there is one, and joins there |
| VmaTree.VMATree.JoinAt | kernel/src/vma.rs:1096-1104 | If the removal ends well, the two gaps at a pivot become one gap of their joint size and the pivot disappears from a balanced tree |
| VmaTree.VMATree.DeleteBranch | kernel/src/vma.rs:1116-1164 | With the shared node as written: ends well if and only if the target is black over two leaves and the node is not linked, or it is not and the node is not the leaf to be freed. Then balance is restored, the two leaves at the pivot become one, and a node that was taken is linked; if it was linked before, the root leads to no tree at the write of the node |
| VmaTree.VMATree.DeleteNodeWithZeroOrOneChild | kernel/src/vma.rs:1166-1228 | The node leaves the tree, and what takes its place is a branch child, the surviving leaf, or the temporary branch in the shared node; ends badly exactly as TakeFate says |
| VmaTree.VMATree.FixDelete | kernel/src/vma.rs:1230-1257 | From a place one black short the loop ends in the context that Fixed names: equal black heights, leaves unchanged |
| VmaTree.VMATree.HandleRedSibling | kernel/src/vma.rs:1259-1271 | A red sibling is rotated above its parent; the node keeps its place below a black sibling |
| VmaTree.VMATree.HandleBlackSiblingAtLeastOneRedChild | kernel/src/vma.rs:1273-1313 | A black sibling with a red child is turned so that the missing black is back |
| VmaTree.VMATree.LeftRotate | kernel/src/vma.rs:1375-1394 | The pointer writes are a left rotation of the tree at the node, gap data of both branches recomputed, the rest untouched |
| VmaTree.VMATree.RightRotate | kernel/src/vma.rs:1396-1415 | The pointer writes are a right rotation, likewise |
| VmaTree.VMATree.ReplaceNode | kernel/src/vma.rs:1362-1373 | The subtree of a branch is replaced in its parent or at the root |
| VmaTree.VMATree.UpdateMaxEmptyAreaData | kernel/src/vma.rs:1342-1360 | Every branch from the lowest to the root gets the larger gap of its two children |
| VmaTree.VMATree.FindMin | kernel/src/vma.rs:1315-1322 | The leftmost branch of a subtree, the in-order successor of the branch above |
| VmaTree.VMATree.MinLeaf | kernel/src/vma.rs:1324-1331 | The first leaf of a subtree |
| VmaTree.VMATree.MaxLeaf | kernel/src/vma.rs:1333-1340 | The last leaf of a subtree |
| VmaTree.VMATree.SetLocked | kernel/src/vma.rs:1459-1463 | Rewriting the lock bit of one leaf changes one segment's flags and keeps every invariant |
| VmaTree.VMATree.Drop | kernel/src/vma.rs:1418-1436 | The recursive drop frees every node once, leaves none and gives all of them back; it frees the shared node if and only if it is linked; its depth is the height of the tree, which is logarithmic |
| VmaBalance.LogarithmicHeight | kernel/src/vma.rs:1418-1436 | Height is at most twice the binary logarithm of the number of branches plus one |
| VmaBalance.PlugBalanced | kernel/src/vma.rs:996-1049 | A tree is balanced if and only if its focus is and the path above it fits the black height and colour of the focus |
| VmaBalance.TurnedFocus | kernel/src/vma.rs:1009-1044 | The rotation case of an insertion leaves a balanced grandparent of the old black height |
| VmaBalance.RecoloredFocus | kernel/src/vma.rs:1009-1044 | The recolouring case moves the red branch up two levels and keeps all black heights |
| VmaGaps.ExactIffHonest | kernel/src/vma.rs:739-754 | Local maxima at all branches hold if and only if every branch records the largest gap among the leaves beneath it |
| VmaGaps.UpdatedExact | kernel/src/vma.rs:1342-1360 | Recomputing upward from a node makes the data of the whole tree exact when only its ancestors were stale |
| VmaGaps.TurnedOff | kernel/src/vma.rs:1375-1415 | Rotations that recompute from stale children keep staleness confined to the ancestors of one node |
| VmaDelete.SiblingIsBranch | kernel/src/vma.rs:1230-1257 | The sibling of a node that is one black short is always a branch |
| VmaDelete.BlackSiblingKeeps | kernel/src/vma.rs:1273-1313 | Both turnings at a black sibling restore the black height and keep gap data exact off the node's ancestors |
| VmaDelete.RedSiblingKeeps | kernel/src/vma.rs:1259-1271 | After the rotation at a red sibling the node is still exactly one black short |
| VmaRemove.TargetAreas | kernel/src/vma.rs:1116-1137 | Taking out a branch, or its successor after the pivot moved up, merges exactly the two areas at the pivot |
| VmaJoin.FreedSegments | kernel/src/vma.rs:1060-1067 | Turning a used area into a gap removes the segment that holds the address and no other |
| VmaJoin.RefreshedSound | kernel/src/vma.rs:1080-1090 | After a join, the update from the gap's parent makes all gap data exact again |
| VmaLayout.OrderedTiled | kernel/src/vma.rs:946-973 | Ordered pivots make the leaves tile the whole user range with non-empty areas |
| VmaLayout.FoundArea | kernel/src/vma.rs:946-973 | The leaf found for an address is the leaf of the one area that holds it |
| VmaDelete.FixedRestores | kernel/src/vma.rs:1230-1257 | From any place one black short, the context that the whole fix-up arrives at has equal black heights, the same leaves and gap data stale only above the node |
| VmaRemove.RemovedTree | kernel/src/vma.rs:1116-1164 | The tree that a removal leaves, as a function of the tree before: balanced, with the leaves of the tree without the target |
| VmaTemp.OverwrittenUnreadable | kernel/src/vma.rs:1193-1202 | Writing a branch without a parent into a linked leaf leaves an arena in which the root leads to no tree at all |
| VmaTemp.TakenIsLinked | kernel/src/vma.rs:1140-1157 | A removal by way of the temporary node leaves that node linked |
| VmaTemp.RemovalKeepsTemp | kernel/src/vma.rs:1116-1164 | A removal that ends well keeps a linked shared node linked, as a leaf |
| VmaSafety.DeleteDecided | kernel/src/vma.rs:1052-1114 | For every segment: there is a first join exactly if a gap lies beside it, and after a good one a second exactly if gaps lie on both sides; the first of them that ends badly is how the deletion ends, else it ends well |
| VmaSafety.DeleteFineIff | kernel/src/vma.rs:1052-1114 | For every segment the deletion ends well if and only if each join spares the shared node, which the second finds linked exactly if it was linked or the first took it |
| VmaSafety.AfterJoin | kernel/src/vma.rs:1080-1111 | After a good join the tree is balanced, ordered, without a node twice, has one leaf less, and gap data stale only above the joined gap |
| VmaSafety.UnlinkedDelete | kernel/src/vma.rs:1052-1114 | With the shared node not linked, a deletion beside at most one gap ends well; between two gaps it does if and only if the first join does not take the node, or the second neither takes nor frees it |
| VmaSafety.SameFate | kernel/src/vma.rs:1052-1067 | What is written in the leaf of the segment does not change how its deletion ends |
| VmaSafety.GapSides | kernel/src/vma.rs:840-938 | Whether the gap that holds a range goes on in front of it or behind it, which decides the split, is whether the address next to the range is free |
| VmaLosses.SoleDelete | kernel/src/vma.rs:1052-1202 | Deleting the only segment, at the bottom, links the shared node; it overwrites it if and only if it was linked |
| VmaLosses.LostInFourCalls | kernel/src/vma.rs:831-1202 | Insert, delete, insert, delete of the lowest range on a new tree with two nodes or more: both insertions succeed, the first deletion ends well, the second overwrites the linked node and leaves no tree |
| VmaLosses.LostWithinOneDeletion | kernel/src/vma.rs:1068-1202 | A sound tree of seven black branches without the shared node, and a segment whose deletion takes the node in its first join and overwrites it in its second |
| VmaAllocator.VMAAllocator.StartTryMapAt | kernel/src/vma.rs:92-130 | Refuses if and only if an address of the range belongs to a segment; succeeds if and only if none does and there are nodes enough to split its gap; success adds one locked segment and takes exactly those nodes |
| VmaAllocator.VMAAllocator.StartUnmap | kernel/src/vma.rs:62-86 | Refuses exactly when no segment holds the address or the segment is locked; else locks it and names its start and pages |
| VmaAllocator.VMAAllocator.RunMapTask | kernel/src/vma.rs:1443-1468 | A slice keeps the protocol; on completion the leaf at the task's start is used and locked as asserted, and its segment goes. It ends badly exactly if the deletion of that segment does |
| VmaAllocator.VMAAllocator.RunUnmapTask | kernel/src/vma.rs:1477-1495 | On completion exactly the task's segment goes; it ends badly exactly if the deletion of that segment does |
| VmaAllocator.VMAAllocator.constructor | kernel/src/vma.rs:51-56 | A new allocator has no segments and no tasks |
| VmaAllocator.VMAAllocator.Answer | kernel/src/vma.rs:62-130 | One request: it is answered if and only if it may be made, by the event it asks for, as a step of the protocol; it ends badly only as the deletion at the end of a task does |
| VmaAllocator.Serve | kernel/src/vma.rs:62-130 | Any schedule of map requests, unmap requests and task slices on a new allocator is a run of the protocol, with no failed assertion, up to the first deletion that ends badly: every request that may be made is answered by its event, in order, and no other. A run stops early only at the last slice of a live task, and ends there as the deletion of its segment does; without a shared node none stops |
| VmaAllocator.BehindTheGap | kernel/src/vma.rs:104-106 | A range that leaves the gap it starts in meets a segment, since gaps are maximal |
| VmaAllocator.SegmentsApart | kernel/src/vma.rs:946-973 | No address lies in two segments |
| VmaTasks.TraceKeeps | kernel/src/vma.rs:62-130 | Over every interleaving, each live or failed task has its own locked segment and nobody else holds a lock |
| VmaTasks.TaskSegment | kernel/src/vma.rs:1455-1463 | A live task owns exactly one segment, locked, beginning at its start |
| VmaTasks.NothingToUnmap | kernel/src/vma.rs:1443-1468 | From a new allocator every segment stays locked until it goes, so no unmap request succeeds |
| VmaTasks.MapMeans | kernel/src/vma.rs:92-130 | A step of a map request: refused if and only if a segment overlaps the range; else one locked segment of exactly the range with the wanted read, write and execute rights, and a task for its 4096-byte pages |
| VmaTasks.UnmapMeans | kernel/src/vma.rs:62-86 | A step of an unmap request: refused if and only if no segment holds the address or that segment is locked; else that segment alone is locked, and a task for its pages begins |
| VmaTasks.RunMeans | kernel/src/vma.rs:1443-1495 | A step of a task: its last slice removes the one segment at its start and the task, a failed one leaves the segment locked, any other changes nothing |
| Paging.AddressStored | kernel/src/arch/x86_64/paging.rs:104-125 | An address survives being stored in an entry if and only if it is page aligned and sign-extended from bit 51; the flags stay |
| Paging.FlagsStored | kernel/src/arch/x86_64/paging.rs:113-118 | Replacing the flags keeps the address |
| Paging.FlagPlaces | kernel/src/arch/x86_64/paging.rs:16-102 | Which bit of the word each flag is |
| Paging.DataRoundTrip | kernel/src/arch/x86_64/paging.rs:88-111 | Packed data can be read back |
| Paging.EntryRoundTrip | kernel/src/arch/x86_64/paging.rs:88-111 | Reading and packing again clears only the bits outside the fields |
| Paging.MaskTest | kernel/src/arch/x86_64/page_allocation.rs:423-439 | The mask comparison holds if and only if every wanted flag is on |
| Paging.SameIndices | kernel/src/arch/x86_64/page_allocation.rs:238-243 | The four masked indices agree if and only if bits 47 to 12 agree |
| EntryWords.StoredEntry | kernel/src/arch/x86_64/paging.rs:121-125 | Storing an address in a word stores its page number, cut to 40 bits |
| EntryWords.EntryPage | kernel/src/arch/x86_64/paging.rs:104-111 | The page an entry refers to is the page of the address read from its word |
| EntryWords.IndexWord | kernel/src/arch/x86_64/page_allocation.rs:332-335 | The masked, shifted index of an address is the base-512 digit of its page number at that level |
| PageBitmap.FirstClear | kernel/src/arch/x86_64/page_allocation.rs:273-274 | The leading zeros of the complement find the first clear bit of a byte |
| PageBitmap.BitFromTop | kernel/src/arch/x86_64/page_allocation.rs:273-276 | The bit of the k-th page of a byte is its k-th bit from the top |
| PageBitmap.CountFreePages | kernel/src/arch/x86_64/page_allocation.rs:252-254 | Summing zero bits of the bytes counts the clear bits of the bitmap |
| PageTables.PathIsPage | kernel/src/arch/x86_64/page_allocation.rs:332-335 | Two addresses have the same four indices if and only if they have the same 48-bit page number |
| PageTables.WalkFinds | kernel/src/arch/x86_64/page_allocation.rs:332-364 | In a tree of tables the walk ends at the one entry that the tree has for the address |
| PageTables.AddTable | kernel/src/arch/x86_64/page_allocation.rs:349-361 | Linking a blank page behind an absent entry keeps the tables a tree without aliases |
| PageTables.AddTableKeeps | kernel/src/arch/x86_64/page_allocation.rs:349-361 | A new table changes no translation |
| PageTables.SetLast | kernel/src/arch/x86_64/page_allocation.rs:343-348 | Writing a last-level entry changes the translation of one page and of no other |
| PageTables.MappedGrants | kernel/src/arch/x86_64/page_allocation.rs:325-444 | After a mapping, wanted flags are granted at all four levels if and only if the new entry has them and each upper entry had them before, or is a link to a new table and no more than present, writable and no-execute is wanted |
| PageTables.LinkExtends | kernel/src/arch/x86_64/page_allocation.rs:349-361 | Linking a table changes one entry, which becomes present, writable, no-execute and has no other flag, and adds a table of zero entries |
| PageAllocation.PageAllocator.constructor | kernel/src/arch/x86_64/page_allocation.rs:247-261 | For any bitmap the free count is the number of clear bits; the allocator is in order if and only if the bitmap accounts for the tables and the reserved pages |
| PageAllocation.PageAllocator.FindAndReservePage | kernel/src/arch/x86_64/page_allocation.rs:270-286 | Fails if and only if no bit is clear; else the lowest clear page, never page zero, a table or a held page, cleared and counted |
| PageAllocation.PageAllocator.FreePage | kernel/src/arch/x86_64/page_allocation.rs:290-298 | Clears one bit and counts up; a page past the end is ignored |
| PageAllocation.FreeingHeld | kernel/src/arch/x86_64/page_allocation.rs:290-298 | Freeing keeps the count equal to the clear bits if and only if the page was held |
| PageAllocation.FreeingNamed | kernel/src/arch/x86_64/page_allocation.rs:290-298 | Freeing what an entry names keeps all pages accounted for if and only if the page is owned or past the last page |
| PageAllocation.PageAllocator.ReservePage | kernel/src/arch/x86_64/page_allocation.rs:70-77 | Fails if and only if no page is free; else a page that nobody holds and that is no table is handed out as data, cleared, and no other page is written |
| PageAllocation.PageAllocator.ReleasePage | kernel/src/arch/x86_64/page_allocation.rs:80-84 | Releasing an owned page returns it and keeps every page accounted for |
| PageAllocation.PageAllocator.MapPageTranslation | kernel/src/arch/x86_64/page_allocation.rs:325-367 | Refused if and only if the translation exists, with nothing changed; out of pages if and only if fewer pages are free than tables are missing on the path; else success, which costs one page for each missing table, writes the one last entry, and makes each missing upper entry a link that is present, writable, no-execute and nothing else, to a table of zeros. No other entry of any table and no page that is no table changes; every other path keeps its translation |
| PageAllocation.PageAllocator.MapTranslationAt | kernel/src/arch/x86_64/page_allocation.rs:325-367 | The same for virtual addresses: every other 48-bit page keeps its translation, a failure keeps all and comes out of pages if and only if tables are missing that pages are not there for |
| PageAllocation.PageAllocator.MapPage | kernel/src/arch/x86_64/page_allocation.rs:373-390 | Maps the lowest free page, cleared; out of pages if and only if fewer pages are free than one and the missing tables; an existing page leaves bitmap and count as they were; any failure keeps all translations and returns the page; tables change only as a mapping must change them, and no other page does |
| PageAllocation.PageAllocator.UnmapAndFreePage | kernel/src/arch/x86_64/page_allocation.rs:393-412 | Removes one translation and no other by clearing its one last entry, whatever page it names, and frees that page; every page stays accounted for if and only if it was owned or lies past the last page |
| PageAllocation.PageAllocator.MapAndUnmapAt | kernel/src/arch/x86_64/page_allocation.rs:373-412 | Mapping then unmapping restores every translation and returns the page; the free count is lower by the tables that were created; it fails exactly when mapping does |
| PageAllocation.PageAllocator.CheckFlags | kernel/src/arch/x86_64/page_allocation.rs:416-444 | True if and only if, for every address of the range, the entry at each of the four levels of its path is there, present, and has every wanted flag |
| PageAllocation.PageAllocator.MapAndCheckAt | kernel/src/arch/x86_64/page_allocation.rs:325-444 | What is mapped through new tables with present, writable or no-execute flags passes the check for these flags; it is mapped if and only if three pages are free |
| HeapHeader.HeaderFields | kernel/src/heap.rs:12-37 | A packed header has its length in bits 61 to 0, used in bit 62 and next in bit 63, and gives them back |
| HeapHeader.HeaderWhole | kernel/src/heap.rs:12-37 | A header word is determined by its three fields |
| HeapHeader.HeaderReads | kernel/src/heap.rs:12-37 | A header word read back says what was written if and only if the length is below 2^62 |
| HeapHeader.HeadersRead | kernel/src/heap.rs:12-60 | In a region of at most 2^62 bytes every header word says what the list of blocks says |
| KernelHeap.KernelHeapAllocator.InitHeap | kernel/src/heap.rs:238-250 | One free block from the first aligned address to the end of the region |
| KernelHeap.KernelHeapAllocator.Alloc | kernel/src/heap.rs:93-149 | In 64-bit arithmetic: null if and only if no block passes the fit test. The first that passes is the first that fits if and only if the aligned start plus the size does not pass 2^64, and the block is cut rightly if and only if that sum does not pass 2^64 - 16; both hold if size and alignment fit above a region that ends at or below 2^64 - 16. Then the address is the first aligned one in that block, which becomes the one new used block and ends at the next multiple of 8 exactly if more than nine bytes follow that; every other used block stays, blocks still tile the region, no two free neighbours |
| KernelHeap.KernelHeapAllocator.Dealloc | kernel/src/heap.rs:151-225 | Frees exactly that allocation: every other used block stays as it is, the whole freed block and every block that was free lie inside a free block, blocks still tile the region, no two free neighbours |
| KernelHeap.KernelHeapAllocator.AllocThenFree | kernel/src/heap.rs:93-225 | Freeing a just-made allocation restores the list of blocks exactly; it is made exactly when Alloc makes it |
| KernelHeap.KernelHeapAllocator.FreeAll | kernel/src/heap.rs:151-225 | Freeing all allocations in any order leaves the single initial block |
| HeapBlocks.LiveApart | kernel/src/heap.rs:93-149 | Two live allocations share no byte |
| HeapBlocks.LiveInside | kernel/src/heap.rs:93-149 | A live allocation lies inside the region, behind a header |
| HeapBlocks.WordFitIff | kernel/src/heap.rs:105-112 | The fit test in 64-bit arithmetic is right if the aligned start plus the size does not pass 2^64; of a free block that holds the aligned start, only then |
| HeapBlocks.WordSplitIff | kernel/src/heap.rs:113-117 | For a request that fits, the 64-bit test before a split agrees with the true one if and only if the request ends at or below 2^64 - 16 |
| HeapBlocks.WrappedSplit | kernel/src/heap.rs:113-130 | In a region that ends at 2^64 a request for all of it fits and leaves nothing to split, but the test asks for a header at address 0 |
| HeapBlocks.SmallRequest | kernel/src/heap.rs:105-112 | A request whose size and alignment fit between the region and 2^64 passes it in no block |
| HeapBlocks.WrappedRequest | kernel/src/heap.rs:105-117 | On the kernel's new heap region a request of 0xD0000000 bytes passes the test with its last byte at address 7, and does not fit |
| HeapBlocks.CutTiles | kernel/src/heap.rs:110-130 | Splitting keeps headers aligned and lengths non-zero |
| HeapBlocks.FreeAfterAlloc | kernel/src/heap.rs:110-225 | On any tiled list without free neighbours, freeing undoes allocating |
| HeapBlocks.FreedTiles | kernel/src/heap.rs:174-217 | Joining on both sides keeps the tiling |
| HeapBlocks.FreedPairs | kernel/src/heap.rs:174-217 | After freeing there are still no two free neighbours |
| HeapBlocks.FreedUsed | kernel/src/heap.rs:174-217 | Freeing takes one used block out of the list and changes no other |
| HeapBlocks.FreedFree | kernel/src/heap.rs:174-217 | The freed block and every free block lie inside a free block of the new list |
| HeapBlocks.AllFree | kernel/src/heap.rs:151-225 | A list without free neighbours in which everything is free is one block |
| HeapBlocks.UsedDetermine | kernel/src/heap.rs:93-225 | Two lists of blocks over the same region, without free neighbours and with the same used blocks, are the same list |
| HeapBlocks.FitsIff | kernel/src/heap.rs:105-112 | A request fits a block if and only if the block is free and has an aligned place for the bytes |
| CoreGraphics.Framebuffer.Set | kernel/src/core_graphics.rs:32-35 | The pixel at y * scanline + x changes and no other |
| CoreGraphics.Framebuffer.FillBox | kernel/src/core_graphics.rs:19-25 | Exactly the pixels of the box get the colour |
| CoreGraphics.Framebuffer.Clear | kernel/src/core_graphics.rs:15-17 | Every pixel is black |
| TerminalFont.GlyphPresent | kernel/src/terminal.rs:76-88 | In a complete font every character has a glyph of sixteen bytes, its own if it has one |
| TerminalFont.GlyphFound | kernel/src/terminal.rs:76-88 | A glyph is found if and only if it ends before the last byte of the data: an exactly sized font loses its last glyph |
| TerminalFont.LitColumns | kernel/src/terminal.rs:207-215 | Which bit of a glyph line each column shows |
| TerminalFont.RasterPixel | kernel/src/terminal.rs:196-223 | A pixel has the foreground colour if and only if its bit of the glyph is set and the character is no space, and else the background; the glyph of '?' stands in past the last one |
| TerminalFont.DrawGlyph | kernel/src/terminal.rs:205-223 | The cell is painted with the glyph and nothing outside it changes |
| TerminalFont.CellsApart | kernel/src/terminal.rs:194-195 | Two cells share no pixel |
| TerminalScreen.Terminal.constructor | kernel/src/terminal.rs:164-186 | On any framebuffer and font of non-zero size: the screen can be drawn if and only if the font is complete and eight pixels wide and there are between one and 65536 places; then it shows empty output if and only if the framebuffer shows blanks, as a black one does |
| TerminalScreen.Terminal.Render | kernel/src/terminal.rs:188-230 | Drawing only the changed cells leaves the framebuffer equal to a full drawing of the front buffer, and no pixel outside the cells changes |
| TerminalScreen.Terminal.Reset | kernel/src/terminal.rs:232-237 | Whatever was shown, afterwards it shows empty output |
| TerminalScreen.Terminal.NewLine | kernel/src/terminal.rs:244-259 | The buffer becomes the window of the output with one row more, and is drawn |
| TerminalScreen.Terminal.WriteChar | kernel/src/terminal.rs:261-465 | One character changes the screen as it changes the endless output; cursor, mode, and rows as of the last rendering agree with it; no pixel outside the cells changes |
| TerminalScreen.Terminal.Write | kernel/src/terminal.rs:261-465 | After any text the screen buffer is the last rows of the endless wrapped output, and the framebuffer shows these rows as of the last line end; an argument past 32 bits is wrapped and recorded as an overflow |
| TerminalScreen.Terminal.Pixels | kernel/src/terminal.rs:188-230 | Every pixel of the screen, by its place in framebuffer memory: it shows the row of the output that its row of the screen stands for as of the last rendering, or a blank |
| TerminalScreen.Terminal.CursorPlace | kernel/src/terminal.rs:244-287 | The cursor is inside the screen, in the row that shows the last row of the output |
| TerminalScreen.Terminal.WriteItems | kernel/src/terminal.rs:261-465 | For glyphs, line ends and colour sequences with arguments up to 4294967247 the output is what the items mean, nothing overflows, and the cursor is in bounds |
| TerminalText.ItemsRead | kernel/src/terminal.rs:261-465 | Parsing the encoding of any list of items with arguments up to 4294967247 gives what the items mean one by one, without an overflow |
| TerminalText.SequenceRead | kernel/src/terminal.rs:283-464 | A sequence of up to five fields, numbers of any size or empty, that is ended by any character: with 'm', unless the last of several fields is empty, the two colours change as Recolors says of the arguments modulo 2^32; nothing else changes, and the mode is text again. A sum overflows if and only if a field is above 4294967247 |
| TerminalText.EscapeDropped | kernel/src/terminal.rs:288-293 | An escape followed by anything but '[' is dropped with it |
| TerminalText.FeedText | kernel/src/terminal.rs:263-287 | What a character of text does to the endless output: a line end adds a row of blanks, a return or tab moves the cursor, any other is put into one cell in the current colours, and a full row is followed by a new one |
| TerminalText.StartText | kernel/src/terminal.rs:102-135 | A new terminal has one row of blanks, white on black |
| TerminalColors.EffectRecolors | kernel/src/terminal.rs:294-458 | What arguments do to the two colours: none or 0 gives white on black; 30 to 37 and 40 to 47, 38 or 48 with 5 and a palette index, and 38 or 48 with 2 and three bytes set one colour, whose value or channels are given, and keep the other; every other list changes nothing |
| TerminalColors.RgbChannels | kernel/src/terminal.rs:448-451 | Three bytes or-ed together are read back by division and remainder |
| TerminalColors.PaletteIs | kernel/src/terminal.rs:370-395 | Each colour of the palette: sixteen named ones, the cube by its channels, the ramp by its bits |
| TerminalColors.PaletteCube | kernel/src/terminal.rs:373-383 | The cube colour 16 + 36 r + 6 g + b has the channels 51 r, 51 g and 51 b |
| TerminalColors.PaletteRamp | kernel/src/terminal.rs:384-390 | Every colour of the grey ramp is above 24 bits |
| TerminalColors.BitOrBits | kernel/src/terminal.rs:379-389 | Or-ing sets a bit if and only if one of the two has it |
| TerminalText.DecimalRead | kernel/src/terminal.rs:294-310 | Reading the decimal digits of any number appends it, modulo 2^32, to the arguments; a sum overflows if and only if the number is above 4294967247 |
| TerminalText.OverflowReadsAsRed | kernel/src/terminal.rs:294-322 | The argument 4294967327 overflows and, without overflow checks, sets the foreground as 31 does |
| TerminalWindow.FlatScroll | kernel/src/terminal.rs:249-255 | Dropping the first row of the buffer and blanking the last is moving the window down one row |
| TerminalWindow.WindowAt | kernel/src/terminal.rs:244-259 | Each place of the window is a place of the last rows of the output, or blank |
| Cpio.OctalToBinary | kernel/src/cpio.rs:33-40 | The loop computes the value of the octal digits |
| Cpio.OctalReads | kernel/src/cpio.rs:33-40 | Reading what was printed in k octal digits gives the number back |
| Cpio.OctalPrints | kernel/src/cpio.rs:33-40 | Printing what was read gives the digits back |
| Cpio.FindFile | kernel/src/cpio.rs:42-71 | On any bytes whatever, the loop comes to what Search says: a file, nothing, a read past the end, or a stop; SearchIff says when each |
| Cpio.SearchEncoded | kernel/src/cpio.rs:42-71 | On the encoding of any list of files, followed by any bytes, the result is the data of the first file of that name; if there is none, the bytes behind the files decide |
| Cpio.FoundIff | kernel/src/cpio.rs:42-71 | On any bytes, data is found if and only if the bytes begin with whole nodes of which the last, and only the last, has the name, and it has that data |
| Cpio.SearchIff | kernel/src/cpio.rs:42-71 | On any bytes and for each outcome: the lookup comes to it if and only if the bytes are whole nodes of other names followed by bytes that end it that way: fewer than 75, exactly 75, an unreadable header, a wrong magic, a node cut short with or without the name, or a whole node of the name |
| Cpio.SearchFiles | kernel/src/cpio.rs:42-71 | On the encoding of any list of files nothing is found if and only if no file has the name; else the data of the first that has it |

## Left out

- Node storage pages and their bitmap (vma.rs:195-394): the count of nodes that are left stands for them. Reserving takes some unused node and fails if and only if none is left; that storage grows by a page when it can is part of what the count says.
- Delete: followed up to the write of a linked shared node (`Overwrites`) or up to its freeing (`Frees`); what the code does after that, and to the page that the node lies in (vma.rs:550-567), is not modelled.
- DeleteBranch: likewise.
- Serve: stops at the first deletion that ends badly.
- StartTryMapAt: an empty range is not a request here; alignment and the upper bound are what its safety comment demands.
- Insert: requires a free range, as the assertions at its head do, and multiples of four, as the packing of a pivot with two flag bits does; `StartTryMapAt` establishes both.
- The page-mapping work inside map and unmap tasks (user_page_mapping.rs, virtual_page_mapping.rs): a slice reports pending, done or failed.
- RunMapTask: a task that has reported its end is not run again.
- pages_used counters, allocation failure of the first storage page, and spin locks: each operation is one step.
- MapPageTranslation: large pages are outside the tree of tables; PageAllocator names physical pages by number and reads page contents only as tables.
- is_address_identity_mapped, loading the page table, and the owned-page wrappers.
- Alloc: a request that ends above 2^64 - 16 ends with `Wrapped`; the header and the length that the kernel then writes are not followed. The pages that the heap maps and frees are not modelled.
- InitHeap: the region ends at or below 2^64 and is at most 2^62 bytes long, what addresses and header words hold; it has room for a block.
- Dealloc: the pointer must belong to a live allocation, as the allocator interface demands.
- Terminal.constructor: the reservation of the two buffers does not fail. Cursor arithmetic is unbounded, which agrees with 16 bits on the screens that `Fitting` admits.
- Render: complete fonts eight pixels wide; a missing glyph stops the kernel, and cells of other widths overlap or leave columns.
- Write: tabs only on screens wider than 64 columns.
- Parsing of the font header.
- FindFile: a digit below '0' counts as stopping the kernel, which is what overflow checks do; without them it is taken modulo 256.
- Processes, interrupts, ACPI, boot, drivers and user programs: hardware access, foreign interfaces, or no algorithm of this weight.
