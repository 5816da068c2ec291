# The P42 kernel's memory managers and the structures under them

A Dafny model of the parts of the kernel that carry the most state: the virtual address-space
allocator, the kernel heap, the page-frame bitmap, the red-black tree, the mutex, the device
tree walks, the timer queue and the intrusive list. Each file is one component.

- `Extent.dfy`, `ExtentList.dfy`, `VmSpace.dfy`, `VmWrap.dfy`, `VmContext.dfy`, `VmTracking.dfy`,
  `VmRetry.dfy`, `VmLoss.dfy`: free and allocated address ranges are kept as extents in slot
  headers of fixed capacity. A list of
  headers is read as a map: how often (0 or 1 in a valid space) an address is covered, with
  which flags and protection. All 64-bit sums are written with their wrap-around. The classes
  `ExtentList` and `VmContext` run the source's loops and branches on fields and are proved equal
  to functions on the list of headers; the lemmas about those functions say what happens to the
  two address maps, over single calls and over whole runs. `VmRetry.dfy` follows the calls on the
  kernel context where slots run out and the list is enlarged with a page of the space itself.
- `HeapShape.dfy`, `HeapState.dfy`, `Heap.dfy`: majors and their address-ordered minors with
  implicit gaps, the best-bet search, the alignment cookies, and the bytes of memory. What
  `kmalloc`, `kfree` and `krealloc` do is stated on the set of live minors and on user bytes.
- `FrameBitmap.dfy`: the word-at-a-time bitmap against the set of marked frames. A word is
  the set of positions of its one bits.
- `RbShape.dfy`, `RbTree.dfy`: nodes with parent links and a sentinel on the heap, against an
  inductive tree with a zipper for the place where a fixup is at work.
- `Mutex.dfy`: each stretch under the internal spinlock is one atomic step of a transition
  system in which threads interleave freely; the class runs the same steps on fields.
- `DeviceTree.dfy`: the two walks with an explicit stack, against recursive orders of a forest.
- `Timer.dfy`: the queue of timers, each with the ticks it has seen since it last started.
- `LinkedList.dfy`: the relinking of every operation against the operation on a sequence.
- `Sequences.dfy`: no element twice, and taking one out, for all of these.

Where the code does not do what its names or comments say, the model follows the code, and the
exact condition under which it does is proved:

- A request that runs past 2^64 passes the range test (`Extents.InRangeExact`), is served, and
  leaves a space that is not valid: `VmSpace.AllocExactIff`, `VmSpace.FreeExactIff`,
  `VmSpace.AllocValidIff`, `VmSpace.FreeValidIff`, over runs `VmSpace.RunValidIff`, and concretely
  `VmWraps.WrapBreaksAlloc`, `VmWraps.WrapBreaksFree`.
- When the piece right of an allocated range finds no slot, vm_space_alloc enlarges the list and
  then inserts the left piece once more: `VmRetries.AllocatingIff`, over runs
  `VmRetries.ServedValidIff`, and concretely `VmLosses.RetryLosesPage`. vm_space_undo gives up
  where the start of an extent was taken (`VmRetries.UndoRefusesIff`), and the range is lost
  (`VmRetries.AllocationLosesRange`).
- Base and length are rounded to pages on their own, so that a range that starts inside a page may
  not be covered: `VmSpace.AllocGivesAll`, `VmSpace.FreeTakesAll`.
- vm_change_attr never sets a bit (`VmContexts.NewProtAsAskedIff`), and answers VM_OK although it
  has rolled back (`VmContexts.OkMeansChangedIff`).
- pfmgr_mark_bmp marks the wrong frames (`FrameBitmaps.MarkIsRightIff`), pfmgr_clear_bmp counts
  frames that were free (`FrameBitmaps.FreeRange.Clear`); together they restore the marks
  exactly under the condition of `FrameBitmaps.MarkThenClearIff`.
- kmalloc's size sums wrap around: `HeapShapes.ServableIff`, `HeapStates.FreshHoldsIff`,
  `HeapStates.GapHoldsIff`.
- rb_insert does not link a node whose last comparison says equal, and returns 0
  (`RbTrees.RbTree.Insert`, `RbTrees.RbTree.LinksIff`); rb_delete may leave a red root
  (`RbTrees.RbTree.Delete`, `RbShapes.ShortIsRedBlackIff`), below which the next rb_insert reads a
  NULL link (`RbTrees.RbTree.RedRootTrapsInsert`).
- The walks over the device tree miss devices, or never end, in a tree of more than 129 levels:
  `DeviceTrees.ShallowIsAllIff`, `DeviceTrees.RemovalEndsIff`, `DeviceTrees.RemovalRounds`.
- The seconds of a timer's time wrap around: `Timers.IncrementAddsIff`.

## Model

| member | source | states |
|---|---|---|
| Extents.InRangeExact | mm/vm_extent.c:488-520 | The range test answers containment correctly if and only if the request does not run past 2^64 back to the extent's end |
| Extents.InRangeAcceptsWrap | mm/vm_extent.c:488-520 | A concrete wrapping request is accepted although it is not contained |
| Extents.FlagsLayout | h/vm.h:24-33 | Region, type and lock are the bits at the positions of the header, and replacing the region leaves the others |
| Extents.SplitConserves | mm/vm_extent.c:741-792 | The pieces and the cut-out middle cover exactly what the extent covered, with its attributes; status is positive iff there are two pieces |
| Extents.SplitConservesIff | mm/vm_extent.c:741-792 | A cut that the range test accepts, wrapping or not, conserves if and only if it ends inside the address space |
| Extents.SplitRefusedIff | mm/vm_extent.c:741-792 | A range that does not wrap is refused if and only if the extent does not hold it, and then the extent stays whole |
| Extents.JoinableMeansAdjacent | mm/vm_extent.c:800-826 | Despite wrapping sums, two extents join iff they touch and agree in flags and protection; the relation is symmetric |
| Extents.JoinConserves | mm/vm_extent.c:830-862 | The grown extent is well-formed and covers exactly both |
| ExtentLists.JoinAtKeepsApart | mm/vm_extent.c:570-600 | After the one merge the loop performs, no two extents of the header are joinable: one merge is enough |
| ExtentLists.InsertAddsExactly | mm/vm_extent.c:523-623 | A successful insert adds exactly the extent's addresses with its attributes and keeps avail + busy = capacity and apartness in every header |
| ExtentLists.InsertStatus | mm/vm_extent.c:523-623 | For any extent of a region with a positive length, wrapping or not: VM_NOMEM if and only if nothing is joinable and every header is full, and then nothing changed |
| ExtentLists.InsertHolds | mm/vm_extent.c:523-623 | Afterwards a single extent holds all of what was inserted |
| ExtentLists.InsertTakesOne | mm/vm_extent.c:523-623 | Whatever is inserted, at most one slot is used up |
| ExtentLists.PickIsTightest | mm/vm_extent.c:556-566 | The header chosen for a new entry has the least positive number of free slots |
| ExtentLists.ScanFindsBest | mm/vm_extent.c:627-735 | An address-free search ends at the first of the shortest fitting extents of the region |
| ExtentLists.ScanFindsFirst | mm/vm_extent.c:627-735 | A fixed-address search ends at the first extent whose range test succeeds |
| ExtentLists.ExtractIsBestFit | mm/vm_extent.c:627-735 | VM_BASE_AUTO succeeds iff a fitting extent exists and returns one of minimum length |
| ExtentLists.ExtractFindsContaining | mm/vm_extent.c:627-735 | A non-wrapping fixed request inside some extent is always served |
| ExtentLists.ExtractMoves | mm/vm_extent.c:627-735 | The extent returned was in the list, its addresses leave the map and nothing else does, and one slot more is free in the first header |
| ExtentLists.InsertAfterExtract | mm/vm_extent.c:627-735 | An insert right after a successful extract never reports VM_NOMEM |
| ExtentLists.FindJoin | mm/vm_extent.c:568-605 | The walk over one header's extents finds the first joinable one |
| ExtentLists.FindHeader | mm/vm_extent.c:540-608 | The walk over the headers: first joinable extent, or the tightest header |
| ExtentLists.JoinAndMerge | mm/vm_extent.c:574-600 | The join followed by the merge loop, which ends after one merge |
| ExtentLists.ExtentList.Insert | mm/vm_extent.c:523-623 | The in-place insert computes the function the insert lemmas are about |
| ExtentLists.ExtentList.Extract | mm/vm_extent.c:627-735 | The in-place search, which ends although one of its branches does not advance, computes the function the extract lemmas are about |
| ExtentLists.ExtentList.Avail | mm/vm_extent.c:935-965 | Reaches min iff that many slots are free; with min 0 the exact count |
| ExtentLists.ExtentList.CanTake | mm/vm_extent.c:967-1003 | True iff some header has an extent that can be joined |
| VmSpace.AllocMovesExactly | mm/vm_space.c:18-288 | A successful allocation that does not wrap moves exactly its range from the free to the allocated map with the granted flags and protection; a refused one changes nothing; slots are the only other way to fail |
| VmSpace.GrantedFlagsAre | mm/vm_space.c:18-288 | The flags granted are the requested ones with the region bits of the memory found; without a fixed address these are the region asked for, or the context's own when none was |
| VmSpace.FreeMovesExactly | mm/vm_space.c:290-475 | A free that does not wrap moves exactly its range back and reports its old attributes; a locked or absent range leaves both maps as they were |
| VmSpace.AllocExactIff | mm/vm_space.c:18-288 | In any valid space, a successful allocation moves exactly its range if and only if the range does not run past 2^64 |
| VmSpace.FreeExactIff | mm/vm_space.c:290-475 | The same for a successful free |
| VmSpace.AllocValidIff | mm/vm_space.c:18-288 | A successful allocation leaves a valid space if and only if its range does not run past 2^64 |
| VmSpace.FreeValidIff | mm/vm_space.c:290-475 | The same for a successful free |
| VmSpace.PlacedIffFound | mm/vm_space.c:18-288 | With spare slots any allocation, wrapping or not, succeeds iff its flags are acceptable and the search finds an extent; otherwise nothing changes |
| VmSpace.DoneIffFound | mm/vm_space.c:290-475 | With spare slots any free succeeds iff the search finds an unlocked extent; otherwise both maps are as they were |
| VmSpace.AllocServedIff | mm/vm_space.c:18-288 | With spare slots, any allocation succeeds iff one memory type and, without a fixed address, not both regions are named, its length is positive and can be rounded up, and a free extent of the region asked for, or else of the context's, is long enough, or, for a fixed address, contains the pages, or, if they wrap, is the first whose range test passes and long enough |
| VmSpace.AutoAllocIsBestFit | mm/vm_space.c:18-288 | An address-free allocation is cut from a shortest free extent that could serve it |
| VmSpace.MapsAreFunctionsAndDisjoint | mm/vm_space.c:18-475 | In a valid space an address has one pair of attributes at most, and is never both free and allocated |
| VmSpace.PageLenIs | mm/vm_space.c:60-63 | Lengths are rounded up to whole pages; those above 2^64 - 4096 become 0 |
| VmSpace.PageBaseIs | mm/vm_space.c:65-71 | Addresses are rounded down |
| VmSpace.AllocGivesAll | mm/vm_space.c:18-288 | In bytes: a served caller without a fixed address has all len bytes newly allocated with the granted flags; one with a fixed address has [addr, addr + len) if and only if it ends inside the pages taken, which aligned addresses always do |
| VmSpace.FreeTakesAll | mm/vm_space.c:290-475 | A successful free makes all of [addr, addr + len) free under the same condition |
| VmWraps.WrapBreaksAlloc | mm/vm_space.c:18-288 | A concrete allocation running past 2^64 is placed in a valid space and leaves an invalid one |
| VmWraps.WrapBreaksFree | mm/vm_space.c:290-475 | A concrete free running past 2^64 does the same |
| VmSpace.StepKeeps | mm/vm_space.c:18-475 | A call with spare slots leaves a valid space iff it is refused or does not wrap, and then the union of the two maps is unchanged |
| VmSpace.RunConserves | mm/vm_space.c:18-475 | Over any run with spare slots and without a served wrapping request the maps stay disjoint and their union never changes |
| VmSpace.RunValidIff | mm/vm_space.c:18-475 | The space is valid all along a run with spare slots if and only if no served request of it wraps |
| VmSpace.InitialSpaceIsWhole | mm/vm.c:192-293 | For any highest linear address: vm_ctx_init leaves a valid space in which exactly the addresses of the two halves the processor can translate are free, once each, none is allocated, and the hole between them is neither |
| VmSpace.RunFromStart | mm/vm_space.c:18-475 | From that space on, after any such run, every address of the two halves is free or allocated, exactly one of them, and no other address is either |
| VmSpace.GrantsAreCanonical | mm/vm_space.c:18-288 | After any such run an allocation that does not wrap is granted addresses of the two halves only |
| VmSpace.HoleOf48Bits | mm/vm.c:207-281 | With 48 bits the halves are [0, 2^47) and [2^64 - 2^47, 2^64), and 2^47 is never free or allocated |
| VmContexts.NewProtNeverSets | mm/vm.c:751-772 | The protection asked for is the old one without the cleared bits, whatever bits were to be set |
| VmContexts.NewProtAsAskedIff | mm/vm.c:751-772 | It is what set and clear ask for iff set brings nothing new |
| VmContexts.FreeSucceeds | mm/vm_space.c:290-475 | Freeing an unlocked allocated range succeeds, reports its attributes and leaves one free extent holding it |
| VmContexts.ReallocSucceeds | mm/vm_space.c:18-288 | Allocating a just freed range with the reported flags succeeds at the same address with exactly those flags |
| VmContexts.FreeAllocRoundTrip | mm/vm.c:751-772 | Free and re-allocate changes nothing but the protection of that range |
| VmContexts.ChangeAttrOnlyReprotects | mm/vm.c:716-843 | When the page manager agrees, vm_change_attr of an unlocked range succeeds, changes only its protection, and is the identity on both maps when no bit is cleared |
| VmContexts.RollbackRestores | mm/vm.c:786-843 | When the page manager refuses, the rollback restores both maps, and the status is VM_OK |
| VmContexts.OkMeansChangedIff | mm/vm.c:716-843 | The status is VM_OK either way; the range carries the protection asked for iff the page manager agreed or it was the old one |
| VmContexts.ChangeFailsIff | mm/vm.c:716-793 | The status is VM_FAIL if and only if the range is not whole pages or no unlocked allocated extent holds it, and then neither map changes |
| VmContexts.FreeRefusedIff | mm/vm_space.c:290-345 | A range of whole pages is refused if and only if no allocated extent holds it or the one that does is locked |
| VmContexts.LockedStays | mm/vm_space.c:337-345 | No free reaches memory that was allocated with VM_LOCKED |
| VmContexts.ReallocNotRefused | mm/vm.c:767-793 | A range just freed is never refused: the branch that tries again with the old protection is not reached from a valid space |
| VmContexts.ChangeGivesUp | mm/vm.c:767-793 | In any space, a range that was freed and cannot be found again is left free, and the status is VM_FAIL |
| VmContexts.VmContext.constructor | mm/vm.c:192-293 | A context starts with one header in each of two distinct lists and both halves, as cpu_virt_max determines them, in the free one |
| VmContexts.VmContext.SpaceAlloc | mm/vm_space.c:18-288 | The branches of vm_space_alloc on the context's lists compute the function the allocation lemmas are about |
| VmContexts.VmContext.SpaceFree | mm/vm_space.c:290-475 | The same for vm_space_free |
| VmContexts.VmContext.ChangeAttr | mm/vm.c:716-843 | The same for vm_change_attr, whose status after a rollback is the one of the last free, VM_OK |
| VmTracking.TrackingIsAllOrNothing | mm/vm_extent.c:36-192 | On VM_OK exactly the top page of one free extent moves to the allocated map and the list has cap slots more; otherwise both maps and all slots are as they were; a valid space stays valid |
| VmTracking.TrackedEnds | mm/vm_extent.c:36-192 | VM_NOMEM iff no high free extent holds a page, else VM_NOENT iff the page has no place in the allocated list, else VM_FAIL iff the page manager refuses, else VM_OK |
| VmTracking.SlotFlagsAre | mm/vm_extent.c:33-34 | The flags of a bookkeeping page are the four of VM_SLOT_ALLOC_FLAGS, VM_LOCKED among them |
| VmTracking.SlotPageStays | mm/vm_extent.c:36-192 | The page a list was enlarged with can never be freed |
| VmTracking.RecordingSucceeds | mm/vm_extent.c:121-192 | The branch "checked previously but now we cannot insert" is unreachable |
| VmTracking.AllocSlotConserves | mm/vm_extent.c:433-455 | Growing a list, by way of the allocated list if need be, keeps the union of the maps on every path and never ends with VM_NOENT |
| VmTracking.SlotLeftOver | mm/vm_extent.c:433-455 | After growing the allocated list a slot is left for the page of the other list |
| VmTracking.AllocTracking | mm/vm_extent.c:36-192 | The steps on the context's lists, whichever of them is to grow, compute the function above |
| VmTracking.GrowList | mm/vm_extent.c:433-455 | The same for vm_extent_alloc_slot |
| VmRetries.AllocatingIff | mm/vm_space.c:18-288 | vm_space_alloc with its retries, on the kernel context, without any assumption about slots: refused without effect, or undone, or the range is allocated as asked and all that was allocated still is; the space is valid and the union of the maps unchanged if and only if the right piece found a slot at once, else the right piece is gone and the left one there twice |
| VmRetries.AllocatingRefusedIff | mm/vm_space.c:18-288 | It is refused if and only if the flags are not acceptable, the length is 0 or cannot be rounded up, or no free extent can hold the range |
| VmRetries.PlacingUndoneIff | mm/vm_space.c:176-284 | It is undone if and only if a list that had no slot could not be enlarged |
| VmRetries.AllocatingGivesAll | mm/vm_space.c:18-288 | The caller has all the bytes it asked for, at a fixed address under the condition of VmSpace.AllocGivesAll |
| VmRetries.FreeingKeeps | mm/vm_space.c:290-475 | vm_space_free with its retries: unless it is undone the space is valid, the union of the maps unchanged, and on success exactly the range is no longer allocated, but free |
| VmRetries.FreeingRefusedIff | mm/vm_space.c:290-345 | It is refused if and only if no allocated extent holds the range or the one that does is locked |
| VmRetries.ReleasingUndoneIff | mm/vm_space.c:347-475 | It is undone if and only if a list that had no slot could not be enlarged |
| VmRetries.FreeingTakesAll | mm/vm_space.c:290-475 | The bytes of the range are free afterwards, under the same condition |
| VmRetries.EnlargedKeeps | mm/vm_extent.c:433-455 | Enlarging one of the lists conserves, takes nothing from the allocated map, and leaves a slot for the insertion to be made again |
| VmRetries.EnlargedOkIff | mm/vm_extent.c:433-455 | Given a slot to record the page, enlarging succeeds if and only if high memory has a page and the page manager agrees |
| VmRetries.RetriesExtend | mm/vm_space.c:18-475 | Calls that end without a retry end the same way in the model without retries |
| VmRetries.ServedValidIff | mm/vm_space.c:18-475 | Over any run without wrapping requests and without undoing, however often the lists are enlarged, the space is valid all along if and only if no allocation loses its right piece |
| VmRetries.ServedConserves | mm/vm_space.c:18-475 | And then the union of the two maps never changes |
| VmRetries.ServedFromStart | mm/vm_space.c:18-475 | From the space vm_ctx_init leaves, the addresses of the two halves stay free or allocated, never both, and no other address ever is |
| VmRetries.UndoRefusesIff | mm/vm_space.c:490-503 | The tests of vm_space_undo give up if and only if the start of a longer extent was taken that ends below 2^64 |
| VmRetries.AllocationLosesRange | mm/vm_space.c:235-284 | Then an allocation that cannot be recorded leaves its range neither free nor allocated |
| VmRetries.KernelAllocate | mm/vm_space.c:18-288 | The branches of vm_space_alloc on the lists of the kernel context compute the function above |
| VmRetries.KernelFreeing | mm/vm_space.c:290-475 | The same for vm_space_free |
| VmRetries.InsertRight | mm/vm_space.c:191-233 | The right piece, with the retry that inserts the left one |
| VmLosses.RetryLosesPage | mm/vm_space.c:191-233 | With a full first header a page in the middle of three is granted; the page right of it is neither free nor allocated any more, the left one is there twice |
| HeapShapes.ServableIff | mm/liballoc.c:191-263 | The padded size and the size of a new major hold the request iff the two sums do not wrap around |
| HeapShapes.PagesForIs | mm/liballoc.c:197-209 | A new major has as few pages as hold the size and the slack of 96 times the page size, and at least 256 |
| HeapStates.FreshHoldsIff | mm/liballoc.c:191-281 | The major obtained for a request, which is one byte when the padded size is 0, is right with the request placed in it if and only if that is servable |
| HeapStates.GapHoldsIff | mm/liballoc.c:419-548 | A gap of any major that passes the size test, whose sum wraps around too, takes the request and leaves the major right if and only if neither the padded size nor that sum wraps |
| HeapStates.HugeRequestOverruns | mm/liballoc.c:191-263 | A concrete request near 2^64 gets a major of 1 MiB that does not hold it |
| HeapShapes.GapWithinFree | mm/liballoc.c:348-381 | No gap of a major exceeds size - usage |
| HeapShapes.FullHasNoGap | mm/liballoc.c:348-381 | CASE 1 never skips a major that has room |
| HeapShapes.TotalsFit | mm/liballoc.c:95-100 | l_inuse and l_allocated, the exact sums, fit 64 bits: disjoint blocks cannot sum up to more than the address space |
| HeapShapes.ShrunkGrown | mm/liballoc.c:603-728 | Taking out the minor that was just put in gives the major back |
| HeapStates.FreeUndoesAlloc | mm/liballoc.c:603-728 | kfree undoes kmalloc on the whole list of majors, giving a major back that was obtained for the request |
| HeapStates.UserRange | mm/liballoc.c:24-48 | A user range is 16-aligned and inside its own minor, the cookie between header and range |
| HeapStates.UserRangesApart | mm/liballoc.c:67-90 | No byte of a live user range is in another user range, a cookie, a minor header or a major header |
| HeapStates.LiveMemory | mm/liballoc.c:67-90 | The same for any two members of the set of live minors |
| HeapStates.UserWritesKeepCookies | mm/liballoc.c:24-48 | Whatever an owner writes into its range, all cookies stay right |
| HeapStates.LiveWith | mm/liballoc.c:383-548 | Placing adds exactly one live minor |
| HeapStates.LiveWithout | mm/liballoc.c:603-728 | Freeing removes exactly the freed minor |
| HeapStates.UnalignUndoesAlign | mm/liballoc.c:24-48 | UNALIGN undoes ALIGN at every 64-bit address, including where the pointer wraps, and only the cookie byte changes |
| HeapStates.UnalignIs | mm/liballoc.c:40-48 | The pointer is moved back by a cookie byte below 32; any other byte leaves it where it is |
| Heaps.FindGap | mm/liballoc.c:419-548 | The lowest gap that holds the request, or none exists |
| Heaps.CopyIntoBlock | mm/liballoc.c:832-838 | Copying the old contents into the new block keeps the heap valid, the contents, and all other user memory |
| Heaps.FindOwner | mm/liballoc.c:603-628 | The cookie of a live pointer leads to its minor |
| Heaps.Heap.constructor | mm/liballoc.c:93-100 | The empty heap is valid |
| Heaps.Heap.NewMajor | mm/liballoc.c:191-241 | A granted block joins the list as an empty major; a refused one changes nothing |
| Heaps.Heap.Extend | mm/liballoc.c:359-379 | The last major without room gets a successor with room, keeping the best bet |
| Heaps.Heap.Search | mm/liballoc.c:318-586 | The search ends; it asks for a new major iff no gap of any major holds the request, and otherwise finds the lowest gap of the first fitting major from the best bet around; the best bet it leaves has at least as many unused bytes as every major it compared, the one found included (SearchResult) |
| Heaps.Heap.Visit | mm/liballoc.c:335-346 | A major with more unused bytes than the best bet becomes the best bet, no other does |
| Heaps.Heap.Place | mm/liballoc.c:383-548 | The new minor starts its gap; ordering, disjointness, usage, totals and cookies stay right |
| Heaps.Heap.Kmalloc | mm/liballoc.c:247-593 | NULL iff no gap holds the request and the new major is refused; otherwise exactly one minor more, one byte written, heap valid; no major that was compared had more unused bytes than the best bet, and the first major of an empty heap is the best bet; a request of 2^64 - 32 is one for a byte |
| Heaps.Heap.Detach | mm/liballoc.c:680-719 | The minor is taken off, an emptied major given back and no longer the best bet; a major that is kept has no more unused bytes than the best bet, if there is one |
| Heaps.Heap.Kfree | mm/liballoc.c:603-728 | Removes exactly the minor of the pointer and an emptied major; memory unchanged, heap valid; the best bet as Detach leaves it |
| Heaps.Heap.Memcpy | mm/liballoc.c:121-144 | The word loop and the byte loop together copy n bytes and change no other |
| Heaps.Heap.Krealloc | mm/liballoc.c:750-839 | In place when req_size allows; otherwise a new block with the first req_size bytes, all other user memory kept; exactly when kmalloc fails it copies to NULL |
| FrameBitmaps.LowIsTheMask | mm/pfmgr.c:759-762 | The mask (1 << n) - 1 has exactly the bits below n |
| FrameBitmaps.MarkIsRightIff | mm/pfmgr.c:726-805 | Marking free frames gives the frames asked for iff the start is word-aligned or one of the word's low frames is already taken |
| FrameBitmaps.MarkMissesFrameOne | mm/pfmgr.c:726-805 | With nothing marked, a request for frame 1 marks frame 0 |
| FrameBitmaps.MarkThenClearIff | mm/pfmgr.c:726-879 | Marking free frames and then clearing them by pfmgr_clear_bmp brings the marks back if and only if marking did not miss or the word it missed in held no mark, where clearing misses the same way; the count comes back with them |
| FrameBitmaps.OnlyLowMeansAligned | mm/pfmgr.c:843-855 | When all requested frames are marked, the unshifted fast-path test of clearing succeeds only at a word boundary |
| FrameBitmaps.ClearKeepsTotal | mm/pfmgr.c:843-855 | Counting cleared frames as freed keeps the total iff all of them were marked |
| FrameBitmaps.FreeRange.MarkOneByOne | mm/pfmgr.c:771-791 | The slow path marks frame by frame and halts at the first taken one |
| FrameBitmaps.FreeRange.Pos | mm/pfmgr.c:740 | The frame that holds the physical address, counted from the base of the range |
| FrameBitmaps.FreeRange.Mark | mm/pfmgr.c:726-805 | For every request: marks, count and outcome are what the rounds leave (MarksLeft), and free plus marked is constant; for free frames within the count the status is 0 iff they end within the last word; a request that starts at a page and does not miss marks exactly the frames of its physical range |
| FrameBitmaps.FreeIsMarked | mm/pfmgr.c:726-805 | Free frames are marked up to the end of the last word, even past the end of the range, and what lies beyond is left over |
| FrameBitmaps.TakenIff | mm/pfmgr.c:771-791 | The call ends in its endless loop if and only if a frame it looks at is taken; after a miss it does not look at the frames of the first word |
| FrameBitmaps.FreeRange.ClearOneByOne | mm/pfmgr.c:856-873 | The slow path clears frame by frame and stops at the first that is not marked |
| FrameBitmaps.FreeRange.ClearRound | mm/pfmgr.c:825-875 | One round; free plus marked never falls, and is kept iff the fast path clears only marked frames |
| FrameBitmaps.FreeRange.Clear | mm/pfmgr.c:810-879 | For every request: marks, count and status are what the rounds leave (Cleared), free plus marked never falls, and it is kept if and only if every round that takes the fast path finds the low frames of its word all marked; marked frames of a physical range that starts at a page are cleared and no other |
| FrameBitmaps.MarkedIsCleared | mm/pfmgr.c:810-879 | Frames that are all marked, in a consistent range, are cleared and no other, with status 0 and the count right |
| FrameBitmaps.EmptyIsCounted | mm/pfmgr.c:810-879 | Frames of words without marks are counted as freed once more |
| FrameBitmaps.MarkedIsHonest | mm/pfmgr.c:810-879 | A request for marked frames in a consistent range satisfies that condition |
| FrameBitmaps.EmptyWordIsNot | mm/pfmgr.c:843-855 | A request that starts in a word without marks does not |
| RbShapes.HeightIsLogarithmic | utils/rb_tree.c:168-228 | A red-black tree of n nodes has height at most 2 log2(n + 1) |
| RbShapes.ShortIsRedBlackIff | utils/rb_tree.c:230-309 | Where the deletion fixup stops, the colour rules hold iff it stopped at a black node |
| RbShapes.DeleteCanFail | utils/rb_tree.c:230-309 | A concrete tree whose root, deleted, leaves a red root |
| RbShapes.SiblingIsThere | utils/rb_tree.c:230-309 | A short subtree always has a real sibling: the fixup never looks below the sentinel |
| RbShapes.RedSiblingRules | utils/rb_tree.c:244-250 | The red-sibling case keeps the subtree short by one and its sibling black |
| RbShapes.BlackNephewsRules | utils/rb_tree.c:252-256 | Reddening the sibling makes the parent short |
| RbShapes.NearNephewRules | utils/rb_tree.c:259-265 | The near-nephew rotation leads to the far-nephew case |
| RbShapes.FarNephewRules | utils/rb_tree.c:267-271 | The last rotation makes up for the missing black node |
| RbTrees.RbTree.RotationKeepsOrder | utils/rb_tree.c:98-166 | A rotation changes neither the in-order sequence nor the set of nodes |
| RbTrees.RbTree.constructor | utils/rb_tree.c:430-440 | The empty tree is valid, and the links of its sentinel are NULL |
| RbTrees.RbTree.LeftRotate | utils/rb_tree.c:98-131 | On the heap, parent links included, the subtree at any place becomes its left rotation |
| RbTrees.RbTree.RightRotate | utils/rb_tree.c:133-166 | The mirror image |
| RbTrees.RbTree.Replace | utils/rb_tree.c:47-68 | rb_transplant: v takes u's place below its parent, or as the root |
| RbTrees.RbTree.Minimum | utils/rb_tree.c:70-82 | The leftmost node of a subtree |
| RbTrees.RbTree.Recolor | utils/rb_tree.c:182-188 | The red-uncle case on the heap, whether or not z is linked |
| RbTrees.RbTree.InsertFixup | utils/rb_tree.c:168-228 | From one possible red-red edge, or from a node that was not linked, the loop ends with every colour rule restored, order and nodes kept |
| RbTrees.RbTree.Descend | utils/rb_tree.c:326-352 | The descent ends at the empty place where the comparator wants the new node |
| RbTrees.RbTree.Insert | utils/rb_tree.c:311-374 | For every comparator consistent with the order, equal answers included: if the last comparison is not equal the new node takes its place in the in-order sequence; if it is, nodes and order are unchanged; in both cases nothing else moves, the tree is a well-linked red-black tree and the status is 0 |
| RbTrees.RbTree.NoTieLinks | utils/rb_tree.c:326-364 | A comparator that never says equal always gets its node linked |
| RbTrees.RbTree.LinksIff | utils/rb_tree.c:326-364 | The new node is linked if and only if the tree is empty, its place is the first, the node before its place is not found equal, or that node has a right child |
| RbTrees.RbTree.RedRootTrapsInsert | utils/rb_tree.c:168-180 | Below a red root the fixup of an insertion compares the parent with the links of the sentinel, and takes its NULL left link for the uncle |
| RbTrees.RbTree.FixRedSibling | utils/rb_tree.c:244-250 | The red-sibling case on the heap |
| RbTrees.RbTree.FixBlackNephews | utils/rb_tree.c:252-256 | The black-nephews case on the heap |
| RbTrees.RbTree.FixNearNephew | utils/rb_tree.c:259-265 | The near-nephew case on the heap |
| RbTrees.RbTree.FixFarNephew | utils/rb_tree.c:267-271 | The far-nephew case on the heap |
| RbTrees.RbTree.DeleteFixup | utils/rb_tree.c:230-309 | The loop ends, keeps order, nodes and links, and the tree is red-black iff it does not end at a red node |
| RbTrees.RbTree.Splice | utils/rb_tree.c:376-428 | Unlinking a node with at most one child |
| RbTrees.RbTree.UnlinkInner | utils/rb_tree.c:376-428 | Unlinking a node with two children: the successor takes its place and colour |
| RbTrees.RbTree.Delete | utils/rb_tree.c:376-428 | Exactly z leaves the in-order sequence, every link is right, and the tree is red-black iff the condition DeleteRestores, asked before, holds |
| Mutexes.StepKeepsInv | kernel/mutex.c:57-261 | Every step of every thread keeps the invariant |
| Mutexes.RunKeepsInv | kernel/mutex.c:57-261 | So does every run |
| Mutexes.MutualExclusion | kernel/mutex.c:57-261 | In every interleaving at most one thread is between a successful acquire and its release, and a free mutex has an empty queue |
| Mutexes.GivingUpIsClean | kernel/mutex.c:57-193 | An acquire that returns -1 leaves its caller neither owner nor queued, however its timeout races with a hand-off |
| Mutexes.AcquireEnds | kernel/mutex.c:57-193 | An acquire of a free or own mutex succeeds whatever the wait; otherwise one without wait returns -1 and leaves no trace, and any other is queued last and sleeps |
| Mutexes.ResumeEnds | kernel/mutex.c:57-193 | After the sleep the owner has acquired the mutex; another thread returns -1 if its wait was limited, and is queued last again if it was not |
| Mutexes.TimedAcquireEnds | kernel/mutex.c:57-193 | A thread queued with a timeout has its result, 0 or -1, the next time it runs, in every interleaving |
| Mutexes.ReleaseByOther | kernel/mutex.c:217-228 | A release by a thread that is not the owner changes nothing and returns -1 |
| Mutexes.HandOffIsNeverLost | kernel/mutex.c:57-193 | A thread that was handed the mutex gets it when it resumes, even if its timeout fired |
| Mutexes.ReleaseServesLongestWaiting | kernel/mutex.c:195-261 | The owner's release hands over to the thread queued longest |
| Mutexes.StepServesQueue | kernel/mutex.c:57-261 | While a thread waits, nobody gets ahead of it and every hand-off brings it closer |
| Mutexes.NoOvertaking | kernel/mutex.c:57-261 | Over any run, a queued thread is served after at most one hand-off to each thread ahead of it |
| Mutexes.Mutex.constructor | kernel/mutex.c:9-30 | A new mutex is free and has no waiters |
| Mutexes.Mutex.TryOwn | kernel/mutex.c:57-193 | The critical section of the retry loop is one round of the step system |
| Mutexes.Mutex.AcquireEnter | kernel/mutex.c:57-193 | Entering mtx_acquire is the Acquire step |
| Mutexes.Mutex.AcquireResume | kernel/mutex.c:57-193 | Coming back from the sleep is the Resume step |
| Mutexes.Mutex.ReleaseBy | kernel/mutex.c:195-261 | mtx_release is the Release step |
| DeviceTrees.ShallowIsAllIff | kernel/devmgr.c:756-816 | A stack of room entries lets the walk reach every device iff the tree has at most room + 1 levels |
| DeviceTrees.FirstMatchIs | kernel/devmgr.c:776-784 | The first match of a list, and when there is none |
| DeviceTrees.GetByName | kernel/devmgr.c:756-816 | The walk ends with the first match in recursive preorder among the reachable devices, a device of the tree with that name and index; up to 129 levels, NULL iff there is none |
| DeviceTrees.PostorderOnce | kernel/devmgr.c:173-261 | Postorder lists every device of a tree once |
| DeviceTrees.ChildrenFirst | kernel/devmgr.c:173-261 | Postorder puts a device after everything below it |
| DeviceTrees.DropLeaf | kernel/devmgr.c:227-233 | Removing the leaf the walk is at takes the first device off the postorder still to do |
| DeviceTrees.UnlinkLeaf | kernel/devmgr.c:227-235 | Taking any leaf among the siblings the walk is at off leaves the rest of the tree linked |
| DeviceTrees.RemoveLeaf | kernel/devmgr.c:213-235 | The leaf branch of the walk |
| DeviceTrees.RemovalEndsIff | kernel/devmgr.c:208-248 | The loops of the removal end if and only if the tree below the device has at most 129 levels |
| DeviceTrees.NeverDone | kernel/devmgr.c:208-248 | On a higher tree no number of steps ends them, and more than 129 levels are left |
| DeviceTrees.EventuallyDone | kernel/devmgr.c:208-248 | On a lower one they end with nothing left below the device |
| DeviceTrees.LogIsPostorder | kernel/devmgr.c:208-248 | On a tree of at most 129 levels the devices taken off by any number of steps are the start of the postorder |
| DeviceTrees.LogIsWhatIsGone | kernel/devmgr.c:208-248 | On any tree they are exactly the devices that are no longer there |
| DeviceTrees.Visit | kernel/devmgr.c:211-236 | The body of the inner loop is one step of the walk, on the heap and for any height |
| DeviceTrees.RemovalRounds | kernel/devmgr.c:207-248 | On a tree of any height the loops follow the steps, round by round: exactly the devices those take off are gone, in that order, the rest stays linked; the loops are over iff the walk is done, never on more than 129 levels |
| DeviceTrees.DevRemove | kernel/devmgr.c:173-261 | Refuses the root bus, and children without permission; otherwise removes exactly the device and its descendants, un-initialising in postorder, siblings in order, and ends |
| Timers.IncrementAddsIff | kernel/timer.c:14-38 | Increment keeps times normalised and is addition iff the seconds still fit 32 bits |
| Timers.ExpiredIsDue | kernel/timer.c:40-66 | Expiry compares total time with the due time, also for a target whose nanoseconds exceed a second |
| Timers.QueueStep | kernel/timer.c:101-131 | One step of the walk over the active queue while it removes entries |
| Timers.Timer.Advance | kernel/timer.c:104-112 | The cursor is the time since the start, and the timer expires at the first tick that reaches its due time |
| Timers.Timer.Serve | kernel/timer.c:104-130 | A periodic timer starts anew, a one-shot one is processed |
| Timers.TimerQueue.Enqueue | kernel/timer.c:230-271 | A timer goes to the end of the pending queue having seen no tick |
| Timers.TimerQueue.Dequeue | kernel/timer.c:274-346 | It leaves whichever queue it is in; status 0 iff it was in one or is processed |
| Timers.TimerQueue.ServeActive | kernel/timer.c:101-131 | Exactly the timers that reach their due time fire, in queue order |
| Timers.TimerQueue.Tick | kernel/timer.c:80-145 | The same for the whole tick, after which the pending timers stand behind the active ones and the time passed has grown by the step; each timer is in one queue, once |
| Timers.FirstFiring | kernel/timer.c:101-131 | The first firing is at the first tick at which the steps since the activation reach the due time; then a periodic timer starts over |
| Timers.OneShotFiresOnce | kernel/timer.c:101-131 | Over any number of ticks a one-shot timer fires once, at that tick, and never only if no tick reaches it |
| Timers.PeriodicCountsAnew | kernel/timer.c:101-131 | Each firing of a periodic timer is at the first tick that reaches the due time counted from the firing before |
| Timers.TimerQueue.RunTicks | kernel/timer.c:80-145 | Over any sequence of ticks every timer makes exactly the firings these lemmas speak of, at those ticks, once each, and no other; the time passed is the sum of the steps |
| LinkedLists.List.constructor | utils/linked_list.c:10-25 | The empty list |
| LinkedLists.List.AddHead | utils/linked_list.c:27-53 | Prepends, keeping head, tail, count and prev/next symmetry |
| LinkedLists.List.AddTail | utils/linked_list.c:55-81 | Appends |
| LinkedLists.List.Remove | utils/linked_list.c:120-153 | Removes the node at any position, the others keep their order |
| LinkedLists.List.FindNode | utils/linked_list.c:155-171 | 0 iff the node is in the list |
| LinkedLists.List.Concat | utils/linked_list.c:173-199 | Moves all nodes behind the destination's and empties the source; -1 iff the source was empty |
| LinkedLists.List.GetFirst | utils/linked_list.c:241-266 | Takes the first node off, or NULL iff empty |
| LinkedLists.List.GetLast | utils/linked_list.c:268-294 | Takes the last node off, or NULL iff empty |

## Left out

- VmSpace.RunConserves: assumes a spare slot in each list before every call and that no served request wraps; RunValidIff says that wrapping requests are all that break a space. Runs without spare slots are those of VmRetries.ServedConserves.
- VmContexts.VmContext.SpaceAlloc: for any context; ends as OutOfSlots where the source enlarges a list and tries again. VmRetries follows that on the kernel context, whose lists the pages come from; other contexts take them from the kernel's lists, which is not followed.
- VmContexts.VmContext.ChangeAttr: the same; it ends as Stuck there.
- VmRetries.AllocatingIff: for requests that do not wrap; ends as Undo where vm_space_undo is called (mm/vm_space.c:477-543). Of that function only the tests at its head are modelled.
- VmContexts.VmContext.SpaceFree: the same for vm_space_free.
- VmSpace.AllocMovesExactly: for requests that do not wrap; AllocExactIff shows that no others move exactly their range.
- VmSpace.FreeMovesExactly: for requests that do not wrap; see FreeExactIff.
- Extents.SplitConserves: for cuts that do not run past 2^64; see SplitConservesIff.
- VmContexts.VmContext.constructor: the page steps of vm_ctx_init and the tracking pages are left out; the capacities of the two first headers are parameters, 100 slots for the page that every caller passes.
- ExtentLists.ExtentList.Insert: extents and headers are values in the list's sequences; which slot node holds an extent is not modelled, and avail_ext appears as its length only.
- ExtentLists.ExtentList.AddHeader: avail_ext is a number, so no slots are linked.
- VmTracking.AllocTracking: the page manager's answers are parameters; 32-bit list counts are unbounded.
- Heaps.Heap.Kmalloc: requests beyond Servable, where size sums wrap around, are excluded; FreshHoldsIff and GapHoldsIff show what becomes of the major that takes one.
- Heaps.Heap.NewMajor: the same for the size it is called with.
- Heaps.Heap.Kfree: the pointer is live; the checks of the magic number against bad pointers and double frees, which read whatever memory holds, and kfree(NULL), which does not return early, are not modelled.
- Heaps.Heap.Krealloc: stops where the source would copy through a NULL pointer; a pointer is NULL or live, krealloc(NULL, 0) is kfree(NULL), and sizes are servable, as for Kfree and Kmalloc; the lock being dropped before the inner kmalloc is not modelled, the calls run one after the other.
- Heaps.Heap.Search: prev and next pointers of majors and minors are their places in sequences, the pages liballoc_alloc hands out are a parameter, and warning counters are left out.
- DeviceTrees.DevRemove: requires at most 129 levels below the device, since on a higher subtree the loops do not end (RemovalEndsIff); RemovalRounds says what they do there, round by round.
- DeviceTrees.GetByName: children are a sequence and the walk's local stack, limited to 128 entries by the source's own test, is a sequence too; a NULL device, the read lock and the driver callbacks are left out, un-initialisation is the order of a log.
- Timers.TimerQueue.Tick: requires normalised steps and seconds that do not overflow; callbacks are entries of a log and do not touch the queue, and NULL arguments are left out.
- Timers.TimerQueue.RunTicks: no timer is enqueued or dequeued between the ticks, and the seconds of the whole sequence do not overflow.
- RbTrees.RbTree.Insert: the comparator reads its argument as a value; mirrored cases of the deletion fixup are one case with a side parameter.
- Mutexes.MutualExclusion: FIFO, non-recursive mutexes; sched_sleep and sched_wake_thread become "a sleeping thread may resume at any moment", so nothing is said about lost wake-ups or about when a thread runs.
- rb_tree_find, which has no exit on a match, and rb_tree_maximum.
- vm_extent_release_tracking and vm_extent_release_slot, whose list arguments are used inconsistently; vm_extent_merge, which never merges.
- linked_list_add_before and linked_list_add_after, which do not relink the far neighbour, and with them priority-ordered and recursive mutexes.
- The frame lookup, early boot allocation and region callbacks of mm/pfmgr.c; paging (pgmgr_*), vm_alloc's and vm_map's page steps.
- Reader and writer spinlocks: every critical section is taken as atomic.
- Semaphores, I/O, CPU, interrupt, thread and PCI code, the ACPICA tree and the architecture directory.
