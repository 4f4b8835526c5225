# A verified model of the kernel's memory and device queues

This project models, in Dafny, the parts of the kernel where a mistake corrupts memory without
anyone noticing, and proves what the kernel relies on there.

- **The region-tree allocator** (`kernel/src/allocator/tree_alloc.rs`). Free memory is a left-leaning
  red-black tree of regions, ordered by base address and indexed by the largest size in each subtree.
  The operations exist twice. As functions on a tree value they carry the theorems: shape, contents,
  the size index, first fit, coalescing, booting, whole runs (`RegionTree`, `TreeShape`,
  `TreeDeletion`, `TreeInsertion`, `SizeIndex`, `FirstFit`, `Coalescing`, `RegionAllocator`, `TreeBoot`,
  `AllocatorRuns`, `Refusal`). As methods
  on heap nodes that are rotated, recoloured, carved and recycled in place (`TreeNodes`,
  `TreeOperations`, `TreeAlloc`, `KernelRuns`) they are proved equal to those functions, so every theorem
  holds of the object. The ghost value `Boxes` records which node sits where; it plays the part of Rust's
  ownership of `Box`es.
- **The bump arena** (`kernel/src/allocator/bump_alloc.rs`), which stores the tree's own nodes, and
  `TreeAlloc::init`, which builds the tree around it (`BumpArena`).
- **The xHCI rings** (`kernel/src/pci/usb/xhci/ring.rs`, `trb.rs`). The event-ring consumer and the
  command-ring producer are classes over arrays (`EventRing`, `CommandRing`). `EventSystem` and
  `CommandSystem` add the controller as the other party, following sections 4.9.3 and 4.9.4 of the xHCI
  specification, and reason about every interleaving over any number of laps.
- **The accessors generated by `bitstruct!`** (`proc_macros/src/lib.rs`): byte loops that read and write
  any bit range (`BitStruct`), and the layout and constructor built on them (`BitLayout`). `Words` gives
  the bit operators on machine words, `Arithmetic` the few facts about powers and division.

Where the code and the intention behind it differ, the code is modelled:

- `free` may leave the root red, because `insert` recolours it and `delete` does not. The invariant is
  therefore "left-leaning red-black up to the colour of the root", and deletion is proved insensitive to it.
- `free` loses bytes. Line 230 overwrites `new_base` before line 231 adds the freed size to it, and line 238
  takes the successor's end even when that lies below the freed end. Safety is not affected. The exact loss
  is proved for every call and summed over every run, and `Coalescing.FreeConservesExactlyWhen` says when it
  is zero. `RepairedFree` is a proposal kept apart from the model: a `free` with which nothing is lost.
- Safety is proved for memory areas that leave a gap between any two, which `find_heap_areas`
  (`kernel/src/allocator/allocator.rs:95-130`) does not establish. Without a gap two nodes come to share a key,
  and deletion can take out the wrong one: `TouchingAreas.TouchingAreasAreUnsafe` is a run that hands out one
  address twice. `UncheckedRuns.KeysStayUniqueExactlyWhen` shows the gap to be exactly what unique keys need; for disjoint blocks it is
  proved sufficient, and not claimed necessary for each map. For this, `free` is also
  modelled on trees of any kind (`UncheckedDeletion`, `UncheckedRuns`), and what survives there is proved: no
  byte from outside the areas, and so none of the arena, is ever handed out.
- `alloc` tries one position in each region, so with a boundary it can refuse although a usable block exists
  (`Refusal.UsableBlockIsRefused`); `Refusal.FirstPositionDecidesExactlyWhen` gives the exact requests. The
  ring's own request (64-byte alignment, 64 KB boundary, blocks larger than 64 bytes) is not one of the safe ones.
- `dequeue_events` removes one event more than it delivers when the buffer is too small.
- `flip_ring` and `with_fields` have no guards. The exact conditions under which they are right are
  `CommandSystem.FlipIsSafeExactlyWhen` and the contract of `BitLayout.WithFields`.

Integers are unbounded. Where the source computes in 64 bits, the ranges are preconditions
(`FirstFit.Representable`, the bounds on `PlanFree`, `Free` and `BumpAlloc.Alloc`), the sums formed are
asserted to stay in range, and masks are computed bit by bit and proved equal to the division they stand for.

## Model

| member | source | states |
|---|---|---|
| TreeDeletion.DeleteShrinks | kernel/src/allocator/tree_alloc.rs:342-379 | Deleting any key from a tree in shape up to its root's colour, or from the right-heavy node that `move_red_right` leaves, gives a tree in shape up to its root's colour; black height is kept or exactly one level is given up, and an empty result means the tree was a single node |
| TreeDeletion.DeleteMinShrinks | kernel/src/allocator/tree_alloc.rs:330-340 | The same for taking out the minimum |
| TreeDeletion.ShrunkBelowRoot | kernel/src/allocator/tree_alloc.rs:342-379 | The inductive contract below the root: where the colour is real, black height is unchanged and black stays black |
| TreeDeletion.DeleteIgnoresRootColor | kernel/src/allocator/tree_alloc.rs:243-250 | Toggling the root's colour before a deletion is toggling it afterwards: not recolouring the root first, as `free` does, changes nothing else |
| TreeDeletion.DeleteContents | kernel/src/allocator/tree_alloc.rs:342-379 | The in-order regions after deletion are the old ones without the region that has the key; an absent key removes nothing |
| TreeDeletion.DeleteMinContents | kernel/src/allocator/tree_alloc.rs:330-340 | Exactly the first region disappears |
| TreeDeletion.LastHasNoChildren | kernel/src/allocator/tree_alloc.rs:116-121 | A node that is given up because its right link is empty has no left child and was not rotated: no subtree is dropped with it |
| TreeDeletion.BorrowLeftReady | kernel/src/allocator/tree_alloc.rs:288-298 | The sibling that `move_red_left` unwraps exists, the contents stay, and the left child is ready for the descent (red, or with a red left child) |
| TreeDeletion.PrepareRightReady | kernel/src/allocator/tree_alloc.rs:300-307 | The same for leaning right and `move_red_right`, including the right-heavy case, with the key still at or above the node |
| TreeShape.FixUpShape | kernel/src/allocator/tree_alloc.rs:309-321 | `fix_up` puts any node with subtrees in shape and of equal black height into shape up to its own colour: two red children give up their red to the node, otherwise colour and black height stay |
| TreeShape.FixUpKeepsContents | kernel/src/allocator/tree_alloc.rs:309-321 | Neither fix-up changes the in-order regions |
| TreeInsertion.InsertExpands | kernel/src/allocator/tree_alloc.rs:183-206 | Insertion keeps the shape; black height grows only by splitting a node whose left child was red |
| TreeInsertion.InsertContents | kernel/src/allocator/tree_alloc.rs:183-206 | Exactly one region is added, at its place in the order, behind equal keys |
| TreeInsertion.HeightIsLogarithmic | kernel/src/allocator/tree_alloc.rs:183-219 | A tree in shape with n nodes has height at most 2*log2(n+1), whatever its root's colour |
| SizeIndex.MaxExactIsMaximum | kernel/src/allocator/tree_alloc.rs:131-140 | Locally exact `max_size` fields hold the maximum over the whole in-order sequence, and it is attained |
| SizeIndex.InsertKeepsIndex | kernel/src/allocator/tree_alloc.rs:183-206 | The index is exact again after every insertion |
| SizeIndex.DeleteKeepsIndex | kernel/src/allocator/tree_alloc.rs:342-379 | The index is exact again after every deletion, although colour moves and the successor copy leave it stale on the way |
| FirstFit.ScanIsFirstFit | kernel/src/allocator/tree_alloc.rs:449-526 | The linear scan serves the first region that fits and touches no other; it refuses only if none fits |
| FirstFit.AllocRefinesScan | kernel/src/allocator/tree_alloc.rs:449-526 | The search pruned on `max_size` returns the address and leaves the regions of the linear scan |
| FirstFit.AllocNoneKeepsTree | kernel/src/allocator/tree_alloc.rs:449-526 | A search that fails leaves the tree as it was |
| FirstFit.AllocKeepsIndex | kernel/src/allocator/tree_alloc.rs:500-524 | The index is exact after every allocation |
| FirstFit.AllocKeepsShape | kernel/src/allocator/tree_alloc.rs:449-526 | Allocation changes keys and sizes in place but no link and no colour |
| FirstFit.FitMeansUsable | kernel/src/allocator/tree_alloc.rs:466-503 | A block that fits is aligned, inside the region, physically at or below the limit and in one boundary window; what stays is the rest of the region behind it |
| FirstFit.FitsExactlyWhen | kernel/src/allocator/tree_alloc.rs:456-503 | The test of a node passes if and only if, at its first aligned address, the block ends in the region, physically ends at or below the limit (below 2^64 where no limit is given), and has every byte in one boundary window |
| FirstFit.MaskedWindow | kernel/src/allocator/tree_alloc.rs:483-499 | Comparing addresses masked with `!(boundary - 1)` decides exactly whether the block stays in one window |
| FirstFit.LimitMayBeExplicit | kernel/src/allocator/tree_alloc.rs:449-465 | Handing `None` down the recursion as `usize::MAX` makes no difference |
| Coalescing.FreeExplicit | kernel/src/allocator/tree_alloc.rs:221-256 | For any base and size, `free` replaces at most the two neighbours of the base by at most one region and leaves all others |
| Coalescing.FreeRefills | kernel/src/allocator/tree_alloc.rs:221-256 | What `free` of a block in use puts in the place of the neighbours, case by case |
| Coalescing.FreeKeepsSeparation | kernel/src/allocator/tree_alloc.rs:221-256 | The strict gap between consecutive regions survives, so keys stay unique |
| Coalescing.FreeStaysClear | kernel/src/allocator/tree_alloc.rs:221-256 | Freeing one block makes no byte of another block free |
| Coalescing.FreeCoversNothingNew | kernel/src/allocator/tree_alloc.rs:221-256 | Every byte free afterwards was free before or in the freed block |
| Coalescing.FreeAccounts | kernel/src/allocator/tree_alloc.rs:228-241 | Free bytes afterwards plus the loss are free bytes before plus the block; the loss is the block at an empty region with its base, else min(predecessor size, block size) at a predecessor that touches, else zero |
| Coalescing.FreeConservesExactlyWhen | kernel/src/allocator/tree_alloc.rs:228-241 | No byte is lost if and only if no free region ends exactly where the block begins |
| Coalescing.FreeLosesAdjacentBlock | kernel/src/allocator/tree_alloc.rs:229-233 | Region [0,100) and `free(100, 100)` give [0,100): the freed half is gone |
| Coalescing.FreeLosesBlockAtEmptyRegion | kernel/src/allocator/tree_alloc.rs:236-241 | An empty region at the freed base makes the whole block disappear |
| RepairedFree.RepairsOnlyWhereBytesAreLost | kernel/src/allocator/tree_alloc.rs:221-256 | Where the source's `free` loses nothing, the proposed repair gives the same regions |
| RepairedFree.RepairedFreeConserves | kernel/src/allocator/tree_alloc.rs:221-256 | A proposal, not the source: with three repairs, freeing any block in use makes exactly its bytes free and keeps the gaps |
| RegionAllocator.PredecessorInIsPredecessor | kernel/src/allocator/tree_alloc.rs:258-273 | The descent finds the last region that begins below the address |
| RegionAllocator.SuccessorInIsSuccessor | kernel/src/allocator/tree_alloc.rs:275-286 | The descent finds the first region that begins at or above the address |
| RegionAllocator.RemoveKeepsOrder | kernel/src/allocator/tree_alloc.rs:243-250 | Deletion keeps shape, order and index together and removes just the key |
| RegionAllocator.InsertIsInOrder | kernel/src/allocator/tree_alloc.rs:208-219 | `insert` keeps shape and index, adds one region in order unless its size is zero, and leaves a black root |
| RegionAllocator.FreeRefinesRegions | kernel/src/allocator/tree_alloc.rs:221-256 | `free` on the tree is `free` on the ordered regions, and shape and index survive |
| RegionAllocator.AllocRefinesRegions | kernel/src/allocator/tree_alloc.rs:381-394 | `alloc` on the tree is the linear scan; shape and index survive; refusal leaves the tree up to the root's colour |
| RegionAllocator.AllocBlockIsUsable | kernel/src/allocator/tree_alloc.rs:381-394 | A block handed out is at the first aligned address of a free region, in that region, physically below the limit or 2^64, in one window; `alloc` refuses exactly when no region's first aligned address meets these. Whether a usable block then exists elsewhere is the matter of Refusal.FirstPositionDecidesExactlyWhen |
| Refusal.FirstPositionDecidesExactlyWhen | kernel/src/allocator/tree_alloc.rs:466-503 | For powers of two and monotone translation, every region that holds a usable block is served if and only if there is no boundary, or size <= align, or boundary <= align, or size > boundary, or nothing at or behind the first boundary is below the limit |
| Refusal.RefusalMeansNothingIsUsable | kernel/src/allocator/tree_alloc.rs:381-394 | For such requests `alloc` refuses exactly when no free region holds a usable block at any address |
| Refusal.StraddlingIsRefused | kernel/src/allocator/tree_alloc.rs:466-503 | For every other request, a region that holds a usable block and is refused |
| Refusal.UsableBlockIsRefused | kernel/src/allocator/tree_alloc.rs:381-394 | Region [3,13), four bytes, boundary four: refused although [4,8) is usable |
| FirstFit.MaskIsRoundDown | kernel/src/allocator/tree_alloc.rs:483-484 | Masking with `!(align - 1)` on 64 bits is rounding down to a multiple of a power of two |
| RegionAllocator.MergingDoesNotGrow | kernel/src/allocator/tree_alloc.rs:228-255 | A `free` that merges leaves no more nodes than before |
| AllocatorRuns.StepIsSafe | kernel/src/allocator/tree_alloc.rs:221-394 | Each `alloc` and each `free` of a live block keeps blocks disjoint from each other and from free memory, keeps regions separated, keeps the sum of free, live and lost bytes, and brings in no byte from outside |
| TreeBoot.BootIsSafe | kernel/src/allocator/tree_alloc.rs:566-582 | Inserting any areas in any order, touching or overlapping ones too, gives a tree in shape, indexed, in order, holding exactly the non-empty areas and their bytes; its regions are separated if and only if any two non-empty areas leave a gap |
| AllocatorRuns.RunsAreSafe | kernel/src/allocator/tree_alloc.rs:221-582 | Over every run from areas with gaps: disjointness, exact accounting of the initial bytes, no byte from outside the areas, logarithmic height. The condition is the one of UncheckedRuns.KeysStayUniqueExactlyWhen |
| AllocatorRuns.OneOwner | kernel/src/allocator/tree_alloc.rs:221-394 | A byte of a live block is not free and is in no other block |
| UncheckedDeletion.TryDeleteAgrees | kernel/src/allocator/tree_alloc.rs:342-379 | Deletion defined on any tree, with a failing `unwrap` as a result of its own, is the modelled deletion wherever that one is defined: there no `unwrap` fails |
| UncheckedDeletion.MissingSiblingPanics | kernel/src/allocator/tree_alloc.rs:288-307 | On a tree where the sibling to borrow from is missing, the `unwrap` fails |
| UncheckedDeletion.TryDeleteInventsNothing | kernel/src/allocator/tree_alloc.rs:342-379 | On any tree at all, repeated keys and broken shape included, what deletion leaves was there before |
| UncheckedDeletion.TryFreeCoversNothingNew | kernel/src/allocator/tree_alloc.rs:221-256 | On any tree at all, a byte free after `free` was free before or in the freed block |
| UncheckedRuns.KeysStayUniqueExactlyWhen | kernel/src/allocator/tree_alloc.rs:221-582 | Over all runs from boot no `unwrap` fails and no two nodes ever share a key, if and only if any two non-empty areas leave a gap |
| UncheckedRuns.MissingGapEndsInSharedKey | kernel/src/allocator/tree_alloc.rs:449-526 | For any areas of which two leave no gap, a run of equal requests ends with two nodes on one key |
| UncheckedRuns.RunFromIsRun | kernel/src/allocator/tree_alloc.rs:221-394 | From a safe state no call panics, and the unchecked run is the modelled one |
| UncheckedRuns.RunsStayInTheAreas | kernel/src/allocator/tree_alloc.rs:221-582 | With or without gaps, a byte that is free or handed out belongs to an area |
| TouchingAreas.WrongNodeGoes | kernel/src/allocator/tree_alloc.rs:342-379 | With two nodes on key 2, deleting 2 for the predecessor (2,3) takes out (2,0), and the minimum removed from a right-heavy subtree drops a third region |
| TouchingAreas.TouchingAreasAreUnsafe | kernel/src/allocator/tree_alloc.rs:221-582 | Three areas that touch and seven calls end with address 2 in two live blocks |
| TreeNodes.RotateLeft | kernel/src/allocator/tree_alloc.rs:142-151 | The pointer rotation yields exactly the rotated tree on the same nodes |
| TreeNodes.RotateRight | kernel/src/allocator/tree_alloc.rs:153-162 | The mirror image |
| TreeNodes.FlipColors | kernel/src/allocator/tree_alloc.rs:164-181 | Toggles a node and both children in place and nothing else |
| TreeOperations.FixUp | kernel/src/allocator/tree_alloc.rs:309-321 | In-place `fix_up` is the value function, on the same nodes |
| TreeOperations.InsertNode | kernel/src/allocator/tree_alloc.rs:183-206 | In-place insertion is the value function, on the old nodes and the new one |
| TreeOperations.MoveRedLeft | kernel/src/allocator/tree_alloc.rs:288-298 | In-place `move_red_left` is the value function, on the same nodes |
| TreeOperations.MoveRedRight | kernel/src/allocator/tree_alloc.rs:300-307 | In-place `move_red_right` is the value function, on the same nodes |
| TreeOperations.MinNode | kernel/src/allocator/tree_alloc.rs:323-328 | The loop down the left links finds the first region |
| TreeOperations.Predecessor | kernel/src/allocator/tree_alloc.rs:258-273 | The loop returns a node of the tree that holds the predecessor region, or null |
| TreeOperations.Successor | kernel/src/allocator/tree_alloc.rs:275-286 | The loop returns a node of the tree that holds the successor region, or null |
| TreeOperations.TryNode | kernel/src/allocator/tree_alloc.rs:466-499 | The masked 64-bit test on one node decides exactly `Fits`, and no sum in it overflows |
| TreeOperations.AllocNodes | kernel/src/allocator/tree_alloc.rs:449-526 | The recursive in-place search is the value function, moves no node, and returns its address |
| TreeAlloc.RBTreeAlloc.AllocNode | kernel/src/allocator/tree_alloc.rs:98-114 | Reuses the head of the freelist as a new red leaf and keeps the rest in order; takes a new node only when the freelist is empty |
| TreeAlloc.RBTreeAlloc.FreeNode | kernel/src/allocator/tree_alloc.rs:116-121 | Pushes the node on the freelist |
| TreeAlloc.RBTreeAlloc.DeleteMin | kernel/src/allocator/tree_alloc.rs:330-340 | In-place: the value function, and each node leaves the tree only for the freelist |
| TreeAlloc.RBTreeAlloc.Delete | kernel/src/allocator/tree_alloc.rs:342-379 | In-place: the value function, and each node leaves the tree only for the freelist |
| TreeAlloc.RBTreeAlloc.Insert | kernel/src/allocator/tree_alloc.rs:208-219 | In-place insertion with a black root; nodes taken so far grow only if the tree outgrows them |
| TreeAlloc.RBTreeAlloc.PlanFree | kernel/src/allocator/tree_alloc.rs:221-241 | The merge computed from the two neighbours, with no overflow in 64 bits |
| TreeAlloc.RBTreeAlloc.Free | kernel/src/allocator/tree_alloc.rs:221-256 | The object's invariant is kept, the tree is the value function's, nodes taken are the largest tree so far, and a merge takes no new node |
| TreeAlloc.RBTreeAlloc.Alloc | kernel/src/allocator/tree_alloc.rs:381-394 | The object's invariant is kept, tree and address are the value function's, no node is taken or moved |
| KernelRuns.Perform | kernel/src/allocator/tree_alloc.rs:221-394 | One call on the object is one step of the run model |
| KernelRuns.RunCalls | kernel/src/allocator/tree_alloc.rs:98-394 | A run of calls on the object, from any blocks in use, ends in the tree and the live blocks of the modelled run, having taken from the bump arena exactly as many nodes as the tree ever held at once |
| KernelRuns.BootAndRun | kernel/src/allocator/tree_alloc.rs:221-582 | From the memory map to the end of a run on the object: the arena is at the front of the first large area; tree, blocks in use, lost bytes and nodes taken are those of the modelled run of the calls; the blocks are disjoint from each other, from free memory and from the arena, and free, live, lost and arena bytes add up to the areas |
| BumpArena.FindArea | kernel/src/allocator/bump_alloc.rs:22-27 | The arena goes into the first area of at least 5 MB; failure means there is none |
| BumpArena.BumpAlloc.Alloc | kernel/src/allocator/bump_alloc.rs:51-71 | The block is the first aligned one behind all earlier ones, inside the arena, and is refused exactly when it does not fit; the saturating sum decides correctly |
| BumpArena.InitTree | kernel/src/allocator/tree_alloc.rs:566-582 | Shrinks the area that holds the arena and inserts all areas, one new node for each node of the tree; the object's invariant then holds if and only if the areas left have gaps |
| BumpArena.AroundArenaCovers | kernel/src/allocator/tree_alloc.rs:571-576 | Shrinking takes exactly the bytes of the arena out of the areas |
| BumpArena.ArenaIsNeverHandedOut | kernel/src/allocator/allocator.rs:154-163 | Whatever blocks are live when the mode switches, over every run from areas that do not overlap, touching or not: a byte of the arena whose block is not given to the tree is never free there and never in a block the tree hands out; every tree node is such a case |
| BumpArena.TreeBlocksMissTheArena | kernel/src/allocator/tree_alloc.rs:566-582 | With no arena block live at the switch, no byte of the arena is ever free in the tree or part of a block it handed out |
| BumpArena.SwitchIsSafe | kernel/src/allocator/allocator.rs:154-163 | With arena blocks live at the switch and freed later, from areas with gaps: all blocks stay disjoint, and the bytes of areas and arena blocks are accounted for |
| UncheckedRuns.RunKeepsOwner | kernel/src/allocator/tree_alloc.rs:221-394 | Over any run, gaps or not, a byte that is not free and whose block is not freed keeps its owner, and no block handed out contains it |
| Trb.TaggedRoundTrip | kernel/src/pci/usb/xhci/trb.rs:55-78 | `from_raw(to_union(t), to_tag(t))` is `t` |
| Trb.StampTouchesOnlyTheCycle | kernel/src/pci/usb/xhci/trb.rs:12-19 | Setting the cycle bit of a block sets that bit of its union and leaves both parameter dwords, the status dword, the rest of the control dword and the tag alone |
| Trb.StampedUnion | kernel/src/pci/usb/xhci/trb.rs:12-19 | Setting the cycle bit commutes with taking the union |
| Trb.UnionsAndTags | kernel/src/pci/usb/xhci/trb.rs:55-78 | Bytes and tag of each kind of block; an empty block is all zero but for its cycle bit |
| Trb.PayloadIsAllButTheCycle | kernel/src/pci/usb/xhci/trb.rs:42-46 | Comparing blocks without their cycle bits compares all else |
| Trb.ControlDwordBits | kernel/src/pci/usb/xhci/trb.rs:32-52 | Cycle bit, toggle bit and type of the model are bits 0, 1 and 10 to 15 of the 32-bit control dword |
| EventRing.XhciEventRing.DequeueTrb | kernel/src/pci/usb/xhci/ring.rs:175-187 | Takes the block at the driver's position if its cycle bit is the driver's, and moves on, turning the cycle at the end of the segment; otherwise nothing changes |
| EventRing.XhciEventRing.DequeueEvents | kernel/src/pci/usb/xhci/ring.rs:189-210 | For any segment contents it stops within one lap: either all pending events are in the buffer in order, or the buffer is full and exactly one event more is taken; the register then points at the driver's slot inside the segment |
| EventRing.PointerIsExact | kernel/src/pci/usb/xhci/registers.rs:342-345 | Shifting an aligned slot address down by four loses no bit |
| EventRing.ReadyOnlyOnce | kernel/src/pci/usb/xhci/ring.rs:175-187 | A ready slot is stale one lap later, so draining fixed contents ends |
| EventRing.AdvanceWraps | kernel/src/pci/usb/xhci/ring.rs:180-184 | The position counts to 127 and wraps to 0, where the cycle turns |
| EventSystem.ReadyIsUnread | kernel/src/pci/usb/xhci/ring.rs:175-187 | In every reachable state the driver finds an event exactly when one is unread, and it is the oldest |
| EventSystem.WriteKeepsInv | kernel/src/pci/usb/xhci/ring.rs:129-169 | With fewer than a segment of unread events the controller may write: nothing unread is overwritten |
| EventSystem.BootHolds | kernel/src/pci/usb/xhci/ring.rs:129-169 | The zeroed segment with cycle true on both sides is the empty queue |
| EventSystem.RunsRefineFifo | kernel/src/pci/usb/xhci/ring.rs:129-210 | Every interleaving of posting, polling and publishing over any number of laps answers exactly as an unbounded queue, with the controller's own fullness test as the only limit |
| EventSystem.SegmentRefinesQueue | kernel/src/pci/usb/xhci/ring.rs:129-187 | The same for any writer that leaves at most a whole segment unread, all slots used |
| EventSystem.DrainDeliversAll | kernel/src/pci/usb/xhci/ring.rs:189-210 | What `dequeue_events` finds pending are all unread events in order |
| CommandRing.XhciCommandRing.AddTrb | kernel/src/pci/usb/xhci/ring.rs:68-77 | Refuses a full ring without a change; otherwise stages the stamped block in the next slot |
| CommandRing.XhciCommandRing.SubmitTrbs | kernel/src/pci/usb/xhci/ring.rs:78-86 | The loop copies the staged slots and the one behind them, lowest first |
| CommandRing.XhciCommandRing.FlipRing | kernel/src/pci/usb/xhci/ring.rs:87-107 | The whole ring becomes stale blocks and a link of the next lap |
| CommandRing.AddStages | kernel/src/pci/usb/xhci/ring.rs:68-77 | The slot staged holds the block's dwords and tag with the ring's cycle bit; nothing else changes |
| CommandRing.SubmitPublishes | kernel/src/pci/usb/xhci/ring.rs:78-86 | Slots up to and including the next free one hold union and tag of what is staged there; every slot behind keeps what it had, and so does the staging area |
| CommandRing.AddedCommandIsPublished | kernel/src/pci/usb/xhci/ring.rs:68-86 | The dwords of a command added and submitted appear in its slot, with the ring's cycle bit |
| CommandRing.InitIsCleared | kernel/src/pci/usb/xhci/ring.rs:31-61 | After initialising, 63 zero blocks of the other cycle, tags all empty, and in slot 63 a link to the ring's base with control dword 0x1803 |
| CommandRing.FlipIsCleared | kernel/src/pci/usb/xhci/ring.rs:87-107 | The same after a flip, for the other cycle: control dword 0x1802 or 0x1803 |
| CommandRing.SubmitReadsBack | kernel/src/pci/usb/xhci/ring.rs:78-86 | Every staged block can be read back from ring and tag after a submission |
| CommandRing.SubmitIsIdempotent | kernel/src/pci/usb/xhci/ring.rs:78-86 | Submitting again changes nothing |
| CommandSystem.StepKeepsInv | kernel/src/pci/usb/xhci/ring.rs:68-107 | Staging, copying a slot, flipping after the link is taken, and fetching keep the invariant in any order |
| CommandSystem.FetchKeepsInv | kernel/src/pci/usb/xhci/ring.rs:78-107 | A fetch executes exactly the next command in order, or follows the link, or waits |
| CommandSystem.ExecutedIsPrefixOfAdded | kernel/src/pci/usb/xhci/ring.rs:31-107 | Over every interleaving and any number of laps, the executed commands are a prefix of the added ones, and both histories only grow at the end: none repeated, skipped, invented or taken back |
| CommandSystem.IdleMeansDone | kernel/src/pci/usb/xhci/ring.rs:78-86 | When everything staged is copied and the controller waits, everything added is executed |
| CommandSystem.SubmitKeepsInv | kernel/src/pci/usb/xhci/ring.rs:78-86 | Every prefix of a submission keeps the invariant, so a controller may fetch in the middle |
| CommandSystem.SubmitIsRunOfCopies | kernel/src/pci/usb/xhci/ring.rs:78-86 | A submission is the run of copying slots 0 to the next free one, and keeps the invariant |
| CommandSystem.EarlyFlipExecutesEmptyBlock | kernel/src/pci/usb/xhci/ring.rs:87-107 | A flip before the controller has reached the link slot makes it execute next an empty block that no one added |
| CommandSystem.FlipAtUntakenLinkStalls | kernel/src/pci/usb/xhci/ring.rs:87-107 | A flip with the controller at the link but not past it: whatever is staged and submitted afterwards, nothing is executed again |
| CommandSystem.EarlyFlipGoesAstray | kernel/src/pci/usb/xhci/ring.rs:87-107 | After any flip before the link is taken there is a continuation that executes what is no prefix of what was added, or waits with everything copied and not everything executed |
| CommandSystem.FlipIsSafeExactlyWhen | kernel/src/pci/usb/xhci/ring.rs:87-107 | The controller has taken the link if and only if no continuation after the flip goes astray in that sense |
| BitStruct.GetAfterSet | proc_macros/src/lib.rs:252-501 | A field reads back as the value written, cut to its width |
| BitStruct.SetKeepsOthers | proc_macros/src/lib.rs:370-501 | Writing one field changes no field that shares no bit with it |
| BitStruct.Packed.GetInByte | proc_macros/src/lib.rs:262-309 | The single-byte getter returns the field as a number, cut to its type |
| BitStruct.Packed.GetAcross | proc_macros/src/lib.rs:310-367 | The collecting loop returns the field as a number for every offset and every width up to 63 |
| BitStruct.Packed.SetInByte | proc_macros/src/lib.rs:380-426 | Writes exactly the bits of the range |
| BitStruct.Packed.SetAcross | proc_macros/src/lib.rs:427-501 | The byte loop writes exactly the bits of the range, for every offset and every width up to 63 |
| BitStruct.Packed.Get | proc_macros/src/lib.rs:252-368 | The generated getter, whichever of its two forms the range selects, returns the field cut to its type |
| BitStruct.Packed.Set | proc_macros/src/lib.rs:370-501 | The generated setter, whichever of its two forms the range selects, writes exactly the bits of the range |
| BitLayout.ComputeLayout | proc_macros/src/lib.rs:106-135 | Every field lies exactly in its written range, or starts right behind the field before it and is as wide as its type; the size is the least number of bytes that holds all fields, one for none |
| BitLayout.LayoutIsAsDeclared | proc_macros/src/lib.rs:106-135 | The same of the layout as a function |
| BitLayout.LayoutIsSeparate | proc_macros/src/lib.rs:106-135 | If every written-out range begins at or behind the running position, the fields are disjoint and lie in the struct, for any number of fields |
| BitLayout.WithFields | proc_macros/src/lib.rs:207-237 | For any fields inside the struct, overlapping or not: after the constructor every bit holds what the last field over it asks, and a field holds its own argument if and only if on each of its bits that last field asks the same |
| BitLayout.FittingArgumentIsReturned | proc_macros/src/lib.rs:207-237 | The getter returns an argument that fits |
| BitLayout.UnopposedFieldsKeepTheirs | proc_macros/src/lib.rs:207-237 | Where the last write wins, a field reads back its own argument if and only if no later field asks for something else on a bit they share |
| BitLayout.SeparateFieldsAreUnopposed | proc_macros/src/lib.rs:207-237 | Fields that share no bit all keep their arguments, whatever the arguments |
| BitLayout.OverlapKeepsExactlyWhen | proc_macros/src/lib.rs:370-501 | Of two setters called one after the other on any bytes, the first field reads back if and only if both ask the same of the bits they share |

## Left out

- The `GlobalAlloc` and `Allocator` wrappers are not modelled. `KernelAlloc::dealloc` goes by the mode of the moment, so a block of the bump arena freed after the switch enters the tree; that is covered by taking such blocks as live at the switch.
- `find_heap_areas`, the Limine memory map, the HHDM offset and the page tables are foreign: the areas are a parameter, and the physical translation is an abstract function.
- Running out of node memory: `alloc_node` takes a node from the bump arena and is assumed to get one.
- Real concurrency on the allocator globals, atomics and interrupts: there is one sequential caller.
- `debug_dump` and `write_init_areas` only print.
- TreeAlloc.RBTreeAlloc.Free: requires a block in use, as `dealloc` does of its callers; a double free is not covered.
- TreeAlloc.RBTreeAlloc.Alloc: requires a size above zero, powers of two and sums below 2^64; what the source does on overflow is not modelled.
- BumpArena.BumpAlloc.Alloc: the sum of position and alignment is required to stay in 64 bits; the saturating sum of position and size is modelled.
- AllocatorRuns.RunsAreSafe: from areas without gaps, disjoint blocks are not characterised beyond the counterexample; bytes lost are counted, not given back; the corrected `free` of `RepairedFree` is proved on ordered regions, not on the tree.
- UncheckedRuns.KeysStayUniqueExactlyWhen: runs on trees with repeated keys are modelled on tree values; the in-place `Delete` and `Free` require unique keys.
- BumpArena.ArenaIsNeverHandedOut: requires that no area smaller than the arena begins where the arena does; there the subtraction in `init` leaves the 64-bit range.
- CommandSystem.StepKeepsInv: callers stage normal blocks whose type is not Link; link blocks added by a caller are not covered.
- Trb.TaggedRoundTrip: an empty block's payload bytes, which the union leaves undefined, are taken as zero.
- Doorbells, completion events, the event ring segment table and the register file: the published dequeue pointer is a field, and the controller appears only as the party on the rings.
- EventSystem.RunsRefineFifo: the cycle bit of an event belongs to the ring, so events are compared without it.
- BitStruct.Packed.GetAcross: widths up to 63, since `1u64 << 64` is not representable; a field's type is its width in bits.
- Macro parsing, token generation and the guessed sizes of custom types in `proc_macros`.
- Registers and contexts laid out by `modular_bitfield`, PCI scanning, interrupts and timers, the framebuffer and text output.
