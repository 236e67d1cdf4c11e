# Verified models of the nusaOS kernel

A Dafny 4.11 project that models the in-place data structures, allocators and protocols at the heart of the nusaOS
kernel and proves what they are relied on for. `dafny verify dfyconfig.toml` checks all of it.

| files | part of the kernel |
|---|---|
| `Helpers.dfy` | shared by several modules: optional values, page size and word size, powers of two, ring indices, remainders |
| `AvlTree.dfy`, `AvlMap.dfy` | `kstd::map`: an AVL tree with parent pointers and cached heights, as nodes on the heap, against a mathematical map |
| `HeapLayout.dfy`, `HeapLinks.dfy`, `Heap.dfy` | the kernel heap `liballoc`: majors, minors, best bet, alignment marks |
| `BuddyBlocks.dfy`, `BuddyZone.dfy`, `PhysicalRegion.dfy` | the buddy allocator and the regions cut into zones |
| `VMSpace.dfy` | the linked tiling of a virtual address range |
| `CopyOnWrite.dfy` | anonymous VM objects with shared, reference-counted pages |
| `RingQueue.dfy` | `kstd::queue`: a growing ring buffer, and the walk of its `contains` |
| `LRUCache.dfy`, `DiskCache.dfy` | the recency list, and the write-back block cache on top of it and of the queue |
| `PathResolution.dfy` | `VFS::resolve_path` with symlinks and mounts, and `get_full_path` |
| `TcpReceive.dfy`, `Checksum.dfy` | in-order TCP receive with its bounded queue, and the Internet checksum |

How the models are built. Structures that the kernel changes in place are classes; what they look like at one moment
is also available as a value (a snapshot of nodes, a layout of headers, the slots of all objects), and the reasoning
about insertion, splitting, merging and sharing is done by small lemmas on those values. Each method writes the fields
that the code writes and is proved to turn one value into the next. Raw addresses stay numbers where the code computes
with them: heap headers and heap bytes are looked up by address, and freelist links are block numbers kept in the
shared page array. A stretch of code under one lock is a single step. Where the code runs out of something and stops
the kernel (`PANIC`), the contract says exactly when; what it asserts of its callers is a precondition. The clock, and
what the system answers when the heap asks for pages, are parameters.

Where the code does something else than its comments or names suggest, the model follows the code and the exact
condition is proved:

- When a freelist becomes empty, `alloc_block_internal` writes through block -1: to the record in front of the zone,
  whose words are links if that page is free and counter and reserved flag if it is allocated.
  `BuddyZone.StrayWrite`: the freelists of the zone that ends there stay intact if and only if that page is not in the
  order-0 list behind its head; `BuddyZone.StrayWriteBreaks` is a state in which it is. `PhysicalRegion.RecordsKept`:
  a page allocation keeps the record of every allocated page if and only if the list keeps another block, or the zone
  is the first, or the page in front was reserved already; `PhysicalRegion.DamageExample` is a state in which none of
  these holds, and by `PhysicalRegion.LastPageDamages` the first fails whenever a zone is used up. A page reserved
  in this way does not return to the allocator: `PhysicalRegion.Region.Unref`, `CopyOnWrite.DestroyFrees`.
- `BuddyZone.Zone.AllocBlock`: the counter is debited by the request and not by the block, so it stays exact if and
  only if the request is a power of two.
- `PhysicalRegion.Region.AllocPages`: the first zone with enough free pages is the only one that is asked. If they are
  scattered there, the assertion on the order fails, whatever the other zones have; `PhysicalRegion.FragmentedExample` is
  such a zone. The region stays in order if and only if the request is a power of two and the write through block -1 is
  harmless to the zone before, whose pages need not be used up here.
- `VMSpace.Space.AllocSpaceAt`: a free area of exactly the size asked for is taken whole, wherever in it the address
  lies. The region starts at the address if and only if one free area holds the whole stretch, which is, where no area
  is empty, if and only if every byte of it is free (`VMSpace.HoldsIffFree`); `VMSpace.EmptyParts` shows the difference.
  Empty areas come from requests of size 0 only (`VMSpace.CarvedSolid`, `VMSpace.FreedSolid`).
- `HeapLayout.BlockHoldsIff`: the block that `kmalloc` asks for holds what is put there if and only if the request and
  its overhead end a page below 2^32; `HeapLayout.BlockTooSmall` is a request for which it does not.
- `Heap.Heap.Kmalloc`: the answer is null if and only if no gap has room and the system has no block, for every request.
  For one that wraps the size of a block this is whenever the system has none (`Heap.OversizedHasNoRoom`), unless its own
  overhead wraps too and the cell looks small.
- `Heap.Heap.Kfree`: a pointer that was freed is recognised as such if and only if its block is still there;
  `Heap.FreeTwice` is the other case. Where the header is gone, reading it faults if and only if its place is in no
  block, and otherwise reads what is there now.
- `Heap.Heap.Krealloc`: growing copies into the new buffer without looking whether there is one. It copies to null if
  and only if no gap has room, the system has no block, and there is something to copy (`Heap.GrowWithoutMemory`).
- `CopyOnWrite.VMObject.Over`: the counter of committed pages of a clone is right if and only if the original has no
  empty slot, and stays as wrong as it is.
- `CopyOnWrite.VMObject.TryFaultInPage`: a page number equal to the number of slots passes the check and fails the
  assertion of the index behind it.
- `RingQueue.Queue.Contains`: the walk ends at a slot computed with the number of elements where the capacity is meant.
  It looks at every element, and it looks at no other slot if and only if the condition of `RingQueue.ReachExact` holds.
  It answers yes for a value that is not in the queue if and only if a slot behind the elements that the walk looks at
  has it: one that was never used (`RingQueue.NeverPushed`) or one whose element left (`RingQueue.TakenOut`).
- `DiskCache.Disk.WriteBlocks`: a write of no blocks fails an assertion. A region that was written is put into the queue
  of the write-back thread unless `contains` says that it is there, so where it answers wrongly the region is not written
  back: `DiskCache.WriteMisses` says exactly when, `DiskCache.LostWrite` is such a run. Users of the device see what
  they wrote all the same, as eviction stores dirty regions (`DiskCache.Run`).
- `DiskCache.WritebackPass`: the write-back thread goes on if and only if no queue has a region that is no longer cached;
  eviction leaves such regions behind (`DiskCache.EvictedEndsWriteback`). If it goes on, exactly the regions that were in
  the queues are clean, and a disk holds what is seen if all its dirty regions were among them.
- `PathResolution.GetFullPath`: a chain runs over the array if and only if it has more than 128 entries.
- `TcpReceive.PayloadInPacket`: of what passes the length checks the payload lies in the packet behind both headers if
  and only if the data offset is at least 5 and the header fits; `TcpReceive.ChecksMiss` has packets of both kinds.
- `TcpReceive.Connection.Take`: a read shorter than the payload at the head of the queue loses the rest of it
  (`TcpReceive.ShortRead`).
- `TcpReceive.Connection.ReceiveFin`: a FIN is acknowledged together with its payload even if the full queue dropped
  that payload; the acknowledgement is right if and only if it was not dropped.

## Model

| member | source | states |
|---|---|---|
| `AvlTree.RotateKeepsEntries` | kernel/kstd/map.hpp:147-198 | a rotation keeps the in-order entries and the set of nodes |
| `AvlTree.RebalanceIsAvl` | kernel/kstd/map.hpp:127-144 | a node with balance factor within -2..2 over balanced subtrees becomes balanced, and is as high as before or one lower |
| `AvlTree.BalanceUpKeepsEntries` | kernel/kstd/map.hpp:117-144 | rebalancing all the way up keeps every entry in its place in the order |
| `AvlTree.BalanceUpIsAvl` | kernel/kstd/map.hpp:117-144 | where one subtree of a balanced tree grew or shrank by one level, rebalancing all the way up restores balance factors -1..1 everywhere |
| `AvlTree.InsertedContents` | kernel/kstd/map.hpp:236-272 | insertion into the slot found keeps search order, adds one node and exactly the new key and value |
| `AvlTree.InsertedIsAvl` | kernel/kstd/map.hpp:236-272 | the tree after insertion, rebalanced only if the parent was a leaf, is balanced |
| `AvlTree.SuccessorErases` | kernel/kstd/map.hpp:297-311 | moving the successor's pair up and splicing its node out removes exactly the key erased |
| `AvlTree.PredecessorErases` | kernel/kstd/map.hpp:327-341 | moving the predecessor's pair up and splicing its node out removes exactly the key erased |
| `AvlTree.OnlyChildErases` | kernel/kstd/map.hpp:312-324 | moving the only child's pair and children up removes exactly the key erased |
| `AvlTree.LeafErases` | kernel/kstd/map.hpp:283-294 | unhooking a childless node removes exactly the key erased |
| `AvlTree.ClosedFacts` | kernel/kstd/map.hpp:300-310 | splicing a node out and rebalancing from its parent gives a balanced tree without that node's entry |
| `AvlTree.ClosedNodes` | kernel/kstd/map.hpp:283-294 | splicing a node out takes that node away and no other |
| `AvlTree.NeighbourNodes` | kernel/kstd/map.hpp:297-341 | when the in-order neighbour's pair moves up, the neighbour's node leaves the tree and no other |
| `AvlTree.RaisedNodes` | kernel/kstd/map.hpp:312-324 | when the only child's pair moves up, the child's node leaves the tree and no other |
| `AvlTree.AvlIsLarge` | kernel/kstd/map.hpp:93-144 | a balanced tree of height h holds at least Fib(h+2)-1 entries |
| `AvlTree.AvlIsLow` | kernel/kstd/map.hpp:213-230 | a balanced tree with a path of d nodes holds at least 2^(d/2)-1 entries |
| `AvlMap.TurnFocus` | kernel/kstd/map.hpp:147-198 | the pointer writes of a rotation turn the heap picture of a tree into that of the rotated tree, parents and heights included |
| `AvlMap.NextStop` | kernel/kstd/map.hpp:117-124 | after a node is rebalanced the rest of the walk up gives the same final tree, in fewer steps, until the parent is null |
| `AvlMap.Remeasured` | kernel/kstd/map.hpp:200-202 | below a node with a stale height all cached heights are exact, and recomputing its own makes the whole picture exact |
| `AvlMap.Node.RotateLeft` | kernel/kstd/map.hpp:147-171 | every pointer and height written by a left rotation, and that nothing else changes |
| `AvlMap.Node.RotateRight` | kernel/kstd/map.hpp:174-198 | every pointer and height written by a right rotation, and that nothing else changes |
| `AvlMap.Node.Balance` | kernel/kstd/map.hpp:127-144 | the four imbalance cases rebalance the subtree in place |
| `AvlMap.Node.UpdateHeightAndBalance` | kernel/kstd/map.hpp:117-124 | from a stale node up, the heap ends as the rebalanced tree with exact heights, parents and root |
| `AvlMap.Node.SubtreeSuccessor` | kernel/kstd/map.hpp:83-90 | the leftmost node of the right subtree, or null |
| `AvlMap.Node.SubtreePredecessor` | kernel/kstd/map.hpp:62-69 | the rightmost node of the left subtree, or null |
| `AvlMap.Node.InorderSuccessor` | kernel/kstd/map.hpp:71-81 | the node of the next entry in key order, or null |
| `AvlMap.Node.InorderPredecessor` | kernel/kstd/map.hpp:50-60 | the node of the entry before in key order, or null |
| `AvlMap.Map.SizeIsCount` | kernel/kstd/map.hpp:236-366 | in every valid state the size field is the number of keys |
| `AvlMap.Map.FindNode` | kernel/kstd/map.hpp:213-230 | finds the node of a key if and only if the map has it; v visited nodes need at least 2^(v/2)-1 entries, so the search is logarithmic |
| `AvlMap.Map.Insert` | kernel/kstd/map.hpp:236-272 | refuses a key that is there; otherwise the map becomes the old one plus that key, with one fresh node, and the tree stays valid |
| `AvlMap.Map.Erase` | kernel/kstd/map.hpp:274-366 | the map becomes the old one minus the key, in every replacement case; the tree stays valid and loses exactly one node, none if the key was missing |
| `AvlMap.Map.EraseBySuccessor` | kernel/kstd/map.hpp:297-311 | erasing by the in-order successor, next to the node or further down; the successor's node, which the code deletes, is the one that leaves the tree |
| `AvlMap.Map.EraseByPredecessor` | kernel/kstd/map.hpp:327-341 | erasing by the in-order predecessor, next to the node or further down; the predecessor's node is the one that leaves the tree |
| `AvlMap.Map.EraseByOnlyChild` | kernel/kstd/map.hpp:312-324 | erasing a node with one child by moving that child up; the child's node is the one that leaves the tree |
| `AvlMap.Map.EraseLeaf` | kernel/kstd/map.hpp:283-294 | erasing a childless node below the root; it is the one that leaves the tree |
| `AvlMap.Map.Get` | kernel/kstd/map.hpp:375-380 | the node that holds the value of the key, or null exactly if there is none, and no change |
| `AvlMap.Map.Index` | kernel/kstd/map.hpp:368-373 | the node of the key, inserted with the default value if it was missing; no other key changes |
| `AvlMap.Map.Begin` | kernel/kstd/map.hpp:483-490 | iteration starts at the smallest key |
| `AvlMap.Map.Next` | kernel/kstd/map.hpp:422-426 | a step of the iterator goes to the next larger key, or to the end |
| `AvlMap.Map.Previous` | kernel/kstd/map.hpp:435-447 | a step back goes to the next smaller key, also from the end |
| `AvlMap.Map.Keys` | kernel/tests/kstd/TestMap.cpp:124-151 | iterating from the beginning yields every key once, in ascending order |
| `HeapLayout.Aligned` | kernel/memory/liballoc.cpp:39-53 | the pointer handed out is a multiple of 16, from 16 to 31 bytes into the cell's data |
| `HeapLayout.BlockHoldsIff` | kernel/memory/liballoc.cpp:197-234 | with all sums modulo 2^32, a new block holds the cell it is made for, and the cell its request, if and only if the request and its overhead of 80 bytes end a page below 2^32 |
| `HeapLayout.BlockTooSmall` | kernel/memory/liballoc.cpp:202-215 | a request whose cell of almost 4 GiB is put into a block of 64 KiB |
| `HeapLayout.CellsDisjoint` | kernel/memory/liballoc.cpp:391-550 | any two cells of a heap layout, headers included, do not overlap |
| `HeapLayout.BuffersDisjoint` | kernel/memory/liballoc.cpp:253-602 | every buffer is 16-aligned and inside its own cell, and no two overlap |
| `HeapLayout.InsertFine` | kernel/memory/liballoc.cpp:391-550 | a cell placed into a gap keeps the block's cells sorted, disjoint and inside it |
| `HeapLinks.PlaceRep` | kernel/memory/liballoc.cpp:391-550 | the header writes of placement cases 2, 3, 4.1 and 4.2 leave both lists linked and usage equal to header plus cells |
| `HeapLinks.GapRep` | kernel/memory/liballoc.cpp:391-550 | no header of a live cell lies where a new cell is put, so what was there before may be overwritten |
| `HeapLinks.TakeRep` | kernel/memory/liballoc.cpp:689-702 | the header writes of a release leave both lists linked and usage exact |
| `HeapLinks.AppendRep` | kernel/memory/liballoc.cpp:197-247 | a new block is linked behind the last one |
| `HeapLinks.DropRep` | kernel/memory/liballoc.cpp:706-715 | taking a block out bridges its neighbours; the headers that lay in it are gone |
| `HeapLinks.ShrinkRep` | kernel/memory/liballoc.cpp:829-836 | a smaller request size in the same cell disturbs nothing else |
| `Heap.Heap.Extend` | kernel/memory/liballoc.cpp:197-247 | a new block from the system joins the list, or nothing changes when there is none |
| `Heap.CrampedIsFull` | kernel/memory/liballoc.cpp:356-357 | a block with less free space than is asked for has no gap with room, so skipping it loses nothing |
| `Heap.OversizedHasNoRoom` | kernel/memory/liballoc.cpp:341-385 | a request that wraps the size of a block, but not its own overhead, fits into no gap, so it has no room if and only if the system has no block |
| `Heap.Heap.FindGap` | kernel/memory/liballoc.cpp:391-553 | the first gap of the given size from the lowest address up; if none is found no gap of the block has room |
| `Heap.Heap.PlaceCell` | kernel/memory/liballoc.cpp:391-550 | the new cell is linked between its neighbours, counted, and its buffer marked; dead headers in its place are gone |
| `Heap.Heap.FirstCandidate` | kernel/memory/liballoc.cpp:326-339 | the search starts at a live block, which is the first one unless the best bet has room |
| `Heap.Heap.AnyGap` | kernel/memory/liballoc.cpp:341-560 | the walk over the blocks finds a gap if and only if some block has one of the size |
| `Heap.Heap.Kmalloc` | kernel/memory/liballoc.cpp:253-602 | terminates; for every 32-bit request, returns null if and only if no gap of any block has room and the system refuses a block, and then changes nothing; else overruns if and only if a sum of sizes wraps; asks for a block only if no gap has room; otherwise exactly one buffer of the size asked for is added, and every live buffer keeps its bytes |
| `Heap.PlacedInGap` | kernel/memory/liballoc.cpp:391-550 | a cell that was put into an old block was put where there was room |
| `Heap.PlacedBuffers` | kernel/memory/liballoc.cpp:253-602 | allocation adds exactly one buffer |
| `Heap.PlacedKeeps` | kernel/memory/liballoc.cpp:39-53 | the alignment mark of a new buffer lies in none of the live buffers |
| `Heap.Heap.PointerFacts` | kernel/memory/liballoc.cpp:56-64 | the mark in front of a live buffer leads back to exactly its own cell header |
| `Heap.Heap.Unlink` | kernel/memory/liballoc.cpp:689-702 | a freed cell leaves its block's list and is marked dead |
| `Heap.Heap.Release` | kernel/memory/liballoc.cpp:706-714 | an emptied block leaves the list with all headers and bytes in it; root and best bet stay null or live |
| `Heap.Heap.Kfree` | kernel/memory/liballoc.cpp:612-735 | removes exactly that buffer, and its block if it was the last; afterwards the pointer is recognised as freed if and only if the block stays, and otherwise leads to an address in no block; null and recognised pointers change nothing; a pointer whose header is gone faults if and only if its place is in no block, and else what is there is misread |
| `Heap.FreedBuffers` | kernel/memory/liballoc.cpp:612-735 | release removes exactly one buffer |
| `Heap.FreeTwice` | kernel/memory/liballoc.cpp:636-679 | the second release of a buffer that was alone in its block finds no header |
| `Heap.Heap.Copy` | kernel/memory/liballoc.cpp:127-150 | copies the bytes and changes no others |
| `Heap.Heap.Shrink` | kernel/memory/liballoc.cpp:829-836 | the buffer stays where it is with a smaller size |
| `Heap.Heap.Grow` | kernel/memory/liballoc.cpp:838-845 | for every 32-bit size, no gap and no block mean a copy to null if there is something to copy, and null with only the empty buffer gone if there is not; else overruns if and only if a sum of sizes wraps; otherwise the larger buffer starts with the old contents, the old one is gone, and every other live buffer keeps its bytes |
| `Heap.MoveKeeps` | kernel/memory/liballoc.cpp:841-843 | moving a buffer and giving back the block it was alone in leaves every other buffer as it was |
| `Heap.Heap.Krealloc` | kernel/memory/liballoc.cpp:757-846 | size 0 frees, null allocates, a freed pointer is refused, one whose header is gone faults or is misread as in `Kfree`; in place if it does not grow; else it copies to null if and only if there is no gap, no block, and something to copy, overruns if and only if a sum wraps and there is a gap or a block, and otherwise exactly that buffer is replaced and keeps its contents |
| `Heap.GrowWithoutMemory` | kernel/memory/liballoc.cpp:838-845 | a state in which it copies to null |
| `BuddyBlocks.FreeIffMaximal` | kernel/memory/BuddyZone.cpp:85-114 | a block is on a freelist if and only if it is a maximal aligned block of free pages |
| `BuddyBlocks.Canonical` | kernel/memory/BuddyZone.cpp:85-114 | two fully merged states with the same free pages are the same state |
| `BuddyBlocks.FreedGood` | kernel/memory/BuddyZone.cpp:85-114 | freeing with merging keeps blocks disjoint and fully merged, and frees exactly the block's pages |
| `BuddyBlocks.PageByPage` | kernel/memory/BuddyZone.cpp:85-114 | freeing a block page by page, in any order, ends in the same state as freeing it whole |
| `BuddyBlocks.AllocateThenFree` | kernel/memory/BuddyZone.cpp:51-114 | freeing what was just allocated restores the state |
| `BuddyBlocks.AllocatedCount` | kernel/memory/BuddyZone.cpp:34-49 | allocating a block of order k takes 2^k pages off the free ones |
| `BuddyZone.PopRep` | kernel/memory/BuddyZone.cpp:71-82 | taking the head of a freelist keeps all lists threaded and all buddy bits right |
| `BuddyZone.PopStrikes` | kernel/memory/BuddyZone.cpp:77-80 | taking the head writes records of free pages only, and, exactly if it empties the list, the second word of the record in front of the zone |
| `BuddyZone.SplitReady` | kernel/memory/BuddyZone.cpp:56-69 | hanging the second half of a split block keeps all lists threaded and all buddy bits right |
| `BuddyZone.UnlinkRep` | kernel/memory/BuddyZone.cpp:116-126 | removing any block from its list keeps all lists threaded and all buddy bits right, and writes records of free pages only |
| `BuddyZone.PushRep` | kernel/memory/BuddyZone.cpp:98-113 | putting a block at the head keeps all lists threaded and all buddy bits right, and writes records of pages that are free then only |
| `BuddyZone.BitMeansBuddy` | kernel/memory/BuddyZone.cpp:85-97 | the bit of a block being freed is set if and only if its buddy is free |
| `BuddyZone.HighestBit` | kernel/memory/PhysicalRegion.cpp:19-20 | the order of the largest power of two that fits |
| `BuddyZone.OrderFor` | kernel/memory/BuddyZone.h:57-61 | the smallest order whose blocks hold the request |
| `BuddyZone.Zone.constructor` | kernel/memory/BuddyZone.cpp:7-28 | a new zone is one free block of the highest order, with an exact counter |
| `BuddyZone.Zone.AllocInternal` | kernel/memory/BuddyZone.cpp:51-83 | gets a block of the order asked for if and only if a free block of at least that order exists, keeps the zone valid, and writes no record of an allocated page but the one in front of the zone, exactly if it empties a list |
| `BuddyZone.Zone.FreeInternal` | kernel/memory/BuddyZone.cpp:85-114 | the free blocks become those after freeing with full merging; no record of a page that stays allocated is written |
| `BuddyZone.Zone.AllocBlock` | kernel/memory/BuddyZone.cpp:34-41 | out of memory and success each exactly when (the rest halts); the block is taken out of the free ones; the counter stays exact if and only if the request is a power of two; a single page is found whenever an exact counter is positive |
| `BuddyZone.Zone.FreeBlock` | kernel/memory/BuddyZone.cpp:43-49 | frees and merges the block, and keeps the counter exact |
| `BuddyZone.StrayWrite` | kernel/memory/BuddyZone.cpp:79-80 | the write in front of a zone leaves the freelists of the zone before it intact if and only if its last page is not behind the head of the order-0 list |
| `BuddyZone.StrayWriteBreaks` | kernel/memory/BuddyZone.cpp:79-80 | a concrete zone that this write corrupts |
| `PhysicalRegion.AfterAlloc` | kernel/memory/PhysicalRegion.cpp:42-59 | allocating in the first zone with free pages leaves the freelists of every other zone in order |
| `PhysicalRegion.FrontZone` | kernel/memory/BuddyZone.cpp:79-80 | after a block was taken from any zone, the zone in front is in order if and only if the list keeps another block or the last page of that zone is not behind the head of its order-0 list |
| `PhysicalRegion.AfterAllocAny` | kernel/memory/PhysicalRegion.cpp:61-82 | taking a block of any order from any zone leaves the whole region in order if and only if its own zone is and the zone in front is; the counts add up |
| `PhysicalRegion.AfterFree` | kernel/memory/PhysicalRegion.cpp:84-97 | freeing in one zone leaves every other zone in order |
| `PhysicalRegion.RecordsKept` | kernel/memory/BuddyZone.cpp:79-80 | taking a page from the first zone that has any keeps counter and reserved flag of every allocated page of the region if and only if the list keeps another block, or the zone is the first, or the page in front was reserved already; otherwise that page becomes reserved |
| `PhysicalRegion.FrontUsed` | kernel/memory/PhysicalRegion.cpp:50-56 | the page in front of the zone that is allocated from is allocated, unless the zone is the first |
| `PhysicalRegion.LastPageDamages` | kernel/memory/BuddyZone.cpp:71-80 | the last free page of a zone always empties its list, so using up a zone other than the first reserves an allocated page |
| `PhysicalRegion.DamageExample` | kernel/memory/BuddyZone.cpp:79-80 | a region of three pages in which this happens |
| `PhysicalRegion.AfterWrite` | kernel/memory/PhysicalPage.h:35-45 | writing the record of an allocated page, which shares its words with the links, leaves all zones in order |
| `PhysicalRegion.Region.constructor` | kernel/memory/PhysicalRegion.cpp:7-35 | the zones carved tile the region, all of it is free, and the counts add up |
| `PhysicalRegion.Region.Carve` | kernel/memory/PhysicalRegion.cpp:7-35 | the zones that the loop cuts off follow each other from the first page to the last, each in order with an exact counter, and all pages are free |
| `PhysicalRegion.Region.AllocPage` | kernel/memory/PhysicalRegion.cpp:42-59 | fails if and only if nothing is free; otherwise exactly that page of one zone becomes allocated, every zone stays in order, and the records written are as stated for the zone |
| `PhysicalRegion.Region.AllocPages` | kernel/memory/PhysicalRegion.cpp:61-82 | out of memory, too large, failed assertion and success each exactly when, by the counters, the order and the blocks of the first zone with enough free pages; without success nothing changes; with it the block found is taken out of that zone and nothing else, and the region stays in order if and only if the request is a power of two and the stray write does no harm |
| `PhysicalRegion.FragmentedExample` | kernel/memory/BuddyZone.cpp:34-58 | a zone with two free pages but no block of two, in which the assertion on the order fails |
| `PhysicalRegion.Region.AllocPhysicalPage` | kernel/memory/MemoryManager.cpp:201-212 | the page has one reference and is not reserved; every other allocated page keeps its record if and only if the condition of `RecordsKept` holds |
| `PhysicalRegion.Region.FreePage` | kernel/memory/PhysicalRegion.cpp:84-97 | exactly that page goes back to the zone that holds it, merged as far as it goes; every zone stays in order, and no record of a page that stays allocated is written |
| `PhysicalRegion.Region.Unref` | kernel/memory/PhysicalPage.h:18-23 | one reference less; with the last one the page goes back to its zone if and only if it is not reserved, and otherwise stays out of reach |
| `VMSpace.CarvedGood` | kernel/memory/VMSpace.cpp:314-447 | taking a stretch of a free area keeps the areas a gap-free tiling without free neighbours, and uses exactly its size more |
| `VMSpace.FreedGood` | kernel/memory/VMSpace.cpp:449-484 | freeing keeps the tiling without free neighbours, and uses exactly its size less |
| `VMSpace.CarveThenFree` | kernel/memory/VMSpace.cpp:314-484 | freeing what was just allocated, at the front or in the middle of an area, restores the exact tiling |
| `VMSpace.CarvedSolid` | kernel/memory/VMSpace.cpp:333-354 | where no area is empty, allocation leaves none empty if and only if the size asked for is not 0 |
| `VMSpace.FreedSolid` | kernel/memory/VMSpace.cpp:449-484 | freeing leaves no area empty where none was |
| `VMSpace.CoalescedIsFreed` | kernel/memory/VMSpace.cpp:457-476 | the two merge steps give the maximal free area |
| `VMSpace.FreeThroughout` | kernel/memory/VMSpace.cpp:382-397 | where no area is empty, a stretch is free byte for byte if and only if the free area it starts in holds all of it |
| `VMSpace.HoldsIffFree` | kernel/memory/VMSpace.cpp:382-397 | where no area is empty, some free area holds a stretch from an address on if and only if every byte of it is free |
| `VMSpace.EmptyParts` | kernel/memory/VMSpace.cpp:340-354 | with an empty used area between two free ones that fails |
| `VMSpace.Space.constructor` | kernel/memory/VMSpace.cpp:17-22 | a new space is one free area |
| `VMSpace.Space.LinkBefore` | kernel/memory/VMSpace.cpp:340-357 | the list stays well linked in both directions with the new node in front |
| `VMSpace.Space.LinkAfter` | kernel/memory/VMSpace.cpp:417-427 | the list stays well linked in both directions with the new node behind |
| `VMSpace.Space.UnlinkPrevious` | kernel/memory/VMSpace.cpp:458-467 | the list stays well linked without the node in front |
| `VMSpace.Space.UnlinkNext` | kernel/memory/VMSpace.cpp:470-475 | the list stays well linked without the node behind |
| `VMSpace.Space.AllocSpace` | kernel/memory/VMSpace.cpp:314-364 | first fit, for any size: fails if and only if no free area is large enough; otherwise the first such area gives its front |
| `VMSpace.Space.AllocSpaceAt` | kernel/memory/VMSpace.cpp:366-447 | for any size: succeeds if and only if the area at the address is free and has exactly the size or room behind the address; starts at the address if and only if that area holds the whole stretch |
| `VMSpace.Space.FreeRegion` | kernel/memory/VMSpace.cpp:449-484 | the area is free and merged with its free neighbours, the list, the tiling and the counter stay right |
| `VMSpace.Space.FindFreeSpace` | kernel/memory/VMSpace.cpp:279-288 | the start of the first free area that is large enough, if there is one |
| `VMSpace.Space.FindThenAlloc` | kernel/memory/MemoryManager.cpp:335-385 | an address found for n > 0 bytes is accepted by allocation at that address, with a region starting there |
| `CopyOnWrite.SettleKeeps` | kernel/memory/VMObject.cpp:32-70 | giving a slot a page of its own keeps counts and exclusiveness, whichever flag the allocator sets on the way, and no object reads differently |
| `CopyOnWrite.StoreKeeps` | kernel/memory/VMSpace.cpp:252-258 | a store through a private slot changes that page of that object only |
| `CopyOnWrite.CloneKeeps` | kernel/memory/AnonymousVMObject.cpp:99-105 | a clone reads as the original, and every other object as before |
| `CopyOnWrite.DestroyKeeps` | kernel/memory/VMObject.cpp:22-26 | destruction leaves every other object reading as before, and the counts exact |
| `CopyOnWrite.DestroyFrees` | kernel/memory/PhysicalPage.cpp:12-16 | of the pages that only this object held, destruction frees exactly the unreserved ones and leaks exactly the reserved ones |
| `CopyOnWrite.CreateKeeps` | kernel/memory/AnonymousVMObject.cpp:18-31 | a new object reads as zeros, and every other object as before |
| `CopyOnWrite.HoldersAdd` | kernel/memory/VMObject.cpp:80-88 | a further object adds one holder to each page it names and none to any other |
| `CopyOnWrite.PhysicalMemory.AllocPhysicalPage` | kernel/memory/MemoryManager.cpp:201-220 | a free page with one reference and no reservation, or a panic exactly when none is free; one other page may become reserved |
| `CopyOnWrite.PhysicalMemory.Unref` | kernel/memory/PhysicalPage.h:18-23 | one reference less; with the last one the page is free if and only if it is not reserved, and leaks otherwise |
| `CopyOnWrite.VMObject.Over` | kernel/memory/VMObject.cpp:8-20 | an object over given pages, with exactly the committed slots marked if asked; its counter of committed pages is right if and only if no slot is empty |
| `CopyOnWrite.CommittedStep` | kernel/memory/AnonymousVMObject.cpp:136-137 | a page put into a slot adds one committed slot if it was empty and none if it was not |
| `CopyOnWrite.VMObject.TryCowPage` | kernel/memory/VMObject.cpp:32-70 | refused exactly for a slot that is not copy-on-write; otherwise the slot gets a copy and the shared page loses one reference; the counter is as right as before |
| `CopyOnWrite.VMObject.TryFaultInPage` | kernel/memory/AnonymousVMObject.cpp:107-141 | commits a zeroed page exactly to an empty slot, and the counter is as right as before; refused exactly beyond the number of slots, and fails an assertion exactly at it; panics exactly if none is free |
| `CopyOnWrite.VMObject.BecomeCowAndRefPages` | kernel/memory/VMObject.cpp:80-88 | all committed slots marked and their pages referenced once more; panics exactly if some counter is full |
| `CopyOnWrite.VMObject.Destroy` | kernel/memory/VMObject.cpp:22-26 | every page named loses one reference, and those at one go back to the allocator |
| `CopyOnWrite.System.CreateCommitted` | kernel/memory/AnonymousVMObject.cpp:18-31 | a committed object of zeros with an exact counter; panics exactly if there are too few free pages |
| `CopyOnWrite.System.Clone` | kernel/memory/AnonymousVMObject.cpp:99-105 | the copy reads as the original, every other object as before; its counter is exact if and only if the original has no empty slot; panics exactly if some reference counter is full |
| `CopyOnWrite.System.Resolve` | kernel/memory/VMObject.cpp:32-70 | the slot becomes private and no object reads differently |
| `CopyOnWrite.System.FaultIn` | kernel/memory/AnonymousVMObject.cpp:107-141 | the slot becomes committed and no object reads differently |
| `CopyOnWrite.System.Fault` | kernel/memory/VMSpace.cpp:250-271 | panics exactly if a page is needed and none is free; otherwise the slot is committed, and private if the region may be written; no object reads differently |
| `CopyOnWrite.System.Store` | kernel/memory/VMSpace.cpp:250-271 | one byte of one page of one object changes, whatever pages it shared; panics exactly if a page is needed and none is free |
| `CopyOnWrite.System.Destroy` | kernel/memory/VMObject.cpp:22-26 | the other objects keep their contents; of the pages only this object held the unreserved ones become free and the reserved ones leak |
| `CopyOnWrite.Run` | kernel/memory/VMObject.cpp:8-88 | any run of creation, cloning, stores, loads, faults and destruction returns and leaves what eager copying does; it ends early only at an operation that must panic, in a state that agrees with eager copying |
| `CopyOnWrite.Perform` | kernel/memory/AnonymousVMObject.cpp:99-141 | each operation is the eager one, and stops exactly when the pages it needs are not there or a counter is full |
| `LRUCache.Cache.Insert` | kernel/kstd/LRUCache.h:19-28 | the entry is added or replaced and is the most recently used |
| `LRUCache.Cache.Erase` | kernel/kstd/LRUCache.h:31-39 | the key leaves map and list, and the order of the others stays |
| `LRUCache.Cache.Promote` | kernel/kstd/LRUCache.h:42-54 | a key that is there moves to the end, any other changes nothing |
| `LRUCache.Cache.Get` | kernel/kstd/LRUCache.h:57-64 | the value if it is there, and then the key is the most recently used |
| `LRUCache.Cache.Prune` | kernel/kstd/LRUCache.h:67-72 | exactly the n least recently used entries go, or all |
| `LRUCache.Cache.Lru` | kernel/kstd/LRUCache.h:75-79 | the entry whose last use is earlier than that of every other |
| `LRUCache.UseRecency` | kernel/kstd/LRUCache.h:42-54 | using a key keeps the list the duplicate-free keys in order of last use |
| `LRUCache.CutRecency` | kernel/kstd/LRUCache.h:31-39 | taking a key out keeps it so |
| `RingQueue.PushedElements` | kernel/kstd/queue.hpp:58-101 | a push, with the move to a larger ring if it is full, adds its element behind the others, which stay in order |
| `RingQueue.PoppedElements` | kernel/kstd/queue.hpp:103-115 | a pop takes the first element away and leaves the others in order |
| `RingQueue.Queue.PushBack` | kernel/kstd/queue.hpp:58-72 | the contents get the element at their end; the ring, dead slots included, is the one that the specification gives |
| `RingQueue.Queue.Grow` | kernel/kstd/queue.hpp:74-101 | the elements move to the start of a ring of twice the capacity with zeros behind them |
| `RingQueue.Queue.PopFront` | kernel/kstd/queue.hpp:103-115 | returns the first element; the contents lose it, its slot keeps the value |
| `RingQueue.ReachBounds` | kernel/kstd/queue.hpp:147-159 | the walk of `contains` looks at every element and at no slot twice |
| `RingQueue.ReachStops` | kernel/kstd/queue.hpp:156 | the walk is at the slot that the code computes for its end after exactly that many steps and not before, so it ends |
| `RingQueue.ReachExact` | kernel/kstd/queue.hpp:152-156 | the walk looks at elements only if and only if they go past the end of the storage, or fill it, or end with it a whole number of their lengths from its start |
| `RingQueue.FullExact` | kernel/kstd/queue.hpp:147-159 | in a full or empty ring the answer is right for every value |
| `RingQueue.Queue.Contains` | kernel/kstd/queue.hpp:147-159 | yes if and only if the value is an element or is in a dead slot that the walk looks at |
| `RingQueue.NeverPushed` | kernel/kstd/queue.hpp:152-156 | the ring after pushing 8, 16 and 24, which seems to contain 0 |
| `RingQueue.TakenOut` | kernel/kstd/queue.hpp:103-115 | a full ring that after a pop still seems to contain what was popped |
| `RingQueue.WrongAnswers` | kernel/kstd/queue.hpp:58-159 | the run of pushes and a pop on a new queue in which both wrong answers are given |
| `RingQueue.AddedQueues` | kernel/device/DiskDevice.cpp:58-63 | a value pushed unless it seems to be there is in the queue afterwards if and only if it was before or no dead slot misled the walk; no other value comes or goes |
| `RingQueue.AddedAllQueues` | kernel/device/DiskDevice.cpp:57-80 | the same for each of several different values, by the queue when its turn comes |
| `DiskCache.HomesDiffer` | kernel/device/DiskDevice.cpp:66-73 | the regions of blocks in a row are different and ascend, and the last one is that of the last block |
| `DiskCache.HomeIsMod` | kernel/device/DiskDevice.h:71-72 | what the code computes for a block is the first block of its region |
| `DiskCache.HomeIs` | kernel/device/DiskDevice.h:50-52 | a region has a block if and only if it starts at the block's region start |
| `DiskCache.LoadKeeps` | kernel/device/DiskDevice.cpp:143-158 | loading a region keeps the disk that is seen, and the cache coherent |
| `DiskCache.WriteShows` | kernel/device/DiskDevice.cpp:73-76 | writing a block in its region changes exactly that block of the disk that is seen |
| `DiskCache.StoreKeeps` | kernel/device/DiskDevice.cpp:116-124 | storing a region, dropped or kept, keeps the disk that is seen, and the other regions coherent |
| `DiskCache.DropKeeps` | kernel/device/DiskDevice.cpp:116-124 | dropping a clean region keeps the disk that is seen |
| `DiskCache.CleanIsStored` | kernel/device/DiskDevice.cpp:188-190 | with no dirty region the disk holds what is seen |
| `DiskCache.Disk.GetCacheRegion` | kernel/device/DiskDevice.cpp:133-159 | the block's region, loaded if missing; the disk that is seen does not change; cache memory grows by a page with each region |
| `DiskCache.Disk.ReadBlocks` | kernel/device/DiskDevice.cpp:44-55 | returns the blocks of the disk that is seen, and does not change it |
| `DiskCache.Disk.Report` | kernel/device/DiskDevice.cpp:58-63 | the region is pushed unless the queue seems to contain it |
| `DiskCache.WriteMisses` | kernel/device/DiskDevice.cpp:57-83 | from a queue that holds all dirty regions, a write leads to one that does if and only if none of its regions is missed |
| `DiskCache.Disk.WriteBlocks` | kernel/device/DiskDevice.cpp:57-83 | the blocks written, and no others, change in the disk that is seen; the dirty regions are those from before and the regions written; each region is reported once, after its last block; if all dirty regions were in the queue, all are afterwards if and only if no dead slot looked like one not in the queue when its turn came; fails an assertion if and only if there is nothing to write |
| `DiskCache.Disk.EvictLru` | kernel/device/DiskDevice.cpp:116-124 | the least recently used region goes, stored if dirty, and the disk that is seen does not change |
| `DiskCache.Disk.Writeback` | kernel/device/DiskDevice.cpp:176-190 | the region is stored and clean if it is still cached, and the disk that is seen does not change |
| `DiskCache.Disk.WritebackQueue` | kernel/device/DiskDevice.cpp:170-191 | works the queue off if and only if all regions in it are cached, else stops behind the first that is not; exactly the regions taken out before are clean then; blocks of other regions keep their place on the disk; if the queue held all dirty regions and was worked off, the disk holds what is seen |
| `DiskCache.WritebackPass` | kernel/device/DiskDevice.cpp:161-195 | from any queues, a turn of the write-back thread over all devices goes on if and only if no queue has a region that is no longer cached; then the queues are empty, exactly the regions that were in them are clean, and every disk whose queue held all dirty regions holds what is seen; no device reads differently in any case |
| `DiskCache.LostWrite` | kernel/device/DiskDevice.cpp:57-83 | a run of four writes and a turn of the thread that goes on, after which block 0 is still dirty and not on the disk |
| `DiskCache.EvictedEndsWriteback` | kernel/device/DiskDevice.cpp:116-124 | evicting a region that is in the queue ends the thread at its next turn |
| `DiskCache.Choose` | kernel/device/DiskDevice.cpp:94-111 | the device whose least recently used region was used longest ago, if anything is cached |
| `DiskCache.FreePages` | kernel/device/DiskDevice.cpp:89-131 | frees as many pages as asked for, or all there are; no device reads differently; cache memory stays a page for each region of all devices |
| `DiskCache.Run` | kernel/device/DiskDevice.cpp:44-195 | any run of reads, writes, evictions and write-backs returns, and leaves, what it would without a cache, and stops exactly at the first write of no blocks |
| `PathResolution.GetMount` | kernel/filesystem/VFS.cpp:415-423 | the guest root of the first mount on the inode, or none |
| `PathResolution.ResolvePath` | kernel/filesystem/VFS.cpp:62-132 | the loop computes the recursive meaning of a path; it terminates on every graph, within 2^(7-level)-1 invocations |
| `PathResolution.ResolveIsReal` | kernel/filesystem/VFS.cpp:62-132 | where no directory has an empty name, any path, through `..`, symlinks and mounts, leads only to chains of real entries |
| `PathResolution.GetFullPath` | kernel/filesystem/LinkedInode.cpp:42-59 | prints the names from the root down, or runs over the end of its array if and only if the chain has more than 128 entries |
| `PathResolution.WalkDown` | kernel/filesystem/VFS.cpp:71-128 | walking the names of a real chain from the root leads to it |
| `PathResolution.RoundTrip` | kernel/filesystem/LinkedInode.cpp:42-59 | resolving the printed path of a real chain that the user may traverse, from any base, leads back to the same chain |
| `PathResolution.ResolvedRoundTrip` | kernel/filesystem/VFS.cpp:62-132 | whatever a resolution from a real chain found is found again, from any base, under its printed path, by a user who may traverse it |
| `TcpReceive.CircularQueue.PushBack` | kernel/kstd/circular_queue.hpp:57-69 | appends to the ring if and only if it is not full |
| `TcpReceive.CircularQueue.PopFront` | kernel/kstd/circular_queue.hpp:71-82 | takes the oldest element off the ring |
| `TcpReceive.SequenceTellsOffset` | kernel/net/TCPSocket.cpp:293-294 | in less than 2^32 bytes a sequence number determines the position |
| `TcpReceive.PayloadInPacket` | kernel/net/TCPSocket.cpp:155-160 | of a segment that passes the length checks the payload lies in the packet behind both headers if and only if the data offset is at least 5 and the header fits |
| `TcpReceive.ChecksMiss` | kernel/net/TCPSocket.cpp:155-160 | a packet that passes although its header counts as payload, and one whose payload length wraps |
| `TcpReceive.Connection.Enqueue` | kernel/net/IPSocket.cpp:161-177 | the payload joins the queue, or is dropped exactly when it holds 16 |
| `TcpReceive.Connection.Receive` | kernel/net/TCPSocket.cpp:284-321 | what a segment does to state, acknowledgement number and accepted bytes, with RST, FIN, a wrong sequence number and a full queue |
| `TcpReceive.Connection.ReceiveInStep` | kernel/net/TCPSocket.cpp:284-321 | a segment of the stream without FIN or RST, late, repeated or early, keeps the accepted bytes a prefix of the stream that ends at the acknowledgement number; the next one in order is accepted if the queue has room |
| `TcpReceive.Connection.ReceiveFin` | kernel/net/TCPSocket.cpp:306-313 | after the last segment the acknowledgement number covers exactly the accepted bytes and the FIN if and only if the payload was not dropped |
| `TcpReceive.Connection.Take` | kernel/net/IPSocket.cpp:83-115 | the oldest payload leaves the queue and the reader gets its first bytes, as many as asked for; what readers got is all that was taken if and only if no read was shorter than its payload |
| `TcpReceive.Session` | kernel/net/TCPSocket.cpp:284-321 | over any arrivals of such segments and any reads, bytes taken out of the queue followed by bytes in it are a prefix of the stream that ends at the acknowledgement number; the readers got all of them if and only if no read was short |
| `TcpReceive.ShortRead` | kernel/net/TCPSocket.cpp:479-487 | a read shorter than a payload, after which the bytes read are no prefix of the stream |
| `Checksum.FoldKeeps` | kernel/api/tcp.h:73-75 | folding the carry in keeps the one's-complement sum and makes progress |
| `Checksum.TcpChecksum` | kernel/api/tcp.h:68-102 | folding at every step, over pseudo header, header and padded payload, gives the complement of the one's-complement sum |
| `Checksum.Ipv4Checksum` | kernel/api/ipv4.h:94-116 | folding at the end gives the same over the ten words of a header |
| `Checksum.IcmpChecksum` | kernel/net/ICMPSocket.cpp:87-98 | folding at the end gives the same over any bytes whose sum fits 32 bits |
| `Checksum.ChecksumVerifies` | kernel/api/ipv4.h:94-99 | recomputing over a packet with its checksum stored yields zero, and up to the two zeros no other value does |

## Left out

- Heap.Heap.Kmalloc: an overrun is an outcome after which nothing is promised, because what it overwrites is not modelled; `Grow` and `Krealloc` likewise.
- Heap.Heap.Kmalloc: that the best bet is the block with the most room is not stated, because the code does not keep it so after allocations.
- Heap.Heap.PlaceCell: the four placement cases write the same header fields and are written once; the order of the writes is not kept.
- Heap.Heap.Kfree: nothing is promised after a header was misread, because what is read there is whatever a later buffer holds; `Krealloc` likewise.
- Heap.Heap.Kfree: pointers that were never handed out are not considered, because what the code then reads as a header is arbitrary data.
- Heap: `kcalloc`, the statistics and warning counters, and allocations made while the heap is being extended.
- PhysicalRegion.RecordsKept: speaks of the pages of one region; in front of its first zone the write goes to a page of another region, or in front of the array, as `BuddyZone.PopStrikes` states.
- PhysicalRegion.Region.AllocPages: asks for at least one page, because the order of none is computed with an instruction that has no result for zero; which records of allocated pages the stray write changes is stated for single pages only.
- PhysicalRegion.Region.constructor: leaves out reserved regions, from which nothing is allocated, and regions that are used from the start, which are made before the page array exists.
- VMSpace.Space.AllocSpace: sizes need not be whole pages here, and address sums do not wrap at 32 bits.
- VMSpace: page tables, protections, sentinel pages, reference counts of regions and copying a space at fork.
- CopyOnWrite.System.Fault: a fault is one step, as the lock of the object is held around it; the second look after allocation is therefore not modelled.
- CopyOnWrite.PhysicalMemory.AllocPhysicalPage: does not reclaim disk-cache pages before the panic, because devices are a separate model; which page becomes reserved on the way is left open, because that is a matter of the zones.
- CopyOnWrite: shared-memory objects with permissions, inode-backed and device-backed objects.
- LRUCache: the map inside is a Dafny map; that `kstd::map` behaves as one is proved in AvlMap.
- RingQueue: elements are numbers, the indices do not wrap at 32 bits, and `pop_back` and shrinking are left out.
- DiskCache.Run: speaks of what users of the device see and not of the queue; `WriteBlocks` and `WritebackPass` state what becomes of that.
- AvlMap: keys are integers with their order; copying and destroying a whole map.
- DiskCache: I/O errors, the blocker that wakes the write-back thread, disks that do not end with a whole region, evictions during a miss.
- PathResolution: the parent that is stored for the caller, errors while reading a link, and the other file operations.
- TcpReceive.Session: leaves out FIN and RST, which end the stream; `ReceiveFin` and `Receive` have them.
- TcpReceive: connection set-up and shutdown states, sending, retransmission, and options.
- Checksum.IcmpChecksum: asks for a sum below 2^32, which holds for every packet that IPv4 can carry.
- Scheduling, signals, the ext2 filesystem, other devices and user-space libraries are not part of this model.
