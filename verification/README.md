# A verified model of the OpenLSD kernel's memory, VMA and scheduling code

The kernel hands out physical frames with a buddy allocator, carves them into small objects
with slabs, maps them through four-level page tables, shares them copy-on-write between forked
tasks, keeps each task's virtual memory areas in a red-black tree and a list, and runs tasks
from per-CPU queues. This project models that code in Dafny and proves what it is for. Code that
changes things in place is a class with methods and loops, proved against functions on values;
the laws are lemmas about those functions.

`dafny verify dfyconfig.toml` checks the whole project.

| part | files |
|---|---|
| buddy allocator | `BuddyBlocks`, `BuddySpec`, `BuddyCount`, `Buddy`, `FrameOwner` |
| page walker and page tables | `Paging`, `MmuSpec`, `MmuCount`, `Mmu` |
| copy-on-write | `CowSpec`, `Cow` |
| red-black tree and VMAs | `RbTree`, `RbRepair`, `RbMend`, `RbFree`, `VmaTree`, `RbRemoval`, `Vmas`, `RbWalk`, `VmaOps`, `Mquery` |
| slab allocator | `SlabSpec`, `Slab` |
| linked list, run queues | `LinkedList`, `Sched` |
| spinlock, calendar | `Spinlock`, `Time` |
| shared definitions | `Common` |

Frames, PIDs and pointers are natural numbers. Addresses are 64-bit numbers with explicit
wrap-around in the page walker and the page tables (`Paging`, `Mmu`) and in `kmalloc`'s size
rounding; in the VMA and slab modules (`Vmas`, `VmaOps`, `Mquery`, `SlabSpec`) they are unbounded.
Reference counts wrap at 2^16, and `int` wraps at 2^32 where the source narrows to it. Red-black
trees are read through zippers: a context and a subtree whose plugging-together is the tree the
heap nodes form.

## Where the code does not do what it should

Each of these is modelled as the code has it, with the exact condition under which it is right.

- `RbRemoval.RbRemove`: the repair loop of `rb_remove` turns the parent away from the sibling where it
  should turn the sibling, and then reads through the parent of what may be the root, or the child of
  what may be missing. It runs on more removals than it should, because the colour of the removed node
  is read after it was cleared. A removal keeps a red-black tree red-black exactly when the node lacks
  a child and is no black leaf under a parent, or in a tree of three (`RbMend.RemovalKeeps`). Whether a removal faults depends on the shape of the tree and the
  position alone; `RbRepair.CanRemove` decides it before the call, and `Vmas.Task.RemoveVma`,
  `VmaOps.MergeVma`, `VmaOps.MergeVmas` and `VmaOps.DoRemoveVma` return exactly when it (or what it
  says of the two merges, or of the tree after the cuts) holds. `VmaOps.FaultExample` creates five
  VMAs, the middle one of which cannot be removed.
- `Vmas.Task.FreeVmas`: `free_vmas` removes the first VMA until none is left, so that the end of a
  task, by exit or by a bad access, faults exactly when its tree cannot be taken apart in this way
  (`RbFree.CanFree`). `VmaOps.FreeFaultExample` creates seven VMAs on which it faults, and
  `Cow.Kernel.Run` stops there. Trees in which nowhere only the left child is red are safe
  (`RbFree.LeanFree`), and with them every forked task, whose tree is built in ascending order
  (`VmaOps.CloneVmas`).
- `Cow.Kernel.TaskClone`: `copy_page_range` uses `page_flags` before assigning it when the first
  present page of a VMA is neither writable nor executable. The unassigned value is the parameter
  `garbage`; isolation survives a fork exactly when no such VMA meets a value with the write bit
  (`NoneStale`). `Cow.Kernel.Run` takes the value to be read-only. Only the write and execute bits
  of the value are modelled.
- `Mmu.Mmu.PageInsert`: mapping a page over its own only mapping frees it and then maps it; a count
  of 65535 wraps to 0. The invariant survives exactly when neither happens (`CleanAt`).
- `Mmu.Mmu.PageLookup`: for an address inside a page the walk goes on to the next page, whose entry
  wins if it is present; in the last page of all nothing is found. `sys_mquery` and `find_free_vma`
  look up such addresses.
- `Paging.WalkIsExact`: `sign_extend` is wrong for addresses of the non-canonical hole whose bit 47
  is clear, so a range that starts in the hole may walk pages it should not, or miss pages.
- `VmaOps.SplitVma`: at an address inside a page the upper half of the VMA is lost.
- `VmaOps.DoRemoveVma`: size 0 removes everything up to the end of the VMA.
- `Time.TimeIsExact`: the day count is narrowed to `int`.
- `kmalloc` serves 1024 bytes, the largest object size; its comment says that such a request
  returns NULL.

## Model

| member | source | states |
|---|---|---|
| `Buddy.Allocator.BuddySplit` | kernel/mem/buddy.c:249-283 | splitting a free block down to an order keeps the free frames, disjointness, alignment and list membership, and touches no frame in use |
| `Buddy.Allocator.BuddyMerge` | kernel/mem/buddy.c:301-358 | joining keeps the free frames and ends with no two free buddies of equal order; it reports exactly whether the block still has to be listed |
| `Buddy.Allocator.BuddyFind` | kernel/mem/buddy.c:367-387 | finds nothing exactly when every list from the requested order up is empty, and otherwise takes the oldest block of the smallest order whose list is not |
| `Buddy.Allocator.PageAlloc` | kernel/mem/buddy.c:404-439 | fails exactly when no frame is free; otherwise returns the first frame of the oldest block of the smallest order, which was free and is now in use, and takes exactly that frame out of the free frames |
| `Buddy.Allocator.PageFree` | kernel/mem/buddy.c:449-483 | adds exactly the block's frames, and raises the free count by 2^order |
| `Buddy.Allocator.PageDecref` | kernel/mem/buddy.c:489-494 | a 16-bit decrement that frees the block exactly when the count was 1 |
| `Buddy.Allocator.CountFreePages` | kernel/mem/buddy.c:127-143 | the number of blocks on one free list, 0 for an order that does not exist |
| `Buddy.Allocator.CountTotalFreePages` | kernel/mem/buddy.c:222-236 | the weighted sum over the free lists is the number of free frames |
| `Buddy.Allocator.Run` | kernel/mem/buddy.c:404-483 | over every run of allocations and frees, what is held follows from the requests and their answers, an allocation fails if and only if everything is held, held and free frames partition the initial ones, and list k holds exactly the maximal aligned blocks of order k of what is not held |
| `Buddy.Allocator.AllocThenFree` | kernel/mem/buddy.c:404-483 | takes a frame if one is free, and returning it restores every free list as a multiset |
| `Buddy.FirstInFirstOut` | kernel/mem/buddy.c:475-476 | a block pushed on a free list is popped after all that were there |
| `BuddySpec.InsideOneBlock` | kernel/mem/buddy.c:301-358 | with no two free buddies, every aligned block of free frames lies inside one free block |
| `BuddySpec.Canonical` | kernel/mem/buddy.c:249-358 | a block is on list k if and only if it is a maximal aligned block of free frames |
| `BuddySpec.CanonicalLists` | kernel/mem/buddy.c:249-358 | two valid states with the same free frames have the same blocks on every list |
| `BuddyCount.TotalIsFreeFrames` | kernel/mem/buddy.c:222-236 | the weighted sum of the list lengths equals the number of free frames |
| `Paging.WalkRange` | kernel/mem/walk.c:50-293 | each of the four walk loops visits, page by page and in order, the leaf slots of the pages of its range under present tables, though the inclusive end shrinks by one byte per level |
| `Paging.NextStep` | kernel/mem/walk.c:15-36 | one loop iteration goes to the next chunk or to the end, over the hole and the wrap at 2^64, and the byte given up is one the range can spare |
| `Paging.WalkPageRange` | kernel/mem/walk.c:298-303 | the leaf callback is called once, in ascending order, for exactly the walked pages whose tables are present, at the slot of the page's four indices |
| `Paging.WalkAllPages` | kernel/mem/walk.c:306-309 | visits every canonical page under present tables once, ascending |
| `Paging.WalkUserPages` | kernel/mem/walk.c:312-315 | visits every page below USER_LIM under present tables once, ascending |
| `Paging.VisitIsTranslate` | kernel/mem/walk.c:241-293 | the slot the walk reaches is the one four-level translation reaches |
| `Paging.IndicesAreBits` | include/x86-64/paging.h:43-47 | the four indices and the page offset are the low 48 bits of the address, highest first, and give a canonical address back |
| `Paging.WalkIsExact` | kernel/mem/walk.c:9-12 | the pages walked are the canonical pages of the range if and only if it starts canonically, its start extends to the first upper page, or it ends before both |
| `Paging.HoleExample` | kernel/mem/walk.c:9-12 | a range that starts at 2^48 walks a non-canonical address through the tables of the user half |
| `MmuSpec.FindInserted` | kernel/mem/insert.c:157-175 | an insertion changes the leaf of its own page and no other leaf of any address space |
| `MmuSpec.FindKept` | kernel/mem/ptbl.c:15-46 | an empty table put below a clear entry changes no leaf of any address space |
| `MmuSpec.GrantsLeaf` | kernel/mem/ptbl.c:38-43 | where table entries are present, writable and for users, the access granted along the path of a page is that of its leaf entry |
| `MmuSpec.FindRemoved` | kernel/mem/remove.c:47-76 | a removal clears the leaf of its own page and no other, though it frees tables on the way up |
| `MmuSpec.RemovedInserted` | kernel/mem/remove.c:47-76 | removing what was inserted at an unmapped page gives back exactly the tables there were |
| `MmuSpec.ChunkRemoved` | kernel/mem/walk.c:108-163 | walking the table below an entry and then freeing it if empty is removing the pages one by one from above |
| `MmuSpec.FindRemovedAll` | kernel/mem/remove.c:47-64 | removing a range of pages clears exactly their leaves |
| `MmuSpec.InsertedFull` | kernel/mem/ptbl.c:15-46 | after an insertion no table is empty |
| `MmuSpec.RemovedFull` | kernel/mem/ptbl.c:100-130 | after a removal no table is empty but possibly the root |
| `MmuSpec.RemovedTree` | kernel/mem/ptbl.c:100-130 | a removal leaves a forest: levels step down by one and every table has one parent |
| `Mmu.Mmu.PtblAlloc` | kernel/mem/ptbl.c:15-46 | a clear entry gets an empty table in a frame that was free, with count 1, through an entry that restricts no access below it; a present one is left alone; it fails exactly on a clear entry without a free frame, changing nothing |
| `Mmu.Mmu.PtblFree` | kernel/mem/ptbl.c:100-130 | the table behind an entry is freed and the entry cleared exactly when the table has no present entry |
| `Mmu.Mmu.InsertPte` | kernel/mem/insert.c:25-78 | the entry is replaced with exact counts, the old page freed with its last reference, or else the new page is ruined |
| `Mmu.Mmu.RemovePte` | kernel/mem/remove.c:13-32 | the entry is cleared and its page freed with its last reference |
| `Mmu.Mmu.InsertRange` | kernel/mem/insert.c:87-130 | for a single page each walk loop runs once, and the four levels together make the tables `Inserted` describes; if it fails there were fewer free frames than tables missing, they have all become tables, and no lookup has changed |
| `Mmu.Mmu.RemoveRange` | kernel/mem/walk.c:50-293 | each walk loop over a range, with callbacks that clear entries and free tables while it runs, does what removing the pages one by one does, and frees exactly the frames that lose their last reference or stop being tables |
| `Mmu.Mmu.UnmapPageRange` | kernel/mem/remove.c:47-64 | from every start address, unmaps exactly the walked pages in that address space, changes no other lookup and keeps the invariant; from a canonical start these are the canonical pages the range meets |
| `Mmu.Mmu.UnmapUserPages` | kernel/mem/remove.c:67-70 | unmaps exactly the user half |
| `Mmu.Mmu.PageInsert` | kernel/mem/insert.c:157-175 | succeeds if and only if there are as many free frames as tables missing, and otherwise changes no lookup; lookup of that page then gives the new page, write and user access along its path are what the flags say, no other lookup and no other access changes, and the invariant (exact counts, forest, no empty table, no table entry that restricts a leaf) is kept if and only if the page is not mapped over its own only mapping or at its maximal count |
| `Mmu.RightsOf` | kernel/mem/ptbl.c:15-46 | in every state that keeps the invariant, user and write access to a page are exactly the bits of its leaf entry |
| `Mmu.Mmu.PageRemove` | kernel/mem/remove.c:73-76 | for a page-aligned address, lookup of that page gives nothing, no other lookup changes, the invariant is kept; for any other address the same for all pages that the 4096 bytes from it meet |
| `Mmu.Mmu.PageLookup` | kernel/mem/lookup.c:52-91 | for every address, the last present entry of the walked pages: the entry of the flat map if it is page-aligned, and inside a canonical page the next page's entry if that is walked and present |
| `Mmu.Mmu.InsertThenRemove` | kernel/mem/remove.c:47-76 | whenever there are frames for the missing tables, restores all tables and the free frames, up to the page itself if it had no other reference |
| `Mmu.Mmu.CreatePml4` | kernel/sched/fork.c:22-44 | a new address space maps nothing and leaves the others alone |
| `Mmu.Mmu.Run` | kernel/mem/insert.c:157-175 | over every run of operations, each step changes lookups, frames held and free frames as the flat map would, every state keeps the invariant, a lookup gives what was last inserted there, and the run stops early exactly at an operation that needs more frames than are free |
| `Mmu.LatestFound` | kernel/mem/insert.c:157-175 | in every state of a run, a lookup gives what was last inserted at that page and not removed since |
| `Mmu.Mmu.ReinsertExample` | kernel/mem/insert.c:38-42 | from any state with five free frames, inserting a page over its only mapping leaves it mapped and free |
| `Mmu.TableRef` | kernel/mem/ptbl.c:100-130 | a table below the root has exactly one reference, so that freeing it never trips the count assertion |
| `MmuCount.UsersSet` | kernel/mem/insert.c:64-75 | writing an entry moves the set of entries that point to a frame by that entry alone |
| `Cow.Kernel.PageInsert` | kernel/mem/insert.c:25-78 | on the flat map, one entry changes and counts stay exact |
| `Cow.Kernel.CopyPageRange` | kernel/sched/fork.c:50-83 | the child reads what the parent reads in the range; each page of the parent there has the same frame in both, read-only and not executable if it was writable, executable if it was read-only and executable, and otherwise with the flags of the nearest page before it that was one or the other, or the unassigned ones; isolation is kept unless an unassigned writable page_flags is used, in which case the reported page is shared writable |
| `Cow.Kernel.TaskClone` | kernel/sched/fork.c:90-144 | memory becomes exactly the eager copy, the entries of both tasks are per VMA as `CopyPageRange` has them and those of other tasks unchanged, isolation is kept if and only if no VMA makes copy_page_range use a writable page_flags before assigning it, and the child's VMA tree can be taken apart when it ends |
| `Cow.Kernel.CopyOnWrite` | kernel/vma/pfault.c:14-37 | memory as read by every task is unchanged and the faulting entry is writable: in its own frame, with counts and free frames unchanged, if no other entry has the frame, and otherwise in a frame that was free; it stops if and only if there is another and no frame is free |
| `Cow.Kernel.PageFault` | kernel/vma/pfault.c:40-70 | the fault is refused exactly when the VMA does not permit the access, and stops exactly when it does, the page is missing or shared, and no frame is free; otherwise one entry changes, the access can go ahead and only a missing page has become zeroes |
| `Cow.Kernel.DoLoad` | kernel/vma/pfault.c:40-70 | a load returns what the task has in memory, a missing page being zeroes, and changes nothing else; it stops exactly when a permitted page is missing and no frame is free |
| `Cow.Kernel.Populate` | kernel/vma/populate.c:47-107 | a zeroed page with the flags of the VMA if it permits the access; the assertion that no page is there never fails, and it stops exactly when no frame is free |
| `Cow.Kernel.DoStore` | kernel/vma/pfault.c:40-70 | a store changes what its own task reads at that page and nothing else; it stops exactly when it is permitted, the page is missing or shared, and no frame is free |
| `Cow.Kernel.TaskFree` | kernel/sched/task.c:338-368 | exactly the task's memory goes away, with exact counts, and it returns if and only if free_vmas can take the task's tree apart |
| `Cow.Kernel.Run` | kernel/sched/fork.c:50-163 | over every run of creation, fork, load, store, unmap and exit steps, memory and everything loads return are those of the machine that copies at fork; a run stops early exactly at a permitted access to a page that is missing, or shared and written, when no frame is free, or at the first step that ends a task whose VMAs cannot be removed |
| `CowSpec.UsersBound` | kernel/sched/fork.c:73-76 | a frame has at most one entry per task, so its 16-bit count never wraps |
| `CowSpec.FindVma` | kernel/vma/find.c:56-67 | a VMA that holds the address, or none if no VMA does |
| `CowSpec.MapEntry` | kernel/mem/insert.c:64-75 | mapping a frame where all its entries have the same address keeps counts and free frames exact |
| `CowSpec.UnmapEntry` | kernel/mem/remove.c:13-32 | clearing an entry keeps counts and free frames exact |
| `CowSpec.AloneIffOne` | kernel/vma/pfault.c:21-24 | the count is 1 if and only if no other entry has the frame |
| `CowSpec.StoreIsLocal` | kernel/vma/pfault.c:14-37 | with isolation, a store through a writable entry is seen through that entry only |
| `CowSpec.StoreLeaks` | kernel/sched/fork.c:66-70 | without isolation another task sees the store |
| `CowSpec.ShareIsolates` | kernel/sched/fork.c:72-79 | sharing a page read-only keeps isolation |
| `Cow.StaleExample` | kernel/sched/fork.c:66-70 | a data page of a task that has forked before is such a page: with a writable page_flags both tasks get a writable entry |
| `VmaTree.RbRoot.RotateNode` | lib/rbtree.c:6-26 | a rotation in place turns the subtree and keeps parent links and in-order sequence |
| `VmaTree.RbRoot.RbBalance` | lib/rbtree.c:79-118 | from a tree with a black root and one new leaf: terminates with the tree `Balanced`, a black root, consistent links and the same in-order sequence, and red-black if it was |
| `VmaTree.RbRoot.DoRemove` | lib/rbtree.c:128-171 | takes exactly the node out of the in-order sequence, its predecessor taking its place, in place and with consistent links |
| `RbRemoval.RbRemove` | lib/rbtree.c:173-244 | returns if and only if `SafeRemove` holds of the node's place, and then takes exactly the node out of the in-order sequence, with consistent links, a black root and the tree `AfterRemove` |
| `RbRemoval.Repair` | lib/rbtree.c:200-241 | the loop terminates; it reads through no null pointer if and only if `Safe` holds where it starts, and then makes the tree `Repaired` with consistent links |
| `RbRemoval.Iterate` | lib/rbtree.c:200-238 | one iteration faults, or moves to where fewer nodes are around the node, without changing what the loop comes to |
| `RbRepair.RepairedOrder` | lib/rbtree.c:200-241 | the repair keeps the in-order sequence and leaves a black root |
| `RbRepair.AfterRemoveOrder` | lib/rbtree.c:173-244 | a removal takes exactly the node out of the in-order sequence and leaves a black root |
| `RbRepair.ShapeCanRemove` | lib/rbtree.c:173-244 | whether a removal faults depends on shape, colours and position only |
| `RbRepair.OneChildSafe` | lib/rbtree.c:173-244 | in a red-black tree the removal of a node that lacks a child never faults |
| `RbRepair.FiveFaults` | lib/rbtree.c:224-229 | the red-black tree that five insertions build, and whose middle node cannot be removed |
| `RbMend.RemovalKeeps` | lib/rbtree.c:128-244 | rb_remove keeps a red-black tree red-black if and only if the node lacks a child and is red, has one or is alone, or it is the root of three nodes with red children |
| `RbMend.LoopMends` | lib/rbtree.c:201-240 | started at a subtree that is one black node short, the repair loop makes the tree red-black if and only if it ends at the root or in the outer rotation and passes no red parent |
| `RbMend.EvenDamaged` | lib/rbtree.c:201-240 | started at a subtree that is not short, it never leaves a red-black tree |
| `RbMend.RedNodeExample` | lib/rbtree.c:128-170 | the tree that the removal of a red node with two children leaves, which is not red-black |
| `RbMend.InnerExample` | lib/rbtree.c:224-230 | the trees that two removals through the inner rotation leave, on either side of the grandparent |
| `RbFree.ShapeCanFree` | kernel/vma/remove.c:22-35 | whether free_vmas faults depends on the shape and colours of the tree only |
| `RbFree.RisesFree` | kernel/vma/remove.c:22-35 | free_vmas does not fault on a tree whose right subtrees along the left edge are red-black, nowhere have only a left red child, and do not fall in black height on the way up; every removal keeps this |
| `RbFree.RepairedRises` | lib/rbtree.c:200-241 | on such a tree the repair after the removal of the first node reads through no null pointer and leaves such a tree |
| `RbFree.LeanFree` | kernel/vma/remove.c:22-35 | free_vmas does not fault on a red-black tree in which nowhere only the left child is red |
| `RbFree.AppendedLean` | lib/rbtree.c:79-118 | inserting behind all others keeps such a tree |
| `RbFree.AscendingFree` | kernel/sched/fork.c:108-131 | free_vmas does not fault on a tree that was built in ascending order |
| `RbFree.SevenFaults` | kernel/vma/remove.c:22-35 | the red-black tree that seven insertions build, and on which free_vmas faults at the third node |
| `RbTree.BalancedOrder` | lib/rbtree.c:79-118 | rebalancing keeps the in-order sequence, leaves a black root, and mends a tree whose only fault is the new red node |
| `RbTree.InsertedOrder` | kernel/vma/insert.c:15-65 | linking in and rebalancing puts the node at its position in the order and keeps the tree red-black |
| `RbTree.GapUnique` | kernel/vma/insert.c:22-39 | a position in the order has one place in the tree, so the descent determines the tree that results |
| `VmaTree.RbRoot.Rightmost` | lib/rbtree.c:28-40 | finds the last node of a subtree |
| `RbWalk.Outermost` | lib/rbtree.c:28-40 | the first or last node in order of a subtree |
| `RbWalk.Closest` | lib/rbtree.c:42-57 | the next or previous node in order, found through child and parent links |
| `RbWalk.Neighbour` | lib/rbtree.c:69-77 | rb_next and rb_prev give the neighbour in the VMA list, or NULL at its ends |
| `RbWalk.Extreme` | lib/rbtree.c:59-67 | rb_first and rb_last give the ends of the VMA list |
| `RbTree.RotateInorder` | lib/rbtree.c:6-26 | a rotation keeps the in-order sequence |
| `RbTree.RecolorRedBlack` | lib/rbtree.c:90-98 | the recolouring step moves the red-red edge up and keeps every other red-black condition |
| `RbTree.OuterStep` | lib/rbtree.c:79-118 | the last rotation removes the red-red edge and restores the red-black conditions |
| `RbTree.DepthBound` | kernel/vma/find.c:16-51 | in a red-black tree of n nodes a path of d nodes satisfies 2^(d/2) <= n + 1 |
| `Vmas.Task.FindVma` | kernel/vma/find.c:16-51 | returns the first VMA of the list that ends above the address, in at most 2*log2(n+1) iterations on a red-black tree |
| `Vmas.Task.InsertVma` | kernel/vma/insert.c:15-65 | fails exactly when a non-empty range overlaps, changing nothing; otherwise tree and list stay equal, sorted and disjoint with the VMA right behind those that end at or below its base, and the tree is the one `InsertedAt` gives, red-black if it was |
| `Vmas.Task.RemoveVma` | kernel/vma/remove.c:10-19 | returns if and only if `CanRemove` holds of the VMA's position, and then takes exactly the VMA out of tree and list, which stay equal |
| `Vmas.Task.FreeVmas` | kernel/vma/remove.c:22-35 | returns if and only if `CanFree` holds of the tree before the call, and then tree and list are empty |
| `VmaOps.CreateVma` | kernel/vma/insert.c:112-153 | creates the VMA over the pages of the range exactly when no VMA meets them |
| `VmaOps.FindFree` | kernel/vma/insert.c:161-237 | reports whether no VMA holds the address |
| `VmaOps.SplitVma` | kernel/vma/split.c:11-32 | inside the VMA it succeeds if and only if the address is page-aligned, giving the two halves; otherwise the upper part is lost |
| `VmaOps.SplitAligned` | kernel/vma/split.c:11-32 | at a page boundary the flags and name of every address are kept and the upper part is returned |
| `VmaOps.SplitVmas` | kernel/vma/split.c:40-54 | keeps the map from addresses to flags and name, and returns the VMA of the range, or up to the end for size 0 |
| `VmaOps.SplitKeepsMap` | kernel/vma/split.c:11-32 | splitting keeps the flags and name of every address |
| `VmaOps.MergeUndoesSplit` | kernel/vma/merge.c:11-25 | what was split can be merged, and merging gives back what there was |
| `VmaOps.MergeKeepsMap` | kernel/vma/merge.c:11-25 | merging keeps the flags and name of every address |
| `VmaOps.MergeVma` | kernel/vma/merge.c:11-25 | list neighbours are merged exactly when they touch and agree in flags and name; it faults exactly when they do and the right one cannot be removed |
| `VmaOps.MergeVmas` | kernel/vma/merge.c:31-55 | merges the VMA with each neighbour exactly when they touch and agree, and keeps the flags and name of every address; it returns exactly when both removals do (`CanMerge`) |
| `VmaOps.MergedFully` | kernel/vma/merge.c:31-55 | if only the VMA and its own neighbours could be merged, no two neighbours can be afterwards |
| `VmaOps.DoRemoveVma` | kernel/vma/remove.c:40-64 | deletes exactly the range from the address map, with tree and list equal and sorted; size 0 deletes up to the end of the VMA; it returns exactly when the tree after the cuts lets go of the part between them (`CanTake`) |
| `VmaOps.FaultExample` | kernel/vma/remove.c:10-19 | five VMAs are created on a new address space and the removal of the middle one does not return |
| `VmaOps.FreeFaultExample` | kernel/vma/remove.c:22-35 | seven VMAs are created on a new address space and free_vmas does not return |
| `VmaOps.CloneVmas` | kernel/sched/fork.c:108-131 | the child gets the same regions, in the tree `Ascending` of as many nodes, which is red-black and can be taken apart |
| `Mquery.SysMquery` | kernel/vma/syscall.c:19-99 | fails exactly from USER_LIM up, and otherwise reports the VMA that holds the address, or the whole gap between two VMAs, or between one and an end of the space, that it is in |
| `Mquery.QueryHonest` | kernel/vma/syscall.c:19-99 | for every address below USER_LIM the answer holds the address and is a VMA or a maximal gap |
| `Mquery.QueryStep` | kernel/vma/syscall.c:19-99 | an answer at a boundary starts there, is a VMA or a maximal gap, and ends at another boundary |
| `Mquery.PrintVmas` | lib/vma.c:3-30 | repeated queries terminate and tile [0, USER_LIM) exactly with the non-empty VMAs and the maximal gaps |
| `SlabSpec.SetupFits` | kernel/mem/slab.c:158-173 | objects, headers and footer fit one page, and one more object would not; the object size is the least multiple of 32 with room for the header and the size |
| `SlabSpec.BlocksDisjoint` | kernel/mem/slab.c:189-218 | live blocks do not overlap |
| `SlabSpec.BlockAvoidsMetadata` | kernel/mem/slab.c:87-125 | no byte of a live block belongs to any object header or footer |
| `SlabSpec.AllFree` | kernel/mem/slab.c:230-265 | the free list has as many objects as the page exactly when it has all of them |
| `Slab.Kmem.SlabAllocChunk` | kernel/mem/slab.c:87-125 | a free page becomes a slab page with all objects free and headers that point to its footer |
| `Slab.Kmem.SlabAlloc` | kernel/mem/slab.c:189-218 | fails if and only if no frame is free and no page of the slab has a free object; a page that has one serves the request, the first partial page its first free object, and otherwise exactly one frame becomes a slab page; an object that was not live becomes live and no other changes |
| `Slab.Kmem.SlabFree` | kernel/mem/slab.c:230-265 | exactly the object stops being live and becomes the first of its page's free list, and the page goes back to the buddy allocator exactly when no other object of it is live |
| `Slab.Kmem.Kmalloc` | kernel/mem/kmem.c:40-55 | NULL for size 0 and above 1024, and otherwise if and only if no frame is free and no page of the smallest slab that fits has a free object; the block has at least the size asked for |
| `Slab.Kmem.Run` | kernel/mem/kmem.c:40-61 | every call of a run does to blocks held, slab pages and free frames what SlabAlloc and SlabFree say; the live blocks are those held, have the bytes asked for, lie apart with room for a header, and slab pages and free frames together stay the same set |
| `LinkedList.InsertAfter` | lib/list.c:10-17 | the ring gets the node after the given one |
| `LinkedList.InsertBefore` | lib/list.c:19-26 | the ring gets the node before the given one |
| `LinkedList.Del` | lib/list.c:28-37 | the ring loses exactly the node, which is left alone |
| `LinkedList.Add` | lib/list.c:39-42 | the node becomes the first element of the list |
| `LinkedList.AddTail` | lib/list.c:44-47 | the node becomes the last element of the list |
| `LinkedList.Pop` | lib/list.c:49-60 | takes the last element of the list |
| `LinkedList.PopTail` | lib/list.c:62-73 | takes the first element of the list |
| `LinkedList.Splice` | kernel/sched/sched_util.c:134-141 | the nodes of one list, in order, become the other list, and the first is empty |
| `Sched.Scheduler.MigrateTasks` | kernel/sched/sched.c:73-99 | queue and global queue end balanced against the share, in order; the assertions on popped tasks hold |
| `Sched.Scheduler.TryRunNextTask` | kernel/sched/sched.c:104-121 | runs the first task of the queue, if there is one |
| `Sched.Scheduler.MoveCurToNextq` | kernel/sched/sched_util.c:143-154 | the current task joins the end of the next round |
| `Sched.Scheduler.MoveNextqToRunq` | kernel/sched/sched_util.c:134-141 | the next round becomes the current one, in order |
| `Sched.Scheduler.Refill` | kernel/sched/sched.c:125-131 | the next round is balanced against the global queue and its first task runs |
| `Sched.Scheduler.SchedYield` | kernel/sched/sched.c:163-216 | keeps the number of places every task is in, the queue lengths and the counters, and does what `Yield` says; halts exactly when only kernel tasks are left |
| `Sched.Scheduler.AddTask` | kernel/sched/task_util.c:100-115 | a new task is in exactly one place, the end of the global queue, and is counted as a kernel task exactly if it is one |
| `Sched.Scheduler.Exit` | kernel/sched/task.c:406-461 | if task_free returns, exactly the running task leaves; the CPU halts exactly when only kernel tasks are left, and otherwise yields |
| `Sched.Run` | kernel/sched/sched.c:163-216 | every interleaving of create, fork, yield and exit steps on any CPUs does what the steps say one by one; every task born and not dead is in exactly one place and the counters are exact |
| `Sched.YieldKeeps` | kernel/sched/sched.c:163-216 | a yield neither loses nor duplicates a task |
| `Sched.BalancedKeeps` | kernel/sched/sched.c:73-99 | balancing neither loses nor duplicates a task |
| `Sched.BalancedOrder` | kernel/sched/sched.c:73-99 | tasks leave the front of one queue and join the end of the other, in order |
| `Sched.ShareLeast` | kernel/sched/sched.c:194 | the share is the least number of tasks per CPU that covers all tasks |
| `Sched.YieldNewRound` | kernel/sched/sched.c:125-216 | at the end of a round the waiting tasks with the current one last, and then global tasks, fill the CPU up to the share in order, those over it go to the end of the global queue; the CPU idles exactly when there is no task |
| `Sched.YieldInRound` | kernel/sched/sched.c:104-121 | during a round the next task of the run queue runs, the current one waits for the next round and the global queue is left alone |
| `Sched.KernelTasks` | kernel/sched/task_util.c:100-106 | there are never more kernel tasks than tasks |
| `Sched.YieldRotates` | kernel/sched/sched_util.c:91-154 | the two queues of a CPU are one FIFO queue |
| `Sched.RoundRobin` | kernel/sched/sched_util.c:91-154 | among n tasks alone on a CPU every task runs within any n consecutive yields |
| `Sched.YieldMany` | kernel/sched/sched.c:163-216 | the scheduler really takes the yields that `RoundRobin` speaks of |
| `Spinlock.AlwaysSafe` | kernel/spinlock.c:43-162 | over every interleaving of single reads and writes: at most one CPU between acquire and release, `cpu` names exactly the holder that has recorded itself, the reported place is where the holder locked, a free lock names none, and every panic is deserved |
| `Spinlock.StepKeeps` | kernel/spinlock.c:58-162 | each read or write keeps this |
| `Spinlock.TestsDoNotMisfire` | kernel/printf.c:20-41 | the unlocked reads of `cpu` decide rightly: vcprintf locks unless its caller holds the lock, and the tests for double locking and foreign unlocking fire exactly on such calls |
| `Spinlock.SwapTakes` | kernel/spinlock.c:82-110 | on a free lock the compare-and-swap takes it, for lock and trylock alike; on a taken one lock tries again and trylock gives up |
| `Spinlock.LockReturns` | kernel/spinlock.c:58-127 | in every run, a call of lock that returns was made without the lock and returns with it; a trylock that returns without it found another CPU holding it; a call by the holder does not return |
| `Time.TimeIsExact` | lib/time.c:5-34 | for every year and every integer month the result counts Gregorian months one by one, if and only if the day count fits an int |
| `Time.MonthStep` | lib/time.c:5-34 | from a month to the next the result steps by 86400 times the month's length |
| `Time.OffsetIsDays` | lib/time.c:24-30 | the nested quotients count the days of Gregorian months, before and after 2000 |
| `Time.Epoch2000` | lib/time.c:5-34 | 2000-01-01 is 946684800 |
| `Time.AgreesWithPosix` | lib/time.c:5-34 | agrees with "Seconds Since the Epoch", section 4.16 of the POSIX.1-2017 Base Definitions, if and only if the day count fits an int |
| `Time.QIsFloor` | lib/time.c:3 | the macro Q rounds down for negative arguments too |

## Left out

- RbRemoval.RbRemove: how far from red-black a removal leaves the tree is not claimed beyond RbMend.RemovalKeeps; find_vma's bound is for red-black trees, such as insertions build.
- rb_replace, walk_vma_range and the search loops of find_free_vma and add_vma beyond the first probe: they would add easy members.
- VmaOps.SplitVma, and what calls it: VMAs end at or below USER_LIM; find_free_vma fails above it and add_vma then searches from the top.
- VmaOps.DoRemoveVma: the unmap_page_range between the cuts and the removal works on the page tables, which are in Mmu.
- VmaOps.FindFree: the base and end that find_free_vma fills in are those of Mquery.SysMquery, which is the same code.
- Mquery.SysMquery: vm_mapped and the executable type are not modelled.
- VmaOps.MergeVma: takes the two VMAs to be neighbours in the list, as its callers do.
- VmaOps.DoRemoveVma: takes the range to lie in one VMA, as walk_vma_range's callers do for aligned ranges inside one VMA.
- Failure of kmalloc inside VMA operations, backing files (vm_src, vm_len) and mprotect.
- Paging.WalkRange: the tables are read-only while they are walked, and only the leaf callback is modelled; the walks whose callbacks write are in Mmu, removals on any range and insertions on a single page.
- Mmu.Mmu.PageLookup: the entry instead of the entry_store protocol.
- Mmu.Mmu.PageInsert: page-aligned canonical addresses only, while page_insert of any other address maps the page twice; a failure stands for page_alloc's failed assertion.
- Mmu.RightsOf: write and user access; a leaf is present if its entry is not zero, and execute access is in Cow.
- Mmu.Mmu.CreatePml4: the entries for the kernel half, which all address spaces share without counting, are not modelled.
- Mmu.Mmu.PtblFree: sets the free flag of the page once, in page_free, and not also before it.
- Huge pages, populate_region on more than one page, TLB invalidation, reverse maps and swapping.
- Cow.Kernel: page tables are the flat maps that Mmu proves the four-level tables to be, so frames for tables are not counted against memory and the two results are not joined in one statement; page_alloc's failed assertion ends a run.
- Cow.Kernel: the tree of a task that is not forked is given with its VMAs, since any order of insertions may have built it; VMAs do not change after that.
- Cow.Kernel.TaskClone: of the unassigned page_flags only the write and execute bits; the others are taken to be zero.
- Cow.Kernel.PageFault: loads and stores only, no instruction fetches.
- Cow.Kernel.Populate: anonymous VMAs only, without execute permission.
- Buddy.Allocator.PageAlloc: returns nothing where the source stops with a failed assertion; zeroing and the list of zeroed pages are not modelled.
- buddy_migrate and buddy_map_chunk: they depend on aliased virtual addresses and boot-time mappings.
- Slab.Kmem.SlabFree: the clearing of the freed block is not modelled.
- Slab.Kmem: the slabs of one CPU; the contents of blocks, and so the clearing in slab_free, are not modelled.
- Sched.Scheduler.Exit: task_free, with the fault in free_vmas it may end in, and the zombie path are not modelled.
- Sched.Scheduler: queues are sequences, which LinkedList implements; waiting parents, zombies, kill of another task, priorities within queue_add_priority and the fine-grained-lock build are not modelled, and each step is atomic under the big kernel lock.
- Spinlock: memory is sequentially consistent, and the operands of panic messages are not read.
- Time.TimeIsExact: signed overflow in the sums that are computed in int is undefined in C and excluded by a precondition.
- Devices, interrupt handling, ELF loading, the system call layer, the monitor and user programs.
