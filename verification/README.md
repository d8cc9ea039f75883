# Verified model of the kernel's allocators, storage stack, scheduler and page tables

A Dafny model of the self-contained state machines of a small 32-bit x86 kernel, with proofs of what
they keep over every run. `dafny verify dfyconfig.toml` checks it.

Each component has a value-level part, where states are datatypes and operations are functions, and an
imperative part, a class with the source's fields whose methods write headers, links, counters and
arrays in the source's order and are proved to compute the value-level operation.

| component | value level | imperative |
|---|---|---|
| buddy allocator | Dyadic, BuddyZone, BuddyTheorems | Buddy |
| SLOB | SlobPages, SlobHeaders, SlobState, SlobSteps, SlobLists, SlobTheorems | Slob |
| SLUB | ObjectPages, ObjectChains, SlubMoves, SlubMemory | Slub |
| slab allocator | ObjectPages, ObjectChains, SlabLists, SlabObjects | Slab |
| stack allocator | Words, StackFrames | Stack |
| block device and ext2 files | FlatBytes, FileView | BlockDevice, Ext2 |
| scheduler | Scheduling | Architecture |
| page tables | PageTables, FrameRuns | Vmm |
| 64-bit division, tokenizer | Tokens | LongDivision, Shell |

Memory that only an allocator writes is a map from addresses to headers. The layer below an allocator
(the buddy allocator, `kmalloc`) is a parameter: the address it would return, disjoint from what is in
use, or 0. Faults of the disk, of the heap and the clock are parameters too. Ghost parameters and
results only name the list position or block a call is about.

## What the code does not do

These promises hold only under a condition; the model keeps the code as it is and proves the exact one.

- In a buddy zone whose size is not a multiple of 4096, some free makes `find_buddy` read a header in the
  ragged tail unless the number of whole pages is a multiple of 2048 (`BuddyTheorems.TailIsNeverRead`).
- A stack allocation does what it does on unbounded numbers exactly when none of its checks is passed by a
  sum or product that wrapped (`StackFrames.AllocIsIdealIff`, for powers of two in closed form
  `StackFrames.MisledIff`); size 0xFFFFFFFF gives a pointer without bytes,
  size 0x80000000 a frame that does not help (`StackFrames.LargestSizeHasNoBytes`, `HalfSpaceOnlyGrows`). Its
  masks align exactly for powers of two (`Words.RoundsToMultiplesIff`).
- A command line is split as documented exactly when its 31st complete token leaves no quote or blank
  behind (`Tokens.ParseIsSplitIff`), and the null behind the arguments is written outside the shell's array
  of 32 exactly when it leaves anything at all (`Tokens.ArgsFitIff`, `Shell.ParseCommand`).
- A file read is cut at the end of the file exactly when offset + size does not wrap
  (`FileView.ClampIsExactIff`), and block n is read exactly when its byte position does not wrap
  (`FileView.DiskBlockIsBlock`).
- A ready process gets its turn exactly when no 100 processes in a row before it are unable to run
  (`Scheduling.TurnIff`). Adding processes and timer interrupts never lead there, in rings of any size
  (`Scheduling.RunsStarveNobody`): starvation needs sleepers, which no code here puts into the ring but a
  caller of `setState` may, or the zombies that `exit` leaves. With such sleepers, rings of at most 101
  processes are still safe, and longer ones are not (`Scheduling.NoStarvationIff`).
- The slab lists are disciplined exactly for objects of at most 2048 bytes (`SlabLists.DisciplineIff`,
  `SlabLists.TwoObjectsIff`).

Besides, `alloc_frame` returns 0 both for "no frame" and for frame 0; frame 0 is up for that exactly after a
page mapped to it was unmapped, or an address in it freed, until the next call that asks for a frame
(`FrameRuns.ZeroIsFreeIff`).

## Model

| member | source | states |
|---|---|---|
| BuddyTheorems.AllocFailsOnlyWhenItMust | src/kernel/runtime/buddy.cc:69-93 | Completeness: in every state that satisfies the invariant, `alloc_order(o)` returns null if and only if `o` is above MAX_ORDER or no aligned run of 2^o pages of the zone is entirely free. |
| BuddyTheorems.AllocationIsComplete | src/kernel/runtime/buddy.cc:69-116 | The same over every run of allocations and frees from `init`, for any number of pages. |
| BuddyTheorems.RunsAreConfluent | src/kernel/runtime/buddy.cc:163-200 | Confluence: two runs that leave the same blocks handed out leave the same blocks free, whatever the order of the calls. |
| BuddyTheorems.FreeingEverythingRestoresTheZone | src/kernel/runtime/buddy.cc:24-45 | A run that ends with nothing handed out leaves exactly the free blocks of the greedy carving of `init`. |
| BuddyTheorems.FreeBlocksDependOnlyOnLive | src/kernel/runtime/buddy.cc:181-200 | Canonical form: in states with the invariant, which blocks are free is a function of which are handed out. |
| BuddyTheorems.RunKeepsInv | src/kernel/runtime/buddy.cc:69-116 | In every reachable state free and handed-out blocks tile the zone, each at an offset divisible by its size, and no two buddies below MAX_ORDER are both free. |
| BuddyTheorems.InitialInv | src/kernel/runtime/buddy.cc:24-45 | The greedy carving of any zone satisfies that invariant. |
| BuddyTheorems.AllocKeeps | src/kernel/runtime/buddy.cc:69-93 | A successful allocation hands out an aligned run whose pages were all free, as a block of exactly the order asked for, and touches no other handed-out block; a failing one changes nothing. |
| BuddyTheorems.FreeKeeps | src/kernel/runtime/buddy.cc:108-116 | Freeing takes exactly that block out of the handed-out ones and keeps the invariant through all merges. |
| BuddyTheorems.FreeRunInOneBlock | src/kernel/runtime/buddy.cc:181-200 | If every page of an aligned run is free, then one free block contains the whole run: the dyadic argument behind completeness. |
| BuddyTheorems.BuddyPageStartsABlock | src/kernel/runtime/buddy.cc:144-161 | Live-header safety: the buddy of a block in hand, if it starts inside the zone, starts a block of the tiling of at most the same order. |
| Buddy.BuddyAllocator.BuddyHeader | src/kernel/runtime/buddy.cc:144-161 | The address `find_buddy` reads by index arithmetic is the start of a block of the tiling, and the header found there is free with the right order if and only if the whole buddy is free; a buddy behind the end of the zone is never free. |
| BuddyTheorems.TailIsNeverRead | src/kernel/runtime/buddy.cc:144-161 | A zone whose size is not a multiple of 4096 has a ragged tail; there are calls after which freeing a live block makes `find_buddy` look at that tail, for the block itself or for one it is merged into, if and only if the number of whole pages is not a multiple of 2^MAX_ORDER. |
| BuddyTheorems.LooksInside | src/kernel/runtime/buddy.cc:181-200 | In a zone that ends on a block of maximal order, all pages that one free looks at, through all its merges, are pages of the zone. |
| BuddyTheorems.HandedOutInTime | src/kernel/runtime/buddy.cc:69-93 | Allocating blocks of one order often enough hands out any given free block of that order. |
| Buddy.StaleHeadersAreIrrelevant | src/kernel/runtime/buddy.cc:144-200 | Whatever clients or former headers leave in the zone away from the starts of blocks, the lists and the headers of live blocks stay in order. |
| Buddy.BuddyAllocator.constructor | src/kernel/runtime/buddy.cc:6-48 | `init` builds the greedy carving in header memory, list heads and counters, for any size up to 2^32 that is a multiple of 4096, or whose tail is never read. |
| Buddy.BuddyAllocator.FittingOrder | src/kernel/runtime/buddy.cc:28-33 | The inner loop finds the largest order whose block still fits. |
| Buddy.BuddyAllocator.CarveBlock | src/kernel/runtime/buddy.cc:27-45 | One turn of the carving loop adds exactly that block. |
| Buddy.BuddyAllocator.CarveAll | src/kernel/runtime/buddy.cc:24-45 | The whole loop is the greedy carving. |
| Buddy.BuddyAllocator.GetOrder | src/kernel/runtime/buddy.cc:50-60 | The smallest order whose blocks hold the size, capped at MAX_ORDER. |
| Buddy.BuddyAllocator.Alloc | src/kernel/runtime/buddy.cc:62-67 | Null for size 0; otherwise `alloc_order` of the order for the size. |
| Buddy.BuddyAllocator.FindOrder | src/kernel/runtime/buddy.cc:72-77 | The search finds the first order with a free block. |
| BuddyTheorems.SmallestIsSplit | src/kernel/runtime/buddy.cc:69-93 | The block handed out starts the first free block of the smallest sufficient order; what is split off is one block for each order in between, the upper halves; all other lists stay. |
| Buddy.HandedOutApart | src/kernel/runtime/buddy.cc:24-45 | Blocks handed out are byte ranges inside the memory of the zone, at multiples of their size from its start, and no two overlap. |
| Buddy.BuddyAllocator.AllocOrder | src/kernel/runtime/buddy.cc:69-93 | The method with header writes, list pointers and counters refines the allocation on zones; the pointer is 20 bytes behind the start of a block that was the first of the smallest sufficient order with a free block; each order in between gets the upper half split off, and no other list changes; null if and only if no sufficient order has a block. |
| Buddy.BuddyAllocator.Free | src/kernel/runtime/buddy.cc:95-106 | Checks magic and mark, frees the block on the zone, rejects everything else unchanged; a second free of the pointer right after is rejected. |
| Buddy.BuddyAllocator.FreeOrder | src/kernel/runtime/buddy.cc:108-116 | Frees the block of the given order, ignores null and orders above MAX_ORDER. |
| Buddy.BuddyAllocator.AddToFreeList | src/kernel/runtime/buddy.cc:118-128 | Pushes a block on the doubly linked list of its order: next, prev and head pointers spell the new list, the counter is its length, no other header changes. |
| Buddy.BuddyAllocator.RemoveFromFreeList | src/kernel/runtime/buddy.cc:130-142 | Unlinks a block from the list of its order, at any place in the list. |
| Buddy.BuddyAllocator.FindBuddy | src/kernel/runtime/buddy.cc:144-161 | Returns the buddy if and only if it is free as a whole. |
| Buddy.BuddyAllocator.SplitOnce | src/kernel/runtime/buddy.cc:163-179 | One turn halves the block in hand and lists its upper half. |
| Buddy.BuddyAllocator.SplitBlock | src/kernel/runtime/buddy.cc:163-179 | The loop splits down to the order asked for. |
| Buddy.BuddyAllocator.MergeOnce | src/kernel/runtime/buddy.cc:181-200 | One turn merges the block in hand with its free buddy. |
| Buddy.BuddyAllocator.CoalesceBlock | src/kernel/runtime/buddy.cc:181-200 | The loop merges until no buddy is free and lists the result. |
| SlobPages.PlaceKeeps | src/kernel/runtime/slob.cc:25-71 | A placement keeps the page shape: blocks tile the 4068 bytes after the header, no two touching blocks are free, every block is at least 32 bytes, all but the last have sizes divisible by 8. |
| SlobPages.FreedKeeps | src/kernel/runtime/slob.cc:97-98 | Freeing a block and merging the page keeps the page shape. |
| SlobPages.MergeKeepsLive | src/kernel/runtime/slob.cc:204-222 | The merge pass moves no block in use and keeps the length of the page. |
| SlobPages.MergeSeparates | src/kernel/runtime/slob.cc:204-222 | After one pass no two touching blocks are free, whatever the page was before. |
| SlobPages.MergeIsIdle | src/kernel/runtime/slob.cc:275-286 | Merging a page in order changes nothing, so `defragment` moves no block. |
| SlobPages.AllFreeIsOneBlock | src/kernel/runtime/slob.cc:100-104 | The free size of a page in order equals 4068 only if the page is one free block that covers it. |
| SlobPages.TotalsAddUp | src/kernel/runtime/slob.cc:67-94 | Free and handed-out bytes of a page add up to its length. |
| SlobTheorems.FreeUndoesAlloc | src/kernel/runtime/slob.cc:60-98 | Round trip: freeing the block that was just placed restores the page exactly, whether or not the block was split. |
| SlobTheorems.AllocOnlyAdds | src/kernel/runtime/slob.cc:60-71 | A placement hands out one more block and leaves every other block in use where it is, with its size. |
| SlobTheorems.FreeOnlyRemoves | src/kernel/runtime/slob.cc:92-98 | Freeing takes back that block only. |
| SlobTheorems.BytesConserved | src/kernel/runtime/slob.cc:67-94 | Free bytes and handed-out bytes over all pages are 4068 times the number of pages. |
| SlobTheorems.HandedOutApart | src/kernel/runtime/slob.cc:25-71 | Blocks in use, in one page or in two, never overlap, and every pointer handed out is 8-byte aligned. |
| Slob.SlobAllocator.constructor | src/kernel/runtime/slob.cc:7-23 | `init`: one page, or none when the page allocator has no memory. |
| Slob.SlobAllocator.FindFreeBlock | src/kernel/runtime/slob.cc:166-184 | Best fit: the first of the smallest free blocks that are big enough, over all pages in list order, null if and only if none is; the early exit on an exact fit changes nothing. |
| Slob.SlobAllocator.FindOrGrow | src/kernel/runtime/slob.cc:37-47 | The search, and its second try on a new page, which always succeeds there. |
| SlobPages.NeedIsLeast | src/kernel/runtime/slob.cc:30-35 | The size of a block for a request is the least multiple of 8, from 32 on, that holds the bytes and the 16-byte header. |
| SlobPages.PlaceCuts | src/kernel/runtime/slob.cc:49-51 | What is cut off a block, and when: a free block of all the bytes left, if these are more than 32. |
| Slob.RoomIs | src/kernel/runtime/slob.cc:37-47 | A request that fits is placed in the pages there are; only one that does not gets a new page, at its start. |
| Slob.SlobAllocator.Alloc | src/kernel/runtime/slob.cc:25-71 | Null if and only if the size is 0 or above 512, or nothing fits and no page can be had. Otherwise the best fit of the pages there are, or the start of a new page if nothing fits, is cut: with more than 32 bytes to spare the block has exactly the least size that holds the request and the rest stays one free block, else all of it is handed out; it is marked, its address is 8-byte aligned, no other page changes, and every page keeps its shape, lists, free size and the byte counter. |
| Slob.SlobAllocator.Free | src/kernel/runtime/slob.cc:73-113 | Takes back a block in use: merges its page, gives the page up exactly when it is one free block and not the last page, rejects null and unmarked headers unchanged, leaves the header unmarked so that a second free is rejected. |
| Slob.SlobAllocator.AllocPage | src/kernel/runtime/slob.cc:115-145 | A new page of one free block in front of the page list, or nothing. |
| Slob.SlobAllocator.FreePage | src/kernel/runtime/slob.cc:147-164 | Unlinks a page without blocks in use from any place of the page list. |
| Slob.SlobAllocator.FindPage | src/kernel/runtime/slob.cc:53-60 | The page whose 4096 bytes hold an address. |
| Slob.SlobAllocator.SplitBlock | src/kernel/runtime/slob.cc:186-202 | Two free blocks in place of one, linked into the free list, or nothing when the block is too small. |
| Slob.SlobAllocator.MarkBlock | src/kernel/runtime/slob.cc:62-68 | Unlinks, marks and counts the block that is handed out. |
| Slob.SlobAllocator.RemoveFreeBlock | src/kernel/runtime/slob.cc:257-273 | The exact header and list-head writes of an unlink. |
| Slob.SlobAllocator.AddFreeBlock | src/kernel/runtime/slob.cc:224-255 | The walk finds the place in address order, and the writes link the block there. |
| Slob.SlobAllocator.GiveBlock | src/kernel/runtime/slob.cc:92-97 | Unmarks the block, counts it and puts it on the free list in address order. |
| Slob.SlobAllocator.JoinOnce | src/kernel/runtime/slob.cc:211-218 | A free block swallows the free block that touches it. |
| Slob.SlobAllocator.MergeFreeBlocks | src/kernel/runtime/slob.cc:204-222 | The loop over the free list computes the merge of the page. |
| Slob.SlobAllocator.Defragment | src/kernel/runtime/slob.cc:275-286 | Leaves every page as it is. |
| SlobHeaders.Unlinked | src/kernel/runtime/slob.cc:257-273 | Unlinking one cell leaves a list of the others, forth and back, and touches no other header. |
| SlobHeaders.Inserted | src/kernel/runtime/slob.cc:224-255 | Linking a cell between its neighbours gives the longer list. |
| SlobHeaders.SplitInTwo | src/kernel/runtime/slob.cc:186-202 | The split writes turn one cell of the list into two. |
| SlobHeaders.Joined | src/kernel/runtime/slob.cc:211-218 | The join writes turn two cells of the list into one. |
| SlubMoves.EverythingOnce | src/kernel/runtime/slub.cc:120-219 | Object conservation: each object slot of each page is on exactly one page free list, CPU batch, CPU list or with one caller, never in two places. |
| SlubMoves.ActiveIsHeld | src/kernel/runtime/slub.cc:285-390 | The objects in use by the counts of the pages are those that callers and CPU caches hold. |
| Slub.HeldApart | src/kernel/runtime/slub.cc:285-313 | Two objects that callers hold do not overlap. |
| SlubMoves.PoppedSound | src/kernel/runtime/slub.cc:300-313 | Taking a page object keeps the conservation law, also when the page becomes full. |
| SlubMoves.PushedFullSound | src/kernel/runtime/slub.cc:315-321 | Giving an object back to a full page keeps it, and the page becomes partial. |
| SlubMoves.PushedPartialSound | src/kernel/runtime/slub.cc:315-321 | So does giving it back to a partial page. |
| SlubMoves.AddedSound | src/kernel/runtime/slub.cc:256-283 | A new page adds its objects, all free. |
| SlubMoves.DroppedSound | src/kernel/runtime/slub.cc:477-483 | A page with no object in use takes only free objects with it. |
| SlubMoves.BatchInSound | src/kernel/runtime/slub.cc:350-359 | An object moves into a batch of at most 16. |
| SlubMoves.BatchOutSound | src/kernel/runtime/slub.cc:329-332 | An object moves out of a batch. |
| SlubMoves.ListInSound | src/kernel/runtime/slub.cc:361-364 | An object moves onto the list of a CPU. |
| SlubMoves.ListOutSound | src/kernel/runtime/slub.cc:334-338 | An object moves off the list of a CPU. |
| ObjectPages.NewPageIsFilled | src/kernel/runtime/slub.cc:285-298 | A new page has as many objects as fit into its bytes, one behind the other from its start, the last one first on its free list. |
| Slub.CalculateOrder | src/kernel/runtime/slub.cc:392-406 | The smallest order whose page of 4096 * 2^order bytes holds 16 objects, or 3. |
| Slub.RoomForOneIff | src/kernel/runtime/slub.cc:392-411 | With that order a page has room for an object if and only if the size is at most 32768. |
| Slub.SlubCache.constructor | src/kernel/runtime/slub.cc:38-85 | A new cache: no pages, empty batches and lists, counters zero. |
| Slub.SlubCache.CacheAlloc | src/kernel/runtime/slub.cc:120-162 | Hands out an object nobody held: what the CPU freed last, else the first of its list, else one of 8 page objects that refill its batch, or of as many as there were until the request for a further page failed; without CPU caches the first free object of the first partial page, and of a new page only if there is none. Null if and only if all are empty and the page allocator refuses; partial pages keep a free object, full ones have none, a page without objects in use is the only page, `active_objects` is the sum of `inuse`, `allocations - frees` is what callers hold, batches stay within 16, other CPUs are not touched. |
| Slub.FreedComesBackIff | src/kernel/runtime/slub.cc:323-364 | The next allocation on a CPU gives back the object freed there last, with the cache as it was before the free, if and only if the batch had room for it. |
| Slub.RefilledFills | src/kernel/runtime/slub.cc:366-390 | A refill adds the objects asked for, or uses up the free objects of all pages until the request for a further page fails. |
| Slub.AllocLean | src/kernel/runtime/slub.cc:120-162 | Allocations keep: a page without an object in use is the only page. |
| Slub.ReturnedLean | src/kernel/runtime/slub.cc:188-218 | So does giving an object back to its page, and a page is left. |
| Slub.SlubCache.CacheFree | src/kernel/runtime/slub.cc:164-219 | Takes back an object a caller holds, to the end of the CPU's batch below 16, else to the front of its list, or to its page, with the same invariants; CPUs from 32 on count as CPU 0, and the last page is never given up; an unmarked address is rejected unchanged. |
| Slub.SlubCache.PageFree | src/kernel/runtime/slub.cc:188-218 | The object goes back to the page it belongs to; that page changes lists if it was full and is given up when it has no object in use and is not the only page. |
| Slub.SlubCache.FindOwner | src/kernel/runtime/slub.cc:188-205 | The search by address range finds the page the object is a slot of. |
| Slub.SlubCache.PageAlloc | src/kernel/runtime/slub.cc:137-155 | An object of the first partial page, or of a new page; null if and only if there is neither. |
| Slub.SlubCache.TakeObject | src/kernel/runtime/slub.cc:300-313 | The writes of taking the first free object, and the move of the page with its last one. |
| Slub.SlubCache.InitPageObjects | src/kernel/runtime/slub.cc:285-298 | The loop links all objects of a page, the last one first, and writes nowhere else. |
| Slub.SlubCache.AllocSlubPage | src/kernel/runtime/slub.cc:256-283 | A new partial page, or nothing when either of its two requests fails. |
| Slub.SlubCache.FreeToPage | src/kernel/runtime/slub.cc:315-321 | The exact writes of putting an object on a page's free list. |
| Slub.SlubCache.GiveToPartial | src/kernel/runtime/slub.cc:206-209 | Frees to a page of the partial list. |
| Slub.SlubCache.GiveToFull | src/kernel/runtime/slub.cc:206-213 | Frees to a page of the full list, which moves to the front of the partial one. |
| Slub.SlubCache.DropPage | src/kernel/runtime/slub.cc:215-218 | Unlinks and gives up a page without objects in use. |
| Slub.SlubCache.RemovePage | src/kernel/runtime/slub.cc:461-475 | Unlinks a page from any place of a singly linked list. |
| Slub.SlubCache.TakeFromBatch | src/kernel/runtime/slub.cc:329-332 | The last object of a batch. |
| Slub.SlubCache.RefillOne | src/kernel/runtime/slub.cc:372-389 | One round of a refill adds one page object to the batch, or finds none if and only if there is no partial page and no new one; the rounds left then lead to the same state as all of them would have. |
| Slub.SlubCache.RefillCpuCache | src/kernel/runtime/slub.cc:366-390 | The state is that of up to 8 such rounds, one after the other; the batch stays empty if and only if there is no partial page and no new one. |
| Slub.SlubCache.CpuCacheAlloc | src/kernel/runtime/slub.cc:323-348 | The last object of the batch; if there is none the first of the list; if there is none the last of a refilled batch; other CPUs are not touched. |
| Slub.SlubCache.CpuCacheFree | src/kernel/runtime/slub.cc:350-364 | Batch while it has fewer than 16 objects, then list. |
| SlubMemory.PopStored | src/kernel/runtime/slub.cc:300-313 | The object writes of `alloc_from_page` keep all free lists, CPU lists and marks in memory. |
| SlubMemory.PushPartialStored | src/kernel/runtime/slub.cc:315-321 | So do those of `free_to_page`. |
| SlubMemory.ListInStored | src/kernel/runtime/slub.cc:361-364 | So do those of the CPU list. |
| SlubMemory.NewPageStored | src/kernel/runtime/slub.cc:285-298 | A new page disturbs no list of another page. |
| SlabLists.DisciplineIff | src/kernel/runtime/slab.cc:124-296 | Over all runs of alloc, legal free and reap, full slabs have no free object, partial slabs some but not all, empty slabs all, if and only if a slab has at least two objects. |
| SlabLists.RunKeepsDiscipline | src/kernel/runtime/slab.cc:124-351 | With two objects or more every run also keeps each slab on exactly one list, in memory of its own, with free objects of its own. |
| SlabLists.OneObjectBreaksIt | src/kernel/runtime/slab.cc:201-208 | With one object per slab, alloc then free leaves a slab with all objects free on the partial list. |
| SlabLists.NoObjectBreaksIt | src/kernel/runtime/slab.cc:139-151 | With none, a new slab stays on the partial list and is never used. |
| SlabLists.TwoObjectsIff | src/kernel/runtime/slab.cc:65-72 | `cache_create` always uses 4096 bytes per slab, so there are two objects if and only if the object size is at most 2048. |
| SlabLists.AllocHolds | src/kernel/runtime/slab.cc:124-162 | An allocation adds to what callers hold one object that nobody held; it fails if and only if no slab has a free object and a new one is refused. |
| SlabLists.FreeHolds | src/kernel/runtime/slab.cc:164-209 | A free takes exactly that object from what callers hold. |
| SlabLists.ReapHolds | src/kernel/runtime/slab.cc:338-351 | Reaping changes nothing that callers hold. |
| SlabLists.ReapKeeps | src/kernel/runtime/slab.cc:338-351 | Reaping keeps the discipline and the full and partial slabs, and ends with no empty slab or with one slab in all. |
| SlabLists.ActiveIsHeld | src/kernel/runtime/slab.cc:145-146 | The number of active objects, summed over the slabs, is the number of objects that callers hold. |
| SlabLists.FindIsOwner | src/kernel/runtime/slab.cc:167-191 | The search by address finds the slab an object belongs to. |
| Slab.SlabCache.constructor | src/kernel/runtime/slab.cc:51-86 | A new cache for objects of at most 2048 bytes. |
| SlabLists.AllocIsPartialFirst | src/kernel/runtime/slab.cc:124-162 | The object is the first free one of the first partial slab, else of the first empty slab, else the last one of a new slab; the slab goes to the front of the full list if it has no other. |
| Slab.SlabCache.CacheAlloc | src/kernel/runtime/slab.cc:124-162 | With links, heads, counters and the free objects linked and marked in memory: the allocation on the lists, from the first partial slab, only without one from the first empty one, and only without either from a new slab; all three lists stay doubly linked, `num_active_objs`, `num_free_objs` and `num_slabs` are the sums over them. |
| Slab.SlabCache.CacheFree | src/kernel/runtime/slab.cc:164-209 | The free on the lists, for a held object; an address in no slab is ignored. |
| SlabLists.ReapedAre | src/kernel/runtime/slab.cc:338-351 | Which empty slabs are left by the reap: none, or the last one if the cache has no other slab. |
| Slab.SlabCache.CacheReap | src/kernel/runtime/slab.cc:338-351 | Empty slabs are taken from the front of their list, all of them if the cache has other slabs and else all but one; full and partial slabs stay. |
| Slab.SlabCache.MoveSlab | src/kernel/runtime/slab.cc:279-296 | Moves a slab from any place of one doubly linked list to the front of another, and touches no other struct. |
| Slab.SlabCache.SlabCreate | src/kernel/runtime/slab.cc:211-244 | A struct and its objects, each linked to the one before and marked, the last one first, with no write outside the memory of the slab; or nothing when a request fails. |
| Slab.SlabCache.MakeReady | src/kernel/runtime/slab.cc:127-143 | Brings a slab with a free object to the front of the partial list. |
| Slab.SlabCache.TakeObject | src/kernel/runtime/slab.cc:145-155 | Takes an object and moves the slab to the full list with its last one; the test of its mark never fails. |
| Slab.SlabCache.PopObject | src/kernel/runtime/slab.cc:255-268 | The first free object of the slab, whose link becomes the head of the free list. |
| Slab.SlabCache.FindSlab | src/kernel/runtime/slab.cc:167-191 | The loop over one list is the search by address. |
| Slab.SlabCache.PushObject | src/kernel/runtime/slab.cc:270-277 | Links and marks an object in front of the free list of a slab at any place of a list. |
| SlabObjects.FreeThreads | src/kernel/runtime/slab.cc:270-277 | The writes into a freed object leave the free objects of all slabs linked and marked. |
| SlabObjects.CreatedThreaded | src/kernel/runtime/slab.cc:233-239 | So do the writes into the objects of a new slab. |
| SlabObjects.TakenThreaded | src/kernel/runtime/slab.cc:255-268 | The first free object links to the second and carries the mark. |
| Slab.SlabCache.FreeToFull | src/kernel/runtime/slab.cc:195-205 | A full slab moves to the partial list. |
| Slab.SlabCache.FreeToPartial | src/kernel/runtime/slab.cc:195-208 | A partial slab moves to the empty list when its last object comes back. |
| Slab.SlabCache.DestroyFirst | src/kernel/runtime/slab.cc:341-348 | The first empty slab is unlinked and its free objects are uncounted. |
| BlockDevice.BlockDevice.Read | src/kernel/core/block_device.cc:15-95 | Copies exactly bytes [pos, pos + size) of the flattened device and touches nothing else of the buffer, or stops with a correct prefix; it succeeds if and only if the range is on the device and no transfer fails, whichever staging buffer is used. |
| BlockDevice.BlockDevice.Write | src/kernel/core/block_device.cc:97-195 | Changes exactly bytes [pos, pos + done) of the flattened device to the buffer's, with the rest of the first and last block kept; it is complete if and only if the range is on the device and no transfer fails. |
| BlockDevice.BlockDevice.ReadRange | src/kernel/core/block_device.cc:20-95 | The transfer with a given staging buffer: end of a first block, whole blocks straight into the caller's buffer, start of a last block. |
| BlockDevice.BlockDevice.ReadPart | src/kernel/core/block_device.cc:67-75 | Part of a block, read into the staging buffer and copied from there, extends what the caller's buffer holds of the device; the old contents of the staging buffer do not show. |
| BlockDevice.BlockDevice.WriteRange | src/kernel/core/block_device.cc:102-195 | The transfer with its read-modify-write edges, through a given staging buffer. |
| BlockDevice.BlockDevice.WriteThenRead | src/kernel/core/block_device.cc:15-195 | A write followed by a read gives the written bytes where the two ranges overlap and the old ones elsewhere, and the whole buffer back for the same range; both succeed if and only if both ranges are on the device and nothing fails. |
| FlatBytes.PatchInBlock | src/kernel/core/block_device.cc:105-125 | Patching one block is patching the flat bytes at its position. |
| Ext2.Ext2Mount.GetBlock | src/kernel/core/ext2.cc:107-134 | The block number behind an index: the inode's entry below 12, else the number whose four bytes, lowest first, the device holds for it in the single-indirect block; failure means that this number is 0 or there is none, unless a transfer or the heap failed. |
| Ext2.Ext2Mount.ReadFileData | src/kernel/core/ext2.cc:137-177 | Returns the bytes of the flat file from the offset on, clamped to the file, or the correct prefix up to the first unmapped block, each as the device holds it at its place in its block; what is behind the result in the buffer is not touched. |
| Ext2.Ext2Mount.ReadBlocks | src/kernel/core/ext2.cc:147-173 | The loop over the blocks of the range. |
| FileView.ReadIsDetermined | src/kernel/core/ext2.cc:137-177 | There is only one result a read may give. |
| FileView.MappedRangeIsRead | src/kernel/core/ext2.cc:137-177 | With every block of the range mapped, all of the range is read. |
| FileView.ReadsConcatenate | src/kernel/core/ext2.cc:147-173 | Reads of two adjacent ranges give the read of the whole range. |
| FileView.CallsConcatenate | src/kernel/core/ext2.cc:137-177 | Two adjacent calls with their clamps, the first of which delivers all it was asked for, deliver what one call for both does, if and only if the second does not start at the end of the file with a sum that wraps (or one of them asks for nothing). |
| FileView.BlockNumberIs | src/kernel/core/ext2.cc:107-134 | The number of block i is entry i of the inode for i below 12, the four bytes, lowest first, of entry i - 12 of the block behind inode entry 12, or 0. |
| FileView.ByteIsOnDevice | src/kernel/core/ext2.cc:149-170 | The byte of the flat file at j is the byte j % block size of the device block with the number of block j / block size, and there is none where that number is 0 or off the device. |
| FileView.ClampIsExactIff | src/kernel/core/ext2.cc:144-145 | The range is cut at the end of the file if and only if offset + size does not wrap in 32 bits; if it wraps, it is not cut at all. |
| FileView.LargestReadIsNotCut | src/kernel/core/ext2.cc:144-145 | Size 0xFFFFFFFF at byte 1 of a file of 100 bytes is not cut. |
| FileView.DiskBlockIsBlock | src/kernel/core/ext2.cc:160 | What is read as block n is the block whose number is n modulo 2^32 divided by the block size; this is block n if and only if its byte position does not wrap. |
| Scheduling.RunsStarveNobody | src/kernel/arch/x86/architecture.cc:477-518 | In every state that a run of added processes and ticks leads to, each process becomes current at exactly one tick, not before: the rest of this quantum and one quantum for each process in between, in rings of any size. |
| Scheduling.TurnIff | src/kernel/core/process.cc:224-259 | The exact condition in any ring and state: a ready process becomes current within that time if no 100 processes in a row between the current one and it are unable to run, and otherwise never. |
| Scheduling.ReadyProcessGetsItsTurn | src/kernel/arch/x86/architecture.cc:477-518 | Bounded waiting: without such a gap a ready process becomes current within one quantum per place, whatever the times of the ticks. |
| Scheduling.GapStarves | src/kernel/core/process.cc:228-240 | Behind such a gap a process never becomes current. |
| Scheduling.PlayKeepsAllReady | src/kernel/arch/x86/architecture.cc:80-117 | Runs of added processes and ticks keep every process but the current one ready. |
| Scheduling.NoStarvationIff | src/kernel/core/process.cc:224-259 | If processes may have been put to sleep from outside: each ready process in every ring of n becomes current within (n - 1) quanta if and only if n is at most 101. |
| Scheduling.SmallRingBound | src/kernel/core/process.cc:224-259 | In a ring of at most 101 processes there is no room for a gap, and the wait is at most (n - 1) quanta. |
| Scheduling.TickKeepsOneRunning | src/kernel/arch/x86/architecture.cc:477-518 | A tick keeps exactly one process running, the current one, and wakes or puts to sleep nobody. |
| Scheduling.EnqueueKeepsOneRunning | src/kernel/arch/x86/architecture.cc:80-117 | So does adding a process. |
| Scheduling.CpuTimeIsConserved | src/kernel/core/process.cc:247-258 | Over every run of added processes and ticks, all run times plus the current process's time since it was scheduled equal the time since the first process was enqueued. |
| Scheduling.TickConserves | src/kernel/core/process.cc:247-258 | One tick keeps that sum. |
| Scheduling.AddConserves | src/kernel/arch/x86/architecture.cc:167-188 | Adding a process keeps that sum. |
| Scheduling.AddIsLast | src/kernel/arch/x86/architecture.cc:80-117 | An added process becomes the last one with its run time and the others stay; the first one runs at once with a new quantum, start time and no slices, any other waits ready without a change to the current one or the quantum. |
| Scheduling.TickAccounts | src/kernel/core/process.cc:247-258 | A tick that switches charges the process that ran for exactly the time since it was scheduled, and gives the next one a new start time and one more slice; nothing else is accounted. |
| Scheduling.ForcedSwitchLosesTime | src/kernel/arch/x86/architecture.cc:100-112 | Enqueueing with `make_current` while another process runs would lose exactly that process's unaccounted time; `addProcess` does so only for an empty ring. |
| Scheduling.PickIsNearest | src/kernel/core/process.cc:230-240 | The search never passes a runnable process within reach. |
| Architecture.Architecture.ConfigureScheduler | src/kernel/arch/x86/architecture.cc:62-78 | The quantum is 20 ms in whole ticks of the frequency, or of 100 Hz for 0, with the product on 32 bits, and at least one tick. |
| Architecture.Architecture.LinkLast | src/kernel/arch/x86/architecture.cc:87-98 | The new process becomes the tail of the ring, which leads back to the head. |
| Architecture.Architecture.Enqueue | src/kernel/arch/x86/architecture.cc:80-117 | The linked ring with head, tail and current pointer refines the enqueue on ring states; the ring visits each process once. |
| Architecture.Architecture.MakeCurrent | src/kernel/arch/x86/architecture.cc:100-112 | The new process runs from now on with a fresh quantum, and a running predecessor becomes ready; nobody else is touched. |
| Architecture.Architecture.EnsureIdle | src/kernel/arch/x86/architecture.cc:119-165 | The idle process is added once, ready. |
| Architecture.Architecture.AddProcess | src/kernel/arch/x86/architecture.cc:167-188 | `addProcess` refines the add on ring states. |
| Architecture.Architecture.FindNext | src/kernel/core/process.cc:226-240 | The walk along the ring picks the process that the search on ring states picks. |
| Architecture.Architecture.Schedule | src/kernel/core/process.cc:224-259 | `Process::schedule` refines the switch on ring states, with its accounting. |
| Architecture.Architecture.HandleTimerInterrupt | src/kernel/arch/x86/architecture.cc:477-518 | A timer interrupt refines the tick on ring states. |
| Architecture.Architecture.FindPrevious | src/kernel/arch/x86/architecture.cc:268-300 | The process before the target in the ring, null if it is not in the ring. |
| Architecture.Architecture.RemoveProcess | src/kernel/arch/x86/architecture.cc:302-347 | The rest of the ring keeps its order, head and tail follow, and the current process moves on only if it is the one removed. |
| PageTables.RunsRefineFlatMap | src/kernel/arch/x86/vmm.cc:136-201 | Over every run of map and unmap calls, two-level tables behave as a flat map from pages to entries: only the last call for a page counts for it. |
| PageTables.MapRefines | src/kernel/arch/x86/vmm.cc:167-179 | `map_page` changes the translation of one page and of no other, a new page table included. |
| PageTables.UnmapRefines | src/kernel/arch/x86/vmm.cc:181-191 | `unmap_page` removes the translation of one page and of no other. |
| PageTables.UnmapUndoesMap | src/kernel/arch/x86/vmm.cc:167-191 | Unmapping what was mapped leaves all other translations as they were. |
| PageTables.MapThenTranslate | src/kernel/arch/x86/vmm.cc:193-201 | After a successful map with the present bit, every address of the page translates to the frame base plus its offset in the page. |
| PageTables.FieldsRecombine | src/kernel/arch/x86/x86.h:34-36 | The directory, table and page fields of an address share no bit and recombine to the address. |
| PageTables.SlotIsPage | src/kernel/arch/x86/x86.h:34-36 | Two addresses use the same table slot if and only if they are in the same page. |
| PageTables.BlankIsAbsent | src/kernel/arch/x86/vmm.cc:151-156 | A new table of blank entries changes no translation. |
| PageTables.SetUses | src/kernel/arch/x86/vmm.cc:100-111 | Taking a frame marks that frame and no other. |
| PageTables.ClearFrees | src/kernel/arch/x86/vmm.cc:125-134 | Freeing a frame clears that frame and no other. |
| PageTables.ClearUndoesSet | src/kernel/arch/x86/vmm.cc:144-149 | Freeing the frame that was just taken restores the bitmap. |
| PageTables.LowFramesStay | src/kernel/arch/x86/vmm.cc:43-45 | While the frames below 1 MB stay in use, a frame that is handed out is never frame 0, which would read as a failure. |
| FrameRuns.ZeroIsFreeIff | src/kernel/arch/x86/vmm.cc:96-201 | Over every run of `map_page`, `unmap_page`, `alloc_frame` and `free_frame` from a state with frame 0 in use: frame 0 is the lowest free frame if and only if a call freed it (unmapped a page that was mapped to it) and none since then asked for a frame. |
| FrameRuns.StepFrees | src/kernel/arch/x86/vmm.cc:125-134 | A frame in use stays in use but for the calls that free it. |
| FrameRuns.FramesAreAboveOneMegabyte | src/kernel/arch/x86/vmm.cc:39-45 | From the bitmap of `init` on, in every run that frees no frame below 1 MB, the frames handed out are at 1 MB or above, and `alloc_frame` returns 0 if and only if every frame is in use. |
| Vmm.PageDirectory.constructor | src/kernel/arch/x86/vmm.cc:77-94 | A new directory maps nothing. |
| Vmm.InitBitmap | src/kernel/arch/x86/vmm.cc:39-45 | The frames below 1 MB are in use, all others free. |
| Vmm.VirtualMemory.constructor | src/kernel/arch/x86/vmm.cc:36-48 | `frames_used` is the number of bits set. |
| Vmm.VirtualMemory.AllocFrame | src/kernel/arch/x86/vmm.cc:96-123 | Takes the lowest frame not in use; 0 if every frame is in use, and also if the lowest free frame is frame 0, which is then lost; keeps `frames_used` exact. |
| Vmm.VirtualMemory.FreeFrame | src/kernel/arch/x86/vmm.cc:125-134 | Clears exactly that frame's bit; `frames_used` stays exact if and only if the frame was in use. |
| Vmm.VirtualMemory.GetPageTable | src/kernel/arch/x86/vmm.cc:136-165 | Finds the table, or makes it in the lowest free frame and changes one directory entry; fails if and only if it is not to be made or memory for it or a frame other than 0 is missing, and then no table and no translation changes and a frame it took is given back (except frame 0). |
| Vmm.VirtualMemory.CreateTable | src/kernel/arch/x86/vmm.cc:144-161 | The loop fills the new table with absent entries; one directory entry changes. |
| Vmm.VirtualMemory.WriteEntry | src/kernel/arch/x86/vmm.cc:173-176 | The four field writes replace one entry of one table. |
| Vmm.MappedReads | src/kernel/arch/x86/vmm.cc:167-179 | What the two-level tables say of every address once the entry is written: frame base plus offset, rights as in the flags, and nothing else changed. |
| Vmm.VirtualMemory.MapPage | src/kernel/arch/x86/vmm.cc:167-179 | -1 if and only if a table is needed and cannot be made, with every translation unchanged; otherwise 0, and every address of the page, if the flags say present, is at its offset in the frame of the physical address, writable and for users as the flags say, and not mapped if they do not; all other pages are as before; a frame is taken exactly when a table is made; one step of the runs of `FrameRuns`. |
| Vmm.VirtualMemory.UnmapPage | src/kernel/arch/x86/vmm.cc:181-191 | Frees the frame of a present page and removes its translation; otherwise nothing changes. |
| Vmm.VirtualMemory.GetPhysicalAddr | src/kernel/arch/x86/vmm.cc:193-201 | The translation of the tables, 0 for a page that is not present. |
| StackFrames.AllocIsIdealIff | src/kernel/runtime/stack.cc:69-105 | For all 32-bit sizes and alignments: the allocation with the source's masks, sums and products on 32 bits has the outcome it has on numbers without a bound, if and only if none of its three checks passes on 32 bits only because a sum or product wrapped. |
| StackFrames.MisledIff | src/kernel/runtime/stack.cc:78-89 | The same for powers of two in closed form: the rounded size wraps and the position is inside the frame or wraps too; or the position wraps and the size ends inside the frame; or their sum wraps; or, with memory at hand, the doubled size or its sum with the capacity wraps to something within 1 MB. The check in the new frame never fails to tell. |
| StackFrames.IdealKeeps | src/kernel/runtime/stack.cc:69-105 | The outcome on unbounded numbers keeps all live regions aligned, in bounds and apart, and the capacity within 1 MB. |
| Stack.PowersAreServed | src/kernel/runtime/stack.cc:69-105 | On unbounded numbers, with a power of two: null comes back if and only if the size is 0 or the request does not fit and no frame can be added, and then nothing changes; otherwise a multiple of the alignment with `size` bytes behind it. |
| StackFrames.SmallRequestsAreIdeal | src/kernel/runtime/stack.cc:69-105 | Sizes and alignments of up to 1 MB never mislead a check, unless a frame lies in the last megabytes of the address space. |
| StackFrames.WrappedSizeHasNoBytes | src/kernel/runtime/stack.cc:80-81 | A size that wraps when it is rounded: the caller gets a pointer and no bytes, if the frame has an aligned position left. |
| StackFrames.LargestSizeHasNoBytes | src/kernel/runtime/stack.cc:80-81 | Size 0xFFFFFFFF, alignment 16, in a fresh frame: the start of the frame is handed out and nothing is taken. |
| StackFrames.HalfSpaceOnlyGrows | src/kernel/runtime/stack.cc:82-89 | Size 0x80000000, alignment 16: the doubled size wraps to 0, a frame is added, the second check fails, and null is returned. |
| StackFrames.LiveRegionsApart | src/kernel/runtime/stack.cc:69-105 | Live regions, in one frame or in two, never overlap. |
| StackFrames.RegionInFrame | src/kernel/runtime/stack.cc:69-105 | Every live region lies inside its frame, with no low bit of its alignment set; a multiple of it for a power of two. |
| StackFrames.AtMostEightFrames | src/kernel/runtime/stack.cc:296-321 | Frames that at least double from 4096 bytes within 1 MB are at most eight. |
| StackFrames.GrownFrameFits | src/kernel/runtime/stack.cc:82-88 | On unbounded numbers, a frame that `grow` makes for a request with a power of two has room for it wherever its memory lies. |
| Words.MaskIsRounding | src/kernel/runtime/stack.cc:430-437 | `(x + a - 1) & ~(a - 1)` on 32 bits is the rounded number modulo 2^32, for every alignment; the sum does not wrap if the rounded number has 32 bits. |
| Words.RoundIs | src/kernel/runtime/stack.cc:430-437 | Rounding to a power of two gives the next multiple: not below, less than one alignment away. |
| Words.RoundsToMultiplesIff | src/kernel/runtime/stack.cc:430-437 | Masking rounds every number to a multiple of the alignment if and only if that is a power of two; any other alignment already fails on itself. |
| Words.AndIsBitwise | src/kernel/runtime/stack.cc:108 | Bit k of the and of two numbers is set if and only if it is set in both. |
| Words.PowerTest | src/kernel/runtime/stack.cc:108 | `a & (a - 1)` is 0 if and only if a is a power of two. |
| Stack.StackAllocator.Init | src/kernel/runtime/stack.cc:15-41 | One frame of the size asked for, at least 4096 bytes and at most 1 MB, empty from 32 bytes behind its address on, or nothing; a second call changes nothing. |
| Stack.StackAllocator.Alloc | src/kernel/runtime/stack.cc:69-105 | For all sizes and alignments: frames, links, counters and the result are those of the allocation on 32 bits; unless a check is misled, they are the ideal ones, and the capacity is the sum of frame sizes and at most 1 MB. |
| StackFrames.IdealIsNextPlace | src/kernel/runtime/stack.cc:69-105 | For powers of two: the pointer is the next multiple of the alignment, the bytes taken are the least multiple from the size on, older regions and frames stay, and a frame is added only if no aligned position of the last one has room. |
| Stack.StackAllocator.AllocAligned | src/kernel/runtime/stack.cc:107-112 | The same with alignment 16 in place of one that is not a power of two; unless a check is misled, null if and only if the size is 0 or there is no room, and otherwise the next aligned position of the last frame with the least multiple of the alignment that holds `size` bytes, or of a new frame, twice as large, when no aligned position of the last one has room. |
| Stack.StackAllocator.Grow | src/kernel/runtime/stack.cc:296-321 | A frame that is as large as asked for and at least twice the current size, and as large as one of the two, is added empty behind the others if and only if the capacity check, which may wrap, and the heap allow it; all is well if and only if the true capacity stays within 1 MB. |
| Stack.StackAllocator.LinkFrame | src/kernel/runtime/stack.cc:394-409 | The exact writes of linking a new frame behind the current one. |
| Stack.StackAllocator.Reset | src/kernel/runtime/stack.cc:134-148 | The current frame is empty from its start on; its address and size and the other frames stay. |
| Stack.OnlyEmptyOnesGo | src/kernel/runtime/stack.cc:323-342 | What stays is the beginning of the frames; all that went are filled up to no more than their start; and no more could go. |
| Stack.NoByteIsLost | src/kernel/runtime/stack.cc:323-342 | Live regions of the frames that go have size 0. |
| Stack.StackAllocator.ShrinkToFit | src/kernel/runtime/stack.cc:323-342 | The frames kept are the first ones as they were, at least one; every frame released was empty, so that no live region with a byte is lost; the last frame left is in use or the only one. |
| LongDivision.UDivDi3 | src/kernel/runtime/divdi3.cc:4-20 | For every 64-bit n and d the loop returns the quotient; 0 for d = 0. |
| LongDivision.UModDi3 | src/kernel/runtime/divdi3.cc:22-36 | The loop returns a remainder below d that differs from n by a multiple of d; 0 for d = 0. |
| LongDivision.ShiftIsExact | src/kernel/runtime/divdi3.cc:11 | The remainder never loses a bit when it is shifted left, even for divisors above 2^63. |
| LongDivision.QuotientAndRemainderAreUnique | src/kernel/runtime/divdi3.cc:4-36 | The two results are the one quotient and the one remainder. |
| Shell.ParseCommand | src/kernel/core/shell.cc:159-192 | For every command line under 512 characters the in-place rewriting ends, and the pointers in `args` read back exactly the tokens, although deleting quotes shifts the buffer under live pointers; the null is written behind an array of 32 if and only if text is left after 31 complete tokens. |
| Tokens.ParseIsSplitIff | src/kernel/core/shell.cc:167-191 | The tokens are those of "drop quotes, split at unquoted blanks, discard empty tokens" if and only if what is left after the 31st complete token has neither quotes nor blanks; with at most 30 tokens always. |
| Tokens.ArgsFitIff | src/kernel/core/shell.cc:186-190 | The pointers and the null after them fit in 32 entries if and only if nothing is left after 31 complete tokens. |
| Tokens.TypedTokensAreRead | src/kernel/core/shell.cc:159-192 | Round trip: up to 30 tokens, each typed bare or in quotes, with spaces and tabs in front and between, are read back; a quoted one may hold spaces and tabs. |
| Tokens.ThirtyThreeTokens | src/kernel/core/shell.cc:167-190 | 31 tokens followed by `b c`: 33 tokens, read as 32, which fill the array. |
| Shell.DeleteAt | src/kernel/core/shell.cc:170-172 | The inner loop deletes one character of the string and moves its NUL. |
| Shell.EndToken | src/kernel/core/shell.cc:175-178 | A pointer to the token is kept unless the token is empty. |

## Left out

- Buddy.BuddyAllocator.Alloc: "the caller gets `size` usable bytes" is not claimed; `get_order` ignores the 20-byte header and caps at MAX_ORDER (buddy.cc:50-60, 92).
- Buddy.BuddyAllocator.constructor: zones whose tail would be read are excluded, since the header found there is not the allocator's; `TailIsNeverRead` says which zones these are.
- Buddy.BuddyAllocator.Free: pointers whose header says "in use" must be those of live blocks; a client that writes a header of its own into its block is not modelled.
- Buddy.BuddyAllocator.FreeOrder: the order given is the block's own; the source takes any and does not compare it with the header.
- BlockDevice.BlockDevice.constructor: a device has fewer than 2^32 blocks, as its block numbers have 32 bits.
- BlockDevice.BlockDevice.Read: the two copies of the transfer in the source, one for each staging buffer, are one method that takes the buffer; the same for BlockDevice.BlockDevice.Write.
- Ext2.Ext2Mount.ReadFileData: double and triple indirect blocks are unmapped, as in the code.
- Scheduling.CpuTimeIsConserved: runs add processes and take timer interrupts; forced switches from outside, exit and zombies are excluded, because ZOMBIE and RUNNING share the value 1.
- Slub.SlubCache.CacheFree: the object is one a caller holds, or its mark is gone; `drain_cpu_cache`, `flush_cpu_caches` and `cache_destroy` are left out, since draining puts the object back into the cache.
- Slub.SlubCache.constructor: the object size as rounded by `cache_create`; needs room for one object per page, which `RoomForOneIff` shows to be exactly sizes up to 32768; hit and miss counters, constructor and destructor callbacks are left out.
- Slab.SlabCache.constructor: the object size as rounded by `cache_create`, up to 2048, where the discipline holds; what happens above is in `DisciplineIff`.
- Slab.SlabCache.CacheFree: an object of a full or partial slab is one that a caller holds; freeing one twice is not modelled.
- Slab.SlabCache.CacheAlloc: the mark in the slab struct itself, its order and constructor and destructor callbacks are left out.
- Slob.SlobAllocator.Free: the `fragmentation` counter and `total_free` are left out; whether `should_defragment` says yes is a parameter.
- Stack.StackAllocator.Alloc: statistics, canaries and checkpoints across frames are left out; the memory that kmalloc gives lies inside the address space, and nothing is claimed about calls after one whose check was misled.
- Vmm.VirtualMemory.AllocFrame: reclaiming memory under pressure; the method gives up when every frame is in use. A word of the frame bitmap is the set of its one bits.
- Vmm.VirtualMemory.MapPage: the frame number that a directory entry keeps is not used by any translation; swap, copy-on-write and page faults are left out.
- Counters of 32 and 64 bits are numbers without a bound, except in the division, the clock, the quantum, the ext2 clamp and block positions, block numbers and the stack allocator; sizes in the SLOB and buddy allocators are checked or capped before they could wrap.
- `load_directory`, `read_inode`, mounting, path lookup, `unified_alloc.cc`, `page_replacement.cc`, `SlabAllocator::kmem_cache_free`, shell commands, drivers and assembly are not modelled.
