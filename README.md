# Kernel memory allocators and shell job control, modelled in Dafny

This project models three pieces of a systems-programming course repository
and proves properties of them:

- **The buddy-system kernel memory allocator** (`kma/skeleton/kma_bud.c`).
  Every block starts with a 32-bit header word. The word holds the block's size
  with the allocated flag in bit 0, and a free block also holds a NEXT pointer.
  The root page starts with a class table with one (first, mask) entry per
  size class, PAGESIZE >> i. This skeleton is unfinished: `kma_free` is empty,
  and `kma_malloc` pushes the block it picks back onto the target class's list
  instead of unlinking and splitting it. The model follows the code as written
  (module `Buddy`, class `Buddy.Allocator`), except that the control block is
  sized for the whole class table (see Findings).
- **The resource-map allocator** (`kma/skeleton/kma_rm.c`). It keeps a single
  free list, doubly linked and in address order across all pages. The list
  head lives in the control block of the root page. Allocation is first fit,
  with splitting. Freeing inserts the block in order. Coalescing merges
  neighbours in the same page, and a page whose one free block spans it goes
  back to the page source. The list algorithms are pure functions on the
  sequence of free headers (module `FreeList`). The PREV/NEXT encoding and its
  pointer splices are in module `FreeLinks`. The class `ResourceMap.Allocator`
  holds the words the code writes: the head, and the SIZE, PREV and NEXT words
  by address. A ghost sequence of blocks is tied to those words by `Valid`.
- **The shell's job list and command lookup**
  (`adrien_surabhi/skeleton/runtime.c`):
  - AddJob inserts a job under the least positive id not in use. It keeps the
    list in ascending id order.
  - CheckJobTermination unlinks a job whose process has terminated.
  - IsBuiltIn is the strcmp test for the four built-ins.
  - ResolveExternalCmd is the PATH search.

  These are modelled in module `Jobs`, with the classes `Jobs.Job` and
  `Jobs.JobList`, and in module `Commands`.

Addresses are pairs (page frame, byte offset); module `Pages` proves that
ordering them this way is raw pointer order. The page source behind
`get_page` and `free_page` is the class `Pages.PageSource`, which tracks the
frames it has handed out. Constants: PAGESIZE is 8192. `kma_size_t` is taken
as a 4-byte unsigned word and pointers as 8 bytes, since `kma.h` and
`kma_page.h` are not part of this model. That makes the free header 12 bytes
in the buddy allocator and 20 bytes in the resource-map allocator. The
whole-page block of the resource-map allocator has SIZE 8180.

## Model

| member | source | states |
|---|---|---|
| Pages.BelowIsRawOrder | kma/skeleton/kma_rm.c:278 | comparing (page, offset) pairs is raw pointer comparison for in-page offsets, both ways |
| Pages.HeaderOfPayload | kma/skeleton/kma_rm.c:59-63 | HEADER undoes PAYLOAD: the payload is past the header word and HEADER(PAYLOAD(h)) == h |
| Pages.PageSource.GetPage | kma/skeleton/kma_rm.c:174 | get_page hands out a frame not already held and adds exactly it to the held set |
| Pages.PageSource.FreePage | kma/skeleton/kma_rm.c:351 | free_page removes exactly that frame from the held set |
| Buddy.WordDecodes | kma/skeleton/kma_bud.c:55-59 | a header word is its SIZE (even) plus its IS_ALLOCATED bit (0 or 1) |
| Buddy.AllocateSetsBit | kma/skeleton/kma_bud.c:55-59 | ALLOCATE sets the allocated bit and leaves SIZE unchanged |
| Buddy.DeallocateClearsBit | kma/skeleton/kma_bud.c:55-59 | DEALLOCATE clears the allocated bit and leaves SIZE unchanged |
| Buddy.SetSizeThenSize | kma/skeleton/kma_bud.c:59-62 | SET_SIZE then SIZE gives the new size with bit 0 cleared (the size itself when even), keeping the allocated bit |
| Buddy.FreeHeaderWord | kma/skeleton/kma_bud.c:191-192 | after DEALLOCATE and SET_SIZE with an even size the block reads as free with that size |
| Buddy.NumClassesIsCount | kma/skeleton/kma_bud.c:116-125 | the class loop starting from PAGESIZE creates exactly 10 classes |
| Buddy.ClassesAreHalvings | kma/skeleton/kma_bud.c:116-125 | class i exists exactly when PAGESIZE >> i still holds a free header |
| Buddy.ClassSizeIsPow2 | kma/skeleton/kma_bud.c:122 | every class size (the MASK entry) is a power of two |
| Buddy.ClassForIsSmallestFit | kma/skeleton/kma_bud.c:140-147 | the selected class holds a free header, holds the request when it fits in a page, and every smaller class is too small |
| Buddy.ClassForClassSize | kma/skeleton/kma_bud.c:181-189 | a class's own size selects that class |
| Buddy.ClassForPow2 | kma/skeleton/kma_bud.c:181-189 | a power of two between the free header size and PAGESIZE selects the class of exactly that size |
| Buddy.SelectClass | kma/skeleton/kma_bud.c:140-147 | the halving loop returns the class ClassFor(need) and its size |
| Buddy.ClassTable | kma/skeleton/kma_bud.c:116-125 | the table loop makes 10 entries, each list empty and each MASK the class size |
| Buddy.ClassForIsUnique | kma/skeleton/kma_bud.c:140-147 | a class that holds the need while the next class does not is the class selected |
| Buddy.NeedNeverWraps | kma/skeleton/kma_bud.c:143 | `size + ALLOC_HEADER_SIZE` is a 64-bit size_t sum, equal to the true sum for every kma_size_t request; the largest class is chosen exactly when the need passes half a page, and a need past the page still gets that too-small 8192-byte class |
| Buddy.ControlBlockSizeIsLeast | kma/skeleton/kma_bud.c:127-131 | the corrected control block is the least power of two holding one kma_root_t (two pointers) per class and an allocated header |
| Buddy.ControlBlockSizeValue | kma/skeleton/kma_bud.c:127-131 | for 10 classes the corrected control block is 256 bytes, enough for the 160-byte class table |
| Buddy.ControlBlockSize | kma/skeleton/kma_bud.c:127-131 | the doubling loop, counting a whole kma_root_t per class, computes that control block size |
| Buddy.TableImageAt | kma/skeleton/kma_bud.c:116-125 | in the stored class table, each FIRST_FREE_NODE reads NULL and each MASK reads the value the loop stored |
| Buddy.FirstTileOnTable | kma/skeleton/kma_bud.c:181-195 | create_page at byte 128 of the root page writes its header and NEXT over table entry 8: FIRST_FREE_NODE(8) becomes 0x80 and MASK(8) becomes 0, and FIRST_FREE_NODE(6) gets the block |
| Buddy.FirstTileOverwritesTable | kma/skeleton/kma_bud.c:127-137 | as written the control block is 128 bytes, below the 160-byte table; after the first tile, entry 8 reads 0x80 and 0 instead of NULL and 32, and a 20-byte request selects class 8 |
| Buddy.FirstRequestClasses | kma/skeleton/kma_bud.c:140-153 | a first request of 0 to 28 bytes targets class 8 or 9, and one of 29 to 124 bytes targets class 6 or 7, the classes whose search meets the as-written table entries 8 and 6 |
| Buddy.TileKeepsTable | kma/skeleton/kma_bud.c:133-137 | with the corrected control block, create_page past the table sets only its own class's FIRST_FREE_NODE, to the block, and leaves every MASK and other entry as it was |
| Buddy.PushPow2 | kma/skeleton/kma_bud.c:181-195 | create_page of a power-of-two size makes the block the free head of that size's class, with NEXT the old head, and changes nothing else |
| Buddy.DoublingsTile | kma/skeleton/kma_bud.c:133-137 | the tiling loop's blocks start at the control block, each the size of its offset, touching one another and ending exactly at PAGESIZE |
| Buddy.DoublingsArePowers | kma/skeleton/kma_bud.c:133-137 | the tiled offsets are exactly the powers of two from the control block size to PAGESIZE |
| Buddy.TiledUpToStep | kma/skeleton/kma_bud.c:134-136 | one tiling step pushes the block at offset t and gives the table for offsets below 2t |
| Buddy.InitListsTile | kma/skeleton/kma_bud.c:111-138 | after initialisation each tiled block is free, sized by its offset, NEXT NULL, and heads its class list; no other block is written |
| Buddy.FirstFreeClassIsNearest | kma/skeleton/kma_bud.c:149-153 | the search settles on the nearest non-empty class at or above the target; every class between is empty |
| Buddy.Allocator.CreatePage | kma/skeleton/kma_bud.c:181-195 | create_page updates the class table and header words as Push does |
| Buddy.Allocator.Initialise | kma/skeleton/kma_bud.c:111-138 | the first call takes a fresh root page and leaves the table as InitLists describes |
| Buddy.Allocator.TileRootPage | kma/skeleton/kma_bud.c:133-137 | the tiling loop leaves the root page as InitLists describes |
| Buddy.Allocator.PushTile | kma/skeleton/kma_bud.c:134-136 | one tiling iteration moves the table from offsets below t to offsets below 2t |
| Buddy.Allocator.Search | kma/skeleton/kma_bud.c:149-153 | the search loop returns the head of the nearest non-empty class at or above the target, or NULL |
| Buddy.Allocator.FindBlock | kma/skeleton/kma_bud.c:149-159 | that head, or else a fresh page pushed whole onto class 0 |
| Buddy.Allocator.MarkAllocatedAt | kma/skeleton/kma_bud.c:162 | ALLOCATE changes only that block's header word |
| Buddy.Allocator.TakeBlock | kma/skeleton/kma_bud.c:149-168 | the chosen block is pushed onto the target class, marked allocated with the class size, and is the found head or the new page |
| Buddy.Allocator.KmaMalloc | kma/skeleton/kma_bud.c:104-173 | kma_malloc as written, for the class of the size_t need: the returned payload's block is the nearest non-empty class head, or a new page, and the state is exactly push-then-mark on the initial table |
| Buddy.Allocator.KmaFree | kma/skeleton/kma_bud.c:175-179 | kma_free has an empty body: the allocator and its page source are left unchanged |
| Buddy.MallocAsWritten | kma/skeleton/kma_bud.c:161-162 | as written the handed-out block stays the free head of its class although marked allocated, and links to itself when it came from that class |
| FreeList.OrderedBelow | kma/skeleton/kma_rm.c:278-281 | on an ordered list every earlier block lies below every later one |
| FreeList.OrderedDisjoint | kma/skeleton/kma_rm.c:305-307 | a piece of a listed block overlaps no other listed block |
| FreeList.RemoveOrdered | kma/skeleton/kma_rm.c:230-241 | taking a block off keeps the list ordered and drops that header |
| FreeList.InsertPosIs | kma/skeleton/kma_rm.c:278-281 | the insert walk stops at the first block not below the target |
| FreeList.InsertPosBelow | kma/skeleton/kma_rm.c:278-281 | every block before the insert position is below the target; the one at it is not |
| FreeList.InsertAt | kma/skeleton/kma_rm.c:283-294 | the target goes in at the insert position, the rest keep their order |
| FreeList.InsertOrdered | kma/skeleton/kma_rm.c:267-296 | inserting a block that overlaps none keeps the list ordered |
| FreeList.RequestIsLeast | kma/skeleton/kma_rm.c:191-193 | the raised request is the least size at least the request whose block can hold a free header |
| FreeList.FirstFit | kma/skeleton/kma_rm.c:197-202 | first fit stops at the first block large enough; every block before it is too small |
| FreeList.FirstFitIsLowest | kma/skeleton/kma_rm.c:197-202 | on an ordered list first fit picks the lowest-address block large enough |
| FreeList.CarveWrites | kma/skeleton/kma_rm.c:219-246 | the code's SIZE writes and reinsertion give exactly Carve |
| FreeList.CarveSplits | kma/skeleton/kma_rm.c:219-246 | whole block when the rest is too small for a free header, else exactly the request with the rest, adjacent and ending where the block ended, back on the list |
| FreeList.CarveConserves | kma/skeleton/kma_rm.c:219-246 | the bytes leaving the list are exactly the handed-out block |
| FreeList.MergeOrdered | kma/skeleton/kma_rm.c:305-328 | merging two adjacent blocks keeps the list ordered |
| FreeList.MergePrev | kma/skeleton/kma_rm.c:305-316 | the previous block is absorbed exactly when it ends where this one starts in the same page |
| FreeList.MergeNext | kma/skeleton/kma_rm.c:318-328 | the next block is absorbed exactly when it starts where this one ends in the same page |
| FreeList.MergeStep | kma/skeleton/kma_rm.c:305-328 | a pass changes nothing exactly when the block has no adjacent neighbour, and otherwise shortens the list |
| FreeList.Coalesced | kma/skeleton/kma_rm.c:298-331 | repeating passes ends with an ordered list on which the block has no adjacent neighbour |
| FreeList.MergeConserves | kma/skeleton/kma_rm.c:305-328 | a merge keeps the bytes on the list |
| FreeList.CoalescedConserves | kma/skeleton/kma_rm.c:298-331 | coalescing keeps the bytes on the list |
| FreeList.HeldCoalesced | kma/skeleton/kma_rm.c:298-331 | coalescing keeps every block inside a held page after its control block |
| FreeList.MallocFacts | kma/skeleton/kma_rm.c:167-251 | kma_malloc hands out the lowest-address block large enough, or the whole-page block of a new page; it holds the request, left the list, the list stays ordered, and only its bytes moved |
| FreeList.RemoveSound | kma/skeleton/kma_rm.c:230-241 | unlinking keeps the allocator invariant |
| FreeList.InsertSound | kma/skeleton/kma_rm.c:267-296 | inserting a block with room keeps the invariant |
| FreeList.CarveSound | kma/skeleton/kma_rm.c:219-246 | each step of the carve keeps the invariant, and the split-off rest has room |
| FreeList.MergeSound | kma/skeleton/kma_rm.c:305-328 | a merge keeps the invariant |
| FreeList.WholePageAlone | kma/skeleton/kma_rm.c:341 | a block spanning its page is the only listed block in that page |
| FreeList.ReleaseWholeFacts | kma/skeleton/kma_rm.c:333-361 | page release keeps the invariant, happens exactly for a whole-page block, and then gives back exactly its page |
| FreeLinks.OrderedDistinct | kma/skeleton/kma_rm.c:278-281 | an ordered list has no header twice |
| FreeLinks.LinkedIsList | kma/skeleton/kma_rm.c:55-62 | the head and NEXT words determine the list: two lists they encode are equal |
| FreeLinks.UnlinkRemoves | kma/skeleton/kma_rm.c:230-241 | the PREV/NEXT splice that unlinks block k encodes the list without it |
| FreeLinks.UnlinkWords | kma/skeleton/kma_rm.c:230-241 | unlinking changes only the neighbours' words and the head |
| FreeLinks.LinkInserts | kma/skeleton/kma_rm.c:267-296 | the splice at the insert walk's stop encodes the list with the block inserted |
| FreeLinks.LinkWords | kma/skeleton/kma_rm.c:283-294 | inserting changes only the neighbours' words, the head and the block's own |
| FreeLinks.ReleaseAsWrittenKeepsTail | kma/skeleton/kma_rm.c:342-357 | as written, releasing a root-page block leaves a list of only the blocks after it, rooted in the next block's page, or no root |
| FreeLinks.ReleaseKeepsList | kma/skeleton/kma_rm.c:342-357 | the corrected handover encodes the list without the released block, rooted in its first block's page |
| FreeLinks.ReleaseAsWrittenLosesBlock | kma/skeleton/kma_rm.c:350-357 | a three-block instance where the as-written handover loses the lowest free block and the corrected one keeps it |
| ResourceMap.Allocator.constructor | kma/skeleton/kma_rm.c:66 | the allocator starts with no root page and an empty list |
| ResourceMap.Allocator.InitRoot | kma/skeleton/kma_rm.c:173-185 | the first call takes a fresh root page whose one free block spans it |
| ResourceMap.Allocator.FindFit | kma/skeleton/kma_rm.c:197-202 | the walk returns the first-fit block, or NULL |
| ResourceMap.Allocator.UnlinkBlock | kma/skeleton/kma_rm.c:230-241 | the words change as Unlink says and the list loses block k |
| ResourceMap.Allocator.AddAndInsertFreeHeader | kma/skeleton/kma_rm.c:267-296 | the block is inserted in address order with the given SIZE, and the words change as Link says |
| ResourceMap.Allocator.AddPage | kma/skeleton/kma_rm.c:206-217 | a fresh page's whole-page block joins the list |
| ResourceMap.Allocator.Detach | kma/skeleton/kma_rm.c:226-241 | block k gets its new SIZE and leaves the list |
| ResourceMap.Allocator.TakeBlock | kma/skeleton/kma_rm.c:219-246 | the list and SIZE words become Carve of the old ones; the payload is returned |
| ResourceMap.Allocator.KmaMalloc | kma/skeleton/kma_rm.c:167-251 | kma_malloc leaves the list as Malloc of the old one (after the first call's root page), new page exactly when nothing fits |
| ResourceMap.Allocator.MergeWithPrev | kma/skeleton/kma_rm.c:305-316 | the list becomes MergePrev of the old one; `again` is set exactly when it changed |
| ResourceMap.Allocator.MergeWithNext | kma/skeleton/kma_rm.c:318-328 | the list becomes MergeNext of the old one; `again` is set exactly when it changed |
| ResourceMap.Allocator.ReleaseIfWhole | kma/skeleton/kma_rm.c:333-361 | the state becomes ReleaseWhole of the old one, with the corrected root handover |
| ResourceMap.Allocator.Coalesce | kma/skeleton/kma_rm.c:298-363 | coalesce leaves Coalesced of the old list, then the page release |
| ResourceMap.Allocator.KmaFree | kma/skeleton/kma_rm.c:253-265 | kma_free inserts the block in order, then coalesces it and releases its page when whole |
| Jobs.GapIndex | adrien_surabhi/skeleton/runtime.c:153-168 | the walk stops at the first node that is last or followed by an id more than one larger |
| Jobs.Slot | adrien_surabhi/skeleton/runtime.c:146-150 | the new job goes at the head exactly when the list is empty or its head's id is above 1 |
| Jobs.Consecutive | adrien_surabhi/skeleton/runtime.c:152-168 | before the walk stops, an ascending list starting at 1 holds 1, 2, 3, ... |
| Jobs.NewJidIsLeastUnused | adrien_surabhi/skeleton/runtime.c:143-170 | on an ascending list of positive ids the new id is the least positive id not in use |
| Jobs.AddKeepsAscending | adrien_surabhi/skeleton/runtime.c:170-180 | the new id is above all ids before its slot and below all after, so the list stays ascending and positive |
| Jobs.RemoveKeepsAscending | adrien_surabhi/skeleton/runtime.c:513-514 | unlinking a job keeps the ids ascending and positive |
| Jobs.SuffixKeepsAscending | adrien_surabhi/skeleton/runtime.c:515-516 | dropping the jobs up to a point keeps the rest ascending and positive |
| Jobs.JobList.AddJob | adrien_surabhi/skeleton/runtime.c:135-183 | the list gains a fresh record at Slot with id NewJid, the others keep place and status, ascending order is kept and the id was unused |
| Jobs.JobList.FindSlot | adrien_surabhi/skeleton/runtime.c:141-168 | the walk returns the node at Slot's predecessor (NULL for the head) and the id NewJid |
| Jobs.JobList.LinkAfter | adrien_surabhi/skeleton/runtime.c:172-180 | the splice puts the record at position p and keeps every other link |
| Jobs.JobList.CheckJobTermination | adrien_surabhi/skeleton/runtime.c:508-520 | for any `prev` whose link points at the node, or NULL: a terminated job gets status 1 and its own link is untouched; with NULL the list restarts after it; with the node before it, it leaves the list; with a stale record off the list, only that record's link changes and the job stays listed; otherwise nothing changes; ascending ids are kept in every case |
| Jobs.JobList.PredecessorAt | adrien_surabhi/skeleton/runtime.c:513-514 | a listed record whose link points at the k-th record is the (k-1)-th |
| Jobs.JobList.DropThrough | adrien_surabhi/skeleton/runtime.c:515-516 | `bgjobs = node->next` leaves exactly the records after the node, ids ascending when they were |
| Jobs.JobList.Relink | adrien_surabhi/skeleton/runtime.c:513-514 | `prev->next = node->next` removes the node when `prev` is listed and leaves the list as it was when not |
| Commands.CStr | adrien_surabhi/skeleton/runtime.c:496 | a C string is the longest NUL-free prefix, ended by a NUL or the end of storage |
| Commands.StrCmp | adrien_surabhi/skeleton/runtime.c:496-499 | strcmp is 0 exactly when the two C strings are equal |
| Commands.IsBuiltIn | adrien_surabhi/skeleton/runtime.c:493-504 | true exactly when the command is cd, jobs, fg or bg |
| Commands.IsBuiltInPlain | adrien_surabhi/skeleton/runtime.c:493-504 | for a NUL-free command, membership in the built-in set |
| Commands.StrChr | adrien_surabhi/skeleton/runtime.c:413 | strchr finds the first occurrence at or after the start, or reports none |
| Commands.Segments | adrien_surabhi/skeleton/runtime.c:411-422 | an empty PATH has no segments and a non-empty one has some |
| Commands.SegmentsHaveNoColon | adrien_surabhi/skeleton/runtime.c:411-422 | no segment holds ':' |
| Commands.SegmentsJoin | adrien_surabhi/skeleton/runtime.c:411-422 | joining the segments with ':' gives PATH back, less a final ':' |
| Commands.SearchIsFirst | adrien_surabhi/skeleton/runtime.c:411-434 | the search returns a runnable candidate and every earlier candidate is not runnable; no result means none is |
| Commands.SlashIsNotSearched | adrien_surabhi/skeleton/runtime.c:399-408 | a command holding '/' resolves to itself if runnable, otherwise to nothing, whatever PATH is |
| Commands.ResolveIsFirstRunnable | adrien_surabhi/skeleton/runtime.c:409-434 | otherwise the result is dir + "/" + cmd for the first PATH segment whose candidate is runnable |
| Commands.SearchFrom | adrien_surabhi/skeleton/runtime.c:411-434 | from a segment start, the search tries that segment's candidate first, then goes on after its ':' |
| Commands.CopyRange | adrien_surabhi/skeleton/runtime.c:415-421 | the copy loop puts exactly p[lo..hi] in the buffer |
| Commands.NextCandidate | adrien_surabhi/skeleton/runtime.c:412-426 | one turn builds the candidate of the segment at i and moves past its ':'; the search from i is that candidate if runnable, else the search from there |
| Commands.SearchPath | adrien_surabhi/skeleton/runtime.c:411-434 | the PATH loop returns exactly the first runnable candidate, as Search describes |
| Commands.ResolveExternalCmd | adrien_surabhi/skeleton/runtime.c:392-435 | ResolveExternalCmd returns exactly what Resolve describes |

## Left out

- I/O: `print_sequential_allocated` and every `printf` are not modelled.
- The page source is modelled only by which frames it has handed out. Page
  contents, page ids and `page->size` are not modelled: every page is PAGESIZE
  bytes.
- Header words are unbounded naturals: every word the buddy allocator writes
  is at most PAGESIZE + 1, and the resource-map allocator's overflow path is
  excluded below. The one sum the buddy allocator computes on a request,
  `size + ALLOC_HEADER_SIZE`, is a 64-bit size_t, because ALLOC_HEADER_SIZE is
  a sizeof; it cannot wrap for a kma_size_t request (Buddy.Need).
- Buddy.Allocator.KmaFree: its body is empty in the source, so the model's is
  too, and it promises only that nothing changes.
- Buddy: kma_malloc is modelled as written, including the re-push at line 161,
  on the tables the corrected control block gives.
  No free-list shape invariant is stated, because the code as written breaks
  it (see Buddy.MallocAsWritten).
- Buddy.Allocator.KmaMalloc: its ensures describe the state after line 168,
  before `dump()` at line 170. `dump` is not modelled: its loop runs while
  class_size > 4, that is for 11 classes, so it reads FIRST_FREE_NODE(10), one
  entry past the table. Its inner walk follows NEXT until NULL, so it does not
  return after a call that took the block from the target class's own list,
  whose NEXT then points at itself (Buddy.MallocAsWritten).
- Buddy.Allocator.KmaMalloc: requires size < 2^32, the range of its
  kma_size_t parameter.
- Buddy.Allocator.Initialise: its final state has an empty class 8 with MASK
  32 and an empty class 6, because it uses the corrected 256-byte control
  block (see Findings). As written, FIRST_FREE_NODE(8) is 0x80 and MASK(8) is
  0 afterwards, and the tile at root+128 heads class 6
  (Buddy.FirstTileOverwritesTable, Buddy.FirstTileOnTable).
- Buddy.Allocator.TileRootPage: tiles from byte 256, after the corrected
  control block; as written the first tile sits at byte 128 on table entry 8
  (Buddy.FirstTileOnTable).
- Buddy.Allocator.PushTile: keeps every MASK, because with the corrected
  control block no tile lies on the table (Buddy.TileKeepsTable); as written
  the tile at 128 changes FIRST_FREE_NODE(8) and MASK(8).
- Buddy.Allocator.CreatePage: keeps the class table and the header words
  apart; as written, a header at root+128 lies on table entry 8
  (Buddy.FirstTileOnTable).
- Buddy.Allocator.KmaMalloc: starts from the corrected initial state. As
  written, a first request of 0 to 28 bytes targets class 8 or 9 and the
  search takes the bogus head 0x80 of class 8; a first request of 29 to 124
  bytes targets class 6 or 7, class 7 is empty, and the search takes the tile
  at root+128 from class 6 and returns root+132, where the model takes the
  class-5 tile and returns root+260 (Buddy.FirstRequestClasses).
- Buddy.TiledUpToStep: describes the tiling after the corrected 256-byte
  control block; as written, the step at 128 also overwrites table entry 8.
- Buddy.InitListsTile: describes the corrected initial lists, with classes 6
  and 8 empty. As written, FIRST_FREE_NODE(8) reads 0x80 after
  initialisation, and class 6 is headed by the tile at root+128, which first
  requests of 29 to 124 bytes get.
- Buddy.ControlBlockSize: computes the corrected control block, counting a
  kma_root_t per class; as written the loop counts one pointer per class
  (Buddy.ControlBlockSizeAsWritten).
- Buddy.ControlBlockSizeIsLeast: is about the corrected control block (see
  Findings).
- Buddy.ControlBlockSizeValue: gives the corrected 256 bytes; as written the
  value is 128 (Buddy.FirstTileOverwritesTable).
- Buddy: bytes of the root page appear only in the members about the class
  table (Buddy.Image, a map from byte offset to 32-bit word). A pointer there
  is two words, the low word first, as on a little-endian 64-bit machine; the
  rest of the model keeps the class table and the header words apart.
- ResourceMap.Allocator.KmaMalloc: requires size <= 8180. A larger request
  makes `target_size - size` wrap around as an unsigned value at
  kma_rm.c:222, after which the code writes past the page. That path is not
  modelled.
- ResourceMap.Allocator.KmaFree: requires a root page.
  When a non-root page still holds allocated blocks, kma_rm.c:356 can set
  `root_page` to NULL; a later kma_free then dereferences it at line 270.
  That case is not modelled.
- ResourceMap.Allocator.KmaFree: requires a block the caller was handed and has
  not freed, one that overlaps no free block.
  Allocated blocks are not tracked globally, so this is stated as a
  precondition. The source's assertion at line 258 becomes `size <= SIZE`.
- ResourceMap: the page-struct pointer at the start of each non-root page
  (kma_rm.c:210, 338, 353, 359) is not modelled. Pages are named by frame
  number instead.
- ResourceMap.Allocator.ReleaseIfWhole: line 352 reads NEXT(hdr) after line
  351 has freed the root page (a use after free). The model reads the value
  as it was before the free.
- ResourceMap.Allocator.ReleaseIfWhole: it uses the corrected root handover
  (see Findings), not the code as written.
- Jobs: job ids and their differences are unbounded integers, so the `int`
  overflow of `jid + 1` and of `difference` is not modelled.
- Jobs: the `state` field (runtime.c:79) and `strdup` are not modelled. The
  command line is kept as a value.
- Jobs.JobList.AddJob: the source mallocs the record before the walk, while
  the model allocates it after. No other record is touched in between, so
  the result is the same.
- Jobs.JobList.CheckJobTermination: `waitpid` is the `terminated` parameter.
  It requires that `prev`, when not NULL, links to `node`. Both callers
  (runtime.c:548-568 and 578-588) keep that: they set `prev = node` and
  `node = node->next` after every call. The callers do this even after an
  unlink, so `prev` can be a record already off the list; the contract covers
  that case.
- Jobs.JobList.CheckJobTermination: CleanupJob frees a done record, and the
  callers then read its `next`. The model has no deallocation, so that read
  sees the value the record had.
- Jobs: the walks of the jobs built-in and CheckJobs, CleanupJob, fork, exec,
  signals and the pipe code are not part of this model.
- Commands.ResolveExternalCmd: `getenv("PATH")` is the `path` parameter, and
  `stat`, `S_ISDIR` and `access` together are the `runnable` predicate.
  `cmd->name` is the returned value.
- Commands.ResolveExternalCmd: the 1024-byte `buf` is a sequence, so an
  overflow from a long PATH segment is not modelled.
- Commands: C `char` is modelled as a Dafny `char`. strcmp's sign and the
  unsigned char comparison are not modelled; the contract is about zero
  versus non-zero only.

## Findings

| source | as written | input that shows it | evidently intended | confidence | as-written member | corrected member |
|---|---|---|---|---|---|---|
| kma/skeleton/kma_rm.c:350-357 | When the released whole-page block is in the root page, the list head is set to NEXT(hdr) even when PREV(hdr) is not NULL. Every free block below it drops off the list, and the new head keeps a non-NULL PREV. | Free blocks in frames 3, 5 and 7, with frame 5 the root page; the block in frame 5 spans its page and is released | The head stays the list's first block after the unlink, and the root moves to that block's page (NULL when the list is empty) | not executed | FreeLinks.ReleaseAsWritten, shown by FreeLinks.ReleaseAsWrittenLosesBlock and FreeLinks.ReleaseAsWrittenKeepsTail | FreeLinks.Release, proved by FreeLinks.ReleaseKeepsList and used by ResourceMap.Allocator.ReleaseIfWhole |
| kma/skeleton/kma_bud.c:127-131 | The control block gets room for one pointer per class, `num_classes * sizeof(void*)`, which is 128 bytes. Each class-table entry is a kma_root_t of two pointers, so the table takes 160 bytes. The first block the tiling loop pushes, at offset 128, writes its header and NEXT over table entry 8. | The first kma_malloc(20): afterwards FIRST_FREE_NODE(8) reads 0x80 and MASK(8) reads 0; the request selects class 8, and the search takes the bogus address 0x80 for a free block and writes a header there | Room for `num_classes * sizeof(kma_root_t)` bytes, a 256-byte control block that the tiled blocks start after | not executed | Buddy.ControlBlockSizeAsWritten, shown by Buddy.FirstTileOverwritesTable and Buddy.FirstTileOnTable | Buddy.ControlBlockSizeFor, proved by Buddy.ControlBlockSizeValue, Buddy.ControlBlockSizeIsLeast and Buddy.TileKeepsTable, used by Buddy.Allocator.Initialise |
