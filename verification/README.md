# A verified model of metamalloc

metamalloc is a layered memory allocator. This project models its allocator stack and the one complete
heap built on it, and proves what each layer promises to the next one.

- **Any-size page** (`AnySizeSpec`, `AnySizeTheorems`, `AnySizePage`, `Tiling`). A page is a tiling of its
  memory by blocks, some free and some live; the free list names the free blocks in list order, which is not
  address order. `LogicalPageAnySize` works on the bytes themselves: nodes and headers are 64-bit words in
  an array, links are addresses, and header and free node may overlap. Each method is proved to turn bytes
  that represent one page value into bytes that represent the next, without touching a byte of another live
  block.
- **Fixed-size page** (`FixedPageSpec`, `FixedPage`). A grid of chunks and a last-in first-out list, again as
  a value and on bytes. `LogicalPages` gives both kinds of page one interface.
- **Segment** (`SegmentSpec`, `SegmentTheorems`, `SegmentList`, `SegmentLookup`, `SegmentDrain`, `Segment`).
  A doubly linked list of pages with next-fit search, growth, immediate recycling and two page look-ups. The
  class keeps page headers in a map from address to header and is proved against the segment as a sequence
  of pages.
- **Room** (`SegmentRoom`, and parts of `AnySizeTheorems`, `LogicalPages`, `HeapSpec` and `Routing`). From the
  page up to the allocator: the bytes behind a pointer are its own from the allocation to the free.
- **Serving and giving back** (`SegmentTheorems`, `SegmentDrain`, `HeapSpec`, `SimpleHeap`, `ScalableAllocator`). At
  every layer it is stated exactly which requests are refused, which page or heap serves the others, and which pages
  go back. The system counts its refusals, so a contract can say what is served as long as it refuses nothing.
- **Concurrency** (`Protocol`, `HeapProtocol`, `HeapRuns`, `CentralProtocol`, `AllocatorProtocol`, `AllocatorRuns`).
  The owner's steps inside allocate and the steps of any number of freeing threads are interleaved arbitrarily:
  on one bounded segment; on a bounded heap, where a freeing thread compares twice with the big-object bin's head,
  reads a page header, reads the chosen bin's head and pushes; on the central heap, where any thread allocates and
  frees; and on the whole allocator, where heaps come into use while threads search for the heap of a pointer.
  What a lock covers, a queue operation or a call into a central part, is one step.
- **Deallocation queue** (`DeallocationQueue`). Linked pages of 8190 pointers, proved to be one stack. The
  segment keeps that stack as a sequence.
- **Arena** (`Arena`). Over-allocation, trimming, bumping and discarding over an operating system that may
  answer any page-aligned region that overlaps nothing mapped. Whether it may map released addresses again is
  a parameter. The arena's ghost sets say which bytes are handed out and which ever were; every layer above
  states its use of memory as a trade with these sets.
- **Heap** (`HeapSpec`, `SimpleHeap`, `HeapCorner`). `SimpleHeapPow2` with its eight bins and big-object bin:
  how creation carves the buffer, and how a freed pointer finds its bin by address arithmetic only.
- **Allocator** (`Routing`, `RoutingCorner`, `ScalableAllocator`). Thread slots, fallback to the central heap, and
  routing of frees by buffer range.
- **Arithmetic** (`Bits`, `Pow2Log2`, `Words`, `Arith`, `Sequences`). Bit operations on natural numbers, 64-bit words
  in bytes, rounding to powers of two and logarithms, lists of addresses.

Addresses are natural numbers below 2^64. The page object and the page header take 64 bytes, an any-size node
or header 16, the virtual memory granularity is 4096 (Linux). Datatypes with collections take the collection
types as parameters, which keeps the verifier from comparing pages with the blocks inside them.

A few results say that the code does less than its comments say; the code is modelled as it is.

- The comment above `get_pow2_bin_index_from_size` promises the smallest bin that holds the size, index 3 for
  96. The code gives 2 (`IndexOf96`), and keeps the promise exactly for powers of two from 16 on
  (`BinIndexExact`). The heap only asks for those.
- The repository's README.md and the head comment of simple_heap_pow2.h put the largest request at the big page
  size, or 16 bytes less. The code needs 80 bytes: `ExtendContract` gives the exact bound. A larger request that
  still passes the maximum object size makes an unbounded segment grow and return null.
- `Arena::create` checks its old alignment instead of its argument, so any new one is accepted.
  `AlignedStartsExact` says for which ones trimming leaves the regions whole.
- Size 0 is the default argument of the segment's allocate. An unbounded any-size segment divides by it exactly
  when all pages refuse (`DivisionReached`); until then it is served.
- `DeallocationQueue::create` is meant to link all its pages but links only the head; the stack is unaffected.
- A bounded big-object bin without pages claims low addresses. `BigRouting` gives the exact exception, and
  `LossExact` the exact parameters for which some run loses a pointer to it.
- The required space of a request near 2^64 wraps: `FirstFitIsRight` says when the search is still right. The
  segment never asks for such sizes.
- No one checks that the small page size is a power of two. Without it the look-up by mask is wrong
  (`MaskIsFloor`), so everything that masks asks for it; creation does not.
- Routing by buffer range needs addresses that are not mapped again, and buffers that were not refused:
  `RouteReaches` is the exact condition, `ReuseMisroutes` and `RefusedBufferMisroutes` are states that break it.
- The usable size of a big object does not subtract its padding: `UsableSizeExact` and, for an input,
  `UsableSizeCountsPadding`.

`dafny verify dfyconfig.toml` checks the whole project.

## Model

| member | source | states |
|---|---|---|
| `AnySizeSpec.PayloadAligned` | include/logical_page_anysize.h:495-509 | the computed padding is the least one that makes the payload address a multiple of 16 |
| `AnySizeSpec.RequiredSpaceExact` | include/logical_page_anysize.h:410-413 | the 64-bit sum size + 16 + padding is exact for every block address if and only if size is at most 2^64 - 32 |
| `AnySizeTheorems.FirstFitIsRight` | include/logical_page_anysize.h:403-429 | for every 64-bit size the search finds the earliest block with room, or none, if and only if the size is at most 2^64 - 32 or every free block is smaller than the wrapped sum it is compared with |
| `AnySizeTheorems.WrappedRequestSeemsToFit` | include/logical_page_anysize.h:410-413 | asked for 2^64 - 16 bytes, a page of 96 free bytes computes a required space of 0 and chooses its block |
| `AnySizeTheorems.AllocateFirstFit` | include/logical_page_anysize.h:167-220 | wherever no wrapped sum makes a block seem to fit, allocate is exact first fit: null if and only if no free block holds max(request,16) + 16 + its own padding; otherwise the earliest such block leaves the list and its tail of 16 bytes or more takes its place |
| `AnySizeTheorems.AllocateKeepsInv` | include/logical_page_anysize.h:167-220 | the blocks still tile the page, free and live blocks stay apart, the payload is 16-byte aligned and max(size,16) bytes from it lie inside its own block and the page |
| `AnySizeTheorems.PayloadsDisjoint` | include/logical_page_anysize.h:202-211 | the bytes of two live blocks from their headers to their ends never overlap |
| `AnySizeTheorems.BaseOfPayload` | include/logical_page_anysize.h:230-235 | pointer and padding lead back to exactly the block that allocate chose |
| `AnySizeTheorems.DeallocateKeepsInv` | include/logical_page_anysize.h:223-287 | freeing a live pointer keeps the tiling and the list under either coalesce policy, with no reliance on address order; the pointer's block stops being live and every other live block keeps its extent |
| `AnySizeTheorems.CoalesceInv` | include/logical_page_anysize.h:373-394 | up to two merges keep the tiling and touch no live block |
| `AnySizeTheorems.CoalesceKeepsFreeBytes` | include/logical_page_anysize.h:373-394 | coalescing leaves the set of free bytes unchanged |
| `AnySizeTheorems.CoalesceExact` | include/logical_page_anysize.h:373-394 | a merge happens exactly where the freed block touches its list successor, or its known predecessor; the merged block has the sizes of its parts and the list loses exactly what was merged |
| `AnySizeTheorems.PlaceUnique` | include/logical_page_anysize.h:239-271 | a freed block goes in front of the first list element above the pointer, except that with one free block it goes behind it; there is exactly one such place |
| `AnySizeTheorems.DeallocateExact` | include/logical_page_anysize.h:223-287 | by list and addresses alone: the block is put in at its place, and with coalescing joined with the list successor if that starts where it ends and with the predecessor if that ends where it starts and the list had two blocks or more; every other block and list element stays |
| `AnySizeTheorems.AllocateTakesBlock` | include/logical_page_anysize.h:184-200 | handing out takes exactly the bytes of the new block from the free ones |
| `AnySizeTheorems.DeallocateFreesBlock` | include/logical_page_anysize.h:230-274 | freeing makes free exactly the bytes of the pointer's block |
| `AnySizeTheorems.FreeBytesComplement` | include/logical_page_anysize.h:126-287 | every byte of the page is in a free block or in a live block, never in both |
| `AnySizeTheorems.Conservation` | include/logical_page_anysize.h:213-213 | free block sizes plus used size add up to the page size |
| `AnySizeTheorems.AllocateCounts` | include/logical_page_anysize.h:213-213 | used size stays the sum of the live block sizes when a block is handed out, absorbed excess included |
| `AnySizeTheorems.DeallocateCounts` | include/logical_page_anysize.h:276-276 | used size stays the sum of the live block sizes when a block is freed |
| `AnySizeTheorems.UsedZero` | include/logical_page_anysize.h:276-276 | used size is 0 if and only if nothing is live |
| `AnySizeTheorems.AllocateReserves` | include/logical_page_anysize.h:167-220 | a served request reserves its bytes behind the pointer, and every other live pointer keeps all of its own |
| `AnySizeTheorems.DeallocateReserves` | include/logical_page_anysize.h:223-287 | a free takes no byte from any other live pointer, under either coalesce policy |
| `AnySizeTheorems.ReservedApart` | include/logical_page_anysize.h:202-211 | the bytes of two live pointers are apart, and either one's bytes from the other's header |
| `AnySizeTheorems.UsableSizeExact` | include/logical_page_anysize.h:291-295 | the usable size is the room behind the pointer plus the padding: it can be relied on if and only if the block needed none |
| `AnySizeTheorems.UsableSizeCountsPadding` | include/logical_page_anysize.h:291-295 | after requests for 17 and 32 bytes in a page of 96 the second object is said to have 47 usable bytes and has 32 |
| `AnySizeTheorems.AllocatePtrs` | include/logical_page_anysize.h:167-220 | a served request adds exactly one pointer, not live before, to the live pointers |
| `AnySizeTheorems.DeallocatePtrs` | include/logical_page_anysize.h:223-287 | a free removes exactly that pointer from the live pointers |
| `AnySizeTheorems.FreshInv` | include/logical_page_anysize.h:126-164 | a new page is one free block that tiles the buffer |
| `AnySizeTheorems.RunKeepsInv` | include/logical_page_anysize.h:126-287 | after any run of allocations and frees of live pointers, free and live blocks exactly tile the page, the list names each free block once, and free plus used bytes are the page |
| `AnySizeTheorems.AdjacentFreeBlocksMayStay` | include/logical_page_anysize.h:245-247 | a concrete page where the freed block touches the only free block, which lies below it, and the two stay apart |
| `Tiling.TilesCover` | include/logical_page_anysize.h:126-287 | every byte of the tiled range lies in exactly one block |
| `Tiling.TilesTotal` | include/logical_page_anysize.h:126-287 | the sizes of blocks that tile a range add up to its length |
| `Tiling.SplitTiles` | include/logical_page_anysize.h:187-193 | splitting a block in two keeps the tiling |
| `Tiling.MergeTiles` | include/logical_page_anysize.h:375-391 | merging two touching blocks keeps the tiling |
| `AnySizePage.LogicalPageAnySize.Create` | include/logical_page_anysize.h:126-164 | refuses a buffer of 16 bytes or less, a null or a misaligned one; otherwise the bytes represent one free block |
| `AnySizePage.LogicalPageAnySize.Find` | include/logical_page_anysize.h:403-429 | finds the earliest fitting node, its list predecessor and its padding |
| `AnySizePage.LogicalPageAnySize.Insert` | include/logical_page_anysize.h:431-465 | the three ways of linking a node write exactly the links of the list with the node inserted |
| `AnySizePage.LogicalPageAnySize.Remove` | include/logical_page_anysize.h:467-487 | unlinking through the predecessor writes exactly the links of the list without the node |
| `AnySizePage.LogicalPageAnySize.UnlinkBlock` | include/logical_page_anysize.h:184-200 | the tail goes back to the list or is absorbed, and the chosen node leaves it; other live blocks keep their bytes |
| `AnySizePage.LogicalPageAnySize.HandOut` | include/logical_page_anysize.h:184-213 | the header written over the node records padding and size, even where header and node overlap |
| `AnySizePage.LogicalPageAnySize.Allocate` | include/logical_page_anysize.h:167-220 | the bytes afterwards represent the specified page, the pointer is the specified one, and no byte of another live block changed |
| `AnySizePage.LogicalPageAnySize.Reopen` | include/logical_page_anysize.h:230-237 | the header read at ptr - 16 gives back the padding and size that allocate wrote, and becomes a free node although the two may overlap |
| `AnySizePage.LogicalPageAnySize.Link` | include/logical_page_anysize.h:239-274 | the freed node is linked in front of the first node above the pointer, or behind the only node; the bytes represent that list |
| `AnySizePage.LogicalPageAnySize.Coalesce` | include/logical_page_anysize.h:373-394 | merges with the next and then the previous node exactly when they touch |
| `AnySizePage.LogicalPageAnySize.Deallocate` | include/logical_page_anysize.h:223-287 | the bytes afterwards represent the page of `DeallocateExact` and no byte of another live block changed; a pointer outside the page changes no byte |
| `AnySizePage.LogicalPageAnySize.GetUsableSize` | include/logical_page_anysize.h:291-295 | the header below a live pointer gives the specified usable size |
| `FixedPageSpec.ChunkPartition` | include/logical_page.h:121-148 | every chunk of the grid is either free or live, never both, and nothing else is |
| `FixedPageSpec.ChunksDisjoint` | include/logical_page.h:121-130 | two chunks never share a byte |
| `FixedPageSpec.AllocateKeepsInv` | include/logical_page.h:85-98 | null if and only if no chunk is free; otherwise the top chunk becomes live and used size grows by the size class |
| `FixedPageSpec.DeallocateKeepsInv` | include/logical_page.h:101-110 | a freed chunk becomes free and nothing else changes |
| `FixedPageSpec.FreeUndoesAllocate` | include/logical_page.h:132-148 | freeing the chunk just handed out restores the page |
| `FixedPageSpec.UsedZero` | include/logical_page.h:95-108 | used size is 0 if and only if nothing is live |
| `FixedPageSpec.FreshChunks` | include/logical_page.h:121-130 | a new page has floor(size / class) chunks, all free, the last one on top |
| `FixedPageSpec.FreshInv` | include/logical_page.h:54-80 | a new page is well formed and nothing of it is live |
| `FixedPage.LogicalPage.Create` | include/logical_page.h:54-80 | refuses small or misaligned buffers and classes below 8; otherwise the bytes represent the page with all chunks free |
| `FixedPage.LogicalPage.Grow` | include/logical_page.h:121-130 | pushes the chunks of the grid in order |
| `FixedPage.LogicalPage.Push` | include/logical_page.h:132-136 | the bytes represent the list with the node on top and nothing else is written |
| `FixedPage.LogicalPage.Pop` | include/logical_page.h:138-148 | takes the top node and represents the rest of the list |
| `FixedPage.LogicalPage.Allocate` | include/logical_page.h:85-98 | the specified page and pointer; no live chunk's bytes change |
| `FixedPage.LogicalPage.Deallocate` | include/logical_page.h:101-110 | the specified page; no other live chunk's bytes change |
| `LogicalPages.AllocateContract` | include/segment.h:681-681 | what a segment relies on: either kind of page adds one new live pointer inside itself, or changes nothing |
| `LogicalPages.DeallocateContract` | include/segment.h:814-814 | either kind of page gives up exactly the freed pointer |
| `LogicalPages.DeallocateExact` | include/segment.h:814-814 | an any-size page merges freed blocks exactly as its coalesce policy says, over its whole life |
| `LogicalPages.AllocateReserves` | include/segment.h:681-681 | either kind of page reserves the room of the request behind the new pointer and takes none from another |
| `LogicalPages.ReservedApart` | include/segment.h:681-681 | what two live pointers of one page reserve does not overlap, headers included |
| `LogicalPages.FreshServes` | include/segment.h:445-445 | a new fixed-size page always serves; a new any-size page serves exactly the sizes that leave room for one header |
| `SegmentTheorems.LiveIndex` | include/segment.h:831-843 | the linear search finds the one page a live pointer lies in |
| `SegmentTheorems.NextFitIsComplete` | include/segment.h:671-716 | a request within the maximum object size is refused if and only if every page refuses it |
| `SegmentTheorems.StartIsLast` | include/segment.h:682-682 | the search starts at the last-used page, or at the head if there is none |
| `SegmentTheorems.SearchExact` | include/segment.h:671-716 | refused if and only if the size is above page size - 64 or every page refuses; otherwise the page that serves is the first one to serve on the way round from the last-used page, and it is the only one that changes |
| `SegmentTheorems.TryAllocateContract` | include/segment.h:671-716 | a served request adds one pointer that was not live and moves the search start to the serving page; a refused one changes nothing |
| `SegmentTheorems.RemovePageContract` | include/segment.h:511-555 | unlinking an empty page keeps the pages apart and the last-used page in the list |
| `SegmentTheorems.DeallocateContract` | include/segment.h:810-862 | exactly the freed pointer stops being live, and the page count never falls below the smaller of its old value and the threshold |
| `SegmentTheorems.DeallocateExact` | include/segment.h:810-862 | the pointer's page leaves the list if and only if that was its only live pointer and there are more pages than the threshold; otherwise it stays and loses its flag exactly when it is empty; no other page changes, and the last-used page stays or moves to a neighbour of the page that leaves |
| `SegmentTheorems.ReleasedPageIsEmpty` | include/segment.h:820-826 | a page that a deallocation gives back holds no pointer that is still live |
| `SegmentTheorems.GrowContract` | include/segment.h:435-499 | growth appends the given number of contiguous empty pages and changes nothing else |
| `SegmentTheorems.MinimumIsOne` | include/utilities/size_utilities.h:31-42 | for a size a page can hold the minimum page count is one |
| `SegmentTheorems.DesiredCount` | include/segment.h:770-794 | the pages added are the floor of count times coefficient, but at least one |
| `SegmentTheorems.ExtendContract` | include/segment.h:719-764 | when the arena answers, growth appends the desired pages and then serves if and only if the segment has a size class or the size is at most page size - 80; otherwise the pages are added and null is returned |
| `SegmentTheorems.UnboundedContract` | include/segment.h:671-768 | over search and growth together one new pointer or none; as long as the arena answers when asked, exactly the sizes up to page size - 64 are served by a size class and up to page size - 80 by any-size pages, whatever pages there are |
| `SegmentTheorems.GrowsOnlyIfNeeded` | include/segment.h:719-764 | pages are added if and only if every page refuses a size that a page could hold and the arena answers, behind the others, which stay as they are |
| `SegmentTheorems.SearchServesFitting` | include/segment.h:671-716 | a search in any-size pages never serves more than page size - 80 bytes |
| `SegmentTheorems.DivisionReached` | include/utilities/size_utilities.h:31-34 | the page count is divided by a requested size of 0 if and only if an any-size segment is asked for size 0 and all of its pages refuse |
| `SegmentTheorems.NoPagesDivides` | include/utilities/size_utilities.h:31-34 | which is so whenever all pages were given back |
| `SegmentRoom.LocalReserves` | include/segment.h:153-176 | an owner allocation gives the whole room of the request, even straight from the queue, and no client loses a byte |
| `SegmentRoom.UnboundedReserves` | include/segment.h:671-768 | search and growth give the whole room of the request, and no client loses a byte |
| `SegmentRoom.DeallocateReserves` | include/segment.h:810-862 | freeing and recycling take no byte from any other live pointer |
| `SegmentRoom.ReservedApart` | include/segment.h:671-768 | what two live pointers reserve does not overlap, in one page or in two |
| `SegmentRoom.ReservedOffHeaders` | include/segment.h:435-499 | nor does it overlap any page's header |
| `SegmentRoom.UsableSizeContract` | include/segment.h:324-350 | the usable size is at least the reserved room, and equal to it for a size class or an unpadded block, and only then |
| `SegmentLookup.LookupsAgree` | include/segment.h:353-362 | for power-of-two, aligned pages the mask and the linear search select the same page for every address inside the segment |
| `SegmentLookup.RoutinesAgree` | include/segment.h:810-862 | so both deallocation routines leave the same segment |
| `SegmentLookup.MaskNeedsPow2` | include/segment.h:359-359 | with 12288-byte pages the mask misses the page at address 12288 |
| `Bits.MaskIsFloor` | include/segment.h:358-359 | masking rounds every 64-bit address down to a page boundary if and only if the page size is a power of two |
| `SegmentDrain.DrainContract` | include/segment.h:638-669 | a drain frees exactly the queued pointers except the first one popped when it goes to the caller, and keeps the page count at the threshold or above |
| `SegmentDrain.DrainReleases` | include/segment.h:638-669 | a drain gives back exactly as many of the pages it empties as the threshold allows |
| `SegmentDrain.LocalServes` | include/segment.h:153-176 | with a size class the pointer queued last is returned; without one, or with an empty queue, the request is refused if and only if it is too large or all pages of the drained segment refuse |
| `SegmentDrain.LocalContract` | include/segment.h:153-176 | an owner allocation returns a pointer no client held, and clients hold exactly that pointer more |
| `SegmentDrain.DrainBytes` | include/segment.h:638-669 | a bounded segment never gains memory |
| `SegmentModel.RotationVisitsAll` | include/segment.h:671-716 | the next-fit order visits every page exactly once |
| `SegmentModel.Segment.Create` | include/segment.h:112-149 | accepts exactly the valid parameters; the pages then fill the caller's buffer in order; exactly one page goes back to the system if all checks pass and that page cannot be created, nothing otherwise |
| `SegmentModel.Segment.Grow` | include/segment.h:435-499 | after growth next and prev are inverse, head and tail are the ends and the count is the length |
| `SegmentModel.Segment.AllocateFromPages` | include/segment.h:671-716 | the linked pages are asked in next-fit order, each once, and last-used ends on the page that served |
| `SegmentModel.Segment.AllocateInternal` | include/segment.h:671-768 | the linked list afterwards is the specified segment; the arena is asked exactly if all pages refuse a size that a page could hold, and unless it refuses, exactly the sizes of `UnboundedContract` are served |
| `SegmentModel.Segment.Extend` | include/segment.h:719-762 | new pages are linked behind the last and the first of them is asked |
| `SegmentModel.Segment.RemoveLogicalPage` | include/segment.h:511-555 | unlinking keeps list, head, tail, count and last-used page |
| `SegmentModel.Segment.RecycleLogicalPage` | include/segment.h:501-509 | an unlinked page's bytes, and only those, go back to the system |
| `SegmentModel.Segment.DeallocateFromAlignedPage` | include/segment.h:810-828 | the page found by mask gives the segment of `DeallocateExact` |
| `SegmentModel.Segment.DeallocateBySearch` | include/segment.h:831-862 | the page found by search gives the same segment |
| `SegmentModel.Segment.FindPage` | include/segment.h:831-843 | walks the links and returns the first page whose range holds the address, or null |
| `SegmentModel.Segment.ProcessDeallocationQueue` | include/segment.h:638-669 | popping until empty is the specified drain, and returns the first pointer popped or null |
| `SegmentModel.Segment.Allocate` | include/segment.h:153-190 | thread-local segments drain first; the others search and grow, and serve by the size alone unless the arena refuses; asked for every request except one that would divide by zero |
| `SegmentModel.Segment.Deallocate` | include/segment.h:193-214 | thread-local segments queue the pointer, the others free it; a segment without pages drops it |
| `SegmentModel.Segment.OwnsPointer` | include/segment.h:218-270 | a bounded segment compares with its buffer length from the head, an unbounded one finds exactly the addresses of its pages |
| `SegmentModel.Segment.GetUsableSize` | include/segment.h:324-350 | the size class, or what the page that holds the address says, 0 if none does |
| `Protocol.StepKeepsInv` | include/segment.h:153-214 | every step of owner and clients keeps: each live pointer is in exactly one place |
| `Protocol.RunKeepsInv` | include/segment.h:153-214 | over every interleaving each live pointer is held by a client, entering the queue, queued, kept by the drain or about to be freed, and in exactly one of these |
| `Protocol.NeverHandedOutTwice` | include/segment.h:153-176 | between two returns of the same pointer a client freed it |
| `Protocol.ReturnedWasFree` | include/segment.h:640-668 | a pointer handed out was not with a client and not on its way back |
| `Protocol.FreedIsNeverDropped` | include/segment.h:193-201 | the head is never null when a client frees a pointer it holds |
| `Protocol.ChunkAccounting` | include/segment.h:153-214 | each chunk of each fixed-size page is outstanding in exactly one place or in the page's free list, and used size is the size class times the outstanding chunks |
| `Protocol.ReleasedPageHoldsNothing` | include/segment.h:810-862 | a page released during a drain holds no pointer held, queued or about to be returned |
| `Protocol.PagesOnlyShrink` | include/segment.h:671-720 | over a whole run a bounded segment never grows and never falls below the threshold by recycling |
| `Protocol.OwnerNeverStuck` | include/segment.h:638-669 | inside allocate some owner step is always possible |
| `Protocol.AloneIsAllocate` | include/segment.h:153-176 | without interference the owner's steps compute what the sequential allocate computes |
| `Protocol.AllocateEnds` | include/segment.h:638-669 | an allocation takes at most two owner steps for every pointer that was queued at its start or pushed since, and two more |
| `HeapProtocol.StepKeepsInv` | examples/simple_heap_pow2.h:160-174 | every step of the owner in any bin, and every single read and push of a freeing thread, keeps all bins sound and every pointer on its way right |
| `HeapRuns.RunKeepsInv` | examples/simple_heap_pow2.h:142-174 | over every interleaving of the owner's allocations and any number of frees into a bounded heap |
| `HeapProtocol.RoutedRight` | examples/simple_heap_pow2.h:165-173 | the part that a freed pointer reaches is its own, or the big-object bin without pages, which drops it |
| `HeapProtocol.HeaderNamesBin` | include/segment.h:353-371 | whatever the owner does meanwhile, the header at the masked address of a small object names its own bin |
| `HeapProtocol.FreeAdvances` | examples/simple_heap_pow2.h:160-174 | every step of a free brings it nearer to its end, four steps after its first at the latest, and nobody else's step throws it back |
| `HeapProtocol.FreeNeverStuck` | examples/simple_heap_pow2.h:160-174 | and it always has one to take |
| `HeapProtocol.AloneIsDeallocate` | examples/simple_heap_pow2.h:160-174 | with no interference its steps leave what the heap's deallocate leaves |
| `HeapRuns.NothingLost` | examples/simple_heap_pow2.h:165-173 | in no run is a pointer lost if the big-object bin's recycling threshold is 1 or more, or if the buffer does not lie below the big page size |
| `HeapRuns.NeverHandedOutTwice` | examples/simple_heap_pow2.h:142-155 | the heap never hands a pointer out twice without a client freeing it in between |
| `DeallocationQueue.Queue.Create` | include/deallocation_queue.h:53-98 | fails for zero pages; afterwards only the head page can be reached and the stack is empty |
| `DeallocationQueue.Queue.Push` | include/deallocation_queue.h:100-133 | the linked pages hold the old stack with the pointer on top, across page boundaries and reused pages |
| `DeallocationQueue.Queue.Pop` | include/deallocation_queue.h:135-160 | takes the top of the stack; null if and only if the stack is empty, when only non-null pointers were pushed |
| `ArenaModel.Arena.AllocateAligned` | include/arena_base.h:31-59 | the result is aligned and overlaps nothing mapped before; for whole pages nothing but the region stays mapped if the mapping starts aligned, and for good alignments otherwise everything from the region on |
| `ArenaModel.AlignedStartsExact` | include/arena_base.h:43-58 | trimming leaves every region whole, and regions start at pages, if and only if the alignment is a multiple of the page size or divides it |
| `ArenaModel.Arena.Create` | include/arena.h:83-98 | any alignment is accepted as long as the old one was a multiple of the granularity; for the good ones the cache is whole and aligned |
| `ArenaModel.Arena.Destroy` | include/arena.h:100-117 | exactly the pages from the never-requested part on are unmapped if that part starts at a page, none otherwise |
| `ArenaModel.Arena.Allocate` | include/arena.h:119-139 | a cache with room for the request and one alignment hands out its next bytes and asks the system for nothing; otherwise its unused pages are unmapped and the region is all of a new cache; it is refused only if the system refuses. A region handed out is mapped, overlaps nothing handed out and not released, and is aligned as long as only multiples of the alignment are requested; without address reuse it overlaps nothing ever handed out |
| `ArenaModel.Arena.ReleaseToSystem` | include/arena.h:188-191 | exactly the given bytes stop being owned and mapped; whatever was handed out and is no longer owned is unmapped |
| `Bits.IsPowerOfTwoCorrect` | include/utilities/pow2_utilities.h:34-42 | the bit test is true exactly for powers of two |
| `Pow2Log2.GetFirstPow2Of` | include/utilities/pow2_utilities.h:17-32 | the smearing statements compute the specified value, the least power of two exactly for roundable inputs |
| `Pow2Log2.FirstPow2IsLeast` | include/utilities/pow2_utilities.h:17-32 | the result is the least power of two not below the input if and only if input - 1 has no 32 zero bits in a row below its highest bit and the input is at most 2^63 |
| `Pow2Log2.RoundableUpTo32Bits` | include/utilities/pow2_utilities.h:17-32 | that holds for every input up to 2^32 |
| `Pow2Log2.NotRoundable` | include/utilities/pow2_utilities.h:17-32 | 2^32 + 1 is not rounded to a power of two |
| `Pow2Log2.Log2Loop` | include/utilities/log2_utilities.h:22-30 | the shifting loop computes the recursive logarithm |
| `Pow2Log2.Log2FormsAgree` | include/utilities/log2_utilities.h:11-20 | the recursive and the leading-zero form agree on every non-zero 64-bit number and give the highest set bit |
| `Pow2Log2.BinIndexExact` | include/utilities/size_utilities.h:24-29 | for 1 to 2048 the index is the smallest bin that holds the size if and only if the size is a power of two of at least 16 |
| `Pow2Log2.IndexOf96` | include/utilities/size_utilities.h:21-29 | for the comment's example, 96, the index is 2 and not the 3 it promises |
| `Pow2Log2.BinOfSizeClass` | include/utilities/size_utilities.h:24-29 | the bin index of bin i's size class is i |
| `Pow2Log2.SmallRequestBin` | examples/simple_heap_pow2.h:144-149 | every size from 0 to 2048 goes to a bin in 0..7 whose size class is the smallest that fits |
| `HeapSpec.BinsTileBuffer` | examples/simple_heap_pow2.h:102-132 | bins and big-object bin exactly tile the heap's buffer |
| `HeapSpec.FreshHeap` | examples/simple_heap_pow2.h:73-139 | after creation the pages are exactly the buffer and nothing is held |
| `HeapSpec.HeldInside` | examples/simple_heap_pow2.h:160-174 | a held pointer lies in a page of its own bin and of no other |
| `HeapSpec.BigRouting` | examples/simple_heap_pow2.h:165-173 | the big-object bin claims exactly its own pointers, except if it is bounded, has no page left and the pointer is below the big page size |
| `HeapSpec.MaskRouting` | include/segment.h:353-371 | the masked address of a small object is a page of its own bin and of no other part of the heap |
| `HeapSpec.BoundedHeap` | include/heap_base.h:54-71 | a bounded heap never has a page or a held pointer outside its buffer |
| `HeapSpec.ThresholdKeepsBigPage` | include/segment.h:820-826 | with a recycling threshold of 1 or more a bounded big-object bin keeps its page, so that exception cannot occur |
| `HeapSpec.RoomInside` | examples/simple_heap_pow2.h:142-155 | what a client holds starts at a multiple of 16 and lies in one page of the heap, behind the page header |
| `HeapSpec.RoomApart` | examples/simple_heap_pow2.h:142-155 | what two clients hold shares no byte |
| `HeapSpec.RoomOffHeaders` | examples/simple_heap_pow2.h:142-155 | nor does it share one with any page header of the heap |
| `HeapCorner.BigBinRunsDry` | include/segment.h:810-862 | by real steps of any bounded heap that creation accepts with power-of-two small pages: a big object is served, freed and drained, and with threshold 0 the big-object bin gives its only page back |
| `HeapCorner.LowAddressIsLost` | examples/simple_heap_pow2.h:165-173 | with threshold 0 and a buffer that starts below the big page size there is a run that loses a freed small object |
| `HeapCorner.LossExact` | examples/simple_heap_pow2.h:165-173 | some run of a bounded heap that creation accepts with power-of-two small pages loses a pointer if and only if its big-object bin has threshold 0 and its buffer starts below the big page size |
| `SimpleHeap.Heap.Create` | examples/simple_heap_pow2.h:73-139 | succeeds exactly for accepted parameters, memory and non-empty bins; the heap then holds nothing, its pages are its buffer, and every bin has its own size class, page count, threshold and grow coefficient |
| `SimpleHeap.Heap.RequiredBufferSize` | examples/simple_heap_pow2.h:252-267 | the size of all bins and the big page |
| `SimpleHeap.Heap.Allocate` | examples/simple_heap_pow2.h:142-155 | the pointer comes from the smallest bin that fits, or the big-object bin above 2048, was held nowhere in the heap before, reserves all bytes asked for, and no client loses a byte; no other bin changes; an unbounded heap serves exactly the sizes up to 2048 and up to big page size - 80 unless the system refuses memory |
| `HeapSpec.BoundedAnswerExact` | examples/simple_heap_pow2.h:142-155 | a bounded heap returns the pointer queued last for the bin, and with an empty queue refuses a small request if and only if all pages of the bin do; a big one if and only if it is too large or all pages of the drained bin refuse |
| `HeapSpec.FreshAnswer` | examples/simple_heap_pow2.h:142-155 | the first request to a new bounded heap is served if and only if it is at most 2048 or big page size - 80 |
| `SimpleHeap.Heap.SizeClassFromAddress` | include/segment.h:365-371 | the page header at the masked address is that of the pointer's own bin |
| `SimpleHeap.Heap.Deallocate` | examples/simple_heap_pow2.h:160-174 | by address alone the pointer goes back to the part that served it, over growth and recycling, and no other client loses a byte; it is dropped exactly in the exception above, never with threshold 1 or more; the part has it in its queue, or freed it and gave back its page, and no other part changes |
| `SimpleHeap.Heap.GetUsableSize` | examples/simple_heap_pow2.h:176-187 | a small object's size class, or what the big-object bin says; 0 in the exception above |
| `SimpleHeap.Heap.OwnsPointer` | include/heap_base.h:54-71 | a range test on the buffer that every held pointer of a bounded heap passes |
| `Routing.RouteReaches` | include/scalable_allocator.h:189-200 | the search reaches the holder if and only if no local heap asked before it has the pointer inside its buffer |
| `Routing.RouteIsRight` | include/scalable_allocator.h:189-200 | without reuse of addresses the search reaches the heap that served the pointer, unless a heap whose buffer the system refused claims its low address |
| `Routing.RoomsApart` | include/scalable_allocator.h:113-140 | whatever heaps they come from, what clients hold is aligned, owned, and shares no byte |
| `RoutingCorner.RefusedBufferMisroutes` | include/scalable_allocator.h:189-200 | a central heap low in memory and a local heap whose buffer was refused: without any reuse, an object of the central heap is routed to the local one |
| `RoutingCorner.ReuseMisroutes` | include/scalable_allocator.h:189-200 | with reuse: a bounded heap gives its big page back in a run, the central heap's last bin grows into that page, and the object put there is routed to the bounded heap |
| `Routing.Served` | include/scalable_allocator.h:113-140 | one heap's allocation keeps all heaps apart, and the pointer was held from no heap |
| `CentralProtocol.StepKeepsInv` | include/segment.h:177-214 | on the central heap every locked allocation, look-up and free, and every unlocked read of a page header or a head by a freeing thread, keeps: each live pointer is with exactly one client, and the part it is on its way to is its own |
| `CentralProtocol.RunKeepsInv` | examples/simple_heap_pow2.h:142-174 | so it is over every interleaving, and no pointer is ever lost |
| `CentralProtocol.RoutedRight` | examples/simple_heap_pow2.h:160-174 | the part a freeing thread has chosen served the pointer, and still has pages when its head is read |
| `CentralProtocol.AllocateServes` | include/segment.h:177-190 | a locked allocation that needs no memory or gets it serves exactly by the size |
| `CentralProtocol.FreeAdvances` | examples/simple_heap_pow2.h:160-174 | every step of a free brings it nearer to its end, three steps after its first at the latest, and nobody else's step throws it back |
| `CentralProtocol.AloneIsDeallocate` | examples/simple_heap_pow2.h:160-174 | with no interference its steps leave what the heap's deallocate leaves |
| `AllocatorProtocol.StepKeepsInv` | include/scalable_allocator.h:113-205 | steps of all heaps' owners and clients, new heaps, new threads and searching threads, in any order, keep every heap sound and all heaps apart |
| `AllocatorProtocol.EnterKeepsInv` | include/scalable_allocator.h:189-200 | a thread that searches while slots are filled and taken enters the heap that served its pointer, unless a refused buffer claims the pointer |
| `AllocatorRuns.RunKeepsInv` | include/scalable_allocator.h:113-205 | so they are over every interleaving without address reuse, all memory in use was handed out by the arena, and what it ever handed out only grows |
| `AllocatorRuns.NothingStrays` | include/scalable_allocator.h:179-205 | over every interleaving no freed pointer reaches a wrong heap unless the system refused a local heap its buffer, the central heap loses none, and the local heaps lose none under the parameters of HeapCorner.LossExact |
| `AllocatorRuns.NeverHandedOutTwice` | include/scalable_allocator.h:113-205 | over every interleaving, between two returns of one pointer from whatever heaps a client called deallocate with it |
| `AllocatorRuns.SearchEnds` | include/scalable_allocator.h:189-200 | however many heaps come into use meanwhile, a search asks each active heap at most once and then finds that there is none left |
| `ScalableAllocatorModel.ScalableAllocator.Create` | include/scalable_allocator.h:59-99 | as long as the system refuses nothing, creation succeeds exactly for acceptable parameters; nothing is held then, the number of slots is the metadata size over the heap size, both heaps have their own parameters, and the arena has the capacity asked for |
| `ScalableAllocatorModel.ScalableAllocator.CreateHeaps` | include/scalable_allocator.h:578-599 | the cached heaps are built, no more than there are slots, unless parameters or the system forbid it |
| `ScalableAllocatorModel.ScalableAllocator.CreateLocalHeap` | include/scalable_allocator.h:601-611 | a new heap gets memory apart from all heaps before it; one that cannot be created stays in its slot without pages |
| `ScalableAllocatorModel.ScalableAllocator.GetThreadLocalHeap` | include/scalable_allocator.h:534-576 | a thread keeps its heap; a new thread uses up the next slot, which no thread had before, and gets its heap unless that could not be created; none once active + 1 reaches the number of slots |
| `ScalableAllocatorModel.ScalableAllocator.Allocate` | include/scalable_allocator.h:113-140 | the thread's own heap answers whenever it can, a new one for the first time as `FreshAnswer` says, else the central heap, which refuses only sizes above 2048 and above its big page size - 80 unless the system refuses memory; the pointer was held from no heap, reserves all bytes asked for, and no client of any heap loses a byte |
| `ScalableAllocatorModel.ScalableAllocator.FindHeap` | include/scalable_allocator.h:189-198 | the first active local heap whose buffer holds the pointer, else the central heap |
| `ScalableAllocatorModel.ScalableAllocator.Deallocate` | include/scalable_allocator.h:179-205 | the pointer leaves the set of held pointers through the heap that served it, and no other client loses a byte; it is never lost if it is the central heap's or the local big-object bins have threshold 1 or more; null is ignored |

## Left out

- SegmentModel.Segment.AllocateByGrowing: a failed arena request ends the call; the second request for the minimum count, which then still grows by the desired count, is not modelled.
- SegmentModel.Segment.Allocate: a request that would divide by zero is excluded, because the source's behaviour is undefined there; `DivisionReached` says which ones these are.
- SegmentModel.Segment.Create: the metadata allocator behind the deallocation queue is assumed to answer.
- SegmentModel.Segment.Serve: a page header holds its page as a value, which the two page classes refine on bytes; segment and page objects are not one program.
- SegmentModel.Segment.ProcessDeallocationQueue: runs on the queue as a sequence, which the queue class refines; the two are not one object.
- AnySizePage.LogicalPageAnySize.Allocate: what a wrapped request that seems to fit does to the page is not modelled.
- ArenaModel.Arena.Create: alignment 0 is excluded, because the source divides by it; for alignments that are not good nothing is claimed about the arena after creation.
- ArenaModel.Arena.Allocate: sums of sizes do not wrap; the lock that a failed request leaves held is not modelled, so a later request is not shown to wait for ever.
- ArenaModel.Arena.AllocateAligned: the tail of an over-allocated region whose start had to be moved stays mapped and unused; nothing is claimed about it.
- SimpleHeap.Heap.Allocate: bounded heaps with a small page size that is no power of two are excluded, because draining looks pages up by mask.
- SimpleHeap.Heap.Deallocate: so are all heaps with such a page size.
- SimpleHeap.Heap.SizeClassFromAddress: memory is split into the segments' header maps, so reading a header means finding the map that has it.
- ScalableAllocatorModel.ScalableAllocator.Deallocate: where `RouteReaches` says that the search reaches another heap, what that heap then does with the pointer is not modelled. Each call is one step; interleaving is the subject of `AllocatorProtocol`.
- AllocatorProtocol.StepKeepsInv: addresses are not reused, and which heap and part an allocation begins in is left to the caller; the room of a pointer is not followed over its steps.
- CentralProtocol.StepKeepsInv: what a part's lock covers is one step, and so is what it asks of the arena meanwhile; which part an allocation begins in is left to the caller.
- HeapProtocol.StepKeepsInv: which part an allocation begins in is left to the caller, so its runs include those of the heap's own choice.
- Deferred recycling: its flag is never set again and its loop assumes enough recyclable pages.
- Moving pages between segments at thread exit: the source's link updates lose pages.
- Destruction of segments and heaps, leak reports, statistics, traces and page locking.
- Aligned and resizing allocation of the heap base and the allocator: they free an offset pointer, or rely on the usable size of big objects.
- Double frees and frees of foreign pointers: unchecked by design.
- Segments of one size class over any-size pages, and any-size segments with a size class label.
- The page header's last used node, which is only ever 0.
- Huge pages, NUMA, zeroing, locks as such, the Windows granularity of 64 KB, profiler, reactors and network code.
