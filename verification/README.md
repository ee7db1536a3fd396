# HarshOS in Dafny

A model of the parts of HarshOS that manage memory and data: the kernel heap, the page tables, the HarshFS
image builder with its readers, number printing and parsing, and the shell's command history. The code that
works in place is modelled in place, as classes and as loops over arrays; each method is proved against a
function on values, and the promises are proved about that function. `dafny verify dfyconfig.toml` checks
the whole project.

## How it is laid out

| files | contents |
|---|---|
| `Bits`, `Memory` | 32-bit `and`/`or`, words and magic numbers in memory, as arithmetic; what a store leaves alone |
| `Blocks`, `HeapModel` | heap blocks, the reference sort, and one function per heap operation |
| `HeapInvariant`, `Coalescing`, `HeapTheorems` | what every operation keeps, what the merging loop computes, what callers get |
| `Links`, `Tags`, `Splitting`, `StaleLinks`, `Merging` | the list pointers, the headers and footers, how each write changes them, and what a forgotten link costs |
| `LiveBytes`, `KernelHeap` | which bytes a call may write; class `Allocator`: the code of `memory/kernel_heap.c` over headers, footers, pointers and bytes |
| `PageTables`, `Paging`, `BootTables` | the two-level walk, the kernel's page directory built on the heap, the boot loader's tables |
| `Framing`, `FsTree`, `ImageLayout`, `ImageCodec`, `ImageBuilder`, `ImageReader`, `FsTheorems` | HarshFS from framing a payload to reading the image back |
| `HexStrings`, `CommandHistory` | number text, and the shell's history of commands |

## How the heap is modelled

`HeapModel.Heap` holds the same blocks twice: in address order (`blocks`) and in list order (`order`).
`HeapModel.Inv` says that the blocks are disjoint and end at the bump pointer, that the list names each of
them exactly once, that it ascends by size, and that block bytes plus alignment gaps account for every byte
handed out. `KernelHeap.Allocator` holds what the code holds: `headers` and `footers` by address, `head`,
`last`, `mallocable` and the bytes. `Valid()` says that its pointers and tags spell out a `Heap` with `Inv`.
Each method's `ensures` equates its new state with the function of the same name in `HeapModel`.

* A tag is present in `headers` or `footers` where the code would find its magic number. `MemorySet` takes
  away every tag that loses a byte, so that the clearing done by a merge is accounted for. A header is
  written in one go where the code writes its fields one by one.
* No footer magic is assumed to lie in front of the heap's first block or in an alignment gap: those bytes
  are not in `footers`.
* `relinks` says which split is meant. `false` is memory/kernel_heap.c:191-208 as written: the entry behind
  the new one keeps pointing to the entry that was split, and LAST is not moved when the split entry was the
  last. `true` adds these two writes. The sort that follows repairs the committed split exactly when the
  remainder moves towards the front; `Splitting.StaleLink` is that condition, a function of the heap and the
  request. `Allocator.SplitEntry` and `Allocator.FindEntry` prove `Valid()` to hold afterwards if and only
  if the condition says so, and that the stale link names the split entry, which then stands at least two
  places in front (`StaleLinks.PointsPast`). `StaleLinks.StaleLinkExample` and `StaleLinks.StaleRunExample`
  name inputs. A stale link does harm when a write goes through it. If it is LAST, the next insert drops
  every entry behind the one it names; if it is a `previous` field, removing its entry or swapping it with
  the next one drops the entries it skips. Entries in use are lost as well as free ones. Operations that only
  follow `next` do no harm, and a swap of the two entries in front of it repairs the link (`Links.SwapChain`). The block
  layout and the order that the `next` pointers spell out are the intended ones right after the split, either
  way. `Allocator.Run` executes any sequence of calls; with `relinks` it asks for room only, and of the committed
  code also that no request leaves a stale link.
* When fewer than 24 bytes are left in a page, memory/kernel_heap.c:132-137 moves the bump pointer backwards.
  `HeapModel.PageRoom` is the caller's condition, and it is exact: `HeapInvariant.AppendAlignedExact` proves that
  the heap stays in order if and only if it holds, and `HeapTheorems.PageRoomExample` names a heap, one malloc
  away from the empty one, in which it fails. Alignment itself is proved without it.
* A request that no FREE block can take must end inside the address space (`RoomFor`). This also keeps the
  unsigned sum at memory/kernel_heap.c:172 from wrapping (`LiveBytes.GuardDoesNotWrap`). `Splitting.SplitGuardExact` shows when that sum means what it says, and
  `Splitting.WrappedSplitMisses` where the split writes when it does not.

## How the rest is modelled

* Page tables are 32-bit words in the heap's own bytes. `PageTables.Walk` is the translation of section 4.3
  (32-bit paging) of the Intel SDM, volume 3A, for 4 KB pages. A page fault is `None`. The walk reads physical
  memory, of which the kernel's bytes show the first 4 MB (`PageTables.Shows`); the new tables must lie there.
  memory/page_frame_handler.c:80-81 crosses the two permission flags of a new directory entry, and so does the
  model: its entry carries `writeable` in the user bit and `user` in the writeable bit.
  Page-table writes stay inside pages in use, whose bytes hold no header and no footer
  (`Tags.PayloadHoldsNoTags`).
* The boot loader works on physical memory, `BootTables.Loader.mem`; the kernel's bytes show its first 4 MB.
  Boot tables are stated of whatever reads memory (`BootTables.BootTablesIn`), with a flag for the identity
  mapping, which on_boot/start_kernel.s:21-26 takes away before the C code runs. `Pager.StartPaging` assumes that
  they lie below the heap, and that the kernel sees them there when it starts.
* A HarshFS node is identified by the order of its allocation instead of by a host pointer. The pointer size
  `p` of the image is a parameter of at least 4, because the image tool is built for the host and the kernel for
  32 bits; a node takes 264 + 5p bytes.
* initrd/create_kernel_initrd.c:258-262 and 268-272 record a node's address after the counter has been moved, so the
  recorded address is the end of the node's slot. The image is modelled with these addresses, and links are
  decoded as such (`ImageCodec.Resolve`). Followed as plain pointers they name the slot behind
  (`ImageCodec.RecordedAddressIsNextSlot`).
* A data buffer without the header magic is rejected after the new node has been linked
  (initrd/create_kernel_initrd.c:226, 239, 243-247). The model keeps this: `Builder.Valid()` survives an add if and only
  if the request is not of that kind, `FsTree.BadBuffer`, for which `FsTree.BadBufferExample` gives an input.
* The lister of the image tool takes a slot whose name begins like a file header for data, and one whose name
  begins like the image footer for the end. `ImageReader.ListsEverySlot` proves that it lists a tree's image slot
  by slot if and only if there is no such name. Bytes behind the image, which it may read after such a name, are
  taken as zero.
* A first child is compared with its parent's name, later ones with their siblings; the model does the same.
* Names are C strings of fewer than 256 bytes. A data buffer with
  the header magic is assumed to hold the footer magic that the scan looks for.
* `reverse_string_at` ignores where its range starts, except for its length (`HexStrings.ReverseAtExact`).
  `hex_ascii_to_u32` reports an error as 0xFFFFFFFF, which is also the value of valid strings
  (`HexStrings.ParseErrorExact`).
* Popping the full history reads one slot behind the array (drivers/os_shell.c:218); its value is the parameter
  `behindEnd`, and no result depends on it. UP on an empty history reads through a null pointer; its value is the
  parameter `nullLine` (`CommandHistory.UpShowsEntry`).

## Model

| member | source | states |
|---|---|---|
| Blocks.StableSortSorts | memory/kernel_heap.c:441-460 | the reference sort ascends, permutes, and keeps blocks of equal size in their order |
| Blocks.StableSortUnique | memory/kernel_heap.c:441-460 | no other list ascends and keeps equal sizes in order, so this is what sorting has to mean |
| Blocks.SwapKeepsSort | memory/kernel_heap.c:446-455 | swapping two neighbours of unequal size does not change the sorted list |
| Blocks.SwapRemovesInversion | memory/kernel_heap.c:446-455 | every swap removes exactly one inversion: the measure by which the restarts end |
| HeapInvariant.DistinctOrder | memory/kernel_heap.c:47-107 | the list names every physical block once, so no two entries share a header |
| HeapInvariant.AppendAlignedExact | memory/kernel_heap.c:109-150 | a page-aligned request keeps the heap invariant if and only if 24 bytes are left in front of the boundary |
| HeapInvariant.AlignedPayload | memory/kernel_heap.c:109-150 | for every bump address the payload starts on a page, and the filler with its tags reaches exactly to the new header |
| HeapInvariant.AlignedLayout | memory/kernel_heap.c:109-150 | the blocks after a page-aligned request: on a page boundary or with 57 bytes left a FREE filler and the new block, otherwise the new block alone and the gap counted |
| HeapInvariant.PageRoomExact | memory/kernel_heap.c:132-137 | the new header starts inside an existing block if and only if fewer than 24 bytes are left in the page |
| HeapInvariant.SplitInv | memory/kernel_heap.c:172-208 | a split keeps disjointness, both orders, and every byte |
| HeapInvariant.MallocInv | memory/kernel_heap.c:235-258 | malloc keeps the heap invariant for every request |
| HeapInvariant.JoinSpans | memory/kernel_heap.c:367-377 | a merge turns two tags into payload and loses no byte |
| HeapInvariant.MergeAtInv | memory/kernel_heap.c:354-406 | merging two FREE neighbours keeps the heap invariant |
| HeapInvariant.LeftIsPrevious | memory/kernel_heap.c:474-478 | the footer in front of a header belongs to the physical neighbour, and there is none only if there is a gap |
| HeapInvariant.FreeInv | memory/kernel_heap.c:498-516 | free keeps the heap invariant for every address, live or not |
| Coalescing.JoinKeepsCoalesce | memory/kernel_heap.c:354-406 | merging any two FREE neighbours does not change what a left-to-right pass yields |
| Coalescing.CoalescedIffNoMerge | memory/kernel_heap.c:468-489 | the loop finds nothing to merge if and only if no two contiguous blocks are FREE |
| Coalescing.MergeFromCanonical | memory/kernel_heap.c:468-489 | from any point of the loop: it ends with the layout of one left-to-right pass, nothing left to merge, USED blocks and FREE bytes unchanged |
| Coalescing.MergeAllCanonical | memory/kernel_heap.c:468-489 | the whole loop computes one left-to-right pass, though it runs in size order and restarts after each merge |
| Coalescing.NoFreeNeighbours | memory/kernel_heap.c:468-489 | after the loop no FREE block ends where another one starts |
| Coalescing.MergeTurn | memory/kernel_heap.c:472-487 | every byte a turn of the loop clears belonged to a FREE block when the loop started |
| Coalescing.CoalescedUnique | memory/kernel_heap.c:468-489 | USED blocks and FREE bytes determine a fully merged layout |
| Coalescing.CoalescingIsCanonical | memory/kernel_heap.c:468-489 | merging in any other order, until nothing is left to merge, ends in the same layout |
| Coalescing.CoalesceTailFirst | memory/kernel_heap.c:468-489 | merging the blocks behind the first one beforehand makes no difference |
| Coalescing.UnmarkCoalesced | memory/kernel_heap.c:498-510 | merging before a block is marked FREE, as free does, and only afterwards come to the same layout |
| HeapTheorems.FitExists | memory/kernel_heap.c:159-226 | the scan comes back empty-handed if and only if no FREE block is large enough |
| HeapTheorems.FirstFitIsBestFit | memory/kernel_heap.c:159-226 | the block taken is a smallest that fits and comes out at most 36 bytes larger than asked; the heap grows only if none fits |
| HeapTheorems.MallocLayout | memory/kernel_heap.c:172-216 | the blocks after a request: a block more than 36 bytes too large is cut into a USED block of the size asked and a FREE one behind it, any other is handed out whole; else one block is added at the bump pointer |
| HeapTheorems.AppendListed | memory/kernel_heap.c:62-104 | a new block is listed behind all others of its size |
| HeapTheorems.MergeListed | memory/kernel_heap.c:380-403 | so is a merged block, once its parts have left the list |
| HeapTheorems.SplitListed | memory/kernel_heap.c:191-208 | request and remainder take the place of the split block, and blocks of one size keep their order |
| HeapTheorems.FreeLive | memory/kernel_heap.c:498-516 | for every heap and every block in use, free returns 0 and leaves the layout of marking the block and one left-to-right pass |
| HeapTheorems.FreeOther | memory/kernel_heap.c:498-516 | freeing an address at which nothing is in use (freed before, or unknown) only merges, and returns 0 iff a merged FREE block has that address |
| HeapTheorems.FreeUndoesMalloc | memory/kernel_heap.c:498-516 | freeing what a reusing malloc gave leaves what merging alone would have left: in a merged heap the same addresses, sizes and flags, and the list up to equal sizes |
| HeapTheorems.FreeAfterGrowth | memory/kernel_heap.c:498-516 | a malloc that grew the heap leaves its block behind, FREE and merged with a FREE neighbour, in every heap |
| HeapTheorems.StepInv | memory/kernel_heap.c:47-516 | any call leads from a well-formed heap to a well-formed one if and only if it is no page-aligned request with too little room in the page |
| HeapTheorems.PageRoomExample | memory/kernel_heap.c:132-137 | a malloc of 4054 bytes from the empty heap at 0x1000, and any page-aligned request after it, break the invariant |
| HeapTheorems.RunInv | memory/kernel_heap.c:47-516 | in every heap of every run of malloc, calloc, their page-aligned forms and free: blocks disjoint below the bump pointer, the list a sorted permutation of them, and block bytes plus gaps equal to the bytes handed out |
| HeapTheorems.LiveBlocksSurvive | memory/kernel_heap.c:47-516 | over every run a USED block keeps address, size and flag until its own address is freed |
| HeapTheorems.MallocIsDisjoint | memory/kernel_heap.c:235-258 | what malloc hands out overlaps no block in use |
| Links.SwapChain | memory/kernel_heap.c:414-436 | the six pointer writes turn the chain into that of the swapped list, at both ends too, and repair a stale link they pass |
| Links.SortingDone | memory/kernel_heap.c:441-460 | the loop ends in the stable sort, with a stale back link repaired if and only if a larger entry stood in front of it |
| Tags.PayloadHoldsNoTags | memory/kernel_heap.c:291-301 | filling a payload destroys no header and no footer |
| Tags.JoinWipes | memory/kernel_heap.c:367-373 | clearing a merged block removes one footer and one header, those in the middle |
| Tags.FooterInFront | memory/kernel_heap.c:474-478 | a footer stands in front of a header if and only if a block ends there, and it names that block |
| Splitting.SplitChain | memory/kernel_heap.c:176-202 | the committed split leaves a well-formed chain but for one back link, which still names the split entry |
| Splitting.CutSettled | memory/kernel_heap.c:205-208 | only entries up to the remainder can move, and the remainder passes another entry if and only if it is smaller than one listed before it |
| StaleLinks.SplitInFront | memory/kernel_heap.c:191-208 | when the sort has not repaired the back link, it skips at least one entry, wherever the sort has put the two parts |
| StaleLinks.StaleLastLosesEntries | memory/kernel_heap.c:68-86 | the insert after a stale LAST drops every entry behind the one LAST names out of the list |
| StaleLinks.StaleRemoveLosesEntries | memory/kernel_heap.c:330-345 | removing an entry with a stale previous field drops the entries it skips, too |
| StaleLinks.StaleSwapLosesEntries | memory/kernel_heap.c:414-436 | so does swapping it with the entry behind it |
| StaleLinks.StaleLinkExample | memory/kernel_heap.c:191-208 | an 8-byte request to a heap with one 100-byte block leaves LAST stale; a 60-byte request does not |
| StaleLinks.StaleRunExample | memory/kernel_heap.c:191-208 | malloc 50, malloc 200, free of the second, malloc 8: LAST names the first of three entries, and the used one behind it is at stake |
| Splitting.SplitGuardExact | memory/kernel_heap.c:172 | the wrapping guard means what it says for every block if and only if its sum does not wrap |
| Splitting.WrappedSplitMisses | memory/kernel_heap.c:172-180 | if the sum wraps, no block fits, yet every block of 36 bytes or more passes the guard and gets its new footer in front of its payload |
| Merging.FooterInFrontOf | memory/kernel_heap.c:474-478 | the code's tests on footer and flags succeed exactly when the block merges with its neighbour |
| Merging.LiveByteIsNotFreed | memory/kernel_heap.c:498-516 | no byte of a live block is among those a free may clear |
| KernelHeap.Allocator.Swap | memory/kernel_heap.c:414-436 | list positions i and i + 1 change places, sizes and flags do not change |
| KernelHeap.Allocator.Sort | memory/kernel_heap.c:441-460 | terminates with the stable sort of the list and a well-formed chain |
| KernelHeap.Allocator.InsertEntry | memory/kernel_heap.c:47-107 | one USED block at the bump pointer, the list sorted, all pointers and tags in order |
| KernelHeap.Allocator.InsertEntryAligned | memory/kernel_heap.c:109-150 | the masks pick the branch the arithmetic names, and the entry lies 24 bytes in front of the page |
| KernelHeap.Allocator.SplitEntry | memory/kernel_heap.c:172-210 | the block becomes request and remainder; the links are in order if and only if the stated condition holds, and else one back link names the split entry |
| KernelHeap.Allocator.FindEntry | memory/kernel_heap.c:159-226 | returns the first fitting list entry, split or marked, or NULL with nothing changed |
| KernelHeap.Allocator.KernelHeapMalloc | memory/kernel_heap.c:235-258 | new heap, payload address and physical address |
| KernelHeap.Allocator.KernelHeapMallocAligned | memory/kernel_heap.c:267-281 | the address is divisible by 0x1000 and the block is in the heap |
| KernelHeap.Allocator.MemorySet | memory/mem_operations.c:13-16 | the bytes written, and exactly the tags that were hit are gone |
| KernelHeap.Allocator.KernelHeapCalloc | memory/kernel_heap.c:291-301 | malloc, with the payload filled and no other byte touched |
| KernelHeap.Allocator.KernelHeapCallocAligned | memory/kernel_heap.c:311-321 | page-aligned malloc, with the payload filled and no other byte touched |
| KernelHeap.Allocator.RemoveEntry | memory/kernel_heap.c:330-345 | the entry leaves the list, at the ends too, and the chain stays well-formed |
| KernelHeap.Allocator.MergeEntries | memory/kernel_heap.c:354-406 | one merge, or status 1 with nothing changed; exactly the bytes between the outer tags become zero |
| KernelHeap.Allocator.MergeAllEntries | memory/kernel_heap.c:468-489 | terminates as the merging loop of the model; only bytes of FREE blocks change, and they become zero |
| KernelHeap.Allocator.KernelHeapFree | memory/kernel_heap.c:498-516 | marks and merges with status 0, or status 1 for an unknown address; no byte of another live block changes |
| LiveBytes.CallocMisses | memory/kernel_heap.c:291-301 | the bytes that calloc fills lie in no block that was in use |
| LiveBytes.GuardDoesNotWrap | memory/kernel_heap.c:172 | the guard's sum does not wrap for a request that a FREE block can take or that has room to grow |
| KernelHeap.Allocator.Call | memory/kernel_heap.c:235-516 | any of the five calls makes the step of the model and changes no byte of a block that stays in use |
| KernelHeap.Allocator.Run | memory/kernel_heap.c:235-516 | any sequence of calls keeps links, tags and heap in order, goes through the heaps of the model's run, and keeps every block in use, with all its bytes, until it is freed |
| Bits.OrIsSum | on_boot/second_stage_bootsector.s:57 | or-ing into zero bits is addition |
| Bits.PageMask | memory/kernel_heap.c:111 | the mask 0xFFFFF000 gives the start of the page, for every 32-bit address |
| PageTables.TableEntryFields | memory/page_frame_handler.c:138-154 | the field writes yield a present entry with the given frame and flags, whatever was there, and keep bits 3 to 11 |
| PageTables.DirectoryEntryFields | memory/page_frame_handler.c:80-83 | the field writes yield a present entry with the given frame, its two flags crossed, and keep bits 3 to 11, the page-size bit among them |
| PageTables.PresentEntryFields | memory/page_frame_handler.c:67-70 | re-flagging an entry keeps its frame and bits 3 to 11 |
| PageTables.ExactEntry | memory/paging.h:66-75 | frame, flags and the remaining bits determine the word |
| PageTables.KernelTablesMap | memory/paging.c:101-140 | such a directory translates 0xC0000000 + off to off for off < 4 MB, and faults everywhere else, whatever lies beyond the first 4 MB of memory |
| Paging.SecondPage | memory/page_frame_handler.c:74 | a second page-aligned page lands two page sizes behind the boundary, with room guaranteed by the first |
| Paging.NewPageApart | memory/page_frame_handler.c:74 | a page-aligned request keeps a live page and puts the new one behind it |
| Paging.Pager.SetDirectoryEntry | memory/page_frame_handler.c:65-89 | a present entry is re-flagged in place; otherwise a zeroed live page is linked; no byte outside the entry and the new page changes |
| Paging.SetTableEntry | memory/page_frame_handler.c:138-154 | the entry maps the frame of the address, and only its four bytes change |
| Paging.Pager.FillTable | memory/paging.c:122-137 | page i is mapped to frame i for all 1024 entries, and nothing outside the table changes |
| Paging.Pager.SetActive | memory/paging.c:142-150 | CR3 gets the physical address of the directory |
| Paging.Pager.CreateNewPageDirectory | memory/paging.c:101-140 | walking the new directory from CR3 maps exactly the kernel's 4 MB, provided the tables lie in the memory that is mapped; every word of both is given; directory and table are disjoint live pages, and no byte outside them changes |
| Paging.Pager.StartPaging | memory/paging.c:75-99 | a zeroed frame list, then the directory; nothing below the heap changes, so at the switch one memory holds the boot tables and the new ones, and the switch keeps every translation but the identity mapping, if that is still there |
| BootTables.Loader.FillTable | on_boot/second_stage_bootsector.s:49-67 | entry i names page i, with the three flag bits set, and no byte outside the table changes |
| BootTables.Loader.SetupDirectory | on_boot/second_stage_bootsector.s:73-88 | the two assembled entries get their flags, all others stay empty, and no byte outside the directory changes |
| BootTables.Loader.Setup | on_boot/second_stage_bootsector.s:24-36 | whatever else memory holds, the tables map the first 4 MB at 0 and at 0xC0000000, and nothing else; every word of both is given, its flags being present, writeable and user |
| BootTables.Loader.Invalidate | on_boot/start_kernel.s:21-26 | clearing entry 0 takes away the identity mapping and keeps the kernel's |
| BootTables.BootTablesTranslate | on_boot/second_stage_bootsector.s:112-125 | the translation of the boot tables in any memory that holds them, with and without the identity mapping |
| BootTables.KernelSeesTables | on_boot/second_stage_bootsector.s:109-110 | the tables left in physical memory are those the kernel sees at its base |
| BootTables.BootTablesStand | memory/paging.c:101-140 | boot tables below an address still stand in memory when only bytes above it have changed |
| BootTables.SwitchKeepsKernel | memory/paging.c:142-150 | in one memory that holds both: loading CR3 changes the translation of an address if and only if the boot tables still map it to itself, and keeps the kernel's 4 MB |
| Framing.CheckValidity | initrd/create_kernel_initrd.c:90-104 | 0 exactly for a buffer that starts with the header magic |
| Framing.GetDataSize | initrd/harshfs.c:62-74 | the distance from the header to the first footer magic |
| Framing.CreateData | initrd/create_kernel_initrd.c:120-146 | a new buffer holding header magic, payload and footer magic |
| Framing.NoStraddle | initrd/create_kernel_initrd.c:106-118 | no match of a magic number can begin in front of a place where that number stands and end inside it |
| Framing.FindMarked | initrd/harshfs.c:34-74 | a scan towards a magic number stops at its first occurrence in front, or else at it, whatever follows |
| Framing.ScanOfFrame | initrd/create_kernel_initrd.c:106-118 | the size read back is the place of the payload's first footer magic |
| Framing.FramingRoundTrip | initrd/create_kernel_initrd.c:106-146 | the size survives framing if and only if the payload does not contain the footer magic |
| Framing.FramedBytes | initrd/create_kernel_initrd.c:120-146 | the bytes around a payload |
| FsTree.InsertKeepsTree | initrd/create_kernel_initrd.c:198-254 | every accepted insert keeps the tree well-formed |
| FsTree.InsertedFields | initrd/create_kernel_initrd.c:171-254 | an accepted insert adds one node with the name, kind, data and parent asked for, last among its siblings, and changes nothing in the others but a forward link |
| FsTree.BadBufferExample | initrd/create_kernel_initrd.c:226-247 | a new file "b" with four zero bytes as data is such a request |
| FsTheorems.BuildInv | initrd/create_kernel_initrd.c:256-274 | every tree of every sequence of adds, accepted or rejected, is well-formed, bad buffers apart |
| FsTheorems.BuildFields | initrd/create_kernel_initrd.c:256-274 | over a whole build the node of every accepted request keeps the name, kind, data and parent asked for |
| FsTheorems.ErrorExact | initrd/create_kernel_initrd.c:198-254 | the exact condition of each error code and of acceptance, with children found by their parent link |
| FsTheorems.LinksAreAcyclic | initrd/create_kernel_initrd.c:171-196 | next, previous and parent pointers agree with each other, and all links but the back links go to later nodes |
| FsTheorems.SiblingNamesDiffer | initrd/create_kernel_initrd.c:217-241 | no two children of one parent share a name |
| FsTheorems.WalkVisitsChildren | initrd/create_kernel_initrd.c:228-241 | a walk over a directory visits its children in the order they were added, and ends |
| FsTheorems.ListedOnce | initrd/create_kernel_initrd.c:198-254 | a node is listed under its parent and nowhere else |
| FsTheorems.TreeImageRoundTrip | initrd/create_kernel_initrd.c:370-432 | for every well-formed tree, every slot of the image decodes to its node |
| FsTheorems.FramedPayloadSurvives | initrd/create_kernel_initrd.c:120-146 | a framed payload comes out of the image unchanged if and only if it is free of the footer magic |
| FsTheorems.ImageDeterminesTree | initrd/create_kernel_initrd.c:370-432 | trees with equal images have equally many nodes, equal nodes, and the same children in the same order |
| FsTheorems.BuildImage | initrd/create_kernel_initrd.c:565-620 | any sequence of adds, the footer and the image: every accepted request's node is in the final tree as asked for, stands in the image byte by byte, reads back from it, and is listed with its address |
| ImageLayout.ImageLength | initrd/create_kernel_initrd.c:186-190 | the image has overall_fs_size bytes: slots, payloads, magics, and eight for every empty frame |
| ImageLayout.RegionBounds | initrd/create_kernel_initrd.c:378-424 | every slot lies in front of the data, every payload between the slots and the footer |
| ImageLayout.FooterBounds | initrd/create_kernel_initrd.c:428-432 | the footer ends inside overall_fs_size, and at its end iff no frame is empty |
| ImageLayout.RegionsAreDisjoint | initrd/create_kernel_initrd.c:378-424 | the slots of two nodes never overlap, and neither do their payloads |
| ImageCodec.ResolveAddress | initrd/create_kernel_initrd.c:34-63 | a recorded address identifies its node |
| ImageCodec.ImageRoundTrip | initrd/create_kernel_initrd.c:378-428 | name, type, size, four links and payload of a node are read back from its slot |
| ImageCodec.ImageHoldsNode | initrd/harshfs.h:50-58 | every field of a node at its place in the slot: name, kind, padding, size, four links; the data pointer is null iff there is no data or its size is 0, and else names the place of the frame |
| ImageCodec.ImageEnds | initrd/create_kernel_initrd.c:378-432 | the magic numbers in front of the slots and behind the data, and zeros behind them |
| ImageCodec.RecordedAddressIsNextSlot | initrd/create_kernel_initrd.c:256-274 | a recorded address is where the next slot starts |
| ImageBuilder.Add4Bytes | initrd/create_kernel_initrd.c:360-368 | the most significant byte first, and no other byte changes |
| ImageBuilder.PartialStep | initrd/create_kernel_initrd.c:378-424 | one turn with its two cursors turns the image of k nodes into that of k + 1 |
| ImageBuilder.Builder.AddNodeAddress | initrd/create_kernel_initrd.c:34-50 | one entry behind all others, with the counter's address |
| ImageBuilder.Builder.GetNodeAddress | initrd/create_kernel_initrd.c:52-63 | the end of the node's slot, and 0 for no node or one not in the table |
| ImageBuilder.Builder.FindSibling | initrd/create_kernel_initrd.c:217-241 | whether the name is taken, and the child to link behind |
| ImageBuilder.Builder.SetNode | initrd/create_kernel_initrd.c:171-196 | the node's fields, size and count for good data; -1 and nothing counted for a wrong header |
| ImageBuilder.Builder.InsertNode | initrd/create_kernel_initrd.c:198-254 | the error for every request, the tree on success, the unchanged tree on rejection by name, parent or type |
| ImageBuilder.Builder.AddFile | initrd/create_kernel_initrd.c:256-264 | on success one node of kind 0 with the name, data and parent asked for; a rejected name or parent changes nothing; tree, table and counters agree afterwards iff the request was not good but for data without a header |
| ImageBuilder.Builder.AddDirectory | initrd/create_kernel_initrd.c:266-274 | on success one node of kind 1 with the name and parent asked for; a rejected add changes nothing; tree, table and counters always agree afterwards |
| ImageBuilder.Builder.CountTrailer | initrd/create_kernel_initrd.c:614-615 | both counters take the footer into account |
| ImageBuilder.Builder.WriteNode | initrd/create_kernel_initrd.c:378-424 | the payload at the data cursor and the slot at the node cursor, and no other byte |
| ImageBuilder.Builder.CreateImage | initrd/create_kernel_initrd.c:370-432 | the buffer is the image of the tree, with every node at its place byte by byte, and the data cursor ends at the footer |
| ImageReader.ReadImage | initrd/create_kernel_initrd.c:499-518 | the loop prints a node at the offsets of the listing, for every image for which it ends at all |
| ImageReader.ListsEverySlot | initrd/create_kernel_initrd.c:499-518 | the listing of a tree's image is its n slots, each once and in order, if and only if no name begins like a file header or an image footer |
| ImageReader.OddNameSkipped | initrd/create_kernel_initrd.c:502-511 | the first slot with such a name is never visited; if the root's name begins like a file header, the loop never ends |
| ImageReader.OddNameJumps | initrd/create_kernel_initrd.c:504-505 | a name that begins like a file header makes the loop jump by the sizes seen so far and eight bytes for every node |
| ImageReader.JumpLeaves | initrd/create_kernel_initrd.c:504-511 | the over-counted jump over the data always ends the loop |
| ImageReader.TreeListable | initrd/create_kernel_initrd.c:171-274 | every well-formed tree meets the conditions of these three |
| ImageReader.MeasureImage | initrd/harshfs.c:137-165 | the first header magic, and the distance to the end of the first footer magic behind it |
| ImageReader.HeaderFound | initrd/harshfs.c:137-139 | the header the scan finds is the image's iff the header magic does not lie in the bytes scanned before it |
| ImageReader.FooterFound | initrd/harshfs.c:160-165 | a scan of the image stops at overall_fs_size iff the footer magic is not in its content and no frame is empty |
| ImageReader.LoaderMeasures | initrd/harshfs.c:137-165 | for an image anywhere in memory, start and size measured are the image's iff these conditions hold together |
| HexStrings.ReverseStringAt | helper/string.c:45-56 | reverses the first to - from characters in place, or reports -1 |
| HexStrings.ReverseAtExact | helper/string.c:45-56 | this is the reversal of [from, to) for every string iff from is 0 or the range is shorter than two |
| HexStrings.ReverseString | helper/string.c:58-62 | the string in front of the NUL is reversed, the rest of the buffer unchanged |
| HexStrings.U32ToHexAscii | helper/string.c:96-109 | the buffer starts with 0x, the digits without leading zeros, and NUL |
| HexStrings.HexAsciiToU32 | helper/string.c:111-130 | folds the characters behind the first two, and gives up on the first that is no hex digit |
| HexStrings.ShiftInIsArithmetic | helper/string.c:114-127 | shift and or are base-16 arithmetic modulo 2^32 |
| HexStrings.ParseDenotes | helper/string.c:111-130 | a digit string parses to the number it denotes, modulo 2^32 |
| HexStrings.DigitsDenote | helper/string.c:96-109 | the digits printed denote the number |
| HexStrings.DigitCharacters | helper/string.c:114-127 | which characters are printed for a digit, and which are read as one |
| HexStrings.TextPrefixes | helper/string.c:64-109 | 0x in front of hex digits, a minus sign in front of the digits of a negative number |
| HexStrings.HexRoundTrip | helper/string.c:96-130 | parsing what was printed gives back every 32-bit number |
| HexStrings.PrintThenParse | helper/string.c:96-130 | printing into a buffer and parsing that buffer returns the number |
| HexStrings.ParseErrorExact | helper/string.c:111-130 | 0xFFFFFFFF is returned for a string with a bad character, for one whose digits denote it modulo 2^32, and for no other |
| HexStrings.ParseThenPrint | helper/string.c:96-130 | printing the parse of one to eight hex digits gives upper case without leading zeros |
| HexStrings.IntToAscii | helper/string.c:64-79 | the buffer starts with the signed decimal text and NUL |
| HexStrings.DecimalRoundTrip | helper/string.c:64-79 | the decimal text denotes the number printed |
| CommandHistory.History.PopHistory | drivers/os_shell.c:213-220 | every slot takes the next one's line, and the last what lies behind the array |
| CommandHistory.History.PushHistory | drivers/os_shell.c:222-239 | the slots hold the last ten lines, whatever lay behind the array |
| CommandHistory.History.EnterLine | drivers/os_shell.c:241-257 | a line that is not empty is pushed, and the line is cleared |
| CommandHistory.History.UpOrDown | drivers/os_shell.c:120-148 | UP steps back and DOWN forward by at most one entry, and the line shown is the entry's; DOWN onto the end shows an empty line |
| CommandHistory.PushRemembers | drivers/os_shell.c:222-239 | a push forgets the oldest line of a full history, and nothing otherwise |
| CommandHistory.RunKeepsHistory | drivers/os_shell.c:120-239 | after any run the history is the last ten lines entered, in order, and the cursor is in range |
| CommandHistory.UpsMove | drivers/os_shell.c:124-130 | k UPs go back k entries, no further than the oldest, and show the entry at the cursor |
| CommandHistory.EnterMovesToEnd | drivers/os_shell.c:222-257 | entering a line puts the cursor behind the newest command and clears the line; an empty line does nothing |
| CommandHistory.UpAfterEnter | drivers/os_shell.c:120-130 | UP right after a command shows that command |
| CommandHistory.UpsRecall | drivers/os_shell.c:120-257 | after any run that ends in a command, k UPs show the k-th last command entered |
| CommandHistory.DownAtEnd | drivers/os_shell.c:131-146 | DOWN at the end changes nothing, and DOWN onto the end shows an empty line |
| CommandHistory.DownsUndoUps | drivers/os_shell.c:120-148 | k DOWNs undo k UPs iff the cursor could go back k entries or stood at the end |
| CommandHistory.UpShowsEntry | drivers/os_shell.c:124-130 | UP shows the entry at the cursor for every history but the empty one |

## Left out

- HeapTheorems.RunInv: page-aligned steps need `PageRoom`; by `HeapTheorems.StepInv` the claim is false of any step without it.
- KernelHeap.Allocator.InsertEntryAligned: needs `PageRoom`, without which the new header overwrites part of a block; what the overwritten bytes then mean to later calls is not modelled.
- KernelHeap.Allocator.KernelHeapMallocAligned: needs `PageRoom`, as above.
- KernelHeap.Allocator.KernelHeapCallocAligned: needs `PageRoom`, as above.
- KernelHeap.Allocator.KernelHeapMalloc: a request that no FREE block can take must end inside the address space; the code checks nothing there.
- KernelHeap.Allocator.KernelHeapCalloc: the same room as for malloc.
- KernelHeap.Allocator.FindEntry: sizes whose guard sum wraps are excluded, since there the split writes outside its payload (`Splitting.WrappedSplitMisses`).
- KernelHeap.Allocator.Call: of the committed code, requests that leave a stale link are excluded, since the next call could not go on; page-aligned requests need `PageRoom`.
- KernelHeap.Allocator.Run: the same; what the committed code does after a stale link is described by the three lemmas of `StaleLinks` on inserting, removing and swapping, not by a run.
- KernelHeap.Allocator.InsertEntry: the block must end inside the address space, which the code does not check; a header is one map entry, so a write over part of it takes away the whole; reads of half-written headers are not modelled.
- Framing.CheckValidity: requires the footer magic behind a header magic; without it the code reads past the buffer.
- Framing.GetDataSize: requires the footer magic behind a header magic; without it the code reads past the buffer.
- FsTheorems.BuildInv: a build goes on only while no bad buffer is added; after one the tree holds a link to freed memory, and `Builder.Valid()` is false.
- ImageBuilder.Builder.AddFile: what the tool does with a tree that holds such a link is not followed further.
- ImageReader.MeasureImage: requires both magics in memory; without them the code scans on.
- ImageReader.ReadImage: requires that the listing ends; bytes behind the image are taken as zero.
- ImageCodec.ImageRoundTrip: every address of the image must be a 32-bit address, as the fields it is stored in are.
- FsTheorems.BuildImage: needs a root, room in the address space, and no bad buffer among the requests.
- ImageBuilder.Builder.CreateImage: needs a root, since without one the code would place the footer at an address below the buffer.
- Paging.Pager.StartPaging: the boot tables are assumed to stand below the heap when it is called; that nothing before it has written to them is not proved.
- Paging.Pager.CreateNewPageDirectory: requires heap room for two page-aligned pages, which the code does not check, and claims no translation for tables beyond the 4 MB that are mapped.
- HexStrings.IntToAscii: excludes the least int, whose negation overflows in C.
- CommandHistory.History.EnterLine: the 255-byte limit of the line buffer and the command's own effects are not modelled.
- PageTables.DirectoryEntryFields: nothing is claimed about access rights, since the crossed flags give rights other than those asked for.
- The frame bitmap (memory/page_frame_handler.c:19-56): the function that should set a frame's state never stores it, so allocation properties are not what the code does.
- Paging of single pages on demand and freeing them (memory/page_frame_handler.c:103-136, 156-170), and the page fault handler.
- The mapping loop of load_harshfs_kernel_image (initrd/harshfs.c:112-124), which runs one entry past its table at hard-coded addresses; only its scan is modelled.
- kernel_malloc.c: a plain bump allocator; only the bump pointer it shares with the heap is modelled.
- Queries that only walk the heap's list (length, lookup, printing).
- u8_to_hex_ascii (helper/string.c:81-94): the loop of u32_to_hex_ascii on a smaller type.
- File reading and writing, printing, and the command line of the image tool.
- Screen, keyboard, timer, ports, interrupts, inline assembly, and the commands of the shell: hardware input and output, or finite tables.
