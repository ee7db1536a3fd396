/**
 The allocator's state as a value: the same blocks in address order and in list order, the bump
 pointer, and the number of bytes lost to alignment gaps. One function per heap operation.
 */
module HeapModel {
  import opened Blocks

  const PAGE: nat := 0x1000
  // A split must leave more than this many payload bytes behind.
  const SLACK: nat := 4

  datatype Heap = Heap(start: nat, blocks: seq<Block>, order: seq<Block>, bump: nat, gaps: int)

  /** Blocks in address order, pairwise disjoint, inside [lo, hi), the last one ending at hi. */
  ghost predicate Tiled(s: seq<Block>, lo: nat, hi: nat) {
    && (forall i :: 0 <= i < |s| ==> lo <= s[i].addr && s[i].End() <= hi)
    && (forall i, j :: 0 <= i < j < |s| ==> s[i].End() <= s[j].addr)
    && (if s == [] then lo == hi else s[|s| - 1].End() == hi)
  }

  /** Bytes taken by the blocks, tags included. */
  function Spans(s: seq<Block>): nat {
    if s == [] then 0 else HDR + s[0].size + FTR + Spans(s[1..])
  }

  /** What holds between any two heap operations. */
  ghost predicate Inv(h: Heap) {
    && 0 < h.start
    && Tiled(h.blocks, h.start, h.bump)
    && multiset(h.order) == multiset(h.blocks)
    && Ascending(h.order)
    && 0 <= h.gaps
    && Spans(h.blocks) + h.gaps == h.bump - h.start
  }

  function EmptyHeap(start: nat): Heap { Heap(start, [], [], start, 0) }

  // ----- sequences of blocks ------------------------------------------------------------

  function IndexOf(s: seq<Block>, b: Block): (i: nat)
    ensures i <= |s|
    ensures i < |s| <==> b in s
    ensures i < |s| ==> s[i] == b
    ensures forall j :: 0 <= j < i ==> s[j] != b
  {
    if s == [] || s[0] == b then 0 else 1 + IndexOf(s[1..], b)
  }

  function Without(s: seq<Block>, i: nat): seq<Block>
    requires i < |s|
  {
    s[..i] + s[i + 1..]
  }

  function Remove(s: seq<Block>, b: Block): seq<Block> {
    if b in s then Without(s, IndexOf(s, b)) else s
  }

  function Replace(s: seq<Block>, b: Block, c: Block): seq<Block> {
    if b in s then s[IndexOf(s, b) := c] else s
  }

  // ----- growing the heap ---------------------------------------------------------------

  /** insert_heap_entry */
  function Append(h: Heap, size: nat): Heap {
    var b := Block(h.bump, size, true);
    h.(blocks := h.blocks + [b], order := StableSort(h.order + [b]), bump := b.End())
  }

  function NextPage(a: nat): nat { a - a % PAGE + PAGE }

  function Available(a: nat): nat { NextPage(a) - a }

  // The smallest rest of a page that takes a filler block and the next header.
  const FILLER_MIN: nat := 1 + 2 * HDR + FTR

  predicate NeedsFiller(bump: nat) { bump % PAGE == 0 || Available(bump) >= FILLER_MIN }

  function FillerSize(bump: nat): int { Available(bump) - 2 * HDR - FTR }

  function SetUsed(h: Heap, b: Block, used: bool): Heap {
    h.(blocks := Replace(h.blocks, b, b.(used := used)), order := Replace(h.order, b, b.(used := used)))
  }

  /** The bump pointer moved up to (or, with too little room, back to) 24 bytes before the page. */
  function SkipToPage(h: Heap): Heap {
    var bump := NextPage(h.bump) - HDR;
    h.(bump := bump, gaps := h.gaps + bump - h.bump)
  }

  /** insert_heap_entry_page_aligned */
  function AppendAligned(h: Heap, size: nat): Heap {
    if NeedsFiller(h.bump) then
      var filler := Block(h.bump, FillerSize(h.bump), true);
      SetUsed(Append(Append(h, filler.size), size), filler, false)
    else
      Append(SkipToPage(h), size)
  }

  /** Where insert_heap_entry_page_aligned puts the new header. */
  function AlignedAddr(bump: nat): nat { NextPage(bump) - HDR }

  /** The new header fits in front of the page boundary. */
  predicate PageRoom(bump: nat) { Available(bump) >= HDR }

  // ----- reusing a block ----------------------------------------------------------------

  predicate Fits(b: Block, size: nat) { !b.used && size <= b.size }

  predicate Splits(b: Block, size: nat) { !b.used && b.size > HDR + size + FTR + SLACK }

  /** The first block of the list that is taken for a request, or the length of the list. */
  function FirstFit(order: seq<Block>, size: nat): (i: nat)
    ensures i <= |order|
    ensures i < |order| ==> Fits(order[i], size)
    ensures forall j :: 0 <= j < i ==> !Fits(order[j], size)
  {
    if order == [] || Fits(order[0], size) then 0 else 1 + FirstFit(order[1..], size)
  }

  function Taken(b: Block, size: nat): Block { Block(b.addr, size, true) }

  function Rest(b: Block, size: nat): Block
    requires Splits(b, size)
  {
    Block(b.addr + HDR + size + FTR, b.size - HDR - FTR - size, false)
  }

  function Cut(s: seq<Block>, i: nat, size: nat): seq<Block>
    requires i < |s| && Splits(s[i], size)
  {
    s[..i] + [Taken(s[i], size), Rest(s[i], size)] + s[i + 1..]
  }

  function Split(h: Heap, b: Block, size: nat): Heap
    requires b in h.blocks && b in h.order && Splits(b, size)
  {
    h.(blocks := Cut(h.blocks, IndexOf(h.blocks, b), size),
       order := StableSort(Cut(h.order, IndexOf(h.order, b), size)))
  }

  /** The block at list position i is handed out, whole or cut in two. */
  function Take(h: Heap, i: nat, size: nat): Heap
    requires i < |h.order| && h.order[i] in h.blocks
  {
    var b := h.order[i];
    if Splits(b, size) then Split(h, b, size) else SetUsed(h, b, true)
  }

  // ----- coalescing ---------------------------------------------------------------------

  predicate Joinable(a: Block, b: Block) { !a.used && !b.used && a.End() == b.addr }

  function Join(a: Block, b: Block): Block {
    Block(a.addr, a.size + FTR + HDR + b.size, false)
  }

  function JoinAt(s: seq<Block>, q: nat): seq<Block>
    requires q + 1 < |s|
  {
    s[..q] + [Join(s[q], s[q + 1])] + s[q + 2..]
  }

  /** merge_two_heap_entries_linked_list on the blocks at q and q + 1 of the address order. */
  function MergeAt(h: Heap, q: nat): Heap
    requires q + 1 < |h.blocks|
  {
    var a, b := h.blocks[q], h.blocks[q + 1];
    h.(blocks := JoinAt(h.blocks, q),
       order := StableSort(Remove(Remove(h.order, b), a) + [Join(a, b)]))
  }

  /** The block that ends where b starts: its index in s, or -1. b is not the first of s. */
  function LeftOf(s: seq<Block>, b: Block): (q: int)
    ensures q == -1 || (0 <= q < |s| - 1 && s[q].End() == b.addr)
    ensures q == -1 ==> forall j :: 0 <= j < |s| - 1 ==> s[j].End() != b.addr
  {
    if |s| < 2 then -1
    else if s[0].End() == b.addr then 0
    else
      var q := LeftOf(s[1..], b);
      if q == -1 then -1 else q + 1
  }

  /** The block at list position i is FREE and so is its neighbour on the left. */
  predicate Merges(h: Heap, i: nat)
    requires i < |h.order|
  {
    var q := LeftOf(h.blocks, h.order[i]);
    !h.order[i].used && q >= 0 && !h.blocks[q].used
  }

  /** merge_heap_entries_in_entire_linked_list with its cursor at list position i. */
  function MergeFrom(h: Heap, i: nat): Heap
    decreases |h.blocks|, |h.order| - i
  {
    if i >= |h.order| then h
    else if Merges(h, i) then MergeFrom(MergeAt(h, LeftOf(h.blocks, h.order[i])), 0)
    else MergeFrom(h, i + 1)
  }

  function MergeAll(h: Heap): Heap { MergeFrom(h, 0) }

  function FindLocation(order: seq<Block>, address: nat): (i: nat)
    ensures i <= |order|
    ensures i < |order| ==> order[i].Location() == address
    ensures forall j :: 0 <= j < i ==> order[j].Location() != address
  {
    if order == [] || order[0].Location() == address then 0
    else 1 + FindLocation(order[1..], address)
  }

  // ----- the four entry points ----------------------------------------------------------

  /** kernel_heap_malloc and kernel_heap_calloc: the new heap and the address handed out. */
  function Malloc(h: Heap, size: nat): (Heap, nat)
    requires multiset(h.order) == multiset(h.blocks)
  {
    var i := FirstFit(h.order, size);
    if i < |h.order| then
      assert h.order[i] in multiset(h.order);
      (Take(h, i, size), h.order[i].Location())
    else
      (Append(h, size), h.bump + HDR)
  }

  /** kernel_heap_malloc_page_aligned and kernel_heap_calloc_page_aligned. */
  function MallocAligned(h: Heap, size: nat): (Heap, nat) {
    (AppendAligned(h, size), AlignedAddr(h.bump) + HDR)
  }

  /** kernel_heap_free: 0 when a block was freed, 1 when no block has that address. */
  function Free(h: Heap, address: nat): (Heap, nat) {
    var m := MergeAll(h);
    var i := FindLocation(m.order, address);
    if i < |m.order| then (MergeAll(SetUsed(m, m.order[i], false)), 0) else (m, 1)
  }
}
