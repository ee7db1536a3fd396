/** The kernel heap: headers, footers and the size-sorted list, updated in place. */
module KernelHeap {
  import opened Bits
  import opened Blocks
  import opened HeapModel
  import opened HeapInvariant
  import opened HeapTheorems
  import opened Coalescing
  import opened Links
  import opened Tags
  import opened Splitting
  import opened Merging
  import opened LiveBytes
  import opened StaleLinks

  class Allocator {
    // The kernel's address space; an address is an index.
    const mem: array<u8>
    // KERNEL_END_VIRTUAL_ADDRESS and KERNEL_VIRTUAL_MAPPED_BASE.
    const start: nat
    const virtualBase: nat
    // false: a split leaves the back link of the following entry alone, as committed. true: it repairs it.
    const relinks: bool

    var headers: Headers
    var footers: Footers
    // HEAP_LINKED_LIST_HEAD, HEAP_LINKED_LIST_LAST and mallocable_address.
    var head: nat
    var last: nat
    var mallocable: nat

    ghost var order: seq<Block>
    ghost var blocks: seq<Block>
    ghost var gaps: int

    ghost function Model(): Heap
      reads this
    {
      Heap(start, blocks, order, mallocable, gaps)
    }

    /** Everything is in order, except perhaps the back link at list position k. */
    ghost predicate ValidBut(k: int)
      reads this
    {
      && Chain(headers, head, last, order, k)
      && Tagged(headers, footers, blocks)
      && Inv(Model())
      && mallocable <= mem.Length < U32_LIMIT
      && FTR <= start && virtualBase <= start
    }

    ghost predicate Valid()
      reads this
    {
      ValidBut(-1)
    }

    /** A new block of this size, placed at the given address, ends inside the address space. */
    predicate Room(addr: nat, size: nat) { addr + HDR + size + FTR <= mem.Length }

    constructor (mem: array<u8>, start: nat, virtualBase: nat, relinks: bool)
      requires FTR <= start <= mem.Length < U32_LIMIT && virtualBase <= start
      ensures Valid() && Model() == EmptyHeap(start)
      ensures this.mem == mem && this.start == start && this.virtualBase == virtualBase && this.relinks == relinks
    {
      this.mem, this.start, this.virtualBase, this.relinks := mem, start, virtualBase, relinks;
      headers, footers, head, last, mallocable := map[], map[], NULL, NULL, start;
      order, blocks, gaps := [], [], 0;
    }

    /** swap_heap_entry_linked_list, on the list positions i and i + 1. */
    method Swap(prev: nat, next: nat, ghost i: nat, ghost k: int)
      requires Chain(headers, head, last, order, k)
      requires i + 1 < |order| && prev == order[i].addr && next == order[i + 1].addr && i != k && i + 1 != k
      modifies this`headers, this`head, this`last, this`order
      ensures order == Swapped(old(order), i)
      ensures Chain(headers, head, last, order, if k == i + 2 then -1 else k)
      ensures SameEntries(old(headers), headers)
      ensures 0 <= k <= |order| && k != i + 2 ==> BackLink(headers, last, order, k) == old(BackLink(headers, last, order, k))
    {
      hide Chain, SwapLinks;
      SwapReads(headers, head, last, order, k, i);
      var prevPrev := headers[prev].previous;
      var nextNext := headers[next].next;
      if prevPrev != NULL {
        headers := SetNext(headers, prevPrev, next);
      } else {
        head := next;
      }
      if nextNext != NULL {
        headers := SetPrevious(headers, nextNext, prev);
      } else {
        last := prev;
      }
      headers := SetNext(headers, prev, nextNext);
      headers := SetPrevious(headers, prev, next);
      headers := SetNext(headers, next, prev);
      headers := SetPrevious(headers, next, prevPrev);
      SwapWritesLinks(old(headers), prev, next, prevPrev, nextNext);
      assert headers == SwapWrites(old(headers), prev, next, prevPrev, nextNext);
      SwapChain(old(headers), headers, old(head), old(last), order, k, i);
      SameEntriesOf(old(headers), headers, prev, next, prevPrev, nextNext);
      order := Swapped(order, i);
    }

    /** sort_heap_entry_linked_list. k is the one back link that may be wrong when it starts, or -1. */
    method Sort(ghost k: int) returns (ghost left: int)
      requires Chain(headers, head, last, order, k) && SettledFrom(order, k)
      requires Tagged(headers, footers, blocks)
      modifies this`headers, this`head, this`last, this`order
      ensures order == StableSort(old(order))
      ensures left == (if Outranked(old(order), k) then -1 else k)
      ensures Chain(headers, head, last, order, left)
      ensures Tagged(headers, footers, blocks)
      ensures |order| == |old(order)|
      ensures left != -1 ==> order[k - 1] == old(order)[k - 1]
      ensures k != -1 ==> UnmovedFrom(old(order), order, k)
      ensures left != -1 ==> BackLink(headers, last, order, k) == old(BackLink(headers, last, order, k))
      ensures SameEntries(old(headers), headers)
    {
      left := k;
      var entry := head;
      ghost var i: nat := 0;
      if |order| > 0 { assert Forward(headers, order, 0); }
      while entry != NULL
        invariant Chain(headers, head, last, order, left)
        invariant SameEntries(old(headers), headers)
        invariant Sorting(old(order), order, k, left)
        invariant left == k != -1 ==> BackLink(headers, last, order, k) == old(BackLink(headers, last, order, k))
        invariant i <= |order| && entry == AddrAt(order, i) && (entry == NULL ==> i == |order|)
        invariant forall j :: 0 <= j < i && j + 1 < |order| ==> order[j].size <= order[j + 1].size
        decreases Inversions(order), |order| - i
      {
        assert Forward(headers, order, i);
        if i + 1 < |order| { assert Forward(headers, order, i + 1); }
        var next := headers[entry].next;
        if next != NULL && headers[entry].size > headers[next].size {
          SortingStep(old(order), order, k, left, i);
          Swap(entry, next, i, left);
          left := if left == i + 2 then -1 else left;
          assert Forward(headers, order, 0);
          entry, i := head, 0;
        } else {
          entry, i := next, i + 1;
        }
      }
      SortingDone(old(order), order, k, left);
      SameTags(old(headers), headers, footers, blocks);
    }

    // ----- growing ----------------------------------------------------------------------

    /** The state insert_heap_entry starts from: the bump pointer may lie above the last block. */
    ghost predicate ReadyToGrow()
      reads this
    {
      && Linked(headers, head, last, order)
      && Tagged(headers, footers, blocks)
      && Growable(Model())
      && mem.Length < U32_LIMIT && FTR <= start && virtualBase <= start
    }

    /** insert_heap_entry */
    method InsertEntry(size: nat) returns (entry: nat)
      requires ReadyToGrow() && Room(mallocable, size)
      modifies this
      ensures Valid() && Model() == Append(old(Model()), size)
      ensures entry == old(mallocable)
    {
      hide Growable, Inv, StableSort, Chain, Tagged;
      ghost var b := Block(mallocable, size, true);
      ghost var grown := Append(Model(), size);
      AppendInvFrom(Model(), size);
      InsertLinks(headers, footers, head, last, Model(), b);
      entry := mallocable;
      var previous := NULL;
      if head == NULL {
        head := entry;
      } else {
        headers := SetNext(headers, last, entry);
        previous := last;
      }
      last := entry;
      mallocable := mallocable + HDR;
      headers := headers[entry := Header(mallocable, size, true, NULL, previous)];
      mallocable := mallocable + size;
      footers := footers[mallocable := entry];
      mallocable := mallocable + FTR;
      order, blocks := order + [b], blocks + [b];
      assert headers == InsertWrites(old(headers), old(last), b);
      var _ := Sort(-1);
      assert Model() == grown;
    }

    /** entry->is_used = used */
    method SetFlag(entry: nat, used: bool, ghost b: Block)
      requires Valid() && b in blocks && entry == b.addr
      modifies this`headers, this`order, this`blocks
      ensures Valid() && Model() == SetUsed(old(Model()), b, used)
    {
      hide Inv;
      SetUsedInv(Model(), b, used);
      ghost var i, p := IndexOf(order, b), IndexOf(blocks, b);
      RelabelChain(headers, head, last, order, -1, i, b.(used := used));
      assert Forward(headers, order, i);
      headers := headers[entry := headers[entry].(used := used)];
      RelabelTags(old(headers), headers, footers, blocks, p, used);
      order, blocks := order[i := b.(used := used)], blocks[p := b.(used := used)];
    }

    /** The branches of insert_heap_entry_page_aligned that fill up the page with a FREE entry. */
    method InsertBehindFiller(size: nat) returns (entry: nat)
      requires Valid() && NeedsFiller(mallocable) && Room(AlignedAddr(mallocable), size)
      modifies this
      ensures Valid() && Model() == AppendAligned(old(Model()), size)
      ensures entry == AlignedAddr(old(mallocable))
    {
      hide Inv, Growable, Chain, Tagged, StableSort, SetUsed;
      InvGrowable(Model());
      ghost var filler := Block(mallocable, FillerSize(mallocable), true);
      ghost var h1 := Append(Model(), filler.size);
      var rest := InsertEntry(Available(mallocable) - 2 * HDR - FTR);
      InvGrowable(Model());
      entry := InsertEntry(size);
      assert Model() == Append(h1, size);
      FillerThere(old(Model()), filler.size, size);
      SetFlag(rest, false, filler);
    }

    /** insert_heap_entry_page_aligned */
    method InsertEntryAligned(size: nat) returns (entry: nat)
      requires Valid() && PageRoom(mallocable) && Room(AlignedAddr(mallocable), size)
      modifies this
      ensures Valid() && Model() == AppendAligned(old(Model()), size)
      ensures entry == AlignedAddr(old(mallocable))
    {
      hide Inv, Growable, Chain, Tagged, BitAnd, Append;
      PageMask(mallocable);
      PageOffset(mallocable);
      var nextPage := BitAnd(mallocable, 0xFFFFF000) + 0x1000;
      var available := nextPage - mallocable;
      if BitAnd(mallocable, 0xFFF) == 0 || available >= 0x1 + 2 * HDR + FTR {
        entry := InsertBehindFiller(size);
      } else {
        SkipGrowable(Model());
        gaps := gaps + nextPage - HDR - mallocable;
        mallocable := nextPage - HDR;
        entry := InsertEntry(size);
      }
    }

    // ----- reusing ----------------------------------------------------------------------

    /** The writes of a split, up to the point where the list would be sorted. */
    method CutEntry(entry: nat, size: nat, ghost j: nat) returns (newEntry: nat)
      requires Valid() && j < |order| && entry == order[j].addr && Splits(order[j], size) && order[j] in blocks
      modifies this`headers, this`footers, this`order, this`blocks
      ensures order == Cut(old(order), j, size) && blocks == Cut(old(blocks), IndexOf(old(blocks), old(order)[j]), size)
      ensures Chain(headers, head, last, order, j + 2) && Tagged(headers, footers, blocks)
      ensures BackLink(headers, last, order, j + 2) == entry && newEntry == order[j + 1].addr && newEntry != entry
    {
      hide Inv, Tagged, Chain, SplitWrites, CutFooters, Cut;
      ghost var b, p := order[j], IndexOf(blocks, order[j]);
      CutPlaces(order, j, size);
      RestIsFresh(Model(), b, size);
      SplitChain(headers, head, last, order, j, size);
      TiledIsSpreadIn(Model());
      EntryFlag(headers, head, last, order, -1, j);
      SplitWritten(headers, footers, b, size);

      var newFooter := headers[entry].location + size;
      footers := footers[newFooter := entry];
      newEntry := newFooter + FTR;
      var newSize := headers[entry].size - HDR - FTR - size;
      headers := headers[newEntry := Header(newEntry + HDR, newSize, false, headers[entry].next, entry)];
      headers := headers[entry := headers[entry].(next := newEntry, size := size)];
      var oldFooter := newEntry + HDR + newSize;
      footers := footers[oldFooter := newEntry];
      headers := headers[entry := headers[entry].(used := true)];

      assert headers == SplitWrites(old(headers), b, size) && footers == CutFooters(old(footers), b, size);
      CutTags(old(headers), headers, old(footers), blocks, p, size);
      order, blocks := Cut(order, j, size), Cut(blocks, p, size);
    }

    /** The two writes the committed split lacks: the entry behind the new one, or LAST, points back to it. */
    method Relink(newEntry: nat, ghost k: nat)
      requires Chain(headers, head, last, order, k) && Tagged(headers, footers, blocks)
      requires 0 < k <= |order| && newEntry == order[k - 1].addr
      modifies this`headers, this`last
      ensures Linked(headers, head, last, order) && Tagged(headers, footers, blocks)
    {
      RepairChain(headers, head, last, order, k);
      assert Forward(headers, order, k - 1);
      if k < |order| { assert Forward(headers, order, k); }
      var following := headers[newEntry].next;
      if following != NULL {
        headers := SetPrevious(headers, following, newEntry);
      } else {
        last := newEntry;
      }
      SameTags(old(headers), headers, footers, blocks);
    }

    /** The back link at list position k names this entry, which stands further in front. */
    ghost predicate StaleAt(k: int, entry: nat)
      reads this
    {
      0 <= k && exists j :: 0 <= j < |order| && PointsPast(headers, last, order, k, j) && order[j].addr == entry
    }

    /** The split inside find_empty_heap_entry. j is the entry's list position. */
    method SplitEntry(entry: nat, size: nat, ghost j: nat) returns (ghost left: int)
      requires Valid() && j < |order| && entry == order[j].addr && Splits(order[j], size) && order[j] in blocks
      modifies this`headers, this`footers, this`head, this`last, this`order, this`blocks
      ensures Model() == Split(old(Model()), old(order)[j], size)
      ensures left == if relinks || RestSinks(old(order), j, size) then -1 else j + 2
      ensures ValidBut(left)
      ensures Valid() <==> left == -1
      ensures left != -1 ==> StaleAt(left, entry)
    {
      hide Inv, StableSort, Ascending, Tagged, Cut, Outranked, SettledFrom, RestSinks;
      SplitInv(Model(), order[j], size);
      InvAscending(Model());
      CutSettled(order, j, size);
      IndexOfDistinct(order, j);
      ghost var b := order[j];
      CutPlaces(order, j, size);
      var newEntry := CutEntry(entry, size, j);
      ghost var cut := order;
      left := j + 2;
      if relinks {
        Relink(newEntry, j + 2);
        left := -1;
      }
      left := Sort(left);
      assert left != -1 ==> !Backward(headers, last, order, left);
      if left != -1 { SplitInFront(old(order), cut, order, j, size, left, headers, last); }
      assert Model() == Split(old(Model()), b, size);
    }

    /** find_empty_heap_entry: the entry taken for the request, or NULL. */
    method FindEntry(size: nat) returns (entry: nat, ghost left: int)
      requires Valid() && size + HDR + FTR + SLACK < U32_LIMIT
      modifies this`headers, this`footers, this`head, this`last, this`order, this`blocks
      ensures Found(old(Model()), size, entry, Model())
      ensures left == StaleLink(old(Model()), size, relinks)
      ensures ValidBut(left)
      ensures Valid() <==> left == -1
      ensures left != -1 ==> StaleAt(left, entry)
    {
      hide Inv, Tagged, Found, StaleLink, RestSinks, Split, SetUsed;
      InvGrowable(Model());
      left := -1;
      entry := head;
      ghost var i: nat := 0;
      if |order| > 0 { assert Forward(headers, order, 0); }
      while entry != NULL
        invariant Valid() && Model() == old(Model()) && left == -1
        invariant i <= |order| && entry == AddrAt(order, i) && (entry == NULL ==> i == |order|)
        invariant forall j :: 0 <= j < i ==> !Fits(order[j], size)
        decreases |order| - i
      {
        assert Forward(headers, order, i);
        if !headers[entry].used {
          if Guard(headers[entry].size, size, U32_LIMIT) {
            FoundAt(Model(), size, i, relinks);
            left := SplitEntry(entry, size, i);
            return;
          } else if headers[entry].size >= size {
            FoundAt(Model(), size, i, relinks);
            SetFlag(entry, true, order[i]);
            return;
          }
        }
        if i + 1 < |order| { assert Forward(headers, order, i + 1); }
        entry, i := headers[entry].next, i + 1;
      }
      NotFound(Model(), size, relinks);
    }

    // ----- the entry points -------------------------------------------------------------

    /** The model of the heap after a request, and whether a back link is left stale. */
    ghost predicate Served(h: Heap, size: nat, left: int)
      reads this
    {
      && multiset(h.order) == multiset(h.blocks) && Model() == Malloc(h, size).0
      && left == StaleLink(h, size, relinks) && ValidBut(left) && (Valid() <==> left == -1)
      && (left != -1 ==> StaleAt(left, Malloc(h, size).1 - HDR))
    }

    /** Either a FREE block takes the request, or the heap can grow by it. */
    ghost predicate RoomFor(h: Heap, size: nat) { FirstFit(h.order, size) == |h.order| ==> Room(h.bump, size) }

    /** kernel_heap_malloc */
    method KernelHeapMalloc(size: nat) returns (address: nat, physical: nat, ghost left: int)
      requires Valid() && RoomFor(Model(), size)
      modifies this
      ensures Served(old(Model()), size, left)
      ensures address == Malloc(old(Model()), size).1 && physical == address - virtualBase
    {
      hide Inv, Tagged, StableSort, Chain, Take;
      InvGrowable(Model());
      GuardDoesNotWrap(Model(), size, mem.Length);
      ghost var h := Model();
      ghost var t := MallocGives(h, size);
      var entry;
      entry, left := FindEntry(size);
      if entry == NULL {
        entry := InsertEntry(size);
      }
      EntryDescribed(headers, head, last, Model(), left, t);
      assert headers[entry := headers[entry].(used := true)] == headers;
      headers := headers[entry := headers[entry].(used := true)];
      address := headers[entry].location;
      physical := address - virtualBase;
    }

    /** kernel_heap_malloc_page_aligned */
    method KernelHeapMallocAligned(size: nat) returns (address: nat, physical: nat)
      requires Valid() && PageRoom(mallocable) && Room(AlignedAddr(mallocable), size)
      modifies this
      ensures Valid() && Model() == AppendAligned(old(Model()), size)
      ensures address == MallocAligned(old(Model()), size).1 && physical == address - virtualBase
      ensures address % PAGE == 0
      ensures Block(address - HDR, size, true) in blocks
    {
      hide Inv, Tagged, Chain, AppendAligned;
      AlignedPayload(Model(), size);
      var entry := InsertEntryAligned(size);
      ghost var t := Block(entry, size, true);
      EntryDescribed(headers, head, last, Model(), -1, t);
      assert headers[entry := headers[entry].(used := true)] == headers;
      headers := headers[entry := headers[entry].(used := true)];
      address := headers[entry].location;
      physical := address - virtualBase;
    }

    /** memory_set: the bytes written, and every header or footer that loses a byte is gone. */
    method MemorySet(dest: nat, value: u8, len: nat)
      requires dest + len <= mem.Length
      modifies this`headers, this`footers, mem
      ensures forall i :: 0 <= i < mem.Length ==> mem[i] == if dest <= i < dest + len then value else old(mem[i])
      ensures headers == WipeHeaders(old(headers), dest, dest + len)
      ensures footers == WipeFooters(old(footers), dest, dest + len)
    {
      hide WipeHeaders, WipeFooters;
      WipeNothing(headers, footers, dest);
      var k := 0;
      while k < len
        invariant k <= len
        invariant forall i :: 0 <= i < mem.Length ==> mem[i] == if dest <= i < dest + k then value else old(mem[i])
        invariant headers == WipeHeaders(old(headers), dest, dest + k)
        invariant footers == WipeFooters(old(footers), dest, dest + k)
      {
        mem[dest + k] := value;
        WipeStep(old(headers), old(footers), dest, dest + k);
        headers, footers := WipeHeaders(headers, dest + k, dest + k + 1), WipeFooters(footers, dest + k, dest + k + 1);
        k := k + 1;
      }
    }

    /** Filling (part of) the payload of block t: no tag is lost. */
    method FillPayload(address: nat, value: u8, size: nat, ghost t: Block, ghost k: int)
      requires ValidBut(k) && t in blocks && address == t.Location() && size <= t.size
      modifies this`headers, this`footers, mem
      ensures headers == old(headers) && footers == old(footers)
      ensures forall i :: 0 <= i < mem.Length ==> mem[i] == if address <= i < address + size then value else old(mem[i])
    {
      hide Inv, Tagged, Chain;
      EntryDescribed(headers, head, last, Model(), k, t);
      TiledIsSpreadIn(Model());
      PayloadHoldsNoTags(headers, footers, blocks, IndexOf(blocks, t), address, address + size);
      MemorySet(address, value, size);
    }

    /** kernel_heap_calloc */
    method KernelHeapCalloc(size: nat, value: u8) returns (address: nat, physical: nat, ghost left: int)
      requires Valid() && RoomFor(Model(), size)
      modifies this, mem
      ensures Served(old(Model()), size, left)
      ensures address == Malloc(old(Model()), size).1 && physical == address - virtualBase
      ensures forall i :: 0 <= i < mem.Length ==> mem[i] == if address <= i < address + size then value else old(mem[i])
    {
      hide Inv, Tagged, Chain;
      ghost var t := MallocGives(Model(), size);
      address, physical, left := KernelHeapMalloc(size);
      FillPayload(address, value, size, t, left);
    }

    /** kernel_heap_calloc_page_aligned */
    method KernelHeapCallocAligned(size: nat, value: u8) returns (address: nat, physical: nat)
      requires Valid() && PageRoom(mallocable) && Room(AlignedAddr(mallocable), size)
      modifies this, mem
      ensures Valid() && Model() == AppendAligned(old(Model()), size)
      ensures address == MallocAligned(old(Model()), size).1 && physical == address - virtualBase
      ensures address % PAGE == 0
      ensures Block(address - HDR, size, true) in blocks
      ensures forall i :: 0 <= i < mem.Length ==> mem[i] == if address <= i < address + size then value else old(mem[i])
    {
      hide Inv, Tagged, Chain, AppendAligned;
      address, physical := KernelHeapMallocAligned(size);
      FillPayload(address, value, size, Block(address - HDR, size, true), -1);
    }

    // ----- freeing ----------------------------------------------------------------------

    /** remove_heap_entry, on list position i. */
    method RemoveEntry(entry: nat, ghost i: nat)
      requires Linked(headers, head, last, order) && i < |order| && entry == order[i].addr
      modifies this`headers, this`head, this`last, this`order
      ensures order == Without(old(order), i)
      ensures Linked(headers, head, last, order)
      ensures SameEntries(old(headers), headers)
    {
      assert Forward(headers, order, i) && Backward(headers, last, order, i);
      RemoveChain(headers, head, last, order, i);
      var prev := headers[entry].previous;
      var next := headers[entry].next;
      if prev != NULL {
        headers := SetNext(headers, prev, next);
      } else {
        head := next;
      }
      if next != NULL {
        headers := SetPrevious(headers, next, prev);
      } else {
        last := prev;
      }
      assert headers == RemoveWrites(old(headers), prev, next);
      order := Without(order, i);
    }

    /** The second of two FREE neighbours leaves the list, and the bytes between the outer tags become zero. */
    method WipeNeighbours(first: nat, second: nat, ghost q: nat) returns (location: nat, newSize: nat)
      requires Valid() && q + 1 < |blocks| && Joinable(blocks[q], blocks[q + 1])
      requires first == blocks[q].addr && second == blocks[q + 1].addr
      modifies this`headers, this`footers, this`head, this`last, this`order, mem
      ensures var a, b := blocks[q], blocks[q + 1];
        && a in Remove(old(order), b) && order == Remove(old(order), b)
        && location == a.Location() && newSize == Join(a, b).size
        && headers.Keys == WipeHeaders(old(headers), location, b.Footer()).Keys
        && footers == WipeFooters(old(footers), location, b.Footer())
        && forall i :: 0 <= i < mem.Length ==> mem[i] == if location <= i < b.Footer() then 0 else old(mem[i])
      ensures Linked(headers, head, last, order)
    {
      hide Inv, Tagged, Chain;
      ghost var a, b := blocks[q], blocks[q + 1];
      NeighboursDescribed(headers, footers, head, last, Model(), q);
      TiledIsSpreadIn(Model());
      ghost var ib := IndexOf(order, b);
      JoinWipes(headers, footers, blocks, q);
      RemoveEntry(second, ib);
      ghost var hd := headers;
      location := headers[first].location;
      newSize := headers[first].size + FTR + HDR + headers[second].size;
      MemorySet(location, 0, newSize);
      WipedChain(old(headers), old(head), old(last), old(order), ib, hd, headers, head, last);
    }

    /** The first half of merge_two_heap_entries_linked_list: the second entry becomes payload of the first. */
    method AbsorbEntry(first: nat, second: nat, ghost q: nat)
      requires Valid() && q + 1 < |blocks| && Joinable(blocks[q], blocks[q + 1])
      requires first == blocks[q].addr && second == blocks[q + 1].addr
      modifies this`headers, this`footers, this`head, this`last, this`order, this`blocks, mem
      ensures var a, b := old(blocks)[q], old(blocks)[q + 1];
        && var o := Remove(old(order), b);
        && a in o && order == o[IndexOf(o, a) := Join(a, b)]
        && blocks == JoinAt(old(blocks), q)
        && forall i :: 0 <= i < mem.Length ==> mem[i] == if a.Location() <= i < b.Footer() then 0 else old(mem[i])
      ensures Linked(headers, head, last, order) && Tagged(headers, footers, blocks)
    {
      hide Inv, Tagged, Chain, JoinAt, WipeHeaders, WipeFooters, Remove;
      ghost var a, b := blocks[q], blocks[q + 1];
      TiledIsSpreadIn(Model());
      var location, newSize := WipeNeighbours(first, second, q);
      ghost var ia := IndexOf(order, a);
      RelabelChain(headers, head, last, order, -1, ia, Join(a, b));
      EntryFlag(headers, head, last, order, -1, ia);
      headers := headers[first := headers[first].(size := newSize)];
      footers := footers[location + newSize := first];
      AbsorbedTags(old(headers), headers, old(footers), blocks, q);
      order, blocks := order[ia := Join(a, b)], JoinAt(blocks, q);
    }

    /** The entry at list position i moves to the end of the list. */
    method MoveToEnd(entry: nat, ghost i: nat)
      requires Linked(headers, head, last, order) && Tagged(headers, footers, blocks)
      requires i < |order| && entry == order[i].addr
      modifies this`headers, this`head, this`last, this`order
      ensures order == Without(old(order), i) + [old(order)[i]]
      ensures Linked(headers, head, last, order) && Tagged(headers, footers, blocks)
    {
      ghost var b := order[i];
      assert Forward(headers, order, i);
      WithoutDistinct(order, i);
      RemoveEntry(entry, i);
      MovedChain(headers, head, last, order, b);
      var list := last;
      if list != NULL {
        headers := SetNext(headers, list, entry);
        headers := headers[entry := headers[entry].(previous := list, next := NULL)];
      } else {
        headers := headers[entry := headers[entry].(previous := NULL, next := NULL)];
        if head == NULL { head := entry; }
      }
      last := entry;
      SameTags(old(headers), headers, footers, blocks);
      order := order + [b];
    }

    /** What merging the block at q of s with the one behind it does to memory: its payload becomes zero. */
    twostate predicate Zeroed(s: seq<Block>, q: int)
      reads mem
    {
      forall i :: 0 <= i < mem.Length ==>
        mem[i] == if 0 <= q < |s| - 1 && s[q].Location() <= i < s[q + 1].Footer() then 0 else old(mem[i])
    }

    /** merge_two_heap_entries_linked_list, for a FREE block b and the FREE block in front of it, if any. */
    method MergeEntries(first: nat, second: nat, ghost b: Block) returns (status: nat)
      requires Valid() && b in blocks && !b.used && second == b.addr
      requires var q := LeftOf(blocks, b); q >= 0 ==> first == blocks[q].addr && !blocks[q].used
      modifies this`headers, this`footers, this`head, this`last, this`order, this`blocks, mem
      ensures Valid()
      ensures var q := LeftOf(old(blocks), b);
        && Model() == (if q >= 0 then MergeAt(old(Model()), q) else old(Model()))
        && status == (if q >= 0 then 0 else 1)
        && Zeroed(old(blocks), q)
    {
      hide Inv, Tagged, Chain, Remove, Without, JoinAt, StableSort, LeftOf;
      ghost var q := LeftOf(blocks, b);
      LeftIsPrevious(Model(), b);
      EntryDescribed(headers, head, last, Model(), -1, b);
      FooterInFront(headers, footers, Model(), b);
      if second - FTR !in footers { return 1; }
      ghost var a := blocks[q];
      ghost var merged, o := MergeAt(Model(), q), Remove(order, b);
      MergeAtInv(Model(), q);
      NeighboursDescribed(headers, footers, head, last, Model(), q);
      AbsorbEntry(first, second, q);
      MoveToEnd(first, IndexOf(o, a));
      RemoveRelabelled(o, a, Join(a, b));
      var _ := Sort(-1);
      assert Model() == merged;
      status := 0;
    }

    /** Every byte that changed was in a block of s that was FREE, and is zero now. */
    twostate predicate ClearedOnlyFree(s: seq<Block>)
      reads mem
    {
      forall i :: 0 <= i < mem.Length && mem[i] != old(mem[i]) ==> mem[i] == 0 && FreeByte(s, i)
    }

    /** merge_heap_entries_in_entire_linked_list */
    method MergeAllEntries()
      requires Valid()
      modifies this`headers, this`footers, this`head, this`last, this`order, this`blocks, mem
      ensures Valid() && Model() == MergeAll(old(Model()))
      ensures ClearedOnlyFree(old(blocks))
    {
      hide Inv, Tagged, Merges, MergeAt, SameContents, FreeByte, StableSort, Joinable;
      ghost var h0 := Model();
      var entry := head;
      ghost var i: nat := 0;
      SameContentsReflexive(blocks);
      if |order| > 0 { assert Forward(headers, order, 0); }
      while entry != NULL
        invariant Valid() && MergeFrom(Model(), i) == MergeAll(h0)
        invariant SameContents(h0.blocks, blocks)
        invariant ClearedOnlyFree(h0.blocks)
        invariant i <= |order| && entry == AddrAt(order, i) && (entry == NULL ==> i == |order|)
        decreases |blocks|, |order| - i
      {
        label Turn:
        ghost var b := order[i];
        ghost var q := LeftOf(blocks, b);
        assert Forward(headers, order, i);
        MergeTurn(h0, Model(), i);
        FooterInFrontOf(headers, footers, head, last, Model(), i);
        var footer := entry - FTR;
        if !headers[entry].used && footer in footers && !headers[footers[footer]].used {
          var _ := MergeEntries(footers[footer], entry, b);
          InvAscending(Model());
          SortOfAscending(order);
          var _ := Sort(-1);
          MergeAtShorter(old@Turn(Model()), q);
          entry, i := head, 0;
          if |order| > 0 { assert Forward(headers, order, 0); }
        } else {
          if i + 1 < |order| { assert Forward(headers, order, i + 1); }
          entry, i := headers[entry].next, i + 1;
        }
      }
      InvAscending(Model());
      SortOfAscending(order);
      var _ := Sort(-1);
    }

    /** kernel_heap_free: 0 when a block was freed, 1 when no block has that address. */
    method KernelHeapFree(address: nat) returns (status: nat)
      requires Valid()
      modifies this`headers, this`footers, this`head, this`last, this`order, this`blocks, mem
      ensures Valid() && Model() == Free(old(Model()), address).0 && status == Free(old(Model()), address).1
      ensures forall i :: 0 <= i < mem.Length && mem[i] != old(mem[i]) ==> mem[i] == 0 && FreedByte(old(blocks), address, i)
    {
      hide Inv, Tagged, MergeAll, Merges, FreeByte, FreedByte;
      ghost var h0 := Model();
      MergeAllEntries();
      ghost var m := Model();
      FreedBytesOf(h0, m, address);
      var entry := head;
      ghost var i: nat := 0;
      if |order| > 0 { assert Forward(headers, order, 0); }
      while entry != NULL
        invariant Valid() && Model() == m && ClearedOnlyFree(h0.blocks)
        invariant i <= |order| && entry == AddrAt(order, i) && (entry == NULL ==> i == |order|)
        invariant forall j :: 0 <= j < i ==> order[j].Location() != address
        decreases |order| - i
      {
        assert Forward(headers, order, i);
        if headers[entry].location == address {
          EntryInBlocks(m, i);
          assert i == FindLocation(order, address);
          SetFlag(entry, false, order[i]);
          MergeAllEntries();
          return 0;
        }
        if i + 1 < |order| { assert Forward(headers, order, i + 1); }
        entry, i := headers[entry].next, i + 1;
      }
      status := 1;
    }

    // ----- whole runs -------------------------------------------------------------------

    /** What a call needs: room, and, for the committed split, that it leaves no stale link behind. */
    ghost predicate Grants(h: Heap, op: Op) {
      match op
      case OpMalloc(size) => RoomFor(h, size) && StaleLink(h, size, relinks) == -1
      case OpCalloc(size, _) => RoomFor(h, size) && StaleLink(h, size, relinks) == -1
      case OpAligned(size) => PageRoom(h.bump) && Room(AlignedAddr(h.bump), size)
      case OpCallocAligned(size, _) => PageRoom(h.bump) && Room(AlignedAddr(h.bump), size)
      case OpFree(address) => true
    }

    /** No byte of a block of s that is in use, and that this call does not free, has changed. */
    twostate predicate KeepsLiveBytes(s: seq<Block>, op: Op)
      reads mem
    {
      forall b: Block, i: nat :: b in s && b.used && op != OpFree(b.Location()) && Covers(b, i) && i < mem.Length ==>
        mem[i] == old(mem[i])
    }

    /** One call. */
    method Call(op: Op)
      requires Valid() && Grants(Model(), op)
      modifies this, mem
      ensures multiset(old(order)) == multiset(old(blocks)) && Allowed(old(Model()), op)
      ensures Valid() && Model() == Step(old(Model()), op)
      ensures KeepsLiveBytes(old(blocks), op)
    {
      hide Inv, Tagged, Chain, AppendAligned, Malloc, Free, StaleLink, FirstFit, FreedByte, Covers;
      InvGrowable(Model());
      ghost var h := Model();
      match op {
        case OpMalloc(size) =>
          var _, _, _ := KernelHeapMalloc(size);
        case OpCalloc(size, value) =>
          var address, _, _ := KernelHeapCalloc(size, value);
          CallocMisses(h, size, address);
        case OpAligned(size) =>
          var _, _ := KernelHeapMallocAligned(size);
        case OpCallocAligned(size, value) =>
          var address, _ := KernelHeapCallocAligned(size, value);
          AlignedMisses(h, size, address);
        case OpFree(address) =>
          var _ := KernelHeapFree(address);
          FreeMisses(h, address);
      }
    }

    /** A run of calls: the code goes through the heaps of the run, and data in blocks that are not freed stays as it is. */
    method Run(calls: seq<Op>, ghost hs: seq<Heap>)
      requires Valid() && IsRun(hs, calls) && hs[0] == Model()
      requires forall k :: 0 <= k < |calls| ==> Grants(hs[k], calls[k])
      modifies this, mem
      ensures Valid() && Model() == hs[|calls|]
      ensures forall b :: b in old(blocks) && b.used && NeverFreed(b, calls, |calls|) ==>
        b in blocks && forall i: nat :: i < mem.Length && Covers(b, i) ==> mem[i] == old(mem[i])
    {
      hide Chain, Tagged, Inv, Step, Grants, Allowed;
      for k := 0 to |calls|
        invariant Valid() && Model() == hs[k]
        invariant forall b :: b in old(blocks) && b.used && NeverFreed(b, calls, |calls|) ==>
          b in blocks && forall i: nat :: i < mem.Length && Covers(b, i) ==> mem[i] == old(mem[i])
      {
        label Turn:
        Call(calls[k]);
        forall b | b in old(blocks) && b.used && NeverFreed(b, calls, |calls|)
          ensures b in blocks && forall i: nat :: i < mem.Length && Covers(b, i) ==> mem[i] == old(mem[i])
        {
          StepKeeps(hs[k], calls[k], b);
        }
      }
    }
  }
}
