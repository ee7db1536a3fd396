/** Building a page directory on the kernel heap. */
module Paging {
  import opened Bits
  import opened Blocks
  import opened HeapModel
  import opened HeapInvariant
  import opened HeapTheorems
  import opened Memory
  import opened PageTables
  import opened BootTables
  import opened LiveBytes
  import opened Splitting
  import KernelHeap

  const USER_MODE: nat := 1
  const KERNEL_MODE: nat := 0
  const READ_ONLY: nat := 0
  const WRITEABLE: nat := 1

  /** A block in use whose payload is the page at address. */
  ghost predicate LivePage(s: seq<Block>, address: nat) {
    HDR <= address && Block(address - HDR, PAGE_SIZE, true) in s
  }

  ghost predicate ZeroPage(m: seq<u8>, a: nat) {
    a + PAGE_SIZE <= |m| && forall i :: a <= i < a + PAGE_SIZE ==> m[i] == 0
  }

  lemma ZeroEntry(m: seq<u8>, a: nat, k: nat)
    requires ZeroPage(m, a) && k < ENTRIES
    ensures Entry(m, a, k) == 0
  {
    ZeroWord(m, a + 4 * k);
  }

  /** A table while it is being filled: the first n entries map page i to frame i, the rest are zero. */
  ghost predicate FilledTo(m: seq<u8>, table: nat, n: nat, user: nat, writeable: nat) {
    && n <= ENTRIES && table + PAGE_SIZE <= |m|
    && (forall i: nat :: i < n ==> Maps(Entry(m, table, i), i, user, writeable) && KeepsRest(Entry(m, table, i), 0))
    && (forall i: nat :: n <= i < ENTRIES ==> Entry(m, table, i) == 0)
  }

  lemma FilledOneMore(m: seq<u8>, m': seq<u8>, table: nat, n: nat, user: nat, writeable: nat)
    requires FilledTo(m, table, n, user, writeable) && n < ENTRIES
    requires SameOutside(m, m', table + 4 * n, table + 4 * n + 4)
    requires Maps(Entry(m', table, n), n, user, writeable) && KeepsRest(Entry(m', table, n), Entry(m, table, n))
    ensures FilledTo(m', table, n + 1, user, writeable)
  {
    hide Word, Maps;
    forall i: nat | i < ENTRIES && i != n ensures Entry(m', table, i) == Entry(m, table, i) {
      OutsideWord(m, m', table + 4 * n, table + 4 * n + 4, table + 4 * i);
    }
  }

  /** kernel_set_page_table_entry; the frame bitmap it also calls is never changed by that call. */
  method SetTableEntry(mem: array<u8>, table: nat, physical: nat, index: nat, user: nat, writeable: nat)
    requires index < ENTRIES && table + PAGE_SIZE <= mem.Length && physical < U32_LIMIT
    modifies mem
    ensures Maps(Entry(mem[..], table, index), physical / PAGE_SIZE, user, writeable)
    ensures KeepsRest(Entry(mem[..], table, index), old(Entry(mem[..], table, index)))
    ensures SameOutside(old(mem[..]), mem[..], table + 4 * index, table + 4 * index + 4)
  {
    hide Word, Maps, TableEntry;
    var frame := physical / PAGE_SIZE;
    var w := LoadWord(mem, table + 4 * index);
    TableEntryFields(w, frame, user, writeable);
    StoreWord(mem, table + 4 * index, TableEntry(w, frame, user, writeable));
  }

  lemma LivePageInside(h: Heap, address: nat)
    requires Inv(h) && LivePage(h.blocks, address)
    ensures h.start + HDR <= address && address + PAGE_SIZE + FTR <= h.bump
  {
    var b := Block(address - HDR, PAGE_SIZE, true);
    assert h.blocks[IndexOf(h.blocks, b)] == b;
  }

  /** A page in use is still in use after a page-aligned request, and the new page lies behind it. */
  lemma NewPageApart(h: Heap, page: nat)
    requires Inv(h) && PageRoom(h.bump) && LivePage(h.blocks, page)
    ensures Inv(AppendAligned(h, PAGE_SIZE))
    ensures LivePage(AppendAligned(h, PAGE_SIZE).blocks, page)
    ensures page + PAGE_SIZE <= MallocAligned(h, PAGE_SIZE).1
  {
    AppendAlignedInv(h, PAGE_SIZE);
    AlignedKeeps(h, PAGE_SIZE, Block(page - HDR, PAGE_SIZE, true));
    LivePageInside(h, page);
  }

  /** Where the second of two page-aligned pages goes. */
  lemma SecondPage(h: Heap)
    ensures var h1 := AppendAligned(h, PAGE_SIZE);
      && h1.bump == NextPage(h.bump) + PAGE_SIZE + FTR && PageRoom(h1.bump)
      && AlignedAddr(h1.bump) + HDR == NextPage(h.bump) + 2 * PAGE_SIZE
  {
    assert NextPage(h.bump) == PAGE * (h.bump / PAGE + 1);
    var q := h.bump / PAGE + 2;
    assert NextPage(h.bump) + PAGE_SIZE + FTR == PAGE * q + FTR;
    assert (PAGE * q + FTR) % PAGE == FTR;
  }

  lemma EmptyDirectory(m: seq<u8>, directory: nat)
    requires ZeroPage(m, directory)
    ensures forall k: nat :: k < ENTRIES ==> Entry(m, directory, k) == 0
  {
    forall k: nat | k < ENTRIES ensures Entry(m, directory, k) == 0 { ZeroEntry(m, directory, k); }
  }

  lemma EmptyTable(m: seq<u8>, table: nat, user: nat, writeable: nat)
    requires ZeroPage(m, table)
    ensures FilledTo(m, table, 0, user, writeable)
  {
    EmptyDirectory(m, table);
  }

  lemma EntriesOutside(m: seq<u8>, m': seq<u8>, directory: nat, table: nat)
    requires directory + PAGE_SIZE <= table && SameOutside(m, m', table, table + PAGE_SIZE)
    ensures forall k: nat :: k < ENTRIES ==> Entry(m', directory, k) == Entry(m, directory, k)
  {
    hide Word, SameOutside;
    forall k: nat | k < ENTRIES ensures Entry(m', directory, k) == Entry(m, directory, k) {
      OutsideWord(m, m', table, table + PAGE_SIZE, directory + 4 * k);
    }
  }

  lemma FrameOf(a: nat)
    requires a % PAGE_SIZE == 0
    ensures a / PAGE_SIZE * PAGE_SIZE == a
  {
  }

  /** The directory was written before the table was filled, and filling the table did not reach it. */
  lemma TablesDone(cleared: seq<u8>, linked: seq<u8>, m: seq<u8>, directory: nat, table: nat, user: nat, writeable: nat)
    requires directory + PAGE_SIZE <= table && KERNEL_VIRTUAL_ADDRESS <= directory
    requires directory % PAGE_SIZE == 0 && table % PAGE_SIZE == 0
    requires forall k: nat :: k < ENTRIES ==> Entry(cleared, directory, k) == 0
    requires forall k: nat :: k < ENTRIES && k != KERNEL_PAGE_NUMBER ==> Entry(linked, directory, k) == Entry(cleared, directory, k)
    requires Maps(Entry(linked, directory, KERNEL_PAGE_NUMBER), (table - KERNEL_VIRTUAL_ADDRESS) / PAGE_SIZE, writeable, user)
    requires SameOutside(linked, m, table, table + PAGE_SIZE)
    requires FilledTo(m, table, ENTRIES, user, writeable)
    ensures KernelTables(m, directory, table)
  {
    hide Word, Entry, SameOutside, KeepsRest;
    EntriesOutside(linked, m, directory, table);
    FrameOf(table - KERNEL_VIRTUAL_ADDRESS);
  }

  /** The same, word for word. */
  lemma WordsDone(linked: seq<u8>, m: seq<u8>, directory: nat, table: nat, user: nat, writeable: nat)
    requires directory + PAGE_SIZE <= table && KERNEL_VIRTUAL_ADDRESS <= directory && table % PAGE_SIZE == 0
    requires user < 2 && writeable < 2
    requires forall k: nat :: k < ENTRIES && k != KERNEL_PAGE_NUMBER ==> Entry(linked, directory, k) == 0
    requires Maps(Entry(linked, directory, KERNEL_PAGE_NUMBER), (table - KERNEL_VIRTUAL_ADDRESS) / PAGE_SIZE, writeable, user)
    requires KeepsRest(Entry(linked, directory, KERNEL_PAGE_NUMBER), 0)
    requires SameOutside(linked, m, table, table + PAGE_SIZE)
    requires FilledTo(m, table, ENTRIES, user, writeable)
    ensures forall i: nat :: i < ENTRIES ==> Entry(m, table, i) == i * 0x1000 + user * 4 + writeable * 2 + 1
    ensures forall k: nat :: k < ENTRIES && k != KERNEL_PAGE_NUMBER ==> Entry(m, directory, k) == 0
    ensures Entry(m, directory, KERNEL_PAGE_NUMBER) == table - KERNEL_VIRTUAL_ADDRESS + writeable * 4 + user * 2 + 1
  {
    hide Word, Entry, SameOutside, Maps, KeepsRest;
    EntriesOutside(linked, m, directory, table);
    FrameOf(table - KERNEL_VIRTUAL_ADDRESS);
    ExactEntry(Entry(linked, directory, KERNEL_PAGE_NUMBER), (table - KERNEL_VIRTUAL_ADDRESS) / PAGE_SIZE, writeable, user);
    forall i: nat | i < ENTRIES ensures Entry(m, table, i) == i * 0x1000 + user * 4 + writeable * 2 + 1 {
      ExactEntry(Entry(m, table, i), i, user, writeable);
    }
  }

  class Pager {
    const heap: KernelHeap.Allocator
    // 0 until the kernel's own directory has been built.
    var kernelDirectory: nat
    var currentDirectory: nat
    var cr3: nat

    ghost predicate Valid()
      reads this, heap
    {
      heap.Valid() && heap.virtualBase == KERNEL_VIRTUAL_ADDRESS
    }

    constructor (heap: KernelHeap.Allocator)
      requires heap.Valid() && heap.virtualBase == KERNEL_VIRTUAL_ADDRESS
      ensures Valid() && this.heap == heap && kernelDirectory == 0
    {
      this.heap, kernelDirectory, currentDirectory, cr3 := heap, 0, 0, 0;
    }

    /** set_active_page_directory */
    method SetActive(directory: nat)
      requires KERNEL_VIRTUAL_ADDRESS <= directory
      modifies this`currentDirectory, this`cr3
      ensures currentDirectory == directory && cr3 == directory - KERNEL_VIRTUAL_ADDRESS
    {
      currentDirectory := directory;
      cr3 := directory - KERNEL_VIRTUAL_ADDRESS;
    }

    /** A new page can be had from the heap. */
    predicate PageAvailable()
      reads heap
    {
      PageRoom(heap.mallocable) && heap.Room(AlignedAddr(heap.mallocable), PAGE_SIZE)
    }

    /**
     kernel_set_page_directory_entry: 0 for an entry that was present, else the address of a new,
     empty page table whose frame the entry now holds.
     */
    method SetDirectoryEntry(directory: nat, index: nat, user: nat, writeable: nat) returns (table: nat)
      requires Valid() && LivePage(heap.blocks, directory) && index < ENTRIES
      requires !Present(Entry(heap.mem[..], directory, index)) ==> PageAvailable()
      modifies heap, heap.mem
      ensures Valid() && LivePage(heap.blocks, directory)
      ensures old(Present(Entry(heap.mem[..], directory, index))) ==>
                && table == 0 && heap.Model() == old(heap.Model())
                && SameOutside(old(heap.mem[..]), heap.mem[..], directory + 4 * index, directory + 4 * index + 4)
                && Maps(Entry(heap.mem[..], directory, index), old(Frame(Entry(heap.mem[..], directory, index))), user, writeable)
      ensures KeepsRest(Entry(heap.mem[..], directory, index), old(Entry(heap.mem[..], directory, index)))
      ensures !old(Present(Entry(heap.mem[..], directory, index))) ==>
                && heap.Model() == AppendAligned(old(heap.Model()), PAGE_SIZE)
                && table == MallocAligned(old(heap.Model()), PAGE_SIZE).1 && table % PAGE_SIZE == 0
                && LivePage(heap.blocks, table) && KERNEL_VIRTUAL_ADDRESS <= table
                && ZeroPage(heap.mem[..], table)
                && SameBut(old(heap.mem[..]), heap.mem[..], directory + 4 * index, 4, table, PAGE_SIZE)
                && (forall k: nat :: k < ENTRIES && k != index ==>
                     Entry(heap.mem[..], directory, k) == old(Entry(heap.mem[..], directory, k)))
                && Maps(Entry(heap.mem[..], directory, index), (table - KERNEL_VIRTUAL_ADDRESS) / PAGE_SIZE, writeable, user)
    {
      hide Word, Maps, Inv, AppendAligned, DirectoryEntry, SetUser, SetWriteable;
      LivePageInside(heap.Model(), directory);
      var w := LoadWord(heap.mem, directory + 4 * index);
      if Present(w) {
        PresentEntryFields(w, user, writeable);
        StoreWord(heap.mem, directory + 4 * index, SetWriteable(SetUser(w, user), writeable));
        table := 0;
      } else {
        NewPageApart(heap.Model(), directory);
        ghost var before := heap.mem[..];
        var physical;
        table, physical := heap.KernelHeapCallocAligned(PAGE_SIZE, 0);
        LivePageInside(heap.Model(), table);
        ghost var cleared := heap.mem[..];
        assert SameOutside(before, cleared, table, table + PAGE_SIZE);
        var frame := physical / PAGE_SIZE;
        OutsideWord(before, cleared, table, table + PAGE_SIZE, directory + 4 * index);
        w := LoadWord(heap.mem, directory + 4 * index);
        DirectoryEntryFields(w, frame, user, writeable);
        StoreWord(heap.mem, directory + 4 * index, DirectoryEntry(w, frame, user, writeable));
        forall k: nat | k < ENTRIES && k != index
          ensures Entry(heap.mem[..], directory, k) == Entry(before, directory, k)
        {
          OutsideWord(before, cleared, table, table + PAGE_SIZE, directory + 4 * k);
          OutsideWord(cleared, heap.mem[..], directory + 4 * index, directory + 4 * index + 4, directory + 4 * k);
        }
      }
    }

    /** The loop of create_new_page_directory: page i of the table is mapped to frame i, up to 4 MB. */
    method FillTable(table: nat, user: nat, writeable: nat)
      requires FilledTo(heap.mem[..], table, 0, user, writeable)
      modifies heap.mem
      ensures FilledTo(heap.mem[..], table, ENTRIES, user, writeable)
      ensures SameOutside(old(heap.mem[..]), heap.mem[..], table, table + PAGE_SIZE)
    {
      hide Word, Maps;
      var physical, counter := 0, 0;
      while physical != TABLE_SPAN
        invariant counter <= ENTRIES && physical == counter * PAGE_SIZE
        invariant FilledTo(heap.mem[..], table, counter, user, writeable)
        invariant SameOutside(old(heap.mem[..]), heap.mem[..], table, table + PAGE_SIZE)
        decreases TABLE_SPAN - physical
      {
        ghost var before := heap.mem[..];
        SetTableEntry(heap.mem, table, physical, counter, user, writeable);
        FilledOneMore(before, heap.mem[..], table, counter, user, writeable);
        counter := counter + 1;
        physical := physical + PAGE_SIZE;
      }
    }

    /** The heap has room for two page-aligned pages in a row. */
    predicate TwoPagesAvailable()
      reads heap
    {
      PageRoom(heap.mallocable) && NextPage(heap.mallocable) + 3 * PAGE_SIZE + FTR <= heap.mem.Length
    }

    /**
     create_new_page_directory: the directory it returns translates exactly the 4 MB above the kernel
     base, and CR3 holds its physical address.
     */
    method CreateNewPageDirectory(wantKernel: bool) returns (directory: nat, ghost table: nat)
      requires Valid() && TwoPagesAvailable()
      modifies this`currentDirectory, this`cr3, heap, heap.mem
      ensures Valid() && heap.Model() == AppendAligned(AppendAligned(old(heap.Model()), PAGE_SIZE), PAGE_SIZE)
      ensures LivePage(heap.blocks, directory) && LivePage(heap.blocks, table) && directory + PAGE_SIZE <= table
      ensures directory == NextPage(old(heap.mallocable)) && table == directory + 0x2000
      ensures KernelTables(heap.mem[..], directory, table)
      ensures SameBut(old(heap.mem[..]), heap.mem[..], directory, PAGE_SIZE, table, PAGE_SIZE)
      ensures currentDirectory == directory && cr3 + KERNEL_VIRTUAL_ADDRESS == directory && cr3 % PAGE_SIZE == 0
      // The processor reads physical memory; the kernel has seen to the 4 MB that it has mapped.
      ensures Shown(table) ==> forall read :: Shows(heap.mem[..], read) ==> MapsKernelOnly(read, cr3)
      // Word for word: flags 3 are present and writeable, flags 5 present and user.
      ensures var kernel := wantKernel && kernelDirectory == 0;
        && (forall i: nat :: i < ENTRIES ==> Entry(heap.mem[..], table, i) == i * 0x1000 + if kernel then 3 else 5)
        && (forall k: nat :: k < ENTRIES && k != 768 ==> Entry(heap.mem[..], directory, k) == 0)
        && Entry(heap.mem[..], directory, 768) == table - 0xC0000000 + if kernel then 5 else 3
    {
      hide Word, Maps, KeepsRest, Inv, AppendAligned, MapsKernelOnly, Shows, KernelTables;
      var isKernel := wantKernel && kernelDirectory == 0;
      var user := if isKernel then KERNEL_MODE else USER_MODE;
      var writeable := if isKernel then WRITEABLE else READ_ONLY;
      ghost var h := heap.Model();
      var physicalDirectory;
      directory, physicalDirectory := heap.KernelHeapCallocAligned(PAGE_SIZE, 0);
      LivePageInside(heap.Model(), directory);
      ghost var cleared := heap.mem[..];
      assert ZeroPage(cleared, directory);
      EmptyDirectory(cleared, directory);
      SecondPage(h);
      NewPageApart(heap.Model(), directory);

      var newTable := SetDirectoryEntry(directory, KERNEL_PAGE_NUMBER, user, writeable);
      table := newTable;
      LivePageInside(heap.Model(), newTable);
      ghost var linked := heap.mem[..];
      EmptyTable(linked, newTable, user, writeable);

      FillTable(newTable, user, writeable);
      TablesDone(cleared, linked, heap.mem[..], directory, newTable, user, writeable);
      WordsDone(linked, heap.mem[..], directory, newTable, user, writeable);
      SetActive(directory);
      if Shown(newTable) {
        forall read | Shows(heap.mem[..], read) ensures MapsKernelOnly(read, cr3) {
          KernelTablesMap(heap.mem[..], read, directory, newTable);
        }
      }
    }

    /** Room for the frame list and for two page-aligned pages after it, without a stale link. */
    ghost predicate RoomToStart(size: nat)
      reads this, heap
      requires Valid()
    {
      InvGrowable(heap.Model());
      var h := Malloc(heap.Model(), size).0;
      && heap.RoomFor(heap.Model(), size) && StaleLink(heap.Model(), size, heap.relinks) == -1
      && PageRoom(h.bump) && NextPage(h.bump) + 3 * PAGE_SIZE + FTR <= heap.mem.Length
    }

    /**
     start_paging: the switch to the kernel's directory, on the one memory in which the boot tables
     (the directory at boot, the table at bootTable) still stand.
     */
    method StartPaging(frameListSize: nat, ghost boot: nat, ghost bootTable: nat, ghost identity: bool)
      returns (frameList: nat, ghost table: nat)
      requires Valid() && RoomToStart(frameListSize)
      requires BootTablesIn(KernelView(heap.mem[..]), boot, bootTable, identity) && BootTablesBelow(boot, bootTable, heap.start)
      modifies this, heap, heap.mem
      ensures Valid() && SameBelow(old(heap.mem[..]), heap.mem[..], heap.start)
      ensures multiset(old(heap.order)) == multiset(old(heap.blocks))
      ensures frameList == Malloc(old(heap.Model()), frameListSize).1
      ensures forall i :: frameList <= i < frameList + frameListSize && i < heap.mem.Length ==> heap.mem[i] == 0
      ensures heap.Model() == AppendAligned(AppendAligned(Malloc(old(heap.Model()), frameListSize).0, PAGE_SIZE), PAGE_SIZE)
      ensures kernelDirectory == currentDirectory == cr3 + KERNEL_VIRTUAL_ADDRESS
      ensures KernelTables(heap.mem[..], kernelDirectory, table)
      ensures Shown(table) ==> forall read :: Shows(heap.mem[..], read) ==> SwitchKeeps(read, boot, cr3, identity)
    {
      hide KernelView, Shows, KernelTables, BootTablesIn, SwitchKeeps, MapsKernelOnly, Inv, AppendAligned, StaleLink, Malloc, SameBut, Entry, FirstFit;
      ghost var m0 := heap.mem[..];
      InvGrowable(heap.Model());
      CallocAbove(heap.Model(), frameListSize);
      var address, _, _ := heap.KernelHeapCalloc(frameListSize, 0);
      frameList := address;
      ghost var m1 := heap.mem[..];
      ghost var bump := heap.mallocable;
      assert SameBelow(m0, m1, heap.start);
      kernelDirectory, table := CreateNewPageDirectory(true);
      ButIsBelow(m1, heap.mem[..], kernelDirectory, PAGE_SIZE, table, PAGE_SIZE, bump);
      BelowTwice(m0, m1, heap.mem[..], heap.start, bump);
      ZerosBelow(m1, heap.mem[..], frameList, frameListSize, bump);
      if Shown(table) {
        forall read | Shows(heap.mem[..], read) ensures SwitchKeeps(read, boot, cr3, identity) {
          SwitchKeepsKernel(m0, heap.mem[..], heap.start, read, boot, bootTable, identity, kernelDirectory, table);
        }
      }
    }
  }
}
