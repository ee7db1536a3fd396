/** The page tables the second-stage boot loader sets up, and the hand-over to the kernel's own. */
module BootTables {
  import opened Bits
  import opened Memory
  import opened PageTables

  // Present, writeable, user.
  const BOOT_FLAGS: nat := 0x7

  /** Physical memory, and the part of it that the kernel's bytes show at its base. */
  function Physical(m: seq<u8>): nat -> nat { (p: nat) => Word(m, p) }

  function KernelView(m: seq<u8>): nat -> nat { (p: nat) => Word(m, KERNEL_VIRTUAL_ADDRESS + p) }

  function ReadEntry(read: nat -> nat, a: nat, k: nat): nat { read(a + 4 * k) }

  /** Entry k of the boot directory; entry 0 is there only as long as the identity mapping is. */
  function BootEntry(t: nat, k: nat, identity: bool): nat {
    if k == KERNEL_PAGE_NUMBER || (k == 0 && identity) then t + BOOT_FLAGS else 0
  }

  /** The boot tables stand in memory: the directory at d and the one table at t. */
  ghost predicate BootTablesIn(read: nat -> nat, d: nat, t: nat, identity: bool) {
    && d % PAGE_SIZE == 0 && t % PAGE_SIZE == 0
    && (forall k: nat :: k < ENTRIES ==> ReadEntry(read, d, k) == BootEntry(t, k, identity))
    && (forall i: nat :: i < ENTRIES ==> ReadEntry(read, t, i) == i * PAGE_SIZE + BOOT_FLAGS)
  }

  /** They map the first 4 MB of memory at the kernel base, and at 0 while the identity mapping is there. */
  function BootTranslation(v: nat, identity: bool): Option<nat> {
    if identity && v < TABLE_SPAN then Some(v) else KernelTranslation(v)
  }

  lemma OddEnd(y: nat)
    ensures (2 * y + BOOT_FLAGS) % 2 == 1
  {
  }

  lemma FlaggedEntry(x: nat)
    requires x % PAGE_SIZE == 0
    ensures BitOr(x, BOOT_FLAGS) == x + BOOT_FLAGS
    ensures Present(x + BOOT_FLAGS) && Frame(x + BOOT_FLAGS) * PAGE_SIZE == x
  {
    hide BitOr;
    var q := x / PAGE_SIZE;
    assert x == q * PAGE_SIZE;
    OrSeven(0x200 * q);
    LowBits(q, BOOT_FLAGS);
    OddEnd(0x800 * q);
  }

  lemma TableWord(i: nat)
    ensures Present(i * PAGE_SIZE + BOOT_FLAGS) && Frame(i * PAGE_SIZE + BOOT_FLAGS) == i
  {
    LowBits(i, BOOT_FLAGS);
    OddEnd(0x800 * i);
  }

  lemma PresentZero()
    ensures !Present(0)
  {
  }

  lemma DirectoryFrame(d: nat)
    requires d % PAGE_SIZE == 0
    ensures Frame(d) * PAGE_SIZE == d
  {
  }

  lemma BootTablesTranslate(read: nat -> nat, d: nat, t: nat, identity: bool, v: nat)
    requires BootTablesIn(read, d, t, identity) && v < U32_LIMIT
    ensures Walk(read, d, v) == BootTranslation(v, identity)
  {
    hide BitOr, Walk, Present, Frame;
    var k, i := v / TABLE_SPAN, v / PAGE_SIZE % ENTRIES;
    SplitAddress(v);
    DirectoryFrame(d);
    FlaggedEntry(t);
    TableWord(i);
    PresentZero();
    assert ReadEntry(read, d, k) == BootEntry(t, k, identity);
    assert ReadEntry(read, t, i) == i * PAGE_SIZE + BOOT_FLAGS;
    WalkVia(read, d, v, ReadEntry(read, d, k), ReadEntry(read, t, i));
  }

  lemma FlaggedWord(q: nat)
    ensures Maps(q * 0x1000 + 7, q, 1, 1)
  {
    LowBits(q, 7);
    TableWord(q);
  }

  /** The words of the boot tables in plain numbers. */
  lemma BootWords(m: seq<u8>, d: nat, t: nat)
    requires t % PAGE_SIZE == 0
    requires forall k: nat :: k < ENTRIES ==> Entry(m, d, k) == BootEntry(t, k, true)
    requires forall i: nat :: i < ENTRIES ==> Entry(m, t, i) == i * PAGE_SIZE + BOOT_FLAGS
    ensures forall i: nat :: i < ENTRIES ==> Entry(m, t, i) == i * 0x1000 + 7 && Maps(Entry(m, t, i), i, 1, 1)
    ensures forall k: nat :: k < ENTRIES && k != 0 && k != 768 ==> Entry(m, d, k) == 0
    ensures Entry(m, d, 0) == Entry(m, d, 768) == t + 7
    ensures Maps(Entry(m, d, 768), t / 0x1000, 1, 1)
  {
    hide Entry, Maps;
    forall i: nat | i < ENTRIES ensures Entry(m, t, i) == i * 0x1000 + 7 && Maps(Entry(m, t, i), i, 1, 1) { FlaggedWord(i); }
    FlaggedWord(t / 0x1000);
  }

  // ----- setting the tables up ----------------------------------------------------------------

  lemma TablesInPhysical(m: seq<u8>, d: nat, t: nat, identity: bool)
    requires d % PAGE_SIZE == 0 && t % PAGE_SIZE == 0
    requires forall k: nat :: k < ENTRIES ==> Entry(m, d, k) == BootEntry(t, k, identity)
    requires forall i: nat :: i < ENTRIES ==> Entry(m, t, i) == i * PAGE_SIZE + BOOT_FLAGS
    ensures BootTablesIn(Physical(m), d, t, identity)
  {
    hide Word, BootEntry;
    forall k: nat | k < ENTRIES ensures ReadEntry(Physical(m), d, k) == BootEntry(t, k, identity) {
      assert Entry(m, d, k) == BootEntry(t, k, identity);
    }
    forall i: nat | i < ENTRIES ensures ReadEntry(Physical(m), t, i) == i * PAGE_SIZE + BOOT_FLAGS {
      assert Entry(m, t, i) == i * PAGE_SIZE + BOOT_FLAGS;
    }
  }

  class Loader {
    // Physical memory, and where BOOT_KERNEL_PAGE_TABLE and BOOT_PAGE_DIRECTORY lie in it.
    const mem: array<u8>
    const table: nat
    const directory: nat

    ghost predicate Valid() {
      && table % PAGE_SIZE == 0 && directory % PAGE_SIZE == 0
      && table + PAGE_SIZE <= directory && directory + PAGE_SIZE <= mem.Length <= U32_LIMIT
    }

    /** The directory as assembled: two words name the page table. */
    ghost predicate Assembled()
      reads mem
    {
      forall k: nat :: k < ENTRIES ==>
        Entry(mem[..], directory, k) == if k == 0 || k == KERNEL_PAGE_NUMBER then table else 0
    }

    /** FILL_BOOT_KERNEL_PAGE_TABLE */
    method FillTable()
      requires Valid()
      modifies mem
      ensures forall i: nat :: i < ENTRIES ==> Entry(mem[..], table, i) == i * PAGE_SIZE + BOOT_FLAGS
      ensures SameOutside(old(mem[..]), mem[..], table, table + PAGE_SIZE)
    {
      hide BitOr, BitAnd, Word;
      var eax: nat, ebx: nat := 0, table;
      ghost var n: nat := 0;
      while eax != 0x400000
        invariant n <= ENTRIES && eax == n * PAGE_SIZE && ebx == table + 4 * n
        invariant forall i: nat :: i < n ==> Entry(mem[..], table, i) == i * PAGE_SIZE + BOOT_FLAGS
        invariant SameOutside(old(mem[..]), mem[..], table, table + PAGE_SIZE)
        decreases ENTRIES - n
      {
        ghost var before := mem[..];
        FlaggedEntry(eax);
        eax := BitOr(eax, 0x7);
        StoreWord(mem, ebx, eax);
        forall i: nat | i < n ensures Entry(mem[..], table, i) == i * PAGE_SIZE + BOOT_FLAGS {
          OutsideWord(before, mem[..], table + 4 * n, table + 4 * n + 4, table + 4 * i);
          assert Entry(before, table, i) == i * PAGE_SIZE + BOOT_FLAGS;
        }
        ebx := ebx + 4;
        PageMask(eax);
        LowBits(n, BOOT_FLAGS);
        eax := BitAnd(eax, 0xFFFFF000);
        eax := eax + 0x1000;
        n := n + 1;
      }
    }

    /** SETUP_BOOT_KERNEL_PAGE_DIRECTORY */
    method SetupDirectory()
      requires Valid() && Assembled()
      modifies mem
      ensures forall k: nat :: k < ENTRIES ==> Entry(mem[..], directory, k) == BootEntry(table, k, true)
      ensures SameOutside(old(mem[..]), mem[..], directory, directory + PAGE_SIZE)
    {
      hide BitOr, Word;
      FlaggedEntry(table);
      ghost var m0 := mem[..];
      var ebx := directory;
      var eax := LoadWord(mem, ebx);
      assert eax == Entry(m0, directory, 0);
      eax := BitOr(eax, 0x7);
      StoreWord(mem, ebx, eax);
      ghost var m1 := mem[..];
      ebx := ebx + KERNEL_PAGE_NUMBER * 4;
      eax := LoadWord(mem, ebx);
      OutsideWord(m0, m1, directory, directory + 4, ebx);
      assert eax == Entry(m0, directory, KERNEL_PAGE_NUMBER);
      eax := BitOr(eax, 0x7);
      StoreWord(mem, ebx, eax);
      forall k: nat | k < ENTRIES ensures Entry(mem[..], directory, k) == BootEntry(table, k, true) {
        assert Entry(m0, directory, k) == if k == 0 || k == KERNEL_PAGE_NUMBER then table else 0;
        if k != 0 { OutsideWord(m0, m1, directory, directory + 4, directory + 4 * k); }
        if k != KERNEL_PAGE_NUMBER { OutsideWord(m1, mem[..], ebx, ebx + 4, directory + 4 * k); }
      }
    }

    /** Both set-up routines, whatever else lies in memory; the result is what CR3 is loaded with. */
    method Setup() returns (cr3: nat)
      requires Valid() && Assembled()
      modifies mem
      ensures cr3 == directory && BootTablesIn(Physical(mem[..]), cr3, table, true)
      ensures forall v: nat :: v < U32_LIMIT ==> Walk(Physical(mem[..]), cr3, v) == BootTranslation(v, true)
      ensures SameBut(old(mem[..]), mem[..], table, PAGE_SIZE, directory, PAGE_SIZE)
      // Word for word: the flags are present, writeable and user.
      ensures forall i: nat :: i < ENTRIES ==> Entry(mem[..], table, i) == i * 0x1000 + 7 && Maps(Entry(mem[..], table, i), i, 1, 1)
      ensures forall k: nat :: k < ENTRIES && k != 0 && k != 768 ==> Entry(mem[..], directory, k) == 0
      ensures Entry(mem[..], directory, 0) == Entry(mem[..], directory, 768) == table + 7
      ensures Maps(Entry(mem[..], directory, 768), table / 0x1000, 1, 1)
    {
      hide Word, Walk, BootEntry;
      ghost var m0 := mem[..];
      FillTable();
      ghost var m1 := mem[..];
      forall k: nat | k < ENTRIES ensures Entry(m1, directory, k) == Entry(m0, directory, k) {
        OutsideWord(m0, m1, table, table + PAGE_SIZE, directory + 4 * k);
      }
      SetupDirectory();
      cr3 := directory;
      forall i: nat | i < ENTRIES ensures Entry(mem[..], table, i) == i * PAGE_SIZE + BOOT_FLAGS {
        OutsideWord(m1, mem[..], directory, directory + PAGE_SIZE, table + 4 * i);
        assert Entry(m1, table, i) == i * PAGE_SIZE + BOOT_FLAGS;
      }
      BootWords(mem[..], cr3, table);
      TablesInPhysical(mem[..], cr3, table, true);
      forall v: nat | v < U32_LIMIT ensures Walk(Physical(mem[..]), cr3, v) == BootTranslation(v, true) {
        BootTablesTranslate(Physical(mem[..]), cr3, table, true, v);
      }
    }

    /** INVALIDATE_IDENTITY_MAPPED_KERNEL_REGION: entry 0 is cleared through the identity mapping itself. */
    method Invalidate(cr3: nat)
      requires Valid() && cr3 == directory && cr3 + PAGE_SIZE <= TABLE_SPAN
      requires BootTablesIn(Physical(mem[..]), cr3, table, true)
      modifies mem
      ensures BootTablesIn(Physical(mem[..]), cr3, table, false)
      ensures SameOutside(old(mem[..]), mem[..], cr3, cr3 + 4)
      ensures forall v: nat :: v < U32_LIMIT ==> Walk(Physical(mem[..]), cr3, v) == KernelTranslation(v)
    {
      hide Word, Walk;
      ghost var m0 := mem[..];
      BootTablesTranslate(Physical(m0), cr3, table, true, cr3);
      assert Walk(Physical(m0), cr3, cr3) == Some(cr3);
      StoreWord(mem, cr3, 0);
      forall k: nat | k < ENTRIES ensures Entry(mem[..], cr3, k) == BootEntry(table, k, false) {
        assert ReadEntry(Physical(m0), cr3, k) == BootEntry(table, k, true);
        if k != 0 { OutsideWord(m0, mem[..], cr3, cr3 + 4, cr3 + 4 * k); }
      }
      forall i: nat | i < ENTRIES ensures Entry(mem[..], table, i) == i * PAGE_SIZE + BOOT_FLAGS {
        assert ReadEntry(Physical(m0), table, i) == i * PAGE_SIZE + BOOT_FLAGS;
        OutsideWord(m0, mem[..], cr3, cr3 + 4, table + 4 * i);
      }
      TablesInPhysical(mem[..], cr3, table, false);
      forall v: nat | v < U32_LIMIT ensures Walk(Physical(mem[..]), cr3, v) == KernelTranslation(v) {
        BootTablesTranslate(Physical(mem[..]), cr3, table, false, v);
      }
    }
  }

  // ----- the switch to the kernel's own tables --------------------------------------------------

  /** Both tables lie in the 4 MB that the kernel's mapping shows, and below a kernel address. */
  predicate BootTablesBelow(d: nat, t: nat, limit: nat) {
    && d + PAGE_SIZE <= TABLE_SPAN && t + PAGE_SIZE <= TABLE_SPAN
    && KERNEL_VIRTUAL_ADDRESS + d + PAGE_SIZE <= limit && KERNEL_VIRTUAL_ADDRESS + t + PAGE_SIZE <= limit
  }

  /** Memory that agrees with what the kernel sees of the two pages holds the same boot tables. */
  lemma TablesSeen(read: nat -> nat, read': nat -> nat, d: nat, t: nat, identity: bool)
    requires BootTablesIn(read, d, t, identity)
    requires forall k: nat :: k < ENTRIES ==> ReadEntry(read', d, k) == ReadEntry(read, d, k)
    requires forall i: nat :: i < ENTRIES ==> ReadEntry(read', t, i) == ReadEntry(read, t, i)
    ensures BootTablesIn(read', d, t, identity)
  {
  }

  /** What the boot loader left in physical memory is what the kernel sees at its base. */
  lemma KernelSeesTables(m: seq<u8>, read: nat -> nat, d: nat, t: nat, identity: bool)
    requires BootTablesIn(read, d, t, identity) && Shows(m, read)
    requires d + PAGE_SIZE <= TABLE_SPAN && t + PAGE_SIZE <= TABLE_SPAN
    ensures BootTablesIn(KernelView(m), d, t, identity)
  {
    hide Word;
    TablesSeen(read, KernelView(m), d, t, identity);
  }

  lemma EntryBelow(m: seq<u8>, m': seq<u8>, limit: nat, read: nat -> nat, a: nat, k: nat)
    requires SameBelow(m, m', limit) && Shows(m', read) && k < ENTRIES
    requires a + PAGE_SIZE <= TABLE_SPAN && KERNEL_VIRTUAL_ADDRESS + a + PAGE_SIZE <= limit
    ensures ReadEntry(read, a, k) == ReadEntry(KernelView(m), a, k)
  {
    hide Word;
    BelowWord(m, m', limit, KERNEL_VIRTUAL_ADDRESS + (a + 4 * k));
  }

  /** What the kernel sees of the boot tables still stands in memory once only bytes above them have changed. */
  lemma BootTablesStand(m: seq<u8>, m': seq<u8>, limit: nat, read: nat -> nat, d: nat, t: nat, identity: bool)
    requires BootTablesIn(KernelView(m), d, t, identity) && BootTablesBelow(d, t, limit)
    requires SameBelow(m, m', limit) && Shows(m', read)
    ensures BootTablesIn(read, d, t, identity)
  {
    hide KernelView, Shows, SameBelow, ReadEntry;
    forall k: nat | k < ENTRIES ensures ReadEntry(read, d, k) == ReadEntry(KernelView(m), d, k) {
      EntryBelow(m, m', limit, read, d, k);
    }
    forall i: nat | i < ENTRIES ensures ReadEntry(read, t, i) == ReadEntry(KernelView(m), t, i) {
      EntryBelow(m, m', limit, read, t, i);
    }
    TablesSeen(KernelView(m), read, d, t, identity);
  }

  /** Loading CR3 changes the translation of an address iff the boot tables still map it to itself. */
  ghost predicate SwitchKeeps(read: nat -> nat, before: nat, after: nat, identity: bool) {
    forall v: nat :: v < U32_LIMIT ==>
      && (Walk(read, after, v) == Walk(read, before, v) <==> !(identity && v < TABLE_SPAN))
      && (KERNEL_VIRTUAL_ADDRESS <= v < KERNEL_VIRTUAL_ADDRESS + TABLE_SPAN ==>
           Walk(read, after, v) == Some(v - KERNEL_VIRTUAL_ADDRESS))
  }

  /**
   One memory holds the boot tables, which nothing has written to since the kernel saw them, and the
   kernel's own. Switching from these to those keeps every translation, but for the identity mapping
   of the first 4 MB if that has not been taken away before.
   */
  lemma SwitchKeepsKernel(m: seq<u8>, m': seq<u8>, limit: nat, read: nat -> nat, d: nat, t: nat, identity: bool,
                          directory: nat, table: nat)
    requires BootTablesIn(KernelView(m), d, t, identity) && BootTablesBelow(d, t, limit)
    requires SameBelow(m, m', limit) && Shows(m', read)
    requires KernelTables(m', directory, table)
    requires Shown(directory) && Shown(table) && directory % PAGE_SIZE == 0
    ensures SwitchKeeps(read, d, directory - KERNEL_VIRTUAL_ADDRESS, identity)
  {
    hide Walk, KernelView, Shows, SameBelow, KernelTables, BootTablesIn;
    BootTablesStand(m, m', limit, read, d, t, identity);
    forall v: nat | v < U32_LIMIT
      ensures Walk(read, d, v) == BootTranslation(v, identity)
      ensures Walk(read, directory - KERNEL_VIRTUAL_ADDRESS, v) == KernelTranslation(v)
    {
      BootTablesTranslate(read, d, t, identity, v);
      KernelTablesTranslate(m', read, directory, table, v);
    }
  }
}
