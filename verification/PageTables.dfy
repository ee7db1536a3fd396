/** Page-table words and the two-level walk of 32-bit paging (section 4.3 of the Intel SDM, volume 3A). */
module PageTables {
  import opened Bits

  const KERNEL_VIRTUAL_ADDRESS: nat := 0xC0000000
  const KERNEL_PAGE_NUMBER: nat := 768
  const ENTRIES: nat := 1024
  const PAGE_SIZE: nat := 0x1000
  // What one page table maps, and what the kernel maps at boot.
  const TABLE_SPAN: nat := 0x400000

  datatype Option<T> = None | Some(value: T)

  /** Entry k of the table or directory at a. */
  function Entry(m: seq<u8>, a: nat, k: nat): nat { Word(m, a + 4 * k) }

  // ----- entries --------------------------------------------------------------------------

  predicate Present(w: nat) { w % 2 == 1 }

  function Frame(w: nat): nat { w / PAGE_SIZE }

  // Assignments to the one-bit fields and to the 20-bit frame number of an entry.
  function SetPresent(w: nat, v: nat): nat { w - w % 2 + v % 2 }

  function SetWriteable(w: nat, v: nat): nat { w - w / 2 % 2 * 2 + v % 2 * 2 }

  function SetUser(w: nat, v: nat): nat { w - w / 4 % 2 * 4 + v % 2 * 4 }

  function SetFrame(w: nat, frame: nat): nat { w % PAGE_SIZE + frame % 0x100000 * PAGE_SIZE }

  /** The four fields of a present entry. */
  predicate Maps(e: nat, frame: nat, user: nat, writeable: nat) {
    Present(e) && Frame(e) == frame && e / 2 % 2 == writeable % 2 && e / 4 % 2 == user % 2
  }

  /** Bits 3 to 11 of an entry are those of the word it has replaced. */
  predicate KeepsRest(e: nat, w: nat) { e % 0x1000 / 8 == w % 0x1000 / 8 }

  /** The assignments of kernel_set_page_table_entry, in its order. */
  function TableEntry(w: nat, frame: nat, user: nat, writeable: nat): nat {
    var framed := if !Present(w) then SetFrame(w, frame) else w;
    SetFrame(SetPresent(SetUser(SetWriteable(framed, writeable), user), 1), frame)
  }

  /** The assignments of kernel_set_page_directory_entry for a new table: the two flags are crossed. */
  function DirectoryEntry(w: nat, frame: nat, user: nat, writeable: nat): nat {
    SetPresent(SetFrame(SetWriteable(SetUser(w, writeable), user), frame), 1)
  }

  lemma ThreeParts(a: nat, b: nat, c: nat, n: nat)
    requires b < 2 && c < n && 0 < n <= 4
    ensures (2 * n * a + n * b + c) / (2 * n) == a
    ensures (2 * n * a + n * b + c) / n == 2 * a + b
    ensures (2 * n * a + n * b + c) % n == c
  {
    if n == 1 {} else if n == 2 {} else if n == 3 {} else {}
  }

  lemma UserField(w: nat, v: nat)
    ensures var u := SetUser(w, v); u / 8 == w / 8 && u / 4 % 2 == v % 2 && u % 4 == w % 4
  {
    var a, b, c := w / 8, w / 4 % 2, w % 4;
    ThreeParts(a, b, c, 4);
    assert w == 8 * a + 4 * b + c;
    ThreeParts(a, v % 2, c, 4);
    assert SetUser(w, v) == 8 * a + 4 * (v % 2) + c;
  }

  lemma WriteableField(w: nat, v: nat)
    ensures var u := SetWriteable(w, v); u / 4 == w / 4 && u / 2 % 2 == v % 2 && u % 2 == w % 2
  {
    var a, b, c := w / 4, w / 2 % 2, w % 2;
    ThreeParts(a, b, c, 2);
    assert w == 4 * a + 2 * b + c;
    ThreeParts(a, v % 2, c, 2);
    assert SetWriteable(w, v) == 4 * a + 2 * (v % 2) + c;
  }

  lemma PresentField(w: nat, v: nat)
    ensures var u := SetPresent(w, v); u / 2 == w / 2 && u % 2 == v % 2
  {
  }

  lemma Halved(y: nat, r: nat)
    ensures (2 * y + r) / 2 == y + r / 2 && (2 * y + r) % 2 == r % 2
  {
  }

  lemma LowBits(q: nat, r: nat)
    requires r < PAGE_SIZE
    ensures (q * PAGE_SIZE + r) / 2 % 2 == r / 2 % 2 && (q * PAGE_SIZE + r) / 4 % 2 == r / 4 % 2
    ensures (q * PAGE_SIZE + r) / PAGE_SIZE == q && (q * PAGE_SIZE + r) % PAGE_SIZE == r
  {
    Halved(q * 0x800, r);
    Halved(q * 0x400, r / 2);
    Halved(q * 0x200, r / 4);
  }

  lemma FrameField(w: nat, frame: nat)
    requires frame < 0x100000
    ensures var u := SetFrame(w, frame);
      u < U32_LIMIT && u / PAGE_SIZE == frame && u % PAGE_SIZE == w % PAGE_SIZE && u / 2 % 2 == w / 2 % 2 && u / 4 % 2 == w / 4 % 2
  {
    LowBits(frame, w % PAGE_SIZE);
    LowBits(w / PAGE_SIZE, w % PAGE_SIZE);
  }

  lemma PresentKeeps(w: nat, v: nat)
    ensures var e := SetPresent(w, v);
      e / 2 % 2 == w / 2 % 2 && e / 4 % 2 == w / 4 % 2 && e / PAGE_SIZE == w / PAGE_SIZE
  {
    var e := SetPresent(w, v);
    PresentField(w, v);
    assert e / 4 == e / 2 / 2 && w / 4 == w / 2 / 2;
    assert e / PAGE_SIZE == e / 2 / 0x800 && w / PAGE_SIZE == w / 2 / 0x800;
  }

  lemma RestOf(w: nat)
    ensures w % 0x1000 / 8 == w / 8 % 0x200 && w / 8 == w / 4 / 2 && w / 8 == w / 2 / 2 / 2
  {
  }

  /** No assignment touches bits 3 to 11. */
  lemma AssignmentsKeepRest(w: nat, v: nat)
    ensures KeepsRest(SetUser(w, v), w) && KeepsRest(SetWriteable(w, v), w) && KeepsRest(SetPresent(w, v), w)
  {
    hide SetUser, SetWriteable, SetPresent;
    UserField(w, v);
    WriteableField(w, v);
    PresentField(w, v);
    RestOf(w);
    RestOf(SetUser(w, v));
    RestOf(SetWriteable(w, v));
    RestOf(SetPresent(w, v));
  }

  lemma Slices(w: nat)
    ensures w % 2 == w % 4 % 2 && w / 8 == w / 4 / 2 && w / PAGE_SIZE == w / 8 / 0x200 && w < 8 * (w / 8) + 8
  {
  }

  lemma SecondBit(u: nat)
    ensures u / 2 % 2 == u % 4 / 2
  {
    assert u == 4 * (u / 4) + u % 4;
    assert u / 2 == 2 * (u / 4) + u % 4 / 2;
  }

  /** The four fields and the rest determine the word. */
  lemma ExactEntry(e: nat, frame: nat, user: nat, writeable: nat)
    requires Maps(e, frame, user, writeable) && KeepsRest(e, 0)
    ensures e == frame * 0x1000 + user % 2 * 4 + writeable % 2 * 2 + 1
  {
    RestOf(e);
    Slices(e);
    SecondBit(e);
    assert e == 0x1000 * (e / 0x1000) + e % 0x1000 && e % 0x1000 < 8;
    assert e / 8 == 0x200 * (e / 8 / 0x200) + e / 8 % 0x200;
    assert e == 8 * (e / 8) + e / 4 % 2 * 4 + e / 2 % 2 * 2 + e % 2;
  }

  lemma DirectoryEntryFields(w: nat, frame: nat, user: nat, writeable: nat)
    requires frame < 0x100000
    ensures var e := DirectoryEntry(w, frame, user, writeable);
      e < U32_LIMIT && Maps(e, frame, writeable, user) && KeepsRest(e, w)
  {
    var u := SetUser(w, writeable);
    UserField(w, writeable);
    var x := SetWriteable(u, user);
    WriteableField(u, user);
    var y := SetFrame(x, frame);
    FrameField(x, frame);
    PresentField(y, 1);
    PresentKeeps(y, 1);
    AssignmentsKeepRest(w, writeable);
    AssignmentsKeepRest(u, user);
    AssignmentsKeepRest(y, 1);
  }

  /** Re-flagging a present entry keeps its frame. */
  lemma PresentEntryFields(w: nat, user: nat, writeable: nat)
    requires Present(w) && w < U32_LIMIT
    ensures var e := SetWriteable(SetUser(w, user), writeable);
      e < U32_LIMIT && Maps(e, Frame(w), user, writeable) && KeepsRest(e, w)
  {
    var u := SetUser(w, user);
    var e := SetWriteable(u, writeable);
    UserField(w, user);
    WriteableField(u, writeable);
    hide SetUser, SetWriteable;
    Slices(w);
    Slices(u);
    Slices(e);
    assert e / 8 == w / 8;
    RestOf(e);
    RestOf(w);
  }

  lemma OddFromPage(y: nat, z: nat)
    requires z % PAGE_SIZE == y % PAGE_SIZE && y % 2 == 1
    ensures z % 2 == 1
  {
    assert y == PAGE_SIZE * (y / PAGE_SIZE) + y % PAGE_SIZE;
    assert z == PAGE_SIZE * (z / PAGE_SIZE) + z % PAGE_SIZE;
  }

  lemma TableEntryFields(w: nat, frame: nat, user: nat, writeable: nat)
    requires frame < 0x100000
    ensures var e := TableEntry(w, frame, user, writeable);
      e < U32_LIMIT && Maps(e, frame, user, writeable) && KeepsRest(e, w)
  {
    var framed := if !Present(w) then SetFrame(w, frame) else w;
    var x := SetWriteable(framed, writeable);
    var u := SetUser(x, user);
    var y := SetPresent(u, 1);
    assert u / 2 % 2 == writeable % 2 && u / 4 % 2 == user % 2 by {
      WriteableField(framed, writeable);
      UserField(x, user);
      SecondBit(u);
      SecondBit(x);
    }
    assert y % 2 == 1 by { PresentField(u, 1); }
    PresentKeeps(u, 1);
    FrameField(w, frame);
    hide SetFrame, SetWriteable, SetUser, SetPresent;
    AssignmentsKeepRest(framed, writeable);
    AssignmentsKeepRest(x, user);
    AssignmentsKeepRest(u, 1);
    FrameField(y, frame);
    OddFromPage(y, SetFrame(y, frame));
  }

  // ----- the walk -------------------------------------------------------------------------

  /** The physical address a virtual address is translated to, or None for a page fault. */
  function Walk(read: nat -> nat, cr3: nat, v: nat): Option<nat> {
    var directory := read(Frame(cr3) * PAGE_SIZE + 4 * (v / TABLE_SPAN));
    if !Present(directory) then None
    else
      var table := read(Frame(directory) * PAGE_SIZE + 4 * (v / PAGE_SIZE % ENTRIES));
      if !Present(table) then None else Some(Frame(table) * PAGE_SIZE + v % PAGE_SIZE)
  }

  /** A walk that reads the entries de and te. */
  lemma WalkVia(read: nat -> nat, cr3: nat, v: nat, de: nat, te: nat)
    requires read(Frame(cr3) * PAGE_SIZE + 4 * (v / TABLE_SPAN)) == de
    requires Present(de) ==> read(Frame(de) * PAGE_SIZE + 4 * (v / PAGE_SIZE % ENTRIES)) == te
    ensures Walk(read, cr3, v) ==
      if Present(de) && Present(te) then Some(Frame(te) * PAGE_SIZE + v % PAGE_SIZE) else None
  {
  }

  /** m shows the first 4 MB of physical memory at the kernel base; about the rest nothing is known. */
  ghost predicate Shows(m: seq<u8>, read: nat -> nat) {
    forall p: nat :: p + 4 <= TABLE_SPAN ==> read(p) == Word(m, KERNEL_VIRTUAL_ADDRESS + p)
  }

  /** The page at this kernel address is among those that the kernel's mapping shows. */
  predicate Shown(address: nat) {
    KERNEL_VIRTUAL_ADDRESS <= address && address + PAGE_SIZE <= KERNEL_VIRTUAL_ADDRESS + TABLE_SPAN
  }

  /** A directory whose only present entry is the kernel's, and the table behind it. */
  ghost predicate KernelTables(m: seq<u8>, directory: nat, table: nat) {
    && Present(Entry(m, directory, KERNEL_PAGE_NUMBER))
    && Frame(Entry(m, directory, KERNEL_PAGE_NUMBER)) * PAGE_SIZE + KERNEL_VIRTUAL_ADDRESS == table
    && (forall d: nat :: d < ENTRIES && d != KERNEL_PAGE_NUMBER ==> !Present(Entry(m, directory, d)))
    && (forall i: nat :: i < ENTRIES ==> Present(Entry(m, table, i)) && Frame(Entry(m, table, i)) == i)
  }

  /** What a walk through the kernel's directory yields. */
  function KernelTranslation(v: nat): Option<nat> {
    if KERNEL_VIRTUAL_ADDRESS <= v < KERNEL_VIRTUAL_ADDRESS + TABLE_SPAN then Some(v - KERNEL_VIRTUAL_ADDRESS) else None
  }

  /** The directory maps exactly the 4 MB above the kernel base, onto the physical addresses from 0 up. */
  ghost predicate MapsKernelOnly(read: nat -> nat, cr3: nat) {
    forall v: nat :: v < U32_LIMIT ==> Walk(read, cr3, v) == KernelTranslation(v)
  }

  lemma SplitAddress(v: nat)
    requires v < U32_LIMIT
    ensures var d, i := v / TABLE_SPAN, v / PAGE_SIZE % ENTRIES;
      && d < ENTRIES && i < ENTRIES && v == d * TABLE_SPAN + i * PAGE_SIZE + v % PAGE_SIZE
      && (d == KERNEL_PAGE_NUMBER <==> KERNEL_VIRTUAL_ADDRESS <= v < KERNEL_VIRTUAL_ADDRESS + TABLE_SPAN)
  {
    assert v / PAGE_SIZE / ENTRIES == v / TABLE_SPAN;
  }

  lemma ShownEntry(m: seq<u8>, read: nat -> nat, a: nat, k: nat)
    requires Shows(m, read) && Shown(a) && k < ENTRIES
    ensures read(a - KERNEL_VIRTUAL_ADDRESS + 4 * k) == Entry(m, a, k)
  {
    hide Word;
    assert KERNEL_VIRTUAL_ADDRESS + (a - KERNEL_VIRTUAL_ADDRESS + 4 * k) == a + 4 * k;
  }

  lemma KernelTablesTranslate(m: seq<u8>, read: nat -> nat, directory: nat, table: nat, v: nat)
    requires KernelTables(m, directory, table) && Shows(m, read) && v < U32_LIMIT
    requires Shown(directory) && Shown(table) && directory % PAGE_SIZE == 0
    ensures Walk(read, directory - KERNEL_VIRTUAL_ADDRESS, v) == KernelTranslation(v)
  {
    hide Word, Walk, Shows, Entry;
    var cr3, d, i := directory - KERNEL_VIRTUAL_ADDRESS, v / TABLE_SPAN, v / PAGE_SIZE % ENTRIES;
    SplitAddress(v);
    assert Frame(cr3) * PAGE_SIZE == cr3;
    ShownEntry(m, read, directory, d);
    ShownEntry(m, read, table, i);
    WalkVia(read, cr3, v, Entry(m, directory, d), Entry(m, table, i));
  }

  lemma KernelTablesMap(m: seq<u8>, read: nat -> nat, directory: nat, table: nat)
    requires KernelTables(m, directory, table) && Shows(m, read)
    requires Shown(directory) && Shown(table) && directory % PAGE_SIZE == 0
    ensures MapsKernelOnly(read, directory - KERNEL_VIRTUAL_ADDRESS)
  {
    forall v: nat | v < U32_LIMIT ensures Walk(read, directory - KERNEL_VIRTUAL_ADDRESS, v) == KernelTranslation(v) {
      KernelTablesTranslate(m, read, directory, table, v);
    }
  }
}
