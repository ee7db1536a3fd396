/** What the allocator promises its callers, over single calls and over whole runs. */
module HeapTheorems {
  import opened Bits
  import opened Blocks
  import opened HeapModel
  import opened HeapInvariant
  import opened Coalescing

  // ----- first fit is best fit ----------------------------------------------------------

  /** b was a smallest FREE block large enough, and t is what became of it. */
  ghost predicate ServedFrom(h: Heap, size: nat, m: Heap, b: Block, t: Block) {
    && b in h.blocks && Fits(b, size)
    && (forall c :: c in h.blocks && Fits(c, size) ==> b.size <= c.size)
    && t in m.blocks && t.used && t.addr == b.addr && size <= t.size <= size + 36
  }

  lemma FitExists(h: Heap, size: nat)
    requires Inv(h)
    ensures FirstFit(h.order, size) < |h.order| <==> exists b :: b in h.blocks && Fits(b, size)
  {
    var i := FirstFit(h.order, size);
    if i < |h.order| {
      SamePlaces(h.order, h.blocks, h.order[i]);
    } else {
      forall b | b in h.blocks ensures !Fits(b, size) {
        SamePlaces(h.order, h.blocks, b);
        assert h.order[IndexOf(h.order, b)] == b;
      }
    }
  }

  /** What a request does to the address order: cut block p in two, or mark it. */
  function CutOrMark(s: seq<Block>, p: nat, size: nat): (t: seq<Block>)
    requires p < |s| && Fits(s[p], size)
    ensures p < |t| && t[p].used && t[p].addr == s[p].addr && size <= t[p].size <= size + HDR + FTR + SLACK
  {
    if Splits(s[p], size) then Cut(s, p, size) else s[p := s[p].(used := true)]
  }

  lemma TakeBlocks(h: Heap, i: nat, size: nat) returns (p: nat)
    requires Inv(h) && i < |h.order| && Fits(h.order[i], size)
    ensures h.order[i] in h.blocks && p < |h.blocks| && h.blocks[p] == h.order[i]
    ensures var m := Take(h, i, size);
      m.blocks == CutOrMark(h.blocks, p, size) && m.bump == h.bump && m.gaps == h.gaps && m.start == h.start
  {
    var b := h.order[i];
    SamePlaces(h.order, h.blocks, b);
    p := IndexOf(h.blocks, b);
  }

  lemma FirstFitLeast(h: Heap, size: nat, c: Block)
    requires Inv(h) && c in h.blocks && Fits(c, size)
    ensures var i := FirstFit(h.order, size); i < |h.order| && h.order[i].size <= c.size
  {
    SamePlaces(h.order, h.blocks, c);
    assert h.order[IndexOf(h.order, c)] == c;
  }

  lemma TakeIsBest(h: Heap, i: nat, size: nat) returns (b: Block, t: Block)
    requires Inv(h) && i == FirstFit(h.order, size) && i < |h.order|
    ensures h.order[i] in h.blocks && b == h.order[i]
    ensures ServedFrom(h, size, Take(h, i, size), b, t)
  {
    var p := TakeBlocks(h, i, size);
    b, t := h.order[i], CutOrMark(h.blocks, p, size)[p];
    forall c | c in h.blocks && Fits(c, size) ensures b.size <= c.size { FirstFitLeast(h, size, c); }
  }

  /** The first block of the sorted list that fits is a smallest one; the heap grows only if none fits. */
  lemma FirstFitIsBestFit(h: Heap, size: nat)
    requires Inv(h)
    ensures var (m, address) := Malloc(h, size);
      if exists b :: b in h.blocks && Fits(b, size)
      then m.bump == h.bump && exists b, t :: ServedFrom(h, size, m, b, t) && b.Location() == address
      else m == Append(h, size) && address == h.bump + HDR
  {
    FitExists(h, size);
    var i := FirstFit(h.order, size);
    if i < |h.order| {
      var b, t := TakeIsBest(h, i, size);
    }
  }

  /** Block p of an address order is cut iff it exceeds the request by more than 36 bytes, and handed out whole otherwise. */
  function ServedLayout(s: seq<Block>, p: nat, size: nat): seq<Block>
    requires p < |s| && size <= s[p].size
  {
    if s[p].size > size + 36 then
      s[..p] + [Block(s[p].addr, size, true), Block(s[p].addr + 32 + size, s[p].size - 32 - size, false)] + s[p + 1..]
    else s[p := Block(s[p].addr, s[p].size, true)]
  }

  /** The block at place p of the address order served the request. */
  ghost predicate ServedAt(h: Heap, size: nat, m: Heap, address: nat, p: nat)
    requires p < |h.blocks|
  {
    var b := h.blocks[p];
    && !b.used && size <= b.size && address == b.addr + 24
    && m.blocks == ServedLayout(h.blocks, p, size) && m.bump == h.bump
  }

  /** What malloc hands out, and the layout it leaves, byte by byte. */
  lemma MallocLayout(h: Heap, size: nat)
    requires Inv(h)
    ensures var (m, address) := Malloc(h, size);
      if exists b :: b in h.blocks && !b.used && size <= b.size
      then exists p :: 0 <= p < |h.blocks| && ServedAt(h, size, m, address, p)
      else m.blocks == h.blocks + [Block(h.bump, size, true)] && m.bump == h.bump + 32 + size && address == h.bump + 24
  {
    FitExists(h, size);
    var i := FirstFit(h.order, size);
    if i < |h.order| {
      assert Fits(h.order[i], size);
      var p := TakeBlocks(h, i, size);
      assert ServedAt(h, size, Malloc(h, size).0, Malloc(h, size).1, p);
    } else {
      forall b | b in h.blocks ensures b.used || size > b.size { assert !Fits(b, size); }
    }
  }

  // ----- the order of the list among blocks of one size ----------------------------------------

  /** A block that grows the heap stands behind all others of its size. */
  lemma AppendListed(h: Heap, size: nat, z: nat)
    ensures OfSize(Append(h, size).order, z) == OfSize(h.order, z) + if z == size then [Block(h.bump, size, true)] else []
  {
    StableSortSorts(h.order + [Block(h.bump, size, true)]);
    OfSizeConcat(h.order, [Block(h.bump, size, true)], z);
  }

  /** So does a merged block, once its two parts have left the list. */
  lemma MergeListed(h: Heap, q: nat, z: nat)
    requires q + 1 < |h.blocks|
    ensures var a, b := h.blocks[q], h.blocks[q + 1];
      OfSize(MergeAt(h, q).order, z)
        == OfSize(Remove(Remove(h.order, b), a), z) + if z == a.size + 32 + b.size then [Block(a.addr, z, false)] else []
  {
    var a, b := h.blocks[q], h.blocks[q + 1];
    var rest := Remove(Remove(h.order, b), a);
    StableSortSorts(rest + [Join(a, b)]);
    OfSizeConcat(rest, [Join(a, b)], z);
  }

  lemma CutListed(s: seq<Block>, i: nat, size: nat, z: nat)
    requires i < |s| && Splits(s[i], size)
    ensures var b := s[i];
      OfSize(Cut(s, i, size), z)
        == OfSize(s[..i], z)
           + OfSize([Block(b.addr, size, true), Block(b.addr + 32 + size, b.size - 32 - size, false)], z)
           + OfSize(s[i + 1..], z)
  {
    hide OfSize;
    var two := [Taken(s[i], size), Rest(s[i], size)];
    OfSizeConcat(s[..i] + two, s[i + 1..], z);
    OfSizeConcat(s[..i], two, z);
  }

  /** The two parts of a split block take its place, the request in front, and then sort stably. */
  lemma SplitListed(h: Heap, i: nat, size: nat, z: nat)
    requires i < |h.order| && h.order[i] in h.blocks && IndexOf(h.order, h.order[i]) == i && Splits(h.order[i], size)
    ensures var b := h.order[i];
      OfSize(Split(h, b, size).order, z)
        == OfSize(h.order[..i], z)
           + OfSize([Block(b.addr, size, true), Block(b.addr + 32 + size, b.size - 32 - size, false)], z)
           + OfSize(h.order[i + 1..], z)
  {
    hide OfSize, StableSort, IndexOf;
    CutListed(h.order, i, size, z);
    StableSortSorts(Cut(h.order, i, size));
  }

  // ----- free undoes malloc -------------------------------------------------------------

  lemma LocationIsUnique(h: Heap, b: Block)
    requires Inv(h) && b in h.blocks
    ensures var i := FindLocation(h.order, b.Location()); i < |h.order| && h.order[i] == b
  {
    SamePlaces(h.order, h.blocks, b);
    DistinctOrder(h.order, h.blocks, h.start, h.bump);
    assert h.order[IndexOf(h.order, b)] == b;
  }

  lemma TileIndex(h: Heap, p: nat)
    requires Inv(h) && p < |h.blocks|
    ensures IndexOf(h.blocks, h.blocks[p]) == p
  {
    var q := IndexOf(h.blocks, h.blocks[p]);
    assert h.blocks[q] == h.blocks[p];
  }

  lemma CutJoinsBack(s: seq<Block>, p: nat, size: nat)
    requires p < |s| && Splits(s[p], size)
    ensures var t := Cut(s, p, size)[p := Taken(s[p], size).(used := false)];
      Joinable(t[p], t[p + 1]) && JoinAt(t, p) == s
  {
    var t := Cut(s, p, size)[p := Taken(s[p], size).(used := false)];
    assert Join(t[p], t[p + 1]) == s[p];
    assert s == s[..p] + [s[p]] + s[p + 1..];
  }

  /** Un-marking a block that was given out leads back to the same merged layout. */
  lemma UnmarkRestores(s: seq<Block>, p: nat, size: nat)
    requires p < |s| && Fits(s[p], size)
    ensures var t := CutOrMark(s, p, size); Coalesce(t[p := t[p].(used := false)]) == Coalesce(s)
  {
    var t := CutOrMark(s, p, size);
    if Splits(s[p], size) {
      CutJoinsBack(s, p, size);
      JoinKeepsCoalesce(t[p := t[p].(used := false)], p);
    } else {
      assert t[p := t[p].(used := false)] == s;
    }
  }

  /** Freeing in a heap with nothing to merge: mark the block, and run the left-to-right pass. */
  lemma FreeMerged(m: Heap, p: nat)
    requires Inv(m) && p < |m.blocks| && MergeAll(m) == m
    ensures var (r, status) := Free(m, m.blocks[p].Location());
      && status == 0 && Inv(r)
      && r.blocks == Coalesce(m.blocks[p := m.blocks[p].(used := false)])
      && r.bump == m.bump && r.gaps == m.gaps && r.start == m.start
  {
    var t := m.blocks[p];
    LocationIsUnique(m, t);
    TileIndex(m, p);
    SetUsedInv(m, t, false);
    MergeAllCanonical(SetUsed(m, t, false));
  }

  /** Freeing any block in use: the result is that of marking it and running the left-to-right pass once. */
  lemma FreeLive(h: Heap, p: nat)
    requires Inv(h) && p < |h.blocks| && h.blocks[p].used
    ensures var (r, status) := Free(h, h.blocks[p].Location());
      && status == 0 && Inv(r)
      && r.blocks == Coalesce(h.blocks[p := h.blocks[p].(used := false)])
      && r.bump == h.bump && r.gaps == h.gaps && r.start == h.start
  {
    var m := MergeAll(h);
    MergeAllCanonical(h);
    MergeNothing(m, 0);
    var p' := UnmarkCoalesced(h.blocks, p);
    FreeMerged(m, p');
  }

  /** r has the layout of h, and its list is that of h up to blocks of equal size. */
  ghost predicate SameHeap(r: Heap, h: Heap) {
    && Inv(r)
    && r.blocks == h.blocks && r.bump == h.bump && r.gaps == h.gaps && r.start == h.start
    && multiset(r.order) == multiset(h.order)
  }

  lemma LocationListed(h: Heap, address: nat)
    requires Inv(h)
    ensures var i := FindLocation(h.order, address);
      && (i < |h.order| ==> h.order[i] in h.blocks)
      && (i < |h.order| <==> exists b :: b in h.blocks && b.Location() == address)
  {
    var i := FindLocation(h.order, address);
    hide Tiled, Ascending, Spans;
    if i < |h.order| {
      SamePlaces(h.order, h.blocks, h.order[i]);
    } else {
      forall b | b in h.blocks ensures b.Location() != address {
        SamePlaces(h.order, h.blocks, b);
        assert h.order[IndexOf(h.order, b)] == b;
      }
    }
  }

  lemma UnmarkFree(h: Heap, b: Block)
    requires Inv(h) && b in h.blocks && !b.used
    ensures SetUsed(h, b, false) == h
  {
    SetUsedInv(h, b, false);
    assert b.(used := false) == b;
  }

  lemma UsedBefore(h: Heap, b: Block)
    requires Inv(h) && b in MergeAll(h).blocks && b.used
    ensures b in h.blocks
  {
    MergeAllCanonical(h);
    UsedOnlyMembers(h.blocks, b);
    UsedOnlyMembers(MergeAll(h).blocks, b);
  }

  /** Freeing an address at which nothing is in use only merges; it succeeds iff a merged FREE block has that address. */
  lemma FreeOther(h: Heap, address: nat)
    requires Inv(h) && forall b :: b in h.blocks && b.Location() == address ==> !b.used
    ensures var (r, status) := Free(h, address);
      && r == MergeAll(h) && Inv(r) && r.blocks == Coalesce(h.blocks)
      && (status == 0 <==> exists b :: b in Coalesce(h.blocks) && b.Location() == address)
  {
    hide Inv, MergeFrom, Coalesce, SetUsed, SameContents, FindLocation, IndexOf;
    var m := MergeAll(h);
    MergeAllCanonical(h);
    MergeNothing(m, 0);
    LocationListed(m, address);
    var i := FindLocation(m.order, address);
    if i < |m.order| {
      if m.order[i].used { UsedBefore(h, m.order[i]); }
      UnmarkFree(m, m.order[i]);
    }
  }

  lemma FreeUndoesTake(h: Heap, p: nat, size: nat, m: Heap)
    requires Inv(h) && p < |h.blocks| && Fits(h.blocks[p], size)
    requires Inv(m) && m.blocks == CutOrMark(h.blocks, p, size)
    requires m.bump == h.bump && m.gaps == h.gaps && m.start == h.start
    ensures SameHeap(Free(m, h.blocks[p].Location()).0, MergeAll(h)) && Free(m, h.blocks[p].Location()).1 == 0
  {
    hide StableSort, Coalesce, Free, MergeAll, Tiled, Ascending, SameContents, Splits;
    UnmarkRestores(h.blocks, p, size);
    FreeLive(m, p);
    MergeAllCanonical(h);
  }

  /** A malloc that reuses a block is undone by freeing its address: what remains is the merging that free does. */
  lemma FreeUndoesMalloc(h: Heap, size: nat)
    requires Inv(h)
    requires exists b :: b in h.blocks && Fits(b, size)
    ensures var (m, address) := Malloc(h, size);
      && Free(m, address).1 == 0 && SameHeap(Free(m, address).0, MergeAll(h))
      && (Coalesced(h.blocks) ==> SameHeap(Free(m, address).0, h))
  {
    hide FirstFit, Take, Free, MergeFrom, CutOrMark, SameHeap, Inv, Fits;
    FitExists(h, size);
    var i := FirstFit(h.order, size);
    var p := TakeBlocks(h, i, size);
    TakeInv(h, i, size);
    FreeUndoesTake(h, p, size, Take(h, i, size));
    if Coalesced(h.blocks) { MergeNothing(h, 0); }
  }

  /** A malloc that grew the heap is not undone: its block stays behind, FREE and coalesced. */
  lemma FreeAfterGrowth(h: Heap, size: nat)
    requires Inv(h)
    requires forall b :: b in h.blocks ==> !Fits(b, size)
    ensures var (m, address) := Malloc(h, size);
      var (r, status) := Free(m, address);
      && status == 0 && Inv(r)
      && r.blocks == Coalesce(h.blocks + [Block(h.bump, size, false)])
      && r.bump == h.bump + HDR + size + FTR
  {
    FitExists(h, size);
    var m, p := Append(h, size), |h.blocks|;
    AppendInv(h, size);
    hide StableSort, Coalesce, Inv, Free;
    FreeLive(m, p);
    assert m.blocks[p := m.blocks[p].(used := false)] == h.blocks + [Block(h.bump, size, false)];
  }

  // ----- whole runs ---------------------------------------------------------------------

  /** A call on the heap; calloc acts on headers, footers and links exactly as malloc does. */
  datatype Op =
    | OpMalloc(size: nat) | OpCalloc(size: nat, value: u8)
    | OpAligned(size: nat) | OpCallocAligned(size: nat, value: u8)
    | OpFree(address: nat)

  function Step(h: Heap, op: Op): Heap
    requires multiset(h.order) == multiset(h.blocks)
  {
    match op
    case OpMalloc(size) => Malloc(h, size).0
    case OpCalloc(size, _) => Malloc(h, size).0
    case OpAligned(size) => MallocAligned(h, size).0
    case OpCallocAligned(size, _) => MallocAligned(h, size).0
    case OpFree(address) => Free(h, address).0
  }

  /** A page-aligned request needs 24 bytes in front of the boundary; the rest may always be made. */
  predicate Allowed(h: Heap, op: Op) { op.OpAligned? || op.OpCallocAligned? ==> PageRoom(h.bump) }

  /** A step leads from a well-formed heap to a well-formed heap exactly when it is allowed. */
  lemma StepInv(h: Heap, op: Op)
    requires Inv(h)
    ensures Inv(Step(h, op)) <==> Allowed(h, op)
  {
    match op
    case OpMalloc(size) => MallocInv(h, size);
    case OpCalloc(size, _) => MallocInv(h, size);
    case OpAligned(size) => AppendAlignedExact(h, size);
    case OpCallocAligned(size, _) => AppendAlignedExact(h, size);
    case OpFree(address) => FreeInv(h, address);
  }

  lemma EmptyInv(start: nat)
    requires 0 < start
    ensures Inv(EmptyHeap(start))
  {
  }

  /** One malloc is enough to reach a heap on which a page-aligned request puts its header into a live block. */
  lemma PageRoomExample(size: nat)
    ensures var h := Step(EmptyHeap(0x1000), OpMalloc(4054));
      && Inv(h) && !PageRoom(h.bump) && !Inv(Step(h, OpAligned(size)))
      && h.blocks == [Block(0x1000, 4054, true)] && 0x1000 < AlignedAddr(h.bump) < h.bump
  {
    hide Inv, AppendAligned, StableSort;
    var empty := EmptyHeap(0x1000);
    EmptyInv(0x1000);
    StepInv(empty, OpMalloc(4054));
    var h := Step(empty, OpMalloc(4054));
    assert h.bump == 0x1FF6;
    InvGrowable(h);
    StepInv(h, OpAligned(size));
  }

  /** The heaps a run passes through, first to last. */
  ghost predicate IsRun(hs: seq<Heap>, ops: seq<Op>) {
    && |hs| == |ops| + 1
    && forall k :: 0 <= k < |ops| ==>
         multiset(hs[k].order) == multiset(hs[k].blocks) && Allowed(hs[k], ops[k]) && hs[k + 1] == Step(hs[k], ops[k])
  }

  /** A run goes on with any call that is allowed. */
  lemma RunGoesOn(hs: seq<Heap>, ops: seq<Op>, op: Op)
    requires IsRun(hs, ops) && Inv(hs[|ops|]) && Allowed(hs[|ops|], op)
    ensures multiset(hs[|ops|].order) == multiset(hs[|ops|].blocks)
    ensures IsRun(hs + [Step(hs[|ops|], op)], ops + [op])
  {
    InvGrowable(hs[|ops|]);
    hide Step, Inv, Allowed;
    var all, more := ops + [op], hs + [Step(hs[|ops|], op)];
    forall k | 0 <= k < |all|
      ensures multiset(more[k].order) == multiset(more[k].blocks) && Allowed(more[k], all[k]) && more[k + 1] == Step(more[k], all[k])
    {
      if k < |ops| { assert all[k] == ops[k] && more[k] == hs[k] && more[k + 1] == hs[k + 1]; }
    }
  }

  /** Every heap of every run is well-formed: tiled, the list a sorted permutation, no byte lost. */
  lemma {:induction false} RunInv(hs: seq<Heap>, ops: seq<Op>, k: nat)
    requires IsRun(hs, ops) && Inv(hs[0]) && k < |hs|
    ensures Inv(hs[k])
  {
    if k > 0 {
      RunInv(hs, ops, k - 1);
      assert hs[k - 1 + 1] == Step(hs[k - 1], ops[k - 1]);
      StepInv(hs[k - 1], ops[k - 1]);
    }
  }

  lemma CutOrMarkKeeps(s: seq<Block>, p: nat, size: nat, j: nat)
    requires p < |s| && Fits(s[p], size) && j < |s| && j != p
    ensures s[j] in CutOrMark(s, p, size)
  {
    var t := CutOrMark(s, p, size);
    assert t[if Splits(s[p], size) && j > p then j + 1 else j] == s[j];
  }

  lemma TakeKeeps(h: Heap, i: nat, size: nat, b: Block)
    requires Inv(h) && i < |h.order| && Fits(h.order[i], size) && b in h.blocks && b.used
    ensures h.order[i] in h.blocks && b in Take(h, i, size).blocks
  {
    hide Inv, Take, CutOrMark;
    var p := TakeBlocks(h, i, size);
    CutOrMarkKeeps(h.blocks, p, size, IndexOf(h.blocks, b));
  }

  lemma AlignedKeeps(h: Heap, size: nat, b: Block)
    requires Inv(h) && b in h.blocks
    ensures b in AppendAligned(h, size).blocks
  {
    var j := IndexOf(h.blocks, b);
    if NeedsFiller(h.bump) {
      var filler := Block(h.bump, FillerSize(h.bump), true);
      var s := Append(Append(h, filler.size), size).blocks;
      assert s[j] == b && b.addr < b.End() <= h.bump;
      assert Replace(s, filler, filler.(used := false))[j] == b;
    } else {
      assert AppendAligned(h, size).blocks[j] == b;
    }
  }

  lemma MergeKeeps(h: Heap, b: Block)
    requires Inv(h) && b in h.blocks && b.used
    ensures b in MergeAll(h).blocks
  {
    MergeAllCanonical(h);
    UsedOnlyMembers(h.blocks, b);
    UsedOnlyMembers(MergeAll(h).blocks, b);
  }

  lemma FreeKeeps(h: Heap, address: nat, b: Block)
    requires Inv(h) && b in h.blocks && b.used && b.Location() != address
    ensures b in Free(h, address).0.blocks
  {
    var m := MergeAll(h);
    MergeFromInv(h, 0);
    MergeKeeps(h, b);
    var i := FindLocation(m.order, address);
    if i < |m.order| {
      var f := m.order[i];
      SamePlaces(m.order, m.blocks, f);
      SetUsedInv(m, f, false);
      assert SetUsed(m, f, false).blocks[IndexOf(m.blocks, b)] == b;
      MergeKeeps(SetUsed(m, f, false), b);
    }
  }

  lemma MallocKeeps(h: Heap, size: nat, b: Block)
    requires Inv(h) && b in h.blocks && b.used
    ensures b in Malloc(h, size).0.blocks
  {
    var i := FirstFit(h.order, size);
    if i < |h.order| {
      TakeKeeps(h, i, size, b);
    } else {
      assert Append(h, size).blocks[IndexOf(h.blocks, b)] == b;
    }
  }

  lemma StepKeeps(h: Heap, op: Op, b: Block)
    requires Inv(h) && Allowed(h, op) && b in h.blocks && b.used && op != OpFree(b.Location())
    ensures b in Step(h, op).blocks
  {
    match op
    case OpMalloc(size) => MallocKeeps(h, size, b);
    case OpCalloc(size, _) => MallocKeeps(h, size, b);
    case OpAligned(size) => AlignedKeeps(h, size, b);
    case OpCallocAligned(size, _) => AlignedKeeps(h, size, b);
    case OpFree(address) => FreeKeeps(h, address, b);
  }

  /** None of the first k calls frees b. */
  predicate NeverFreed(b: Block, ops: seq<Op>, k: nat)
    requires k <= |ops|
  {
    forall j :: 0 <= j < k ==> ops[j] != OpFree(b.Location())
  }

  /** A block in use keeps its place, its size and its flag until its own address is freed. */
  lemma {:induction false} LiveBlocksSurvive(hs: seq<Heap>, ops: seq<Op>, b: Block, k: nat)
    requires IsRun(hs, ops) && Inv(hs[0]) && k < |hs|
    requires b in hs[0].blocks && b.used && NeverFreed(b, ops, k)
    ensures b in hs[k].blocks
  {
    if k > 0 {
      LiveBlocksSurvive(hs, ops, b, k - 1);
      RunInv(hs, ops, k - 1);
      assert hs[k - 1 + 1] == Step(hs[k - 1], ops[k - 1]);
      StepKeeps(hs[k - 1], ops[k - 1], b);
    }
  }

  lemma MallocGives(h: Heap, size: nat) returns (t: Block)
    requires Inv(h)
    ensures var (m, address) := Malloc(h, size);
      t in m.blocks && t.used && t.Location() == address && size <= t.size
    ensures forall b :: b in h.blocks && b.used ==> b.addr != t.addr
  {
    var i := FirstFit(h.order, size);
    if i < |h.order| {
      var p := TakeBlocks(h, i, size);
      t := CutOrMark(h.blocks, p, size)[p];
      forall b | b in h.blocks && b.used ensures b.addr != t.addr {
        assert h.blocks[IndexOf(h.blocks, b)] == b;
      }
    } else {
      t := Block(h.bump, size, true);
      LastAppended(h, size);
      forall b | b in h.blocks ensures b.addr != t.addr {
        assert b.End() <= h.bump by { var j := IndexOf(h.blocks, b); }
      }
    }
  }

  /** What malloc hands out does not overlap any block in use at the time of the call. */
  lemma MallocIsDisjoint(h: Heap, size: nat, b: Block)
    requires Inv(h) && b in h.blocks && b.used
    ensures var (m, address) := Malloc(h, size);
      exists t :: t in m.blocks && t.used && t.Location() == address && size <= t.size
                  && (t.End() <= b.addr || b.End() <= t.addr)
  {
    var m := Malloc(h, size).0;
    var t := MallocGives(h, size);
    MallocInv(h, size);
    MallocKeeps(h, size, b);
    assert m.blocks[IndexOf(m.blocks, t)] == t && m.blocks[IndexOf(m.blocks, b)] == b;
  }
}
