/** Every heap operation keeps the invariant, for every request and every address. */
module HeapInvariant {
  import opened Blocks
  import opened HeapModel

  // ----- sequences ----------------------------------------------------------------------

  lemma SamePlaces(s: seq<Block>, t: seq<Block>, b: Block)
    requires multiset(s) == multiset(t)
    ensures b in s <==> b in t
  {
    assert b in s <==> b in multiset(s);
    assert b in t <==> b in multiset(t);
  }

  lemma WithoutMultiset(s: seq<Block>, i: nat)
    requires i < |s|
    ensures multiset(Without(s, i)) == multiset(s) - multiset{s[i]}
  {
    assert s == s[..i] + [s[i]] + s[i + 1..];
  }

  /** Two entries of a sequence with equal values are counted twice. */
  lemma CountedTwice(s: seq<Block>, i: nat, j: nat)
    requires i < j < |s| && s[i] == s[j]
    ensures multiset(s)[s[i]] >= 2
  {
    assert s == s[..i] + [s[i]] + s[i + 1..j] + [s[j]] + s[j + 1..];
  }

  lemma {:induction false} TiledOnce(s: seq<Block>, b: Block, lo: nat, hi: nat)
    requires forall i, j :: 0 <= i < j < |s| ==> s[i].End() <= s[j].addr
    ensures multiset(s)[b] <= 1
  {
    if s != [] {
      TiledOnce(s[1..], b, lo, hi);
      assert s == [s[0]] + s[1..];
      if s[0] == b { assert b !in s[1..]; }
    }
  }

  ghost predicate DistinctAddrs(s: seq<Block>) {
    forall i, j :: 0 <= i < j < |s| ==> s[i].addr != s[j].addr
  }

  /** The list names every physical block exactly once, so no two of its entries share a header. */
  lemma DistinctOrder(order: seq<Block>, blocks: seq<Block>, lo: nat, hi: nat)
    requires Tiled(blocks, lo, hi) && multiset(order) == multiset(blocks)
    ensures DistinctAddrs(order)
  {
    forall i, j | 0 <= i < j < |order| ensures order[i].addr != order[j].addr {
      if order[i].addr == order[j].addr {
        SamePlaces(order, blocks, order[i]);
        SamePlaces(order, blocks, order[j]);
        var p, q := IndexOf(blocks, order[i]), IndexOf(blocks, order[j]);
        assert p == q;
        CountedTwice(order, i, j);
        TiledOnce(blocks, order[i], lo, hi);
      }
    }
  }

  ghost predicate Apart(a: Block, b: Block) { a.End() <= b.addr || b.End() <= a.addr }

  ghost predicate Before(s: seq<Block>, i: nat, j: nat)
    requires i < j < |s|
  {
    s[i].End() <= s[j].addr
  }

  /** The disjointness part of a tiling, one pair at a time. */
  ghost predicate Spread(s: seq<Block>) {
    forall i, j :: 0 <= i < j < |s| ==> Before(s, i, j)
  }

  lemma TiledIsSpread(s: seq<Block>, lo: nat, hi: nat)
    requires Tiled(s, lo, hi)
    ensures Spread(s)
  {
  }

  lemma TiledIsSpreadIn(h: Heap)
    requires Inv(h)
    ensures Spread(h.blocks)
  {
    TiledIsSpread(h.blocks, h.start, h.bump);
  }

  lemma SpreadApart(s: seq<Block>, i: nat, j: nat)
    requires Spread(s) && i < |s| && j < |s|
    ensures i == j || Apart(s[i], s[j])
  {
    if i < j { assert Before(s, i, j); } else if j < i { assert Before(s, j, i); }
  }

  lemma {:induction false} SpansConcat(s: seq<Block>, t: seq<Block>)
    ensures Spans(s + t) == Spans(s) + Spans(t)
  {
    if s == [] {
      assert s + t == t;
    } else {
      assert (s + t)[1..] == s[1..] + t;
      SpansConcat(s[1..], t);
    }
  }

  lemma SpansSplit(s: seq<Block>, i: nat)
    requires i < |s|
    ensures Spans(s) == Spans(s[..i]) + HDR + s[i].size + FTR + Spans(s[i + 1..])
  {
    assert s == s[..i] + s[i..] && s[i..][1..] == s[i + 1..];
    SpansConcat(s[..i], s[i..]);
  }

  lemma SpansUpdate(s: seq<Block>, i: nat, b: Block)
    requires i < |s| && b.size == s[i].size
    ensures Spans(s[i := b]) == Spans(s)
  {
    var t := s[i := b];
    SpansSplit(s, i);
    SpansSplit(t, i);
    assert s[..i] == t[..i] && s[i + 1..] == t[i + 1..];
  }

  // ----- growing ------------------------------------------------------------------------

  lemma AppendTiled(s: seq<Block>, lo: nat, b: Block)
    requires lo <= b.addr
    requires forall i :: 0 <= i < |s| ==> lo <= s[i].addr && s[i].End() <= b.addr
    requires forall i, j :: 0 <= i < j < |s| ==> s[i].End() <= s[j].addr
    ensures Tiled(s + [b], lo, b.End())
  {
  }

  /** What insert_heap_entry relies on: its bump pointer may lie above the last block. */
  ghost predicate Growable(h: Heap) {
    && 0 < h.start <= h.bump && multiset(h.order) == multiset(h.blocks)
    && 0 <= h.gaps && Spans(h.blocks) + h.gaps == h.bump - h.start
    && (forall i :: 0 <= i < |h.blocks| ==> h.start <= h.blocks[i].addr && h.blocks[i].End() <= h.bump)
    && (forall i, j :: 0 <= i < j < |h.blocks| ==> h.blocks[i].End() <= h.blocks[j].addr)
  }

  lemma AppendInvFrom(h: Heap, size: nat)
    requires Growable(h)
    ensures Inv(Append(h, size))
  {
    var b := Block(h.bump, size, true);
    AppendTiled(h.blocks, h.start, b);
    SpansConcat(h.blocks, [b]);
    StableSortSorts(h.order + [b]);
  }

  lemma TiledBelow(h: Heap)
    requires Inv(h)
    ensures h.start <= h.bump
  {
    if h.blocks != [] { assert h.start <= h.blocks[0].addr && h.blocks[0].End() <= h.bump; }
  }

  lemma InvAscending(h: Heap)
    requires Inv(h)
    ensures Ascending(h.order) && 0 < h.start <= h.bump
  {
    TiledBelow(h);
  }

  lemma InvGrowable(h: Heap)
    requires Inv(h)
    ensures Growable(h)
  {
    TiledBelow(h);
  }

  lemma SkipGrowable(h: Heap)
    requires Inv(h) && PageRoom(h.bump)
    ensures Growable(SkipToPage(h))
  {
    TiledBelow(h);
  }

  lemma AppendInv(h: Heap, size: nat)
    requires Inv(h)
    ensures Inv(Append(h, size))
  {
    InvGrowable(h);
    AppendInvFrom(h, size);
  }

  lemma UpdatedTiled(s: seq<Block>, i: nat, used: bool, lo: nat, hi: nat)
    requires i < |s| && Tiled(s, lo, hi)
    ensures Tiled(s[i := s[i].(used := used)], lo, hi)
  {
  }

  lemma UpdatedAscending(s: seq<Block>, i: nat, used: bool)
    requires i < |s| && Ascending(s)
    ensures Ascending(s[i := s[i].(used := used)])
  {
  }

  lemma SetUsedInv(h: Heap, b: Block, used: bool)
    requires Inv(h) && b in h.blocks
    ensures b in h.order && Inv(SetUsed(h, b, used))
    ensures SetUsed(h, b, used).blocks == h.blocks[IndexOf(h.blocks, b) := b.(used := used)]
    ensures SetUsed(h, b, used).order == h.order[IndexOf(h.order, b) := b.(used := used)]
  {
    SamePlaces(h.order, h.blocks, b);
    SpansUpdate(h.blocks, IndexOf(h.blocks, b), b.(used := used));
    UpdatedTiled(h.blocks, IndexOf(h.blocks, b), used, h.start, h.bump);
    UpdatedAscending(h.order, IndexOf(h.order, b), used);
  }

  lemma LastAppended(h: Heap, size: nat)
    ensures Block(h.bump, size, true) in Append(h, size).blocks
  {
    assert Append(h, size).blocks[|h.blocks|] == Block(h.bump, size, true);
  }

  lemma FillerThere(h: Heap, filler: nat, size: nat)
    ensures Block(h.bump, filler, true) in Append(Append(h, filler), size).blocks
  {
    assert Append(Append(h, filler), size).blocks[|h.blocks|] == Block(h.bump, filler, true);
  }

  lemma AppendAlignedInv(h: Heap, size: nat)
    requires Inv(h) && PageRoom(h.bump)
    ensures Inv(AppendAligned(h, size))
  {
    if NeedsFiller(h.bump) {
      var filler := Block(h.bump, FillerSize(h.bump), true);
      var h1 := Append(h, filler.size);
      AppendInv(h, filler.size);
      AppendInv(h1, size);
      FillerThere(h, filler.size, size);
      SetUsedInv(Append(h1, size), filler, false);
    } else {
      SkipGrowable(h);
      AppendInvFrom(SkipToPage(h), size);
    }
  }

  /** The block handed out by the page-aligned path starts its payload on a page boundary, always. */
  lemma AlignedPayload(h: Heap, size: nat)
    ensures MallocAligned(h, size).1 % PAGE == 0
    ensures Block(AlignedAddr(h.bump), size, true) in AppendAligned(h, size).blocks
    // The filler and its tags reach exactly from the old bump pointer to the new header.
    ensures NeedsFiller(h.bump) ==> Block(h.bump, FillerSize(h.bump), false).End() == AlignedAddr(h.bump)
  {
    assert NextPage(h.bump) == PAGE * (h.bump / PAGE + 1);
    if NeedsFiller(h.bump) {
      var filler := Block(h.bump, FillerSize(h.bump), true);
      var h2 := Append(Append(h, filler.size), size);
      assert h2.blocks[|h.blocks| + 1] == Block(AlignedAddr(h.bump), size, true);
      var i := IndexOf(h2.blocks, filler);
      assert AppendAligned(h, size).blocks[|h.blocks| + 1] == h2.blocks[|h.blocks| + 1];
    } else {
      LastAppended(SkipToPage(h), size);
    }
  }

  lemma SkippedBack(h: Heap, size: nat)
    requires Inv(h) && !PageRoom(h.bump)
    ensures !Inv(AppendAligned(h, size))
  {
    var s, n := AppendAligned(h, size).blocks, |h.blocks|;
    assert s == h.blocks + [Block(AlignedAddr(h.bump), size, true)];
    if n > 0 {
      assert s[n - 1].End() == h.bump > s[n].addr;
    } else {
      assert s[0].addr < h.start;
    }
  }

  lemma AppendLayout(h: Heap, size: nat)
    ensures Append(h, size).blocks == h.blocks + [Block(h.bump, size, true)]
    ensures Append(h, size).bump == h.bump + 32 + size && Append(h, size).gaps == h.gaps && Append(h, size).start == h.start
  {
  }

  lemma ReplaceBehind(s: seq<Block>, b: Block, c: Block, d: Block)
    requires b !in s
    ensures Replace(s + [b, c], b, d) == s + [d, c]
  {
    var t := s + [b, c];
    assert t[|s|] == b && forall j :: 0 <= j < |s| ==> t[j] == s[j];
    assert IndexOf(t, b) == |s|;
  }

  lemma NothingAtBump(h: Heap, b: Block)
    requires Inv(h) && b.addr >= h.bump
    ensures b !in h.blocks
  {
    forall c | c in h.blocks ensures c.addr < h.bump { assert h.blocks[IndexOf(h.blocks, c)].End() <= h.bump; }
  }

  /**
   The layout after a page-aligned request: on a page boundary, or with at least 57 bytes left in the
   page, a FREE block fills the page up to the new header; otherwise the bytes in between are lost.
   */
  lemma AlignedLayout(h: Heap, size: nat)
    requires Inv(h)
    ensures var (m, address) := MallocAligned(h, size);
      var left := 0x1000 - h.bump % 0x1000;
      var a := h.bump + left - 24;
      && address == h.bump + left && m.bump == a + 32 + size && m.start == h.start
      && if h.bump % 0x1000 == 0 || left >= 57
         then m.blocks == h.blocks + [Block(h.bump, left - 56, false), Block(a, size, true)] && m.gaps == h.gaps
         else m.blocks == h.blocks + [Block(a, size, true)] && m.gaps == h.gaps + a - h.bump
  {
    if NeedsFiller(h.bump) {
      var n := FillerSize(h.bump);
      var b := Block(h.bump, n, true);
      AppendLayout(h, n);
      AppendLayout(Append(h, n), size);
      NothingAtBump(h, b);
      ReplaceBehind(h.blocks, b, Block(b.End(), size, true), b.(used := false));
      assert h.blocks + [b] + [Block(b.End(), size, true)] == h.blocks + [b, Block(b.End(), size, true)];
    } else {
      AppendLayout(SkipToPage(h), size);
    }
  }

  /** A page-aligned request keeps the heap in order exactly when the new header fits in front of the page boundary. */
  lemma AppendAlignedExact(h: Heap, size: nat)
    requires Inv(h)
    ensures Inv(AppendAligned(h, size)) <==> PageRoom(h.bump)
  {
    if PageRoom(h.bump) {
      AppendAlignedInv(h, size);
    } else {
      SkippedBack(h, size);
    }
  }

  /** With fewer than 24 bytes left in the page the new header starts inside the last block, else inside none. */
  lemma PageRoomExact(h: Heap)
    requires Inv(h) && h.blocks != []
    ensures !PageRoom(h.bump) <==>
      exists i :: 0 <= i < |h.blocks| && h.blocks[i].addr <= AlignedAddr(h.bump) < h.blocks[i].End()
  {
    var last := |h.blocks| - 1;
    assert h.blocks[last].End() == h.bump;
    if !PageRoom(h.bump) {
      assert h.blocks[last].addr <= AlignedAddr(h.bump) < h.blocks[last].End();
    }
  }

  // ----- reusing ------------------------------------------------------------------------

  lemma CutMultiset(s: seq<Block>, i: nat, size: nat)
    requires i < |s| && Splits(s[i], size)
    ensures multiset(Cut(s, i, size)) == multiset(s) - multiset{s[i]} + multiset{Taken(s[i], size), Rest(s[i], size)}
  {
    assert s == s[..i] + [s[i]] + s[i + 1..];
  }

  /** Where a block of the cut sequence comes from. */
  lemma CutAt(s: seq<Block>, i: nat, size: nat, j: nat)
    requires i < |s| && Splits(s[i], size) && j < |s| + 1
    ensures |Cut(s, i, size)| == |s| + 1
    ensures var t, k := Cut(s, i, size), if j <= i then j else j - 1;
      && s[k].addr <= t[j].addr && t[j].End() <= s[k].End()
      && (j != i ==> t[j].End() == s[k].End()) && (j != i + 1 ==> t[j].addr == s[k].addr)
    ensures Cut(s, i, size)[i].End() == Cut(s, i, size)[i + 1].addr
  {
  }

  lemma CutTiled(s: seq<Block>, i: nat, size: nat, lo: nat, hi: nat)
    requires i < |s| && Splits(s[i], size) && Tiled(s, lo, hi)
    ensures Tiled(Cut(s, i, size), lo, hi)
  {
    hide Cut, Splits;
    var t := Cut(s, i, size);
    CutAt(s, i, size, |s|);
    forall j | 0 <= j < |t| ensures lo <= t[j].addr && t[j].End() <= hi { CutAt(s, i, size, j); }
    forall j, k | 0 <= j < k < |t| ensures t[j].End() <= t[k].addr {
      CutAt(s, i, size, j);
      CutAt(s, i, size, k);
    }
  }

  lemma CutSpans(s: seq<Block>, i: nat, size: nat)
    requires i < |s| && Splits(s[i], size)
    ensures Spans(Cut(s, i, size)) == Spans(s)
  {
    var t := Cut(s, i, size);
    SpansSplit(s, i);
    SpansSplit(t, i);
    assert t[..i] == s[..i] && t[i + 1..][1..] == s[i + 1..];
  }

  lemma SplitInv(h: Heap, b: Block, size: nat)
    requires Inv(h) && b in h.blocks && b in h.order && Splits(b, size)
    ensures Inv(Split(h, b, size))
  {
    var i, j := IndexOf(h.blocks, b), IndexOf(h.order, b);
    CutTiled(h.blocks, i, size, h.start, h.bump);
    CutSpans(h.blocks, i, size);
    CutMultiset(h.blocks, i, size);
    CutMultiset(h.order, j, size);
    StableSortSorts(Cut(h.order, j, size));
  }

  lemma TakeInv(h: Heap, i: nat, size: nat)
    requires Inv(h) && i < |h.order|
    ensures h.order[i] in h.blocks && Inv(Take(h, i, size))
  {
    var b := h.order[i];
    SamePlaces(h.order, h.blocks, b);
    if Splits(b, size) { SplitInv(h, b, size); } else { SetUsedInv(h, b, true); }
  }

  lemma MallocInv(h: Heap, size: nat)
    requires Inv(h)
    ensures Inv(Malloc(h, size).0)
  {
    var i := FirstFit(h.order, size);
    if i < |h.order| { TakeInv(h, i, size); } else { AppendInv(h, size); }
  }

  // ----- coalescing ---------------------------------------------------------------------

  lemma RemoveMultiset(s: seq<Block>, b: Block)
    requires b in s
    ensures multiset(Remove(s, b)) == multiset(s) - multiset{b}
  {
    WithoutMultiset(s, IndexOf(s, b));
  }

  /** Where a block of the joined sequence starts and where it ends. */
  lemma JoinedAt(s: seq<Block>, q: nat, j: nat)
    requires q + 1 < |s| && Joinable(s[q], s[q + 1]) && j < |s| - 1
    ensures |JoinAt(s, q)| == |s| - 1
    ensures JoinAt(s, q)[j].addr == s[if j <= q then j else j + 1].addr
    ensures JoinAt(s, q)[j].End() == s[if j < q then j else j + 1].End()
  {
  }

  lemma JoinTiled(s: seq<Block>, q: nat, lo: nat, hi: nat)
    requires q + 1 < |s| && Joinable(s[q], s[q + 1]) && Tiled(s, lo, hi)
    ensures Tiled(JoinAt(s, q), lo, hi)
  {
    hide JoinAt, Joinable;
    var t := JoinAt(s, q);
    JoinedAt(s, q, |s| - 2);
    forall j | 0 <= j < |t| ensures lo <= t[j].addr && t[j].End() <= hi { JoinedAt(s, q, j); }
    forall j, k | 0 <= j < k < |t| ensures t[j].End() <= t[k].addr {
      JoinedAt(s, q, j);
      JoinedAt(s, q, k);
    }
  }

  lemma JoinMultiset(s: seq<Block>, q: nat)
    requires q + 1 < |s|
    ensures multiset(JoinAt(s, q)) == multiset(s) - multiset{s[q]} - multiset{s[q + 1]} + multiset{Join(s[q], s[q + 1])}
  {
    assert s == s[..q] + [s[q], s[q + 1]] + s[q + 2..];
  }

  /** A merge turns two tags into payload and loses no byte. */
  lemma JoinSpans(s: seq<Block>, q: nat)
    requires q + 1 < |s|
    ensures Spans(JoinAt(s, q)) == Spans(s)
  {
    var t := JoinAt(s, q);
    SpansSplit(s, q);
    SpansSplit(t, q);
    assert t[..q] == s[..q] && t[q + 1..] == s[q + 2..];
    assert s[q + 1..][1..] == s[q + 2..];
  }

  lemma MergeAtMembers(h: Heap, q: nat)
    requires Tiled(h.blocks, h.start, h.bump) && multiset(h.order) == multiset(h.blocks) && q + 1 < |h.blocks|
    ensures h.blocks[q] in h.order && h.blocks[q + 1] in h.order
    ensures h.blocks[q] in Remove(h.order, h.blocks[q + 1])
  {
    var a, b := h.blocks[q], h.blocks[q + 1];
    SamePlaces(h.order, h.blocks, a);
    SamePlaces(h.order, h.blocks, b);
    RemoveMultiset(h.order, b);
    assert a != b;
    assert a in multiset(Remove(h.order, b));
  }

  lemma MergeAtOrder(h: Heap, q: nat)
    requires Tiled(h.blocks, h.start, h.bump) && multiset(h.order) == multiset(h.blocks) && q + 1 < |h.blocks|
    ensures multiset(MergeAt(h, q).order) == multiset(JoinAt(h.blocks, q))
    ensures Ascending(MergeAt(h, q).order)
  {
    var a, b := h.blocks[q], h.blocks[q + 1];
    MergeAtMembers(h, q);
    RemoveMultiset(h.order, b);
    RemoveMultiset(Remove(h.order, b), a);
    JoinMultiset(h.blocks, q);
    StableSortSorts(Remove(Remove(h.order, b), a) + [Join(a, b)]);
  }

  lemma MergeAtInv(h: Heap, q: nat)
    requires Inv(h) && q + 1 < |h.blocks| && Joinable(h.blocks[q], h.blocks[q + 1])
    ensures Inv(MergeAt(h, q))
  {
    JoinTiled(h.blocks, q, h.start, h.bump);
    JoinSpans(h.blocks, q);
    MergeAtOrder(h, q);
  }

  lemma EndsBefore(s: seq<Block>, j: nat, p: nat)
    requires j < |s| && p < |s| && Spread(s)
    ensures s[j].End() == s[p].addr ==> j < p
  {
    if p < j { assert Before(s, p, j); }
  }

  /** The footer in front of a header belongs to the physical neighbour. */
  lemma LeftIsPrevious(h: Heap, b: Block)
    requires Inv(h) && b in h.blocks
    ensures var q := LeftOf(h.blocks, b);
      if q >= 0 then h.blocks[q + 1] == b else forall c :: c in h.blocks ==> c.End() != b.addr
  {
    hide LeftOf, IndexOf, Ascending, Spans;
    var q, p := LeftOf(h.blocks, b), IndexOf(h.blocks, b);
    if q >= 0 {
      assert h.blocks[p] == b && h.blocks[q + 1].addr < h.blocks[q + 1].End();
    } else {
      TiledIsSpreadIn(h);
      forall c | c in h.blocks ensures c.End() != b.addr { EndsBefore(h.blocks, IndexOf(h.blocks, c), p); }
    }
  }

  lemma MergesJoinable(h: Heap, i: nat)
    requires Inv(h) && i < |h.order| && Merges(h, i)
    ensures var q := LeftOf(h.blocks, h.order[i]);
      h.order[i] == h.blocks[q + 1] && Joinable(h.blocks[q], h.blocks[q + 1])
  {
    SamePlaces(h.order, h.blocks, h.order[i]);
    LeftIsPrevious(h, h.order[i]);
  }

  lemma {:induction false} MergeFromInv(h: Heap, i: nat)
    requires Inv(h)
    ensures Inv(MergeFrom(h, i))
    decreases |h.blocks|, |h.order| - i
  {
    if i >= |h.order| {
    } else if Merges(h, i) {
      var q := LeftOf(h.blocks, h.order[i]);
      MergesJoinable(h, i);
      MergeAtInv(h, q);
      MergeFromInv(MergeAt(h, q), 0);
    } else {
      MergeFromInv(h, i + 1);
    }
  }

  lemma FreeInv(h: Heap, address: nat)
    requires Inv(h)
    ensures Inv(Free(h, address).0)
  {
    var m := MergeAll(h);
    MergeFromInv(h, 0);
    var i := FindLocation(m.order, address);
    if i < |m.order| {
      SamePlaces(m.order, m.blocks, m.order[i]);
      SetUsedInv(m, m.order[i], false);
      MergeFromInv(SetUsed(m, m.order[i], false), 0);
    }
  }
}
