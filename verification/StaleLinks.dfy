/** What the back link that a split forgets does to later operations on the list. */
module StaleLinks {
  import opened Blocks
  import opened HeapModel
  import opened HeapInvariant
  import opened Coalescing
  import opened HeapTheorems
  import opened Links
  import opened Tags
  import opened Splitting

  /** The back link at list position k names the entry at position j, which is further in front. */
  ghost predicate PointsPast(hd: Headers, last: nat, o: seq<Block>, k: nat, j: nat) {
    j + 1 < k <= |o| && BackLink(hd, last, o, k) == o[j].addr
  }

  lemma NotLastBut(hd: Headers, last: nat, o: seq<Block>, k: nat)
    requires 0 < k <= |o| && !Backward(hd, last, o, k)
    ensures BackLink(hd, last, o, k) != o[k - 1].addr
  {
  }

  /** The split block comes to stand in front of its remainder, wherever the sort has put both. */
  lemma SplitInFront(o0: seq<Block>, cut: seq<Block>, o: seq<Block>, i: nat, size: nat, k: nat, hd: Headers, last: nat)
    requires i < |o0| && Splits(o0[i], size) && cut == Cut(o0, i, size) && k == i + 2
    requires DistinctAddrs(cut) && o == StableSort(cut) && UnmovedFrom(cut, o, k)
    requires !Backward(hd, last, o, k) && BackLink(hd, last, o, k) == o0[i].addr
    ensures exists j :: 0 <= j < |o| && PointsPast(hd, last, o, k, j) && o[j].addr == o0[i].addr
  {
    hide StableSort, Cut, Backward;
    var t := Taken(o0[i], size);
    CutPlaces(o0, i, size);
    StableSortSorts(cut);
    SamePlaces(o, cut, t);
    NotLastBut(hd, last, o, k);
    var j := IndexOf(o, t);
    forall x | k <= x < |o| ensures o[x] != t { assert o[x] == cut[x]; }
    assert PointsPast(hd, last, o, k, j);
  }

  /** A chain with such a link is one write away from a well-formed chain without the entries in between. */
  lemma SkippedEntries(hd: Headers, head: nat, last: nat, o: seq<Block>, k: nat, j: nat)
    requires Chain(hd, head, last, o, k) && PointsPast(hd, last, o, k, j)
    ensures o[j].addr in hd
    ensures Linked(SetNext(hd, o[j].addr, AddrAt(o, k)), head, last, o[..j + 1] + o[k..])
  {
    assert Forward(hd, o, j);
    var hd', t := SetNext(hd, o[j].addr, AddrAt(o, k)), o[..j + 1] + o[k..];
    forall x | 0 <= x < |t| ensures Forward(hd', t, x) {
      assert Forward(hd, o, if x <= j then x else x + k - j - 1);
    }
    forall x | 0 <= x <= |t| ensures Backward(hd', last, t, x) {
      var y := if x <= j then x else x + k - j - 1;
      if y < |o| { assert Forward(hd, o, y); }
      if y != k { assert Backward(hd, last, o, y); }
    }
  }

  /**
   What a stale LAST costs: the next insert_heap_entry links its block behind the entry that LAST
   names, and every entry behind that one, used or free, is on the list no more.
   */
  lemma StaleLastLosesEntries(hd: Headers, head: nat, last: nat, o: seq<Block>, j: nat, b: Block)
    requires Chain(hd, head, last, o, |o|) && PointsPast(hd, last, o, |o|, j)
    requires 0 < b.addr && forall i :: 0 <= i < |o| ==> o[i].addr != b.addr
    ensures last in hd && Linked(InsertWrites(hd, last, b), head, b.addr, o[..j + 1] + [b])
  {
    SkippedEntries(hd, head, last, o, |o|, j);
    var hd1, kept := SetNext(hd, last, NULL), o[..j + 1];
    assert kept + o[|o|..] == kept;
    InsertChain(hd1, head, last, kept, b);
    assert InsertWrites(hd1, last, b) == InsertWrites(hd, last, b);
  }

  /** What a stale previous field costs: taking its entry off the list takes those in front of it off, too. */
  lemma StaleRemoveLosesEntries(hd: Headers, head: nat, last: nat, o: seq<Block>, k: nat, j: nat)
    requires Chain(hd, head, last, o, k) && PointsPast(hd, last, o, k, j) && k < |o| && 0 < o[j].addr
    ensures var prev, next := hd[o[k].addr].previous, AddrAt(o, k + 1);
      && prev == o[j].addr && prev in hd && (next != NULL ==> next in hd)
      && Linked(RemoveWrites(hd, prev, next), head, if next != NULL then last else prev, o[..j + 1] + o[k + 1..])
  {
    SkippedEntries(hd, head, last, o, k, j);
    var t, prev, next := o[..j + 1] + o[k..], o[j].addr, AddrAt(o, k + 1);
    assert t[j] == o[j] && AddrAt(t, j + 2) == next && Without(t, j + 1) == o[..j + 1] + o[k + 1..];
    if k + 1 < |o| { assert Forward(hd, o, k + 1); }
    assert Forward(hd, o, k);
    RemoveChain(SetNext(hd, prev, AddrAt(o, k)), head, last, t, j + 1);
    assert RemoveWrites(SetNext(hd, prev, AddrAt(o, k)), prev, next) == RemoveWrites(hd, prev, next);
  }

  lemma OuterOverwrites(hd: Headers, p: nat, n: nat, pp: nat, nn: nat)
    requires pp in hd && pp != NULL && (nn != NULL ==> nn in hd)
    ensures OuterWrites(SetNext(hd, pp, p), p, n, pp, nn) == OuterWrites(hd, p, n, pp, nn)
  {
  }

  /** And swapping it with the entry behind it does so as well. */
  lemma StaleSwapLosesEntries(hd: Headers, head: nat, last: nat, o: seq<Block>, k: nat, j: nat)
    requires Chain(hd, head, last, o, k) && PointsPast(hd, last, o, k, j) && k + 1 < |o| && 0 < o[j].addr
    requires NULL !in hd
    ensures var p, n, pp, nn := o[k].addr, o[k + 1].addr, o[j].addr, AddrAt(o, k + 2);
      && p in hd && n in hd && pp in hd && (nn != NULL ==> nn in hd) && hd[p].previous == pp && hd[n].next == nn
      && Linked(SwapWrites(hd, p, n, pp, nn), head, if k + 2 == |o| then p else last,
                o[..j + 1] + [o[k + 1], o[k]] + o[k + 2..])
  {
    hide OuterWrites, InnerWrites, SwapLinks;
    SkippedEntries(hd, head, last, o, k, j);
    var p, n, pp, nn := o[k].addr, o[k + 1].addr, o[j].addr, AddrAt(o, k + 2);
    var t, hd1 := o[..j + 1] + o[k..], SetNext(hd, pp, p);
    assert Forward(hd, o, k) && Forward(hd, o, k + 1);
    if k + 2 < |o| { assert Forward(hd, o, k + 2); }
    assert t[j] == o[j] && t[j + 1] == o[k] && t[j + 2] == o[k + 1] && AddrAt(t, j + 3) == nn;
    assert Swapped(t, j + 1) == o[..j + 1] + [o[k + 1], o[k]] + o[k + 2..];
    SwapReads(hd1, head, last, t, -1, j + 1);
    SwapWritesLinks(hd1, p, n, pp, nn);
    SwapChain(hd1, SwapWrites(hd1, p, n, pp, nn), head, last, t, -1, j + 1);
    OuterOverwrites(hd, p, n, pp, nn);
  }

  /** A one-block heap in which the request for 8 bytes leaves LAST pointing at the wrong block. */
  lemma StaleLinkExample()
    ensures var b := Block(0x1000, 100, false);
      var h := Heap(0x1000, [b], [b], b.End(), 0);
      Inv(h) && StaleLink(h, 8, false) == 2 && StaleLink(h, 8, true) == -1 && StaleLink(h, 60, false) == -1
  {
    var b := Block(0x1000, 100, false);
    assert Spans([b]) == 132;
    assert FirstFit([b], 8) == 0 && FirstFit([b], 60) == 0;
  }

  lemma TwoInOrder(o: seq<Block>, x: Block, y: Block)
    requires multiset(o) == multiset([x, y]) && Ascending(o) && x.size < y.size
    ensures o == [x, y]
  {
    assert |multiset(o)| == |o| && |multiset([x, y])| == 2;
    assert o[0] in multiset(o) && o[1] in multiset(o);
    assert x in multiset(o) && y in multiset(o);
    assert o == [o[0], o[1]];
  }

  lemma TwoInHeap(h: Heap, x: Block, y: Block)
    requires Inv(h) && h.blocks == [x, y] && x.size < y.size
    ensures h.order == [x, y]
  {
    hide Tiled, Spans;
    TwoInOrder(h.order, x, y);
  }

  lemma GrowsInOrder(h: Heap, size: nat)
    requires Inv(h) && forall b :: b in h.order ==> !Fits(b, size) && b.size <= size
    ensures var m, b := Step(h, OpMalloc(size)), Block(h.bump, size, true);
      Inv(m) && m.blocks == h.blocks + [b] && m.order == h.order + [b] && m.bump == b.End() && m.start == h.start
  {
    AppendInv(h, size);
    SortOfAscending(h.order + [Block(h.bump, size, true)]);
  }

  lemma FreesSecond(h: Heap, a: Block, b: Block)
    requires Inv(h) && h.blocks == [a, b] && a.used && b.used && a.size < b.size
    ensures var m := Step(h, OpFree(b.Location()));
      Inv(m) && m.blocks == [a, b.(used := false)] && m.order == [a, b.(used := false)]
  {
    hide Inv, Coalesce, Free;
    var f := b.(used := false);
    FreeLive(h, 1);
    assert h.blocks[1 := f] == [a] + ([f] + []) && [f] + [] == [f];
    CoalesceFront(a, f, []);
    CoalesceShort([f]);
    TwoInHeap(Free(h, b.Location()).0, a, f);
  }

  // malloc(50) and malloc(200) from the empty heap at 0x1000, then free of the second.
  const EXAMPLE: seq<Op> := [OpMalloc(50), OpMalloc(200), OpFree(0x106A)]

  lemma EmptyRun(h: Heap)
    ensures IsRun([h], [])
  {
  }

  lemma ExampleRun() returns (hs: seq<Heap>)
    ensures IsRun(hs, EXAMPLE) && hs[0] == EmptyHeap(0x1000)
    ensures Inv(hs[3])
    ensures hs[3].order == [Block(0x1000, 50, true), Block(0x1052, 200, false)]
    ensures hs[3].blocks == hs[3].order
  {
    hide Step, Inv, StableSort, IsRun;
    var h0 := EmptyHeap(0x1000);
    EmptyInv(0x1000);
    EmptyRun(h0);
    RunGoesOn([h0], [], EXAMPLE[0]);
    GrowsInOrder(h0, 50);
    var h1 := Step(h0, EXAMPLE[0]);
    assert [h0] + [h1] == [h0, h1] && [] + [EXAMPLE[0]] == EXAMPLE[..1];
    RunGoesOn([h0, h1], EXAMPLE[..1], EXAMPLE[1]);
    GrowsInOrder(h1, 200);
    var h2 := Step(h1, EXAMPLE[1]);
    assert [h0, h1] + [h2] == [h0, h1, h2] && EXAMPLE[..1] + [EXAMPLE[1]] == EXAMPLE[..2];
    RunGoesOn([h0, h1, h2], EXAMPLE[..2], EXAMPLE[2]);
    FreesSecond(h2, Block(0x1000, 50, true), Block(0x1052, 200, true));
    hs := [h0, h1, h2, Step(h2, EXAMPLE[2])];
    assert [h0, h1, h2] + [hs[3]] == hs && EXAMPLE[..2] + [EXAMPLE[2]] == EXAMPLE;
  }

  lemma SplitsSecond(h: Heap)
    requires Inv(h) && h.order == h.blocks == [Block(0x1000, 50, true), Block(0x1052, 200, false)]
    ensures StaleLink(h, 8, false) == 3
    ensures Step(h, OpMalloc(8)).order == [Block(0x1052, 8, true), Block(0x1000, 50, true), Block(0x107A, 160, false)]
  {
    var a, b := Block(0x1000, 50, true), Block(0x1052, 200, false);
    var t, r := Taken(b, 8), Rest(b, 8);
    assert [a, b][1..] == [b] && FirstFit([b], 8) == 0;
    assert FirstFit([a, b], 8) == 1 && IndexOf([a, b], b) == 1;
    assert Cut([a, b], 1, 8) == [a, t, r];
    SortOfAscending([t, a, r]);
    assert Swapped([a, t, r], 0) == [t, a, r];
    SwapKeepsSort([a, t, r], 0);
    hide StableSort;
  }

  /** From there malloc(8) leaves LAST naming the first of three entries: the used one behind it is lost, too. */
  lemma StaleRunExample() returns (hs: seq<Heap>)
    ensures IsRun(hs, EXAMPLE + [OpMalloc(8)]) && hs[0] == EmptyHeap(0x1000)
    ensures Inv(hs[3]) && StaleLink(hs[3], 8, false) == 3
    ensures hs[4].order == [Block(0x1052, 8, true), Block(0x1000, 50, true), Block(0x107A, 160, false)]
  {
    hide Step, Inv, StaleLink;
    hs := ExampleRun();
    SplitsSecond(hs[3]);
    RunGoesOn(hs, EXAMPLE, OpMalloc(8));
    hs := hs + [Step(hs[3], OpMalloc(8))];
  }
}
