/** Cutting a FREE block in two: what the code links, what it forgets, and when the sort makes up for it. */
module Splitting {
  import opened Blocks
  import opened HeapModel
  import opened HeapInvariant
  import opened Links
  import opened Tags

  /** The header writes of a split of b. The entry after b keeps pointing back to b. */
  function SplitWrites(hd: Headers, b: Block, size: nat): Headers
    requires b.addr in hd && Splits(b, size)
  {
    var r := Rest(b, size);
    hd[r.addr := Header(r.Location(), r.size, false, hd[b.addr].next, b.addr)]
      [b.addr := hd[b.addr].(next := r.addr, size := size, used := true)]
  }

  /** The same writes as the code makes them: the new header, the links and size of the old one, its flag. */
  lemma SplitWritten(hd: Headers, ft: Footers, b: Block, size: nat)
    requires b.addr in hd && Splits(b, size)
    ensures var r := Rest(b, size);
      var hd1 := hd[r.addr := Header(r.Location(), r.size, false, hd[b.addr].next, b.addr)];
      var hd2 := hd1[b.addr := hd1[b.addr].(next := r.addr, size := size)];
      && hd2[b.addr := hd2[b.addr].(used := true)] == SplitWrites(hd, b, size)
      && ft[b.Location() + size := b.addr][r.Footer() := r.addr] == CutFooters(ft, b, size)
      && SplitWrites(hd, b, size).Keys == hd.Keys + {r.addr}
  {
  }

  lemma RestIsFresh(h: Heap, b: Block, size: nat)
    requires Inv(h) && b in h.blocks && Splits(b, size)
    ensures forall j :: 0 <= j < |h.order| ==> h.order[j].addr != Rest(b, size).addr
  {
    forall j | 0 <= j < |h.order| ensures h.order[j].addr != Rest(b, size).addr {
      var c := h.order[j];
      SamePlaces(h.order, h.blocks, c);
      TiledIsSpread(h.blocks, h.start, h.bump);
      SpreadApart(h.blocks, IndexOf(h.blocks, c), IndexOf(h.blocks, b));
    }
  }

  lemma CutDistinct(o: seq<Block>, j: nat, size: nat)
    requires DistinctAddrs(o) && j < |o| && Splits(o[j], size)
    requires forall i :: 0 <= i < |o| ==> o[i].addr != Rest(o[j], size).addr
    ensures DistinctAddrs(Cut(o, j, size))
  {
    var t := Cut(o, j, size);
    forall x, y | 0 <= x < y < |t| ensures t[x].addr != t[y].addr {
      if x != j + 1 && y != j + 1 {
        assert t[x].addr == o[if x <= j then x else x - 1].addr;
        assert t[y].addr == o[if y <= j then y else y - 1].addr;
      } else if x == j + 1 {
        assert t[y] == o[y - 1];
      } else {
        assert t[x].addr == o[x].addr;
      }
    }
  }

  lemma CutPlaces(o: seq<Block>, j: nat, size: nat)
    requires j < |o| && Splits(o[j], size)
    ensures |Cut(o, j, size)| == |o| + 1
    ensures Cut(o, j, size)[j] == Taken(o[j], size) && Cut(o, j, size)[j + 1] == Rest(o[j], size)
  {
  }

  /** After the split the list runs through both parts, but the back link behind them is stale. */
  lemma SplitChain(hd: Headers, head: nat, last: nat, o: seq<Block>, j: nat, size: nat)
    requires Linked(hd, head, last, o) && j < |o| && Splits(o[j], size)
    requires forall i :: 0 <= i < |o| ==> o[i].addr != Rest(o[j], size).addr
    ensures o[j].addr in hd
    ensures Chain(SplitWrites(hd, o[j], size), head, last, Cut(o, j, size), j + 2)
    ensures BackLink(SplitWrites(hd, o[j], size), last, Cut(o, j, size), j + 2) == o[j].addr
  {
    CutDistinct(o, j, size);
    assert Forward(hd, o, j);
    var hd', t := SplitWrites(hd, o[j], size), Cut(o, j, size);
    forall i | 0 <= i < |t| ensures Forward(hd', t, i) {
      if i < j { assert Forward(hd, o, i); } else if i > j + 1 { assert Forward(hd, o, i - 1); }
    }
    forall i | 0 <= i <= |t| && i != j + 2 ensures Backward(hd', last, t, i) {
      if i <= j {
        assert Backward(hd, last, o, i) && Forward(hd, o, i);
      } else if i > j + 2 {
        assert Backward(hd, last, o, i - 1);
        if i < |t| { assert Forward(hd, o, i - 1); }
      }
    }
    assert Backward(hd, last, o, j + 1);
    if j + 2 < |t| { assert Forward(hd, o, j + 1); }
  }

  /** The one write that puts the stale back link right. */
  lemma RepairChain(hd: Headers, head: nat, last: nat, o: seq<Block>, k: nat)
    requires Chain(hd, head, last, o, k) && 0 < k <= |o|
    ensures k < |o| ==> o[k].addr in hd && Linked(SetPrevious(hd, o[k].addr, o[k - 1].addr), head, last, o)
    ensures k == |o| ==> Linked(hd, head, o[k - 1].addr, o)
  {
    if k < |o| {
      assert Forward(hd, o, k);
      var hd' := SetPrevious(hd, o[k].addr, o[k - 1].addr);
      forall i | 0 <= i < |o| ensures Forward(hd', o, i) { assert Forward(hd, o, i); }
      forall i | 0 <= i <= |o| ensures Backward(hd', last, o, i) {
        if i < |o| { assert Forward(hd, o, i); }
        if i != k { assert Backward(hd, last, o, i); }
      }
    } else {
      var last' := o[k - 1].addr;
      forall i | 0 <= i <= |o| ensures Backward(hd, last', o, i) {
        if i != k { assert Backward(hd, last, o, i); }
      }
    }
  }

  /** The remainder sorts in front of the request or of the entry listed before the split block. */
  predicate RestSinks(o: seq<Block>, j: nat, size: nat)
    requires j < |o| && Splits(o[j], size)
  {
    Rest(o[j], size).size < size || (j > 0 && Rest(o[j], size).size < o[j - 1].size)
  }

  lemma CutSettled(o: seq<Block>, j: nat, size: nat)
    requires Ascending(o) && j < |o| && Splits(o[j], size)
    ensures SettledFrom(Cut(o, j, size), j + 2)
    ensures Outranked(Cut(o, j, size), j + 2) <==> RestSinks(o, j, size)
  {
    var t := Cut(o, j, size);
    forall x, y | 0 <= x < y < |t| && j + 2 <= y ensures t[x].size <= t[y].size {
      assert t[y] == o[y - 1];
      if x < j { assert t[x] == o[x]; } else if x > j + 1 { assert t[x] == o[x - 1]; }
      else { assert t[x].size <= o[j].size; }
    }
    assert t[j].size == size && t[j + 1] == Rest(o[j], size);
    if j > 0 { assert t[j - 1] == o[j - 1]; }
    if x :| 0 <= x < j + 1 && t[x].size > t[j + 1].size {
      if x < j { assert t[x] == o[x] && o[x].size <= o[j - 1].size; }
    }
    if RestSinks(o, j, size) {
      assert t[if Rest(o[j], size).size < size then j else j - 1].size > t[j + 1].size;
    }
  }

  lemma IndexOfDistinct(o: seq<Block>, j: nat)
    requires DistinctAddrs(o) && j < |o|
    ensures IndexOf(o, o[j]) == j
  {
    var i := IndexOf(o, o[j]);
    assert o[i] == o[j];
  }

  /** Which back link a request leaves stale: none, unless it splits a block whose remainder stays put. */
  function StaleLink(h: Heap, size: nat, relinks: bool): (k: int)
    ensures k == -1 || 2 <= k <= |h.order| + 1
  {
    var i := FirstFit(h.order, size);
    if i == |h.order| || !Splits(h.order[i], size) || relinks || RestSinks(h.order, i, size) then -1 else i + 2
  }

  /** What find_empty_heap_entry returns and makes of the heap. */
  ghost predicate Found(h: Heap, size: nat, entry: nat, m: Heap) {
    var i := FirstFit(h.order, size);
    if i < |h.order| then entry == h.order[i].addr && h.order[i] in h.blocks && m == Take(h, i, size)
    else entry == NULL && m == h
  }

  /** The scan stopped at list position i, on a block that is split or taken whole. */
  lemma FoundAt(h: Heap, size: nat, i: nat, relinks: bool)
    requires Inv(h) && i < |h.order| && Fits(h.order[i], size)
    requires forall j :: 0 <= j < i ==> !Fits(h.order[j], size)
    ensures h.order[i] in h.blocks
    ensures Splits(h.order[i], size) ==>
      Found(h, size, h.order[i].addr, Split(h, h.order[i], size)) &&
      StaleLink(h, size, relinks) == if relinks || RestSinks(h.order, i, size) then -1 else i + 2
    ensures !Splits(h.order[i], size) ==>
      Found(h, size, h.order[i].addr, SetUsed(h, h.order[i], true)) && StaleLink(h, size, relinks) == -1
  {
    assert i == FirstFit(h.order, size);
    TakeInv(h, i, size);
  }

  lemma NotFound(h: Heap, size: nat, relinks: bool)
    requires forall j :: 0 <= j < |h.order| ==> !Fits(h.order[j], size)
    ensures Found(h, size, NULL, h) && StaleLink(h, size, relinks) == -1
  {
  }

  /** The guard of the split for a FREE block of s bytes, with an unsigned sum of the given width. */
  predicate Guard(s: nat, size: nat, limit: nat)
    requires 0 < limit
  {
    s > (HDR + size + FTR + SLACK) % limit
  }

  /** The guard means what it says for every block size iff the sum does not wrap. */
  lemma SplitGuardExact(size: nat, limit: nat)
    requires size < limit && HDR + FTR + SLACK + 1 < limit
    ensures (forall s: nat :: s < limit ==> (Guard(s, size, limit) <==> s > HDR + size + FTR + SLACK))
            <==> HDR + size + FTR + SLACK < limit
  {
    var need := HDR + size + FTR + SLACK;
    if need >= limit {
      var s := need % limit + 1;
      assert need % limit == need - limit;
      assert s < limit && Guard(s, size, limit) && !(s > need);
    }
  }

  lemma WrapsOnce(x: nat, limit: nat)
    requires limit <= x < 2 * limit
    ensures x % limit == x - limit
  {
  }

  /**
   A request whose sum wraps is larger than any block, and yet the guard lets it split every block of
   more than 35 bytes: the new footer then lands in front of the payload, on the header or before it.
   */
  lemma WrappedSplitMisses(b: Block, size: nat, limit: nat)
    requires HDR + FTR + SLACK < limit && size < limit && HDR + size + FTR + SLACK >= limit
    requires HDR + FTR + SLACK <= b.Location() && b.End() < limit
    ensures !Fits(b, size)
    ensures HDR + FTR + SLACK <= b.size ==> Guard(b.size, size, limit)
    ensures b.Location() - (HDR + FTR + SLACK) <= (b.Location() + size) % limit < b.Location()
  {
    WrapsOnce(HDR + size + FTR + SLACK, limit);
    WrapsOnce(b.Location() + size, limit);
  }

  lemma EntryDescribed(hd: Headers, head: nat, last: nat, h: Heap, k: int, t: Block)
    requires Inv(h) && Chain(hd, head, last, h.order, k) && t in h.blocks
    ensures Describes(hd, t) && h.start <= t.addr && t.End() <= h.bump
  {
    SamePlaces(h.order, h.blocks, t);
    assert Forward(hd, h.order, IndexOf(h.order, t));
    assert h.blocks[IndexOf(h.blocks, t)] == t;
  }
}
