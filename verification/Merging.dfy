/** The links and tags of two FREE neighbours while they are merged. */
module Merging {
  import opened Blocks
  import opened HeapModel
  import opened HeapInvariant
  import opened Coalescing
  import opened Links
  import opened Tags
  import opened Splitting

  /** The headers the two blocks have before the merge, and where they stand in the list. */
  lemma NeighboursDescribed(hd: Headers, ft: Footers, head: nat, last: nat, h: Heap, q: nat)
    requires Inv(h) && Linked(hd, head, last, h.order) && Tagged(hd, ft, h.blocks)
    requires q + 1 < |h.blocks| && Joinable(h.blocks[q], h.blocks[q + 1])
    ensures var a, b := h.blocks[q], h.blocks[q + 1];
      && a in h.order && b in h.order && a in Remove(h.order, b)
      && Describes(hd, a) && Describes(hd, b) && a.addr != b.addr
      && a.Footer() in ft && b.Footer() in ft && b.End() <= h.bump
  {
    var a, b := h.blocks[q], h.blocks[q + 1];
    MergeAtMembers(h, q);
    EntryDescribed(hd, head, last, h, -1, a);
    EntryDescribed(hd, head, last, h, -1, b);
    assert TagsOf(hd, ft, a) && TagsOf(hd, ft, b);
  }

  lemma WithoutDistinct(o: seq<Block>, i: nat)
    requires DistinctAddrs(o) && i < |o|
    ensures forall j :: 0 <= j < |o| - 1 ==> Without(o, i)[j].addr != o[i].addr
  {
    forall j | 0 <= j < |o| - 1 ensures Without(o, i)[j].addr != o[i].addr {
      assert Without(o, i)[j] == o[if j < i then j else j + 1];
    }
  }

  /** Wiping the header of an entry that has left the chain leaves the chain alone. */
  lemma WipedChain(hd0: Headers, head0: nat, last0: nat, o: seq<Block>, i: nat,
                   hd: Headers, hd': Headers, head: nat, last: nat)
    requires Linked(hd0, head0, last0, o) && i < |o|
    requires Linked(hd, head, last, Without(o, i))
    requires forall x :: x in hd && x != o[i].addr ==> x in hd' && hd'[x] == hd[x]
    ensures Linked(hd', head, last, Without(o, i))
  {
    var t := Without(o, i);
    WithoutDistinct(o, i);
    SameChain(hd, hd', head, last, t, -1);
  }

  /** The tags after the memory between the two payloads has been wiped and the new footer written. */
  lemma AbsorbedTags(hd: Headers, hd': Headers, ft: Footers, s: seq<Block>, q: nat)
    requires Spread(s) && Tagged(hd, ft, s) && q + 1 < |s| && Joinable(s[q], s[q + 1])
    requires hd'.Keys == WipeHeaders(hd, s[q].Location(), s[q + 1].Footer()).Keys
    ensures Tagged(hd', WipeFooters(ft, s[q].Location(), s[q + 1].Footer())[s[q + 1].Footer() := s[q].addr], JoinAt(s, q))
  {
    JoinWipes(hd, ft, s, q);
    assert TagsOf(hd, ft, s[q]) && TagsOf(hd, ft, s[q + 1]);
    JoinTags(hd, hd', ft, WipeFooters(ft, s[q].Location(), s[q + 1].Footer())[s[q + 1].Footer() := s[q].addr], s, q);
  }

  /** Taking the relabelled entry out leaves what taking out the entry leaves. */
  lemma RemoveRelabelled(o: seq<Block>, a: Block, m: Block)
    requires a in o
    ensures Without(o[IndexOf(o, a) := m], IndexOf(o, a)) == Remove(o, a)
  {
  }

  /** The entry at i, taken out of the chain and linked behind its last entry. */
  lemma MovedChain(hd: Headers, head: nat, last: nat, o: seq<Block>, b: Block)
    requires Linked(hd, head, last, o) && b.addr in hd && Describes(hd, b) && 0 < b.addr
    requires forall j :: 0 <= j < |o| ==> o[j].addr != b.addr
    ensures last != NULL <==> o != []
    ensures last != NULL ==> last in hd && last != b.addr
    ensures var hd1 := if last != NULL then SetNext(hd, last, b.addr) else hd;
      Linked(hd1[b.addr := hd1[b.addr].(previous := last, next := NULL)], if last != NULL then head else b.addr, b.addr, o + [b])
  {
    assert Backward(hd, last, o, |o|);
    if o != [] { assert Forward(hd, o, |o| - 1); }
    var hd1 := if last != NULL then SetNext(hd, last, b.addr) else hd;
    var hd' := hd1[b.addr := hd1[b.addr].(previous := last, next := NULL)];
    forall j | 0 <= j < |o|
      ensures o[j].addr in hd && o[j].addr in hd'
      ensures hd'[o[j].addr] == if j == |o| - 1 then hd[o[j].addr].(next := b.addr) else hd[o[j].addr]
    {
      assert Forward(hd, o, j);
    }
    AppendChain(hd, hd', head, last, o, b);
  }

  /** The two tests of the merging loop find out whether the entry merges with its left neighbour. */
  lemma FooterInFrontOf(hd: Headers, ft: Footers, head: nat, last: nat, h: Heap, i: nat)
    requires Inv(h) && Linked(hd, head, last, h.order) && Tagged(hd, ft, h.blocks) && i < |h.order| && FTR <= h.start
    ensures var b := h.order[i]; var q := LeftOf(h.blocks, b);
      && b in h.blocks && Describes(hd, b) && FTR <= b.addr
      && (b.addr - FTR in ft <==> q >= 0)
      && (q >= 0 ==> ft[b.addr - FTR] == h.blocks[q].addr && Describes(hd, h.blocks[q]))
      && (Merges(h, i) <==> !b.used && q >= 0 && !h.blocks[q].used)
  {
    var b := h.order[i];
    SamePlaces(h.order, h.blocks, b);
    EntryDescribed(hd, head, last, h, -1, b);
    LeftIsPrevious(h, b);
    FooterInFront(hd, ft, h, b);
    var q := LeftOf(h.blocks, b);
    if q >= 0 { EntryDescribed(hd, head, last, h, -1, h.blocks[q]); }
  }

  lemma EntryInBlocks(h: Heap, i: nat)
    requires Inv(h) && i < |h.order|
    ensures h.order[i] in h.blocks
  {
    SamePlaces(h.order, h.blocks, h.order[i]);
  }

  /** Byte x belongs to a block that is FREE or is the one being freed. */
  ghost predicate FreedByte(s: seq<Block>, address: nat, x: nat) {
    exists j :: 0 <= j < |s| && (!s[j].used || s[j].Location() == address) && Covers(s[j], x)
  }

  /** A byte of a live block that is not being freed is no such byte. */
  lemma LiveByteIsNotFreed(s: seq<Block>, lo: nat, hi: nat, b: Block, address: nat, x: nat)
    requires Tiled(s, lo, hi) && b in s && b.used && b.Location() != address && Covers(b, x)
    ensures !FreedByte(s, address, x)
  {
    var p := IndexOf(s, b);
    forall j | 0 <= j < |s| && Covers(s[j], x) ensures s[j] == b {
      assert s[p] == b;
    }
  }

  lemma MarkedByte(h: Heap, m: Heap, b: Block, x: nat)
    requires MergedFrom(h, m) && b in m.blocks && FreeByte(SetUsed(m, b, false).blocks, x)
    ensures FreedByte(h.blocks, b.Location(), x)
  {
    SetUsedInv(m, b, false);
    var s, p := SetUsed(m, b, false).blocks, IndexOf(m.blocks, b);
    var j :| 0 <= j < |s| && !s[j].used && Covers(s[j], x);
    if j == p && b.used {
      UsedOnlyMembers(m.blocks, b);
      UsedOnlyMembers(h.blocks, b);
      var k := IndexOf(h.blocks, b);
      assert Covers(h.blocks[k], x);
    } else {
      assert !m.blocks[j].used && Covers(m.blocks[j], x);
      assert FreeByte(h.blocks, x);
    }
  }

  /** The bytes that become FREE when one block of the merged heap is marked. */
  lemma FreedBytesOf(h: Heap, m: Heap, address: nat)
    requires Inv(h) && m == MergeAll(h)
    ensures forall x :: FreeByte(h.blocks, x) ==> FreedByte(h.blocks, address, x)
    ensures forall b, x :: b in m.blocks && b.Location() == address && FreeByte(SetUsed(m, b, false).blocks, x)
              ==> FreedByte(h.blocks, address, x)
  {
    forall x | FreeByte(h.blocks, x) ensures FreedByte(h.blocks, address, x) {}
    MergeAllCanonical(h);
    forall b, x | b in m.blocks && b.Location() == address && FreeByte(SetUsed(m, b, false).blocks, x)
      ensures FreedByte(h.blocks, address, x)
    {
      MarkedByte(h, m, b, x);
    }
  }
}
