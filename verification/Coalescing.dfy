/** The merge loop, however it wanders, computes one left-to-right pass over the address order. */
module Coalescing {
  import opened Blocks
  import opened HeapModel
  import opened HeapInvariant

  /** Joins every maximal run of contiguous FREE blocks, from left to right. */
  function Coalesce(s: seq<Block>): seq<Block>
    decreases |s|
  {
    if |s| < 2 then s
    else if Joinable(s[0], s[1]) then Coalesce([Join(s[0], s[1])] + s[2..])
    else [s[0]] + Coalesce(s[1..])
  }

  /** No two contiguous blocks are both FREE. */
  ghost predicate Coalesced(s: seq<Block>) {
    forall q :: 0 <= q < |s| - 1 ==> !Joinable(s[q], s[q + 1])
  }

  function UsedOnly(s: seq<Block>): seq<Block> {
    if s == [] then [] else (if s[0].used then [s[0]] else []) + UsedOnly(s[1..])
  }

  ghost predicate Covers(b: Block, x: nat) { b.addr <= x < b.End() }

  /** Byte x belongs to a FREE block: to its header, its payload or its footer. */
  ghost predicate FreeByte(s: seq<Block>, x: nat) {
    exists i :: 0 <= i < |s| && !s[i].used && Covers(s[i], x)
  }

  /** The same USED blocks, in the same order, and the same FREE bytes. */
  ghost predicate SameContents(s: seq<Block>, t: seq<Block>) {
    UsedOnly(s) == UsedOnly(t) && forall x :: FreeByte(s, x) <==> FreeByte(t, x)
  }

  // ----- one merge ----------------------------------------------------------------------

  /** Joining first at q and then at the front is joining first at the front and then at q - 1. */
  lemma JoinBehindJoin(s: seq<Block>, q: nat)
    requires 0 < q && q + 1 < |s| && Joinable(s[0], s[1]) && Joinable(s[q], s[q + 1])
    ensures var t, u := JoinAt(s, q), [Join(s[0], s[1])] + s[2..];
      Joinable(t[0], t[1]) && [Join(t[0], t[1])] + t[2..] == JoinAt(u, q - 1)
  {
    var t, u := JoinAt(s, q), [Join(s[0], s[1])] + s[2..];
    if q == 1 {
      assert t[0] == s[0] && t[1] == Join(s[1], s[2]) && t[2..] == s[3..];
      assert u[0] == Join(s[0], s[1]) && u[1] == s[2] && u[2..] == s[3..];
    } else {
      assert t[0] == s[0] && t[1] == s[1];
      assert t[2..] == JoinAt(s[2..], q - 2) && JoinAt(u, q - 1) == [u[0]] + JoinAt(s[2..], q - 2);
    }
  }

  /** Merging anywhere does not change what the left-to-right pass yields. */
  lemma {:induction false} JoinKeepsCoalesce(s: seq<Block>, q: nat)
    requires q + 1 < |s| && Joinable(s[q], s[q + 1])
    ensures Coalesce(JoinAt(s, q)) == Coalesce(s)
    decreases |s|
  {
    var t := JoinAt(s, q);
    if q == 0 {
      assert t == [Join(s[0], s[1])] + s[2..];
    } else if Joinable(s[0], s[1]) {
      var u := [Join(s[0], s[1])] + s[2..];
      JoinBehindJoin(s, q);
      JoinKeepsCoalesce(u, q - 1);
    } else {
      assert t[1..] == JoinAt(s[1..], q - 1);
      JoinKeepsCoalesce(s[1..], q - 1);
    }
  }

  lemma {:induction false} CoalesceOfCoalesced(s: seq<Block>)
    requires Coalesced(s)
    ensures Coalesce(s) == s
  {
    if |s| >= 2 {
      assert !Joinable(s[0], s[0 + 1]);
      forall q | 0 <= q < |s[1..]| - 1 ensures !Joinable(s[1..][q], s[1..][q + 1]) {
        assert !Joinable(s[q + 1], s[q + 1 + 1]);
      }
      CoalesceOfCoalesced(s[1..]);
    }
  }

  /** The first turn of the left-to-right pass. */
  lemma CoalesceFront(a: Block, b: Block, s: seq<Block>)
    ensures Coalesce([a] + ([b] + s)) == if Joinable(a, b) then Coalesce([Join(a, b)] + s) else [a] + Coalesce([b] + s)
  {
    var t := [a] + ([b] + s);
    assert t[2..] == s && t[1..] == [b] + s;
  }

  /** It makes no difference if the blocks behind the first one have been merged before. */
  lemma {:induction false} CoalesceTailFirst(b: Block, s: seq<Block>)
    ensures Coalesce([b] + Coalesce(s)) == Coalesce([b] + s)
    decreases |s|
  {
    if |s| >= 2 && Joinable(s[0], s[1]) {
      var u := [Join(s[0], s[1])] + s[2..];
      CoalesceTailFirst(b, u);
      assert [b] + u == JoinAt([b] + s, 1);
      JoinKeepsCoalesce([b] + s, 1);
    } else if |s| >= 2 {
      var rest := s[1..];
      CoalesceFront(b, s[0], Coalesce(rest));
      CoalesceFront(b, s[0], rest);
      CoalesceTailFirst(Join(b, s[0]), rest);
      CoalesceTailFirst(s[0], rest);
    }
  }

  lemma CoalesceShort(s: seq<Block>)
    requires |s| < 2
    ensures Coalesce(s) == s
  {
  }

  /** Freeing a block of a merged layout or of the layout it was merged from comes to the same. */
  lemma {:induction false} UnmarkCoalesced(s: seq<Block>, p: nat) returns (p': nat)
    requires p < |s| && s[p].used
    ensures p' < |Coalesce(s)| && Coalesce(s)[p'] == s[p]
    ensures Coalesce(Coalesce(s)[p' := s[p].(used := false)]) == Coalesce(s[p := s[p].(used := false)])
    decreases |s|
  {
    hide Coalesce;
    var f := s[p].(used := false);
    if |s| < 2 {
      p' := p;
      CoalesceShort(s);
      CoalesceShort(s[p := f]);
    } else {
      var a, b, r := s[0], s[1], s[2..];
      assert s == [a] + ([b] + r);
      CoalesceFront(a, b, r);
      if Joinable(a, b) {
        var u := [Join(a, b)] + r;
        p' := UnmarkCoalesced(u, p - 1);
        CoalesceFront(a, b, r[p - 2 := f]);
        assert s[p := f] == [a] + ([b] + r[p - 2 := f]) && u[p - 1 := f] == [Join(a, b)] + r[p - 2 := f];
      } else if p == 0 {
        p' := 0;
        CoalesceTailFirst(f, [b] + r);
        assert s[0 := f] == [f] + ([b] + r) && Coalesce(s)[0 := f] == [f] + Coalesce([b] + r);
      } else {
        var t := [b] + r;
        var q := UnmarkCoalesced(t, p - 1);
        p' := q + 1;
        assert Coalesce(s)[p' := f] == [a] + Coalesce(t)[q := f] && s[p := f] == [a] + t[p - 1 := f];
        CoalesceTailFirst(a, Coalesce(t)[q := f]);
        CoalesceTailFirst(a, t[p - 1 := f]);
      }
    }
  }

  lemma UsedOnlyStep(b: Block, s: seq<Block>)
    ensures UsedOnly([b] + s) == (if b.used then [b] else []) + UsedOnly(s)
  {
    assert ([b] + s)[1..] == s;
  }

  lemma NoneUsed()
    ensures UsedOnly([]) == []
  {
  }

  lemma {:induction false} UsedOnlyConcat(s: seq<Block>, t: seq<Block>)
    ensures UsedOnly(s + t) == UsedOnly(s) + UsedOnly(t)
  {
    hide UsedOnly;
    if s == [] {
      NoneUsed();
      assert s + t == t;
    } else {
      assert s == [s[0]] + s[1..] && s + t == [s[0]] + (s[1..] + t);
      UsedOnlyStep(s[0], s[1..]);
      UsedOnlyStep(s[0], s[1..] + t);
      UsedOnlyConcat(s[1..], t);
    }
  }

  lemma JoinKeepsUsed(s: seq<Block>, q: nat)
    requires q + 1 < |s| && Joinable(s[q], s[q + 1])
    ensures UsedOnly(JoinAt(s, q)) == UsedOnly(s)
  {
    hide UsedOnly;
    var a, b, j := s[..q], s[q + 2..], Join(s[q], s[q + 1]);
    var pair := [s[q]] + ([s[q + 1]] + b);
    assert s == a + pair && JoinAt(s, q) == a + ([j] + b);
    UsedOnlyStep(s[q], [s[q + 1]] + b);
    UsedOnlyStep(s[q + 1], b);
    UsedOnlyStep(j, b);
    UsedOnlyConcat(a, pair);
    UsedOnlyConcat(a, [j] + b);
  }

  /** The bytes that belong to FREE blocks are the same before and after a merge. */
  lemma JoinKeepsFreeByte(s: seq<Block>, q: nat, x: nat)
    requires q + 1 < |s| && Joinable(s[q], s[q + 1])
    ensures FreeByte(JoinAt(s, q), x) <==> FreeByte(s, x)
  {
    var t := JoinAt(s, q);
    assert Covers(t[q], x) <==> Covers(s[q], x) || Covers(s[q + 1], x);
    if i :| 0 <= i < |s| && !s[i].used && Covers(s[i], x) {
      var j := if i <= q then i else i - 1;
      assert !t[j].used && Covers(t[j], x);
    }
    if j :| 0 <= j < |t| && !t[j].used && Covers(t[j], x) {
      if j != q {
        var i := if j < q then j else j + 1;
        assert !s[i].used && Covers(s[i], x);
      }
    }
  }

  /** A merge clears no byte outside the two blocks. */
  lemma MergedBytesAreFree(s: seq<Block>, q: nat, x: nat)
    requires q + 1 < |s| && Joinable(s[q], s[q + 1])
    requires s[q].Location() <= x < s[q + 1].Footer()
    ensures FreeByte(s, x)
  {
    assert Covers(s[q], x) || Covers(s[q + 1], x);
  }

  lemma JoinKeepsContents(s: seq<Block>, q: nat)
    requires q + 1 < |s| && Joinable(s[q], s[q + 1])
    ensures SameContents(s, JoinAt(s, q))
  {
    JoinKeepsUsed(s, q);
    forall x ensures FreeByte(s, x) <==> FreeByte(JoinAt(s, q), x) { JoinKeepsFreeByte(s, q, x); }
  }

  lemma SameContentsReflexive(s: seq<Block>)
    ensures SameContents(s, s)
  {
  }

  lemma SameContentsTransitive(s: seq<Block>, t: seq<Block>, u: seq<Block>)
    requires SameContents(s, t) && SameContents(t, u)
    ensures SameContents(s, u)
  {
    forall x ensures FreeByte(s, x) <==> FreeByte(u, x) { assert FreeByte(t, x) <==> FreeByte(u, x); }
  }

  // ----- the whole loop -----------------------------------------------------------------

  lemma JoinableMerges(h: Heap, q: nat)
    requires Inv(h) && q + 1 < |h.blocks| && Joinable(h.blocks[q], h.blocks[q + 1])
    ensures exists i :: 0 <= i < |h.order| && Merges(h, i)
  {
    var b := h.blocks[q + 1];
    SamePlaces(h.order, h.blocks, b);
    TiledIsSpreadIn(h);
    hide Inv;
    LeftIsPrevious(h, b);
    var p := LeftOf(h.blocks, b);
    assert p >= 0;
    SpreadApart(h.blocks, p, q);
    assert p == q;
    assert Merges(h, IndexOf(h.order, b));
  }

  lemma CoalescedIffNoMerge(h: Heap)
    requires Inv(h)
    ensures Coalesced(h.blocks) <==> forall i :: 0 <= i < |h.order| ==> !Merges(h, i)
  {
    if Coalesced(h.blocks) {
      forall i | 0 <= i < |h.order| ensures !Merges(h, i) {
        if Merges(h, i) { MergesJoinable(h, i); }
      }
    } else {
      var q :| 0 <= q < |h.blocks| - 1 && Joinable(h.blocks[q], h.blocks[q + 1]);
      JoinableMerges(h, q);
    }
  }

  /** What a stretch of the loop has kept, and where the blocks stand when it is done. */
  ghost predicate MergedFrom(h: Heap, m: Heap) {
    && Inv(m)
    && m.blocks == Coalesce(h.blocks)
    && Coalesced(m.blocks)
    && SameContents(h.blocks, m.blocks)
    && m.start == h.start && m.bump == h.bump && m.gaps == h.gaps
  }

  lemma MergedThen(h: Heap, q: nat, m: Heap)
    requires q + 1 < |h.blocks| && Joinable(h.blocks[q], h.blocks[q + 1])
    requires MergedFrom(MergeAt(h, q), m)
    ensures MergedFrom(h, m)
  {
    JoinKeepsCoalesce(h.blocks, q);
    JoinKeepsContents(h.blocks, q);
    SameContentsTransitive(h.blocks, MergeAt(h, q).blocks, m.blocks);
  }

  lemma NothingMerged(h: Heap)
    requires Inv(h) && forall j :: 0 <= j < |h.order| ==> !Merges(h, j)
    ensures MergedFrom(h, h)
  {
    CoalescedIffNoMerge(h);
    CoalesceOfCoalesced(h.blocks);
  }

  lemma MergesAt(h: Heap, i: nat)
    requires i < |h.order| && Merges(h, i)
    ensures LeftOf(h.blocks, h.order[i]) >= 0
  {
  }

  lemma MergeAtShorter(h: Heap, q: nat)
    requires q + 1 < |h.blocks|
    ensures |MergeAt(h, q).blocks| < |h.blocks|
  {
  }

  lemma {:induction false} MergeFromCanonical(h: Heap, i: nat)
    requires Inv(h) && i <= |h.order|
    requires forall j :: 0 <= j < i ==> !Merges(h, j)
    ensures MergedFrom(h, MergeFrom(h, i))
    decreases |h.blocks|, |h.order| - i
  {
    hide Inv, SameContents, Merges, MergeAt, Coalesce, MergedFrom;
    if i == |h.order| {
      NothingMerged(h);
    } else if Merges(h, i) {
      var q := LeftOf(h.blocks, h.order[i]);
      MergesAt(h, i);
      MergesJoinable(h, i);
      MergeAtInv(h, q);
      MergeAtShorter(h, q);
      MergeFromCanonical(MergeAt(h, q), 0);
      MergedThen(h, q, MergeFrom(MergeAt(h, q), 0));
    } else {
      MergeFromCanonical(h, i + 1);
    }
  }

  /** Visiting blocks in size order and restarting after every merge changes nothing about the layout. */
  lemma MergeAllCanonical(h: Heap)
    requires Inv(h)
    ensures MergedFrom(h, MergeAll(h))
  {
    MergeFromCanonical(h, 0);
  }

  /** After the loop no FREE block ends where another one starts. */
  lemma NoFreeNeighbours(h: Heap)
    requires Inv(h)
    ensures var s := MergeAll(h).blocks;
      forall i, j :: 0 <= i < |s| && 0 <= j < |s| && !s[i].used && !s[j].used ==> s[i].End() != s[j].addr
  {
    var m := MergeAll(h);
    MergeAllCanonical(h);
    TiledIsSpreadIn(m);
    hide Inv;
    forall i, j | 0 <= i < |m.blocks| && 0 <= j < |m.blocks| && !m.blocks[i].used && !m.blocks[j].used
      ensures m.blocks[i].End() != m.blocks[j].addr
    {
      EndsBefore(m.blocks, i, j);
      if i + 1 < |m.blocks| { assert !Joinable(m.blocks[i], m.blocks[i + 1]); }
      if i + 1 < j { assert Before(m.blocks, i, i + 1) && Before(m.blocks, i + 1, j); }
    }
  }

  /** One turn of the loop at list position i, and what stays the same from the start of the loop. */
  lemma MergeTurn(h0: Heap, h: Heap, i: nat)
    requires Inv(h) && i < |h.order| && MergeFrom(h, i) == MergeAll(h0) && SameContents(h0.blocks, h.blocks)
    ensures if Merges(h, i) then
        var q := LeftOf(h.blocks, h.order[i]);
        && Joinable(h.blocks[q], h.blocks[q + 1])
        && MergeAll(MergeAt(h, q)) == MergeAll(h0) && SameContents(h0.blocks, MergeAt(h, q).blocks)
        && (forall x: nat :: h.blocks[q].Location() <= x < h.blocks[q + 1].Footer() ==> FreeByte(h0.blocks, x))
      else MergeFrom(h, i + 1) == MergeAll(h0)
  {
    if Merges(h, i) {
      var q := LeftOf(h.blocks, h.order[i]);
      MergesJoinable(h, i);
      JoinKeepsContents(h.blocks, q);
      SameContentsTransitive(h0.blocks, h.blocks, JoinAt(h.blocks, q));
      forall x: nat | h.blocks[q].Location() <= x < h.blocks[q + 1].Footer() ensures FreeByte(h0.blocks, x) {
        MergedBytesAreFree(h.blocks, q, x);
      }
    }
  }

  lemma {:induction false} MergeNothing(h: Heap, i: nat)
    requires Inv(h) && Coalesced(h.blocks)
    ensures MergeFrom(h, i) == h
    decreases |h.order| - i
  {
    CoalescedIffNoMerge(h);
    if i < |h.order| { MergeNothing(h, i + 1); }
  }

  // ----- the layout is determined by the USED blocks and the FREE bytes ---------------------

  ghost predicate Disjoint(s: seq<Block>) {
    forall i, j :: 0 <= i < j < |s| ==> s[i].End() <= s[j].addr
  }

  lemma {:induction false} UsedOnlyMembers(s: seq<Block>, b: Block)
    ensures b in UsedOnly(s) <==> b in s && b.used
  {
    if s != [] { UsedOnlyMembers(s[1..], b); }
  }

  lemma FirstIsLeast(s: seq<Block>, t: seq<Block>)
    requires Disjoint(s) && Disjoint(t) && SameContents(s, t) && s != []
    ensures t != [] && t[0].addr <= s[0].addr
  {
    if s[0].used {
      UsedOnlyMembers(s, s[0]);
      UsedOnlyMembers(t, s[0]);
      var j := IndexOf(t, s[0]);
      assert t[j] == s[0] && t[0].addr <= t[j].addr;
    } else {
      assert Covers(s[0], s[0].addr);
      assert FreeByte(t, s[0].addr);
      var j :| 0 <= j < |t| && !t[j].used && Covers(t[j], s[0].addr);
      assert t[0].addr <= t[j].addr;
    }
  }

  lemma FreeHeadFree(s: seq<Block>, t: seq<Block>)
    requires Disjoint(s) && Disjoint(t) && SameContents(s, t)
    requires s != [] && t != [] && s[0].addr == t[0].addr && !s[0].used
    ensures !t[0].used
  {
    assert Covers(s[0], s[0].addr);
    assert FreeByte(t, s[0].addr);
    var j :| 0 <= j < |t| && !t[j].used && Covers(t[j], s[0].addr);
    assert Covers(t[0], s[0].addr);
  }

  /** Right after a FREE first block comes a byte that is not FREE. */
  lemma FreeHeadEnds(s: seq<Block>)
    requires Disjoint(s) && Coalesced(s) && s != [] && !s[0].used
    ensures !FreeByte(s, s[0].End())
  {
    var x := s[0].End();
    forall j | 0 <= j < |s| && !s[j].used ensures !Covers(s[j], x) {
      if j == 1 {
        assert !Joinable(s[0], s[0 + 1]);
      } else if j > 1 {
        assert x <= s[1].addr < s[1].End() <= s[j].addr;
      }
    }
  }

  lemma FreeHeadLongest(s: seq<Block>, t: seq<Block>)
    requires Disjoint(s) && Disjoint(t) && SameContents(s, t) && Coalesced(s)
    requires s != [] && t != [] && s[0].addr == t[0].addr && !s[0].used && !t[0].used
    ensures t[0].End() <= s[0].End()
  {
    FreeHeadEnds(s);
    assert !FreeByte(t, s[0].End());
    assert !Covers(t[0], s[0].End());
  }

  lemma FreeByteTail(s: seq<Block>, x: nat)
    requires Disjoint(s) && s != []
    ensures FreeByte(s[1..], x) <==> FreeByte(s, x) && s[0].End() <= x
  {
    if i :| 0 <= i < |s[1..]| && !s[1..][i].used && Covers(s[1..][i], x) {
      assert s[i + 1] == s[1..][i];
    }
    if FreeByte(s, x) && s[0].End() <= x {
      var i :| 0 <= i < |s| && !s[i].used && Covers(s[i], x);
      assert s[1..][i - 1] == s[i];
    }
  }

  lemma HeadsEqual(s: seq<Block>, t: seq<Block>)
    requires Disjoint(s) && Disjoint(t) && SameContents(s, t) && Coalesced(s) && Coalesced(t)
    requires s != [] && t != []
    ensures s[0] == t[0]
  {
    FirstIsLeast(s, t);
    FirstIsLeast(t, s);
    if !s[0].used { FreeHeadFree(s, t); }
    if !t[0].used { FreeHeadFree(t, s); }
    if s[0].used {
      assert UsedOnly(s)[0] == UsedOnly(t)[0];
    } else {
      FreeHeadLongest(s, t);
      FreeHeadLongest(t, s);
    }
  }

  lemma CoalescedTail(s: seq<Block>)
    requires Coalesced(s) && s != []
    ensures Coalesced(s[1..])
  {
    forall q | 0 <= q < |s[1..]| - 1 ensures !Joinable(s[1..][q], s[1..][q + 1]) {
      assert !Joinable(s[q + 1], s[q + 1 + 1]);
    }
  }

  /** Two coalesced layouts with the same USED blocks and the same FREE bytes are the same layout. */
  lemma {:induction false} CoalescedUnique(s: seq<Block>, t: seq<Block>)
    requires Disjoint(s) && Disjoint(t) && SameContents(s, t) && Coalesced(s) && Coalesced(t)
    ensures s == t
  {
    if s == [] {
      if t != [] { FirstIsLeast(t, s); }
    } else {
      FirstIsLeast(s, t);
      HeadsEqual(s, t);
      assert UsedOnly(s[1..]) == UsedOnly(t[1..]) by {
        assert UsedOnly(s) == (if s[0].used then [s[0]] else []) + UsedOnly(s[1..]);
        assert UsedOnly(t) == (if s[0].used then [s[0]] else []) + UsedOnly(t[1..]);
        if s[0].used {
          assert UsedOnly(s)[1..] == UsedOnly(s[1..]);
          assert UsedOnly(t)[1..] == UsedOnly(t[1..]);
        } else {
          assert UsedOnly(s) == UsedOnly(s[1..]);
          assert UsedOnly(t) == UsedOnly(t[1..]);
        }
      }
      forall x ensures FreeByte(s[1..], x) <==> FreeByte(t[1..], x) { FreeByteTail(s, x); FreeByteTail(t, x); }
      CoalescedTail(s);
      CoalescedTail(t);
      CoalescedUnique(s[1..], t[1..]);
      assert s == [s[0]] + s[1..] && t == [t[0]] + t[1..];
    }
  }

  /** Any way of merging that ends with nothing left to merge ends in the same place. */
  lemma CoalescingIsCanonical(h: Heap, m: Heap)
    requires Inv(h) && Inv(m)
    requires SameContents(h.blocks, m.blocks) && Coalesced(m.blocks)
    ensures m.blocks == MergeAll(h).blocks
  {
    MergeAllCanonical(h);
    CoalescedUnique(m.blocks, MergeAll(h).blocks);
  }
}
