/** Headers and footers in memory, and what overwriting a stretch of memory does to them. */
module Tags {
  import opened Blocks
  import opened HeapModel
  import opened HeapInvariant
  import opened Links

  /** A tag of n bytes at a shares a byte with [lo, hi). */
  predicate Hits(a: nat, n: nat, lo: nat, hi: nat) { lo < hi && a < hi && lo < a + n }

  /** The tags that survive when the bytes [lo, hi) are overwritten. */
  function WipeHeaders(hd: Headers, lo: nat, hi: nat): Headers {
    map a | a in hd && !Hits(a, HDR, lo, hi) :: hd[a]
  }

  function WipeFooters(ft: Footers, lo: nat, hi: nat): Footers {
    map a | a in ft && !Hits(a, FTR, lo, hi) :: ft[a]
  }

  lemma WipeNothing(hd: Headers, ft: Footers, lo: nat)
    ensures WipeHeaders(hd, lo, lo) == hd && WipeFooters(ft, lo, lo) == ft
  {
  }

  lemma WipeStep(hd: Headers, ft: Footers, lo: nat, mid: nat)
    requires lo <= mid
    ensures WipeHeaders(WipeHeaders(hd, lo, mid), mid, mid + 1) == WipeHeaders(hd, lo, mid + 1)
    ensures WipeFooters(WipeFooters(ft, lo, mid), mid, mid + 1) == WipeFooters(ft, lo, mid + 1)
  {
  }

  lemma PayloadMisses(a: Block, b: Block, lo: nat, hi: nat)
    requires a == b || Apart(a, b)
    requires b.Location() <= lo && hi <= b.Footer()
    ensures !Hits(a.addr, HDR, lo, hi) && !Hits(a.Footer(), FTR, lo, hi)
  {
  }

  /** Writing inside one block's payload destroys no tag of any block. */
  lemma PayloadHoldsNoTags(hd: Headers, ft: Footers, s: seq<Block>, p: nat, lo: nat, hi: nat)
    requires Spread(s) && Tagged(hd, ft, s) && p < |s|
    requires s[p].Location() <= lo && hi <= s[p].Footer()
    ensures WipeHeaders(hd, lo, hi) == hd && WipeFooters(ft, lo, hi) == ft
  {
    forall a | a in hd ensures !Hits(a, HDR, lo, hi) {
      assert HeaderOwned(s, a);
      SpreadApart(s, AtAddr(s, a), p);
      PayloadMisses(s[AtAddr(s, a)], s[p], lo, hi);
    }
    forall f | f in ft ensures !Hits(f, FTR, lo, hi) {
      assert FooterOwned(s, f);
      SpreadApart(s, AtFooter(s, f), p);
      PayloadMisses(s[AtFooter(s, f)], s[p], lo, hi);
    }
  }

  lemma AppendTags(hd: Headers, ft: Footers, s: seq<Block>, b: Block, e: Header)
    requires Tagged(hd, ft, s)
    requires forall i :: 0 <= i < |s| ==> s[i].End() <= b.addr
    ensures Tagged(hd[b.addr := e], ft[b.Footer() := b.addr], s + [b])
  {
    var t, hd', ft' := s + [b], hd[b.addr := e], ft[b.Footer() := b.addr];
    assert t[|s|] == b;
    forall i | 0 <= i < |t| ensures TagsOf(hd', ft', t[i]) {
      if i < |s| { assert TagsOf(hd, ft, s[i]); }
    }
    forall a | a in hd' ensures HeaderOwned(t, a) {
      if a != b.addr { assert HeaderOwned(s, a) && t[AtAddr(s, a)].addr == a; }
    }
    forall f | f in ft' ensures FooterOwned(t, f) {
      if f != b.Footer() { assert FooterOwned(s, f) && t[AtFooter(s, f)].Footer() == f; }
    }
  }

  lemma RelabelTags(hd: Headers, hd': Headers, ft: Footers, s: seq<Block>, p: nat, used: bool)
    requires Tagged(hd, ft, s) && p < |s| && hd'.Keys == hd.Keys
    ensures Tagged(hd', ft, s[p := s[p].(used := used)])
  {
    var t := s[p := s[p].(used := used)];
    forall i | 0 <= i < |t| ensures TagsOf(hd', ft, t[i]) { assert TagsOf(hd, ft, s[i]); }
    forall a | a in hd' ensures HeaderOwned(t, a) { assert HeaderOwned(s, a) && t[AtAddr(s, a)].addr == a; }
    forall f | f in ft ensures FooterOwned(t, f) { assert FooterOwned(s, f) && t[AtFooter(s, f)].Footer() == f; }
  }

  lemma SameTags(hd: Headers, hd': Headers, ft: Footers, s: seq<Block>)
    requires Tagged(hd, ft, s) && hd'.Keys == hd.Keys
    ensures Tagged(hd', ft, s)
  {
    forall i | 0 <= i < |s| ensures TagsOf(hd', ft, s[i]) { assert TagsOf(hd, ft, s[i]); }
  }

  lemma CutIndex(s: seq<Block>, p: nat, size: nat, i: nat)
    requires p < |s| && Splits(s[p], size) && i < |s|
    ensures Cut(s, p, size)[p] == Taken(s[p], size) && Cut(s, p, size)[p + 1] == Rest(s[p], size)
    ensures i != p ==> Cut(s, p, size)[if i < p then i else i + 1] == s[i]
  {
  }

  /** The footers after a split: one for the part in front, and the old one naming the new header. */
  function CutFooters(ft: Footers, b: Block, size: nat): Footers
    requires Splits(b, size)
  {
    ft[Taken(b, size).Footer() := b.addr][b.Footer() := Rest(b, size).addr]
  }

  lemma CutOtherTags(hd: Headers, hd': Headers, ft: Footers, b: Block, size: nat, c: Block)
    requires Splits(b, size) && Apart(b, c) && TagsOf(hd, ft, c) && hd.Keys <= hd'.Keys
    ensures TagsOf(hd', CutFooters(ft, b, size), c)
  {
  }

  lemma CutTags(hd: Headers, hd': Headers, ft: Footers, s: seq<Block>, p: nat, size: nat)
    requires Spread(s) && Tagged(hd, ft, s) && p < |s| && Splits(s[p], size)
    requires hd'.Keys == hd.Keys + {Rest(s[p], size).addr}
    ensures Tagged(hd', CutFooters(ft, s[p], size), Cut(s, p, size))
  {
    var t, b, ft' := Cut(s, p, size), s[p], CutFooters(ft, s[p], size);
    assert TagsOf(hd, ft, b) && t[p] == Taken(b, size) && t[p + 1] == Rest(b, size);
    forall j | 0 <= j < |t| ensures TagsOf(hd', ft', t[j]) {
      if j != p && j != p + 1 {
        var i := if j < p then j else j - 1;
        CutIndex(s, p, size, i);
        SpreadApart(s, i, p);
        assert TagsOf(hd, ft, s[i]);
        CutOtherTags(hd, hd', ft, b, size, s[i]);
      }
    }
    forall a | a in hd' ensures HeaderOwned(t, a) {
      if a != t[p + 1].addr && a != b.addr {
        assert HeaderOwned(s, a);
        CutIndex(s, p, size, AtAddr(s, a));
      }
    }
    forall f | f in ft' ensures FooterOwned(t, f) {
      if f != t[p].Footer() && f != t[p + 1].Footer() {
        assert FooterOwned(s, f);
        CutIndex(s, p, size, AtFooter(s, f));
      }
    }
  }

  lemma JoinHits(a: Block, b: Block, c: Block)
    requires a.End() == b.addr && (c == a || c == b || (Apart(a, c) && Apart(b, c)))
    ensures Hits(c.addr, HDR, a.Location(), b.Footer()) <==> c == b
    ensures Hits(c.Footer(), FTR, a.Location(), b.Footer()) <==> c == a
  {
  }

  /** Clearing the payload of the merged block takes away exactly the footer and the header in the middle. */
  lemma JoinWipes(hd: Headers, ft: Footers, s: seq<Block>, q: nat)
    requires Spread(s) && Tagged(hd, ft, s) && q + 1 < |s| && s[q].End() == s[q + 1].addr
    ensures WipeHeaders(hd, s[q].Location(), s[q + 1].Footer()).Keys == hd.Keys - {s[q + 1].addr}
    ensures WipeFooters(ft, s[q].Location(), s[q + 1].Footer()).Keys == ft.Keys - {s[q].Footer()}
  {
    var x, y := s[q].Location(), s[q + 1].Footer();
    forall a | a in hd ensures Hits(a, HDR, x, y) <==> a == s[q + 1].addr {
      var i := AtAddr(s, a);
      assert HeaderOwned(s, a);
      SpreadApart(s, i, q);
      SpreadApart(s, i, q + 1);
      JoinHits(s[q], s[q + 1], s[i]);
    }
    forall f | f in ft ensures Hits(f, FTR, x, y) <==> f == s[q].Footer() {
      var i := AtFooter(s, f);
      assert FooterOwned(s, f);
      SpreadApart(s, i, q);
      SpreadApart(s, i, q + 1);
      JoinHits(s[q], s[q + 1], s[i]);
    }
  }

  lemma JoinIndex(s: seq<Block>, q: nat, i: nat)
    requires q + 1 < |s| && i < |s|
    ensures JoinAt(s, q)[q] == Join(s[q], s[q + 1])
    ensures i != q && i != q + 1 ==> JoinAt(s, q)[if i < q then i else i - 1] == s[i]
  {
  }

  /** The tags that a merge of a and b takes away and rewrites. */
  ghost predicate JoinedTags(hd: Headers, hd': Headers, ft: Footers, ft': Footers, a: Block, b: Block) {
    && hd'.Keys == hd.Keys - {b.addr}
    && ft'.Keys == ft.Keys - {a.Footer()}
    && forall f :: f in ft' ==> ft'[f] == if f == b.Footer() then a.addr else ft[f]
  }

  lemma JoinOtherTags(hd: Headers, hd': Headers, ft: Footers, ft': Footers, a: Block, b: Block, c: Block)
    requires Joinable(a, b) && JoinedTags(hd, hd', ft, ft', a, b)
    requires Apart(a, c) && Apart(b, c) && TagsOf(hd, ft, c)
    ensures TagsOf(hd', ft', c)
  {
  }

  lemma JoinTags(hd: Headers, hd': Headers, ft: Footers, ft': Footers, s: seq<Block>, q: nat)
    requires Spread(s) && Tagged(hd, ft, s) && q + 1 < |s| && Joinable(s[q], s[q + 1])
    requires JoinedTags(hd, hd', ft, ft', s[q], s[q + 1])
    ensures Tagged(hd', ft', JoinAt(s, q))
  {
    var t := JoinAt(s, q);
    JoinIndex(s, q, q);
    assert TagsOf(hd, ft, s[q]) && TagsOf(hd, ft, s[q + 1]);
    forall j | 0 <= j < |t| ensures TagsOf(hd', ft', t[j]) {
      if j != q {
        var i := if j < q then j else j + 1;
        JoinIndex(s, q, i);
        SpreadApart(s, i, q);
        SpreadApart(s, i, q + 1);
        JoinOtherTags(hd, hd', ft, ft', s[q], s[q + 1], s[i]);
      }
    }
    forall a | a in hd' ensures HeaderOwned(t, a) {
      if a != s[q].addr {
        assert HeaderOwned(s, a);
        JoinIndex(s, q, AtAddr(s, a));
      }
    }
    forall f | f in ft' ensures FooterOwned(t, f) {
      if f != s[q + 1].Footer() {
        assert FooterOwned(s, f);
        JoinIndex(s, q, AtFooter(s, f));
      }
    }
  }

  /** The footer in front of a header is there exactly when a block ends where this one starts. */
  lemma FooterInFront(hd: Headers, ft: Footers, h: Heap, b: Block)
    requires Tagged(hd, ft, h.blocks) && b in h.blocks && FTR <= b.addr
    requires var q := LeftOf(h.blocks, b); q == -1 ==> forall c :: c in h.blocks ==> c.End() != b.addr
    ensures var q := LeftOf(h.blocks, b);
      && (b.addr - FTR in ft <==> q >= 0)
      && (q >= 0 ==> ft[b.addr - FTR] == h.blocks[q].addr)
  {
    var q := LeftOf(h.blocks, b);
    if q >= 0 { assert TagsOf(hd, ft, h.blocks[q]); }
    if b.addr - FTR in ft {
      assert FooterOwned(h.blocks, b.addr - FTR);
      var i := AtFooter(h.blocks, b.addr - FTR);
      assert h.blocks[i].End() == b.addr;
    }
  }

  // ----- what insert_heap_entry writes ---------------------------------------------------------

  lemma OrderBelow(h: Heap)
    requires Growable(h)
    ensures forall j :: 0 <= j < |h.order| ==> h.order[j].addr < h.bump
  {
    forall j | 0 <= j < |h.order| ensures h.order[j].addr < h.bump {
      SamePlaces(h.order, h.blocks, h.order[j]);
      assert h.blocks[IndexOf(h.blocks, h.order[j])] == h.order[j];
    }
  }

  /** The old last entry is pointed at the new one, whose header is filled in. */
  function InsertWrites(hd: Headers, last: nat, b: Block): Headers {
    (if last in hd then SetNext(hd, last, b.addr) else hd)[b.addr := Header(b.Location(), b.size, b.used, NULL, last)]
  }

  lemma InsertChain(hd: Headers, head: nat, last: nat, o: seq<Block>, b: Block)
    requires Linked(hd, head, last, o) && 0 < b.addr
    requires forall j :: 0 <= j < |o| ==> o[j].addr != b.addr
    requires o == [] ==> NULL !in hd
    ensures Linked(InsertWrites(hd, last, b), if o == [] then b.addr else head, b.addr, o + [b])
  {
    assert Backward(hd, last, o, |o|);
    var hd' := InsertWrites(hd, last, b);
    forall j | 0 <= j < |o|
      ensures o[j].addr in hd && o[j].addr in hd'
      ensures hd'[o[j].addr] == if j == |o| - 1 then hd[o[j].addr].(next := b.addr) else hd[o[j].addr]
    {
      assert Forward(hd, o, j);
    }
    AppendChain(hd, hd', head, last, o, b);
  }

  lemma NoNullHeader(hd: Headers, ft: Footers, h: Heap)
    requires Growable(h) && Tagged(hd, ft, h.blocks)
    ensures NULL !in hd
  {
    assert NULL in hd ==> HeaderOwned(h.blocks, NULL);
  }

  /** Chain and tags after the writes of insert_heap_entry, before the list is sorted. */
  lemma InsertLinks(hd: Headers, ft: Footers, head: nat, last: nat, h: Heap, b: Block)
    requires Growable(h) && Linked(hd, head, last, h.order) && Tagged(hd, ft, h.blocks)
    requires b.addr == h.bump
    ensures Linked(InsertWrites(hd, last, b), if head == NULL then b.addr else head, b.addr, h.order + [b])
    ensures Tagged(InsertWrites(hd, last, b), ft[b.Footer() := b.addr], h.blocks + [b])
    ensures head == NULL <==> h.order == []
    ensures if head == NULL then last == NULL && last !in hd else last in hd
  {
    OrderBelow(h);
    NoNullHeader(hd, ft, h);
    InsertChain(hd, head, last, h.order, b);
    assert Backward(hd, last, h.order, |h.order|);
    if h.order != [] {
      assert Forward(hd, h.order, 0) && Forward(hd, h.order, |h.order| - 1);
      SameTags(hd, SetNext(hd, last, b.addr), ft, h.blocks);
      AppendTags(SetNext(hd, last, b.addr), ft, h.blocks, b, Header(b.Location(), b.size, b.used, NULL, last));
    } else {
      AppendTags(hd, ft, h.blocks, b, Header(b.Location(), b.size, b.used, NULL, last));
    }
  }
}
